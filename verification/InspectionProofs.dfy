/** What every run of the inspection-record service keeps. */
module InspectionProofs {
  import opened JsText
  import opened Wrappers
  import opened ChecklistEngine
  import opened RecordRules
  import opened InspectionRecords

  // ---------------------------------------------------------- stored answers

  lemma {:induction false} ResponsesDomain(rows: seq<ResultRow>, n: nat, id: nat)
    requires n <= |rows|
    ensures id in ResponsesTo(rows, n) <==> exists i :: 0 <= i < n && rows[i].itemId == id
    ensures id in ResponsesTo(rows, n) ==>
      ResponsesTo(rows, n)[id].value.Some? && ResponsesTo(rows, n)[id].value.value.StatusValue?
  {
    if n > 0 { ResponsesDomain(rows, n - 1, id); }
  }

  /** A failing item has a stored row. */
  lemma FailureHasRow(item: Item, rows: seq<ResultRow>)
    requires IsFailure(item, Lookup(ResponsesOf(rows), item.id))
    ensures RowIndex(rows, item.id) < |rows|
  {
    ResponsesDomain(rows, |rows|, item.id);
  }

  // ------------------------------------------------------ corrective actions

  predicate DistinctActions(actions: seq<Action>) {
    forall i, j :: 0 <= i < j < |actions| ==> actions[i].itemId != actions[j].itemId
  }

  /** Raising actions only appends, never raises a second one for a result,
      and leaves none out that is due. */
  lemma {:induction false} RaiseFacts(actions: seq<Action>, items: seq<Item>, rs: ResponseMap, rows: seq<ResultRow>, user: nat, n: nat)
    requires n <= |items|
    ensures var r := RaiseTo(actions, items, rs, rows, user, n);
            && actions <= r
            && (DistinctActions(actions) ==> DistinctActions(r))
            && forall i :: 0 <= i < n && NeedsAction(items[i], rs) && RowIndex(rows, items[i].id) < |rows|
                           ==> HasAction(r, items[i].id)
  {
    hide NeedsAction, RowIndex;
    if n > 0 {
      RaiseFacts(actions, items, rs, rows, user, n - 1);
      var before, r := RaiseTo(actions, items, rs, rows, user, n - 1), RaiseTo(actions, items, rs, rows, user, n);
      forall i | 0 <= i < n && NeedsAction(items[i], rs) && RowIndex(rows, items[i].id) < |rows|
        ensures HasAction(r, items[i].id)
      {
        if HasAction(before, items[i].id) {
          var k :| 0 <= k < |before| && before[k].itemId == items[i].id;
          assert r[k].itemId == items[i].id;
        } else {
          assert r[|r| - 1].itemId == items[i].id;
        }
      }
    }
  }

  // --------------------------------------------------------------- invariant

  predicate SoundPeople(r: Record) {
    && (r.status.DRAFT? || r.status.PENDING_CHECK? || r.status.PENDING_VERIFICATION? || r.status.VERIFIED?
        || r.status.RETURNED_FOR_CORRECTION? || r.status == RecordStatus.REJECTED || r.status.ARCHIVED?)
    && ApprovedCount(r.approvals, CheckApproval) == (if r.checkedBy.Some? then 1 else 0)
    && ApprovedCount(r.approvals, VerifyApproval) == (if r.verifiedBy.Some? then 1 else 0)
    && (r.checkedBy.Some? ==> r.checkedBy.value != r.createdBy && Approval(CheckApproval, true, r.checkedBy.value) in r.approvals)
    && (r.status.PENDING_VERIFICATION? || r.status.VERIFIED? || r.status.ARCHIVED? ==> r.checkedBy.Some?)
    && (r.verifiedBy.Some? <==> r.status.VERIFIED? || r.status.ARCHIVED?)
    && (r.verifiedBy.Some? ==>
          && r.verifiedBy.value != r.createdBy && r.verifiedBy != r.checkedBy
          && Approval(VerifyApproval, true, r.verifiedBy.value) in r.approvals)
  }

  predicate ActionsDue(r: Record, items: seq<Item>) {
    forall i :: 0 <= i < |items| && NeedsAction(items[i], ResponsesOf(r.rows)) ==> HasAction(r.actions, items[i].id)
  }

  predicate SoundTruck(r: Record, items: seq<Item>) {
    r.truck.Some? ==>
      && r.truck.value.recommendedDecision == Some(RecommendedDecision(items, ResponsesOf(r.rows)))
      && (|DetectCriticalFailures(items, ResponsesOf(r.rows))| > 0 ==>
            r.truck.value.loadingDecision in {LOADING_BLOCKED, LoadingDecision.REJECTED})
  }

  /** What holds of a record that has been submitted and not handed back. */
  predicate SoundSubmitted(r: Record, items: seq<Item>) {
    !IsEditable(r.status) ==>
      && ValidationOf(items, ResponsesOf(r.rows)).isValid
      && SoundTruck(r, items)
      && ActionsDue(r, items)
  }

  predicate Sound(r: Record, items: seq<Item>) {
    SoundPeople(r) && DistinctActions(r.actions) && SoundSubmitted(r, items)
  }

  predicate AllSound(records: seq<Record>, defs: Definitions) {
    forall k :: 0 <= k < |records| ==> Sound(records[k], ItemsOf(records[k], defs))
  }

  lemma NewRecordSound(user: nat, key: Key, area: Str, version: nat, re: Option<nat>, items: seq<Item>)
    ensures Sound(NewRecord(user, key, area, version, re), items)
  {
  }

  lemma ClaimSound(r: Record, items: seq<Item>, user: nat)
    requires SoundPeople(r) && IsEditable(r.status) && DistinctActions(r.actions)
    requires ValidationOf(items, ResponsesOf(r.rows)).isValid
    ensures Sound(Claimed(r, items, ResponsesOf(r.rows), r.rows, user), items)
  {
    hide ValidationOf, RecommendedDecision, RaiseTo, ResponsesOf, NeedsAction;
    var rs := ResponsesOf(r.rows);
    var c := Claimed(r, items, rs, r.rows, user);
    RaiseFacts(r.actions, items, rs, r.rows, user, |items|);
    forall i | 0 <= i < |items| && NeedsAction(items[i], rs) ensures HasAction(c.actions, items[i].id) {
      NeedsActionHasRow(items[i], r.rows);
    }
    CriticalMeansBlocked(items, rs);
  }

  lemma NeedsActionHasRow(item: Item, rows: seq<ResultRow>)
    requires NeedsAction(item, ResponsesOf(rows))
    ensures RowIndex(rows, item.id) < |rows|
  {
    hide IsFailure, ResponsesOf, RowIndex;
    FailureHasRow(item, rows);
  }

  lemma CriticalMeansBlocked(items: seq<Item>, rs: ResponseMap)
    ensures RecommendedDecision(items, rs) == LOADING_BLOCKED <==> |DetectCriticalFailures(items, rs)| > 0
  {
  }

  lemma ApprovedAppend(approvals: seq<Approval>, a: Approval, kind: ApprovalKind)
    ensures ApprovedCount(approvals + [a], kind) == ApprovedCount(approvals, kind) + (if a.kind == kind && a.approved then 1 else 0)
    ensures forall x :: x in approvals ==> x in approvals + [a]
    ensures a in approvals + [a]
  {
    assert (approvals + [a])[..|approvals|] == approvals;
  }

  lemma CheckKeepsPeople(r: Record, user: User)
    requires SoundPeople(r) && ReviewGuard(r, user, CHECK).None?
    ensures SoundPeople(Reviewed(r, user, CHECK))
  {
    var a := Approval(CheckApproval, true, user.id);
    ApprovedAppend(r.approvals, a, CheckApproval);
    ApprovedAppend(r.approvals, a, VerifyApproval);
    hide ApprovedCount, CanView;
  }

  lemma VerifyKeepsPeople(r: Record, user: User)
    requires SoundPeople(r) && ReviewGuard(r, user, VERIFY).None?
    ensures SoundPeople(Reviewed(r, user, VERIFY))
  {
    var a := Approval(VerifyApproval, true, user.id);
    ApprovedAppend(r.approvals, a, CheckApproval);
    ApprovedAppend(r.approvals, a, VerifyApproval);
    hide ApprovedCount, CanView;
  }

  lemma MoveKeepsPeople(r: Record, status: RecordStatus, a: Approval)
    requires SoundPeople(r) && !a.approved
    requires if status.ARCHIVED? then r.status.VERIFIED? else r.verifiedBy.None?
    requires status.RETURNED_FOR_CORRECTION? || status == RecordStatus.REJECTED || status.ARCHIVED?
    ensures SoundPeople(r.(status := status, approvals := r.approvals + [a]))
  {
    ApprovedAppend(r.approvals, a, CheckApproval);
    ApprovedAppend(r.approvals, a, VerifyApproval);
    hide ApprovedCount;
  }

  lemma OtherReviewKeepsPeople(r: Record, user: User, action: ReviewAction)
    requires SoundPeople(r) && ReviewGuard(r, user, action).None? && !action.CHECK? && !action.VERIFY?
    ensures SoundPeople(Reviewed(r, user, action))
  {
    var after := Reviewed(r, user, action);
    var a := after.approvals[|r.approvals|];
    assert after == r.(status := after.status, approvals := r.approvals + [a]) && !a.approved;
    hide CanView, Reviewed, ApprovedCount;
    MoveKeepsPeople(r, after.status, a);
  }

  lemma ReviewKeepsPeople(r: Record, user: User, action: ReviewAction)
    requires SoundPeople(r) && ReviewGuard(r, user, action).None?
    ensures SoundPeople(Reviewed(r, user, action))
  {
    hide SoundPeople, Reviewed, ReviewGuard;
    if action.CHECK? {
      CheckKeepsPeople(r, user);
    } else if action.VERIFY? {
      VerifyKeepsPeople(r, user);
    } else {
      OtherReviewKeepsPeople(r, user, action);
    }
  }

  lemma ReviewSound(r: Record, items: seq<Item>, user: User, action: ReviewAction)
    requires Sound(r, items) && ReviewGuard(r, user, action).None?
    ensures Sound(Reviewed(r, user, action), items)
  {
    ReviewKeepsPeople(r, user, action);
    var r' := Reviewed(r, user, action);
    assert IsEditable(r.status) ==> IsEditable(r'.status);
    assert r.rows == r'.rows && r.actions == r'.actions && r.truck == r'.truck;
    hide ValidationOf, ActionsDue, SoundTruck, SoundPeople, Reviewed, ReviewGuard, ResponsesOf;
    SoundDependsOn(r, r', items);
  }

  lemma SoundDependsOn(r: Record, r': Record, items: seq<Item>)
    requires r.rows == r'.rows && r.actions == r'.actions && r.truck == r'.truck
    ensures SoundTruck(r, items) == SoundTruck(r', items)
    ensures ActionsDue(r, items) == ActionsDue(r', items)
  {
  }

  lemma DecideSound(r: Record, items: seq<Item>, user: nat, decision: LoadingDecision)
    requires Sound(r, items) && LoadingGuard(r, decision).None? && !decision.PENDING?
    ensures Sound(Decided(r, user, decision), items)
  {
    hide ValidationOf, RecommendedDecision, ResponsesOf, NeedsAction;
    var r' := Decided(r, user, decision);
    assert r'.approvals[..|r'.approvals| - 1] == r.approvals;
    CriticalMeansBlocked(items, ResponsesOf(r.rows));
  }

  /** Saving answers touches the rows only. */
  lemma PersistSound(r: Record, items: seq<Item>, entries: seq<Entry>)
    requires Sound(r, items) && IsEditable(r.status)
    ensures Sound(Persist(r, items, entries), items)
  {
    hide PersistTo, ValidationOf, ActionsDue, SoundTruck;
  }

  lemma StepSound(records: seq<Record>, user: User, op: Op, defs: Definitions)
    requires AllSound(records, defs)
    ensures AllSound(Step(records, user, op, defs).0, defs)
  {
    hide Sound, Persist, Claimed, Reviewed, Decided, NewRecord, ValidationOf, FlattenItems;
    hide ResolveKey, RequestGuard, ReviewGuard, LoadingGuard;
    match op
    case CreateDraft(key, area, version, re) =>
      if version.Some? {
        var r := NewRecord(user.id, key, area, version.value, re);
        NewRecordSound(user.id, key, area, version.value, re, ItemsOf(r, defs));
      }
    case SaveDraft(id, entries, newArea) =>
      if OwnerGuard(records, user, id).None? {
        var r := records[id];
        SaveSound(r, ItemsOf(r, defs), entries, newArea, defs);
      }
    case Submit(id, answers) =>
      if OwnerGuard(records, user, id).None? {
        SubmitSound(records[id], user.id, answers, defs);
      }
    case Review(id, action, comment) =>
      if id < |records| && ReviewGuard(records[id], user, action).None? {
        ReviewSound(records[id], ItemsOf(records[id], defs), user, action);
        ReviewKeepsVersion(records[id], user, action);
      }
    case DecideLoading(id, decision) =>
      if id < |records| && !decision.PENDING? && LoadingGuard(records[id], decision).None? {
        DecideSound(records[id], ItemsOf(records[id], defs), user.id, decision);
        DecideKeepsVersion(records[id], user.id, decision);
      }
  }

  lemma ReviewKeepsVersion(r: Record, user: User, action: ReviewAction)
    requires ReviewGuard(r, user, action).None?
    ensures Reviewed(r, user, action).versionId == r.versionId
  {
  }

  lemma DecideKeepsVersion(r: Record, user: nat, decision: LoadingDecision)
    requires LoadingGuard(r, decision).None?
    ensures r.truck.Some? && Decided(r, user, decision).versionId == r.versionId
  {
  }

  lemma SaveSound(r: Record, items: seq<Item>, entries: seq<Entry>, newArea: Option<Str>, defs: Definitions)
    requires Sound(r, items) && IsEditable(r.status) && items == ItemsOf(r, defs)
    ensures var p := Persist(r, items, entries);
            && Sound(p, ItemsOf(p, defs))
            && forall a :: Sound(p.(area := a), ItemsOf(p.(area := a), defs))
  {
    hide FlattenItems, PersistTo, ValidationOf, ActionsDue, SoundTruck;
    PersistSound(r, items, entries);
  }

  lemma SubmitSound(r: Record, user: nat, answers: Option<seq<Entry>>, defs: Definitions)
    requires Sound(r, ItemsOf(r, defs)) && IsEditable(r.status)
    ensures var items := ItemsOf(r, defs);
            var r' := WithAnswers(r, items, answers);
            && r'.versionId == r.versionId && Sound(r', items)
            && (ValidationOf(items, ResponsesOf(r'.rows)).isValid ==>
                  var c := Claimed(r', items, ResponsesOf(r'.rows), r'.rows, user);
                  c.versionId == r.versionId && Sound(c, items))
  {
    hide FlattenItems, PersistTo, ValidationOf, ActionsDue, SoundTruck, RaiseTo, RecommendedDecision, ResponsesOf;
    var items := ItemsOf(r, defs);
    var r' := WithAnswers(r, items, answers);
    if answers.Some? { PersistSound(r, items, answers.value); }
    if ValidationOf(items, ResponsesOf(r'.rows)).isValid { ClaimSound(r', items, user); }
  }

  /** Every run from an empty table keeps every record sound. */
  lemma {:induction false} EveryRunIsSound(calls: seq<Call>, defs: Definitions)
    ensures AllSound(Run([], calls, defs), defs)
  {
    hide Sound, Step;
    if calls != [] {
      EveryRunIsSound(calls[..|calls| - 1], defs);
      var last := calls[|calls| - 1];
      StepSound(Run([], calls[..|calls| - 1], defs), last.user, last.op, defs);
    }
  }
}
