/** Which records can be submitted at all. */
module Submittability {
  import opened JsText
  import opened Wrappers
  import opened ChecklistEngine
  import opened RecordRules
  import opened InspectionRecords
  import opened InspectionProofs
  import opened InspectionTheorems
  import opened OneItemChecklists
  import opened Recommendations

  /** Every required item takes a status answer. */
  predicate Submittable(items: seq<Item>) {
    forall i :: 0 <= i < |items| && items[i].rules.isRequired ==> IsStatusType(items[i].rules.itemType)
  }

  // -------------------------------------------------------- one row per item

  predicate DistinctRows(rows: seq<ResultRow>) {
    forall i, j :: 0 <= i < j < |rows| ==> rows[i].itemId != rows[j].itemId
  }

  predicate HasPass(rows: seq<ResultRow>, id: nat) {
    exists i :: 0 <= i < |rows| && rows[i].itemId == id && NormalizedFromResult(rows[i].status) == PASS
  }

  lemma PersistOneRow(rows: seq<ResultRow>, item: Item, response: Response)
    requires DistinctRows(rows)
    ensures DistinctRows(PersistOne(rows, item, response))
  {
  }

  lemma PassStored(rows: seq<ResultRow>, item: Item, response: Response)
    requires response.value == Some(StatusValue(PASS))
    ensures HasPass(PersistOne(rows, item, response), item.id)
    ensures forall id :: HasPass(rows, id) ==> HasPass(PersistOne(rows, item, response), id)
  {
    var after, k := PersistOne(rows, item, response), RowIndex(rows, item.id);
    assert after[k].itemId == item.id && NormalizedFromResult(after[k].status) == PASS;
    forall id | HasPass(rows, id) ensures HasPass(after, id) {
      var i :| 0 <= i < |rows| && rows[i].itemId == id && NormalizedFromResult(rows[i].status) == PASS;
      assert after[i].itemId == id && NormalizedFromResult(after[i].status) == PASS;
    }
  }

  lemma {:induction false} PersistRows(rows: seq<ResultRow>, items: seq<Item>, entries: seq<Entry>, n: nat)
    requires DistinctRows(rows) && n <= |entries|
    ensures DistinctRows(PersistTo(rows, items, entries, n))
  {
    hide PersistOne, FindItem;
    if n > 0 {
      PersistRows(rows, items, entries, n - 1);
      var found := FindItem(items, entries[n - 1].itemId);
      if found.Some? { PersistOneRow(PersistTo(rows, items, entries, n - 1), found.value, entries[n - 1].response); }
    }
  }

  predicate AllRowsDistinct(records: seq<Record>) {
    forall k :: 0 <= k < |records| ==> DistinctRows(records[k].rows)
  }

  lemma StepKeepsRows(records: seq<Record>, user: User, op: Op, defs: Definitions)
    requires AllRowsDistinct(records)
    ensures AllRowsDistinct(Step(records, user, op, defs).0)
  {
    hide PersistTo, RaiseTo, RecommendedDecision, ValidationOf, FlattenItems, ResolveKey, RequestGuard, ReviewGuard;
    hide ResponsesOf, DistinctRows, LoadingGuard, ApprovedCount;
    match op
    case CreateDraft(_, _, _, _) => NoRows();
    case SaveDraft(id, entries, _) =>
      if id < |records| { PersistRows(records[id].rows, ItemsOf(records[id], defs), entries, |entries|); }
    case Submit(id, answers) =>
      if id < |records| && answers.Some? {
        PersistRows(records[id].rows, ItemsOf(records[id], defs), answers.value, |answers.value|);
      }
    case Review(_, _, _) =>
    case DecideLoading(_, _) =>
  }

  lemma NoRows()
    ensures DistinctRows([])
  {
  }

  /** In every run a record holds at most one row per item. */
  lemma {:induction false} EveryRunKeepsRows(calls: seq<Call>, defs: Definitions)
    ensures AllRowsDistinct(Run([], calls, defs))
  {
    hide Step, DistinctRows;
    if calls != [] {
      EveryRunKeepsRows(calls[..|calls| - 1], defs);
      var last := calls[|calls| - 1];
      StepKeepsRows(Run([], calls[..|calls| - 1], defs), last.user, last.op, defs);
    }
  }

  lemma {:induction false} ResponseOfRow(rows: seq<ResultRow>, n: nat, i: nat)
    requires DistinctRows(rows) && i < n <= |rows|
    ensures rows[i].itemId in ResponsesTo(rows, n) && ResponsesTo(rows, n)[rows[i].itemId] == ToResponse(rows[i])
  {
    if i < n - 1 { ResponseOfRow(rows, n - 1, i); }
  }

  // ------------------------------------------------------------- passing all

  function PassAll(items: seq<Item>): (r: seq<Entry>)
    ensures |r| == |items|
  {
    seq(|items|, i requires 0 <= i < |items| =>
      Entry(items[i].id, Response(items[i].id, Some(StatusValue(PASS)), None, None, None, None, None)))
  }

  lemma {:induction false} AllPassed(rows: seq<ResultRow>, items: seq<Item>, n: nat, i: nat)
    requires i < n <= |items|
    ensures HasPass(PersistTo(rows, items, PassAll(items), n), items[i].id)
  {
    hide PersistOne, FindItem, HasPass;
    var before := PersistTo(rows, items, PassAll(items), n - 1);
    var entry := PassAll(items)[n - 1];
    assert entry.itemId == items[n - 1].id;
    var item := FindItem(items, entry.itemId).value;
    PassStored(before, item, entry.response);
    if i < n - 1 { AllPassed(rows, items, n - 1, i); }
  }

  lemma PassMeetsRules(item: Item, r: Response)
    requires r.value == Some(StatusValue(PASS)) && (item.rules.isRequired ==> IsStatusType(item.rules.itemType))
    ensures MeetsRules(item, Some(r))
  {
  }

  /** With PASS stored for every item, the answers are valid unless an item
      that takes no status answer is required. */
  lemma PassIsValid(sections: seq<Section>, rows: seq<ResultRow>)
    requires DistinctRows(rows) && Submittable(FlattenItems(sections))
    requires forall i :: 0 <= i < |FlattenItems(sections)| ==> HasPass(rows, FlattenItems(sections)[i].id)
    ensures ValidationOf(FlattenItems(sections), ResponsesOf(rows)).isValid
  {
    hide FlattenItems, MeetsRules, ValidationOf, IsStatusType;
    var items := FlattenItems(sections);
    forall item | InSections(item, sections) ensures MeetsRules(item, Lookup(ResponsesOf(rows), item.id)) {
      FlattenMembers(sections, item);
      var i :| 0 <= i < |items| && items[i] == item;
      var j :| 0 <= j < |rows| && rows[j].itemId == item.id && NormalizedFromResult(rows[j].status) == PASS;
      ResponseOfRow(rows, |rows|, j);
      PassMeetsRules(item, ToResponse(rows[j]));
    }
    ValidExactlyWhenRulesMet(sections, ResponsesOf(rows));
  }

  lemma PassAllSubmits(records: seq<Record>, defs: Definitions, k: nat)
    requires k < |records| && IsEditable(records[k].status) && DistinctRows(records[k].rows)
    requires Submittable(ItemsOf(records[k], defs))
    ensures var owner, answers := User(records[k].createdBy, {}, {}), PassAll(ItemsOf(records[k], defs));
            && Step(records, owner, Submit(k, Some(answers)), defs).1.Done?
            && k < |Step(records, owner, Submit(k, Some(answers)), defs).0|
            && Step(records, owner, Submit(k, Some(answers)), defs).0[k].status.PENDING_CHECK?
  {
    var items := ItemsOf(records[k], defs);
    var rows := PersistTo(records[k].rows, items, PassAll(items), |items|);
    PersistRows(records[k].rows, items, PassAll(items), |items|);
    forall i | 0 <= i < |items| ensures HasPass(rows, items[i].id) { AllPassed(records[k].rows, items, |items|, i); }
    PassIsValid(defs(records[k].versionId), rows);
    hide PersistTo, FlattenItems, ValidationOf, ResponsesOf, RaiseTo, RecommendedDecision, PassAll;
  }

  // ------------------------------------------------------------------ both ways

  lemma ValidMeansSubmittable(sections: seq<Section>, rows: seq<ResultRow>)
    requires ValidationOf(FlattenItems(sections), ResponsesOf(rows)).isValid
    ensures Submittable(FlattenItems(sections))
  {
    hide MeetsRules, FlattenItems, ResponsesOf, IsStatusType, ValidationOf;
    ValidExactlyWhenRulesMet(sections, ResponsesOf(rows));
    var items := FlattenItems(sections);
    forall i | 0 <= i < |items| && items[i].rules.isRequired ensures IsStatusType(items[i].rules.itemType) {
      FlattenMembers(sections, items[i]);
      StoredStatusOnly(items[i], rows);
    }
  }

  /** A record leaves the editable statuses only by a submit that claims it. */
  lemma LeavesByClaim(records: seq<Record>, user: User, op: Op, defs: Definitions, k: nat)
    requires k < |records| && IsEditable(records[k].status)
    ensures var after := Step(records, user, op, defs).0;
            k < |after| && (!IsEditable(after[k].status) <==> ClaimsRecord(records, user, op, defs, k))
  {
    hide PersistTo, RaiseTo, RecommendedDecision, NewRecord, ValidationOf, FlattenItems, ResolveKey;
    hide RequestGuard, ResponsesOf, ApprovedCount;
  }

  lemma ClaimMeansSubmittable(records: seq<Record>, user: User, op: Op, defs: Definitions, k: nat)
    requires k < |records| && ClaimsRecord(records, user, op, defs, k)
    ensures Submittable(ItemsOf(records[k], defs))
  {
    hide PersistTo, FlattenItems, ValidationOf, ResponsesOf, Submittable;
    var items := ItemsOf(records[k], defs);
    ValidMeansSubmittable(defs(records[k].versionId), WithAnswers(records[k], items, op.answers).rows);
  }

  /** A record of a checklist with such an item stays editable for good. */
  lemma {:induction false} UnsubmittableStays(records: seq<Record>, calls: seq<Call>, defs: Definitions, k: nat)
    requires k < |records| && IsEditable(records[k].status) && !Submittable(ItemsOf(records[k], defs))
    ensures var after := Run(records, calls, defs);
            k < |after| && IsEditable(after[k].status) && after[k].versionId == records[k].versionId
  {
    hide Step, ClaimsRecord, Submittable, FlattenItems;
    if calls != [] {
      var before, c := Run(records, calls[..|calls| - 1], defs), calls[|calls| - 1];
      UnsubmittableStays(records, calls[..|calls| - 1], defs, k);
      LeavesByClaim(before, c.user, c.op, defs, k);
      StepFollows(before, c.user, c.op, defs, k);
      if ClaimsRecord(before, c.user, c.op, defs, k) { ClaimMeansSubmittable(before, c.user, c.op, defs, k); }
    }
  }

  ghost predicate OwnerCanSubmit(records: seq<Record>, defs: Definitions, k: nat)
    requires k < |records|
  {
    exists entries :: Step(records, User(records[k].createdBy, {}, {}), Submit(k, Some(entries)), defs).1.Done?
  }

  ghost predicate CanReachCheck(records: seq<Record>, defs: Definitions, k: nat) {
    exists more :: k < |Run(records, more, defs)| && Run(records, more, defs)[k].status.PENDING_CHECK?
  }

  lemma OneCall(records: seq<Record>, c: Call, defs: Definitions)
    ensures Run(records, [c], defs) == Step(records, c.user, c.op, defs).0
  {
    hide Step;
    RunSnoc(records, [], c, defs);
    assert [] + [c] == [c];
  }

  lemma DoneClaims(records: seq<Record>, user: User, op: Op, defs: Definitions)
    requires op.Submit? && Step(records, user, op, defs).1.Done?
    ensures op.id < |records| && ClaimsRecord(records, user, op, defs, op.id)
  {
    hide PersistTo, FlattenItems, ValidationOf, ResponsesOf, RaiseTo, RecommendedDecision;
  }

  /** A reachable record in its owner's hands can be submitted by its owner, in
      one call and in any run at all, if and only if no item of its version is
      both required and of a type whose answers are not stored. */
  lemma SubmittableExactly(calls: seq<Call>, defs: Definitions, k: nat)
    requires k < |Run([], calls, defs)| && IsEditable(Run([], calls, defs)[k].status)
    ensures var records := Run([], calls, defs);
            && (OwnerCanSubmit(records, defs, k) <==> Submittable(ItemsOf(records[k], defs)))
            && (CanReachCheck(records, defs, k) <==> Submittable(ItemsOf(records[k], defs)))
  {
    var records := Run([], calls, defs);
    EveryRunKeepsRows(calls, defs);
    hide Step, Submittable, FlattenItems, ClaimsRecord, DistinctRows;
    if Submittable(ItemsOf(records[k], defs)) {
      PassAllSubmits(records, defs, k);
      var c := Call(User(records[k].createdBy, {}, {}), Submit(k, Some(PassAll(ItemsOf(records[k], defs)))));
      OneCall(records, c, defs);
      hide Run;
      assert OwnerCanSubmit(records, defs, k);
      assert Run(records, [c], defs)[k].status.PENDING_CHECK?;
    } else {
      forall entries ensures Step(records, User(records[k].createdBy, {}, {}), Submit(k, Some(entries)), defs).1.Refused? {
        var u, op := User(records[k].createdBy, {}, {}), Submit(k, Some(entries));
        if Step(records, u, op, defs).1.Done? {
          DoneClaims(records, u, op, defs);
          ClaimMeansSubmittable(records, u, op, defs, k);
        }
      }
      forall more ensures k < |Run(records, more, defs)| && !Run(records, more, defs)[k].status.PENDING_CHECK? {
        UnsubmittableStays(records, more, defs, k);
      }
    }
  }

  /** It does happen: a draft on a checklist whose one required item is a number
      can never be submitted. */
  lemma NumberChecklistIsNeverSubmitted(more: seq<Call>)
    ensures var defs := Only(NUMBER_ITEM);
            var draft := Run([], [DRAFT_IT], defs);
            && draft == [TRUCK_DRAFT] && !OwnerCanSubmit(draft, defs, 0)
            && 0 < |Run(draft, more, defs)| && IsEditable(Run(draft, more, defs)[0].status)
  {
    var defs := Only(NUMBER_ITEM);
    FirstDraft(OWNER, TRUCK, defs);
    OneCall([], DRAFT_IT, defs);
    OnlyItem(NUMBER_ITEM, 0);
    hide Step, Run, FlattenItems, Only;
    assert !Submittable([NUMBER_ITEM]) by { assert [NUMBER_ITEM][0].rules.isRequired; }
    SubmittableExactly([DRAFT_IT], defs, 0);
    UnsubmittableStays([TRUCK_DRAFT], more, defs, 0);
  }
}
