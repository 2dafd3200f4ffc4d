/** The safety claims of the record workflow, over all runs. */
module InspectionTheorems {
  import opened JsText
  import opened Wrappers
  import opened ChecklistEngine
  import opened RecordRules
  import opened InspectionRecords
  import opened InspectionProofs

  // ------------------------------------------------------------ submitted

  /** In every reachable state, a record out of the operator's hands holds
      valid responses, and a truck's recommendation is the one its stored
      responses give; with a critical failure its loading decision is blocked
      or rejected, never an approval. */
  lemma SubmittedTrucksAreSafe(calls: seq<Call>, defs: Definitions, k: nat)
    requires k < |Run([], calls, defs)| && !IsEditable(Run([], calls, defs)[k].status)
    ensures var r := Run([], calls, defs)[k];
            var items, rs := ItemsOf(r, defs), ResponsesOf(r.rows);
            && ValidationOf(items, rs).isValid
            && (r.truck.Some? ==>
                  && r.truck.value.recommendedDecision == Some(RecommendedDecision(items, rs))
                  && (ValidationOf(items, rs).hasCriticalFailure ==>
                        r.truck.value.loadingDecision in {LOADING_BLOCKED, LoadingDecision.REJECTED}))
  {
    hide FlattenItems, RecommendedDecision, ResponsesOf, DetectCriticalFailures, SoundPeople, ActionsDue, Run;
    EveryRunIsSound(calls, defs);
    assert Sound(Run([], calls, defs)[k], ItemsOf(Run([], calls, defs)[k], defs));
  }

  /** ... and every failing item that calls for one has exactly one
      corrective action. */
  lemma FailuresHaveOneAction(calls: seq<Call>, defs: Definitions, k: nat, n: nat)
    requires k < |Run([], calls, defs)| && !IsEditable(Run([], calls, defs)[k].status)
    requires n < |ItemsOf(Run([], calls, defs)[k], defs)|
    requires NeedsAction(ItemsOf(Run([], calls, defs)[k], defs)[n], ResponsesOf(Run([], calls, defs)[k].rows))
    ensures var r := Run([], calls, defs)[k];
            exists a :: && 0 <= a < |r.actions| && r.actions[a].itemId == ItemsOf(r, defs)[n].id
                        && forall b :: 0 <= b < |r.actions| && r.actions[b].itemId == ItemsOf(r, defs)[n].id ==> b == a
  {
    hide FlattenItems, ResponsesOf, SoundPeople, SoundTruck, Run, NeedsAction, ValidationOf;
    EveryRunIsSound(calls, defs);
    var r := Run([], calls, defs)[k];
    assert Sound(r, ItemsOf(r, defs));
    var a :| 0 <= a < |r.actions| && r.actions[a].itemId == ItemsOf(r, defs)[n].id;
    forall b | 0 <= b < |r.actions| && r.actions[b].itemId == ItemsOf(r, defs)[n].id ensures b == a {
      assert !(a < b) && !(b < a);
    }
  }

  lemma StoredStatusOnly(item: Item, rows: seq<ResultRow>)
    requires MeetsRules(item, Lookup(ResponsesOf(rows), item.id)) && item.rules.isRequired
    ensures IsStatusType(item.rules.itemType)
  {
    ResponsesDomain(rows, |rows|, item.id);
  }

  // -------------------------------------------------------------- signatures

  /** A verified or archived record carries the signatures of three different
      people and exactly one approved check and one approved verification. */
  lemma VerifiedMeansThreePeople(calls: seq<Call>, defs: Definitions, k: nat)
    requires k < |Run([], calls, defs)|
    requires Run([], calls, defs)[k].status.VERIFIED? || Run([], calls, defs)[k].status.ARCHIVED?
    ensures var r := Run([], calls, defs)[k];
            && r.checkedBy.Some? && r.verifiedBy.Some?
            && r.createdBy != r.checkedBy.value && r.createdBy != r.verifiedBy.value && r.checkedBy != r.verifiedBy
            && ApprovedCount(r.approvals, CheckApproval) == 1 && ApprovedCount(r.approvals, VerifyApproval) == 1
            && Approval(CheckApproval, true, r.checkedBy.value) in r.approvals
            && Approval(VerifyApproval, true, r.verifiedBy.value) in r.approvals
  {
    hide Run, SoundSubmitted;
    EveryRunIsSound(calls, defs);
    assert Sound(Run([], calls, defs)[k], ItemsOf(Run([], calls, defs)[k], defs));
  }

  /** How a record may differ after one more call. */
  predicate Follows(r: Record, r': Record) {
    && r'.versionId == r.versionId && r'.createdBy == r.createdBy && r'.date == r.date && r'.shift == r.shift
    && (r.truck.Some? <==> r'.truck.Some?)
    && (r.truck.Some? ==> r'.truck.value.vehicleNumber == r.truck.value.vehicleNumber)
    && (!IsEditable(r.status) ==> r'.rows == r.rows && r'.area == r.area)
    && r.actions <= r'.actions && r.approvals <= r'.approvals
    && (r.status.VERIFIED? ==> r'.status.VERIFIED? || r'.status.ARCHIVED?)
    && (r.status.ARCHIVED? ==> r'.status.ARCHIVED?)
    && (r.status.VERIFIED? || r.status.ARCHIVED? ==>
          r'.checkedBy == r.checkedBy && r'.verifiedBy == r.verifiedBy && r'.actions == r.actions)
  }

  lemma ReviewFollows(r: Record, user: User, action: ReviewAction)
    requires ReviewGuard(r, user, action).None?
    ensures Follows(r, Reviewed(r, user, action))
  {
    hide ApprovedCount, CanView;
  }

  lemma ClaimFollows(r: Record, items: seq<Item>, rs: ResponseMap, answers: Option<seq<Entry>>, rows: seq<ResultRow>, user: nat)
    requires IsEditable(r.status)
    ensures Follows(r, WithAnswers(r, items, answers))
    ensures Follows(r, Claimed(WithAnswers(r, items, answers), items, rs, rows, user))
  {
    hide PersistTo, RecommendedDecision, RaiseTo;
    RaiseFacts(r.actions, items, rs, rows, user, |items|);
  }

  lemma SaveFollows(r: Record, items: seq<Item>, entries: seq<Entry>)
    requires IsEditable(r.status)
    ensures Follows(r, Persist(r, items, entries))
    ensures forall a :: Follows(r, Persist(r, items, entries).(area := a))
  {
    hide PersistTo;
  }

  lemma DecideFollows(r: Record, user: nat, decision: LoadingDecision)
    requires r.truck.Some?
    ensures Follows(r, Decided(r, user, decision))
  {
  }

  /** Every call leaves every existing record in place and changes it only as
      `Follows` allows. */
  lemma StepFollows(records: seq<Record>, user: User, op: Op, defs: Definitions, k: nat)
    requires k < |records|
    ensures k < |Step(records, user, op, defs).0|
    ensures Follows(records[k], Step(records, user, op, defs).0[k])
  {
    hide Follows, Persist, Claimed, Reviewed, Decided, NewRecord, ValidationOf, FlattenItems;
    hide ResolveKey, RequestGuard, ReviewGuard, WithAnswers, ResponsesOf;
    var r := records[k];
    StaysFollows(r);
    match op
    case CreateDraft(_, _, _, _) =>
    case SaveDraft(id, entries, newArea) =>
      if id == k && IsEditable(r.status) { SaveFollows(r, ItemsOf(r, defs), entries); }
    case Submit(id, answers) =>
      if id == k && IsEditable(r.status) {
        var r' := WithAnswers(r, ItemsOf(r, defs), answers);
        ClaimFollows(r, ItemsOf(r, defs), ResponsesOf(r'.rows), answers, r'.rows, user.id);
      }
    case Review(id, action, comment) =>
      if id == k && ReviewGuard(r, user, action).None? { ReviewFollows(r, user, action); }
    case DecideLoading(id, decision) =>
      if id == k && LoadingGuard(r, decision).None? { DecideFollows(r, user.id, decision); }
  }

  lemma StaysFollows(r: Record)
    ensures Follows(r, r)
  {
  }

  lemma RunSplit(records: seq<Record>, a: seq<Call>, b: seq<Call>, defs: Definitions)
    ensures Run(records, a + b, defs) == Run(Run(records, a, defs), b, defs)
    decreases |b|
  {
    hide Step;
    if b == [] {
      assert a + b == a;
    } else {
      var i := |b| - 1;
      RunSplit(records, a, b[..i], defs);
      assert (a + b)[..|a + b| - 1] == a + b[..i];
    }
  }

  lemma RunSnoc(records: seq<Record>, calls: seq<Call>, c: Call, defs: Definitions)
    ensures Run(records, calls + [c], defs) == Step(Run(records, calls, defs), c.user, c.op, defs).0
  {
    hide Step;
    assert (calls + [c])[..|calls|] == calls;
  }

  lemma RunCons(records: seq<Record>, c: Call, more: seq<Call>, defs: Definitions)
    ensures Run(records, [c] + more, defs) == Run(Step(records, c.user, c.op, defs).0, more, defs)
  {
    hide Step;
    RunSplit(records, [c], more, defs);
    assert [c][..0] == [];
    assert Run(records, [], defs) == records;
  }

  /** What is fixed once a record is verified. */
  predicate FrozenAs(r: Record, r': Record) {
    && r'.rows == r.rows && r'.actions == r.actions && r'.versionId == r.versionId
    && r'.createdBy == r.createdBy && r'.checkedBy == r.checkedBy && r'.verifiedBy == r.verifiedBy
    && (r'.status.ARCHIVED? || (r'.status.VERIFIED? && r.status.VERIFIED?))
  }

  /** Once verified, a record's answers, corrective actions and signatures
      never change again, and archiving is the only status change left. */
  lemma {:induction false} VerifiedIsFrozen(records: seq<Record>, calls: seq<Call>, defs: Definitions, k: nat)
    requires k < |records| && (records[k].status.VERIFIED? || records[k].status.ARCHIVED?)
    ensures k < |Run(records, calls, defs)| && FrozenAs(records[k], Run(records, calls, defs)[k])
  {
    hide Step;
    if calls != [] {
      var last := calls[|calls| - 1];
      VerifiedIsFrozen(records, calls[..|calls| - 1], defs, k);
      StepFollows(Run(records, calls[..|calls| - 1], defs), last.user, last.op, defs, k);
    }
  }

  // --------------------------------------------------- returned after a check

  /** A record handed back, or resubmitted, after its check was approved. */
  predicate CheckedAndReturned(r: Record) {
    r.checkedBy.Some? && !r.status.PENDING_VERIFICATION? && !r.status.VERIFIED? && !r.status.ARCHIVED?
  }

  lemma StuckReview(r: Record, user: User, action: ReviewAction)
    requires SoundPeople(r) && CheckedAndReturned(r) && ReviewGuard(r, user, action).None?
    ensures CheckedAndReturned(Reviewed(r, user, action))
  {
    hide CanView;
    assert !action.CHECK?;
  }

  lemma StuckStep(records: seq<Record>, user: User, op: Op, defs: Definitions, k: nat)
    requires AllSound(records, defs) && k < |records| && CheckedAndReturned(records[k])
    ensures k < |Step(records, user, op, defs).0| && CheckedAndReturned(Step(records, user, op, defs).0[k])
  {
    hide PersistTo, RaiseTo, RecommendedDecision, NewRecord, ValidationOf, FlattenItems, ResolveKey, RequestGuard;
    hide ReviewGuard, Reviewed, ResponsesOf, SoundSubmitted, SoundPeople, DistinctActions;
    assert Sound(records[k], ItemsOf(records[k], defs));
    match op
    case Review(id, action, comment) =>
      if id == k && ReviewGuard(records[k], user, action).None? { StuckReview(records[k], user, action); }
    case _ =>
  }

  lemma {:induction false} StuckForever(records: seq<Record>, calls: seq<Call>, defs: Definitions, k: nat)
    requires AllSound(records, defs) && k < |records| && CheckedAndReturned(records[k])
    ensures var after := Run(records, calls, defs);
            AllSound(after, defs) && k < |after| && CheckedAndReturned(after[k])
  {
    hide Step, AllSound, CheckedAndReturned;
    if calls != [] {
      var last := calls[|calls| - 1];
      var before := Run(records, calls[..|calls| - 1], defs);
      StuckForever(records, calls[..|calls| - 1], defs, k);
      StuckStep(before, last.user, last.op, defs, k);
      StepSound(before, last.user, last.op, defs);
    }
  }

  /** Somebody with this one right. */
  function Signer(id: nat, right: Permission): User {
    User(id, {SYSTEM_ADMINISTRATOR}, {right})
  }

  lemma SignerMay(id: nat)
    ensures forall r: Record, right :: CanView(r, Signer(id, right))
    ensures RequestGuard(Signer(id, RECORDS_CHECK), CHECK, None).None?
    ensures RequestGuard(Signer(id, RECORDS_VERIFY), VERIFY, None).None?
  {
    assert forall right :: SYSTEM_ADMINISTRATOR in Signer(id, right).roles;
  }

  lemma FirstCheck(r: Record)
    requires SoundPeople(r) && r.status.PENDING_CHECK? && r.checkedBy.None?
    ensures ReviewGuard(r, Signer(r.createdBy + 1, RECORDS_CHECK), CHECK).None?
  {
    SignerMay(r.createdBy + 1);
    hide CanView, ApprovedCount;
  }

  lemma FirstVerification(r: Record)
    requires SoundPeople(r) && r.status.PENDING_VERIFICATION? && r.checkedBy == Some(r.createdBy + 1)
    ensures ReviewGuard(r, Signer(r.createdBy + 2, RECORDS_VERIFY), VERIFY).None?
  {
    SignerMay(r.createdBy + 2);
    hide CanView, ApprovedCount;
  }

  lemma TwoCalls(records: seq<Record>, c1: Call, c2: Call, defs: Definitions)
    ensures Run(records, [c1, c2], defs) == Step(Step(records, c1.user, c1.op, defs).0, c2.user, c2.op, defs).0
  {
    hide Step;
    assert [c1, c2][..1] == [c1] && [c1][..0] == [];
    assert Run(records, [], defs) == records;
    assert Run(records, [c1], defs) == Step(records, c1.user, c1.op, defs).0;
  }

  lemma CheckThenVerify(records: seq<Record>, defs: Definitions, k: nat)
    requires AllSound(records, defs) && k < |records| && records[k].status.PENDING_CHECK? && records[k].checkedBy.None?
    ensures var c := records[k].createdBy;
            var calls := [Call(Signer(c + 1, RECORDS_CHECK), Review(k, CHECK, None)),
                          Call(Signer(c + 2, RECORDS_VERIFY), Review(k, VERIFY, None))];
            k < |Run(records, calls, defs)| && Run(records, calls, defs)[k].status.VERIFIED?
  {
    var r := records[k];
    assert SoundPeople(r) by { assert Sound(r, ItemsOf(r, defs)); }
    var u1, u2 := Signer(r.createdBy + 1, RECORDS_CHECK), Signer(r.createdBy + 2, RECORDS_VERIFY);
    TwoCalls(records, Call(u1, Review(k, CHECK, None)), Call(u2, Review(k, VERIFY, None)), defs);
    SignerMay(u1.id);
    SignerMay(u2.id);
    FirstCheck(r);
    var r1 := Reviewed(r, u1, CHECK);
    ReviewKeepsPeople(r, u1, CHECK);
    FirstVerification(r1);
    hide AllSound, SoundPeople, ReviewGuard, RequestGuard, Run, Signer;
    assert Step(records, u1, Review(k, CHECK, None), defs).0 == records[k := r1];
  }

  /** A submitted record can still be verified exactly while it has never been
      checked: the guard against a second check also stops a record that came
      back after its first one. */
  lemma VerifiableExactlyWhenUnchecked(records: seq<Record>, defs: Definitions, k: nat)
    requires AllSound(records, defs) && k < |records| && records[k].status.PENDING_CHECK?
    ensures (exists calls :: k < |Run(records, calls, defs)| && Run(records, calls, defs)[k].status.VERIFIED?)
       <==> records[k].checkedBy.None?
  {
    hide Run, AllSound;
    if records[k].checkedBy.None? {
      CheckThenVerify(records, defs, k);
    } else {
      forall calls ensures !(k < |Run(records, calls, defs)| && Run(records, calls, defs)[k].status.VERIFIED?) {
        StuckForever(records, calls, defs, k);
      }
    }
  }

  // --------------------------------------------------------------- duplicates

  /** Of the records with one key, all but the newest are archived. */
  predicate OlderArchived(records: seq<Record>, key: Key) {
    forall i, j :: 0 <= i < j < |records| && KeyOf(records[i]) == key && KeyOf(records[j]) == key ==> records[i].status.ARCHIVED?
  }

  predicate KeysUnique(records: seq<Record>) {
    forall i, j :: 0 <= i < j < |records| && KeyOf(records[i]) == KeyOf(records[j]) ==> records[i].status.ARCHIVED?
  }

  /** Only a relabelling save moves a record to another key, and only a
      cleaning record. */
  lemma StepKeys(records: seq<Record>, user: User, op: Op, defs: Definitions, k: nat)
    requires k < |records|
    ensures var r, r' := records[k], Step(records, user, op, defs).0[k];
            k < |Step(records, user, op, defs).0|
            && KeyOf(r') ==
               if Relabels(records, user, op) && op.id == k then CleaningKey(r.date, r.shift, op.newArea.value) else KeyOf(r)
  {
    hide PersistTo, RaiseTo, RecommendedDecision, NewRecord, ValidationOf, FlattenItems, ResolveKey;
    hide RequestGuard, ReviewGuard, ResponsesOf, ApprovedCount;
  }

  /** The call is a save that gives a cleaning record another area label. */
  predicate Relabels(records: seq<Record>, user: User, op: Op) {
    && op.SaveDraft? && op.newArea.Some? && op.newArea.value != []
    && OwnerGuard(records, user, op.id).None?
    && records[op.id].truck.None? && records[op.id].area != op.newArea.value
  }

  /** ... to a label under which the same date and shift already has a newer
      record, or one that is not archived. */
  predicate RelabelClash(records: seq<Record>, user: User, op: Op) {
    && Relabels(records, user, op)
    && exists j :: && 0 <= j < |records| && j != op.id
                   && KeyOf(records[j]) == CleaningKey(records[op.id].date, records[op.id].shift, op.newArea.value)
                   && (j > op.id || !records[j].status.ARCHIVED?)
  }

  lemma CreatedKey(user: nat, key: Key, area: Str, version: nat, re: Option<nat>)
    ensures KeyOf(NewRecord(user, key, area, version, re)) == key
  {
  }

  /** What a call adds: nothing, or one record whose key had no live record. */
  lemma StepAdds(records: seq<Record>, user: User, op: Op, defs: Definitions)
    ensures var after := Step(records, user, op, defs).0;
            || |after| == |records|
            || (&& |after| == |records| + 1 && op.CreateDraft?
                && KeyOf(after[|records|]) == op.key
                && (forall i :: 0 <= i < |records| ==> after[i] == records[i])
                && var newest := NewestTo(records, op.key, |records|);
                   newest.Some? ==> records[newest.value].status.ARCHIVED?)
  {
    hide PersistTo, RaiseTo, RecommendedDecision, ValidationOf, FlattenItems, RequestGuard, ReviewGuard;
    hide ResponsesOf, ApprovedCount, NewRecord, Reviewed, Decided, LoadingGuard;
    if op.CreateDraft? && op.version.Some? {
      CreatedKey(user.id, op.key, op.area, op.version.value, op.reinspectionOf);
    }
  }

  /** One call keeps every truck key unique. */
  lemma StepKeepsTruckKey(records: seq<Record>, user: User, op: Op, defs: Definitions, key: Key)
    requires key.TruckKey? && OlderArchived(records, key)
    ensures OlderArchived(Step(records, user, op, defs).0, key)
  {
    hide Step, Relabels, Follows;
    var after := Step(records, user, op, defs).0;
    StepAdds(records, user, op, defs);
    forall i, j | 0 <= i < j < |after| && KeyOf(after[i]) == key && KeyOf(after[j]) == key
      ensures after[i].status.ARCHIVED?
    {
      StepKeys(records, user, op, defs, i);
      StepArchived(records, user, op, defs, i);
      if j < |records| {
        StepKeys(records, user, op, defs, j);
      }
    }
  }

  lemma StepArchived(records: seq<Record>, user: User, op: Op, defs: Definitions, k: nat)
    requires k < |records|
    ensures k < |Step(records, user, op, defs).0|
    ensures records[k].status.ARCHIVED? ==> Step(records, user, op, defs).0[k].status.ARCHIVED?
  {
    hide Step;
    StepFollows(records, user, op, defs, k);
  }

  /** In every reachable state, the truck inspections of one vehicle, date and
      shift are all archived but the newest, so at most one is live. */
  lemma {:induction false} TruckKeysStayUnique(calls: seq<Call>, defs: Definitions, key: Key)
    requires key.TruckKey?
    ensures OlderArchived(Run([], calls, defs), key)
  {
    hide Step, OlderArchived;
    if calls == [] {
      EmptyUnique(key);
    } else {
      TruckKeysStayUnique(calls[..|calls| - 1], defs, key);
      var last := calls[|calls| - 1];
      StepKeepsTruckKey(Run([], calls[..|calls| - 1], defs), last.user, last.op, defs, key);
    }
  }

  lemma EmptyUnique(key: Key)
    ensures OlderArchived([], key)
  {
  }

  /** For cleaning records as well, one call keeps every key unique exactly
      when it is not a save that relabels onto an occupied label. */
  lemma StepKeepsKeysExactly(records: seq<Record>, user: User, op: Op, defs: Definitions)
    requires KeysUnique(records)
    ensures KeysUnique(Step(records, user, op, defs).0) <==> !RelabelClash(records, user, op)
  {
    hide Step, Follows;
    var after := Step(records, user, op, defs).0;
    StepAdds(records, user, op, defs);
    if RelabelClash(records, user, op) {
      var id := op.id;
      var j :| 0 <= j < |records| && j != id
               && KeyOf(records[j]) == CleaningKey(records[id].date, records[id].shift, op.newArea.value)
               && (j > id || !records[j].status.ARCHIVED?);
      StepKeys(records, user, op, defs, id);
      StepKeys(records, user, op, defs, j);
      SaveKeepsStatus(records, user, op, defs);
      assert KeyOf(after[j]) == KeyOf(after[id]);
    } else {
      forall i, j | 0 <= i < j < |after| && KeyOf(after[i]) == KeyOf(after[j])
        ensures after[i].status.ARCHIVED?
      {
        StepKeys(records, user, op, defs, i);
        StepArchived(records, user, op, defs, i);
        if j < |records| { StepKeys(records, user, op, defs, j); }
      }
    }
  }

  lemma SaveKeepsStatus(records: seq<Record>, user: User, op: Op, defs: Definitions)
    requires Relabels(records, user, op)
    ensures var after := Step(records, user, op, defs).0;
            && |after| == |records| && IsEditable(records[op.id].status)
            && after[op.id].status == records[op.id].status
            && forall j :: 0 <= j < |records| && j != op.id ==> after[j] == records[j]
  {
    hide PersistTo, FlattenItems;
  }

  function Cleaner(id: nat): User {
    User(id, {FG_OPERATOR}, {})
  }

  /** The clash does happen: two drafts under different labels, then a save
      that gives the first the label of the second. */
  lemma RelabellingBreaksUniqueness(defs: Definitions)
    ensures var calls := [Call(Cleaner(1), CreateDraft(CleaningKey(0, None, [65]), [], Some(0), None)),
                          Call(Cleaner(1), CreateDraft(CleaningKey(0, None, [66]), [], Some(0), None)),
                          Call(Cleaner(1), SaveDraft(0, [], Some([66])))];
            !KeysUnique(Run([], calls, defs))
  {
    hide ItemsOf, RaiseTo, ReviewGuard, Reviewed, ValidationOf;
    var u := Cleaner(1);
    var o1, o2, o3 := CreateDraft(CleaningKey(0, None, [65]), [], Some(0), None),
                      CreateDraft(CleaningKey(0, None, [66]), [], Some(0), None),
                      SaveDraft(0, [], Some([66]));
    var c1, c2, c3 := Call(u, o1), Call(u, o2), Call(u, o3);
    var r1, r2 := NewRecord(1, o1.key, [], 0, None), NewRecord(1, o2.key, [], 0, None);
    assert [c1, c2, c3][..2] == [c1, c2] && [c1, c2][..1] == [c1] && [c1][..0] == [];
    assert Run([], [], defs) == [];
    assert Run([], [c1], defs) == [r1];
    assert NewestTo([r1], o2.key, 1) == NewestTo([r1], o2.key, 0);
    assert Run([], [c1, c2], defs) == [r1, r2];
    assert Run([], [c1, c2, c3], defs) == Step([r1, r2], u, o3, defs).0;
    var rs := [r1, r2];
    assert rs[0] == r1 && rs[1] == r2;
    assert Relabels(rs, u, o3) by { var a: Str := [65]; assert a[0] != o3.newArea.value[0]; }
    assert KeyOf(rs[1]) == CleaningKey(0, None, [66]);
    assert RelabelClash(rs, u, o3);
    assert KeysUnique([r1, r2]);
    StepKeepsKeysExactly([r1, r2], u, o3, defs);
  }
}
