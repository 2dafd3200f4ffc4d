/** When another inspection of the same truck, date and shift can be started. */
module TruckKeys {
  import opened JsText
  import opened Wrappers
  import opened ChecklistEngine
  import opened RecordRules
  import opened InspectionRecords
  import opened InspectionProofs
  import opened InspectionTheorems
  import opened OneItemChecklists
  import opened Recommendations
  import opened Submittability

  predicate IsNewest(records: seq<Record>, key: Key, k: nat) {
    k < |records| && KeyOf(records[k]) == key && forall j :: k < j < |records| ==> KeyOf(records[j]) != key
  }

  /** A run from here brings in another record of the key, beyond the first n. */
  ghost predicate Opens(records: seq<Record>, defs: Definitions, key: Key, n: nat) {
    exists more :: NewAfter(Run(records, more, defs), key, n)
  }

  predicate NewAfter(records: seq<Record>, key: Key, n: nat) {
    exists j :: n <= j < |records| && KeyOf(records[j]) == key
  }

  // ------------------------------------------------------------ blocked keys

  lemma StepKeepsNewest(records: seq<Record>, user: User, op: Op, defs: Definitions, key: Key, k: nat)
    requires key.TruckKey? && IsNewest(records, key, k) && !records[k].status.ARCHIVED?
    ensures IsNewest(Step(records, user, op, defs).0, key, k)
  {
    assert NewestTo(records, key, |records|) == Some(k);
    hide Step, NewestTo;
    var after := Step(records, user, op, defs).0;
    StepAdds(records, user, op, defs);
    forall j | 0 <= j < |records| ensures KeyOf(after[j]) == key <==> KeyOf(records[j]) == key {
      StepKeys(records, user, op, defs, j);
    }
  }

  ghost predicate NeverArchived(records: seq<Record>, defs: Definitions, k: nat) {
    forall more :: k < |Run(records, more, defs)| && !Run(records, more, defs)[k].status.ARCHIVED?
  }

  lemma {:induction false} LiveStaysNewest(records: seq<Record>, more: seq<Call>, defs: Definitions, key: Key, k: nat)
    requires key.TruckKey? && IsNewest(records, key, k) && NeverArchived(records, defs, k)
    ensures IsNewest(Run(records, more, defs), key, k)
  {
    hide Step, IsNewest;
    if more != [] {
      var before, c := Run(records, more[..|more| - 1], defs), more[|more| - 1];
      LiveStaysNewest(records, more[..|more| - 1], defs, key, k);
      StepKeepsNewest(before, c.user, c.op, defs, key, k);
    }
  }

  /** While the newest record of a truck key is never archived, no run opens
      the key again. */
  lemma LiveBlocks(records: seq<Record>, defs: Definitions, key: Key, k: nat)
    requires key.TruckKey? && IsNewest(records, key, k) && NeverArchived(records, defs, k)
    ensures !Opens(records, defs, key, |records|)
  {
    hide Run;
    forall more ensures !NewAfter(Run(records, more, defs), key, |records|) {
      LiveStaysNewest(records, more, defs, key, k);
    }
  }

  lemma NewestIs(records: seq<Record>, key: Key, k: nat)
    requires OlderArchived(records, key) && k < |records| && KeyOf(records[k]) == key && !records[k].status.ARCHIVED?
    ensures IsNewest(records, key, k)
  {
  }

  lemma StuckNeverArchived(records: seq<Record>, defs: Definitions, k: nat)
    requires AllSound(records, defs) && k < |records| && CheckedAndReturned(records[k])
    ensures NeverArchived(records, defs, k)
  {
    hide Run, AllSound;
    forall more ensures k < |Run(records, more, defs)| && !Run(records, more, defs)[k].status.ARCHIVED? {
      StuckForever(records, more, defs, k);
    }
  }

  lemma UnsubmittableNeverArchived(records: seq<Record>, defs: Definitions, k: nat)
    requires k < |records| && IsEditable(records[k].status) && !Submittable(ItemsOf(records[k], defs))
    ensures NeverArchived(records, defs, k)
  {
    hide Run, Submittable, FlattenItems;
    forall more ensures k < |Run(records, more, defs)| && !Run(records, more, defs)[k].status.ARCHIVED? {
      UnsubmittableStays(records, more, defs, k);
    }
  }

  /** A reachable truck record that came back after its check blocks its key for
      good: no run, however it goes on, brings in another record of that
      vehicle, date and shift. */
  lemma ReturnedTruckBlocksItsKey(calls: seq<Call>, more: seq<Call>, defs: Definitions, k: nat)
    requires k < |Run([], calls, defs)| && Run([], calls, defs)[k].truck.Some? && CheckedAndReturned(Run([], calls, defs)[k])
    ensures var records, now := Run([], calls, defs), Run([], calls + more, defs);
            && |records| <= |now|
            && forall j :: |records| <= j < |now| ==> KeyOf(now[j]) != KeyOf(records[k])
  {
    var records := Run([], calls, defs);
    EveryRunIsSound(calls, defs);
    TruckKeysStayUnique(calls, defs, KeyOf(records[k]));
    RunSplit([], calls, more, defs);
    hide Run, AllSound;
    NewestIs(records, KeyOf(records[k]), k);
    StuckNeverArchived(records, defs, k);
    LiveBlocks(records, defs, KeyOf(records[k]), k);
    assert !NewAfter(Run(records, more, defs), KeyOf(records[k]), |records|);
    RunGrows(records, more, defs);
  }

  lemma {:induction false} RunGrows(records: seq<Record>, more: seq<Call>, defs: Definitions)
    ensures |records| <= |Run(records, more, defs)|
  {
    hide Step;
    if more != [] {
      var before, c := Run(records, more[..|more| - 1], defs), more[|more| - 1];
      RunGrows(records, more[..|more| - 1], defs);
      StepAdds(before, c.user, c.op, defs);
    }
  }

  // --------------------------------------------------------------- open keys

  lemma OpensFirst(records: seq<Record>, c: Call, defs: Definitions, key: Key, n: nat)
    requires Opens(Step(records, c.user, c.op, defs).0, defs, key, n)
    ensures Opens(records, defs, key, n)
  {
    hide Run, Step;
    var after := Step(records, c.user, c.op, defs).0;
    var more :| NewAfter(Run(after, more, defs), key, n);
    RunCons(records, c, more, defs);
  }

  lemma CreatingOpens(records: seq<Record>, defs: Definitions, key: Key)
    requires forall k: nat :: IsNewest(records, key, k) ==> records[k].status.ARCHIVED?
    ensures Opens(records, defs, key, |records|)
  {
    var c := Call(OWNER, CreateDraft(key, [], Some(0), None));
    var newest := NewestTo(records, key, |records|);
    if newest.Some? { assert IsNewest(records, key, newest.value); }
    var after := Step(records, c.user, c.op, defs).0;
    CreatedKey(OWNER.id, key, [], 0, None);
    assert after == records + [NewRecord(OWNER.id, key, [], 0, None)];
    assert KeyOf(after[|records|]) == key;
    hide Step, NewRecord;
    OneCall(records, c, defs);
    assert NewAfter(Run(records, [c], defs), key, |records|);
  }

  const VOIDER := User(0, {SYSTEM_ADMINISTRATOR}, {RECORDS_VOID})

  lemma VoidArchives(records: seq<Record>, defs: Definitions, k: nat)
    requires k < |records| && records[k].status.VERIFIED?
    ensures var after := Step(records, VOIDER, Review(k, VOID, Some(NOTE)), defs).0;
            |after| == |records| && after == records[k := after[k]]
            && after[k].status.ARCHIVED? && KeyOf(after[k]) == KeyOf(records[k])
  {
    NoteSaysSomething();
    hide IsBlank, ApprovedCount;
    assert RequestGuard(VOIDER, VOID, Some(NOTE)).None?;
    assert SYSTEM_ADMINISTRATOR in VOIDER.roles;
    assert ReviewGuard(records[k], VOIDER, VOID).None?;
    hide RequestGuard, ReviewGuard;
  }

  lemma ReplacedNewest(records: seq<Record>, key: Key, k: nat, r: Record)
    requires IsNewest(records, key, k) && KeyOf(r) == key
    ensures IsNewest(records[k := r], key, k)
  {
  }

  lemma NewestUnique(records: seq<Record>, key: Key, k: nat)
    requires IsNewest(records, key, k)
    ensures forall j: nat :: IsNewest(records, key, j) ==> j == k
  {
  }

  lemma VerifiedOpens(records: seq<Record>, defs: Definitions, key: Key, k: nat)
    requires IsNewest(records, key, k) && records[k].status.VERIFIED?
    ensures Opens(records, defs, key, |records|)
  {
    VoidArchives(records, defs, k);
    hide Step, Opens, IsNewest;
    var c := Call(VOIDER, Review(k, VOID, Some(NOTE)));
    var after := Step(records, c.user, c.op, defs).0;
    assert k < |records| && KeyOf(after[k]) == key by { NewestHas(records, key, k); }
    ReplacedNewest(records, key, k, after[k]);
    NewestUnique(after, key, k);
    CreatingOpens(after, defs, key);
    OpensFirst(records, c, defs, key, |records|);
  }

  lemma NewestHas(records: seq<Record>, key: Key, k: nat)
    requires IsNewest(records, key, k)
    ensures k < |records| && KeyOf(records[k]) == key
  {
  }

  /** Somebody who is neither the creator nor the checker. */
  function Verifier(r: Record): User {
    Signer(r.createdBy + (if r.checkedBy.Some? then r.checkedBy.value else 0) + 1, RECORDS_VERIFY)
  }

  lemma VerifierMay(r: Record)
    requires SoundPeople(r) && r.status.PENDING_VERIFICATION?
    ensures ReviewGuard(r, Verifier(r), VERIFY).None?
  {
    SignerMay(Verifier(r).id);
    hide CanView, ApprovedCount;
  }

  lemma AcceptedReview(records: seq<Record>, user: User, action: ReviewAction, defs: Definitions, k: nat)
    requires k < |records| && RequestGuard(user, action, None).None? && ReviewGuard(records[k], user, action).None?
    ensures Step(records, user, Review(k, action, None), defs).0 == records[k := Reviewed(records[k], user, action)]
  {
    hide RequestGuard, ReviewGuard, Reviewed;
  }

  lemma PendingVerificationOpens(records: seq<Record>, defs: Definitions, key: Key, k: nat)
    requires AllSound(records, defs) && IsNewest(records, key, k) && records[k].status.PENDING_VERIFICATION?
    ensures Opens(records, defs, key, |records|)
  {
    var r, user := records[k], Verifier(records[k]);
    assert SoundPeople(r) by { assert Sound(r, ItemsOf(r, defs)); }
    VerifierMay(r);
    SignerMay(user.id);
    var c := Call(user, Review(k, VERIFY, None));
    AcceptedReview(records, user, VERIFY, defs, k);
    var r' := Reviewed(r, user, VERIFY);
    assert r'.status.VERIFIED? && KeyOf(r') == key;
    hide Step, Opens, AllSound, SoundPeople, ReviewGuard, RequestGuard;
    ReplacedNewest(records, key, k, r');
    VerifiedOpens(records[k := r'], defs, key, k);
    OpensFirst(records, c, defs, key, |records|);
  }

  lemma PendingCheckOpens(records: seq<Record>, defs: Definitions, key: Key, k: nat)
    requires AllSound(records, defs) && IsNewest(records, key, k)
    requires records[k].status.PENDING_CHECK? && records[k].checkedBy.None?
    ensures Opens(records, defs, key, |records|)
  {
    var r, user := records[k], Signer(records[k].createdBy + 1, RECORDS_CHECK);
    assert SoundPeople(r) by { assert Sound(r, ItemsOf(r, defs)); }
    FirstCheck(r);
    SignerMay(user.id);
    var c := Call(user, Review(k, CHECK, None));
    AcceptedReview(records, user, CHECK, defs, k);
    StepSound(records, user, c.op, defs);
    var r' := Reviewed(r, user, CHECK);
    assert r'.status.PENDING_VERIFICATION? && KeyOf(r') == key;
    hide Step, Opens, AllSound, SoundPeople, ReviewGuard, RequestGuard;
    ReplacedNewest(records, key, k, r');
    PendingVerificationOpens(records[k := r'], defs, key, k);
    OpensFirst(records, c, defs, key, |records|);
  }

  lemma SubmitEffect(records: seq<Record>, user: User, answers: seq<Entry>, defs: Definitions, k: nat)
    requires k < |records|
    ensures var after := Step(records, user, Submit(k, Some(answers)), defs).0;
            |after| == |records| && after == records[k := after[k]]
            && after[k].checkedBy == records[k].checkedBy && KeyOf(after[k]) == KeyOf(records[k])
  {
    hide PersistTo, FlattenItems, ValidationOf, ResponsesOf, RaiseTo, RecommendedDecision;
  }

  lemma EditableOpens(records: seq<Record>, defs: Definitions, key: Key, k: nat)
    requires AllSound(records, defs) && AllRowsDistinct(records) && IsNewest(records, key, k)
    requires IsEditable(records[k].status) && records[k].checkedBy.None? && Submittable(ItemsOf(records[k], defs))
    ensures Opens(records, defs, key, |records|)
  {
    var user, answers := User(records[k].createdBy, {}, {}), PassAll(ItemsOf(records[k], defs));
    PassAllSubmits(records, defs, k);
    SubmitEffect(records, user, answers, defs, k);
    var c := Call(user, Submit(k, Some(answers)));
    StepSound(records, user, c.op, defs);
    var after := Step(records, c.user, c.op, defs).0;
    hide Step, Opens, AllSound, Submittable, FlattenItems, DistinctRows, PassAll;
    ReplacedNewest(records, key, k, after[k]);
    PendingCheckOpens(after, defs, key, k);
    OpensFirst(records, c, defs, key, |records|);
  }

  /** The newest record of a key can make way for another one. */
  predicate MakesWay(r: Record, items: seq<Item>) {
    !CheckedAndReturned(r) && (IsEditable(r.status) ==> Submittable(items))
  }

  lemma MakingWayOpens(records: seq<Record>, defs: Definitions, key: Key, k: nat)
    requires AllSound(records, defs) && AllRowsDistinct(records)
    requires IsNewest(records, key, k) && MakesWay(records[k], ItemsOf(records[k], defs))
    ensures Opens(records, defs, key, |records|)
  {
    var r := records[k];
    assert SoundPeople(r) by { assert Sound(r, ItemsOf(r, defs)); }
    NewestUnique(records, key, k);
    hide Opens, AllSound, AllRowsDistinct, Submittable, FlattenItems, IsNewest, ApprovedCount;
    if r.status.ARCHIVED? {
      CreatingOpens(records, defs, key);
    } else if r.status.VERIFIED? {
      VerifiedOpens(records, defs, key, k);
    } else if r.status.PENDING_VERIFICATION? {
      PendingVerificationOpens(records, defs, key, k);
    } else if r.status.PENDING_CHECK? {
      PendingCheckOpens(records, defs, key, k);
    } else {
      EditableOpens(records, defs, key, k);
    }
  }

  /** In every reachable state a truck key can be opened again, in some run, if
      and only if it has no record yet or its newest one neither came back
      after its check nor waits on a checklist that cannot be submitted. */
  lemma TruckKeyOpensExactly(calls: seq<Call>, defs: Definitions, key: Key)
    requires key.TruckKey?
    ensures var records := Run([], calls, defs);
            Opens(records, defs, key, |records|) <==>
              forall k: nat :: IsNewest(records, key, k) ==> MakesWay(records[k], ItemsOf(records[k], defs))
  {
    var records := Run([], calls, defs);
    EveryRunIsSound(calls, defs);
    EveryRunKeepsRows(calls, defs);
    hide Run, Opens, AllSound, AllRowsDistinct, FlattenItems, Submittable;
    if k: nat :| IsNewest(records, key, k) {
      NewestUnique(records, key, k);
      if MakesWay(records[k], ItemsOf(records[k], defs)) {
        MakingWayOpens(records, defs, key, k);
      } else {
        if CheckedAndReturned(records[k]) {
          StuckNeverArchived(records, defs, k);
        } else {
          UnsubmittableNeverArchived(records, defs, k);
        }
        LiveBlocks(records, defs, key, k);
      }
    } else {
      CreatingOpens(records, defs, key);
    }
  }

  // ------------------------------------------------------------ it does happen

  const CHECK_IT := Call(Signer(2, RECORDS_CHECK), Review(0, CHECK, None))

  lemma FirstCheckPasses(r: Record)
    requires r.status.PENDING_CHECK? && r.createdBy == 1 && r.approvals == [] && r.checkedBy.None?
    ensures var after := Step([r], CHECK_IT.user, CHECK_IT.op, Only(CRITICAL_ITEM)).0;
            |after| == 1
            && after[0] == r.(status := PENDING_VERIFICATION, checkedBy := Some(2), approvals := after[0].approvals)
  {
    SignerMay(2);
    assert ApprovedCount(r.approvals, CheckApproval) == 0;
    hide CanView, RequestGuard, Signer, ApprovedCount, Only;
    assert CHECK_IT.user.id == 2 by { SignerId(2, RECORDS_CHECK); }
  }

  lemma SignerId(id: nat, right: Permission)
    ensures Signer(id, right).id == id
  {
  }

  /** Draft, submit, check, return and resubmit. */
  function CheckedThenReturned(): seq<Call> {
    [DRAFT_IT] + [SubmitAnswer(PASS)] + [CHECK_IT] + [RETURN_IT] + [SubmitAnswer(PASS)]
  }

  lemma CheckedThenReturnedSteps(defs: Definitions)
    ensures var first := Step([TRUCK_DRAFT], OWNER, SubmitAnswer(PASS).op, defs).0;
            var checked := Step(first, CHECK_IT.user, CHECK_IT.op, defs).0;
            var back := Step(checked, RETURNER, RETURN_IT.op, defs).0;
            Run([], CheckedThenReturned(), defs) == Step(back, OWNER, SubmitAnswer(PASS).op, defs).0
  {
    FirstDraft(OWNER, TRUCK, defs);
    OneCall([], DRAFT_IT, defs);
    RunSnoc([], [DRAFT_IT], SubmitAnswer(PASS), defs);
    RunSnoc([], [DRAFT_IT] + [SubmitAnswer(PASS)], CHECK_IT, defs);
    RunSnoc([], [DRAFT_IT] + [SubmitAnswer(PASS)] + [CHECK_IT], RETURN_IT, defs);
    RunSnoc([], [DRAFT_IT] + [SubmitAnswer(PASS)] + [CHECK_IT] + [RETURN_IT], SubmitAnswer(PASS), defs);
    hide Step, Run;
  }

  lemma CheckedThenReturnedRuns()
    ensures var records := Run([], CheckedThenReturned(), Only(CRITICAL_ITEM));
            && |records| == 1 && records[0].status.PENDING_CHECK? && records[0].checkedBy == Some(2)
            && records[0].truck.Some?
  {
    var defs := Only(CRITICAL_ITEM);
    CheckedThenReturnedSteps(defs);
    hide Step, Run, Only, CheckedThenReturned, Signer, AnswerRow;
    SubmitRecommends(TRUCK_DRAFT, PASS);
    var first := Step([TRUCK_DRAFT], OWNER, SubmitAnswer(PASS).op, defs).0;
    assert first == [first[0]];
    FirstCheckPasses(first[0]);
    var checked := Step(first, CHECK_IT.user, CHECK_IT.op, defs).0;
    assert checked == [checked[0]];
    ReturnHandsBack(checked[0]);
    var back := Step(checked, RETURNER, RETURN_IT.op, defs).0;
    assert back == [back[0]];
    SubmitRecommends(back[0], PASS);
  }

  /** From an empty table: a truck record is checked, returned and submitted
      again, and from there no run ever verifies it or opens its key. */
  lemma ReturnedTruckIsStuck(more: seq<Call>)
    ensures var defs := Only(CRITICAL_ITEM);
            var records, now := Run([], CheckedThenReturned(), defs), Run([], CheckedThenReturned() + more, defs);
            && |records| == 1 && records[0].status.PENDING_CHECK? && records[0].checkedBy.Some?
            && |now| >= 1 && !now[0].status.VERIFIED? && !now[0].status.ARCHIVED?
            && forall j :: 1 <= j < |now| ==> KeyOf(now[j]) != KeyOf(records[0])
  {
    var defs := Only(CRITICAL_ITEM);
    CheckedThenReturnedRuns();
    var records := Run([], CheckedThenReturned(), defs);
    EveryRunIsSound(CheckedThenReturned(), defs);
    RunSplit([], CheckedThenReturned(), more, defs);
    hide Run, AllSound, Only, CheckedThenReturned;
    StuckForever(records, more, defs, 0);
    ReturnedTruckBlocksItsKey(CheckedThenReturned(), more, defs, 0);
  }
}
