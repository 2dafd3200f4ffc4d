/** When a truck's recommendation and loading decision change. */
module Recommendations {
  import opened JsText
  import opened Wrappers
  import opened ChecklistEngine
  import opened RecordRules
  import opened InspectionRecords
  import opened InspectionProofs
  import opened InspectionTheorems
  import opened OneItemChecklists

  /** The stored answers a submit of record k would be judged by. */
  function SubmittedAnswers(records: seq<Record>, op: Op, defs: Definitions): ResponseMap
    requires op.Submit? && op.id < |records|
  {
    ResponsesOf(WithAnswers(records[op.id], ItemsOf(records[op.id], defs), op.answers).rows)
  }

  /** The call is a submit that claims record k: the owner asks, the record is
      editable and the answers then stored are valid. */
  predicate ClaimsRecord(records: seq<Record>, user: User, op: Op, defs: Definitions, k: nat)
    requires k < |records|
  {
    && op.Submit? && op.id == k && OwnerGuard(records, user, k).None?
    && ValidationOf(ItemsOf(records[k], defs), SubmittedAnswers(records, op, defs)).isValid
  }

  /** What that submit recommends. */
  function Recommends(records: seq<Record>, op: Op, defs: Definitions): LoadingDecision
    requires op.Submit? && op.id < |records|
  {
    RecommendedDecision(ItemsOf(records[op.id], defs), SubmittedAnswers(records, op, defs))
  }

  predicate DecidesLoading(records: seq<Record>, user: User, op: Op, k: nat)
    requires k < |records|
  {
    && op.DecideLoading? && op.id == k && MayDecideLoading(user) && !op.decision.PENDING?
    && LoadingGuard(records[k], op.decision).None?
  }

  lemma StepTruck(records: seq<Record>, user: User, op: Op, defs: Definitions, k: nat)
    requires k < |records| && records[k].truck.Some?
    ensures var after := Step(records, user, op, defs).0;
            && k < |after| && after[k].truck.Some?
            && var before, now := records[k].truck.value, after[k].truck.value;
               && now.recommendedDecision ==
                    (if ClaimsRecord(records, user, op, defs, k) then Some(Recommends(records, op, defs))
                     else before.recommendedDecision)
               && now.loadingDecision ==
                    (if ClaimsRecord(records, user, op, defs, k) then Recommends(records, op, defs)
                     else if DecidesLoading(records, user, op, k) then op.decision
                     else before.loadingDecision)
  {
    hide PersistTo, RaiseTo, RecommendedDecision, NewRecord, ValidationOf, FlattenItems, ResolveKey;
    hide RequestGuard, ReviewGuard, ResponsesOf;
  }

  /** A call changes a truck's recommendation if and only if it is a submit that
      claims the record and the answers then stored recommend something else;
      it changes the loading decision exactly so, or by an accepted decision
      that is another one. */
  lemma RecommendationChangesExactly(records: seq<Record>, user: User, op: Op, defs: Definitions, k: nat)
    requires k < |records| && records[k].truck.Some?
    ensures var after := Step(records, user, op, defs).0;
            && k < |after| && after[k].truck.Some?
            && var before, now := records[k].truck.value, after[k].truck.value;
               && (now.recommendedDecision != before.recommendedDecision <==>
                     && ClaimsRecord(records, user, op, defs, k)
                     && before.recommendedDecision != Some(Recommends(records, op, defs)))
               && (now.loadingDecision != before.loadingDecision <==>
                     || (ClaimsRecord(records, user, op, defs, k) && before.loadingDecision != Recommends(records, op, defs))
                     || (DecidesLoading(records, user, op, k) && before.loadingDecision != op.decision))
  {
    StepTruck(records, user, op, defs, k);
    hide Step;
    assert DecidesLoading(records, user, op, k) ==> !ClaimsRecord(records, user, op, defs, k);
    hide ClaimsRecord, DecidesLoading, Recommends;
  }

  /** What record k recommends at present. */
  function Recommended(records: seq<Record>, k: nat): Option<LoadingDecision> {
    if k < |records| && records[k].truck.Some? then records[k].truck.value.recommendedDecision else None
  }

  /** No call of the run changes it. */
  ghost predicate RecommendationStays(records: seq<Record>, calls: seq<Call>, defs: Definitions, k: nat) {
    forall n :: 0 <= n <= |calls| ==> Recommended(Run(records, calls[..n], defs), k) == Recommended(records, k)
  }

  /** If the call claims the record, it recommends what was recommended. */
  predicate Agrees(records: seq<Record>, c: Call, defs: Definitions, k: nat, recommended: Option<LoadingDecision>) {
    && k < |records|
    && (ClaimsRecord(records, c.user, c.op, defs, k) ==> Some(Recommends(records, c.op, defs)) == recommended)
  }

  /** Every submit of the run that claims the record recommends that. */
  ghost predicate ClaimsAgree(records: seq<Record>, calls: seq<Call>, defs: Definitions, k: nat) {
    forall n :: 0 <= n < |calls| ==> Agrees(Run(records, calls[..n], defs), calls[n], defs, k, Recommended(records, k))
  }

  lemma {:induction false} TruckStays(records: seq<Record>, calls: seq<Call>, defs: Definitions, k: nat)
    requires k < |records| && records[k].truck.Some?
    ensures k < |Run(records, calls, defs)| && Run(records, calls, defs)[k].truck.Some?
  {
    hide Step;
    if calls != [] {
      TruckStays(records, calls[..|calls| - 1], defs, k);
      StepFollows(Run(records, calls[..|calls| - 1], defs), calls[|calls| - 1].user, calls[|calls| - 1].op, defs, k);
    }
  }

  lemma NextRecommended(records: seq<Record>, calls: seq<Call>, defs: Definitions, k: nat, n: nat)
    requires k < |records| && records[k].truck.Some? && n < |calls|
    ensures var at, c := Run(records, calls[..n], defs), calls[n];
            && k < |at|
            && Recommended(Run(records, calls[..n + 1], defs), k) ==
                 if ClaimsRecord(at, c.user, c.op, defs, k) then Some(Recommends(at, c.op, defs)) else Recommended(at, k)
  {
    var at, c := Run(records, calls[..n], defs), calls[n];
    assert calls[..n + 1][..n] == calls[..n];
    assert Run(records, calls[..n + 1], defs) == Step(at, c.user, c.op, defs).0;
    TruckStays(records, calls[..n], defs, k);
    hide Run, Step, ClaimsRecord, Recommends;
    StepTruck(at, c.user, c.op, defs, k);
  }

  lemma {:induction false} AgreeStays(records: seq<Record>, calls: seq<Call>, defs: Definitions, k: nat, n: nat)
    requires k < |records| && records[k].truck.Some? && n <= |calls| && ClaimsAgree(records, calls, defs, k)
    ensures Recommended(Run(records, calls[..n], defs), k) == Recommended(records, k)
  {
    hide Step, ClaimsRecord, Recommends;
    if n == 0 {
      assert Run(records, calls[..0], defs) == records;
    } else {
      hide Run;
      AgreeStays(records, calls, defs, k, n - 1);
      NextRecommended(records, calls, defs, k, n - 1);
    }
  }

  /** Over a run the recommendation is never overwritten if and only if every
      submit in it that claims the record recommends the same. */
  lemma NeverOverwrittenExactly(records: seq<Record>, calls: seq<Call>, defs: Definitions, k: nat)
    requires k < |records| && records[k].truck.Some?
    ensures RecommendationStays(records, calls, defs, k) <==> ClaimsAgree(records, calls, defs, k)
  {
    hide Run, ClaimsRecord, Recommends, Recommended;
    if ClaimsAgree(records, calls, defs, k) {
      forall n | 0 <= n <= |calls| ensures Recommended(Run(records, calls[..n], defs), k) == Recommended(records, k) {
        AgreeStays(records, calls, defs, k, n);
      }
    }
    if RecommendationStays(records, calls, defs, k) {
      forall n | 0 <= n < |calls|
        ensures Agrees(Run(records, calls[..n], defs), calls[n], defs, k, Recommended(records, k))
      {
        NextRecommended(records, calls, defs, k, n);
        assert Recommended(Run(records, calls[..n + 1], defs), k) == Recommended(records, k);
      }
    }
  }

  // ------------------------------------------------------------ it does happen

  /** A truck record on the one-item checklist, in its owner's hands. */
  predicate OnHand(r: Record) {
    IsEditable(r.status) && r.truck.Some? && r.createdBy == 1 && OneAnswer(r.rows)
  }

  const RETURNER := User(1, {}, {RECORDS_RETURN})

  function SubmitAnswer(st: NormalizedStatus): Call {
    Call(OWNER, Submit(0, Some(Answer(st))))
  }

  const DRAFT_IT := Call(OWNER, CreateDraft(TRUCK, [], Some(0), None))
  const RETURN_IT := Call(RETURNER, Review(0, RETURN, Some(NOTE)))

  lemma SubmitRecommends(r: Record, st: NormalizedStatus)
    requires OnHand(r) && (st.PASS? || st.FAIL?)
    ensures var after := Step([r], OWNER, SubmitAnswer(st).op, Only(CRITICAL_ITEM)).0;
            && |after| == 1
            && after[0] == r.(status := PENDING_CHECK, rows := [AnswerRow(st)],
                              actions := after[0].actions, truck := after[0].truck)
            && Recommended(after, 0) == Some(if st.PASS? then APPROVED_FOR_LOADING else LOADING_BLOCKED)
            && after[0].truck.Some?
            && after[0].truck.value.loadingDecision == if st.PASS? then APPROVED_FOR_LOADING else LOADING_BLOCKED
  {
    OnlyItem(CRITICAL_ITEM, r.versionId);
    AnswerStored(r.rows, st);
    AnswerJudged(st);
    hide PersistTo, ValidationOf, RecommendedDecision, ResponsesOf, FlattenItems, RaiseTo, Only;
  }

  lemma ReturnHandsBack(r: Record)
    requires (r.status.PENDING_CHECK? || r.status.PENDING_VERIFICATION?) && r.createdBy == 1
    ensures var after := Step([r], RETURNER, RETURN_IT.op, Only(CRITICAL_ITEM)).0;
            && |after| == 1
            && after[0] == r.(status := RETURNED_FOR_CORRECTION, approvals := after[0].approvals)
  {
    NoteSaysSomething();
    hide IsBlank, ApprovedCount, Only;
  }

  function ApprovedThenBlocked(): seq<Call> {
    [DRAFT_IT] + [SubmitAnswer(PASS)] + [RETURN_IT] + [SubmitAnswer(FAIL)]
  }

  lemma ApprovedThenBlockedSteps(defs: Definitions)
    ensures var first := Step([TRUCK_DRAFT], OWNER, SubmitAnswer(PASS).op, defs).0;
            var back := Step(first, RETURNER, RETURN_IT.op, defs).0;
            && Run([], [DRAFT_IT] + [SubmitAnswer(PASS)], defs) == first
            && Run([], ApprovedThenBlocked(), defs) == Step(back, OWNER, SubmitAnswer(FAIL).op, defs).0
  {
    FirstDraft(OWNER, TRUCK, defs);
    RunSnoc([], [], DRAFT_IT, defs);
    assert [] + [DRAFT_IT] == [DRAFT_IT];
    assert Run([], [], defs) == [];
    hide Step, Run, Answer;
    RunSnoc([], [DRAFT_IT], SubmitAnswer(PASS), defs);
    RunSnoc([], [DRAFT_IT] + [SubmitAnswer(PASS)], RETURN_IT, defs);
    RunSnoc([], [DRAFT_IT] + [SubmitAnswer(PASS)] + [RETURN_IT], SubmitAnswer(FAIL), defs);
  }

  /** From an empty table: a truck is drafted, submitted with PASS, returned and
      submitted with FAIL; its recorded approval is overwritten by a block. */
  lemma ResubmitOverwritesRecommendation()
    ensures var defs := Only(CRITICAL_ITEM);
            && Recommended(Run([], [DRAFT_IT] + [SubmitAnswer(PASS)], defs), 0) == Some(APPROVED_FOR_LOADING)
            && Recommended(Run([], ApprovedThenBlocked(), defs), 0) == Some(LOADING_BLOCKED)
  {
    var defs := Only(CRITICAL_ITEM);
    ApprovedThenBlockedSteps(defs);
    hide Step, Run, Only, ApprovedThenBlocked, AnswerRow, Recommended;
    SubmitRecommends(TRUCK_DRAFT, PASS);
    var first := Step([TRUCK_DRAFT], OWNER, SubmitAnswer(PASS).op, defs).0;
    assert first == [first[0]];
    ReturnHandsBack(first[0]);
    var back := Step(first, RETURNER, RETURN_IT.op, defs).0;
    assert back == [back[0]];
    SubmitRecommends(back[0], FAIL);
  }
}
