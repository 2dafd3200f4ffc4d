/** Runs in which an answer or a loading decision arrives after the claim and
    leaves an approved truck with a critical failure. */
module LateRuns {
  import opened JsText
  import opened Wrappers
  import opened ChecklistEngine
  import opened RecordRules
  import opened InspectionRecords
  import opened OneItemChecklists
  import opened SubmitGate

  const TRUCK_BEGUN: GateOp := Other(OWNER, CreateDraft(TRUCK, [], Some(0), None))
  const SAVING: GateOp := Begin(1, OWNER, 0, Save(Answer(FAIL), None))
  const APPROVING: GateOp := Begin(1, User(2, {FG_SUPERVISOR}, {}), 0, Decision(APPROVED_FOR_LOADING))

  function Submitting(st: NormalizedStatus): GateOp { Begin(0, OWNER, 0, Submission(Some(Answer(st)))) }

  const SAVE_BEGUN := Storing(OWNER, 0, Answer(FAIL), ThenLabel(None, []))
  const APPROVAL_BEGUN := Deciding(User(2, {FG_SUPERVISOR}, {}), 0, APPROVED_FOR_LOADING)

  function SubmitBegun(st: NormalizedStatus): Phase { Storing(OWNER, 0, Answer(st), ThenValidate) }

  /** A truck is drafted; a submit with FAIL and an approval both begin, or a
      submit with PASS and a save with FAIL. */
  function BothBegun(st: NormalizedStatus, second: GateOp): seq<GateOp> {
    [TRUCK_BEGUN] + [Submitting(st)] + [second]
  }

  lemma SubmitBegins(st: NormalizedStatus, defs: Definitions)
    ensures GateRun(IDLE, [TRUCK_BEGUN] + [Submitting(st)], defs) == Gate([TRUCK_DRAFT], map[0 := SubmitBegun(st)], [])
  {
    GateRunSnoc(IDLE, [], TRUCK_BEGUN, defs);
    GateRunSnoc(IDLE, [TRUCK_BEGUN], Submitting(st), defs);
    assert [] + [TRUCK_BEGUN] == [TRUCK_BEGUN];
    assert GateRun(IDLE, [], defs) == IDLE;
    FirstDraft(OWNER, TRUCK, defs);
    hide GateRun, Step, Answer;
    assert GateStep(IDLE, TRUCK_BEGUN, defs) == Gate([TRUCK_DRAFT], map[], []);
  }

  function Both(st: NormalizedStatus, second: Phase): map<nat, Phase> {
    map[0 := SubmitBegun(st), 1 := second]
  }

  lemma BothBegin(st: NormalizedStatus, defs: Definitions)
    ensures GateRun(IDLE, BothBegun(st, SAVING), defs) == Gate([TRUCK_DRAFT], Both(st, SAVE_BEGUN), [])
    ensures GateRun(IDLE, BothBegun(st, APPROVING), defs) == Gate([TRUCK_DRAFT], Both(st, APPROVAL_BEGUN), [])
  {
    SubmitBegins(st, defs);
    GateRunSnoc(IDLE, [TRUCK_BEGUN] + [Submitting(st)], SAVING, defs);
    GateRunSnoc(IDLE, [TRUCK_BEGUN] + [Submitting(st)], APPROVING, defs);
    hide GateRun, Answer;
  }

  function Stored(st: NormalizedStatus): Record { TRUCK_DRAFT.(rows := [AnswerRow(st)]) }

  function DecisionFor(st: NormalizedStatus): LoadingDecision {
    if st.PASS? then APPROVED_FOR_LOADING else LOADING_BLOCKED
  }

  lemma SubmitStores(calls: map<nat, Phase>, st: NormalizedStatus, defs: Definitions)
    requires defs == Only(CRITICAL_ITEM) && 0 in calls && calls[0] == SubmitBegun(st)
    ensures GateStep(Gate([TRUCK_DRAFT], calls, []), StoreAnswer(0), defs)
         == Gate([Stored(st)], calls[0 := Storing(OWNER, 0, [], ThenValidate)], [])
  {
    OnlyItem(CRITICAL_ITEM, 0);
    EntryStored([], st);
    assert Answer(st)[1..] == [];
    hide PersistEntry, FlattenItems, Only, Answer, AnswerRow;
  }

  function Judged(st: NormalizedStatus): Phase { Validated(OWNER, 0, ResponsesOf([AnswerRow(st)]), [AnswerRow(st)]) }

  lemma ValidationPasses(g: Gate, call: nat, defs: Definitions)
    requires IsStoring(g, call) && g.calls[call].rest == [] && g.calls[call].next.ThenValidate?
    requires var r := g.records[g.calls[call].id]; ValidationOf(ItemsOf(r, defs), ResponsesOf(r.rows)).isValid
    ensures var p, r := g.calls[call], g.records[g.calls[call].id];
            GateStep(g, Validate(call), defs)
            == g.(calls := g.calls[call := Validated(p.user, p.id, ResponsesOf(r.rows), r.rows)])
  {
    hide ValidationOf, ResponsesOf, ItemsOf;
  }

  lemma SubmitValidates(calls: map<nat, Phase>, st: NormalizedStatus, defs: Definitions)
    requires st.PASS? || st.FAIL?
    requires defs == Only(CRITICAL_ITEM) && 0 in calls && calls[0] == Storing(OWNER, 0, [], ThenValidate)
    ensures GateStep(Gate([Stored(st)], calls, []), Validate(0), defs) == Gate([Stored(st)], calls[0 := Judged(st)], [])
  {
    assert ItemsOf(Stored(st), defs) == [CRITICAL_ITEM] by { OnlyItem(CRITICAL_ITEM, 0); }
    AnswerJudged(st);
    hide GateStep, ValidationOf, ResponsesOf, FlattenItems, Only, AnswerRow, ItemsOf, RecommendedDecision;
    ValidationPasses(Gate([Stored(st)], calls, []), 0, defs);
  }

  /** A record just claimed: its answers, the decision they recommend. */
  predicate JustClaimed(r: Record, st: NormalizedStatus) {
    && r.status.PENDING_CHECK? && r.rows == [AnswerRow(st)] && r.versionId == 0 && r.truck.Some?
    && r.truck.value.recommendedDecision == Some(DecisionFor(st)) && r.truck.value.loadingDecision == DecisionFor(st)
  }

  lemma ClaimJudged(st: NormalizedStatus)
    requires st.PASS? || st.FAIL?
    ensures JustClaimed(Claimed(Stored(st), [CRITICAL_ITEM], Judged(st).rs, Judged(st).rows, OWNER.id), st)
  {
    AnswerJudged(st);
    hide RecommendedDecision, ResponsesOf, RaiseTo, AnswerRow, ValidationOf;
  }

  lemma ClaimPasses(g: Gate, call: nat, defs: Definitions)
    requires call in g.calls && g.calls[call].Validated? && g.calls[call].id < |g.records|
    requires IsEditable(g.records[g.calls[call].id].status)
    ensures var p, r := g.calls[call], g.records[g.calls[call].id];
            var after := GateStep(g, ClaimRecord(call), defs);
            && after.records == g.records[p.id := Claimed(r, ItemsOf(r, defs), p.rs, p.rows, p.user.id)]
            && after.calls == g.calls[call := Finished(true)]
  {
    hide Claimed, ItemsOf;
  }

  lemma SubmitClaims(calls: map<nat, Phase>, st: NormalizedStatus, defs: Definitions)
    requires st.PASS? || st.FAIL?
    requires defs == Only(CRITICAL_ITEM) && 0 in calls && calls[0] == Judged(st)
    ensures var g := GateStep(Gate([Stored(st)], calls, []), ClaimRecord(0), defs);
            |g.records| == 1 && JustClaimed(g.records[0], st) && g.calls == calls[0 := Finished(true)]
  {
    assert ItemsOf(Stored(st), defs) == [CRITICAL_ITEM] by { OnlyItem(CRITICAL_ITEM, 0); }
    ClaimJudged(st);
    hide GateStep, Claimed, JustClaimed, ResponsesOf, FlattenItems, Only, AnswerRow, ItemsOf;
    ClaimPasses(Gate([Stored(st)], calls, []), 0, defs);
  }

  function SubmitRuns(st: NormalizedStatus, second: GateOp): seq<GateOp> {
    BothBegun(st, second) + [StoreAnswer(0)] + [Validate(0)] + [ClaimRecord(0)]
  }

  /** The submit runs through while the other call waits. */
  lemma SubmitRunsThrough(st: NormalizedStatus, second: GateOp, phase: Phase)
    requires st.PASS? || st.FAIL?
    requires (second == SAVING && phase == SAVE_BEGUN) || (second == APPROVING && phase == APPROVAL_BEGUN)
    ensures var g := GateRun(IDLE, SubmitRuns(st, second), Only(CRITICAL_ITEM));
            |g.records| == 1 && JustClaimed(g.records[0], st) && 1 in g.calls && g.calls[1] == phase
  {
    var defs, begun := Only(CRITICAL_ITEM), BothBegun(st, second);
    BothBegin(st, defs);
    GateRunSnoc(IDLE, begun, StoreAnswer(0), defs);
    GateRunSnoc(IDLE, begun + [StoreAnswer(0)], Validate(0), defs);
    GateRunSnoc(IDLE, begun + [StoreAnswer(0)] + [Validate(0)], ClaimRecord(0), defs);
    var calls := Both(st, phase);
    SubmitStores(calls, st, defs);
    var stored := calls[0 := Storing(OWNER, 0, [], ThenValidate)];
    SubmitValidates(stored, st, defs);
    SubmitClaims(stored[0 := Judged(st)], st, defs);
    hide GateRun, GateStep, BothBegun, Only, JustClaimed;
  }

  lemma SaveStoresLate(g: Gate, defs: Definitions)
    requires defs == Only(CRITICAL_ITEM) && 1 in g.calls && g.calls[1] == SAVE_BEGUN
    requires |g.records| == 1 && g.records[0].rows == [AnswerRow(PASS)]
    ensures var after := GateStep(g, StoreAnswer(1), defs);
            |after.records| == 1 && after.records[0] == g.records[0].(rows := [AnswerRow(FAIL)])
  {
    OnlyItem(CRITICAL_ITEM, g.records[0].versionId);
    EntryStored([AnswerRow(PASS)], FAIL);
    hide PersistEntry, FlattenItems, Only;
  }

  lemma ApprovalWrittenLate(g: Gate, defs: Definitions)
    requires 1 in g.calls && g.calls[1] == APPROVAL_BEGUN && |g.records| == 1 && g.records[0].truck.Some?
    ensures GateStep(g, WriteDecision(1), defs).records == [Decided(g.records[0], 2, APPROVED_FOR_LOADING)]
  {
    hide Decided, Step, StoreStep, ClaimStep, ValidateStep;
  }

  /** A submitted truck, approved for loading, with a stored critical failure. */
  predicate ApprovedWithCriticalFailure(r: Record, defs: Definitions) {
    && r.status.PENDING_CHECK? && r.truck.Some? && r.truck.value.loadingDecision == APPROVED_FOR_LOADING
    && ValidationOf(ItemsOf(r, defs), ResponsesOf(r.rows)).hasCriticalFailure
  }

  /** From an idle gate: the save's FAIL arrives after the submit has claimed
      the record with PASS. */
  lemma LateFailureUnderApproval()
    ensures var defs := Only(CRITICAL_ITEM);
            var g := GateRun(IDLE, SubmitRuns(PASS, SAVING) + [StoreAnswer(1)], defs);
            && |g.records| == 1 && ApprovedWithCriticalFailure(g.records[0], defs)
            && g.records[0].truck.value.recommendedDecision == Some(APPROVED_FOR_LOADING)
  {
    var defs, ops := Only(CRITICAL_ITEM), SubmitRuns(PASS, SAVING);
    SubmitRunsThrough(PASS, SAVING, SAVE_BEGUN);
    GateRunSnoc(IDLE, ops, StoreAnswer(1), defs);
    OnlyItem(CRITICAL_ITEM, 0);
    AnswerJudged(FAIL);
    hide GateRun, GateStep, ValidationOf, FlattenItems, ResponsesOf, SubmitRuns, Only, AnswerRow;
    SaveStoresLate(GateRun(IDLE, ops, defs), defs);
  }

  /** From an idle gate: an approval that has read a truck without a
      recommendation is written after a submit has claimed the record with FAIL.
      The recommendation still says blocked, and nothing else was pending. */
  lemma LateApprovalOverCriticalFailure()
    ensures var defs := Only(CRITICAL_ITEM);
            var g := GateRun(IDLE, SubmitRuns(FAIL, APPROVING) + [WriteDecision(1)], defs);
            && |g.records| == 1 && ApprovedWithCriticalFailure(g.records[0], defs)
            && g.records[0].truck.value.recommendedDecision == Some(LOADING_BLOCKED)
  {
    var defs, ops := Only(CRITICAL_ITEM), SubmitRuns(FAIL, APPROVING);
    SubmitRunsThrough(FAIL, APPROVING, APPROVAL_BEGUN);
    GateRunSnoc(IDLE, ops, WriteDecision(1), defs);
    OnlyItem(CRITICAL_ITEM, 0);
    AnswerJudged(FAIL);
    ApprovalWrittenLate(GateRun(IDLE, ops, defs), defs);
    hide GateRun, GateStep, ValidationOf, FlattenItems, ResponsesOf, RecommendedDecision, SubmitRuns, Only, AnswerRow, Both;
  }
}
