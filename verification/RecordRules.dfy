/** Rules shared by the record workflow: statuses, transitions, segregation of
    duty, duplicate resolution (record-workflow.ts, inspection-records.ts,
    truck-inspection.ts) and the result-row mappers (inspection-records.mappers.ts). */
module RecordRules {
  import opened JsText
  import opened Wrappers
  import opened ChecklistEngine

  datatype RecordStatus =
    | DRAFT | SUBMITTED | PENDING_CHECK | CHECKED | PENDING_VERIFICATION | VERIFIED | COMPLETED
    | RETURNED_FOR_CORRECTION | RESUBMITTED | REJECTED | ARCHIVED

  datatype WorkflowAction = SUBMIT | CHECK | VERIFY | RETURN | REJECT | RESUBMIT | COMPLETE | VOID

  // ------------------------------------------------------------ transitions

  datatype Edge = Edge(from: RecordStatus, action: WorkflowAction, to: RecordStatus)

  const WORKFLOW_TRANSITIONS: set<Edge> := {
    Edge(DRAFT, SUBMIT, PENDING_CHECK),
    Edge(RETURNED_FOR_CORRECTION, RESUBMIT, PENDING_CHECK),
    Edge(RecordStatus.REJECTED, RESUBMIT, PENDING_CHECK),
    Edge(SUBMITTED, CHECK, PENDING_VERIFICATION),
    Edge(PENDING_CHECK, CHECK, PENDING_VERIFICATION),
    Edge(PENDING_VERIFICATION, VERIFY, VERIFIED),
    Edge(VERIFIED, COMPLETE, COMPLETED),
    Edge(SUBMITTED, RETURN, RETURNED_FOR_CORRECTION),
    Edge(PENDING_CHECK, RETURN, RETURNED_FOR_CORRECTION),
    Edge(PENDING_VERIFICATION, RETURN, RETURNED_FOR_CORRECTION),
    Edge(PENDING_VERIFICATION, REJECT, RecordStatus.REJECTED),
    Edge(VERIFIED, VOID, ARCHIVED),
    Edge(COMPLETED, VOID, ARCHIVED)
  }

  function ResolveTransition(from: RecordStatus, action: WorkflowAction): Option<RecordStatus> {
    match action
    case SUBMIT => if from.DRAFT? then Some(PENDING_CHECK) else None
    case RESUBMIT => if from.RETURNED_FOR_CORRECTION? || from.REJECTED? then Some(PENDING_CHECK) else None
    case CHECK => if from.SUBMITTED? || from.PENDING_CHECK? then Some(PENDING_VERIFICATION) else None
    case VERIFY => if from.PENDING_VERIFICATION? then Some(VERIFIED) else None
    case COMPLETE => if from.VERIFIED? then Some(COMPLETED) else None
    case RETURN =>
      if from.SUBMITTED? || from.PENDING_CHECK? || from.PENDING_VERIFICATION? then Some(RETURNED_FOR_CORRECTION) else None
    case REJECT => if from.PENDING_VERIFICATION? then Some(RecordStatus.REJECTED) else None
    case VOID => if from.VERIFIED? || from.COMPLETED? then Some(ARCHIVED) else None
  }

  /** The resolver answers from the transition table and from nothing else;
      in particular the table never offers two targets for one action. */
  lemma ResolvesByTable(from: RecordStatus, action: WorkflowAction, to: RecordStatus)
    ensures ResolveTransition(from, action) == Some(to) <==> Edge(from, action, to) in WORKFLOW_TRANSITIONS
  {
  }

  predicate IsEditable(st: RecordStatus) {
    st.DRAFT? || st == RecordStatus.REJECTED || st.RETURNED_FOR_CORRECTION?
  }

  predicate IsActiveBlocking(st: RecordStatus) {
    st.SUBMITTED? || st.PENDING_CHECK? || st.CHECKED? || st.PENDING_VERIFICATION? || st.VERIFIED? || st.COMPLETED? || st.RESUBMITTED?
  }

  predicate IsImmutableVerified(st: RecordStatus) {
    st.VERIFIED? || st.COMPLETED? || st.ARCHIVED?
  }

  predicate CommentRequired(action: WorkflowAction) {
    action.RETURN? || action.REJECT? || action.VOID?
  }

  // ----------------------------------------------------- segregation of duty

  datatype WorkflowPolicy = WorkflowPolicy(allowCreatorSelfCheck: bool, allowCheckerSelfVerify: bool)

  const DEFAULT_POLICY := WorkflowPolicy(false, false)

  predicate MayCheck(policy: WorkflowPolicy, actor: nat, createdBy: nat) {
    policy.allowCreatorSelfCheck || actor != createdBy
  }

  predicate MayVerify(policy: WorkflowPolicy, actor: nat, createdBy: nat, checkedBy: Option<nat>) {
    actor != createdBy && (policy.allowCheckerSelfVerify || checkedBy != Some(actor))
  }

  /** A policy may let creators check and checkers verify, but never lets a
      creator verify. */
  lemma PolicyExactly(policy: WorkflowPolicy, actor: nat, createdBy: nat, checkedBy: Option<nat>)
    ensures MayCheck(policy, actor, createdBy) <==> (actor == createdBy ==> policy.allowCreatorSelfCheck)
    ensures MayVerify(policy, actor, createdBy, checkedBy) <==>
      actor != createdBy && (checkedBy == Some(actor) ==> policy.allowCheckerSelfVerify)
  {
  }

  // ------------------------------------------------------------- duplicates

  datatype DuplicateResolution = CreateNew | Resume(recordId: nat) | Conflict

  datatype Existing = Existing(id: nat, status: RecordStatus, createdBy: nat)

  function ResolveDraftDuplicate(existing: Option<Existing>, requester: nat): DuplicateResolution {
    if existing.None? || existing.value.status.ARCHIVED? then CreateNew
    else if IsActiveBlocking(existing.value.status) then Conflict
    else if existing.value.createdBy != requester then Conflict
    else Resume(existing.value.id)
  }

  // ------------------------------------------------------- loading decisions

  predicate IsApprovedOutcome(d: LoadingDecision) {
    d.APPROVED_FOR_LOADING? || d.CONDITIONALLY_APPROVED?
  }

  predicate OverrideToApprovedAllowed(recommended: Option<LoadingDecision>) {
    recommended != Some(LOADING_BLOCKED)
  }

  function AllowedFinalDecisions(recommended: Option<LoadingDecision>): set<LoadingDecision> {
    if OverrideToApprovedAllowed(recommended)
    then {APPROVED_FOR_LOADING, CONDITIONALLY_APPROVED, LOADING_BLOCKED, LoadingDecision.REJECTED}
    else {LOADING_BLOCKED, LoadingDecision.REJECTED}
  }

  /** The guard of the approval endpoint and the picker's allow-list agree on
      every final decision. */
  lemma GuardMatchesAllowList(recommended: Option<LoadingDecision>, d: LoadingDecision)
    ensures d in AllowedFinalDecisions(recommended) <==>
      !d.PENDING? && !(IsApprovedOutcome(d) && !OverrideToApprovedAllowed(recommended))
  {
  }

  // ------------------------------------------------------------ result rows

  datatype ResultStatus = ACCEPTABLE | UNACCEPTABLE | NOT_APPLICABLE_RESULT | PASS_RESULT | FAIL_RESULT

  function NormalizedFromResult(st: ResultStatus): NormalizedStatus {
    match st
    case ACCEPTABLE => PASS
    case PASS_RESULT => PASS
    case UNACCEPTABLE => FAIL
    case FAIL_RESULT => FAIL
    case NOT_APPLICABLE_RESULT => NOT_APPLICABLE
  }

  function ResultFromNormalized(t: ItemType, n: NormalizedStatus): ResultStatus {
    if n.NOT_APPLICABLE? then NOT_APPLICABLE_RESULT
    else if t.PASS_FAIL_NA? then (if n.PASS? then PASS_RESULT else FAIL_RESULT)
    else (if n.PASS? then ACCEPTABLE else UNACCEPTABLE)
  }

  /** Storing an answer and reading it back gives the answer; reading a stored
      status and storing it again gives the status exactly when the status
      belongs to the vocabulary of the item's type. */
  lemma StatusRoundTrip(t: ItemType, n: NormalizedStatus, st: ResultStatus)
    ensures NormalizedFromResult(ResultFromNormalized(t, n)) == n
    ensures ResultFromNormalized(t, NormalizedFromResult(st)) == st <==>
      st.NOT_APPLICABLE_RESULT? || (t.PASS_FAIL_NA? <==> (st.PASS_RESULT? || st.FAIL_RESULT?))
  {
  }

  datatype ResultRow = ResultRow(
    itemId: nat,
    status: ResultStatus,
    issueReason: Option<Str>,
    correction: Option<Str>,
    correctiveAction: Option<Str>,
    notes: Option<Str>,
    attachments: seq<Str>)

  function ToResponse(row: ResultRow): Response {
    Response(row.itemId, Some(StatusValue(NormalizedFromResult(row.status))), row.notes, row.issueReason,
             row.correction, row.correctiveAction, Some(row.attachments))
  }

  function ResponsesTo(rows: seq<ResultRow>, n: nat): ResponseMap
    requires n <= |rows|
  {
    if n == 0 then map[] else ResponsesTo(rows, n - 1)[rows[n - 1].itemId := ToResponse(rows[n - 1])]
  }

  function ResponsesOf(rows: seq<ResultRow>): ResponseMap {
    ResponsesTo(rows, |rows|)
  }

  method ToResponseMap(rows: seq<ResultRow>) returns (m: ResponseMap)
    ensures m == ResponsesOf(rows)
  {
    m := map[];
    for i := 0 to |rows|
      invariant m == ResponsesTo(rows, i)
    {
      var response := ToResponse(rows[i]);
      m := m[rows[i].itemId := response];
    }
  }
}
