/** When each call of the record service is accepted, what it then changes and
    how it is refused, in the fields of the rows
    (inspection-records.service.ts). */
module RecordCalls {
  import opened JsText
  import opened Wrappers
  import opened ChecklistEngine
  import opened ChecklistMeaning
  import opened RecordRules
  import opened InspectionRecords
  import opened InspectionProofs
  import opened InspectionTheorems
  import opened Submittability
  import opened StoredAnswers

  /** Nothing but record k differs. */
  predicate OnlyRecord(records: seq<Record>, after: seq<Record>, k: nat) {
    k < |records| == |after| && forall j :: 0 <= j < |records| && j != k ==> after[j] == records[j]
  }

  // ------------------------------------------------------------------ drafts

  /** The record is about this key's date, shift and vehicle or area. */
  predicate IsAbout(r: Record, key: Key) {
    match key
    case CleaningKey(date, shift, area) => r.truck == None && r.date == date && r.shift == shift && r.area == area
    case TruckKey(date, shift, vehicle) => r.truck.Some? && r.date == date && r.shift == shift && r.truck.value.vehicleNumber == vehicle
  }

  predicate IsLatest(records: seq<Record>, key: Key, k: nat) {
    k < |records| && IsAbout(records[k], key) && forall j :: k < j < |records| ==> !IsAbout(records[j], key)
  }

  /** A record as a creation leaves it. */
  predicate IsFreshDraft(r: Record, user: User, op: Op)
    requires op.CreateDraft? && op.version.Some?
  {
    && r.status == DRAFT && r.versionId == op.version.value && r.createdBy == user.id && IsAbout(r, op.key)
    && r.rows == [] && r.approvals == [] && r.actions == [] && r.checkedBy == None && r.verifiedBy == None
    && (op.key.TruckKey? ==>
          && r.area == op.area && r.reinspectionOf == op.reinspectionOf
          && r.truck.value.recommendedDecision == None && r.truck.value.loadingDecision == PENDING && r.truck.value.decidedBy == None)
    && (op.key.CleaningKey? ==> r.reinspectionOf == None)
  }

  lemma AboutExactly(r: Record, key: Key)
    ensures KeyOf(r) == key <==> IsAbout(r, key)
  {
  }

  /** A creation opens a new draft when the key has no record or its latest is
      archived, goes on with the latest when it is with this very operator, and
      is refused otherwise. */
  lemma CreateExactly(records: seq<Record>, user: User, op: Op, defs: Definitions, k: nat)
    requires op.CreateDraft?
    ensures var (after, outcome) := Step(records, user, op, defs);
            && (IsLatest(records, op.key, k) && records[k].status != ARCHIVED ==>
                  && after == records
                  && outcome == if records[k].status in WITH_OPERATOR && records[k].createdBy == user.id
                                then Done(k) else Refused(DuplicateRecord))
            && ((forall j :: 0 <= j < |records| ==> !IsAbout(records[j], op.key))
                || (IsLatest(records, op.key, k) && records[k].status == ARCHIVED) ==>
                  if op.version == None then (after, outcome) == (records, Refused(NoPublishedTemplate))
                  else if op.key.TruckKey? && op.reinspectionOf.Some? && op.reinspectionOf.value >= |records|
                  then (after, outcome) == (records, Refused(NotFound))
                  else
                    && outcome == Done(|records|) && |after| == |records| + 1 && after[..|records|] == records
                    && IsFreshDraft(after[|records|], user, op))
  {
    forall j | 0 <= j < |records| ensures KeyOf(records[j]) == op.key <==> IsAbout(records[j], op.key) {
      AboutExactly(records[j], op.key);
    }
    var newest := NewestTo(records, op.key, |records|);
    if IsLatest(records, op.key, k) {
      assert newest == Some(k);
    }
    hide KeyOf, IsAbout, NewestTo;
    if op.version.Some? { FreshDraft(user, op); }
    hide NewRecord, IsFreshDraft;
  }

  lemma FreshDraft(user: User, op: Op)
    requires op.CreateDraft? && op.version.Some?
    ensures IsFreshDraft(NewRecord(user.id, op.key, op.area, op.version.value, op.reinspectionOf), user, op)
  {
  }

  // ------------------------------------------------------------------- saves

  /** The record is with its operator, and he is the caller. */
  predicate MayEdit(records: seq<Record>, user: User, id: nat) {
    id < |records| && records[id].createdBy == user.id && records[id].status in WITH_OPERATOR
  }

  lemma OwnerExactly(records: seq<Record>, user: User, id: nat)
    ensures OwnerGuard(records, user, id) ==
      if MayEdit(records, user, id) then None
      else if id < |records| && records[id].createdBy == user.id then Some(Locked) else Some(NotFound)
  {
  }

  /** A save is accepted exactly from the owner of a record that is with him;
      it merges the answers and changes the label to one that is brought. */
  lemma SaveExactly(records: seq<Record>, user: User, id: nat, entries: seq<Entry>, newArea: Option<Str>, defs: Definitions)
    requires AllRowsDistinct(records)
    ensures var (after, outcome) := Step(records, user, SaveDraft(id, entries, newArea), defs);
            if MayEdit(records, user, id) then
              && outcome == Done(id) && OnlyRecord(records, after, id)
              && var r := records[id];
                 && after[id] == r.(rows := after[id].rows,
                                    area := if newArea.Some? && |newArea.value| > 0 then newArea.value else r.area)
                 && ResponsesOf(after[id].rows) == Merged(ResponsesOf(r.rows), ItemsOf(r, defs), entries, |entries|)
            else
              && after == records
              && outcome == Refused(if id < |records| && records[id].createdBy == user.id then Locked else NotFound)
  {
    OwnerExactly(records, user, id);
    hide ResponsesOf, FlattenItems, PersistTo, OwnerGuard, DistinctRows;
    if MayEdit(records, user, id) {
      StoredReadsBack(records[id].rows, ItemsOf(records[id], defs), entries, |entries|);
    }
    hide MayEdit;
  }

  // ----------------------------------------------------------------- submits

  /** The loading decision that answers recommend. */
  ghost function Advice(items: seq<Item>, answers: ResponseMap): LoadingDecision {
    if exists i :: 0 <= i < |items| && items[i].rules.isCriticalFailure && FailsIn(items[i], answers) then LOADING_BLOCKED
    else if exists i :: 0 <= i < |items| && FailsIn(items[i], answers) then CONDITIONALLY_APPROVED
    else APPROVED_FOR_LOADING
  }

  predicate FailsIn(item: Item, answers: ResponseMap) {
    item.id in answers && Fails(item, answers[item.id].value)
  }

  lemma AdviceExactly(items: seq<Item>, answers: ResponseMap)
    ensures RecommendedDecision(items, answers) == Advice(items, answers)
  {
    forall i | 0 <= i < |items| ensures IsFailure(items[i], Lookup(answers, items[i].id)) <==> FailsIn(items[i], answers) {
      FailsExactly(items[i], Lookup(answers, items[i].id));
    }
    hide IsFailure, FailsIn, Lookup;
    var critical := DetectCriticalFailures(items, answers);
    assert forall i :: i in items <==> exists k :: 0 <= k < |items| && items[k] == i;
    if critical != [] { assert critical[0] in critical; }
    if i :| 0 <= i < |items| && items[i].rules.isCriticalFailure && FailsIn(items[i], answers) { assert items[i] in critical; }
  }

  /** Every action a submit adds is for a failing item that calls for one and
      had none; it carries the item's severity and the caller. */
  ghost predicate RaisedFor(a: Action, actions: seq<Action>, items: seq<Item>, answers: ResponseMap, user: nat) {
    && a.createdBy == user && (forall k :: 0 <= k < |actions| ==> actions[k].itemId != a.itemId)
    && exists i :: 0 <= i < |items| && items[i].id == a.itemId && items[i].rules.correctiveActionRequiredOnFail
                   && FailsIn(items[i], answers) && a.critical == items[i].rules.isCriticalFailure
  }

  lemma {:induction false} RaisedExactly(actions: seq<Action>, items: seq<Item>, rows: seq<ResultRow>, user: nat, n: nat)
    requires n <= |items|
    ensures var r := RaiseTo(actions, items, ResponsesOf(rows), rows, user, n);
            && actions <= r
            && forall a :: |actions| <= a < |r| ==> RaisedFor(r[a], actions, items, ResponsesOf(rows), user)
  {
    if n > 0 {
      RaisedExactly(actions, items, rows, user, n - 1);
      var item, before := items[n - 1], RaiseTo(actions, items, ResponsesOf(rows), rows, user, n - 1);
      FailsExactly(item, Lookup(ResponsesOf(rows), item.id));
      hide IsFailure, Fails, ResponsesOf, RowIndex;
      if NeedsAction(item, ResponsesOf(rows)) && !HasAction(before, item.id) {
        assert forall k :: 0 <= k < |actions| ==> before[k].itemId != item.id;
      }
    }
  }

  lemma {:induction false} DueExactly(actions: seq<Action>, items: seq<Item>, rows: seq<ResultRow>, user: nat, i: nat)
    requires i < |items| && items[i].rules.correctiveActionRequiredOnFail && FailsIn(items[i], ResponsesOf(rows))
    ensures HasAction(RaiseTo(actions, items, ResponsesOf(rows), rows, user, |items|), items[i].id)
  {
    FailsExactly(items[i], Lookup(ResponsesOf(rows), items[i].id));
    NeedsActionHasRow(items[i], rows);
    RaiseFacts(actions, items, ResponsesOf(rows), rows, user, |items|);
  }

  /** The record after an accepted submit. */
  ghost predicate IsClaim(r: Record, r': Record, items: seq<Item>, answers: ResponseMap, user: nat) {
    && r' == r.(status := PENDING_CHECK, rows := r'.rows, actions := r'.actions, truck := r'.truck)
    && r'.truck == (if r.truck.Some?
                    then Some(r.truck.value.(recommendedDecision := Some(Advice(items, answers)), loadingDecision := Advice(items, answers)))
                    else None)
    && r.actions <= r'.actions
    && (forall a :: |r.actions| <= a < |r'.actions| ==> RaisedFor(r'.actions[a], r.actions, items, answers, user))
    && (forall i :: 0 <= i < |items| && items[i].rules.correctiveActionRequiredOnFail && FailsIn(items[i], answers)
          ==> HasAction(r'.actions, items[i].id))
  }

  lemma ClaimExactly(r: Record, items: seq<Item>, user: nat)
    ensures var c := Claimed(r, items, ResponsesOf(r.rows), r.rows, user);
            IsClaim(r, c, items, ResponsesOf(r.rows), user) && c.rows == r.rows
  {
    AdviceExactly(items, ResponsesOf(r.rows));
    RaisedExactly(r.actions, items, r.rows, user, |items|);
    forall i | 0 <= i < |items| && items[i].rules.correctiveActionRequiredOnFail && FailsIn(items[i], ResponsesOf(r.rows))
      ensures HasAction(RaiseTo(r.actions, items, ResponsesOf(r.rows), r.rows, user, |items|), items[i].id)
    {
      DueExactly(r.actions, items, r.rows, user, i);
    }
    hide RaiseTo, RaisedFor, Advice, RecommendedDecision, ResponsesOf, FailsIn;
  }

  /** The answers a submit is judged by. */
  ghost function Submitted(r: Record, items: seq<Item>, answers: Option<seq<Entry>>): ResponseMap {
    if answers.Some? then Merged(ResponsesOf(r.rows), items, answers.value, |answers.value|) else ResponsesOf(r.rows)
  }

  /** A submit by the owner of a record that is with him stores its answers; it
      is accepted exactly when no rule is broken by what is then stored. */
  lemma SubmitExactly(records: seq<Record>, user: User, id: nat, answers: Option<seq<Entry>>, defs: Definitions)
    requires AllRowsDistinct(records)
    ensures var (after, outcome) := Step(records, user, Submit(id, answers), defs);
            if !MayEdit(records, user, id) then
              && after == records
              && outcome == Refused(if id < |records| && records[id].createdBy == user.id then Locked else NotFound)
            else
              && OnlyRecord(records, after, id)
              && var r, items := records[id], ItemsOf(records[id], defs);
                 var given := Submitted(r, items, answers);
                 && ResponsesOf(after[id].rows) == given
                 && (if ValidationOf(items, given).errors == [] then
                       outcome == Done(id) && IsClaim(r, after[id], items, given, user.id)
                     else
                       && outcome == Refused(ValidationFailed(ValidationOf(items, given).errors))
                       && after[id] == r.(rows := after[id].rows))
  {
    OwnerExactly(records, user, id);
    hide FlattenItems, PersistTo, OwnerGuard, DistinctRows, Merged, ResponsesOf, Claimed, IsClaim, Errors;
    if MayEdit(records, user, id) {
      var r, items := records[id], ItemsOf(records[id], defs);
      if answers.Some? { StoredReadsBack(r.rows, items, answers.value, |answers.value|); }
      var r' := WithAnswers(r, items, answers);
      assert ResponsesOf(r'.rows) == Submitted(r, items, answers);
      ClaimExactly(r', items, user.id);
      ClaimOfStored(r, r', Claimed(r', items, ResponsesOf(r'.rows), r'.rows, user.id), items, ResponsesOf(r'.rows), user.id);
    }
    hide MayEdit;
  }

  lemma ClaimOfStored(r: Record, r': Record, claimed: Record, items: seq<Item>, answers: ResponseMap, user: nat)
    requires r' == r.(rows := r'.rows) && IsClaim(r', claimed, items, answers, user) && claimed.rows == r'.rows
    ensures IsClaim(r, claimed, items, answers, user)
  {
    hide Advice, RaisedFor, FailsIn;
  }

  // ----------------------------------------------------------------- reviews

  /** The right that each review asks for. */
  const REVIEW_RIGHTS: map<WorkflowAction, Permission> := map[
    WorkflowAction.CHECK := RECORDS_CHECK,
    WorkflowAction.VERIFY := RECORDS_VERIFY,
    WorkflowAction.RETURN := RECORDS_RETURN,
    WorkflowAction.REJECT := RECORDS_REJECT,
    WorkflowAction.VOID := RECORDS_VOID
  ]

  /** Reviews that must say why. */
  const REASONED: set<WorkflowAction> := {WorkflowAction.RETURN, WorkflowAction.REJECT, WorkflowAction.VOID}

  /** Whether the caller may ask for this review at all. */
  ghost predicate MayAsk(user: User, action: ReviewAction, comment: Option<Str>) {
    action in REVIEW_RIGHTS && REVIEW_RIGHTS[action] in user.permissions && (action in REASONED ==> Says(comment))
  }

  predicate HasApproved(r: Record, kind: ApprovalKind) {
    exists i :: 0 <= i < |r.approvals| && r.approvals[i].kind == kind && r.approvals[i].approved
  }

  /** Who may see the record: everybody but a mere operator who did not make it. */
  predicate Sees(r: Record, user: User) {
    r.createdBy == user.id || user.roles == {} || exists role :: role in user.roles && role != FG_OPERATOR
  }

  /** The second pair of eyes: nobody checks or verifies his own work, and
      nobody does either twice. */
  predicate IsSecondPair(r: Record, user: User, action: ReviewAction) {
    && (action == WorkflowAction.CHECK ==> user.id != r.createdBy && !HasApproved(r, CheckApproval))
    && (action == WorkflowAction.VERIFY ==>
          user.id != r.createdBy && r.checkedBy != Some(user.id) && !HasApproved(r, VerifyApproval))
  }

  predicate MayReview(r: Record, user: User, action: ReviewAction) {
    Sees(r, user) && (exists to :: Edge(r.status, action, to) in WORKFLOW_TRANSITIONS) && IsSecondPair(r, user, action)
  }

  const APPROVAL_KINDS: map<WorkflowAction, ApprovalKind> := map[
    WorkflowAction.CHECK := CheckApproval,
    WorkflowAction.VERIFY := VerifyApproval,
    WorkflowAction.RETURN := ReturnApproval,
    WorkflowAction.REJECT := RejectApproval,
    WorkflowAction.VOID := VoidApproval
  ]

  /** What a review leaves: the status of the table, the signature, and one
      approval row. */
  ghost predicate IsReview(r: Record, r': Record, user: User, action: ReviewAction) {
    && Edge(r.status, action, r'.status) in WORKFLOW_TRANSITIONS
    && |r'.approvals| == |r.approvals| + 1 && r.approvals == r'.approvals[..|r.approvals|]
    && r'.approvals[|r.approvals|].decidedBy == user.id
    && r'.approvals[|r.approvals|].approved == (action in {WorkflowAction.CHECK, WorkflowAction.VERIFY})
    && r'.approvals[|r.approvals|].kind == APPROVAL_KINDS[action]
    && r'.checkedBy == (if action == WorkflowAction.CHECK then Some(user.id) else r.checkedBy)
    && r'.verifiedBy == (if action == WorkflowAction.VERIFY then Some(user.id) else r.verifiedBy)
    && r' == r.(status := r'.status, approvals := r'.approvals, checkedBy := r'.checkedBy, verifiedBy := r'.verifiedBy)
  }

  lemma {:induction false} ApprovedExactly(approvals: seq<Approval>, kind: ApprovalKind)
    ensures ApprovedCount(approvals, kind) > 0 <==>
      exists i :: 0 <= i < |approvals| && approvals[i].kind == kind && approvals[i].approved
  {
    if approvals != [] { ApprovedExactly(approvals[..|approvals| - 1], kind); }
  }

  lemma SeesExactly(r: Record, user: User)
    ensures CanView(r, user) <==> Sees(r, user)
  {
    if user.roles != {} && forall role :: role in user.roles ==> role == FG_OPERATOR {
      var role :| role in user.roles;
      assert user.roles == {FG_OPERATOR};
    }
  }

  lemma AskExactly(user: User, action: ReviewAction, comment: Option<Str>)
    ensures RequestGuard(user, action, comment).None? <==> MayAsk(user, action, comment)
    ensures RequestGuard(user, action, comment) in
      {None, Some(if REVIEW_RIGHTS[action] in user.permissions then MissingComment else PermissionForbidden)}
  {
    TextExactly(comment);
    hide IsBlank, Says;
  }

  /** From which statuses each action leads where. */
  const LEADS: map<WorkflowAction, (set<RecordStatus>, RecordStatus)> := map[
    WorkflowAction.SUBMIT := ({DRAFT}, PENDING_CHECK),
    WorkflowAction.RESUBMIT := ({RETURNED_FOR_CORRECTION, RecordStatus.REJECTED}, PENDING_CHECK),
    WorkflowAction.CHECK := ({SUBMITTED, PENDING_CHECK}, PENDING_VERIFICATION),
    WorkflowAction.VERIFY := ({PENDING_VERIFICATION}, VERIFIED),
    WorkflowAction.COMPLETE := ({VERIFIED}, COMPLETED),
    WorkflowAction.RETURN := ({SUBMITTED, PENDING_CHECK, PENDING_VERIFICATION}, RETURNED_FOR_CORRECTION),
    WorkflowAction.REJECT := ({PENDING_VERIFICATION}, RecordStatus.REJECTED),
    WorkflowAction.VOID := ({VERIFIED, COMPLETED}, ARCHIVED)
  ]

  lemma EdgesExactly(from: RecordStatus, action: WorkflowAction, to: RecordStatus)
    ensures Edge(from, action, to) in WORKFLOW_TRANSITIONS <==> action in LEADS && from in LEADS[action].0 && to == LEADS[action].1
  {
    match action
    case SUBMIT => case RESUBMIT => case CHECK => case VERIFY =>
    case COMPLETE => case RETURN => case REJECT => case VOID =>
  }

  lemma TransitionExactly(from: RecordStatus, action: WorkflowAction)
    ensures ResolveTransition(from, action).Some? <==> exists to :: Edge(from, action, to) in WORKFLOW_TRANSITIONS
    ensures ResolveTransition(from, action).Some? ==> Edge(from, action, ResolveTransition(from, action).value) in WORKFLOW_TRANSITIONS
  {
    forall to ensures ResolveTransition(from, action) == Some(to) <==> Edge(from, action, to) in WORKFLOW_TRANSITIONS {
      ResolvesByTable(from, action, to);
    }
    hide ResolveTransition;
  }

  /** Why a review that may be asked for is refused. */
  predicate RefusedFor(r: Record, user: User, action: ReviewAction, e: Error) {
    e == (if !Sees(r, user) then NotFound
          else if r.status in {VERIFIED, COMPLETED, ARCHIVED} && action != WorkflowAction.VOID then Locked
          else if forall to :: Edge(r.status, action, to) !in WORKFLOW_TRANSITIONS then InvalidTransition
          else if user.id == r.createdBy || (action == WorkflowAction.VERIFY && r.checkedBy == Some(user.id)) then SegregationOfDuty
          else DuplicateApproval)
  }

  lemma NothingLeavesVerified(st: RecordStatus, action: ReviewAction)
    requires st in {VERIFIED, COMPLETED, ARCHIVED} && action != WorkflowAction.VOID
    ensures forall to :: Edge(st, action, to) !in WORKFLOW_TRANSITIONS
  {
  }

  lemma GuardExactly(r: Record, user: User, action: ReviewAction)
    ensures ReviewGuard(r, user, action).None? <==> MayReview(r, user, action)
    ensures ReviewGuard(r, user, action).Some? ==> RefusedFor(r, user, action, ReviewGuard(r, user, action).value)
  {
    SeesExactly(r, user);
    TransitionExactly(r.status, action);
    ApprovedExactly(r.approvals, CheckApproval);
    ApprovedExactly(r.approvals, VerifyApproval);
    if r.status in {VERIFIED, COMPLETED, ARCHIVED} && action != WorkflowAction.VOID { NothingLeavesVerified(r.status, action); }
    hide CanView, Sees, ApprovedCount, ResolveTransition;
  }

  lemma ReviewedExactly(r: Record, user: User, action: ReviewAction)
    requires ResolveTransition(r.status, action).Some?
    ensures IsReview(r, Reviewed(r, user, action), user, action)
  {
    TransitionExactly(r.status, action);
    hide ResolveTransition;
    match action
    case CHECK =>
    case VERIFY =>
    case RETURN =>
    case REJECT =>
    case VOID =>
  }

  /** A review is accepted exactly from a caller who holds the right for it,
      gives the reason it needs, sees the record and is a second pair of eyes,
      on a status the table lets it leave; then it moves the record along the
      table and signs. */
  lemma ReviewExactly(records: seq<Record>, user: User, id: nat, action: ReviewAction, comment: Option<Str>, defs: Definitions)
    ensures var (after, outcome) := Step(records, user, Review(id, action, comment), defs);
            if MayAsk(user, action, comment) && id < |records| && MayReview(records[id], user, action) then
              outcome == Done(id) && OnlyRecord(records, after, id) && IsReview(records[id], after[id], user, action)
            else
              && after == records && outcome.Refused?
              && (REVIEW_RIGHTS[action] !in user.permissions ==> outcome.error == PermissionForbidden)
              && (REVIEW_RIGHTS[action] in user.permissions && !MayAsk(user, action, comment) ==> outcome.error == MissingComment)
              && (MayAsk(user, action, comment) ==>
                    if id >= |records| then outcome.error == NotFound else RefusedFor(records[id], user, action, outcome.error))
  {
    AskExactly(user, action, comment);
    if id < |records| {
      GuardExactly(records[id], user, action);
      if MayReview(records[id], user, action) { ReviewedExactly(records[id], user, action); }
    }
    assert MayAsk(user, action, comment) ==> REVIEW_RIGHTS[action] in user.permissions;
    hide MayAsk, MayReview, RequestGuard, IsReview, RefusedFor, Reviewed;
    if id < |records| && ReviewGuard(records[id], user, action).None? { assert ResolveTransition(records[id].status, action).Some?; }
    hide ReviewGuard;
  }

  // ------------------------------------------------------- loading decisions

  const LOADING_ROLES: set<Role> := {FG_SUPERVISOR, QA_EXECUTIVE, FOOD_SAFETY_TEAM_LEADER, SYSTEM_ADMINISTRATOR}

  const APPROVALS: set<LoadingDecision> := {APPROVED_FOR_LOADING, CONDITIONALLY_APPROVED}

  /** A decision about loading is accepted exactly from one of four roles, for a
      truck, and not as an approval against a blocked recommendation; it is
      stored with its author and an approval row. */
  lemma LoadingExactly(records: seq<Record>, user: User, id: nat, decision: LoadingDecision, defs: Definitions)
    ensures var (after, outcome) := Step(records, user, DecideLoading(id, decision), defs);
            if user.roles !! LOADING_ROLES then (after, outcome) == (records, Refused(LoadingForbidden))
            else if decision == PENDING then (after, outcome) == (records, Refused(InvalidPayload))
            else if id >= |records| then (after, outcome) == (records, Refused(NotFound))
            else if records[id].truck == None then (after, outcome) == (records, Refused(NotATruck))
            else if decision in APPROVALS && records[id].truck.value.recommendedDecision == Some(LOADING_BLOCKED)
            then (after, outcome) == (records, Refused(CriticalOverride))
            else
              && outcome == Done(id) && OnlyRecord(records, after, id)
              && var r := records[id];
                 after[id] == r.(truck := Some(r.truck.value.(loadingDecision := decision, decidedBy := Some(user.id))),
                                 approvals := r.approvals + [Approval(LoadingApproval, decision in APPROVALS, user.id)])
  {
    assert MayDecideLoading(user) <==> !(user.roles !! LOADING_ROLES);
    hide MayDecideLoading;
  }
}
