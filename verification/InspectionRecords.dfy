/** Inspection records as the service sees them: the rows of one record and
    what every operation does to them (inspection-records.service.ts). */
module InspectionRecords {
  import opened JsText
  import opened Wrappers
  import opened ChecklistEngine
  import opened RecordRules

  datatype Role = FG_OPERATOR | FG_SUPERVISOR | QA_EXECUTIVE | FOOD_SAFETY_TEAM_LEADER | SYSTEM_ADMINISTRATOR | AUDITOR

  datatype Permission = RECORDS_CHECK | RECORDS_VERIFY | RECORDS_RETURN | RECORDS_REJECT | RECORDS_VOID

  datatype User = User(id: nat, roles: set<Role>, permissions: set<Permission>)

  datatype TruckDetail = TruckDetail(
    vehicleNumber: Str, recommendedDecision: Option<LoadingDecision>, loadingDecision: LoadingDecision, decidedBy: Option<nat>)

  datatype ApprovalKind = CheckApproval | VerifyApproval | ReturnApproval | RejectApproval | VoidApproval | LoadingApproval

  datatype Approval = Approval(kind: ApprovalKind, approved: bool, decidedBy: nat)

  /** A corrective action raised by a submit; its result row is the one of its item. */
  datatype Action = Action(itemId: nat, critical: bool, createdBy: nat)

  /** A record with the rows that belong to it.  Freezer-truck inspections are
      the records with a truck detail. */
  datatype Record = Record(
    versionId: nat,
    status: RecordStatus,
    date: int,
    shift: Option<nat>,
    area: Str,
    createdBy: nat,
    checkedBy: Option<nat>,
    verifiedBy: Option<nat>,
    reinspectionOf: Option<nat>,
    truck: Option<TruckDetail>,
    rows: seq<ResultRow>,
    approvals: seq<Approval>,
    actions: seq<Action>)

  /** What "the same inspection" means for duplicate prevention. */
  datatype Key = CleaningKey(date: int, shift: Option<nat>, area: Str) | TruckKey(date: int, shift: Option<nat>, vehicleNumber: Str)

  function KeyOf(r: Record): Key {
    if r.truck.Some? then TruckKey(r.date, r.shift, r.truck.value.vehicleNumber) else CleaningKey(r.date, r.shift, r.area)
  }

  datatype Entry = Entry(itemId: nat, response: Response)

  datatype Error =
    | NotFound | Locked | ValidationFailed(errors: seq<ValidationError>) | PermissionForbidden | MissingComment
    | InvalidTransition | SegregationOfDuty | DuplicateApproval | DuplicateRecord | NoPublishedTemplate
    | LoadingForbidden | NotATruck | CriticalOverride | InvalidPayload

  datatype Outcome = Done(id: nat) | Refused(error: Error)

  /** The review actions the service has an endpoint for. */
  type ReviewAction = a: WorkflowAction | a.CHECK? || a.VERIFY? || a.RETURN? || a.REJECT? || a.VOID?
    witness WorkflowAction.CHECK

  datatype Op =
    | CreateDraft(key: Key, area: Str, version: Option<nat>, reinspectionOf: Option<nat>)
    | SaveDraft(id: nat, entries: seq<Entry>, newArea: Option<Str>)
    | Submit(id: nat, answers: Option<seq<Entry>>)
    | Review(id: nat, action: ReviewAction, comment: Option<Str>)
    | DecideLoading(id: nat, decision: LoadingDecision)

  // ------------------------------------------------------------------ rows

  function RowIndex(rows: seq<ResultRow>, itemId: nat): (k: nat)
    ensures k <= |rows|
    ensures k < |rows| ==> rows[k].itemId == itemId
    ensures k == |rows| ==> forall i :: 0 <= i < |rows| ==> rows[i].itemId != itemId
  {
    if rows == [] then 0 else if rows[0].itemId == itemId then 0 else 1 + RowIndex(rows[1..], itemId)
  }

  /** The item a response is for: the last of the checklist with that id. */
  function FindItem(items: seq<Item>, id: nat): (r: Option<Item>)
    ensures r.Some? <==> exists i :: 0 <= i < |items| && items[i].id == id
    ensures r.Some? ==> r.value in items && r.value.id == id
  {
    if items == [] then None
    else
      var last := items[|items| - 1];
      if last.id == id then Some(last) else FindItem(items[..|items| - 1], id)
  }

  /** Upsert of one status answer; other kinds of answer are not stored, and
      attachments change only when the answer brings some. */
  function PersistOne(rows: seq<ResultRow>, item: Item, response: Response): seq<ResultRow> {
    if response.value.None? || !response.value.value.StatusValue? then rows
    else
      var k := RowIndex(rows, item.id);
      var kept := if k < |rows| then rows[k].attachments else [];
      var row := ResultRow(item.id, ResultFromNormalized(item.rules.itemType, response.value.value.status),
                           response.issueReason, response.correction, response.correctiveAction, response.remark,
                           if response.evidence.Some? then response.evidence.value else kept);
      if k < |rows| then rows[k := row] else rows + [row]
  }

  /** One entry of a request; entries for no item of the checklist are skipped. */
  function PersistEntry(rows: seq<ResultRow>, items: seq<Item>, entry: Entry): seq<ResultRow> {
    match FindItem(items, entry.itemId)
    case None => rows
    case Some(item) => PersistOne(rows, item, entry.response)
  }

  function PersistTo(rows: seq<ResultRow>, items: seq<Item>, entries: seq<Entry>, n: nat): seq<ResultRow>
    requires n <= |entries|
  {
    if n == 0 then rows else PersistEntry(PersistTo(rows, items, entries, n - 1), items, entries[n - 1])
  }

  function Persist(r: Record, items: seq<Item>, entries: seq<Entry>): Record {
    r.(rows := PersistTo(r.rows, items, entries, |entries|))
  }

  // ------------------------------------------------------ corrective actions

  predicate HasAction(actions: seq<Action>, itemId: nat) {
    exists i :: 0 <= i < |actions| && actions[i].itemId == itemId
  }

  predicate NeedsAction(item: Item, rs: ResponseMap) {
    item.rules.correctiveActionRequiredOnFail && IsFailure(item, Lookup(rs, item.id))
  }

  /** Actions after the first n items have been looked at, given the responses
      and the result rows that were read. */
  function RaiseTo(actions: seq<Action>, items: seq<Item>, rs: ResponseMap, rows: seq<ResultRow>, user: nat, n: nat): seq<Action>
    requires n <= |items|
  {
    if n == 0 then actions
    else
      var before := RaiseTo(actions, items, rs, rows, user, n - 1);
      var item := items[n - 1];
      if NeedsAction(item, rs) && RowIndex(rows, item.id) < |rows| && !HasAction(before, item.id)
      then before + [Action(item.id, item.rules.isCriticalFailure, user)] else before
  }

  /** The record once a submit has claimed it, for the responses and rows the
      call had read. */
  function Claimed(r: Record, items: seq<Item>, rs: ResponseMap, rows: seq<ResultRow>, user: nat): Record {
    var decision := RecommendedDecision(items, rs);
    r.(status := PENDING_CHECK,
       actions := RaiseTo(r.actions, items, rs, rows, user, |items|),
       truck := if r.truck.Some?
                then Some(r.truck.value.(recommendedDecision := Some(decision), loadingDecision := decision))
                else None)
  }

  // ---------------------------------------------------------------- reviews

  predicate CanView(r: Record, user: User) {
    user.roles != {FG_OPERATOR} || r.createdBy == user.id
  }

  function PermissionFor(action: ReviewAction): Permission {
    match action
    case CHECK => RECORDS_CHECK
    case VERIFY => RECORDS_VERIFY
    case RETURN => RECORDS_RETURN
    case REJECT => RECORDS_REJECT
    case VOID => RECORDS_VOID
  }

  function ApprovedCount(approvals: seq<Approval>, kind: ApprovalKind): nat {
    if approvals == [] then 0
    else
      var last := approvals[|approvals| - 1];
      ApprovedCount(approvals[..|approvals| - 1], kind) + (if last.kind == kind && last.approved then 1 else 0)
  }

  /** What is checked before any record is read. */
  function RequestGuard(user: User, action: ReviewAction, comment: Option<Str>): Option<Error> {
    if PermissionFor(action) !in user.permissions then Some(PermissionForbidden)
    else if CommentRequired(action) && (comment.None? || IsBlank(comment.value)) then Some(MissingComment)
    else None
  }

  function ReviewGuard(r: Record, user: User, action: ReviewAction): Option<Error> {
    if !CanView(r, user) then Some(NotFound)
    else if IsImmutableVerified(r.status) && !action.VOID? then Some(Locked)
    else if ResolveTransition(r.status, action).None? then Some(InvalidTransition)
    else
      match action
      case CHECK =>
        if !MayCheck(DEFAULT_POLICY, user.id, r.createdBy) then Some(SegregationOfDuty)
        else if ApprovedCount(r.approvals, CheckApproval) > 0 then Some(DuplicateApproval)
        else None
      case VERIFY =>
        if !MayVerify(DEFAULT_POLICY, user.id, r.createdBy, r.checkedBy) then Some(SegregationOfDuty)
        else if ApprovedCount(r.approvals, VerifyApproval) > 0 then Some(DuplicateApproval)
        else None
      case _ => None
  }

  function Reviewed(r: Record, user: User, action: ReviewAction): Record
    requires ResolveTransition(r.status, action).Some?
  {
    var r' := r.(status := ResolveTransition(r.status, action).value);
    match action
    case CHECK => r'.(checkedBy := Some(user.id), approvals := r.approvals + [Approval(CheckApproval, true, user.id)])
    case VERIFY => r'.(verifiedBy := Some(user.id), approvals := r.approvals + [Approval(VerifyApproval, true, user.id)])
    case RETURN => r'.(approvals := r.approvals + [Approval(ReturnApproval, false, user.id)])
    case REJECT => r'.(approvals := r.approvals + [Approval(RejectApproval, false, user.id)])
    case VOID => r'.(approvals := r.approvals + [Approval(VoidApproval, false, user.id)])
  }

  // ------------------------------------------------------- loading decision

  predicate MayDecideLoading(user: User) {
    FG_SUPERVISOR in user.roles || QA_EXECUTIVE in user.roles || FOOD_SAFETY_TEAM_LEADER in user.roles
    || SYSTEM_ADMINISTRATOR in user.roles
  }

  function LoadingGuard(r: Record, decision: LoadingDecision): Option<Error> {
    if r.truck.None? then Some(NotATruck)
    else if IsApprovedOutcome(decision) && !OverrideToApprovedAllowed(r.truck.value.recommendedDecision) then Some(CriticalOverride)
    else None
  }

  function Decided(r: Record, user: nat, decision: LoadingDecision): Record
    requires r.truck.Some?
  {
    r.(truck := Some(r.truck.value.(loadingDecision := decision, decidedBy := Some(user))),
       approvals := r.approvals + [Approval(LoadingApproval, IsApprovedOutcome(decision), user)])
  }

  // ------------------------------------------------------------- duplicates

  /** The newest of the first n records with the key; records are listed in
      creation order. */
  function NewestTo(records: seq<Record>, key: Key, n: nat): (k: Option<nat>)
    requires n <= |records|
    ensures k.Some? ==> k.value < n && KeyOf(records[k.value]) == key
    ensures k.Some? ==> forall i :: k.value < i < n ==> KeyOf(records[i]) != key
    ensures k.None? ==> forall i :: 0 <= i < n ==> KeyOf(records[i]) != key
  {
    if n == 0 then None
    else if KeyOf(records[n - 1]) == key then Some(n - 1)
    else NewestTo(records, key, n - 1)
  }

  function ResolveKey(records: seq<Record>, key: Key, requester: nat): DuplicateResolution {
    var newest := NewestTo(records, key, |records|);
    ResolveDraftDuplicate(
      if newest.Some? then Some(Existing(newest.value, records[newest.value].status, records[newest.value].createdBy)) else None,
      requester)
  }

  function NewRecord(user: nat, key: Key, area: Str, version: nat, reinspectionOf: Option<nat>): Record {
    match key
    case CleaningKey(date, shift, keyArea) =>
      Record(version, DRAFT, date, shift, keyArea, user, None, None, None, None, [], [], [])
    case TruckKey(date, shift, vehicle) =>
      Record(version, DRAFT, date, shift, area, user, None, None, reinspectionOf,
             Some(TruckDetail(vehicle, None, PENDING, None)), [], [], [])
  }

  // ------------------------------------------------------------------- step

  /** Checklist content of each template version. */
  type Definitions = nat -> seq<Section>

  function ItemsOf(r: Record, defs: Definitions): seq<Item> {
    FlattenItems(defs(r.versionId))
  }

  function OwnerGuard(records: seq<Record>, user: User, id: nat): Option<Error> {
    if id >= |records| || records[id].createdBy != user.id then Some(NotFound)
    else if !IsEditable(records[id].status) then Some(Locked)
    else None
  }

  function CreateStep(records: seq<Record>, user: User, op: Op): (seq<Record>, Outcome)
    requires op.CreateDraft?
  {
    match ResolveKey(records, op.key, user.id)
    case Conflict => (records, Refused(DuplicateRecord))
    case Resume(id) => (records, Done(id))
    case CreateNew =>
      if op.version.None? then (records, Refused(NoPublishedTemplate))
      else if op.key.TruckKey? && op.reinspectionOf.Some? && op.reinspectionOf.value >= |records| then (records, Refused(NotFound))
      else (records + [NewRecord(user.id, op.key, op.area, op.version.value, op.reinspectionOf)], Done(|records|))
  }

  function SaveStep(records: seq<Record>, user: User, op: Op, defs: Definitions): (seq<Record>, Outcome)
    requires op.SaveDraft?
  {
    match OwnerGuard(records, user, op.id)
    case Some(e) => (records, Refused(e))
    case None =>
      var r := records[op.id];
      var r' := Persist(r, ItemsOf(r, defs), op.entries);
      var r'' := if op.newArea.Some? && op.newArea.value != [] then r'.(area := op.newArea.value) else r';
      (records[op.id := r''], Done(op.id))
  }

  /** The record as a submit leaves it before the responses are validated. */
  function WithAnswers(r: Record, items: seq<Item>, answers: Option<seq<Entry>>): Record {
    if answers.Some? then Persist(r, items, answers.value) else r
  }

  function SubmitStep(records: seq<Record>, user: User, op: Op, defs: Definitions): (seq<Record>, Outcome)
    requires op.Submit?
  {
    match OwnerGuard(records, user, op.id)
    case Some(e) => (records, Refused(e))
    case None =>
      var r := records[op.id];
      var items := ItemsOf(r, defs);
      var r' := WithAnswers(r, items, op.answers);
      var rs := ResponsesOf(r'.rows);
      var validation := ValidationOf(items, rs);
      if !validation.isValid then (records[op.id := r'], Refused(ValidationFailed(validation.errors)))
      else (records[op.id := Claimed(r', items, rs, r'.rows, user.id)], Done(op.id))
  }

  function ReviewStep(records: seq<Record>, user: User, op: Op): (seq<Record>, Outcome)
    requires op.Review?
  {
    match RequestGuard(user, op.action, op.comment)
    case Some(e) => (records, Refused(e))
    case None =>
      if op.id >= |records| then (records, Refused(NotFound))
      else
        match ReviewGuard(records[op.id], user, op.action)
        case Some(e) => (records, Refused(e))
        case None => (records[op.id := Reviewed(records[op.id], user, op.action)], Done(op.id))
  }

  function LoadingStep(records: seq<Record>, user: User, op: Op): (seq<Record>, Outcome)
    requires op.DecideLoading?
  {
    if !MayDecideLoading(user) then (records, Refused(LoadingForbidden))
    else if op.decision.PENDING? then (records, Refused(InvalidPayload))
    else if op.id >= |records| then (records, Refused(NotFound))
    else
      match LoadingGuard(records[op.id], op.decision)
      case Some(e) => (records, Refused(e))
      case None => (records[op.id := Decided(records[op.id], user.id, op.decision)], Done(op.id))
  }

  /** One service call, atomically. */
  function Step(records: seq<Record>, user: User, op: Op, defs: Definitions): (seq<Record>, Outcome) {
    match op
    case CreateDraft(_, _, _, _) => CreateStep(records, user, op)
    case SaveDraft(_, _, _) => SaveStep(records, user, op, defs)
    case Submit(_, _) => SubmitStep(records, user, op, defs)
    case Review(_, _, _) => ReviewStep(records, user, op)
    case DecideLoading(_, _) => LoadingStep(records, user, op)
  }

  datatype Call = Call(user: User, op: Op)

  function Run(records: seq<Record>, calls: seq<Call>, defs: Definitions): seq<Record> {
    if calls == [] then records
    else
      var last := calls[|calls| - 1];
      Step(Run(records, calls[..|calls| - 1], defs), last.user, last.op, defs).0
  }
}
