/** Corrective-action lifecycle (corrective-actions.service.ts). */
module CorrectiveActions {
  import opened JsText
  import opened Wrappers

  datatype Status =
    | OPEN | ASSIGNED | IN_PROGRESS | COMPLETED | PENDING_VERIFICATION | REJECTED | VERIFIED
    | CLOSED | REOPENED | OVERDUE | CANCELLED | CANCELLED_WITH_REASON

  datatype Row = Row(
    status: Status,
    assignedTo: Option<nat>,
    dueDate: Option<nat>,
    completionComment: Option<Str>,
    completedAt: Option<nat>,
    verificationComment: Option<Str>,
    rejectionReason: Option<Str>,
    cancelReason: Option<Str>,
    verifiedBy: Option<nat>,
    verifiedAt: Option<nat>,
    closedBy: Option<nat>,
    closedAt: Option<nat>,
    reopenedAt: Option<nat>)

  datatype Op =
    | Assign(assignee: nat, due: Option<nat>)
    | Start
    | Complete(comment: Str)
    | Verify(comment: Str)
    | Reject(comment: Str)
    | Reopen
    | Cancel(comment: Str)

  datatype Error = NotFound | BadTransition | InactiveAssignee | CommentRequired | SelfVerification

  datatype AuditAction = CA_ASSIGNED | CA_STARTED | CA_COMPLETED | CA_VERIFIED_CLOSED | CA_REJECTED | CA_REOPENED | CA_CANCELLED

  datatype AuditEntry = AuditEntry(actor: nat, entity: nat, action: AuditAction)

  /** One service call: the row, what is asked, by whom and when, and which
      users are active. */
  datatype Call = Call(id: nat, op: Op, actor: nat, now: nat, activeUsers: set<nat>)

  datatype Store = Store(rows: map<nat, Row>, audit: seq<AuditEntry>)

  predicate Assignable(st: Status) { st in {OPEN, REOPENED, REJECTED, ASSIGNED} }
  predicate Startable(st: Status) { st in {OPEN, ASSIGNED, REOPENED} }
  predicate Completable(st: Status) { st in {IN_PROGRESS, ASSIGNED, REOPENED, OPEN} }
  predicate Verifyable(st: Status) { st in {PENDING_VERIFICATION, COMPLETED} }
  predicate Rejectable(st: Status) { st in {PENDING_VERIFICATION, COMPLETED, IN_PROGRESS} }
  predicate Reopenable(st: Status) { st in {REJECTED, VERIFIED, CLOSED} }
  predicate Cancelable(st: Status) { st in {OPEN, ASSIGNED, IN_PROGRESS, REOPENED, REJECTED} }

  predicate Allows(op: Op, st: Status) {
    match op
    case Assign(_, _) => Assignable(st)
    case Start => Startable(st)
    case Complete(_) => Completable(st)
    case Verify(_) => Verifyable(st)
    case Reject(_) => Rejectable(st)
    case Reopen => Reopenable(st)
    case Cancel(_) => Cancelable(st)
  }

  function Guard(row: Row, c: Call): Option<Error> {
    if !Allows(c.op, row.status) then Some(BadTransition)
    else
      match c.op
      case Assign(assignee, _) => if assignee in c.activeUsers then None else Some(InactiveAssignee)
      case Start => None
      case Complete(comment) => if IsBlank(comment) then Some(CommentRequired) else None
      case Verify(comment) =>
        if IsBlank(comment) then Some(CommentRequired)
        else if row.assignedTo == Some(c.actor) then Some(SelfVerification) else None
      case Reject(comment) => if IsBlank(comment) then Some(CommentRequired) else None
      case Reopen => None
      case Cancel(comment) => if IsBlank(comment) then Some(CommentRequired) else None
  }

  function Update(row: Row, c: Call): Row {
    match c.op
    case Assign(assignee, due) =>
      row.(assignedTo := Some(assignee), dueDate := if due.Some? then due else row.dueDate, status := ASSIGNED)
    case Start => row.(status := IN_PROGRESS)
    case Complete(comment) =>
      row.(status := PENDING_VERIFICATION, completionComment := Some(Trim(comment)), completedAt := Some(c.now))
    case Verify(comment) =>
      row.(status := CLOSED, verificationComment := Some(Trim(comment)), verifiedBy := Some(c.actor),
           verifiedAt := Some(c.now), closedBy := Some(c.actor), closedAt := Some(c.now))
    case Reject(comment) =>
      row.(status := REJECTED, rejectionReason := Some(Trim(comment)), verifiedBy := Some(c.actor))
    case Reopen => row.(status := REOPENED, reopenedAt := Some(c.now), closedAt := None, closedBy := None)
    case Cancel(comment) =>
      row.(status := CANCELLED_WITH_REASON, cancelReason := Some(Trim(comment)), closedAt := Some(c.now), closedBy := Some(c.actor))
  }

  function AuditOf(op: Op): AuditAction {
    match op
    case Assign(_, _) => CA_ASSIGNED
    case Start => CA_STARTED
    case Complete(_) => CA_COMPLETED
    case Verify(_) => CA_VERIFIED_CLOSED
    case Reject(_) => CA_REJECTED
    case Reopen => CA_REOPENED
    case Cancel(_) => CA_CANCELLED
  }

  /** The effect of one call and the error it ends with, if any. */
  function Step(s: Store, c: Call): (Store, Option<Error>) {
    if c.id !in s.rows then (s, Some(NotFound))
    else
      var row := s.rows[c.id];
      match Guard(row, c)
      case Some(e) => (s, Some(e))
      case None => (Store(s.rows[c.id := Update(row, c)], s.audit + [AuditEntry(c.actor, c.id, AuditOf(c.op))]), None)
  }

  function Run(s: Store, calls: seq<Call>): Store {
    if calls == [] then s else Step(Run(s, calls[..|calls| - 1]), calls[|calls| - 1]).0
  }

  /** Actions as inspection submits create them: open, nothing filled in yet. */
  predicate IsNew(row: Row) {
    row.status == OPEN && row.closedAt.None?
  }

  predicate Initial(s: Store) {
    s.audit == [] && forall id :: id in s.rows ==> IsNew(s.rows[id])
  }

  predicate Sound(row: Row) {
    && (row.closedAt.Some? <==> row.status in {CLOSED, CANCELLED_WITH_REASON})
    && (row.status in {PENDING_VERIFICATION, CLOSED} ==> row.completionComment.Some? && row.completionComment.value != [])
    && (row.status == CLOSED ==> row.verifiedBy.Some? && row.closedBy == row.verifiedBy && row.assignedTo != row.verifiedBy)
    && row.status !in {COMPLETED, VERIFIED, OVERDUE, CANCELLED}
  }

  lemma UpdateKeepsSound(row: Row, c: Call)
    requires Sound(row) && Guard(row, c).None?
    ensures Sound(Update(row, c))
  {
    hide Trim;
    match c.op
    case Assign(_, _) =>
    case Start =>
    case Complete(_) =>
    case Verify(_) =>
    case Reject(_) =>
    case Reopen =>
    case Cancel(_) =>
  }

  lemma UpdateAuditsStatus(row: Row, c: Call)
    ensures Update(row, c).status == StatusAfter(AuditOf(c.op))
  {
  }

  /** In every run from new actions: `closedAt` is set exactly on closed and
      cancelled actions, and a closed one has a completion comment and was
      verified by somebody other than its assignee. */
  lemma {:induction false} EveryRunIsSound(s: Store, calls: seq<Call>)
    requires Initial(s)
    ensures var t := Run(s, calls);
            t.rows.Keys == s.rows.Keys && forall id :: id in t.rows ==> Sound(t.rows[id])
  {
    if calls != [] {
      hide Update, Guard, Sound;
      var before, c := Run(s, calls[..|calls| - 1]), calls[|calls| - 1];
      EveryRunIsSound(s, calls[..|calls| - 1]);
      if c.id in before.rows && Guard(before.rows[c.id], c).None? {
        UpdateKeepsSound(before.rows[c.id], c);
      }
    }
  }

  /** The status an audit action leaves behind. */
  function StatusAfter(a: AuditAction): Status {
    match a
    case CA_ASSIGNED => ASSIGNED
    case CA_STARTED => IN_PROGRESS
    case CA_COMPLETED => PENDING_VERIFICATION
    case CA_VERIFIED_CLOSED => CLOSED
    case CA_REJECTED => REJECTED
    case CA_REOPENED => REOPENED
    case CA_CANCELLED => CANCELLED_WITH_REASON
  }

  /** Status of an action according to the audit trail alone. */
  function Replayed(audit: seq<AuditEntry>, id: nat): Status {
    if audit == [] then OPEN
    else
      var last := audit[|audit| - 1];
      if last.entity == id then StatusAfter(last.action) else Replayed(audit[..|audit| - 1], id)
  }

  /** The audit trail never drifts: replaying it gives every action's status. */
  lemma {:induction false} AuditTrailDeterminesStatus(s: Store, calls: seq<Call>, id: nat)
    requires Initial(s) && id in s.rows
    ensures var t := Run(s, calls);
            id in t.rows && t.rows[id].status == Replayed(t.audit, id)
  {
    if calls != [] {
      hide Update, Guard;
      var before, c := Run(s, calls[..|calls| - 1]), calls[|calls| - 1];
      if c.id in before.rows { UpdateAuditsStatus(before.rows[c.id], c); }
      AuditTrailDeterminesStatus(s, calls[..|calls| - 1], id);
      var after := Step(before, c).0;
      if after.audit != before.audit {
        assert after.audit[..|after.audit| - 1] == before.audit;
      }
    }
  }

  /** Runs of accepted calls on one row. */
  ghost predicate Reaches(row: Row, goal: Status, calls: seq<Call>)
    decreases |calls|
  {
    if calls == [] then row.status == goal
    else Guard(row, calls[0]).None? && Reaches(Update(row, calls[0]), goal, calls[1..])
  }

  predicate IsStuck(st: Status) {
    st in {CANCELLED_WITH_REASON, CANCELLED, OVERDUE}
  }

  lemma {:induction false} StuckStaysPut(row: Row, calls: seq<Call>)
    requires IsStuck(row.status)
    ensures !Reaches(row, CLOSED, calls)
  {
    hide Update, IsBlank;
    assert calls != [] ==> !Allows(calls[0].op, row.status);
  }

  function Ask(op: Op, actor: nat): Call {
    Call(0, op, actor, 0, {})
  }

  lemma NonBlankNote()
    ensures !IsBlank([111, 107])
  {
    TrimNoWhite([111, 107]);
  }

  /** Somebody other than the assignee. */
  function Other(row: Row): nat {
    if row.assignedTo == Some(0) then 1 else 0
  }

  /** One accepted call in front of a way to the goal. */
  lemma CallFirst(row: Row, goal: Status, c: Call, rest: seq<Call>)
    requires Guard(row, c).None? && Reaches(Update(row, c), goal, rest)
    ensures Reaches(row, goal, [c] + rest)
  {
    hide Guard, Update;
    assert ([c] + rest)[1..] == rest;
  }

  lemma VerifyCloses(row: Row)
    requires Verifyable(row.status)
    ensures Reaches(row, CLOSED, [Ask(Verify([111, 107]), Other(row))])
  {
    NonBlankNote();
    hide IsBlank, Trim;
    var c := Ask(Verify([111, 107]), Other(row));
    assert Reaches(Update(row, c), CLOSED, []);
    CallFirst(row, CLOSED, c, []);
    assert [c] + [] == [c];
  }

  lemma CompleteCloses(row: Row)
    requires Completable(row.status)
    ensures Reaches(row, CLOSED, [Ask(Complete([111, 107]), 0), Ask(Verify([111, 107]), Other(row))])
  {
    NonBlankNote();
    hide IsBlank, Trim, Reaches;
    var c, last := Ask(Complete([111, 107]), 0), Ask(Verify([111, 107]), Other(row));
    VerifyCloses(Update(row, c));
    CallFirst(row, CLOSED, c, [last]);
    assert [c] + [last] == [c, last];
  }

  lemma ReopenCloses(row: Row)
    requires Reopenable(row.status)
    ensures Reaches(row, CLOSED, [Ask(Reopen, 0), Ask(Complete([111, 107]), 0), Ask(Verify([111, 107]), Other(row))])
  {
    hide IsBlank, Trim, Reaches;
    var c := Ask(Reopen, 0);
    var rest := [Ask(Complete([111, 107]), 0), Ask(Verify([111, 107]), Other(row))];
    CompleteCloses(Update(row, c));
    CallFirst(row, CLOSED, c, rest);
    assert [c] + rest == [c, rest[0], rest[1]];
  }

  lemma ClosingCalls(row: Row) returns (calls: seq<Call>)
    requires !IsStuck(row.status)
    ensures |calls| <= 3 && Reaches(row, CLOSED, calls)
  {
    hide Update, Guard, IsBlank;
    if row.status == CLOSED {
      calls := [];
    } else if Verifyable(row.status) {
      VerifyCloses(row);
      calls := [Ask(Verify([111, 107]), Other(row))];
    } else if Completable(row.status) {
      CompleteCloses(row);
      calls := [Ask(Complete([111, 107]), 0), Ask(Verify([111, 107]), Other(row))];
    } else {
      ReopenCloses(row);
      calls := [Ask(Reopen, 0), Ask(Complete([111, 107]), 0), Ask(Verify([111, 107]), Other(row))];
    }
  }

  /** An action can still be closed exactly when it is not cancelled or
      overdue, and then three accepted calls are enough. */
  lemma ClosableExactlyUnlessStuck(row: Row)
    ensures (exists calls :: |calls| <= 3 && Reaches(row, CLOSED, calls)) <==> !IsStuck(row.status)
    ensures (exists calls :: Reaches(row, CLOSED, calls)) <==> !IsStuck(row.status)
  {
    if IsStuck(row.status) {
      forall calls ensures !Reaches(row, CLOSED, calls) { StuckStaysPut(row, calls); }
    } else {
      var calls := ClosingCalls(row);
    }
  }

  /** The service over its two tables. */
  class CorrectiveActionsService {
    var rows: map<nat, Row>
    var audit: seq<AuditEntry>

    ghost function State(): Store
      reads this
    {
      Store(rows, audit)
    }

    constructor (initial: map<nat, Row>)
      ensures State() == Store(initial, [])
    {
      rows, audit := initial, [];
    }

    method Log(actor: nat, id: nat, action: AuditAction)
      modifies this`audit
      ensures audit == old(audit) + [AuditEntry(actor, id, action)]
    {
      audit := audit + [AuditEntry(actor, id, action)];
    }

    method Assign(id: nat, assignee: nat, due: Option<nat>, actor: nat, activeUsers: set<nat>) returns (e: Option<Error>)
      modifies this
      ensures forall now :: (State(), e) == Step(old(State()), Call(id, Op.Assign(assignee, due), actor, now, activeUsers))
    {
      if id !in rows { return Some(NotFound); }
      var row := rows[id];
      if !Assignable(row.status) { return Some(BadTransition); }
      if assignee !in activeUsers { return Some(InactiveAssignee); }
      rows := rows[id := row.(assignedTo := Some(assignee), dueDate := if due.Some? then due else row.dueDate, status := ASSIGNED)];
      Log(actor, id, CA_ASSIGNED);
      return None;
    }

    method Start(id: nat, actor: nat) returns (e: Option<Error>)
      modifies this
      ensures forall now :: (State(), e) == Step(old(State()), Call(id, Op.Start, actor, now, {}))
    {
      if id !in rows { return Some(NotFound); }
      var row := rows[id];
      if !Startable(row.status) { return Some(BadTransition); }
      rows := rows[id := row.(status := IN_PROGRESS)];
      Log(actor, id, CA_STARTED);
      return None;
    }

    method Complete(id: nat, comment: Str, actor: nat, now: nat) returns (e: Option<Error>)
      modifies this
      ensures (State(), e) == Step(old(State()), Call(id, Op.Complete(comment), actor, now, {}))
    {
      if id !in rows { return Some(NotFound); }
      var row := rows[id];
      if !Completable(row.status) { return Some(BadTransition); }
      if IsBlank(comment) { return Some(CommentRequired); }
      rows := rows[id := row.(status := PENDING_VERIFICATION, completionComment := Some(Trim(comment)), completedAt := Some(now))];
      Log(actor, id, CA_COMPLETED);
      return None;
    }

    method Verify(id: nat, comment: Str, actor: nat, now: nat) returns (e: Option<Error>)
      modifies this
      ensures (State(), e) == Step(old(State()), Call(id, Op.Verify(comment), actor, now, {}))
    {
      if id !in rows { return Some(NotFound); }
      var row := rows[id];
      if !Verifyable(row.status) { return Some(BadTransition); }
      if IsBlank(comment) { return Some(CommentRequired); }
      if row.assignedTo.Some? && row.assignedTo.value == actor { return Some(SelfVerification); }
      rows := rows[id := row.(status := CLOSED, verificationComment := Some(Trim(comment)), verifiedBy := Some(actor),
                              verifiedAt := Some(now), closedBy := Some(actor), closedAt := Some(now))];
      Log(actor, id, CA_VERIFIED_CLOSED);
      return None;
    }

    method Reject(id: nat, reason: Str, actor: nat) returns (e: Option<Error>)
      modifies this
      ensures forall now :: (State(), e) == Step(old(State()), Call(id, Op.Reject(reason), actor, now, {}))
    {
      if id !in rows { return Some(NotFound); }
      var row := rows[id];
      if !Rejectable(row.status) { return Some(BadTransition); }
      if IsBlank(reason) { return Some(CommentRequired); }
      rows := rows[id := row.(status := REJECTED, rejectionReason := Some(Trim(reason)), verifiedBy := Some(actor))];
      Log(actor, id, CA_REJECTED);
      return None;
    }

    method Reopen(id: nat, actor: nat, now: nat) returns (e: Option<Error>)
      modifies this
      ensures (State(), e) == Step(old(State()), Call(id, Op.Reopen, actor, now, {}))
    {
      if id !in rows { return Some(NotFound); }
      var row := rows[id];
      if !Reopenable(row.status) { return Some(BadTransition); }
      rows := rows[id := row.(status := REOPENED, reopenedAt := Some(now), closedAt := None, closedBy := None)];
      Log(actor, id, CA_REOPENED);
      return None;
    }

    method Cancel(id: nat, reason: Str, actor: nat, now: nat) returns (e: Option<Error>)
      modifies this
      ensures (State(), e) == Step(old(State()), Call(id, Op.Cancel(reason), actor, now, {}))
    {
      if id !in rows { return Some(NotFound); }
      var row := rows[id];
      if !Cancelable(row.status) { return Some(BadTransition); }
      if IsBlank(reason) { return Some(CommentRequired); }
      rows := rows[id := row.(status := CANCELLED_WITH_REASON, cancelReason := Some(Trim(reason)),
                              closedAt := Some(now), closedBy := Some(actor))];
      Log(actor, id, CA_CANCELLED);
      return None;
    }
  }
}
