/** When each call on a corrective action is accepted and what it stores, field
    by field (corrective-actions.service.ts). */
module ActionCalls {
  import opened JsText
  import opened Wrappers
  import opened CorrectiveActions

  /** What may be done with an action, status by status. */
  const ALLOWED: map<Status, set<AuditAction>> := map[
    OPEN := {CA_ASSIGNED, CA_STARTED, CA_COMPLETED, CA_CANCELLED},
    ASSIGNED := {CA_ASSIGNED, CA_STARTED, CA_COMPLETED, CA_CANCELLED},
    REOPENED := {CA_ASSIGNED, CA_STARTED, CA_COMPLETED, CA_CANCELLED},
    IN_PROGRESS := {CA_COMPLETED, CA_REJECTED, CA_CANCELLED},
    COMPLETED := {CA_VERIFIED_CLOSED, CA_REJECTED},
    PENDING_VERIFICATION := {CA_VERIFIED_CLOSED, CA_REJECTED},
    REJECTED := {CA_ASSIGNED, CA_REOPENED, CA_CANCELLED},
    VERIFIED := {CA_REOPENED},
    CLOSED := {CA_REOPENED},
    OVERDUE := {},
    CANCELLED := {},
    CANCELLED_WITH_REASON := {}
  ]

  /** The audit action of a call, and the text it has to bring, if any. */
  function KindOf(op: Op): (AuditAction, Option<Str>) {
    match op
    case Assign(_, _) => (CA_ASSIGNED, None)
    case Start => (CA_STARTED, None)
    case Complete(comment) => (CA_COMPLETED, Some(comment))
    case Verify(comment) => (CA_VERIFIED_CLOSED, Some(comment))
    case Reject(comment) => (CA_REJECTED, Some(comment))
    case Reopen => (CA_REOPENED, None)
    case Cancel(comment) => (CA_CANCELLED, Some(comment))
  }

  /** Why a call on an action is refused, or nothing. */
  function Refusal(row: Row, c: Call): Option<Error> {
    var (kind, text) := KindOf(c.op);
    if row.status !in ALLOWED || kind !in ALLOWED[row.status] then Some(BadTransition)
    else if text.Some? && !SaysSomething(text.value) then Some(CommentRequired)
    else if c.op.Assign? && c.op.assignee !in c.activeUsers then Some(InactiveAssignee)
    else if c.op.Verify? && row.assignedTo == Some(c.actor) then Some(SelfVerification)
    else None
  }

  /** The fields a call of each kind writes. */
  predicate Stores(row: Row, row': Row, c: Call) {
    match c.op
    case Assign(assignee, due) =>
      row' == row.(status := ASSIGNED, assignedTo := Some(assignee), dueDate := if due == None then row.dueDate else due)
    case Start => row' == row.(status := IN_PROGRESS)
    case Complete(comment) =>
      row' == row.(status := PENDING_VERIFICATION, completionComment := Some(Trim(comment)), completedAt := Some(c.now))
    case Verify(comment) =>
      && row'.status == CLOSED && row'.verificationComment == Some(Trim(comment))
      && row'.verifiedBy == row'.closedBy == Some(c.actor) && row'.verifiedAt == row'.closedAt == Some(c.now)
      && row.(status := CLOSED, verificationComment := None, verifiedBy := None, verifiedAt := None, closedBy := None, closedAt := None)
         == row'.(verificationComment := None, verifiedBy := None, verifiedAt := None, closedBy := None, closedAt := None)
    case Reject(comment) => row' == row.(status := REJECTED, rejectionReason := Some(Trim(comment)), verifiedBy := Some(c.actor))
    case Reopen => row' == row.(status := REOPENED, reopenedAt := Some(c.now), closedAt := None, closedBy := None)
    case Cancel(comment) =>
      && row'.status == CANCELLED_WITH_REASON && row'.cancelReason == Some(Trim(comment))
      && row'.closedBy == Some(c.actor) && row'.closedAt == Some(c.now)
      && row.(status := CANCELLED_WITH_REASON, cancelReason := None, closedBy := None, closedAt := None)
         == row'.(cancelReason := None, closedBy := None, closedAt := None)
  }

  lemma GuardExactly(row: Row, c: Call)
    ensures Guard(row, c) == Refusal(row, c)
  {
    var text := KindOf(c.op).1;
    if text.Some? { BlankExactly(text.value); }
    hide IsBlank, SaysSomething;
    match row.status
    case OPEN =>
    case ASSIGNED =>
    case IN_PROGRESS =>
    case COMPLETED =>
    case PENDING_VERIFICATION =>
    case REJECTED =>
    case VERIFIED =>
    case CLOSED =>
    case REOPENED =>
    case OVERDUE =>
    case CANCELLED =>
    case CANCELLED_WITH_REASON =>
  }

  /** A call is accepted exactly when the action is there, its status allows it,
      its text says something, the assignee is active and nobody verifies his
      own action; it then writes its fields and one audit entry, and nothing
      else. */
  lemma CallExactly(s: Store, c: Call)
    ensures var (after, e) := Step(s, c);
            if c.id !in s.rows then (after, e) == (s, Some(NotFound))
            else if Refusal(s.rows[c.id], c).Some? then (after, e) == (s, Refusal(s.rows[c.id], c))
            else
              && e == None && after.rows.Keys == s.rows.Keys && Stores(s.rows[c.id], after.rows[c.id], c)
              && (forall id :: id in s.rows && id != c.id ==> after.rows[id] == s.rows[id])
              && after.audit == s.audit + [AuditEntry(c.actor, c.id, KindOf(c.op).0)]
  {
    if c.id in s.rows { GuardExactly(s.rows[c.id], c); }
    hide Guard, Refusal, Trim;
  }
}
