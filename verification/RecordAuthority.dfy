/** Every signature and every decision on a record was given by a caller who
    held the right for it. */
module RecordAuthority {
  import opened JsText
  import opened Wrappers
  import opened ChecklistEngine
  import opened ChecklistMeaning
  import opened RecordRules
  import opened InspectionRecords
  import opened InspectionProofs
  import opened InspectionTheorems
  import opened StoredAnswers
  import opened RecordCalls

  /** The approval row that an accepted call on record k leaves, if any. */
  ghost function RowOf(c: Call, k: nat): seq<Approval> {
    match c.op
    case Review(id, action, _) =>
      if id == k then [Approval(APPROVAL_KINDS[action], action in {WorkflowAction.CHECK, WorkflowAction.VERIFY}, c.user.id)] else []
    case DecideLoading(id, decision) =>
      if id == k then [Approval(LoadingApproval, decision in APPROVALS, c.user.id)] else []
    case _ => []
  }

  ghost predicate Accepted(records: seq<Record>, c: Call, defs: Definitions) {
    Step(records, c.user, c.op, defs).1.Done?
  }

  /** The rows that the accepted reviews and decisions of a run leave on record
      k, in their order. */
  ghost function Trail(calls: seq<Call>, defs: Definitions, k: nat): seq<Approval> {
    if calls == [] then []
    else
      var init, last := calls[..|calls| - 1], calls[|calls| - 1];
      Trail(init, defs, k) + (if Accepted(Run([], init, defs), last, defs) then RowOf(last, k) else [])
  }

  lemma SaveLeavesApprovals(records: seq<Record>, user: User, op: Op, defs: Definitions, k: nat)
    requires k < |records| && (op.CreateDraft? || op.SaveDraft? || op.Submit?)
    ensures k < |Step(records, user, op, defs).0| && Step(records, user, op, defs).0[k].approvals == records[k].approvals
  {
    hide PersistTo, RaiseTo, RecommendedDecision, NewRecord, ValidationOf, FlattenItems, ResolveKey, ResponsesOf, OwnerGuard;
    if op.SaveDraft? || op.Submit? { assert OwnerGuard(records, user, op.id).None? ==> op.id < |records| by { OwnerExactly(records, user, op.id); } }
  }

  lemma ApprovalStep(records: seq<Record>, c: Call, defs: Definitions, k: nat)
    requires k < |records|
    ensures var after := Step(records, c.user, c.op, defs).0;
            && k < |after|
            && after[k].approvals == records[k].approvals + (if Accepted(records, c, defs) then RowOf(c, k) else [])
  {
    match c.op
    case Review(id, action, comment) =>
      ReviewExactly(records, c.user, id, action, comment, defs);
      hide Step, MayAsk, MayReview, RefusedFor;
      var after := Step(records, c.user, c.op, defs).0;
      if id == k && Accepted(records, c, defs) {
        var a := after[k].approvals[|records[k].approvals|];
        assert a == Approval(a.kind, a.approved, a.decidedBy);
        assert after[k].approvals == records[k].approvals + [a];
      }
    case DecideLoading(id, decision) =>
      LoadingExactly(records, c.user, id, decision, defs);
      hide Step;
    case _ =>
      SaveLeavesApprovals(records, c.user, c.op, defs, k);
      hide Step;
  }

  lemma FreshHasNoRow(records: seq<Record>, c: Call, defs: Definitions, k: nat)
    requires k >= |records|
    ensures var after := Step(records, c.user, c.op, defs).0;
            (Accepted(records, c, defs) ==> RowOf(c, k) == []) && (k < |after| ==> k == |records| && after[k].approvals == [])
  {
    match c.op
    case Review(id, action, comment) =>
      ReviewExactly(records, c.user, id, action, comment, defs);
      hide Step, MayAsk, MayReview, RefusedFor, IsReview;
    case DecideLoading(id, decision) =>
      LoadingExactly(records, c.user, id, decision, defs);
      hide Step;
    case _ =>
      hide PersistTo, RaiseTo, RecommendedDecision, ValidationOf, FlattenItems, ResolveKey, ResponsesOf, OwnerGuard;
  }

  lemma {:induction false} NoRowsBefore(calls: seq<Call>, defs: Definitions, k: nat)
    requires k >= |Run([], calls, defs)|
    ensures Trail(calls, defs, k) == []
  {
    hide Step, Accepted, RowOf;
    if calls != [] {
      var init, last := calls[..|calls| - 1], calls[|calls| - 1];
      NeverFewer(Run([], init, defs), last, defs);
      NoRowsBefore(init, defs, k);
      FreshHasNoRow(Run([], init, defs), last, defs, k);
    }
  }

  lemma NeverFewer(records: seq<Record>, c: Call, defs: Definitions)
    ensures |records| <= |Step(records, c.user, c.op, defs).0|
  {
    StepAdds(records, c.user, c.op, defs);
    hide Step;
  }

  /** In every reachable state the approval rows of a record are exactly those
      of the accepted reviews and decisions about it, in their order. */
  lemma {:induction false} ApprovalsAreTheTrail(calls: seq<Call>, defs: Definitions, k: nat)
    requires k < |Run([], calls, defs)|
    ensures Run([], calls, defs)[k].approvals == Trail(calls, defs, k)
  {
    hide Step, Accepted, RowOf;
    if calls != [] {
      var init, last := calls[..|calls| - 1], calls[|calls| - 1];
      var before := Run([], init, defs);
      if k < |before| {
        ApprovalsAreTheTrail(init, defs, k);
        ApprovalStep(before, last, defs, k);
      } else {
        NoRowsBefore(init, defs, k);
        FreshHasNoRow(before, last, defs, k);
      }
    }
  }

  /** The n-th call of a run was accepted, and left this row on record k. */
  ghost predicate Gave(calls: seq<Call>, defs: Definitions, k: nat, n: nat, a: Approval) {
    && n < |calls| && Accepted(Run([], calls[..n], defs), calls[n], defs) && RowOf(calls[n], k) == [a]
  }

  lemma {:induction false} RowHasCall(calls: seq<Call>, defs: Definitions, k: nat, i: nat) returns (n: nat)
    requires i < |Trail(calls, defs, k)|
    ensures Gave(calls, defs, k, n, Trail(calls, defs, k)[i])
  {
    hide Accepted, Run;
    var init, last := calls[..|calls| - 1], calls[|calls| - 1];
    if i < |Trail(init, defs, k)| {
      n := RowHasCall(init, defs, k, i);
      assert init[..n] == calls[..n];
    } else {
      n := |calls| - 1;
    }
  }

  /** The caller held what this kind of row asks for. */
  ghost predicate HeldRight(user: User, kind: ApprovalKind) {
    match kind
    case CheckApproval => RECORDS_CHECK in user.permissions
    case VerifyApproval => RECORDS_VERIFY in user.permissions
    case ReturnApproval => RECORDS_RETURN in user.permissions
    case RejectApproval => RECORDS_REJECT in user.permissions
    case VoidApproval => RECORDS_VOID in user.permissions
    case LoadingApproval =>
      FG_SUPERVISOR in user.roles || QA_EXECUTIVE in user.roles || FOOD_SAFETY_TEAM_LEADER in user.roles
      || SYSTEM_ADMINISTRATOR in user.roles
  }

  lemma AcceptedHeldRight(records: seq<Record>, c: Call, defs: Definitions, k: nat, a: Approval)
    requires Accepted(records, c, defs) && RowOf(c, k) == [a]
    ensures HeldRight(c.user, a.kind) && c.user.id == a.decidedBy
  {
    match c.op
    case Review(id, action, comment) =>
      ReviewExactly(records, c.user, id, action, comment, defs);
      hide Step, MayReview, RefusedFor, IsReview, Says;
    case DecideLoading(id, decision) =>
      LoadingExactly(records, c.user, id, decision, defs);
      hide Step;
    case _ =>
      assert false;
  }

  /** Whoever signed, returned, rejected, voided or decided, did so in an accepted
      call and held the right for it at that call. */
  lemma EverySignatureIsAuthorized(calls: seq<Call>, defs: Definitions, k: nat, a: Approval)
    requires k < |Run([], calls, defs)| && a in Run([], calls, defs)[k].approvals
    ensures exists n: nat :: Gave(calls, defs, k, n, a) && HeldRight(calls[n].user, a.kind) && calls[n].user.id == a.decidedBy
  {
    ApprovalsAreTheTrail(calls, defs, k);
    var trail := Trail(calls, defs, k);
    hide Run, Trail;
    var i :| 0 <= i < |trail| && trail[i] == a;
    var n := RowHasCall(calls, defs, k, i);
    AcceptedHeldRight(Run([], calls[..n], defs), calls[n], defs, k, a);
    hide HeldRight;
  }

  /** Some call of the run was this review of record k, by this user and with
      this right. */
  ghost predicate WasReviewed(calls: seq<Call>, k: nat, action: ReviewAction, who: Option<nat>, right: Permission) {
    exists n :: && 0 <= n < |calls| && calls[n].op.Review? && calls[n].op.id == k && calls[n].op.action == action
                && who == Some(calls[n].user.id) && right in calls[n].user.permissions
  }

  lemma SignedByRightHolder(calls: seq<Call>, defs: Definitions, k: nat, action: ReviewAction, who: nat)
    requires action == WorkflowAction.CHECK || action == WorkflowAction.VERIFY
    requires k < |Run([], calls, defs)| && Approval(APPROVAL_KINDS[action], true, who) in Run([], calls, defs)[k].approvals
    ensures WasReviewed(calls, k, action, Some(who), REVIEW_RIGHTS[action])
  {
    var a := Approval(APPROVAL_KINDS[action], true, who);
    EverySignatureIsAuthorized(calls, defs, k, a);
    hide Run, Accepted;
    var n: nat :| Gave(calls, defs, k, n, a) && HeldRight(calls[n].user, a.kind) && calls[n].user.id == a.decidedBy;
    assert calls[n].op.Review? && calls[n].op.id == k && calls[n].op.action == action;
  }

  /** A verified record was checked by a holder of the right to check and
      verified by a holder of the right to verify. */
  lemma VerifiedByRightHolders(calls: seq<Call>, defs: Definitions, k: nat)
    requires k < |Run([], calls, defs)| && Run([], calls, defs)[k].status == VERIFIED
    ensures var r := Run([], calls, defs)[k];
            && WasReviewed(calls, k, WorkflowAction.VERIFY, r.verifiedBy, RECORDS_VERIFY)
            && WasReviewed(calls, k, WorkflowAction.CHECK, r.checkedBy, RECORDS_CHECK)
  {
    VerifiedMeansThreePeople(calls, defs, k);
    var r := Run([], calls, defs)[k];
    hide Run, WasReviewed, ApprovedCount;
    SignedByRightHolder(calls, defs, k, WorkflowAction.CHECK, r.checkedBy.value);
    SignedByRightHolder(calls, defs, k, WorkflowAction.VERIFY, r.verifiedBy.value);
  }
}
