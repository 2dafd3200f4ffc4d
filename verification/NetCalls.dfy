/** How the interleaved calls of sign-in and user administration move from one
    read or write to the next (auth.service.ts, users.service.ts). */
module NetCalls {
  import opened JsText
  import opened Wrappers
  import opened Auth
  import opened AuthRaces

  /** What a call does after the step it stands at: a login that compared, a
      refresh that looked at its user, and the writes in the order of the code.
      Role changes revoke in the transaction that writes them; activations,
      deactivations and resets revoke afterwards. */
  ghost predicate Proceeds(s: State, p: Phase, next: Phase) {
    match p
    case LoginRead(u, snapshot, password) =>
      next == if password == snapshot.password && snapshot.active then LoginCleared(u, snapshot) else Finished
    case LoginCleared(_, _) => next == Finished
    case RefreshRead(t) =>
      && t < |s.tokens| && s.tokens[t].userId < |s.accounts|
      && var u := s.tokens[t].userId;
         next == if s.accounts[u].active && s.accounts[u].authVersion == s.tokens[t].authVersion
                 then RefreshLoaded(t, u, s.accounts[u]) else Rejecting(t)
    case Rejecting(_) => next == Finished
    case RefreshLoaded(t, _, _) => next == RefreshIssued(t, |s.tokens|)
    case RefreshIssued(t, _) => next == Redeemed(t)
    case PasswordRead(u, _) => next == PasswordWritten(u)
    case PasswordWritten(u) => next == PasswordRevoked(u)
    case PasswordRevoked(u) => u < |s.accounts| && next == PasswordReloaded(u, s.accounts[u])
    case PasswordReloaded(_, _) => next == Finished
    case AccountRead(op) =>
      || (op.AssignRoles? && next == Finished)
      || ((op.Activate? || op.Deactivate? || op.ResetPassword?) && next == AccountWritten(op.userId))
    case AccountWritten(_) => next == Finished
    case Redeemed(_) => false
    case Finished => false
  }

  /** What a call about to write has read is still there. */
  predicate IsReady(s: State, p: Phase) {
    && (p.LoginRead? || p.PasswordRead? || p.PasswordRevoked? ==> p.userId < |s.accounts|)
    && (p.RefreshRead? || p.Rejecting? || p.RefreshIssued? ==> p.token < |s.tokens|)
    && (p.RefreshRead? ==> s.tokens[p.token].userId < |s.accounts|)
    && (p.AccountRead? ==>
          (p.op.Activate? || p.op.Deactivate? || p.op.AssignRoles? || p.op.ResetPassword?) && p.op.userId < |s.accounts|)
  }

  /** A step moves the call it belongs to one phase on, and no other call; a
      call that is over stays over. */
  lemma AdvanceExactly(g: Net, call: nat, now: int, cfg: Config)
    requires call in g.calls && IsReady(g.state, g.calls[call])
    ensures var p, after := g.calls[call], NetStep(g, Advance(call, now), cfg);
            && after.calls.Keys == g.calls.Keys
            && (forall c :: c in g.calls && c != call ==> after.calls[c] == g.calls[c])
            && (if p.Finished? || p.Redeemed? then after == g else Proceeds(g.state, p, after.calls[call]))
  {
    hide FailedFrom, Failed, Cleared, SetAccount, WithPassword, AccountWrite, RevokeOne, RevokeAll, Replaced, Issue;
  }

  /** Only the steps that issue, replace, revoke and write reach the tables. */
  lemma ReadsWriteNothing(g: Net, o: NetOp, cfg: Config)
    requires match o
             case Begin(call, op, _) => call in g.calls || !op.Logout?
             case Advance(call, _) => call !in g.calls || g.calls[call].RefreshRead? || g.calls[call].PasswordRevoked?
    ensures NetStep(g, o, cfg).state == g.state
  {
    hide FirstPhase;
  }
}
