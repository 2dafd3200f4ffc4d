/** Sign-ins, refreshes, password changes and account changes that interleave:
    every database read and write of a call is a step of its own
    (auth.service.ts, users.service.ts). */
module AuthRaces {
  import opened JsText
  import opened Wrappers
  import opened Auth
  import Username

  /** Where a call stands, and the copy of the user it still holds. */
  datatype Phase =
    | LoginRead(userId: nat, snapshot: Account, password: Str)
    | LoginCleared(userId: nat, snapshot: Account)
    | RefreshRead(token: nat)
    | Rejecting(token: nat)
    | RefreshLoaded(token: nat, userId: nat, snapshot: Account)
    | RefreshIssued(token: nat, successor: nat)
    | Redeemed(token: nat)
    | PasswordRead(userId: nat, replacement: Str)
    | PasswordWritten(userId: nat)
    | PasswordRevoked(userId: nat)
    | PasswordReloaded(userId: nat, snapshot: Account)
    | AccountRead(op: Op)
    | AccountWritten(userId: nat)
    | Finished

  /** The tables, the call that issued each token, and the calls so far. */
  datatype Net = Net(state: State, issuers: seq<nat>, calls: map<nat, Phase>)

  datatype NetOp = Begin(call: nat, op: Op, now: int) | Advance(call: nat, now: int)

  /** A call about to issue tokens for the user it has read. */
  predicate HasSnapshot(p: Phase) {
    p.LoginRead? || p.LoginCleared? || p.RefreshLoaded? || p.PasswordReloaded?
  }

  // ------------------------------------------------------------------ steps

  /** The first read of a call, with the checks made on what was read. */
  function FirstPhase(s: State, op: Op, now: int): Phase {
    match op
    case Login(username, password) =>
      var u := FindUser(s.accounts, Username.Normalize(username));
      if u == |s.accounts| || Locked(s.accounts[u], now) then Finished else LoginRead(u, s.accounts[u], password)
    case Refresh(token) => if Unusable(s, token, now) then Finished else RefreshRead(token.value)
    case ChangePassword(u, current, replacement) =>
      if PasswordGuard(s, u, current, replacement).Some? then Finished else PasswordRead(u, replacement)
    case Logout(_) => Finished
    case _ => if AccountStep(s, op).1.Done? then AccountRead(op) else Finished
  }

  function BeginStep(g: Net, call: nat, op: Op, now: int): Net {
    if call in g.calls then g
    else
      Net(if op.Logout? then LogoutStep(g.state, op.token).0 else g.state,
          g.issuers,
          g.calls[call := FirstPhase(g.state, op, now)])
  }

  function IssueBy(g: Net, call: nat, u: nat, snapshot: Account, now: int, cfg: Config, next: Phase): Net {
    Net(Issue(g.state, u, snapshot, now, cfg), g.issuers + [call], g.calls[call := next])
  }

  /** What a failed comparison writes: counters computed from the copy. */
  function FailedFrom(a: Account, snapshot: Account, now: int, cfg: Config): Account {
    var f := Failed(snapshot, now, cfg);
    a.(failedLoginAttempts := f.failedLoginAttempts, lockedUntil := f.lockedUntil)
  }

  function AccountWrite(a: Account, op: Op): Account
    requires op.Activate? || op.Deactivate? || op.AssignRoles? || op.ResetPassword?
  {
    match op
    case Activate(_) => Bumped(a.(active := true))
    case Deactivate(_) => Bumped(a.(active := false))
    case AssignRoles(_, roles) => Bumped(a.(roles := roles))
    case ResetPassword(_, temporary) => WithPassword(a, temporary, true)
  }

  function AdvanceStep(g: Net, call: nat, now: int, cfg: Config): Net {
    if call !in g.calls then g
    else
      var s := g.state;
      match g.calls[call]
      case LoginRead(u, snapshot, password) =>
        if u >= |s.accounts| then g
        else if password != snapshot.password then
          g.(state := SetAccount(s, u, FailedFrom(s.accounts[u], snapshot, now, cfg)), calls := g.calls[call := Finished])
        else
          g.(state := SetAccount(s, u, Cleared(s.accounts[u])),
             calls := g.calls[call := if snapshot.active then LoginCleared(u, snapshot) else Finished])
      case LoginCleared(u, snapshot) => IssueBy(g, call, u, snapshot, now, cfg, Finished)
      case RefreshRead(t) =>
        if t >= |s.tokens| || s.tokens[t].userId >= |s.accounts| then g
        else
          var u := s.tokens[t].userId;
          var a := s.accounts[u];
          var next := if a.active && s.tokens[t].authVersion == a.authVersion then RefreshLoaded(t, u, a) else Rejecting(t);
          g.(calls := g.calls[call := next])
      case Rejecting(t) =>
        if t >= |s.tokens| then g else g.(state := RevokeOne(s, t), calls := g.calls[call := Finished])
      case RefreshLoaded(t, u, snapshot) => IssueBy(g, call, u, snapshot, now, cfg, RefreshIssued(t, |s.tokens|))
      case RefreshIssued(t, n) =>
        if t >= |s.tokens| then g else g.(state := Replaced(s, t, n), calls := g.calls[call := Redeemed(t)])
      case PasswordRead(u, replacement) =>
        if u >= |s.accounts| then g
        else
          g.(state := SetAccount(s, u, WithPassword(s.accounts[u], replacement, false)),
             calls := g.calls[call := PasswordWritten(u)])
      case PasswordWritten(u) => g.(state := RevokeAll(s, u), calls := g.calls[call := PasswordRevoked(u)])
      case PasswordRevoked(u) =>
        if u >= |s.accounts| then g else g.(calls := g.calls[call := PasswordReloaded(u, s.accounts[u])])
      case PasswordReloaded(u, snapshot) => IssueBy(g, call, u, snapshot, now, cfg, Finished)
      case AccountRead(op) =>
        if !(op.Activate? || op.Deactivate? || op.AssignRoles? || op.ResetPassword?) || op.userId >= |s.accounts| then g
        else
          var written := SetAccount(s, op.userId, AccountWrite(s.accounts[op.userId], op));
          if op.AssignRoles? then g.(state := RevokeAll(written, op.userId), calls := g.calls[call := Finished])
          else g.(state := written, calls := g.calls[call := AccountWritten(op.userId)])
      case AccountWritten(u) => g.(state := RevokeAll(s, u), calls := g.calls[call := Finished])
      case Redeemed(_) => g
      case Finished => g
  }

  function NetStep(g: Net, o: NetOp, cfg: Config): Net {
    match o
    case Begin(call, op, now) => BeginStep(g, call, op, now)
    case Advance(call, now) => AdvanceStep(g, call, now, cfg)
  }

  function NetRun(g: Net, ops: seq<NetOp>, cfg: Config): Net {
    if ops == [] then g else NetStep(NetRun(g, ops[..|ops| - 1], cfg), ops[|ops| - 1], cfg)
  }

  function Quiet(accounts: seq<Account>): Net {
    Net(State(accounts, []), [], map[])
  }

  // --------------------------------------------------------------- invariant

  /** Phases behind a call's issue. */
  predicate PastIssue(p: Phase) {
    p.RefreshIssued? || p.Redeemed? || p.Finished?
  }

  /** What a phase may rely on. */
  predicate PhaseSound(s: State, issuers: seq<nat>, c: nat, p: Phase) {
    && (HasSnapshot(p) ==> p.userId < |s.accounts| && p.snapshot.authVersion <= s.accounts[p.userId].authVersion)
    && (p.RefreshRead? || p.Rejecting? || p.RefreshLoaded? ==> p.token < |s.tokens|)
    && (p.RefreshLoaded? ==> s.tokens[p.token].userId == p.userId)
    && (p.RefreshIssued? ==>
          && p.token < p.successor < |s.tokens| == |issuers| && issuers[p.successor] == c
          && s.tokens[p.token].userId == s.tokens[p.successor].userId)
  }

  /** Every token was issued by one call and every call issued at most one;
      links go forward, stay with the user, and tell whose successor a token is. */
  predicate RowsSound(s: State, issuers: seq<nat>, calls: map<nat, Phase>) {
    && |issuers| == |s.tokens|
    && (forall t :: 0 <= t < |s.tokens| ==>
          && s.tokens[t].userId < |s.accounts|
          && s.tokens[t].authVersion <= s.accounts[s.tokens[t].userId].authVersion
          && issuers[t] in calls && PastIssue(calls[issuers[t]]))
    && (forall t, r :: 0 <= t < r < |issuers| ==> issuers[t] != issuers[r])
    && (forall t :: 0 <= t < |s.tokens| && s.tokens[t].replacedBy.Some? ==>
          var n := s.tokens[t].replacedBy.value;
          && t < n < |s.tokens| && s.tokens[n].userId == s.tokens[t].userId
          && s.tokens[t].revoked && calls[issuers[n]] == Redeemed(t))
  }

  ghost predicate NetSound(g: Net) {
    && (forall c :: c in g.calls ==> PhaseSound(g.state, g.issuers, c, g.calls[c]))
    && RowsSound(g.state, g.issuers, g.calls)
  }
}
