/** Sessions and accounts: what each call of the authentication and user
    services does to the account and refresh-token tables (auth.service.ts,
    users.service.ts, jwt-auth.guard.ts). */
module Auth {
  import opened JsText
  import opened Wrappers
  import Username
  import IR = InspectionRecords

  /** Passwords stand for their hashes: comparing is equality. */
  datatype Account = Account(
    username: Option<Str>,
    password: Str,
    active: bool,
    roles: set<IR.Role>,
    mustChangePassword: bool,
    authVersion: nat,
    failedLoginAttempts: nat,
    lockedUntil: Option<int>)

  /** One issue: an access token and a refresh token that carry the same user
      and stamp, and the row of the refresh token.  Tokens are named by the
      position of that row. */
  datatype TokenRow = TokenRow(userId: nat, authVersion: nat, expiresAt: int, revoked: bool, replacedBy: Option<nat>)

  datatype State = State(accounts: seq<Account>, tokens: seq<TokenRow>)

  datatype Config = Config(loginMaxAttempts: int, lockoutMs: nat, refreshTtlMs: nat)

  datatype Op =
    | Login(username: Str, password: Str)
    | Refresh(token: Option<nat>)
    | Logout(token: Option<nat>)
    | ChangePassword(userId: nat, current: Str, replacement: Str)
    | Activate(userId: nat)
    | Deactivate(userId: nat)
    | AssignRoles(userId: nat, roles: set<IR.Role>)
    | ResetPassword(userId: nat, temporary: Str)

  datatype Error =
    | InvalidCredentials | AccountLocked | AccountInactive | SessionExpired | NotAuthenticated
    | InvalidCurrentPassword | PasswordReuse | UserNotFound | LastActiveAdmin

  datatype Outcome = SignedIn(token: nat) | Done | Refused(error: Error)

  // ---------------------------------------------------------- table updates

  function FindUser(accounts: seq<Account>, username: Str): (k: nat)
    ensures k <= |accounts|
    ensures k < |accounts| ==> accounts[k].username == Some(username)
    ensures k == |accounts| ==> forall i :: 0 <= i < |accounts| ==> accounts[i].username != Some(username)
  {
    if accounts == [] then 0 else if accounts[0].username == Some(username) then 0 else 1 + FindUser(accounts[1..], username)
  }

  function SetAccount(s: State, u: nat, a: Account): State
    requires u < |s.accounts|
  {
    s.(accounts := s.accounts[u := a])
  }

  function RevokeOne(s: State, t: nat): State
    requires t < |s.tokens|
  {
    s.(tokens := s.tokens[t := s.tokens[t].(revoked := true)])
  }

  function RevokedRow(row: TokenRow, u: nat): TokenRow {
    if row.userId == u then row.(revoked := true) else row
  }

  function RevokeAll(s: State, u: nat): State {
    s.(tokens := seq(|s.tokens|, t requires 0 <= t < |s.tokens| => RevokedRow(s.tokens[t], u)))
  }

  /** A fresh pair of tokens for a user as some call has read him. */
  function Issue(s: State, u: nat, snapshot: Account, now: int, cfg: Config): State {
    s.(tokens := s.tokens + [TokenRow(u, snapshot.authVersion, now + cfg.refreshTtlMs, false, None)])
  }

  function Cleared(a: Account): Account {
    a.(failedLoginAttempts := 0, lockedUntil := None)
  }

  function Bumped(a: Account): Account {
    a.(authVersion := a.authVersion + 1)
  }

  // ------------------------------------------------------------------ login

  predicate Locked(a: Account, now: int) {
    a.lockedUntil.Some? && a.lockedUntil.value > now
  }

  /** The account after a wrong password, from the copy the call had read. */
  function Failed(a: Account, now: int, cfg: Config): Account {
    var attempts := a.failedLoginAttempts + 1;
    a.(failedLoginAttempts := attempts,
       lockedUntil := if attempts >= cfg.loginMaxAttempts then Some(now + cfg.lockoutMs) else a.lockedUntil)
  }

  function LoginStep(s: State, username: Str, password: Str, now: int, cfg: Config): (State, Outcome) {
    var u := FindUser(s.accounts, Username.Normalize(username));
    if u == |s.accounts| then (s, Refused(InvalidCredentials))
    else
      var a := s.accounts[u];
      if Locked(a, now) then (s, Refused(AccountLocked))
      else if password != a.password then (SetAccount(s, u, Failed(a, now, cfg)), Refused(InvalidCredentials))
      else
        var cleared := SetAccount(s, u, Cleared(a));
        if !a.active then (cleared, Refused(AccountInactive))
        else (Issue(cleared, u, a, now, cfg), SignedIn(|s.tokens|))
  }

  // ---------------------------------------------------------------- refresh

  predicate Unusable(s: State, token: Option<nat>, now: int) {
    token.None? || token.value >= |s.tokens| || s.tokens[token.value].revoked || s.tokens[token.value].expiresAt < now
    || s.tokens[token.value].userId >= |s.accounts|
  }

  function Replaced(s: State, t: nat, successor: nat): State
    requires t < |s.tokens|
  {
    s.(tokens := s.tokens[t := s.tokens[t].(revoked := true, replacedBy := Some(successor))])
  }

  function RefreshStep(s: State, token: Option<nat>, now: int, cfg: Config): (State, Outcome) {
    if Unusable(s, token, now) then (s, Refused(SessionExpired))
    else
      var t := token.value;
      var u := s.tokens[t].userId;
      var a := s.accounts[u];
      if !a.active then (RevokeOne(s, t), Refused(AccountInactive))
      else if s.tokens[t].authVersion != a.authVersion then (RevokeOne(s, t), Refused(SessionExpired))
      else (Replaced(Issue(s, u, a, now, cfg), t, |s.tokens|), SignedIn(|s.tokens|))
  }

  function LogoutStep(s: State, token: Option<nat>): (State, Outcome) {
    if token.None? || token.value >= |s.tokens| || s.tokens[token.value].revoked then (s, Done)
    else (RevokeOne(s, token.value), Done)
  }

  // -------------------------------------------------------- password, accounts

  function PasswordGuard(s: State, u: nat, current: Str, replacement: Str): Option<Error> {
    if u >= |s.accounts| then Some(NotAuthenticated)
    else if !s.accounts[u].active then Some(AccountInactive)
    else if current != s.accounts[u].password then Some(InvalidCurrentPassword)
    else if replacement == s.accounts[u].password then Some(PasswordReuse)
    else None
  }

  function WithPassword(a: Account, password: Str, mustChange: bool): Account {
    Bumped(Cleared(a)).(password := password, mustChangePassword := mustChange)
  }

  function ChangeStep(s: State, u: nat, current: Str, replacement: Str, now: int, cfg: Config): (State, Outcome) {
    match PasswordGuard(s, u, current, replacement)
    case Some(e) => (s, Refused(e))
    case None =>
      var changed := WithPassword(s.accounts[u], replacement, false);
      (Issue(RevokeAll(SetAccount(s, u, changed), u), u, changed, now, cfg), SignedIn(|s.tokens|))
  }

  predicate ActiveAdmin(a: Account) {
    a.active && IR.SYSTEM_ADMINISTRATOR in a.roles
  }

  predicate OtherActiveAdmin(accounts: seq<Account>, u: nat) {
    exists k :: 0 <= k < |accounts| && k != u && ActiveAdmin(accounts[k])
  }

  function AccountStep(s: State, op: Op): (State, Outcome)
    requires op.Activate? || op.Deactivate? || op.AssignRoles? || op.ResetPassword?
  {
    var u := op.userId;
    if u >= |s.accounts| then (s, Refused(UserNotFound))
    else
      var a := s.accounts[u];
      match op
      case Activate(_) => (RevokeAll(SetAccount(s, u, Bumped(a.(active := true))), u), Done)
      case Deactivate(_) =>
        if ActiveAdmin(a) && !OtherActiveAdmin(s.accounts, u) then (s, Refused(LastActiveAdmin))
        else (RevokeAll(SetAccount(s, u, Bumped(a.(active := false))), u), Done)
      case AssignRoles(_, roles) =>
        if ActiveAdmin(a) && IR.SYSTEM_ADMINISTRATOR !in roles && !OtherActiveAdmin(s.accounts, u) then (s, Refused(LastActiveAdmin))
        else (RevokeAll(SetAccount(s, u, Bumped(a.(roles := roles))), u), Done)
      case ResetPassword(_, temporary) => (RevokeAll(SetAccount(s, u, WithPassword(a, temporary, true)), u), Done)
  }

  // ------------------------------------------------------------------- runs

  datatype Call = Call(op: Op, now: int)

  function Step(s: State, c: Call, cfg: Config): (State, Outcome) {
    match c.op
    case Login(username, password) => LoginStep(s, username, password, c.now, cfg)
    case Refresh(token) => RefreshStep(s, token, c.now, cfg)
    case Logout(token) => LogoutStep(s, token)
    case ChangePassword(u, current, replacement) => ChangeStep(s, u, current, replacement, c.now, cfg)
    case _ => AccountStep(s, c.op)
  }

  function Run(s: State, calls: seq<Call>, cfg: Config): State {
    if calls == [] then s else Step(Run(s, calls[..|calls| - 1], cfg), calls[|calls| - 1], cfg).0
  }

  /** The guard in front of every request: the access token of an issue. */
  predicate GuardAccepts(s: State, token: nat) {
    && token < |s.tokens| && s.tokens[token].userId < |s.accounts|
    && s.accounts[s.tokens[token].userId].active
    && s.tokens[token].authVersion == s.accounts[s.tokens[token].userId].authVersion
  }

  /** Whether a refresh with this token would sign in. */
  predicate RefreshAccepts(s: State, token: nat, now: int) {
    !Unusable(s, Some(token), now) && GuardAccepts(s, token)
  }

  /** Before anybody has signed in. */
  predicate Initial(s: State) {
    s.tokens == []
  }
}
