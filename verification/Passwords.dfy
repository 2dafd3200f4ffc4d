/** Whose password signs in: what changes and resets store, over whole runs and
    over interleaved calls (auth.service.ts, users.service.ts). */
module Passwords {
  import opened JsText
  import opened Wrappers
  import opened Auth
  import opened AuthRaces
  import Username

  // ------------------------------------------------------------------ logins

  /** User u is the first whose name is the normalised one. */
  predicate IsNamed(accounts: seq<Account>, username: Str, u: nat) {
    && u < |accounts| && accounts[u].username == Some(Username.Normalize(username))
    && forall j :: 0 <= j < u ==> accounts[j].username != Some(Username.Normalize(username))
  }

  lemma {:induction false} FindsFirst(accounts: seq<Account>, name: Str, u: nat)
    requires u < |accounts| && accounts[u].username == Some(name)
    requires forall j :: 0 <= j < u ==> accounts[j].username != Some(name)
    ensures FindUser(accounts, name) == u
  {
    if u > 0 {
      assert accounts[1..][u - 1] == accounts[u];
      FindsFirst(accounts[1..], name, u - 1);
    }
  }

  lemma FindsNamed(accounts: seq<Account>, username: Str, u: nat)
    requires IsNamed(accounts, username, u)
    ensures FindUser(accounts, Username.Normalize(username)) == u
  {
    FindsFirst(accounts, Username.Normalize(username), u);
    hide Username.Normalize;
  }

  /** What a login leaves of the account it names. */
  predicate LoginLeaves(a: Account, a': Account, password: Str, now: int, cfg: Config) {
    a' ==
      if a.lockedUntil.Some? && now < a.lockedUntil.value then a
      else if password == a.password then a.(failedLoginAttempts := 0, lockedUntil := None)
      else
        a.(failedLoginAttempts := a.failedLoginAttempts + 1,
           lockedUntil := if cfg.loginMaxAttempts <= a.failedLoginAttempts + 1 then Some(now + cfg.lockoutMs) else a.lockedUntil)
  }

  /** A login signs in exactly with the stored password of an active account
      that is not locked; it opens one session with the account's stamp and
      touches nobody else. */
  lemma LoginExactly(s: State, username: Str, password: Str, now: int, cfg: Config, u: nat)
    requires IsNamed(s.accounts, username, u)
    ensures var (after, outcome) := Step(s, Call(Login(username, password), now), cfg);
            var a := s.accounts[u];
            && (outcome == SignedIn(|s.tokens|) <==>
                  password == a.password && a.active && (a.lockedUntil.Some? ==> a.lockedUntil.value <= now))
            && (outcome.SignedIn? || outcome.Refused?)
            && (outcome.Refused? ==>
                  outcome.error == (if a.lockedUntil.Some? && now < a.lockedUntil.value then AccountLocked
                                    else if password != a.password then InvalidCredentials else AccountInactive))
            && (outcome.SignedIn? ==> outcome.token == |s.tokens|)
            && after.tokens == (if outcome.SignedIn? then s.tokens + [TokenRow(u, a.authVersion, now + cfg.refreshTtlMs, false, None)]
                                else s.tokens)
            && |after.accounts| == |s.accounts| && LoginLeaves(a, after.accounts[u], password, now, cfg)
            && forall k :: 0 <= k < |s.accounts| && k != u ==> after.accounts[k] == s.accounts[k]
  {
    FindsNamed(s.accounts, username, u);
    hide Username.Normalize, FindUser;
  }

  lemma UnknownIsRefused(s: State, username: Str, password: Str, now: int, cfg: Config)
    requires forall u :: 0 <= u < |s.accounts| ==> s.accounts[u].username != Some(Username.Normalize(username))
    ensures Step(s, Call(Login(username, password), now), cfg) == (s, Refused(InvalidCredentials))
  {
    hide Username.Normalize;
  }

  // --------------------------------------------------------------- sessions

  /** Every session of u is revoked, and no other row differs. */
  predicate SessionsEnded(s: State, after: State, u: nat) {
    && |s.tokens| <= |after.tokens|
    && forall t :: 0 <= t < |s.tokens| ==>
         after.tokens[t] == if s.tokens[t].userId == u then s.tokens[t].(revoked := true) else s.tokens[t]
  }

  /** The account after a new password: no failures, no lock, the next stamp. */
  predicate NewlyKeyed(a: Account, a': Account, password: Str, mustChange: bool) {
    && a'.password == password && a'.mustChangePassword == mustChange
    && a'.failedLoginAttempts == 0 && a'.lockedUntil == None && a'.authVersion == a.authVersion + 1
    && a'.username == a.username && a'.active == a.active && a'.roles == a.roles
  }

  predicate OnlyAccount(s: State, after: State, u: nat) {
    u < |s.accounts| == |after.accounts| && forall k :: 0 <= k < |s.accounts| && k != u ==> after.accounts[k] == s.accounts[k]
  }

  /** A change is accepted exactly from an active user who knows his password
      and brings another one; it stores the new one, ends every session he had
      and opens one. */
  lemma ChangeExactly(s: State, u: nat, current: Str, replacement: Str, now: int, cfg: Config)
    ensures var (after, outcome) := Step(s, Call(ChangePassword(u, current, replacement), now), cfg);
            if u < |s.accounts| && s.accounts[u].active && current == s.accounts[u].password && replacement != current then
              && outcome == SignedIn(|s.tokens|) && OnlyAccount(s, after, u)
              && NewlyKeyed(s.accounts[u], after.accounts[u], replacement, false)
              && SessionsEnded(s, after, u)
              && after.tokens[|s.tokens|..] == [TokenRow(u, s.accounts[u].authVersion + 1, now + cfg.refreshTtlMs, false, None)]
            else
              && after == s
              && outcome == Refused(if u >= |s.accounts| then NotAuthenticated else if !s.accounts[u].active then AccountInactive
                                    else if current != s.accounts[u].password then InvalidCurrentPassword else PasswordReuse)
  {
  }

  /** A reset stores the temporary password, asks for a new one at the next
      sign-in and ends every session. */
  lemma ResetExactly(s: State, u: nat, temporary: Str, now: int, cfg: Config)
    ensures var (after, outcome) := Step(s, Call(ResetPassword(u, temporary), now), cfg);
            if u < |s.accounts| then
              && outcome == Done && OnlyAccount(s, after, u) && NewlyKeyed(s.accounts[u], after.accounts[u], temporary, true)
              && SessionsEnded(s, after, u) && |after.tokens| == |s.tokens|
            else (after, outcome) == (s, Refused(UserNotFound))
  {
  }

  lemma NameStays(s: State, after: State, username: Str, u: nat, w: nat)
    requires OnlyAccount(s, after, w) && after.accounts[w].username == s.accounts[w].username
    ensures IsNamed(after.accounts, username, u) <==> IsNamed(s.accounts, username, u)
  {
    assert forall k :: 0 <= k < |s.accounts| ==> after.accounts[k].username == s.accounts[k].username;
    hide Username.Normalize;
  }

  /** After an accepted change the new password signs in and the former one is
      refused, at any later time. */
  lemma ChangedPasswordSignsIn(s: State, u: nat, current: Str, replacement: Str, now: int, cfg: Config, username: Str, later: int)
    requires IsNamed(s.accounts, username, u)
    requires Step(s, Call(ChangePassword(u, current, replacement), now), cfg).1.SignedIn?
    ensures var after := Step(s, Call(ChangePassword(u, current, replacement), now), cfg).0;
            && Step(after, Call(Login(username, replacement), later), cfg).1.SignedIn?
            && Step(after, Call(Login(username, s.accounts[u].password), later), cfg).1 == Refused(InvalidCredentials)
  {
    ChangeExactly(s, u, current, replacement, now, cfg);
    var after := Step(s, Call(ChangePassword(u, current, replacement), now), cfg).0;
    hide Step;
    NameStays(s, after, username, u, u);
    LoginExactly(after, username, replacement, later, cfg, u);
    LoginExactly(after, username, s.accounts[u].password, later, cfg, u);
    hide IsNamed;
  }

  /** After a reset the temporary password signs in on an active account, with
      the demand to change it, and any other one is refused. */
  lemma TemporaryPasswordSignsIn(s: State, u: nat, temporary: Str, now: int, cfg: Config, username: Str, other: Str, later: int)
    requires IsNamed(s.accounts, username, u) && s.accounts[u].active && other != temporary
    ensures var after := Step(s, Call(ResetPassword(u, temporary), now), cfg).0;
            && u < |after.accounts| && after.accounts[u].mustChangePassword
            && Step(after, Call(Login(username, temporary), later), cfg).1.SignedIn?
            && Step(after, Call(Login(username, other), later), cfg).1 == Refused(InvalidCredentials)
  {
    ResetExactly(s, u, temporary, now, cfg);
    var after := Step(s, Call(ResetPassword(u, temporary), now), cfg).0;
    hide Step;
    NameStays(s, after, username, u, u);
    LoginExactly(after, username, temporary, later, cfg, u);
    LoginExactly(after, username, other, later, cfg, u);
    hide IsNamed;
  }

  // -------------------------------------------------------------------- runs

  /** The password an accepted call gives u, if it gives him one. */
  function Gives(c: Call, outcome: Outcome, u: nat): Option<Str> {
    match c.op
    case ChangePassword(w, _, replacement) => if w == u && outcome.SignedIn? then Some(replacement) else None
    case ResetPassword(w, temporary) => if w == u && outcome == Done then Some(temporary) else None
    case _ => None
  }

  /** The password last given to u in a run, or the one he started with. */
  function LastGiven(s: State, calls: seq<Call>, cfg: Config, u: nat): Str
    requires u < |s.accounts|
  {
    if calls == [] then s.accounts[u].password
    else
      var init, last := calls[..|calls| - 1], calls[|calls| - 1];
      match Gives(last, Step(Run(s, init, cfg), last, cfg).1, u)
      case Some(password) => password
      case None => LastGiven(s, init, cfg, u)
  }

  lemma PasswordStep(s: State, c: Call, cfg: Config, u: nat)
    requires u < |s.accounts|
    ensures var (after, outcome) := Step(s, c, cfg);
            && |after.accounts| == |s.accounts| && after.accounts[u].username == s.accounts[u].username
            && after.accounts[u].password ==
                 match Gives(c, outcome, u) case Some(password) => password case None => s.accounts[u].password
  {
    match c.op
    case ChangePassword(w, current, replacement) =>
      ChangeExactly(s, w, current, replacement, c.now, cfg);
      hide Step;
    case ResetPassword(w, temporary) =>
      ResetExactly(s, w, temporary, c.now, cfg);
      hide Step;
    case _ =>
      hide FindUser, Username.Normalize, OtherActiveAdmin, ActiveAdmin, Unusable;
  }

  /** In every run a user's password is the one last given to him, by his own
      accepted change or by a reset. */
  lemma {:induction false} PasswordIsLastGiven(s: State, calls: seq<Call>, cfg: Config, u: nat)
    requires u < |s.accounts|
    ensures var after := Run(s, calls, cfg).accounts;
            |after| == |s.accounts| && after[u].username == s.accounts[u].username && after[u].password == LastGiven(s, calls, cfg, u)
  {
    hide Step, Gives;
    if calls != [] {
      PasswordIsLastGiven(s, calls[..|calls| - 1], cfg, u);
      PasswordStep(Run(s, calls[..|calls| - 1], cfg), calls[|calls| - 1], cfg, u);
    }
  }

  lemma {:induction false} NamesStay(s: State, calls: seq<Call>, cfg: Config, username: Str, u: nat)
    requires IsNamed(s.accounts, username, u)
    ensures IsNamed(Run(s, calls, cfg).accounts, username, u)
  {
    forall k | 0 <= k < |s.accounts|
      ensures |Run(s, calls, cfg).accounts| == |s.accounts| && Run(s, calls, cfg).accounts[k].username == s.accounts[k].username
    {
      PasswordIsLastGiven(s, calls, cfg, k);
    }
    hide Run, Username.Normalize;
  }

  /** After any run a login signs in exactly with the password last given, on an
      active account that is not locked. */
  lemma LastPasswordSignsIn(s: State, calls: seq<Call>, cfg: Config, username: Str, password: Str, now: int, u: nat)
    requires IsNamed(s.accounts, username, u)
    ensures var after := Run(s, calls, cfg);
            && u < |after.accounts|
            && (Step(after, Call(Login(username, password), now), cfg).1.SignedIn? <==>
                  && password == LastGiven(s, calls, cfg, u) && after.accounts[u].active
                  && (after.accounts[u].lockedUntil.Some? ==> after.accounts[u].lockedUntil.value <= now))
  {
    PasswordIsLastGiven(s, calls, cfg, u);
    NamesStay(s, calls, cfg, username, u);
    LoginExactly(Run(s, calls, cfg), username, password, now, cfg, u);
    hide Step, Run, LastGiven, IsNamed;
  }

  // ------------------------------------------------------ interleaved calls

  /** The password the step writes for u, if it writes one. */
  function Writes(g: Net, o: NetOp, u: nat): Option<Str> {
    if !o.Advance? || o.call !in g.calls || u >= |g.state.accounts| then None
    else
      match g.calls[o.call]
      case PasswordRead(w, replacement) => if w == u then Some(replacement) else None
      case AccountRead(op) => if op.ResetPassword? && op.userId == u then Some(op.temporary) else None
      case _ => None
  }

  function LastWritten(g: Net, ops: seq<NetOp>, cfg: Config, u: nat): Str
    requires u < |g.state.accounts|
  {
    if ops == [] then g.state.accounts[u].password
    else
      var init, last := ops[..|ops| - 1], ops[|ops| - 1];
      match Writes(NetRun(g, init, cfg), last, u)
      case Some(password) => password
      case None => LastWritten(g, init, cfg, u)
  }

  lemma WriteStep(g: Net, o: NetOp, cfg: Config, u: nat)
    requires u < |g.state.accounts|
    ensures var after := NetStep(g, o, cfg).state.accounts;
            && |after| == |g.state.accounts|
            && after[u].password == (match Writes(g, o, u) case Some(password) => password case None => g.state.accounts[u].password)
            && (Writes(g, o, u).Some? ==>
                  && after[u].mustChangePassword == g.calls[o.call].AccountRead?
                  && after[u].failedLoginAttempts == 0 && after[u].lockedUntil == None
                  && after[u].authVersion == g.state.accounts[u].authVersion + 1)
  {
    hide FirstPhase;
  }

  /** However calls interleave, a user's password is the one whose change or
      reset was written last. */
  lemma {:induction false} PasswordIsLastWritten(g: Net, ops: seq<NetOp>, cfg: Config, u: nat)
    requires u < |g.state.accounts|
    ensures var after := NetRun(g, ops, cfg).state.accounts;
            |after| == |g.state.accounts| && after[u].password == LastWritten(g, ops, cfg, u)
  {
    hide NetStep, Writes;
    if ops != [] {
      PasswordIsLastWritten(g, ops[..|ops| - 1], cfg, u);
      WriteStep(NetRun(g, ops[..|ops| - 1], cfg), ops[|ops| - 1], cfg, u);
    }
  }

  /** A write is on its way only for a call whose caller knew the password it
      read, or for a reset. */
  lemma BegunChangeKnows(g: Net, call: nat, op: Op, now: int, u: nat, replacement: Str)
    requires call !in g.calls && BeginStep(g, call, op, now).calls[call] == PasswordRead(u, replacement)
    ensures op.ChangePassword? && op.userId == u && op.replacement == replacement && u < |g.state.accounts|
    ensures op.current == g.state.accounts[u].password && g.state.accounts[u].active && replacement != op.current
  {
    hide FindUser, Username.Normalize, OtherActiveAdmin, ActiveAdmin, Unusable;
  }
}
