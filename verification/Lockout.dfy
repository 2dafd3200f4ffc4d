/** How many wrong passwords get compared before and between lockouts
    (auth.service.ts, login and recordFailedAttempt). */
module Lockout {
  import opened JsText
  import opened Wrappers
  import opened Auth
  import Username

  /** The user a login names. */
  function Target(s: State, username: Str): nat {
    FindUser(s.accounts, Username.Normalize(username))
  }

  /** A login that gets as far as comparing a wrong password of user u. */
  predicate ComparesWrong(s: State, c: Call, u: nat) {
    && c.op.Login? && u < |s.accounts| && Target(s, c.op.username) == u
    && !Locked(s.accounts[u], c.now) && c.op.password != s.accounts[u].password
  }

  /** A call that does not clear u's counter: no right password, no reset and
      no password change of u. */
  predicate LeavesCounter(s: State, c: Call, u: nat) {
    match c.op
    case Login(username, password) =>
      Target(s, username) == u < |s.accounts| ==> Locked(s.accounts[u], c.now) || password != s.accounts[u].password
    case ChangePassword(w, current, replacement) => w == u ==> PasswordGuard(s, w, current, replacement).Some?
    case ResetPassword(w, _) => w != u
    case _ => true
  }

  ghost predicate QuietRun(s: State, calls: seq<Call>, cfg: Config, u: nat) {
    forall n :: 0 <= n < |calls| ==> LeavesCounter(Run(s, calls[..n], cfg), calls[n], u)
  }

  /** Wrong passwords of u compared in a run. */
  function Compared(s: State, calls: seq<Call>, cfg: Config, u: nat): nat {
    if calls == [] then 0
    else
      Compared(s, calls[..|calls| - 1], cfg, u)
      + (if ComparesWrong(Run(s, calls[..|calls| - 1], cfg), calls[|calls| - 1], u) then 1 else 0)
  }

  /** Calls in the order of the clock, from `start` on. */
  predicate Clocked(calls: seq<Call>, start: int) {
    (forall i :: 0 <= i < |calls| ==> start <= calls[i].now) && forall i, j :: 0 <= i < j < |calls| ==> calls[i].now <= calls[j].now
  }

  /** Attempts that are free: the configured number, but at least one. */
  function Free(cfg: Config): (m: nat)
    ensures m >= 1
  {
    if cfg.loginMaxAttempts <= 1 then 1 else cfg.loginMaxAttempts
  }

  /** The least time before the k-th comparison: one lockout for each that is
      not free. */
  function Elapsed(cfg: Config, k: nat): int {
    if k > Free(cfg) then (k - Free(cfg)) * cfg.lockoutMs else 0
  }

  lemma ElapsedNext(cfg: Config, k: nat)
    ensures Elapsed(cfg, k + 1) == Elapsed(cfg, k) + (if k >= Free(cfg) then cfg.lockoutMs else 0)
    ensures Elapsed(cfg, k) >= 0 && (k <= Free(cfg) ==> Elapsed(cfg, k) == 0)
  {
    if k >= Free(cfg) {
      var n := k - Free(cfg);
      assert (n + 1) * cfg.lockoutMs == n * cfg.lockoutMs + cfg.lockoutMs;
    }
  }

  /** What one call does to the counter and the lock of u. */
  lemma CounterStep(s: State, c: Call, cfg: Config, u: nat)
    requires u < |s.accounts| && LeavesCounter(s, c, u)
    ensures var after := Step(s, c, cfg).0;
            && |after.accounts| == |s.accounts|
            && after.accounts[u].failedLoginAttempts
               == s.accounts[u].failedLoginAttempts + (if ComparesWrong(s, c, u) then 1 else 0)
            && after.accounts[u].lockedUntil
               == (if ComparesWrong(s, c, u) && s.accounts[u].failedLoginAttempts + 1 >= cfg.loginMaxAttempts
                   then Some(c.now + cfg.lockoutMs) else s.accounts[u].lockedUntil)
  {
    hide FindUser, Username.Normalize, OtherActiveAdmin, ActiveAdmin, Unusable;
    match c.op
    case Login(_, _) =>
    case Refresh(_) =>
    case Logout(_) =>
    case ChangePassword(_, _, _) =>
    case Activate(_) =>
    case Deactivate(_) =>
    case AssignRoles(_, _) =>
    case ResetPassword(_, _) =>
  }

  lemma NotLocked(s: State, c: Call, u: nat)
    requires ComparesWrong(s, c, u)
    ensures u < |s.accounts| && (s.accounts[u].lockedUntil.Some? ==> c.now >= s.accounts[u].lockedUntil.value)
  {
    hide Target;
  }

  lemma QuietSnoc(s: State, before: seq<Call>, c: Call, cfg: Config, u: nat)
    ensures QuietRun(s, before + [c], cfg, u) <==> QuietRun(s, before, cfg, u) && LeavesCounter(Run(s, before, cfg), c, u)
  {
    hide Run, LeavesCounter;
    var calls := before + [c];
    assert forall n :: 0 <= n < |before| ==> calls[..n] == before[..n] && calls[n] == before[n];
    assert calls[..|before|] == before && calls[|before|] == c;
  }

  /** After k comparisons the counter is k and at least the time of k has
      passed; past the free ones the lock holds until the time of the next. */
  lemma {:induction false} CounterRun(s: State, calls: seq<Call>, cfg: Config, u: nat, start: int)
    requires u < |s.accounts| && s.accounts[u].failedLoginAttempts == 0
    requires QuietRun(s, calls, cfg, u) && Clocked(calls, start)
    ensures var after, k := Run(s, calls, cfg), Compared(s, calls, cfg, u);
            && |after.accounts| == |s.accounts|
            && after.accounts[u].failedLoginAttempts == k
            && (k >= Free(cfg) ==>
                  after.accounts[u].lockedUntil.Some? && after.accounts[u].lockedUntil.value >= start + Elapsed(cfg, k + 1))
            && (k > Free(cfg) ==> calls != [] && calls[|calls| - 1].now >= start + Elapsed(cfg, k))
  {
    hide Step, LeavesCounter, ComparesWrong, QuietRun, Elapsed;
    if calls != [] {
      var before, c := calls[..|calls| - 1], calls[|calls| - 1];
      assert calls == before + [c];
      QuietSnoc(s, before, c, cfg, u);
      CounterRun(s, before, cfg, u, start);
      var at, k := Run(s, before, cfg), Compared(s, before, cfg, u);
      CounterStep(at, c, cfg, u);
      if ComparesWrong(at, c, u) {
        NotLocked(at, c, u);
        ElapsedNext(cfg, k);
        ElapsedNext(cfg, k + 1);
      }
    }
  }

  lemma Times(a: int, b: int, w: nat)
    requires a <= b
    ensures a * w <= b * w
  {
  }

  lemma ElapsedWithin(cfg: Config, k: nat, span: nat)
    requires cfg.lockoutMs > 0
    ensures Elapsed(cfg, k) <= span <==> k <= Free(cfg) + span / cfg.lockoutMs
  {
    var w, n := cfg.lockoutMs, k - Free(cfg);
    var q := span / w;
    assert q * w <= span < (q + 1) * w by { DivisionBounds(span, w); }
    if n > q { Times(q + 1, n, w); } else if n > 0 { Times(n, q, w); }
  }

  lemma DivisionBounds(t: nat, w: nat)
    requires w > 0
    ensures (t / w) * w <= t < (t / w + 1) * w
  {
    assert t == w * (t / w) + t % w;
  }

  /** Within a time span of T at most max(M, 1) + T / W wrong passwords of a
      user are compared, for M attempts and a lockout of W. */
  lemma WrongPasswordsAreBounded(s: State, calls: seq<Call>, cfg: Config, u: nat, start: int, span: nat)
    requires u < |s.accounts| && s.accounts[u].failedLoginAttempts == 0 && cfg.lockoutMs > 0
    requires QuietRun(s, calls, cfg, u) && Clocked(calls, start)
    requires forall i :: 0 <= i < |calls| ==> calls[i].now <= start + span
    ensures Compared(s, calls, cfg, u) <= Free(cfg) + span / cfg.lockoutMs
  {
    CounterRun(s, calls, cfg, u, start);
    hide Elapsed, Run, Compared, QuietRun;
    ElapsedWithin(cfg, Compared(s, calls, cfg, u), span);
    ElapsedWithin(cfg, Free(cfg), span);
  }

  // ----------------------------------------------------- the bound is reached

  /** Wrong logins as early as the lock lets each of them through. */
  function Earliest(username: Str, password: Str, cfg: Config, start: int, n: nat): seq<Call> {
    if n == 0 then []
    else Earliest(username, password, cfg, start, n - 1) + [Call(Login(username, password), start + Elapsed(cfg, n))]
  }

  lemma {:induction false} FindUserSame(a: seq<Account>, b: seq<Account>, name: Str)
    requires |a| == |b| && forall k :: 0 <= k < |a| ==> a[k].username == b[k].username
    ensures FindUser(a, name) == FindUser(b, name)
  {
    if a != [] { FindUserSame(a[1..], b[1..], name); }
  }

  lemma WrongLogin(s: State, username: Str, password: Str, now: int, cfg: Config)
    requires Target(s, username) < |s.accounts| && password != s.accounts[Target(s, username)].password
    requires !Locked(s.accounts[Target(s, username)], now)
    ensures var u, c := Target(s, username), Call(Login(username, password), now);
            var after := Step(s, c, cfg).0;
            && ComparesWrong(s, c, u) && LeavesCounter(s, c, u)
            && Target(after, username) == u && |after.accounts| == |s.accounts|
            && after.accounts[u] == Failed(s.accounts[u], now, cfg)
  {
    hide FindUser, Username.Normalize;
    var u := Target(s, username);
    FindUserSame(s.accounts, s.accounts[u := Failed(s.accounts[u], now, cfg)], Username.Normalize(username));
  }

  /** The account after n of those logins. */
  ghost predicate AfterGuesses(after: State, s: State, username: Str, cfg: Config, start: int, n: nat) {
    var u := Target(s, username);
    && u < |s.accounts| == |after.accounts| && Target(after, username) == u
    && after.accounts[u].password == s.accounts[u].password
    && after.accounts[u].failedLoginAttempts == n
    && after.accounts[u].lockedUntil == (if n >= Free(cfg) then Some(start + Elapsed(cfg, n + 1)) else None)
  }

  lemma OneMoreGuess(at: State, s: State, username: Str, password: Str, cfg: Config, start: int, n: nat)
    requires AfterGuesses(at, s, username, cfg, start, n) && password != s.accounts[Target(s, username)].password
    ensures var u, c := Target(s, username), Call(Login(username, password), start + Elapsed(cfg, n + 1));
            && ComparesWrong(at, c, u) && LeavesCounter(at, c, u)
            && AfterGuesses(Step(at, c, cfg).0, s, username, cfg, start, n + 1)
  {
    hide Step, ComparesWrong, LeavesCounter, Elapsed, Target;
    ElapsedNext(cfg, n + 1);
    WrongLogin(at, username, password, start + Elapsed(cfg, n + 1), cfg);
  }

  lemma {:induction false} EarliestClocked(username: Str, password: Str, cfg: Config, start: int, n: nat)
    ensures var calls := Earliest(username, password, cfg, start, n);
            && |calls| == n && Clocked(calls, start) && forall i :: 0 <= i < n ==> calls[i].now <= start + Elapsed(cfg, n)
  {
    hide Elapsed;
    if n > 0 {
      EarliestClocked(username, password, cfg, start, n - 1);
      ElapsedNext(cfg, n - 1);
      ElapsedNext(cfg, n);
    }
  }

  lemma ComparedSnoc(s: State, before: seq<Call>, c: Call, cfg: Config, u: nat)
    ensures Run(s, before + [c], cfg) == Step(Run(s, before, cfg), c, cfg).0
    ensures Compared(s, before + [c], cfg, u)
         == Compared(s, before, cfg, u) + (if ComparesWrong(Run(s, before, cfg), c, u) then 1 else 0)
  {
    hide Step, ComparesWrong;
    assert (before + [c])[..|before|] == before;
  }

  /** n guesses were all compared, and the account stands as after n. */
  ghost predicate Guessed(s: State, calls: seq<Call>, username: Str, cfg: Config, start: int, n: nat) {
    && Compared(s, calls, cfg, Target(s, username)) == n && QuietRun(s, calls, cfg, Target(s, username))
    && AfterGuesses(Run(s, calls, cfg), s, username, cfg, start, n)
  }

  lemma NoneGuessed(s: State, username: Str, cfg: Config, start: int)
    requires Target(s, username) < |s.accounts|
    requires s.accounts[Target(s, username)].failedLoginAttempts == 0 && s.accounts[Target(s, username)].lockedUntil.None?
    ensures Guessed(s, [], username, cfg, start, 0)
  {
    hide Step, LeavesCounter, ComparesWrong, Target, Elapsed;
    assert Run(s, [], cfg) == s;
  }

  lemma GuessedNext(s: State, before: seq<Call>, username: Str, password: Str, cfg: Config, start: int, n: nat)
    requires Target(s, username) < |s.accounts| && password != s.accounts[Target(s, username)].password
    ensures Guessed(s, before, username, cfg, start, n) ==>
      Guessed(s, before + [Call(Login(username, password), start + Elapsed(cfg, n + 1))], username, cfg, start, n + 1)
  {
    hide Step, LeavesCounter, ComparesWrong, Target, Elapsed, AfterGuesses, Run, Compared, QuietRun;
    var u, c := Target(s, username), Call(Login(username, password), start + Elapsed(cfg, n + 1));
    if Guessed(s, before, username, cfg, start, n) {
      OneMoreGuess(Run(s, before, cfg), s, username, password, cfg, start, n);
      QuietSnoc(s, before, c, cfg, u);
      ComparedSnoc(s, before, c, cfg, u);
    }
  }

  lemma {:induction false} EarliestCompared(s: State, username: Str, password: Str, cfg: Config, start: int, n: nat)
    requires Target(s, username) < |s.accounts| && password != s.accounts[Target(s, username)].password
    requires s.accounts[Target(s, username)].failedLoginAttempts == 0 && s.accounts[Target(s, username)].lockedUntil.None?
    ensures Guessed(s, Earliest(username, password, cfg, start, n), username, cfg, start, n)
  {
    hide Guessed, Elapsed, Target;
    if n == 0 {
      NoneGuessed(s, username, cfg, start);
    } else {
      EarliestCompared(s, username, password, cfg, start, n - 1);
      GuessedNext(s, Earliest(username, password, cfg, start, n - 1), username, password, cfg, start, n - 1);
    }
  }

  /** The bound is exact: for every span some run compares that many. */
  lemma BoundIsReached(s: State, username: Str, password: Str, cfg: Config, start: int, span: nat)
    requires Target(s, username) < |s.accounts| && password != s.accounts[Target(s, username)].password && cfg.lockoutMs > 0
    requires s.accounts[Target(s, username)].failedLoginAttempts == 0 && s.accounts[Target(s, username)].lockedUntil.None?
    ensures exists calls: seq<Call> ::
      && Clocked(calls, start) && QuietRun(s, calls, cfg, Target(s, username))
      && (forall i :: 0 <= i < |calls| ==> calls[i].now <= start + span)
      && Compared(s, calls, cfg, Target(s, username)) == Free(cfg) + span / cfg.lockoutMs
  {
    hide Target, QuietRun, Elapsed, Compared, Run, AfterGuesses, Earliest;
    var n := Free(cfg) + span / cfg.lockoutMs;
    var calls := Earliest(username, password, cfg, start, n);
    EarliestCompared(s, username, password, cfg, start, n);
    EarliestClocked(username, password, cfg, start, n);
    ElapsedWithin(cfg, n, span);
  }

  // -------------------------------------------------------- right passwords

  /** A right password clears the counter and the lock if and only if the
      account is not locked at that moment; a lock in force stays. */
  lemma RightPasswordClearsExactly(s: State, username: Str, now: int, cfg: Config)
    requires Target(s, username) < |s.accounts|
    ensures var u := Target(s, username);
            var after := Step(s, Call(Login(username, s.accounts[u].password), now), cfg).0;
            && |after.accounts| == |s.accounts|
            && (!Locked(s.accounts[u], now) <==>
                  after.accounts[u].failedLoginAttempts == 0 && after.accounts[u].lockedUntil.None?)
            && (Locked(s.accounts[u], now) ==> after == s)
  {
    hide FindUser, Username.Normalize;
  }

  /** An account that is locked until 100. */
  const LOCKED_ACCOUNT := Account(Some([97]), [112], true, {}, false, 0, 5, Some(100))

  /** At 50 its right password changes nothing; at 100 it clears both. */
  lemma LockHoldsAgainstRightPassword(cfg: Config)
    ensures var s := State([LOCKED_ACCOUNT], []);
            && Step(s, Call(Login([97], [112]), 50), cfg) == (s, Refused(AccountLocked))
            && var after := Step(s, Call(Login([97], [112]), 100), cfg).0;
               |after.accounts| == 1 && after.accounts[0] == LOCKED_ACCOUNT.(failedLoginAttempts := 0, lockedUntil := None)
  {
    assert Username.AllNameUnits([97]);
    Username.ValidIsNormal([97]);
    assert FindUser([LOCKED_ACCOUNT], [97]) == 0;
    hide Username.Normalize, FindUser;
  }
}
