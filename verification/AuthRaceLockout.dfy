/** The lockout when logins overlap: what a wrong password costs once another
    comparison has moved the counter it was read with. */
module AuthRaceLockout {
  import opened JsText
  import opened Wrappers
  import opened Auth
  import opened AuthRaces
  import L = Lockout
  import Username

  /** The step that compares a wrong password of user u and counts it. */
  predicate ComparesWrong(g: Net, o: NetOp, u: nat) {
    && o.Advance? && o.call in g.calls && g.calls[o.call].LoginRead? && g.calls[o.call].userId == u < |g.state.accounts|
    && g.calls[o.call].password != g.calls[o.call].snapshot.password
  }

  predicate SameCounter(a: Account, b: Account) {
    a.failedLoginAttempts == b.failedLoginAttempts && a.lockedUntil == b.lockedUntil
  }

  /** ... with a counter or a lock that have changed since the login read them. */
  predicate CountsStale(g: Net, o: NetOp, u: nat) {
    ComparesWrong(g, o, u) && !SameCounter(g.calls[o.call].snapshot, g.state.accounts[u])
  }

  /** A step that does not clear u's counter: no right password, no reset and
      no password change of u. */
  predicate LeavesCounter(g: Net, o: NetOp, u: nat) {
    o.Advance? && o.call in g.calls ==>
      match g.calls[o.call]
      case LoginRead(w, snapshot, password) => w == u ==> password != snapshot.password
      case PasswordRead(w, _) => w != u
      case AccountRead(op) => op.ResetPassword? ==> op.userId != u
      case _ => true
  }

  predicate QuietRun(g: Net, ops: seq<NetOp>, cfg: Config, u: nat) {
    forall n :: 0 <= n < |ops| ==> LeavesCounter(NetRun(g, ops[..n], cfg), ops[n], u)
  }

  /** Wrong passwords of u compared in a run, and those counted stale. */
  function Compared(g: Net, ops: seq<NetOp>, cfg: Config, u: nat): nat {
    if ops == [] then 0
    else
      var init, last := ops[..|ops| - 1], ops[|ops| - 1];
      Compared(g, init, cfg, u) + (if ComparesWrong(NetRun(g, init, cfg), last, u) then 1 else 0)
  }

  function Stale(g: Net, ops: seq<NetOp>, cfg: Config, u: nat): nat {
    if ops == [] then 0
    else
      var init, last := ops[..|ops| - 1], ops[|ops| - 1];
      Stale(g, init, cfg, u) + (if CountsStale(NetRun(g, init, cfg), last, u) then 1 else 0)
  }

  /** The time of the last step. */
  function Latest(ops: seq<NetOp>, start: int): int {
    if ops == [] then start else ops[|ops| - 1].now
  }

  /** Steps in the order of the clock, from `start` on. */
  predicate Clocked(ops: seq<NetOp>, start: int) {
    (forall i :: 0 <= i < |ops| ==> start <= ops[i].now) && forall i, j :: 0 <= i < j < |ops| ==> ops[i].now <= ops[j].now
  }

  lemma ClockedSnoc(ops: seq<NetOp>, o: NetOp, start: int)
    ensures Clocked(ops + [o], start) <==> Clocked(ops, start) && Latest(ops, start) <= o.now
  {
    var all := ops + [o];
    assert forall i :: 0 <= i < |ops| ==> all[i] == ops[i];
    assert all[|ops|] == o;
  }

  lemma QuietSnoc(g: Net, ops: seq<NetOp>, o: NetOp, cfg: Config, u: nat)
    ensures QuietRun(g, ops + [o], cfg, u) <==> QuietRun(g, ops, cfg, u) && LeavesCounter(NetRun(g, ops, cfg), o, u)
  {
    hide NetRun, LeavesCounter;
    var all := ops + [o];
    assert forall n :: 0 <= n < |ops| ==> all[..n] == ops[..n] && all[n] == ops[n];
    assert all[..|ops|] == ops && all[|ops|] == o;
  }

  // ------------------------------------------------------------------ bound

  /** What one step does to the counter and the lock of u. */
  lemma CounterStep(g: Net, o: NetOp, cfg: Config, u: nat)
    requires u < |g.state.accounts| && LeavesCounter(g, o, u)
    ensures var after := NetStep(g, o, cfg).state.accounts;
            && |after| == |g.state.accounts|
            && SameCounter(after[u],
                           if ComparesWrong(g, o, u) then Failed(g.calls[o.call].snapshot, o.now, cfg) else g.state.accounts[u])
  {
    hide FirstPhase;
  }

  /** No login of u still holds a copy that is locked by now. */
  predicate ReadsUnlocked(g: Net, u: nat, now: int) {
    forall c :: c in g.calls && g.calls[c].LoginRead? && g.calls[c].userId == u ==> !Locked(g.calls[c].snapshot, now)
  }

  lemma NewLoginUnlocked(s: State, op: Op, now: int)
    ensures var p := FirstPhase(s, op, now);
            p.LoginRead? ==> !Locked(p.snapshot, now)
  {
    hide FindUser, Username.Normalize;
  }

  lemma AdvanceStartsNoLogin(g: Net, call: nat, now: int, cfg: Config)
    ensures var after := AdvanceStep(g, call, now, cfg);
            && after.calls.Keys == g.calls.Keys
            && (forall c :: c in g.calls && (c != call || after.calls[c].LoginRead?) ==> after.calls[c] == g.calls[c])
  {
  }

  lemma ReadsStayUnlocked(g: Net, o: NetOp, cfg: Config, u: nat, now: int)
    requires ReadsUnlocked(g, u, now) && now <= o.now
    ensures ReadsUnlocked(NetStep(g, o, cfg), u, o.now)
  {
    hide FirstPhase, AdvanceStep;
    match o
    case Begin(call, op, at) =>
      NewLoginUnlocked(g.state, op, at);
    case Advance(call, at) =>
      AdvanceStartsNoLogin(g, call, at, cfg);
      var after := AdvanceStep(g, call, at, cfg);
      assert forall c :: c in after.calls && after.calls[c].LoginRead? ==> c in g.calls && after.calls[c] == g.calls[c];
  }

  function Least(a: nat, b: nat): nat { if a < b then a else b }

  /** Of n comparisons, z of them stale, l came behind a lock: each of those
      waited for one lockout, and every stale one gave back at most the free
      attempts. */
  predicate Accounted(a: Account, cfg: Config, n: nat, z: nat, l: nat, passed: int) {
    && l * cfg.lockoutMs <= passed
    && n <= z * L.Free(cfg) + Least(a.failedLoginAttempts, L.Free(cfg)) + l
  }

  /** The lock in force once the free attempts are used up. */
  predicate LockCovers(a: Account, cfg: Config, l: nat, start: int) {
    a.failedLoginAttempts >= L.Free(cfg) ==> a.lockedUntil.Some? && a.lockedUntil.value >= start + (l + 1) * cfg.lockoutMs
  }

  lemma TimesNext(z: nat, m: nat)
    ensures (z + 1) * m == z * m + m
  {
  }

  lemma FailureAccounted(a: Account, snapshot: Account, after: Account, cfg: Config, n: nat, z: nat, l: nat, start: int, now: int)
    returns (l': nat)
    requires Accounted(a, cfg, n, z, l, now - start) && LockCovers(a, cfg, l, start)
    requires !Locked(snapshot, now) && SameCounter(after, Failed(snapshot, now, cfg))
    ensures Accounted(after, cfg, n + 1, if SameCounter(snapshot, a) then z else z + 1, l', now - start)
    ensures LockCovers(after, cfg, l', start)
  {
    l' := if SameCounter(snapshot, a) && a.failedLoginAttempts >= L.Free(cfg) then l + 1 else l;
    TimesNext(z, L.Free(cfg));
    TimesNext(l, cfg.lockoutMs);
    TimesNext(l + 1, cfg.lockoutMs);
  }

  lemma {:induction false} ComparisonsAccounted(accounts: seq<Account>, ops: seq<NetOp>, cfg: Config, u: nat, start: int)
    returns (l: nat)
    requires u < |accounts| && accounts[u].failedLoginAttempts == 0
    requires QuietRun(Quiet(accounts), ops, cfg, u) && Clocked(ops, start)
    ensures var g, now := NetRun(Quiet(accounts), ops, cfg), Latest(ops, start);
            && |g.state.accounts| == |accounts| && ReadsUnlocked(g, u, now)
            && Accounted(g.state.accounts[u], cfg, Compared(Quiet(accounts), ops, cfg, u), Stale(Quiet(accounts), ops, cfg, u),
                         l, now - start)
            && LockCovers(g.state.accounts[u], cfg, l, start)
  {
    hide NetStep, LeavesCounter, Accounted, LockCovers, QuietRun, Clocked;
    if ops == [] {
      l := 0;
      NothingAccounted(accounts[u], cfg, start);
    } else {
      var init, o := ops[..|ops| - 1], ops[|ops| - 1];
      assert ops == init + [o];
      QuietSnoc(Quiet(accounts), init, o, cfg, u);
      ClockedSnoc(init, o, start);
      l := ComparisonsAccounted(accounts, init, cfg, u, start);
      var g, n, z := NetRun(Quiet(accounts), init, cfg), Compared(Quiet(accounts), init, cfg, u), Stale(Quiet(accounts), init, cfg, u);
      var a, after := g.state.accounts[u], NetStep(g, o, cfg).state.accounts;
      ReadsStayUnlocked(g, o, cfg, u, Latest(init, start));
      CounterStep(g, o, cfg, u);
      TimePasses(a, cfg, n, z, l, Latest(init, start) - start, o.now - start);
      if ComparesWrong(g, o, u) {
        l := FailureAccounted(a, g.calls[o.call].snapshot, after[u], cfg, n, z, l, start, o.now);
      } else {
        SameAccounted(a, after[u], cfg, n, z, l, start, o.now - start);
      }
    }
  }

  lemma NothingAccounted(a: Account, cfg: Config, start: int)
    requires a.failedLoginAttempts == 0
    ensures Accounted(a, cfg, 0, 0, 0, 0) && LockCovers(a, cfg, 0, start)
  {
  }

  lemma TimePasses(a: Account, cfg: Config, n: nat, z: nat, l: nat, before: int, now: int)
    requires Accounted(a, cfg, n, z, l, before) && before <= now
    ensures Accounted(a, cfg, n, z, l, now)
  {
  }

  lemma SameAccounted(a: Account, after: Account, cfg: Config, n: nat, z: nat, l: nat, start: int, passed: int)
    requires Accounted(a, cfg, n, z, l, passed) && LockCovers(a, cfg, l, start) && SameCounter(after, a)
    ensures Accounted(after, cfg, n, z, l, passed) && LockCovers(after, cfg, l, start)
  {
  }

  /** The free attempts, again for each of z stale comparisons, and one for each
      of l lockouts waited for. */
  function Most(cfg: Config, z: nat, l: nat): nat { (1 + z) * L.Free(cfg) + l }

  /** Lockouts that fit into a time span. */
  function Lockouts(cfg: Config, span: nat): nat
    requires cfg.lockoutMs > 0
  {
    span / cfg.lockoutMs
  }

  lemma MostNext(cfg: Config, z: nat)
    ensures Most(cfg, 0, 0) == L.Free(cfg) && Most(cfg, z + 1, 0) == Most(cfg, z, 0) + L.Free(cfg)
  {
    TimesNext(1 + z, L.Free(cfg));
  }

  lemma MostAdds(cfg: Config, z: nat, l: nat)
    ensures Most(cfg, z, l + 1) == Most(cfg, z, l) + 1
  {
  }

  lemma LocksWithin(l: nat, w: nat, span: nat)
    requires w > 0 && l * w <= span
    ensures l <= span / w
  {
    L.DivisionBounds(span, w);
    if l > span / w { L.Times(span / w + 1, l, w); }
  }

  /** When logins overlap, at most (1 + Z) * max(M, 1) + T / W wrong passwords of
      a user are compared within a time span of T, for M attempts, a lockout of
      W, and Z comparisons whose counter or lock had changed since their read. */
  lemma OverlappingPasswordsAreBounded(accounts: seq<Account>, ops: seq<NetOp>, cfg: Config, u: nat, start: int, span: nat)
    requires u < |accounts| && accounts[u].failedLoginAttempts == 0 && cfg.lockoutMs > 0
    requires QuietRun(Quiet(accounts), ops, cfg, u) && Clocked(ops, start) && Latest(ops, start) <= start + span
    ensures Compared(Quiet(accounts), ops, cfg, u)
         <= Most(cfg, Stale(Quiet(accounts), ops, cfg, u), Lockouts(cfg, span))
  {
    hide NetRun, Compared, Stale, QuietRun, L.Free;
    var l := ComparisonsAccounted(accounts, ops, cfg, u, start);
    LocksWithin(l, cfg.lockoutMs, span);
    TimesNext(Stale(Quiet(accounts), ops, cfg, u), L.Free(cfg));
    hide LockCovers, ReadsUnlocked;
  }

  /** A wrong password is compared while its account is locked only when the
      lock came after its login had read the account. */
  lemma ComparedUnderLockIsStale(accounts: seq<Account>, ops: seq<NetOp>, o: NetOp, cfg: Config, u: nat, start: int)
    requires Clocked(ops + [o], start)
    requires var g := NetRun(Quiet(accounts), ops, cfg); ComparesWrong(g, o, u) && Locked(g.state.accounts[u], o.now)
    ensures var g := NetRun(Quiet(accounts), ops, cfg);
            g.calls[o.call].snapshot.lockedUntil != g.state.accounts[u].lockedUntil && CountsStale(g, o, u)
  {
    ClockedSnoc(ops, o, start);
    EveryReadUnlocked(accounts, ops, cfg, u, start);
    hide NetRun;
  }

  /** ... and its write takes that lock away exactly when the counter it had
      read was still more than one short of the limit. */
  lemma LockErasedExactly(accounts: seq<Account>, ops: seq<NetOp>, o: NetOp, cfg: Config, u: nat, start: int)
    requires Clocked(ops + [o], start) && cfg.lockoutMs > 0
    requires var g := NetRun(Quiet(accounts), ops, cfg); ComparesWrong(g, o, u) && Locked(g.state.accounts[u], o.now)
    ensures var g := NetRun(Quiet(accounts), ops, cfg);
            var after := NetStep(g, o, cfg).state.accounts;
            u < |after| && (!Locked(after[u], o.now) <==> g.calls[o.call].snapshot.failedLoginAttempts + 1 < cfg.loginMaxAttempts)
  {
    ClockedSnoc(ops, o, start);
    EveryReadUnlocked(accounts, ops, cfg, u, start);
    hide NetRun;
    CounterStep(NetRun(Quiet(accounts), ops, cfg), o, cfg, u);
    hide NetStep;
  }

  lemma {:induction false} EveryReadUnlocked(accounts: seq<Account>, ops: seq<NetOp>, cfg: Config, u: nat, start: int)
    requires Clocked(ops, start)
    ensures ReadsUnlocked(NetRun(Quiet(accounts), ops, cfg), u, Latest(ops, start))
  {
    hide NetStep, Clocked;
    if ops != [] {
      var init := ops[..|ops| - 1];
      assert ops == init + [ops[|ops| - 1]];
      ClockedSnoc(init, ops[|ops| - 1], start);
      EveryReadUnlocked(accounts, init, cfg, u, start);
      ReadsStayUnlocked(NetRun(Quiet(accounts), init, cfg), ops[|ops| - 1], cfg, u, Latest(init, start));
    }
  }

  // ----------------------------------------------------- the bound is reached

  lemma Snoc(g: Net, ops: seq<NetOp>, o: NetOp, cfg: Config, u: nat, start: int)
    ensures NetRun(g, ops + [o], cfg) == NetStep(NetRun(g, ops, cfg), o, cfg)
    ensures Compared(g, ops + [o], cfg, u) == Compared(g, ops, cfg, u) + (if ComparesWrong(NetRun(g, ops, cfg), o, u) then 1 else 0)
    ensures Stale(g, ops + [o], cfg, u) == Stale(g, ops, cfg, u) + (if CountsStale(NetRun(g, ops, cfg), o, u) then 1 else 0)
    ensures QuietRun(g, ops + [o], cfg, u) <==> QuietRun(g, ops, cfg, u) && LeavesCounter(NetRun(g, ops, cfg), o, u)
    ensures Clocked(ops + [o], start) <==> Clocked(ops, start) && Latest(ops, start) <= o.now
    ensures Latest(ops + [o], start) == o.now
  {
    hide NetStep, ComparesWrong, CountsStale, LeavesCounter, QuietRun, Clocked;
    assert (ops + [o])[..|ops|] == ops;
    QuietSnoc(g, ops, o, cfg, u);
    ClockedSnoc(ops, o, start);
  }

  /** Logins of user u with one wrong password, from a quiet start; the first
      `early` calls read the account at once and compare late. */
  datatype Guesses = Guesses(accounts: seq<Account>, username: Str, password: Str, start: int, early: nat) {
    function User(): nat { FindUser(accounts, Username.Normalize(username)) }

    ghost predicate Valid() {
      && User() < |accounts| && password != accounts[User()].password
      && accounts[User()].failedLoginAttempts == 0 && accounts[User()].lockedUntil.None?
    }

    function Attempt(): Op { Login(username, password) }
  }

  /** After the run: k passwords compared, j of them stale, the counter at f. */
  ghost predicate Reached(w: Guesses, ops: seq<NetOp>, cfg: Config, k: nat, j: nat, f: nat, lock: Option<int>, now: int)
    requires w.Valid()
  {
    var g, u := NetRun(Quiet(w.accounts), ops, cfg), w.User();
    && Compared(Quiet(w.accounts), ops, cfg, u) == k && Stale(Quiet(w.accounts), ops, cfg, u) == j
    && QuietRun(Quiet(w.accounts), ops, cfg, u) && Clocked(ops, w.start) && Latest(ops, w.start) == now
    && Stands(w, g, k, j, f, lock)
  }

  ghost predicate Stands(w: Guesses, g: Net, k: nat, j: nat, f: nat, lock: Option<int>)
    requires w.Valid()
  {
    var u := w.User();
    && |g.state.accounts| == |w.accounts|
    && (forall i :: 0 <= i < |w.accounts| ==> g.state.accounts[i].username == w.accounts[i].username)
    && g.state.accounts[u].password == w.accounts[u].password
    && g.state.accounts[u].failedLoginAttempts == f && g.state.accounts[u].lockedUntil == lock
    && (forall c: nat :: j <= c < w.early ==> c in g.calls && ReadEarly(w, g.calls[c]))
    && (forall c :: c in g.calls ==> c < w.early + k)
  }

  /** A login that has read the account with its counter at 0 and unlocked. */
  ghost predicate ReadEarly(w: Guesses, p: Phase)
    requires w.Valid()
  {
    && p.LoginRead? && p.userId == w.User() && p.password == w.password
    && p.snapshot.password == w.accounts[w.User()].password && SameCounter(p.snapshot, w.accounts[w.User()])
  }

  /** One more login, begun and compared at t. */
  lemma FreshStep(w: Guesses, g: Net, cfg: Config, k: nat, j: nat, f: nat, lock: Option<int>, t: int)
    requires w.Valid() && Stands(w, g, k, j, f, lock) && j <= w.early && (lock.Some? ==> lock.value <= t)
    ensures var b, a := Begin(w.early + k, w.Attempt(), t), Advance(w.early + k, t);
            var read := NetStep(g, b, cfg);
            && !ComparesWrong(g, b, w.User()) && LeavesCounter(g, b, w.User())
            && ComparesWrong(read, a, w.User()) && !CountsStale(read, a, w.User()) && LeavesCounter(read, a, w.User())
            && Stands(w, NetStep(read, a, cfg), k + 1, j, f + 1,
                      if f + 1 >= cfg.loginMaxAttempts then Some(t + cfg.lockoutMs) else lock)
  {
    hide FindUser, Username.Normalize;
    L.FindUserSame(w.accounts, g.state.accounts, Username.Normalize(w.username));
    var u, c := w.User(), w.early + k;
    assert c !in g.calls;
    var read := NetStep(g, Begin(c, w.Attempt(), t), cfg);
    assert read == g.(calls := g.calls[c := LoginRead(u, g.state.accounts[u], w.password)]);
  }

  /** One of the early logins compares now, with the counter it read. */
  lemma StaleStep(w: Guesses, g: Net, cfg: Config, k: nat, j: nat, f: nat, lock: Option<int>, t: int)
    requires w.Valid() && Stands(w, g, k, j, f, lock) && j < w.early && f > 0
    ensures var a := Advance(j, t);
            && ComparesWrong(g, a, w.User()) && CountsStale(g, a, w.User()) && LeavesCounter(g, a, w.User())
            && Stands(w, NetStep(g, a, cfg), k + 1, j + 1, 1, if 1 >= cfg.loginMaxAttempts then Some(t + cfg.lockoutMs) else None)
  {
    hide FindUser, Username.Normalize;
    assert j in g.calls;
  }

  lemma FreshRun(w: Guesses, ops: seq<NetOp>, cfg: Config, k: nat, j: nat, f: nat, lock: Option<int>, now: int, t: int)
    returns (more: seq<NetOp>)
    requires w.Valid() && j <= w.early && now <= t && (lock.Some? ==> lock.value <= t)
    ensures Reached(w, ops, cfg, k, j, f, lock, now) ==>
      Reached(w, more, cfg, k + 1, j, f + 1, if f + 1 >= cfg.loginMaxAttempts then Some(t + cfg.lockoutMs) else lock, t)
  {
    hide Stands, NetRun, NetStep, Compared, Stale, QuietRun, Clocked, Latest, ComparesWrong, CountsStale, LeavesCounter;
    var b, a := Begin(w.early + k, w.Attempt(), t), Advance(w.early + k, t);
    more := ops + [b] + [a];
    if Reached(w, ops, cfg, k, j, f, lock, now) {
      var g := NetRun(Quiet(w.accounts), ops, cfg);
      FreshStep(w, g, cfg, k, j, f, lock, t);
      NoComparison(g, b, w.User());
      Snoc(Quiet(w.accounts), ops, b, cfg, w.User(), w.start);
      Snoc(Quiet(w.accounts), ops + [b], a, cfg, w.User(), w.start);
    }
  }

  lemma NoComparison(g: Net, o: NetOp, u: nat)
    requires !ComparesWrong(g, o, u)
    ensures !CountsStale(g, o, u)
  {
  }

  lemma StaleRun(w: Guesses, ops: seq<NetOp>, cfg: Config, k: nat, j: nat, f: nat, lock: Option<int>, now: int)
    returns (more: seq<NetOp>)
    requires w.Valid() && j < w.early && f > 0
    ensures Reached(w, ops, cfg, k, j, f, lock, now) ==>
      Reached(w, more, cfg, k + 1, j + 1, 1, if 1 >= cfg.loginMaxAttempts then Some(now + cfg.lockoutMs) else None, now)
  {
    hide Stands, NetRun, NetStep, Compared, Stale, QuietRun, Clocked, Latest, ComparesWrong, CountsStale, LeavesCounter;
    more := ops + [Advance(j, now)];
    if Reached(w, ops, cfg, k, j, f, lock, now) {
      StaleStep(w, NetRun(Quiet(w.accounts), ops, cfg), cfg, k, j, f, lock, now);
      Snoc(Quiet(w.accounts), ops, Advance(j, now), cfg, w.User(), w.start);
    }
  }

  /** The lock that f comparisons at time t leave behind. */
  function LockAt(cfg: Config, f: nat, t: int): Option<int> {
    if f >= L.Free(cfg) then Some(t + cfg.lockoutMs) else None
  }

  lemma LockNext(cfg: Config, f: nat, t: int)
    ensures f < L.Free(cfg) ==> LockAt(cfg, f, t).None?
    ensures f < L.Free(cfg) ==>
      LockAt(cfg, f + 1, t) == (if f + 1 >= cfg.loginMaxAttempts then Some(t + cfg.lockoutMs) else LockAt(cfg, f, t))
    ensures LockAt(cfg, 1, t) == (if 1 >= cfg.loginMaxAttempts then Some(t + cfg.lockoutMs) else None)
    ensures LockAt(cfg, 0, t).None? && LockAt(cfg, L.Free(cfg), t) == Some(t + cfg.lockoutMs)
    ensures f >= L.Free(cfg) ==> f >= cfg.loginMaxAttempts
  {
  }

  function OneMoreEarly(w: Guesses): Guesses { w.(early := w.early + 1) }

  /** One more of the early logins reads the account. */
  lemma EarlyStep(w: Guesses, g: Net, cfg: Config)
    requires w.Valid() && Stands(w, g, 0, 0, 0, None)
    ensures var b := Begin(w.early, w.Attempt(), w.start);
            && !ComparesWrong(g, b, w.User()) && LeavesCounter(g, b, w.User())
            && OneMoreEarly(w).Valid() && OneMoreEarly(w).User() == w.User()
            && Stands(OneMoreEarly(w), NetStep(g, b, cfg), 0, 0, 0, None)
  {
    hide FindUser, Username.Normalize;
    L.FindUserSame(w.accounts, g.state.accounts, Username.Normalize(w.username));
    var u, c := w.User(), w.early;
    assert c !in g.calls;
    var read := NetStep(g, Begin(c, w.Attempt(), w.start), cfg);
    assert read == g.(calls := g.calls[c := LoginRead(u, g.state.accounts[u], w.password)]);
  }

  lemma EarlyRun(w: Guesses, ops: seq<NetOp>, cfg: Config)
    returns (more: seq<NetOp>)
    requires w.Valid()
    ensures OneMoreEarly(w).Valid()
    ensures Reached(w, ops, cfg, 0, 0, 0, None, w.start) ==> Reached(OneMoreEarly(w), more, cfg, 0, 0, 0, None, w.start)
  {
    hide Stands, NetRun, NetStep, Compared, Stale, QuietRun, Clocked, Latest, ComparesWrong, CountsStale, LeavesCounter;
    var b := Begin(w.early, w.Attempt(), w.start);
    more := ops + [b];
    if Reached(w, ops, cfg, 0, 0, 0, None, w.start) {
      var g := NetRun(Quiet(w.accounts), ops, cfg);
      EarlyStep(w, g, cfg);
      NoComparison(g, b, w.User());
      Snoc(Quiet(w.accounts), ops, b, cfg, w.User(), w.start);
    }
  }

  lemma NoneEarly(w: Guesses, cfg: Config)
    requires w.Valid()
    ensures var v := w.(early := 0);
            v.Valid() && Reached(v, [], cfg, 0, 0, 0, None, w.start)
  {
    hide FindUser, Username.Normalize;
    assert NetRun(Quiet(w.accounts), [], cfg) == Quiet(w.accounts);
  }

  lemma EarlyNext(w: Guesses)
    ensures OneMoreEarly(w) == w.(early := w.early + 1)
  {
  }

  /** The early reads, all free attempts, then for each early login its comparison and the free
      attempts it gave back, then one comparison at the end of every lockout. */
  lemma LongestRun(w: Guesses, cfg: Config, waits: nat)
    returns (ops: seq<NetOp>)
    requires w.Valid()
    ensures Reached(w, ops, cfg, Most(cfg, w.early, waits), w.early, L.Free(cfg) + waits,
                    Some(w.start + (waits + 1) * cfg.lockoutMs), w.start + waits * cfg.lockoutMs)
  {
    hide *;
    var m, k, j, f := L.Free(cfg), 0, 0, 0;
    var v := w.(early := 0);
    ops := [];
    NoneEarly(w, cfg);
    while v.early < w.early
      invariant v == w.(early := v.early) && v.early <= w.early && v.Valid()
      invariant Reached(v, ops, cfg, 0, 0, 0, None, w.start)
    {
      ops := EarlyRun(v, ops, cfg);
      EarlyNext(v);
      v := OneMoreEarly(v);
    }
    LockNext(cfg, 0, w.start);
    MostNext(cfg, 0);
    while j < w.early || f < m
      invariant j <= w.early && f <= m && k == Most(cfg, j, 0) - m + f
      invariant Reached(w, ops, cfg, k, j, f, LockAt(cfg, f, w.start), w.start)
      decreases w.early - j, m - f
    {
      LockNext(cfg, f, w.start);
      if f < m {
        ops := FreshRun(w, ops, cfg, k, j, f, LockAt(cfg, f, w.start), w.start, w.start);
        k, f := k + 1, f + 1;
      } else {
        ops := StaleRun(w, ops, cfg, k, j, f, LockAt(cfg, f, w.start), w.start);
        MostNext(cfg, j);
        k, j, f := k + 1, j + 1, 1;
      }
    }
    LockNext(cfg, m, w.start);
    for i := 0 to waits
      invariant Reached(w, ops, cfg, Most(cfg, w.early, i), w.early, m + i,
                        Some(w.start + (i + 1) * cfg.lockoutMs), w.start + i * cfg.lockoutMs)
    {
      TimesNext(i, cfg.lockoutMs);
      TimesNext(i + 1, cfg.lockoutMs);
      MostAdds(cfg, w.early, i);
      LockNext(cfg, m + i, w.start);
      var t := w.start + (i + 1) * cfg.lockoutMs;
      ops := FreshRun(w, ops, cfg, Most(cfg, w.early, i), w.early, m + i, Some(t), t - cfg.lockoutMs, t);
      LockNext(cfg, m + i + 1, w.start);
    }
  }

  /** The bound is exact: for every time span and every number of stale
      comparisons some run of overlapping logins reaches it. */
  lemma OverlapBoundIsReached(w: Guesses, cfg: Config, span: nat)
    requires w.Valid() && cfg.lockoutMs > 0
    ensures exists ops: seq<NetOp> ::
      && QuietRun(Quiet(w.accounts), ops, cfg, w.User()) && Clocked(ops, w.start) && Latest(ops, w.start) <= w.start + span
      && Stale(Quiet(w.accounts), ops, cfg, w.User()) == w.early
      && Compared(Quiet(w.accounts), ops, cfg, w.User()) == Most(cfg, w.early, Lockouts(cfg, span))
  {
    hide NetRun, Compared, Stale, QuietRun, Clocked, Latest, Stands;
    L.DivisionBounds(span, cfg.lockoutMs);
    var ops := LongestRun(w, cfg, Lockouts(cfg, span));
  }
}
