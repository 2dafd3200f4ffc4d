/** What interleaving takes away from the guarantees about whole calls: one
    redemption per token, one administrator left, every failure counted. */
module AuthRaceLimits {
  import opened JsText
  import opened Wrappers
  import opened Auth
  import opened AuthProofs
  import opened AuthRaces
  import RP = AuthRaceProofs
  import Username
  import IR = InspectionRecords

  // ------------------------------------------------------------ redemptions

  /** The call has exchanged token t for a new pair. */
  predicate HasRedeemed(g: Net, c: nat, t: nat) {
    c in g.calls && (g.calls[c] == Redeemed(t) || (g.calls[c].RefreshIssued? && g.calls[c].token == t))
  }

  /** A refresh that read token t before and will still exchange it. */
  predicate WillRedeem(g: Net, c: nat, t: nat) {
    && c in g.calls
    && ((g.calls[c].RefreshLoaded? && g.calls[c].token == t) || (g.calls[c] == RefreshRead(t) && GuardAccepts(g.state, t)))
  }

  /** An account becomes active again only with a new stamp. */
  lemma ActiveNeedsNewStamp(g: Net, o: NetOp, cfg: Config, u: nat)
    requires u < |g.state.accounts|
    ensures var after := NetStep(g, o, cfg).state;
            u < |after.accounts|
            && (after.accounts[u].authVersion == g.state.accounts[u].authVersion ==>
                  after.accounts[u].active == g.state.accounts[u].active)
  {
    hide FirstPhase;
  }

  /** A token that the guard refuses is refused from then on. */
  lemma RefusedStays(g: Net, o: NetOp, cfg: Config, t: nat)
    requires NetSound(g) && t < |g.state.tokens| && !GuardAccepts(g.state, t)
    ensures t < |NetStep(g, o, cfg).state.tokens| && !GuardAccepts(NetStep(g, o, cfg).state, t)
  {
    RP.StepKeeps(g, o, cfg);
    assert g.state.tokens[t].userId < |g.state.accounts|;
    ActiveNeedsNewStamp(g, o, cfg, g.state.tokens[t].userId);
    hide NetStep, RP.CallsFollow, RP.IssuesFollow, PhaseSound;
  }

  lemma RevokedStays(g: Net, o: NetOp, cfg: Config, t: nat)
    requires t < |g.state.tokens| && g.state.tokens[t].revoked
    ensures t < |NetStep(g, o, cfg).state.tokens| && NetStep(g, o, cfg).state.tokens[t].revoked
  {
    hide FirstPhase;
  }

  ghost predicate NoneWillRedeem(g: Net, t: nat) {
    forall c :: !WillRedeem(g, c, t)
  }

  lemma NoneStep(g: Net, o: NetOp, cfg: Config, t: nat)
    requires NetSound(g) && t < |g.state.tokens| && g.state.tokens[t].revoked && NoneWillRedeem(g, t)
    ensures var after := NetStep(g, o, cfg);
            NoneWillRedeem(after, t) && forall c :: HasRedeemed(after, c, t) ==> HasRedeemed(g, c, t)
  {
    var after := NetStep(g, o, cfg);
    if !GuardAccepts(g.state, t) { RefusedStays(g, o, cfg, t); }
    forall c ensures !WillRedeem(after, c, t) && (HasRedeemed(after, c, t) ==> HasRedeemed(g, c, t)) {
      assert !WillRedeem(g, c, t);
      if c == o.call { OwnStep(g, o, cfg, t); } else { OtherCallStays(g, o, cfg, c); }
    }
  }

  lemma OtherCallStays(g: Net, o: NetOp, cfg: Config, c: nat)
    requires c != o.call
    ensures var after := NetStep(g, o, cfg);
            (c in after.calls <==> c in g.calls) && (c in g.calls ==> after.calls[c] == g.calls[c])
  {
    hide FirstPhase;
  }

  lemma OwnStep(g: Net, o: NetOp, cfg: Config, t: nat)
    requires t < |g.state.tokens| && g.state.tokens[t].revoked && !WillRedeem(g, o.call, t)
    requires !GuardAccepts(g.state, t) ==> !GuardAccepts(NetStep(g, o, cfg).state, t)
    ensures var after := NetStep(g, o, cfg);
            !WillRedeem(after, o.call, t) && (HasRedeemed(after, o.call, t) ==> HasRedeemed(g, o.call, t))
  {
    hide FindUser, Username.Normalize, PasswordGuard, AccountStep, RevokeAll;
  }

  lemma {:induction false} NoneRun(g: Net, more: seq<NetOp>, cfg: Config, t: nat)
    requires NetSound(g) && t < |g.state.tokens| && g.state.tokens[t].revoked && NoneWillRedeem(g, t)
    ensures var now := NetRun(g, more, cfg);
            && NetSound(now) && t < |now.state.tokens| && now.state.tokens[t].revoked && NoneWillRedeem(now, t)
            && forall c :: HasRedeemed(now, c, t) ==> HasRedeemed(g, c, t)
  {
    hide NetSound, NetStep, NoneWillRedeem, HasRedeemed, RP.Follows;
    if more != [] {
      var before, o := NetRun(g, more[..|more| - 1], cfg), more[|more| - 1];
      NoneRun(g, more[..|more| - 1], cfg, t);
      RP.StepKeeps(before, o, cfg);
      RevokedStays(before, o, cfg, t);
      NoneStep(before, o, cfg, t);
    }
  }

  /** Some run brings in a further call that exchanges t. */
  ghost predicate RedeemableAgain(g: Net, cfg: Config, t: nat) {
    exists more, c :: HasRedeemed(NetRun(g, more, cfg), c, t) && !HasRedeemed(g, c, t)
  }

  lemma WillDoes(g: Net, cfg: Config, c: nat, t: nat)
    requires t < |g.state.tokens| && WillRedeem(g, c, t)
    ensures HasRedeemed(NetRun(g, [Advance(c, 0)] + [Advance(c, 0)], cfg), c, t)
         || HasRedeemed(NetRun(g, [Advance(c, 0)], cfg), c, t)
  {
    NetRunSnoc(g, [], Advance(c, 0), cfg);
    NetRunSnoc(g, [Advance(c, 0)], Advance(c, 0), cfg);
    assert [] + [Advance(c, 0)] == [Advance(c, 0)];
    assert NetRun(g, [], cfg) == g;
    hide NetRun;
  }

  lemma NetRunSnoc(g: Net, ops: seq<NetOp>, o: NetOp, cfg: Config)
    ensures NetRun(g, ops + [o], cfg) == NetStep(NetRun(g, ops, cfg), o, cfg)
  {
    hide NetStep;
    assert (ops + [o])[..|ops|] == ops;
  }

  /** In every reachable state of the interleaved calls a revoked token can be
      exchanged once more if and only if a refresh that had read it before its
      revocation has not issued yet and would still be let through. */
  lemma RedeemedAgainExactly(accounts: seq<Account>, ops: seq<NetOp>, cfg: Config, t: nat)
    requires t < |NetRun(Quiet(accounts), ops, cfg).state.tokens| && NetRun(Quiet(accounts), ops, cfg).state.tokens[t].revoked
    ensures var g := NetRun(Quiet(accounts), ops, cfg);
            RedeemableAgain(g, cfg, t) <==> !NoneWillRedeem(g, t)
  {
    var g := NetRun(Quiet(accounts), ops, cfg);
    RP.EveryInterleavingIsSound(accounts, ops, cfg);
    hide NetRun, NetSound;
    if NoneWillRedeem(g, t) {
      forall more, c ensures HasRedeemed(NetRun(g, more, cfg), c, t) ==> HasRedeemed(g, c, t) { NoneRun(g, more, cfg, t); }
    } else {
      var c :| WillRedeem(g, c, t);
      WillDoes(g, cfg, c, t);
      var once, twice := [Advance(c, 0)], [Advance(c, 0)] + [Advance(c, 0)];
      assert !HasRedeemed(g, c, t);
      assert HasRedeemed(NetRun(g, once, cfg), c, t) || HasRedeemed(NetRun(g, twice, cfg), c, t);
    }
  }

  // ---------------------------------------------------------- administrators

  /** The write that takes the last active administrator away: the other one
      that its call had counted is gone by now. */
  predicate TakesLastAdmin(g: Net, o: NetOp) {
    && o.Advance? && o.call in g.calls && g.calls[o.call].AccountRead?
    && var op := g.calls[o.call].op;
       && (op.Deactivate? || (op.AssignRoles? && IR.SYSTEM_ADMINISTRATOR !in op.roles))
       && op.userId < |g.state.accounts| && ActiveAdmin(g.state.accounts[op.userId])
       && !OtherActiveAdmin(g.state.accounts, op.userId)
  }

  /** A step leaves no active administrator exactly when it is such a write. */
  lemma LastAdminLostExactly(g: Net, o: NetOp, cfg: Config)
    requires SomeActiveAdmin(g.state.accounts)
    ensures !SomeActiveAdmin(NetStep(g, o, cfg).state.accounts) <==> TakesLastAdmin(g, o)
  {
    var before, after := g.state.accounts, NetStep(g, o, cfg).state.accounts;
    if o.Begin? {
      BeginKeepsAccounts(g, o);
    } else if o.call in g.calls && g.calls[o.call].AccountRead? {
      AccountWriteKeepsAdmin(g, o, cfg);
    } else {
      var k :| 0 <= k < |before| && ActiveAdmin(before[k]);
      OtherWritesKeepAdmins(g, o, cfg, k);
    }
  }

  lemma BeginKeepsAccounts(g: Net, o: NetOp)
    requires o.Begin?
    ensures BeginStep(g, o.call, o.op, o.now).state.accounts == g.state.accounts
  {
    hide FirstPhase;
  }

  lemma OtherWritesKeepAdmins(g: Net, o: NetOp, cfg: Config, k: nat)
    requires o.Advance? && !(o.call in g.calls && g.calls[o.call].AccountRead?)
    requires k < |g.state.accounts| && ActiveAdmin(g.state.accounts[k])
    ensures k < |NetStep(g, o, cfg).state.accounts| && ActiveAdmin(NetStep(g, o, cfg).state.accounts[k])
  {
  }

  lemma AccountWriteKeepsAdmin(g: Net, o: NetOp, cfg: Config)
    requires SomeActiveAdmin(g.state.accounts) && o.Advance? && o.call in g.calls && g.calls[o.call].AccountRead?
    ensures !SomeActiveAdmin(NetStep(g, o, cfg).state.accounts) <==> TakesLastAdmin(g, o)
  {
    var before, after, op := g.state.accounts, NetStep(g, o, cfg).state.accounts, g.calls[o.call].op;
    if (op.Activate? || op.Deactivate? || op.AssignRoles? || op.ResetPassword?) && op.userId < |before| {
      var u := op.userId;
      assert after == before[u := AccountWrite(before[u], op)];
      hide NetStep;
      if OtherActiveAdmin(before, u) {
        var j :| 0 <= j < |before| && j != u && ActiveAdmin(before[j]);
        assert ActiveAdmin(after[j]);
      } else {
        var k :| 0 <= k < |before| && ActiveAdmin(before[k]);
        assert k == u;
        assert forall j :: 0 <= j < |after| && ActiveAdmin(after[j]) ==> j == u;
        assert ActiveAdmin(after[u]) ==> SomeActiveAdmin(after);
      }
    } else {
      assert after == before;
    }
  }

  predicate Advances(ops: seq<NetOp>) {
    forall i :: 0 <= i < |ops| ==> ops[i].Advance?
  }

  /** A call that has made its checks and is about to take administrator u away. */
  predicate RemovesAdmin(p: Phase, u: nat) {
    p.AccountRead?
    && (p.op == Deactivate(u) || (p.op.AssignRoles? && p.op.userId == u && IR.SYSTEM_ADMINISTRATOR !in p.op.roles))
  }

  ghost predicate RemovalPending(g: Net, u: nat) {
    exists c :: c in g.calls && RemovesAdmin(g.calls[c], u)
  }

  /** The begun calls, finished in some order, leave no active administrator. */
  ghost predicate AdminsMayBeLost(g: Net, cfg: Config) {
    exists more :: Advances(more) && !SomeActiveAdmin(NetRun(g, more, cfg).state.accounts)
  }

  lemma AdvanceReadsNoAccount(g: Net, o: NetOp, cfg: Config, c: nat)
    requires o.Advance? && c in NetStep(g, o, cfg).calls && NetStep(g, o, cfg).calls[c].AccountRead?
    ensures c in g.calls && g.calls[c] == NetStep(g, o, cfg).calls[c]
  {
  }

  lemma AdminStays(g: Net, o: NetOp, cfg: Config, u: nat)
    requires o.Advance? && u < |g.state.accounts| && ActiveAdmin(g.state.accounts[u]) && !RemovalPending(g, u)
    ensures var after := NetStep(g, o, cfg);
            u < |after.state.accounts| && ActiveAdmin(after.state.accounts[u]) && !RemovalPending(after, u)
  {
    var after := NetStep(g, o, cfg);
    forall c | c in after.calls ensures !RemovesAdmin(after.calls[c], u) {
      if after.calls[c].AccountRead? {
        AdvanceReadsNoAccount(g, o, cfg, c);
        assert !RemovesAdmin(g.calls[c], u);
      }
    }
    if o.call in g.calls && g.calls[o.call].AccountRead? {
      assert !RemovesAdmin(g.calls[o.call], u);
    } else {
      OtherWritesKeepAdmins(g, o, cfg, u);
    }
  }

  lemma {:induction false} AdminStaysThrough(g: Net, more: seq<NetOp>, cfg: Config, u: nat)
    requires Advances(more) && u < |g.state.accounts| && ActiveAdmin(g.state.accounts[u]) && !RemovalPending(g, u)
    ensures var now := NetRun(g, more, cfg);
            u < |now.state.accounts| && ActiveAdmin(now.state.accounts[u]) && !RemovalPending(now, u)
  {
    hide NetStep, ActiveAdmin, RemovalPending;
    if more != [] {
      AdminStaysThrough(g, more[..|more| - 1], cfg, u);
      AdminStays(NetRun(g, more[..|more| - 1], cfg), more[|more| - 1], cfg, u);
    }
  }

  /** One pending removal carried out. */
  lemma RemovalStep(g: Net, cfg: Config, c: nat, u: nat)
    requires u < |g.state.accounts| && c in g.calls && RemovesAdmin(g.calls[c], u)
    ensures var after := NetStep(g, Advance(c, 0), cfg);
            && |after.state.accounts| == |g.state.accounts| && !ActiveAdmin(after.state.accounts[u])
            && (forall k :: 0 <= k < |g.state.accounts| && k != u ==> after.state.accounts[k] == g.state.accounts[k])
            && (forall k :: k != u && RemovalPending(g, k) ==> RemovalPending(after, k))
  {
    var after := NetStep(g, Advance(c, 0), cfg);
    assert forall d :: d in g.calls && d != c ==> d in after.calls && after.calls[d] == g.calls[d];
    hide NetStep;
    forall k | k != u && RemovalPending(g, k) ensures RemovalPending(after, k) {
      var d :| d in g.calls && RemovesAdmin(g.calls[d], k);
      assert d != c;
    }
  }

  /** The first n users are no active administrators now, the others are as
      they were, with their removals still pending. */
  ghost predicate FirstRemoved(g: Net, now: Net, n: nat) {
    && |now.state.accounts| == |g.state.accounts|
    && (forall u :: 0 <= u < n <= |g.state.accounts| ==> !ActiveAdmin(now.state.accounts[u]))
    && (forall u :: n <= u < |g.state.accounts| ==> now.state.accounts[u] == g.state.accounts[u])
    && (forall u :: u >= n && RemovalPending(g, u) ==> RemovalPending(now, u))
  }

  lemma NextRemoved(g: Net, now: Net, cfg: Config, n: nat)
    returns (more: seq<NetOp>)
    requires n < |g.state.accounts| && FirstRemoved(g, now, n)
    requires ActiveAdmin(g.state.accounts[n]) ==> RemovalPending(g, n)
    ensures Advances(more) && |more| <= 1
    ensures FirstRemoved(g, NetRun(now, more, cfg), n + 1)
  {
    hide NetStep, ActiveAdmin, RemovesAdmin;
    more := [];
    if ActiveAdmin(now.state.accounts[n]) {
      var c :| c in now.calls && RemovesAdmin(now.calls[c], n);
      RemovalStep(now, cfg, c, n);
      hide RemovalPending;
      more := [Advance(c, 0)];
      NetRunSnoc(now, [], Advance(c, 0), cfg);
      assert [] + [Advance(c, 0)] == more && NetRun(now, [], cfg) == now;
      hide NetRun;
    }
  }

  lemma {:induction false} NetRunJoin(g: Net, a: seq<NetOp>, b: seq<NetOp>, cfg: Config)
    ensures NetRun(g, a + b, cfg) == NetRun(NetRun(g, a, cfg), b, cfg)
  {
    hide NetStep;
    if b == [] {
      assert a + b == a;
    } else {
      NetRunJoin(g, a, b[..|b| - 1], cfg);
      assert (a + b)[..|a + b| - 1] == a + b[..|b| - 1];
    }
  }

  /** One pending removal for each active administrator among the first n. */
  lemma {:induction false} RemoveFirst(g: Net, cfg: Config, n: nat)
    returns (more: seq<NetOp>)
    requires n <= |g.state.accounts|
    requires forall u :: 0 <= u < n && ActiveAdmin(g.state.accounts[u]) ==> RemovalPending(g, u)
    ensures Advances(more) && FirstRemoved(g, NetRun(g, more, cfg), n)
  {
    hide NetStep, ActiveAdmin, RemovalPending;
    more := [];
    if n > 0 {
      more := RemoveFirst(g, cfg, n - 1);
      hide FirstRemoved, NetRun;
      var last := NextRemoved(g, NetRun(g, more, cfg), cfg, n - 1);
      NetRunJoin(g, more, last, cfg);
      more := more + last;
    }
  }

  /** With no further call begun, the calls under way can leave no active
      administrator if and only if every active one has a removal pending. */
  lemma AdminsLostExactly(g: Net, cfg: Config)
    ensures AdminsMayBeLost(g, cfg) <==>
      forall u :: 0 <= u < |g.state.accounts| && ActiveAdmin(g.state.accounts[u]) ==> RemovalPending(g, u)
  {
    hide NetRun, ActiveAdmin, RemovalPending;
    if forall u :: 0 <= u < |g.state.accounts| && ActiveAdmin(g.state.accounts[u]) ==> RemovalPending(g, u) {
      var more := RemoveFirst(g, cfg, |g.state.accounts|);
    } else {
      var u :| 0 <= u < |g.state.accounts| && ActiveAdmin(g.state.accounts[u]) && !RemovalPending(g, u);
      forall more | Advances(more) ensures SomeActiveAdmin(NetRun(g, more, cfg).state.accounts) {
        AdminStaysThrough(g, more, cfg, u);
      }
    }
  }

  // ------------------------------------------------------- counted failures

  /** The write of a failed login counts it exactly when the counter shows what
      this login had read. */
  lemma FailureCountedExactly(g: Net, call: nat, now: int, cfg: Config)
    requires call in g.calls && g.calls[call].LoginRead? && g.calls[call].userId < |g.state.accounts|
    requires g.calls[call].password != g.calls[call].snapshot.password
    ensures var u, after := g.calls[call].userId, AdvanceStep(g, call, now, cfg).state.accounts;
            u < |after|
            && (after[u].failedLoginAttempts == g.state.accounts[u].failedLoginAttempts + 1 <==>
                  g.calls[call].snapshot.failedLoginAttempts == g.state.accounts[u].failedLoginAttempts)
  {
  }

  // ---------------------------------------------------------- it does happen

  const ADMIN := Account(Some([97]), [112], true, {IR.SYSTEM_ADMINISTRATOR}, false, 0, 0, None)

  lemma FindsAdmin(accounts: seq<Account>)
    requires accounts != [] && accounts[0].username == Some([97])
    ensures FindUser(accounts, Username.Normalize([97])) == 0
  {
    assert Username.AllNameUnits([97]);
    Username.ValidIsNormal([97]);
    hide Username.Normalize;
  }

  /** Two deactivations that both counted the other administrator. */
  lemma TwoDeactivationsLeaveNone(cfg: Config)
    ensures var accounts := [ADMIN, ADMIN.(username := Some([98]))];
            var ops := [Begin(0, Deactivate(0), 0)] + [Begin(1, Deactivate(1), 0)] + [Advance(0, 0)] + [Advance(1, 0)];
            SomeActiveAdmin(accounts) && !SomeActiveAdmin(NetRun(Quiet(accounts), ops, cfg).state.accounts)
  {
    var a, b := ADMIN, ADMIN.(username := Some([98]));
    var accounts := [a, b];
    assert ActiveAdmin(accounts[0]) && ActiveAdmin(accounts[1]);
    assert OtherActiveAdmin(accounts, 0) && OtherActiveAdmin(accounts, 1);
    var o1, o2, o3, o4 := Begin(0, Deactivate(0), 0), Begin(1, Deactivate(1), 0), Advance(0, 0), Advance(1, 0);
    NetRunSnoc(Quiet(accounts), [], o1, cfg);
    NetRunSnoc(Quiet(accounts), [o1], o2, cfg);
    NetRunSnoc(Quiet(accounts), [o1] + [o2], o3, cfg);
    NetRunSnoc(Quiet(accounts), [o1] + [o2] + [o3], o4, cfg);
    assert [] + [o1] == [o1];
    assert NetRun(Quiet(accounts), [], cfg) == Quiet(accounts);
    hide NetRun, OtherActiveAdmin;
    var begun := Net(State(accounts, []), [], map[0 := AccountRead(Deactivate(0)), 1 := AccountRead(Deactivate(1))]);
    assert NetStep(NetStep(Quiet(accounts), o1, cfg), o2, cfg) == begun;
    var half := NetStep(begun, o3, cfg);
    assert half.state.accounts == [Bumped(a.(active := false)), b];
    var done := NetStep(half, o4, cfg);
    assert done.state.accounts == [Bumped(a.(active := false)), Bumped(b.(active := false))];
  }

  /** Two wrong passwords compared at once are counted as one. */
  lemma TwoFailuresCountOnce(cfg: Config)
    ensures var wrong := Login([97], []);
            var ops := [Begin(0, wrong, 0)] + [Begin(1, wrong, 0)] + [Advance(0, 0)] + [Advance(1, 0)];
            var now := NetRun(Quiet([ADMIN]), ops, cfg).state.accounts;
            |now| == 1 && now[0].failedLoginAttempts == 1
  {
    FindsAdmin([ADMIN]);
    var wrong := Login([97], []);
    var o1, o2, o3, o4 := Begin(0, wrong, 0), Begin(1, wrong, 0), Advance(0, 0), Advance(1, 0);
    NetRunSnoc(Quiet([ADMIN]), [], o1, cfg);
    NetRunSnoc(Quiet([ADMIN]), [o1], o2, cfg);
    NetRunSnoc(Quiet([ADMIN]), [o1] + [o2], o3, cfg);
    NetRunSnoc(Quiet([ADMIN]), [o1] + [o2] + [o3], o4, cfg);
    assert [] + [o1] == [o1];
    assert NetRun(Quiet([ADMIN]), [], cfg) == Quiet([ADMIN]);
    hide NetRun, FindUser, Username.Normalize;
    var begun := Net(State([ADMIN], []), [], map[0 := LoginRead(0, ADMIN, []), 1 := LoginRead(0, ADMIN, [])]);
    assert NetStep(NetStep(Quiet([ADMIN]), o1, cfg), o2, cfg) == begun;
  }

  /** One login, and two refreshes of its token that both read it. */
  function BothRead(): seq<NetOp> {
    [Begin(0, Login([97], [112]), 0)] + [Advance(0, 0)] + [Advance(0, 0)]
    + [Begin(1, Refresh(Some(0)), 0)] + [Begin(2, Refresh(Some(0)), 0)]
  }

  const FIRST_TOKEN := TokenRow(0, 0, 0, false, None)

  const SETTINGS := Config(5, 1, 0)

  lemma LoginIssues()
    ensures NetRun(Quiet([ADMIN]), [Begin(0, Login([97], [112]), 0)] + [Advance(0, 0)] + [Advance(0, 0)], SETTINGS)
         == Net(State([ADMIN], [FIRST_TOKEN]), [0], map[0 := Finished])
  {
    FindsAdmin([ADMIN]);
    var o1, o2 := Begin(0, Login([97], [112]), 0), Advance(0, 0);
    NetRunSnoc(Quiet([ADMIN]), [], o1, SETTINGS);
    NetRunSnoc(Quiet([ADMIN]), [o1], o2, SETTINGS);
    NetRunSnoc(Quiet([ADMIN]), [o1] + [o2], o2, SETTINGS);
    assert [] + [o1] == [o1];
    assert NetRun(Quiet([ADMIN]), [], SETTINGS) == Quiet([ADMIN]);
    hide NetRun, FindUser, Username.Normalize;
    assert NetStep(Quiet([ADMIN]), o1, SETTINGS) == Net(State([ADMIN], []), [], map[0 := LoginRead(0, ADMIN, [112])]);
    assert NetStep(Net(State([ADMIN], []), [], map[0 := LoginRead(0, ADMIN, [112])]), o2, SETTINGS)
        == Net(State([ADMIN], []), [], map[0 := LoginCleared(0, ADMIN)]);
  }

  lemma BothReadRuns()
    ensures NetRun(Quiet([ADMIN]), BothRead(), SETTINGS)
         == Net(State([ADMIN], [FIRST_TOKEN]), [0], map[0 := Finished, 1 := RefreshRead(0), 2 := RefreshRead(0)])
  {
    var login := [Begin(0, Login([97], [112]), 0)] + [Advance(0, 0)] + [Advance(0, 0)];
    LoginIssues();
    NetRunSnoc(Quiet([ADMIN]), login, Begin(1, Refresh(Some(0)), 0), SETTINGS);
    NetRunSnoc(Quiet([ADMIN]), login + [Begin(1, Refresh(Some(0)), 0)], Begin(2, Refresh(Some(0)), 0), SETTINGS);
    hide NetRun;
  }

  /** Three steps of a refresh that has read the token of an active account. */
  lemma RefreshGoesThrough(g: Net, call: nat)
    requires call in g.calls && g.calls[call] == RefreshRead(0)
    requires g.state.accounts == [ADMIN] && |g.state.tokens| > 0
    requires g.state.tokens[0].userId == 0 && g.state.tokens[0].authVersion == 0
    ensures var a := Advance(call, 0);
            var after := NetStep(NetStep(NetStep(g, a, SETTINGS), a, SETTINGS), a, SETTINGS);
            && after.calls == g.calls[call := Redeemed(0)] && after.state.accounts == [ADMIN]
            && |after.state.tokens| == |g.state.tokens| + 1
            && after.state.tokens[0] == g.state.tokens[0].(revoked := true, replacedBy := Some(|g.state.tokens|))
  {
  }

  function RefreshTwice(): seq<NetOp> {
    BothRead() + [Advance(1, 0)] + [Advance(1, 0)] + [Advance(1, 0)] + [Advance(2, 0)] + [Advance(2, 0)] + [Advance(2, 0)]
  }

  /** Both exchange it. */
  lemma TwoRefreshesRedeemOneToken()
    ensures var g := NetRun(Quiet([ADMIN]), RefreshTwice(), SETTINGS);
            HasRedeemed(g, 1, 0) && HasRedeemed(g, 2, 0) && |g.state.tokens| == 3
  {
    var a, b, ops := Advance(1, 0), Advance(2, 0), BothRead();
    BothReadRuns();
    NetRunSnoc(Quiet([ADMIN]), ops, a, SETTINGS);
    NetRunSnoc(Quiet([ADMIN]), ops + [a], a, SETTINGS);
    NetRunSnoc(Quiet([ADMIN]), ops + [a] + [a], a, SETTINGS);
    NetRunSnoc(Quiet([ADMIN]), ops + [a] + [a] + [a], b, SETTINGS);
    NetRunSnoc(Quiet([ADMIN]), ops + [a] + [a] + [a] + [b], b, SETTINGS);
    NetRunSnoc(Quiet([ADMIN]), ops + [a] + [a] + [a] + [b] + [b], b, SETTINGS);
    hide NetRun, NetStep, BothRead;
    RefreshGoesThrough(NetRun(Quiet([ADMIN]), ops, SETTINGS), 1);
    RefreshGoesThrough(NetRun(Quiet([ADMIN]), ops + [a] + [a] + [a], SETTINGS), 2);
  }
}
