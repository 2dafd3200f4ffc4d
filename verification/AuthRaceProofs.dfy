/** What holds however sign-ins, refreshes and account changes interleave. */
module AuthRaceProofs {
  import opened JsText
  import opened Wrappers
  import opened Auth
  import opened AuthRaces
  import Username

  // -------------------------------------------------------- one step onwards

  predicate SameSnapshot(p: Phase, q: Phase) {
    HasSnapshot(p) && HasSnapshot(q) && q.userId == p.userId && q.snapshot == p.snapshot
  }

  predicate TablesFollow(g: Net, after: Net) {
    && |after.state.accounts| == |g.state.accounts|
    && |g.state.tokens| == |g.issuers| <= |after.issuers| == |after.state.tokens|
    && (forall u :: 0 <= u < |g.state.accounts| ==> after.state.accounts[u].authVersion >= g.state.accounts[u].authVersion)
    && (forall t :: 0 <= t < |g.state.tokens| ==>
          && after.state.tokens[t].userId == g.state.tokens[t].userId
          && after.state.tokens[t].authVersion == g.state.tokens[t].authVersion
          && after.issuers[t] == g.issuers[t])
  }

  /** A call keeps its copy of the user until it issues, and issues once. */
  ghost predicate CallsFollow(g: Net, after: Net) {
    forall c :: c in g.calls ==>
      && c in after.calls
      && (PastIssue(g.calls[c]) ==> PastIssue(after.calls[c]))
      && (HasSnapshot(g.calls[c]) ==> SameSnapshot(g.calls[c], after.calls[c]) || PastIssue(after.calls[c]))
  }

  /** New tokens carry the stamp of the copy their call was holding. */
  ghost predicate IssuesFollow(g: Net, after: Net)
    requires |g.issuers| <= |after.issuers| == |after.state.tokens|
  {
    forall t :: |g.issuers| <= t < |after.issuers| ==>
      var c := after.issuers[t];
      && c in g.calls && HasSnapshot(g.calls[c])
      && after.state.tokens[t].userId == g.calls[c].userId
      && after.state.tokens[t].authVersion == g.calls[c].snapshot.authVersion
  }

  ghost predicate Follows(g: Net, after: Net) {
    TablesFollow(g, after) && CallsFollow(g, after) && IssuesFollow(g, after)
  }

  /** A write that issues nothing: stamps only grow, tokens are only revoked. */
  predicate Touches(s: State, after: State) {
    && |after.accounts| == |s.accounts| && |after.tokens| == |s.tokens|
    && (forall u :: 0 <= u < |s.accounts| ==> after.accounts[u].authVersion >= s.accounts[u].authVersion)
    && (forall t :: 0 <= t < |s.tokens| ==>
          && after.tokens[t].userId == s.tokens[t].userId && after.tokens[t].authVersion == s.tokens[t].authVersion
          && after.tokens[t].replacedBy == s.tokens[t].replacedBy && (s.tokens[t].revoked ==> after.tokens[t].revoked))
  }

  lemma WritesTouch(s: State)
    ensures Touches(s, s)
    ensures forall u :: Touches(s, RevokeAll(s, u))
    ensures forall t :: 0 <= t < |s.tokens| ==> Touches(s, RevokeOne(s, t))
    ensures forall u: nat, a: Account ::
      0 <= u < |s.accounts| && a.authVersion >= s.accounts[u].authVersion ==> Touches(s, SetAccount(s, u, a))
  {
  }

  lemma TouchTwice(s: State, u: nat, a: Account)
    requires u < |s.accounts| && a.authVersion >= s.accounts[u].authVersion
    ensures Touches(s, RevokeAll(SetAccount(s, u, a), u))
  {
  }

  predicate MayBecome(p: Phase, q: Phase) {
    && (PastIssue(p) ==> PastIssue(q))
    && (HasSnapshot(p) ==> SameSnapshot(p, q) || PastIssue(q))
  }

  lemma MoveFollows(g: Net, s: State, call: nat, next: Phase)
    requires |g.issuers| == |g.state.tokens|
    requires Touches(g.state, s) || exists t, n :: 0 <= t < |g.state.tokens| && s == Replaced(g.state, t, n)
    requires call in g.calls ==> MayBecome(g.calls[call], next)
    ensures Follows(g, Net(s, g.issuers, g.calls[call := next]))
  {
  }

  lemma IssueFollows(g: Net, call: nat, now: int, cfg: Config, next: Phase)
    requires |g.issuers| == |g.state.tokens| && call in g.calls && HasSnapshot(g.calls[call]) && PastIssue(next)
    ensures Follows(g, IssueBy(g, call, g.calls[call].userId, g.calls[call].snapshot, now, cfg, next))
  {
  }

  /** Every step of a call: the tables it writes and the phase it moves to. */
  lemma MoveSound(g: Net, s: State, call: nat, next: Phase)
    requires NetSound(g) && Touches(g.state, s) && PhaseSound(s, g.issuers, call, next)
    requires call in g.calls ==> (PastIssue(g.calls[call]) ==> next == g.calls[call])
    ensures NetSound(Net(s, g.issuers, g.calls[call := next]))
  {
    var calls := g.calls[call := next];
    forall c | c in calls ensures PhaseSound(s, g.issuers, c, calls[c]) {
      if c != call { assert PhaseSound(g.state, g.issuers, c, g.calls[c]); }
    }
    hide PhaseSound;
  }

  lemma IssuePhases(g: Net, call: nat, now: int, cfg: Config, next: Phase)
    requires NetSound(g) && call in g.calls && HasSnapshot(g.calls[call])
    requires next == if g.calls[call].RefreshLoaded? then RefreshIssued(g.calls[call].token, |g.state.tokens|) else Finished
    ensures var after := IssueBy(g, call, g.calls[call].userId, g.calls[call].snapshot, now, cfg, next);
            forall c :: c in after.calls ==> PhaseSound(after.state, after.issuers, c, after.calls[c])
  {
    var after := IssueBy(g, call, g.calls[call].userId, g.calls[call].snapshot, now, cfg, next);
    assert PhaseSound(g.state, g.issuers, call, g.calls[call]);
    assert |g.issuers| == |g.state.tokens|;
    hide RowsSound;
    forall c | c in after.calls ensures PhaseSound(after.state, after.issuers, c, after.calls[c]) {
      if c != call { assert PhaseSound(g.state, g.issuers, c, g.calls[c]); }
    }
  }

  lemma IssueRows(s: State, issuers: seq<nat>, calls: map<nat, Phase>, call: nat, row: TokenRow, next: Phase)
    requires RowsSound(s, issuers, calls) && call in calls && !PastIssue(calls[call]) && PastIssue(next)
    requires row.userId < |s.accounts| && row.authVersion <= s.accounts[row.userId].authVersion && row.replacedBy.None?
    ensures RowsSound(s.(tokens := s.tokens + [row]), issuers + [call], calls[call := next])
  {
    hide PastIssue;
  }

  lemma IssueSound(g: Net, call: nat, now: int, cfg: Config, next: Phase)
    requires NetSound(g) && call in g.calls && HasSnapshot(g.calls[call])
    requires next == if g.calls[call].RefreshLoaded? then RefreshIssued(g.calls[call].token, |g.state.tokens|) else Finished
    ensures NetSound(IssueBy(g, call, g.calls[call].userId, g.calls[call].snapshot, now, cfg, next))
  {
    var p := g.calls[call];
    assert PhaseSound(g.state, g.issuers, call, p);
    IssuePhases(g, call, now, cfg, next);
    var row := TokenRow(p.userId, p.snapshot.authVersion, now + cfg.refreshTtlMs, false, None);
    IssueRows(g.state, g.issuers, g.calls, call, row, next);
    hide PhaseSound, RowsSound;
  }

  lemma LinkSound(g: Net, call: nat)
    requires NetSound(g) && call in g.calls && g.calls[call].RefreshIssued? && g.calls[call].token < |g.state.tokens|
    ensures var p := g.calls[call];
            NetSound(Net(Replaced(g.state, p.token, p.successor), g.issuers, g.calls[call := Redeemed(p.token)]))
  {
    var p := g.calls[call];
    var after := Net(Replaced(g.state, p.token, p.successor), g.issuers, g.calls[call := Redeemed(p.token)]);
    assert PhaseSound(g.state, g.issuers, call, p);
    forall c | c in after.calls ensures PhaseSound(after.state, after.issuers, c, after.calls[c]) {
      if c != call { assert PhaseSound(g.state, g.issuers, c, g.calls[c]); }
    }
    hide PhaseSound;
  }

  lemma BeginKeeps(g: Net, call: nat, op: Op, now: int)
    requires NetSound(g)
    ensures Follows(g, BeginStep(g, call, op, now)) && NetSound(BeginStep(g, call, op, now))
  {
    if call in g.calls {
      NothingFollows(g);
    } else {
      var next := FirstPhase(g.state, op, now);
      var s := if op.Logout? then LogoutStep(g.state, op.token).0 else g.state;
      WritesTouch(g.state);
      FirstPhaseSound(g.state, op, now, g.issuers, call, s);
      hide FirstPhase, Touches, NetSound, PhaseSound, Follows;
      assert |g.issuers| == |g.state.tokens| by { RowsLength(g); }
      MoveFollows(g, s, call, next);
      MoveSound(g, s, call, next);
    }
  }

  lemma RowsLength(g: Net)
    requires NetSound(g)
    ensures |g.issuers| == |g.state.tokens|
  {
  }

  lemma NothingFollows(g: Net)
    requires NetSound(g)
    ensures Follows(g, g)
  {
  }

  lemma FirstPhaseSound(s: State, op: Op, now: int, issuers: seq<nat>, call: nat, after: State)
    requires after == s || op.Logout?
    ensures PhaseSound(after, issuers, call, FirstPhase(s, op, now))
  {
    hide FindUser, Username.Normalize, AccountStep;
  }

  lemma AdvanceKeeps(g: Net, call: nat, now: int, cfg: Config)
    requires NetSound(g)
    ensures Follows(g, AdvanceStep(g, call, now, cfg)) && NetSound(AdvanceStep(g, call, now, cfg))
  {
    var after := AdvanceStep(g, call, now, cfg);
    RowsLength(g);
    NothingFollows(g);
    if call in g.calls && after != g {
      var s, p := g.state, g.calls[call];
      assert PhaseSound(s, g.issuers, call, p);
      WritesTouch(s);
      if p.LoginCleared? || p.PasswordReloaded? {
        IssueFollows(g, call, now, cfg, Finished);
        IssueSound(g, call, now, cfg, Finished);
      } else if p.RefreshLoaded? {
        IssueFollows(g, call, now, cfg, RefreshIssued(p.token, |s.tokens|));
        IssueSound(g, call, now, cfg, RefreshIssued(p.token, |s.tokens|));
      } else if p.RefreshIssued? {
        MoveFollows(g, Replaced(s, p.token, p.successor), call, Redeemed(p.token));
        LinkSound(g, call);
      } else {
        hide AdvanceStep, Follows, NetSound, PhaseSound, Touches;
        MovesOtherwise(g, call, now, cfg);
        MoveFollows(g, after.state, call, after.calls[call]);
        MoveSound(g, after.state, call, after.calls[call]);
      }
    }
  }

  lemma MovesOtherwise(g: Net, call: nat, now: int, cfg: Config)
    requires call in g.calls && PhaseSound(g.state, g.issuers, call, g.calls[call])
    requires !g.calls[call].LoginCleared? && !g.calls[call].PasswordReloaded?
    requires !g.calls[call].RefreshLoaded? && !g.calls[call].RefreshIssued?
    ensures var after := AdvanceStep(g, call, now, cfg);
            && call in after.calls && after == Net(after.state, g.issuers, g.calls[call := after.calls[call]])
            && Touches(g.state, after.state)
            && PhaseSound(after.state, g.issuers, call, after.calls[call])
            && MayBecome(g.calls[call], after.calls[call])
            && (PastIssue(g.calls[call]) ==> after.calls[call] == g.calls[call])
  {
    var s, p := g.state, g.calls[call];
    WritesTouch(s);
    if p.AccountRead? && p.op.AssignRoles? && p.op.userId < |s.accounts| {
      TouchTwice(s, p.op.userId, AccountWrite(s.accounts[p.op.userId], p.op));
    }
    assert g.calls[call := p] == g.calls;
    hide Touches;
  }

  lemma StepKeeps(g: Net, o: NetOp, cfg: Config)
    requires NetSound(g)
    ensures Follows(g, NetStep(g, o, cfg)) && NetSound(NetStep(g, o, cfg))
  {
    hide Follows, NetSound;
    match o
    case Begin(call, op, now) => BeginKeeps(g, call, op, now);
    case Advance(call, now) => AdvanceKeeps(g, call, now, cfg);
  }

  lemma QuietSound(accounts: seq<Account>)
    ensures NetSound(Quiet(accounts))
  {
  }

  /** In every interleaving every token has its own issuing call, links to
      successors go strictly forward and stay with the user, and no token is
      stamped ahead of its account. */
  lemma {:induction false} EveryInterleavingIsSound(accounts: seq<Account>, ops: seq<NetOp>, cfg: Config)
    ensures NetSound(NetRun(Quiet(accounts), ops, cfg))
  {
    hide NetSound, Follows, NetStep;
    QuietSound(accounts);
    if ops != [] {
      EveryInterleavingIsSound(accounts, ops[..|ops| - 1], cfg);
      StepKeeps(NetRun(Quiet(accounts), ops[..|ops| - 1], cfg), ops[|ops| - 1], cfg);
    }
  }

  /** So two tokens never have the same successor. */
  lemma SuccessorsAreNeverShared(accounts: seq<Account>, ops: seq<NetOp>, cfg: Config, t: nat, r: nat)
    requires t < |NetRun(Quiet(accounts), ops, cfg).state.tokens| && r < |NetRun(Quiet(accounts), ops, cfg).state.tokens|
    requires var tokens := NetRun(Quiet(accounts), ops, cfg).state.tokens;
             tokens[t].replacedBy.Some? && tokens[t].replacedBy == tokens[r].replacedBy
    ensures t == r && t < NetRun(Quiet(accounts), ops, cfg).state.tokens[t].replacedBy.value
  {
    hide NetRun, PhaseSound;
    EveryInterleavingIsSound(accounts, ops, cfg);
  }

  // ------------------------------------------------------------ stale tokens

  /** A token's snapshot was taken by the time of `before`: it is there already,
      or the call that issued it held its copy of the user. */
  ghost predicate TakenBy(before: Net, now: Net, t: nat) {
    && t < |now.issuers|
    && (t < |before.issuers| || (now.issuers[t] in before.calls && HasSnapshot(before.calls[now.issuers[t]])))
  }

  /** The stamp of that snapshot. */
  ghost function StampAt(before: Net, now: Net, t: nat): nat
    requires TakenBy(before, now, t) && |before.issuers| == |before.state.tokens|
  {
    if t < |before.issuers| then before.state.tokens[t].authVersion else before.calls[now.issuers[t]].snapshot.authVersion
  }

  ghost predicate Traced(before: Net, now: Net) {
    && TablesFollow(before, now)
    && CallsFollow(before, now)
    && (forall t :: |before.issuers| <= t < |now.issuers| && TakenBy(before, now, t) ==>
          && now.state.tokens[t].userId == before.calls[now.issuers[t]].userId
          && now.state.tokens[t].authVersion == StampAt(before, now, t))
    && (forall t :: |before.issuers| <= t < |now.issuers| ==>
          now.issuers[t] in before.calls ==> !PastIssue(before.calls[now.issuers[t]]))
  }

  lemma TraceStep(before: Net, mid: Net, now: Net)
    requires Traced(before, mid) && Follows(mid, now)
    ensures Traced(before, now)
  {
    TraceTables(before, mid, now);
    TraceCalls(before, mid, now);
    forall t | |before.issuers| <= t < |now.issuers| && now.issuers[t] in before.calls
      ensures !PastIssue(before.calls[now.issuers[t]])
      ensures HasSnapshot(before.calls[now.issuers[t]]) ==>
        && now.state.tokens[t].userId == before.calls[now.issuers[t]].userId
        && now.state.tokens[t].authVersion == before.calls[now.issuers[t]].snapshot.authVersion
    {
      if t < |mid.issuers| { assert now.issuers[t] == mid.issuers[t]; }
    }
  }

  lemma TraceTables(before: Net, mid: Net, now: Net)
    requires TablesFollow(before, mid) && TablesFollow(mid, now)
    ensures TablesFollow(before, now)
  {
  }

  lemma TraceCalls(before: Net, mid: Net, now: Net)
    requires CallsFollow(before, mid) && CallsFollow(mid, now)
    ensures CallsFollow(before, now)
  {
  }

  lemma {:induction false} TraceRun(before: Net, more: seq<NetOp>, cfg: Config)
    requires NetSound(before)
    ensures NetSound(NetRun(before, more, cfg)) && Traced(before, NetRun(before, more, cfg))
  {
    hide NetSound, Follows, NetStep;
    if more == [] {
      TraceNothing(before);
    } else {
      var mid := NetRun(before, more[..|more| - 1], cfg);
      TraceRun(before, more[..|more| - 1], cfg);
      StepKeeps(mid, more[|more| - 1], cfg);
      TraceStep(before, mid, NetRun(before, more, cfg));
    }
  }

  lemma TraceNothing(g: Net)
    requires NetSound(g)
    ensures Traced(g, g)
  {
  }

  lemma {:induction false} NetRunSplit(g: Net, ops: seq<NetOp>, more: seq<NetOp>, cfg: Config)
    ensures NetRun(g, ops + more, cfg) == NetRun(NetRun(g, ops, cfg), more, cfg)
  {
    hide NetStep;
    if more == [] {
      assert ops + more == ops;
    } else {
      var all := ops + more;
      assert all[..|all| - 1] == ops + more[..|more| - 1] && all[|all| - 1] == more[|more| - 1];
      NetRunSplit(g, ops, more[..|more| - 1], cfg);
    }
  }

  /** Whatever interleaves: a token whose snapshot was taken before its user's
      stamp moved on is refused ever after, by the guard and by refresh. */
  lemma StaleTokensStayDead(accounts: seq<Account>, ops: seq<NetOp>, more: seq<NetOp>, cfg: Config, t: nat, clock: int)
    requires TakenBy(NetRun(Quiet(accounts), ops, cfg), NetRun(Quiet(accounts), ops + more, cfg), t)
    ensures var before, now := NetRun(Quiet(accounts), ops, cfg), NetRun(Quiet(accounts), ops + more, cfg);
            && t < |now.state.tokens|
            && var u := now.state.tokens[t].userId;
               && u < |before.state.accounts| == |now.state.accounts|
               && (now.state.accounts[u].authVersion != before.state.accounts[u].authVersion ==>
                     !GuardAccepts(now.state, t) && !RefreshAccepts(now.state, t, clock))
  {
    EveryInterleavingIsSound(accounts, ops, cfg);
    NetRunSplit(Quiet(accounts), ops, more, cfg);
    TraceRun(NetRun(Quiet(accounts), ops, cfg), more, cfg);
    hide NetRun;
    StaleFromTrace(NetRun(Quiet(accounts), ops, cfg), NetRun(Quiet(accounts), ops + more, cfg), t, clock);
  }

  lemma StaleFromTrace(before: Net, now: Net, t: nat, clock: int)
    requires NetSound(before) && NetSound(now) && Traced(before, now) && TakenBy(before, now, t)
    ensures t < |now.state.tokens|
    ensures var u := now.state.tokens[t].userId;
            && u < |before.state.accounts| == |now.state.accounts|
            && (now.state.accounts[u].authVersion != before.state.accounts[u].authVersion ==>
                  !GuardAccepts(now.state, t) && !RefreshAccepts(now.state, t, clock))
  {
    if t >= |before.issuers| {
      var c := now.issuers[t];
      assert PhaseSound(before.state, before.issuers, c, before.calls[c]);
    }
    hide Unusable;
  }

  /** ... and one whose snapshot was current then is accepted exactly while the
      stamp has not moved and the account is active. */
  lemma AcceptedExactlyUntilTheStampMoves(accounts: seq<Account>, ops: seq<NetOp>, more: seq<NetOp>, cfg: Config, t: nat)
    requires TakenBy(NetRun(Quiet(accounts), ops, cfg), NetRun(Quiet(accounts), ops + more, cfg), t)
    ensures var before, now := NetRun(Quiet(accounts), ops, cfg), NetRun(Quiet(accounts), ops + more, cfg);
            && t < |now.state.tokens| && |before.issuers| == |before.state.tokens|
            && var u := now.state.tokens[t].userId;
               && u < |before.state.accounts| == |now.state.accounts|
               && (StampAt(before, now, t) == before.state.accounts[u].authVersion ==>
                     (GuardAccepts(now.state, t) <==>
                        now.state.accounts[u].active && now.state.accounts[u].authVersion == before.state.accounts[u].authVersion))
  {
    EveryInterleavingIsSound(accounts, ops, cfg);
    NetRunSplit(Quiet(accounts), ops, more, cfg);
    TraceRun(NetRun(Quiet(accounts), ops, cfg), more, cfg);
    hide NetRun, PhaseSound;
  }

  /** The one write of a call that moves the stamp of user u. */
  predicate MovesStamp(g: Net, o: NetOp, u: nat) {
    && o.Advance? && o.call in g.calls
    && var p := g.calls[o.call];
       || (p.PasswordRead? && p.userId == u)
       || (p.AccountRead? && (p.op.Activate? || p.op.Deactivate? || p.op.AssignRoles? || p.op.ResetPassword?) && p.op.userId == u)
  }

  /** Stamps move by one at the writes of password and account changes, and
      nowhere else. */
  lemma StampsMoveByOne(g: Net, o: NetOp, cfg: Config, u: nat)
    requires u < |g.state.accounts|
    ensures var after := NetStep(g, o, cfg);
            u < |after.state.accounts|
            && after.state.accounts[u].authVersion == g.state.accounts[u].authVersion + (if MovesStamp(g, o, u) then 1 else 0)
  {
    hide FirstPhase;
  }

  // ------------------------------------------------- the steps make the calls

  function AdvanceTimes(g: Net, call: nat, now: int, cfg: Config, n: nat): Net {
    if n == 0 then g else AdvanceStep(AdvanceTimes(g, call, now, cfg, n - 1), call, now, cfg)
  }

  lemma FourAdvances(g: Net, call: nat, now: int, cfg: Config)
    ensures AdvanceTimes(g, call, now, cfg, 4)
         == AdvanceStep(AdvanceStep(AdvanceStep(AdvanceStep(g, call, now, cfg), call, now, cfg), call, now, cfg), call, now, cfg)
  {
    hide AdvanceStep;
    assert AdvanceTimes(g, call, now, cfg, 1) == AdvanceStep(g, call, now, cfg);
    assert AdvanceTimes(g, call, now, cfg, 2) == AdvanceStep(AdvanceTimes(g, call, now, cfg, 1), call, now, cfg);
    assert AdvanceTimes(g, call, now, cfg, 3) == AdvanceStep(AdvanceTimes(g, call, now, cfg, 2), call, now, cfg);
  }

  lemma LoginSteps(g: Net, call: nat, op: Op, now: int, cfg: Config)
    requires call !in g.calls && op.Login?
    ensures AdvanceTimes(BeginStep(g, call, op, now), call, now, cfg, 4).state == Step(g.state, Call(op, now), cfg).0
  {
    hide FindUser, Username.Normalize;
    FourAdvances(BeginStep(g, call, op, now), call, now, cfg);
    hide AdvanceTimes;
  }

  lemma RefreshSteps(g: Net, call: nat, op: Op, now: int, cfg: Config)
    requires call !in g.calls && op.Refresh?
    ensures AdvanceTimes(BeginStep(g, call, op, now), call, now, cfg, 4).state == Step(g.state, Call(op, now), cfg).0
  {
    FourAdvances(BeginStep(g, call, op, now), call, now, cfg);
    hide AdvanceTimes;
  }

  lemma ChangeSteps(g: Net, call: nat, op: Op, now: int, cfg: Config)
    requires call !in g.calls && (op.ChangePassword? || op.Logout?)
    ensures AdvanceTimes(BeginStep(g, call, op, now), call, now, cfg, 4).state == Step(g.state, Call(op, now), cfg).0
  {
    FourAdvances(BeginStep(g, call, op, now), call, now, cfg);
    hide AdvanceTimes;
  }

  lemma AccountSteps(g: Net, call: nat, op: Op, now: int, cfg: Config)
    requires call !in g.calls && (op.Activate? || op.Deactivate? || op.AssignRoles? || op.ResetPassword?)
    ensures AdvanceTimes(BeginStep(g, call, op, now), call, now, cfg, 4).state == Step(g.state, Call(op, now), cfg).0
  {
    hide RevokeAll, OtherActiveAdmin, ActiveAdmin;
    FourAdvances(BeginStep(g, call, op, now), call, now, cfg);
    hide AdvanceTimes;
  }

  /** A call that nothing interrupts does to the tables what the whole call does. */
  lemma UninterruptedCallIsAtomic(g: Net, call: nat, op: Op, now: int, cfg: Config)
    requires call !in g.calls
    ensures AdvanceTimes(BeginStep(g, call, op, now), call, now, cfg, 4).state == Step(g.state, Call(op, now), cfg).0
  {
    hide AdvanceTimes, BeginStep, Step;
    match op
    case Login(_, _) => LoginSteps(g, call, op, now, cfg);
    case Refresh(_) => RefreshSteps(g, call, op, now, cfg);
    case Logout(_) => ChangeSteps(g, call, op, now, cfg);
    case ChangePassword(_, _, _) => ChangeSteps(g, call, op, now, cfg);
    case _ => AccountSteps(g, call, op, now, cfg);
  }
}
