/** What every run of whole sign-in, refresh and account calls keeps. */
module AuthProofs {
  import opened JsText
  import opened Wrappers
  import opened Auth
  import Username

  // --------------------------------------------------------------- rotation

  /** Links from a token to its successor go forward, stay with the user and
      are never shared; no token is stamped ahead of its account. */
  predicate SoundTokens(s: State) {
    && (forall t :: 0 <= t < |s.tokens| ==>
          && s.tokens[t].userId < |s.accounts|
          && s.tokens[t].authVersion <= s.accounts[s.tokens[t].userId].authVersion)
    && (forall t :: 0 <= t < |s.tokens| && s.tokens[t].replacedBy.Some? ==>
          && t < s.tokens[t].replacedBy.value < |s.tokens|
          && s.tokens[t].revoked
          && s.tokens[s.tokens[t].replacedBy.value].userId == s.tokens[t].userId)
    && (forall t, r :: 0 <= t < r < |s.tokens| && s.tokens[t].replacedBy.Some? ==> s.tokens[t].replacedBy != s.tokens[r].replacedBy)
  }

  lemma SetKeepsTokens(s: State, u: nat, a: Account)
    requires SoundTokens(s) && u < |s.accounts| && a.authVersion >= s.accounts[u].authVersion
    ensures SoundTokens(SetAccount(s, u, a))
  {
  }

  lemma RevokeKeepsTokens(s: State, u: nat)
    requires SoundTokens(s)
    ensures SoundTokens(RevokeAll(s, u))
  {
    var after := RevokeAll(s, u);
    assert |after.tokens| == |s.tokens| && after.accounts == s.accounts;
    assert forall t :: 0 <= t < |s.tokens| ==>
      after.tokens[t] == s.tokens[t] || after.tokens[t] == s.tokens[t].(revoked := true);
    hide RevokeAll, RevokedRow;
  }

  lemma RevokeOneKeepsTokens(s: State, t: nat)
    requires SoundTokens(s) && t < |s.tokens|
    ensures SoundTokens(RevokeOne(s, t))
  {
  }

  lemma IssueKeepsTokens(s: State, u: nat, a: Account, now: int, cfg: Config)
    requires SoundTokens(s) && u < |s.accounts| && a.authVersion <= s.accounts[u].authVersion
    ensures SoundTokens(Issue(s, u, a, now, cfg))
  {
  }

  /** Linking to the newest token, which nothing links to yet. */
  lemma ReplaceKeepsTokens(s: State, t: nat)
    requires SoundTokens(s) && t + 1 < |s.tokens| && s.tokens[t].userId == s.tokens[|s.tokens| - 1].userId
    requires forall r :: 0 <= r < |s.tokens| ==> s.tokens[r].replacedBy != Some(|s.tokens| - 1)
    requires s.tokens[|s.tokens| - 1].replacedBy.None?
    ensures SoundTokens(Replaced(s, t, |s.tokens| - 1))
  {
  }

  lemma StepKeepsTokens(s: State, c: Call, cfg: Config)
    requires SoundTokens(s)
    ensures SoundTokens(Step(s, c, cfg).0)
  {
    hide SoundTokens;
    match c.op
    case Login(username, password) => LoginKeepsTokens(s, username, password, c.now, cfg);
    case Refresh(token) => RefreshKeepsTokens(s, token, c.now, cfg);
    case Logout(token) => if token.Some? && token.value < |s.tokens| { RevokeOneKeepsTokens(s, token.value); }
    case ChangePassword(u, current, replacement) => ChangeKeepsTokens(s, u, current, replacement, c.now, cfg);
    case _ => AccountKeepsTokens(s, c.op);
  }

  lemma LoginKeepsTokens(s: State, username: Str, password: Str, now: int, cfg: Config)
    requires SoundTokens(s)
    ensures SoundTokens(LoginStep(s, username, password, now, cfg).0)
  {
    hide SoundTokens, Username.Normalize;
    var u := FindUser(s.accounts, Username.Normalize(username));
    if u < |s.accounts| {
      var a := s.accounts[u];
      SetKeepsTokens(s, u, Failed(a, now, cfg));
      SetKeepsTokens(s, u, Cleared(a));
      IssueKeepsTokens(SetAccount(s, u, Cleared(a)), u, a, now, cfg);
    }
  }

  lemma RefreshKeepsTokens(s: State, token: Option<nat>, now: int, cfg: Config)
    requires SoundTokens(s)
    ensures SoundTokens(RefreshStep(s, token, now, cfg).0)
  {
    if !Unusable(s, token, now) {
      var t := token.value;
      var u := s.tokens[t].userId;
      RevokeOneKeepsTokens(s, t);
      var issued := Issue(s, u, s.accounts[u], now, cfg);
      IssueKeepsTokens(s, u, s.accounts[u], now, cfg);
      assert forall r :: 0 <= r < |s.tokens| ==> issued.tokens[r] == s.tokens[r];
      ReplaceKeepsTokens(issued, t);
      hide SoundTokens;
    }
  }

  lemma ChangeKeepsTokens(s: State, u: nat, current: Str, replacement: Str, now: int, cfg: Config)
    requires SoundTokens(s)
    ensures SoundTokens(ChangeStep(s, u, current, replacement, now, cfg).0)
  {
    if PasswordGuard(s, u, current, replacement).None? {
      var changed := WithPassword(s.accounts[u], replacement, false);
      SetKeepsTokens(s, u, changed);
      RevokeKeepsTokens(SetAccount(s, u, changed), u);
      IssueKeepsTokens(RevokeAll(SetAccount(s, u, changed), u), u, changed, now, cfg);
      hide SoundTokens;
    }
  }

  lemma AccountKeepsTokens(s: State, op: Op)
    requires SoundTokens(s) && (op.Activate? || op.Deactivate? || op.AssignRoles? || op.ResetPassword?)
    ensures SoundTokens(AccountStep(s, op).0)
  {
    hide SoundTokens, RevokeAll, OtherActiveAdmin, ActiveAdmin;
    forall x, u | SoundTokens(x) ensures SoundTokens(RevokeAll(x, u)) { RevokeKeepsTokens(x, u); }
    forall u: nat, a: Account | u < |s.accounts| && a.authVersion >= s.accounts[u].authVersion
      ensures SoundTokens(SetAccount(s, u, a))
    {
      SetKeepsTokens(s, u, a);
    }
  }

  /** How one call may change the tables: tokens are only added and revoked,
      stamps only grow. */
  predicate Follows(s: State, after: State) {
    && |after.accounts| == |s.accounts| && |s.tokens| <= |after.tokens|
    && (forall u :: 0 <= u < |s.accounts| ==> after.accounts[u].authVersion >= s.accounts[u].authVersion)
    && (forall t :: 0 <= t < |s.tokens| ==>
          && after.tokens[t].userId == s.tokens[t].userId && after.tokens[t].authVersion == s.tokens[t].authVersion
          && after.tokens[t].expiresAt == s.tokens[t].expiresAt
          && (s.tokens[t].revoked ==> after.tokens[t] == s.tokens[t]))
  }

  lemma FollowsTransitive(s: State, x: State, after: State)
    requires Follows(s, x) && Follows(x, after)
    ensures Follows(s, after)
  {
  }

  lemma UpdatesFollow(s: State, u: nat, a: Account, now: int, cfg: Config)
    ensures Follows(s, s) && Follows(s, RevokeAll(s, u)) && Follows(s, Issue(s, u, a, now, cfg))
    ensures u < |s.accounts| && a.authVersion >= s.accounts[u].authVersion ==> Follows(s, SetAccount(s, u, a))
  {
  }

  lemma TokenUpdatesFollow(s: State, t: nat, r: nat)
    requires t < |s.tokens| && !s.tokens[t].revoked
    ensures Follows(s, RevokeOne(s, t)) && Follows(s, Replaced(s, t, r))
  {
  }

  lemma StepFollows(s: State, c: Call, cfg: Config)
    ensures Follows(s, Step(s, c, cfg).0)
  {
    match c.op
    case Login(username, password) => LoginFollows(s, username, password, c.now, cfg);
    case Refresh(token) => RefreshFollows(s, token, c.now, cfg);
    case Logout(token) =>
      UpdatesFollow(s, 0, DUMMY, c.now, cfg);
      if token.Some? && token.value < |s.tokens| && !s.tokens[token.value].revoked { TokenUpdatesFollow(s, token.value, 0); }
    case ChangePassword(u, current, replacement) => ChangeFollows(s, u, current, replacement, c.now, cfg);
    case _ => AccountFollows(s, c.op);
  }

  lemma LoginFollows(s: State, username: Str, password: Str, now: int, cfg: Config)
    ensures Follows(s, LoginStep(s, username, password, now, cfg).0)
  {
    var u := FindUser(s.accounts, Username.Normalize(username));
    hide Follows, Username.Normalize, FindUser;
    if u < |s.accounts| {
      var a := s.accounts[u];
      UpdatesFollow(s, u, Failed(a, now, cfg), now, cfg);
      UpdatesFollow(s, u, Cleared(a), now, cfg);
      UpdatesFollow(SetAccount(s, u, Cleared(a)), u, a, now, cfg);
      FollowsTransitive(s, SetAccount(s, u, Cleared(a)), Issue(SetAccount(s, u, Cleared(a)), u, a, now, cfg));
    } else {
      UpdatesFollow(s, 0, DUMMY, now, cfg);
    }
  }

  const DUMMY := Account(None, [], false, {}, false, 0, 0, None)

  lemma RefreshFollows(s: State, token: Option<nat>, now: int, cfg: Config)
    ensures Follows(s, RefreshStep(s, token, now, cfg).0)
  {
    hide Follows;
    UpdatesFollow(s, 0, DUMMY, now, cfg);
    if !Unusable(s, token, now) {
      var t := token.value;
      var u := s.tokens[t].userId;
      var issued := Issue(s, u, s.accounts[u], now, cfg);
      TokenUpdatesFollow(s, t, 0);
      UpdatesFollow(s, u, s.accounts[u], now, cfg);
      TokenUpdatesFollow(issued, t, |s.tokens|);
      FollowsTransitive(s, issued, Replaced(issued, t, |s.tokens|));
    }
  }

  lemma ChangeFollows(s: State, u: nat, current: Str, replacement: Str, now: int, cfg: Config)
    ensures Follows(s, ChangeStep(s, u, current, replacement, now, cfg).0)
  {
    hide Follows, RevokeAll;
    UpdatesFollow(s, 0, DUMMY, now, cfg);
    if PasswordGuard(s, u, current, replacement).None? {
      var changed := WithPassword(s.accounts[u], replacement, false);
      var x := SetAccount(s, u, changed);
      UpdatesFollow(s, u, changed, now, cfg);
      UpdatesFollow(x, u, changed, now, cfg);
      UpdatesFollow(RevokeAll(x, u), u, changed, now, cfg);
      FollowsTransitive(s, x, RevokeAll(x, u));
      FollowsTransitive(s, RevokeAll(x, u), Issue(RevokeAll(x, u), u, changed, now, cfg));
    }
  }

  lemma AccountFollows(s: State, op: Op)
    requires op.Activate? || op.Deactivate? || op.AssignRoles? || op.ResetPassword?
    ensures Follows(s, AccountStep(s, op).0)
  {
    hide Follows, RevokeAll, OtherActiveAdmin, ActiveAdmin;
    UpdatesFollow(s, 0, DUMMY, 0, Config(0, 0, 0));
    if op.userId < |s.accounts| {
      forall a: Account | a.authVersion >= s.accounts[op.userId].authVersion
        ensures Follows(s, RevokeAll(SetAccount(s, op.userId, a), op.userId))
      {
        var x := SetAccount(s, op.userId, a);
        UpdatesFollow(s, op.userId, a, 0, Config(0, 0, 0));
        UpdatesFollow(x, op.userId, a, 0, Config(0, 0, 0));
        FollowsTransitive(s, x, RevokeAll(x, op.userId));
      }
    }
  }

  lemma {:induction false} EveryRunKeepsTokens(s: State, calls: seq<Call>, cfg: Config)
    requires Initial(s)
    ensures SoundTokens(Run(s, calls, cfg)) && |Run(s, calls, cfg).accounts| == |s.accounts|
  {
    hide Step;
    if calls != [] {
      EveryRunKeepsTokens(s, calls[..|calls| - 1], cfg);
      StepKeepsTokens(Run(s, calls[..|calls| - 1], cfg), calls[|calls| - 1], cfg);
      StepFollows(Run(s, calls[..|calls| - 1], cfg), calls[|calls| - 1], cfg);
    }
  }

  // ------------------------------------------------------------ redemptions

  /** How often a token was exchanged for a new pair in a run. */
  function Redemptions(s: State, calls: seq<Call>, cfg: Config, t: nat): nat {
    if calls == [] then 0
    else
      var c := calls[|calls| - 1];
      Redemptions(s, calls[..|calls| - 1], cfg, t)
      + (if c.op == Refresh(Some(t)) && Step(Run(s, calls[..|calls| - 1], cfg), c, cfg).1.SignedIn? then 1 else 0)
  }

  lemma RefreshEffect(s: State, c: Call, cfg: Config, t: nat)
    ensures var (after, outcome) := Step(s, c, cfg);
            var redeemed := c.op == Refresh(Some(t)) && outcome.SignedIn?;
            && (redeemed ==> t < |s.tokens| && !s.tokens[t].revoked)
            && (t < |after.tokens| ==>
                  after.tokens[t].replacedBy ==
                    if redeemed then Some(|s.tokens|) else if t < |s.tokens| then s.tokens[t].replacedBy else None)
  {
    hide FindUser, PasswordGuard, OtherActiveAdmin, ActiveAdmin, Username.Normalize;
    match c.op
    case Login(_, _) =>
    case Refresh(_) =>
    case Logout(_) =>
    case ChangePassword(_, _, _) =>
    case Activate(_) =>
    case Deactivate(_) =>
    case AssignRoles(_, _) =>
    case ResetPassword(_, _) =>
  }

  /** With whole calls a token is redeemed at most once, and the link to its
      successor is set exactly when it was. */
  lemma {:induction false} RedeemedAtMostOnce(s: State, calls: seq<Call>, cfg: Config, t: nat)
    requires Initial(s)
    ensures var tokens := Run(s, calls, cfg).tokens;
            Redemptions(s, calls, cfg, t) == if t < |tokens| && tokens[t].replacedBy.Some? then 1 else 0
  {
    hide Step, Initial;
    if calls == [] {
      assert Initial(s);
      NoTokens(s);
    } else {
      var before, c := Run(s, calls[..|calls| - 1], cfg), calls[|calls| - 1];
      RedeemedAtMostOnce(s, calls[..|calls| - 1], cfg, t);
      EveryRunKeepsTokens(s, calls[..|calls| - 1], cfg);
      RefreshEffect(before, c, cfg, t);
      StepFollows(before, c, cfg);
    }
  }

  lemma NoTokens(s: State)
    requires Initial(s)
    ensures |s.tokens| == 0
  {
  }

  // --------------------------------------------------------------- sessions

  function LiveTo(tokens: seq<TokenRow>, u: nat, n: nat): nat
    requires n <= |tokens|
  {
    if n == 0 then 0 else LiveTo(tokens, u, n - 1) + (if tokens[n - 1].userId == u && !tokens[n - 1].revoked then 1 else 0)
  }

  /** Unrevoked refresh tokens of a user. */
  function Live(s: State, u: nat): nat {
    LiveTo(s.tokens, u, |s.tokens|)
  }

  /** Sessions a user has opened since his sessions were last all revoked:
      one per successful login; a password change revokes all and opens one. */
  function Opened(s: State, calls: seq<Call>, cfg: Config, u: nat): nat {
    if calls == [] then 0
    else
      var before, c := Run(s, calls[..|calls| - 1], cfg), calls[|calls| - 1];
      var earlier := Opened(s, calls[..|calls| - 1], cfg, u);
      var (after, outcome) := Step(before, c, cfg);
      match c.op
      case Login(_, _) =>
        if outcome.SignedIn? && outcome.token < |after.tokens| && after.tokens[outcome.token].userId == u then earlier + 1
        else earlier
      case ChangePassword(w, _, _) => if w == u && outcome.SignedIn? then 1 else earlier
      case Activate(w) => if w == u && outcome.Done? then 0 else earlier
      case Deactivate(w) => if w == u && outcome.Done? then 0 else earlier
      case AssignRoles(w, _) => if w == u && outcome.Done? then 0 else earlier
      case ResetPassword(w, _) => if w == u && outcome.Done? then 0 else earlier
      case Refresh(_) => earlier
      case Logout(_) => earlier
  }

  lemma {:induction false} LiveSame(a: seq<TokenRow>, b: seq<TokenRow>, u: nat, n: nat)
    requires n <= |a| && n <= |b|
    requires forall t :: 0 <= t < n ==> a[t].userId == b[t].userId && (a[t].userId == u ==> a[t].revoked == b[t].revoked)
    ensures LiveTo(a, u, n) == LiveTo(b, u, n)
  {
    if n > 0 { LiveSame(a, b, u, n - 1); }
  }

  lemma {:induction false} LiveAfterRevokeAll(s: State, u: nat, w: nat, n: nat)
    requires n <= |s.tokens|
    ensures LiveTo(RevokeAll(s, u).tokens, w, n) == if w == u then 0 else LiveTo(s.tokens, w, n)
  {
    if n > 0 { LiveAfterRevokeAll(s, u, w, n - 1); }
  }

  /** Revoking one live token takes one off, and nothing else changes. */
  lemma {:induction false} LiveAfterOne(a: seq<TokenRow>, b: seq<TokenRow>, t: nat, u: nat, n: nat)
    requires t < |a| == |b| && n <= |a|
    requires forall i :: 0 <= i < |a| && i != t ==> a[i] == b[i]
    requires a[t].userId == b[t].userId && b[t].revoked
    ensures LiveTo(b, u, n) == LiveTo(a, u, n) - (if t < n && a[t].userId == u && !a[t].revoked then 1 else 0)
  {
    if n > 0 { LiveAfterOne(a, b, t, u, n - 1); }
  }

  lemma LiveAfterIssue(s: State, w: nat, a: Account, now: int, cfg: Config, u: nat)
    ensures Live(Issue(s, w, a, now, cfg), u) == Live(s, u) + (if w == u then 1 else 0)
  {
    var after := Issue(s, w, a, now, cfg);
    LiveSame(s.tokens, after.tokens, u, |s.tokens|);
  }

  lemma LiveStepLogin(s: State, username: Str, password: Str, now: int, cfg: Config, u: nat)
    ensures var (after, outcome) := LoginStep(s, username, password, now, cfg);
            Live(after, u) == Live(s, u)
              + (if outcome.SignedIn? && outcome.token < |after.tokens| && after.tokens[outcome.token].userId == u then 1 else 0)
  {
    hide Live, FindUser;
    forall x, w, a ensures Live(Issue(x, w, a, now, cfg), u) == Live(x, u) + (if w == u then 1 else 0) {
      LiveAfterIssue(x, w, a, now, cfg, u);
    }
    forall x: State, a: Account, w: nat | w < |x.accounts| ensures Live(SetAccount(x, w, a), u) == Live(x, u) {
      SameLive(x, SetAccount(x, w, a), u);
    }
  }

  lemma SameLive(s: State, after: State, u: nat)
    requires after.tokens == s.tokens
    ensures Live(after, u) == Live(s, u)
  {
  }

  lemma LiveStepRefresh(s: State, token: Option<nat>, now: int, cfg: Config, u: nat)
    ensures Live(RefreshStep(s, token, now, cfg).0, u) <= Live(s, u)
  {
    if !Unusable(s, token, now) {
      var t := token.value;
      var w := s.tokens[t].userId;
      var a := s.accounts[w];
      LiveAfterOne(s.tokens, RevokeOne(s, t).tokens, t, u, |s.tokens|);
      LiveAfterIssue(s, w, a, now, cfg, u);
      var issued := Issue(s, w, a, now, cfg);
      LiveAfterOne(issued.tokens, Replaced(issued, t, |s.tokens|).tokens, t, u, |issued.tokens|);
      hide LiveTo;
    }
  }

  lemma LiveStepLogout(s: State, token: Option<nat>, u: nat)
    ensures Live(LogoutStep(s, token).0, u) <= Live(s, u)
  {
    if token.Some? && token.value < |s.tokens| {
      LiveAfterOne(s.tokens, RevokeOne(s, token.value).tokens, token.value, u, |s.tokens|);
    }
  }

  lemma LiveStepAccount(s: State, op: Op, u: nat)
    requires op.Activate? || op.Deactivate? || op.AssignRoles? || op.ResetPassword?
    ensures var (after, outcome) := AccountStep(s, op);
            Live(after, u) == if op.userId == u && outcome.Done? then 0 else Live(s, u)
  {
    hide Live, RevokeAll, OtherActiveAdmin, ActiveAdmin;
    forall x: State, w: nat ensures Live(RevokeAll(x, w), u) == if w == u then 0 else Live(x, u) { LiveRevokeAll(x, w, u); }
    forall x: State, a: Account, w: nat | w < |x.accounts| ensures Live(SetAccount(x, w, a), u) == Live(x, u) {
      SameLive(x, SetAccount(x, w, a), u);
    }
  }

  lemma LiveRevokeAll(s: State, w: nat, u: nat)
    ensures Live(RevokeAll(s, w), u) == if w == u then 0 else Live(s, u)
  {
    LiveAfterRevokeAll(s, w, u, |s.tokens|);
  }

  lemma LiveStepChange(s: State, w: nat, current: Str, replacement: Str, now: int, cfg: Config, u: nat)
    ensures var (after, outcome) := ChangeStep(s, w, current, replacement, now, cfg);
            Live(after, u) == if w == u && outcome.SignedIn? then 1 else Live(s, u)
  {
    hide Live, RevokeAll;
    if PasswordGuard(s, w, current, replacement).None? {
      var changed := WithPassword(s.accounts[w], replacement, false);
      var set1 := SetAccount(s, w, changed);
      SameLive(s, set1, u);
      LiveRevokeAll(set1, w, u);
      LiveAfterIssue(RevokeAll(set1, w), w, changed, now, cfg, u);
    }
  }

  /** With whole calls, a user's unrevoked refresh tokens never outnumber the
      sessions he opened since they were last all revoked: rotation never
      multiplies sessions. */
  lemma {:induction false} LiveSessionsAreOpened(s: State, calls: seq<Call>, cfg: Config, u: nat)
    requires Initial(s)
    ensures Live(Run(s, calls, cfg), u) <= Opened(s, calls, cfg, u)
  {
    if calls != [] {
      var before, c := Run(s, calls[..|calls| - 1], cfg), calls[|calls| - 1];
      LiveSessionsAreOpened(s, calls[..|calls| - 1], cfg, u);
      hide Live, LoginStep, RefreshStep, LogoutStep, ChangeStep, AccountStep;
      match c.op
      case Login(username, password) => LiveStepLogin(before, username, password, c.now, cfg, u);
      case Refresh(token) => LiveStepRefresh(before, token, c.now, cfg, u);
      case Logout(token) => LiveStepLogout(before, token, u);
      case ChangePassword(w, current, replacement) => LiveStepChange(before, w, current, replacement, c.now, cfg, u);
      case _ => LiveStepAccount(before, c.op, u);
    }
  }

  // --------------------------------------------------------- administrators

  predicate SomeActiveAdmin(accounts: seq<Account>) {
    exists k :: 0 <= k < |accounts| && ActiveAdmin(accounts[k])
  }

  /** No row loses its administrator by these calls. */
  lemma SignInsKeepAdmins(s: State, c: Call, cfg: Config, k: nat)
    requires k < |s.accounts| && ActiveAdmin(s.accounts[k]) && !c.op.Deactivate? && !c.op.AssignRoles?
    ensures var after := Step(s, c, cfg).0.accounts;
            k < |after| && ActiveAdmin(after[k])
  {
    hide FindUser, Unusable, Username.Normalize;
    match c.op
    case Login(_, _) =>
    case Refresh(_) =>
    case Logout(_) =>
    case ChangePassword(_, _, _) =>
    case Activate(_) =>
    case ResetPassword(_, _) =>
  }

  lemma AccountCallsKeepAnAdmin(s: State, op: Op, k: nat)
    requires k < |s.accounts| && ActiveAdmin(s.accounts[k]) && (op.Deactivate? || op.AssignRoles?)
    ensures SomeActiveAdmin(AccountStep(s, op).0.accounts)
  {
    var after, u := AccountStep(s, op).0.accounts, op.userId;
    if u < |s.accounts| && OtherActiveAdmin(s.accounts, u) {
      var j :| 0 <= j < |s.accounts| && j != u && ActiveAdmin(s.accounts[j]);
      assert after[j] == s.accounts[j];
    } else {
      assert k != u ==> OtherActiveAdmin(s.accounts, u);
      assert ActiveAdmin(after[k]);
    }
  }

  lemma StepKeepsAdmin(s: State, c: Call, cfg: Config)
    requires SomeActiveAdmin(s.accounts)
    ensures SomeActiveAdmin(Step(s, c, cfg).0.accounts)
  {
    var k :| 0 <= k < |s.accounts| && ActiveAdmin(s.accounts[k]);
    if c.op.Deactivate? || c.op.AssignRoles? {
      AccountCallsKeepAnAdmin(s, c.op, k);
    } else {
      SignInsKeepAdmins(s, c, cfg, k);
      hide Step, ActiveAdmin;
    }
  }

  /** The last active administrator is never lost. */
  lemma {:induction false} AnAdminAlwaysRemains(s: State, calls: seq<Call>, cfg: Config)
    requires SomeActiveAdmin(s.accounts)
    ensures SomeActiveAdmin(Run(s, calls, cfg).accounts)
  {
    hide Step, SomeActiveAdmin;
    if calls != [] {
      AnAdminAlwaysRemains(s, calls[..|calls| - 1], cfg);
      StepKeepsAdmin(Run(s, calls[..|calls| - 1], cfg), calls[|calls| - 1], cfg);
    }
  }
}
