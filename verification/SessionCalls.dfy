/** What refreshes, logouts and account changes do to sessions and accounts,
    row by row (auth.service.ts, users.service.ts). */
module SessionCalls {
  import opened Wrappers
  import opened Auth
  import opened Passwords
  import IR = InspectionRecords

  /** The presented token is one that was issued, has not been revoked, has not
      expired and belongs to somebody. */
  predicate IsUsable(s: State, token: Option<nat>, now: int) {
    && token.Some? && token.value < |s.tokens| && !s.tokens[token.value].revoked && now <= s.tokens[token.value].expiresAt
    && s.tokens[token.value].userId < |s.accounts|
  }

  /** A refresh signs in exactly with a usable token of an active user whose
      stamp has not moved; it exchanges the token for one new one.  A usable
      token that may not be exchanged is revoked. */
  lemma RefreshExactly(s: State, token: Option<nat>, now: int, cfg: Config)
    ensures var (after, outcome) := Step(s, Call(Refresh(token), now), cfg);
            if !IsUsable(s, token, now) then (after, outcome) == (s, Refused(SessionExpired))
            else
              var row := s.tokens[token.value];
              var a := s.accounts[row.userId];
              && after.accounts == s.accounts
              && (if a.active && row.authVersion == a.authVersion then
                    && outcome == SignedIn(|s.tokens|)
                    && after.tokens == s.tokens[token.value := row.(revoked := true, replacedBy := Some(|s.tokens|))]
                                       + [TokenRow(row.userId, row.authVersion, now + cfg.refreshTtlMs, false, None)]
                  else
                    && outcome == Refused(if a.active then SessionExpired else AccountInactive)
                    && after.tokens == s.tokens[token.value := row.(revoked := true)])
  {
  }

  /** The guard admits a token that was issued to somebody who is active and
      whose stamp has not moved, revoked or expired or not; a refresh goes
      through for those that are also usable. */
  lemma AcceptsExactly(s: State, token: nat, now: int, cfg: Config)
    ensures GuardAccepts(s, token) <==>
      && token < |s.tokens| && s.tokens[token].userId < |s.accounts|
      && var a := s.accounts[s.tokens[token].userId];
         a.active && a.authVersion == s.tokens[token].authVersion
    ensures RefreshAccepts(s, token, now) <==> Step(s, Call(Refresh(Some(token)), now), cfg).1.SignedIn?
  {
  }

  /** A logout revokes the token it presents and nothing else. */
  lemma LogoutExactly(s: State, token: Option<nat>, now: int, cfg: Config)
    ensures var (after, outcome) := Step(s, Call(Logout(token), now), cfg);
            && outcome == Done && after.accounts == s.accounts && |after.tokens| == |s.tokens|
            && forall t :: 0 <= t < |s.tokens| ==>
                 after.tokens[t] == if token == Some(t) then s.tokens[t].(revoked := true) else s.tokens[t]
  {
    assert token.Some? && token.value < |s.tokens| && s.tokens[token.value].revoked ==>
      s.tokens[token.value].(revoked := true) == s.tokens[token.value];
  }

  /** Somebody other than u is an active administrator. */
  predicate AnotherAdmin(s: State, u: nat) {
    exists k :: 0 <= k < |s.accounts| && k != u && s.accounts[k].active && IR.SYSTEM_ADMINISTRATOR in s.accounts[k].roles
  }

  /** The last active administrator would go. */
  predicate IsLastAdmin(s: State, u: nat)
    requires u < |s.accounts|
  {
    s.accounts[u].active && IR.SYSTEM_ADMINISTRATOR in s.accounts[u].roles && !AnotherAdmin(s, u)
  }

  /** An account changes in what is asked, moves its stamp and loses its
      sessions. */
  predicate Changed(s: State, after: State, u: nat, active: bool, roles: set<IR.Role>) {
    && OnlyAccount(s, after, u) && SessionsEnded(s, after, u) && |after.tokens| == |s.tokens|
    && after.accounts[u] == s.accounts[u].(active := active, roles := roles, authVersion := s.accounts[u].authVersion + 1)
  }

  /** Activations always go through; a deactivation, and a change of roles that
      drops the administrator's, exactly unless it would take the last active
      administrator away. */
  lemma AccountExactly(s: State, u: nat, roles: set<IR.Role>, now: int, cfg: Config)
    requires u < |s.accounts|
    ensures var a := s.accounts[u];
            var (on, activated) := Step(s, Call(Activate(u), now), cfg);
            var (off, deactivated) := Step(s, Call(Deactivate(u), now), cfg);
            var (moved, given) := Step(s, Call(AssignRoles(u, roles), now), cfg);
            && activated == Done && Changed(s, on, u, true, a.roles)
            && (if IsLastAdmin(s, u) then (off, deactivated) == (s, Refused(LastActiveAdmin))
                else deactivated == Done && Changed(s, off, u, false, a.roles))
            && (if IsLastAdmin(s, u) && IR.SYSTEM_ADMINISTRATOR !in roles then (moved, given) == (s, Refused(LastActiveAdmin))
                else given == Done && Changed(s, moved, u, a.active, roles))
  {
    assert OtherActiveAdmin(s.accounts, u) <==> AnotherAdmin(s, u);
    hide OtherActiveAdmin, AnotherAdmin;
  }

  lemma UnknownAccount(s: State, c: Call, cfg: Config)
    requires c.op.Activate? || c.op.Deactivate? || c.op.AssignRoles?
    requires c.op.userId >= |s.accounts|
    ensures Step(s, c, cfg) == (s, Refused(UserNotFound))
  {
  }
}
