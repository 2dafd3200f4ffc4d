/** The authentication service, the account operations of the user service and
    the request guard, over one database (auth.service.ts, users.service.ts,
    jwt-auth.guard.ts). */
module Authentication {
  import opened JsText
  import opened Wrappers
  import opened Auth
  import Username
  import IR = InspectionRecords

  class Database {
    var accounts: seq<Account>
    var tokens: seq<TokenRow>

    constructor (rows: seq<Account>)
      ensures Contents() == State(rows, [])
    {
      accounts, tokens := rows, [];
    }

    function Contents(): State
      reads this
    {
      State(accounts, tokens)
    }

    method RevokeAllOf(u: nat)
      modifies this`tokens
      ensures Contents() == RevokeAll(old(Contents()), u)
    {
      var rows := tokens;
      tokens := seq(|rows|, t requires 0 <= t < |rows| => RevokedRow(rows[t], u));
    }
  }

  class AuthService {
    const db: Database
    const config: Config

    constructor (database: Database, settings: Config)
      ensures db == database && config == settings
    {
      db, config := database, settings;
    }

    method Login(username: Str, password: Str, now: int) returns (outcome: Outcome)
      modifies db
      ensures (db.Contents(), outcome) == Step(old(db.Contents()), Call(Op.Login(username, password), now), config)
    {
      hide Username.Normalize;
      var u := FindUser(db.accounts, Username.Normalize(username));
      if u == |db.accounts| {
        return Refused(InvalidCredentials);
      }
      var user := db.accounts[u];
      if user.lockedUntil.Some? && user.lockedUntil.value > now {
        return Refused(AccountLocked);
      }
      if password != user.password {
        RecordFailedAttempt(u, now);
        return Refused(InvalidCredentials);
      }
      db.accounts := db.accounts[u := user.(failedLoginAttempts := 0, lockedUntil := None)];
      if !user.active {
        return Refused(AccountInactive);
      }
      var token := IssueTokens(u, user, now);
      return SignedIn(token);
    }

    method RecordFailedAttempt(u: nat, now: int)
      requires u < |db.accounts|
      modifies db`accounts
      ensures db.Contents() == SetAccount(old(db.Contents()), u, Failed(old(db.accounts)[u], now, config))
    {
      var user := db.accounts[u];
      var attempts := user.failedLoginAttempts + 1;
      var shouldLock := attempts >= config.loginMaxAttempts;
      user := user.(failedLoginAttempts := attempts);
      if shouldLock {
        user := user.(lockedUntil := Some(now + config.lockoutMs));
      }
      db.accounts := db.accounts[u := user];
    }

    method IssueTokens(u: nat, user: Account, now: int) returns (token: nat)
      modifies db`tokens
      ensures db.Contents() == Issue(old(db.Contents()), u, user, now, config)
      ensures token == |old(db.tokens)|
    {
      token := |db.tokens|;
      db.tokens := db.tokens + [TokenRow(u, user.authVersion, now + config.refreshTtlMs, false, None)];
    }

    method Refresh(presented: Option<nat>, now: int) returns (outcome: Outcome)
      modifies db
      ensures (db.Contents(), outcome) == Step(old(db.Contents()), Call(Op.Refresh(presented), now), config)
    {
      if presented.None? || presented.value >= |db.tokens| {
        return Refused(SessionExpired);
      }
      var t := presented.value;
      var stored := db.tokens[t];
      if stored.revoked || stored.expiresAt < now {
        return Refused(SessionExpired);
      }
      var u := stored.userId;
      if u >= |db.accounts| {
        return Refused(SessionExpired);
      }
      var user := db.accounts[u];
      if !user.active {
        db.tokens := db.tokens[t := stored.(revoked := true)];
        return Refused(AccountInactive);
      }
      if stored.authVersion != user.authVersion {
        db.tokens := db.tokens[t := stored.(revoked := true)];
        return Refused(SessionExpired);
      }
      var successor := IssueTokens(u, user, now);
      db.tokens := db.tokens[t := db.tokens[t].(revoked := true, replacedBy := Some(successor))];
      return SignedIn(successor);
    }

    method Logout(presented: Option<nat>, now: int)
      modifies db
      ensures db.Contents() == Step(old(db.Contents()), Call(Op.Logout(presented), now), config).0
    {
      if presented.Some? && presented.value < |db.tokens| && !db.tokens[presented.value].revoked {
        db.tokens := db.tokens[presented.value := db.tokens[presented.value].(revoked := true)];
      }
    }

    method RevokeAllSessions(u: nat)
      modifies db`tokens
      ensures db.Contents() == RevokeAll(old(db.Contents()), u)
    {
      db.RevokeAllOf(u);
    }

    method ChangePassword(u: nat, current: Str, replacement: Str, now: int) returns (outcome: Outcome)
      modifies db
      ensures (db.Contents(), outcome) == Step(old(db.Contents()), Call(Op.ChangePassword(u, current, replacement), now), config)
    {
      if u >= |db.accounts| {
        return Refused(NotAuthenticated);
      }
      var user := db.accounts[u];
      if !user.active {
        return Refused(AccountInactive);
      }
      if current != user.password {
        return Refused(InvalidCurrentPassword);
      }
      if replacement == user.password {
        return Refused(PasswordReuse);
      }
      db.accounts := db.accounts[u := user.(password := replacement, mustChangePassword := false, failedLoginAttempts := 0,
                                            lockedUntil := None, authVersion := user.authVersion + 1)];
      RevokeAllSessions(u);
      var reloaded := db.accounts[u];
      var token := IssueTokens(u, reloaded, now);
      return SignedIn(token);
    }
  }

  class UsersService {
    const db: Database

    constructor (database: Database)
      ensures db == database
    {
      db := database;
    }

    /** Whether some other active administrator exists. */
    method AnotherActiveAdmin(u: nat) returns (found: bool)
      ensures found == OtherActiveAdmin(db.accounts, u)
    {
      hide ActiveAdmin;
      var otherActiveAdmins := 0;
      for k := 0 to |db.accounts|
        invariant otherActiveAdmins >= 0
        invariant otherActiveAdmins > 0 <==> exists i :: 0 <= i < k && i != u && ActiveAdmin(db.accounts[i])
      {
        if k != u && ActiveAdmin(db.accounts[k]) {
          otherActiveAdmins := otherActiveAdmins + 1;
        }
      }
      return otherActiveAdmins > 0;
    }

    method Activate(u: nat) returns (outcome: Outcome)
      modifies db
      ensures (db.Contents(), outcome) == AccountStep(old(db.Contents()), Op.Activate(u))
    {
      if u >= |db.accounts| {
        return Refused(UserNotFound);
      }
      db.accounts := db.accounts[u := db.accounts[u].(active := true, authVersion := db.accounts[u].authVersion + 1)];
      db.RevokeAllOf(u);
      return Done;
    }

    method Deactivate(u: nat) returns (outcome: Outcome)
      modifies db
      ensures (db.Contents(), outcome) == AccountStep(old(db.Contents()), Op.Deactivate(u))
    {
      hide OtherActiveAdmin;
      if u >= |db.accounts| {
        return Refused(UserNotFound);
      }
      var existing := db.accounts[u];
      if existing.active && IR.SYSTEM_ADMINISTRATOR in existing.roles {
        var another := AnotherActiveAdmin(u);
        if !another {
          return Refused(LastActiveAdmin);
        }
      }
      db.accounts := db.accounts[u := existing.(active := false, authVersion := existing.authVersion + 1)];
      db.RevokeAllOf(u);
      return Done;
    }

    method AssignRoles(u: nat, roles: set<IR.Role>) returns (outcome: Outcome)
      modifies db
      ensures (db.Contents(), outcome) == AccountStep(old(db.Contents()), Op.AssignRoles(u, roles))
    {
      hide OtherActiveAdmin;
      if u >= |db.accounts| {
        return Refused(UserNotFound);
      }
      var existing := db.accounts[u];
      var hadAdminRole := IR.SYSTEM_ADMINISTRATOR in existing.roles;
      var willHaveAdminRole := IR.SYSTEM_ADMINISTRATOR in roles;
      if existing.active && hadAdminRole && !willHaveAdminRole {
        var another := AnotherActiveAdmin(u);
        if !another {
          return Refused(LastActiveAdmin);
        }
      }
      db.accounts := db.accounts[u := existing.(roles := roles, authVersion := existing.authVersion + 1)];
      db.RevokeAllOf(u);
      return Done;
    }

    method ResetPassword(u: nat, temporary: Str) returns (outcome: Outcome)
      modifies db
      ensures (db.Contents(), outcome) == AccountStep(old(db.Contents()), Op.ResetPassword(u, temporary))
    {
      if u >= |db.accounts| {
        return Refused(UserNotFound);
      }
      var user := db.accounts[u];
      db.accounts := db.accounts[u := user.(password := temporary, mustChangePassword := true, failedLoginAttempts := 0,
                                            lockedUntil := None, authVersion := user.authVersion + 1)];
      db.RevokeAllOf(u);
      return Done;
    }
  }

  datatype Admission = Admitted(userId: nat, permissions: set<IR.Permission>) | Turned(error: Error)

  class JwtAuthGuard {
    const db: Database
    const grants: map<IR.Role, set<IR.Permission>>

    constructor (database: Database, rolePermissions: map<IR.Role, set<IR.Permission>>)
      ensures db == database && grants == rolePermissions
    {
      db, grants := database, rolePermissions;
    }

    /** Admits exactly on a current token of an active user, with the
        permissions his roles grant now. */
    method CanActivate(presented: Option<nat>) returns (admission: Admission)
      ensures admission.Admitted? <==> presented.Some? && GuardAccepts(db.Contents(), presented.value)
      ensures admission.Admitted? ==>
        && admission.userId == db.tokens[presented.value].userId
        && forall p :: p in admission.permissions <==>
             exists r :: r in db.accounts[admission.userId].roles && r in grants && p in grants[r]
    {
      if presented.None? || presented.value >= |db.tokens| {
        return Turned(NotAuthenticated);
      }
      var payload := db.tokens[presented.value];
      if payload.userId >= |db.accounts| {
        return Turned(NotAuthenticated);
      }
      var user := db.accounts[payload.userId];
      if !user.active {
        return Turned(AccountInactive);
      }
      if payload.authVersion != user.authVersion {
        return Turned(SessionExpired);
      }
      var permissions: set<IR.Permission> := {};
      var rest := user.roles;
      while rest != {}
        invariant rest <= user.roles
        invariant forall p :: p in permissions <==> exists r :: r in user.roles - rest && r in grants && p in grants[r]
      {
        var r :| r in rest;
        if r in grants {
          permissions := permissions + grants[r];
        }
        rest := rest - {r};
      }
      assert user.roles - rest == user.roles;
      return Admitted(payload.userId, permissions);
    }
  }
}
