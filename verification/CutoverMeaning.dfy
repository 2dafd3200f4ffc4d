/** What the cutover calls a conflict, plans, writes and verifies, user by user
    and without counters (cutover-users-to-username-rules.ts,
    cutover-users-to-username.ts). */
module CutoverMeaning {
  import opened JsText
  import opened Wrappers
  import Username
  import opened Cutover

  // --------------------------------------------------------------- users

  /** The user has a username, and it reads like this once normalized. */
  predicate GoesBy(u: User, name: Str) {
    u.username.Some? && |u.username.value| > 0 && Username.Normalize(u.username.value) == name
  }

  /** The row that the cutover takes for the administrator's. */
  predicate IsAdminRow(u: User, admin: Admin) {
    u.employeeCode == admin.employeeCode || GoesBy(u, Username.Normalize(admin.username))
  }

  /** The name a user is archived under: his own, else one made of his code. */
  function KeepsName(u: User): Str {
    if u.username.Some? then u.username.value else Username.ArchivedUsername(u.employeeCode)
  }

  /** An inactive user whose name begins with "archived-". */
  ghost predicate IsDone(u: User) {
    && u.status == INACTIVE
    && exists rest :: GoesBy(u, Ascii("archived-") + rest)
  }

  lemma UserExactly(u: User, admin: Admin)
    ensures forall name :: HasNormal(u, name) <==> GoesBy(u, name)
    ensures HasName(u) <==> u.username.Some? && |u.username.value| > 0
    ensures IsReplacementAdmin(u, admin) <==> IsAdminRow(u, admin)
    ensures AlreadyArchived(u) <==> IsDone(u)
  {
    if HasName(u) { PrefixExactly(Username.Normalize(u.username.value)); }
    hide Username.Normalize, Username.HasArchivedPrefix, Ascii;
  }

  lemma PrefixExactly(name: Str)
    ensures Username.HasArchivedPrefix(name) <==> exists rest :: name == Ascii("archived-") + rest
  {
    if Username.HasArchivedPrefix(name) { assert name == Ascii("archived-") + name[|Ascii("archived-")|..]; }
  }

  // ----------------------------------------------------------- conflicts

  /** Two different users of the list. */
  predicate AreTwo(users: seq<User>, i: int, j: int) {
    0 <= i < j < |users|
  }

  /** User i would be archived under a name that is not the administrator's, but
      that an earlier user is archived under or some user goes by. */
  ghost predicate MeetsName(users: seq<User>, admin: Admin, i: nat)
    requires i < |users|
  {
    var name := KeepsName(users[i]);
    && !IsAdminRow(users[i], admin) && name != Username.Normalize(admin.username)
    && (|| (exists j :: 0 <= j < i && !IsAdminRow(users[j], admin) && KeepsName(users[j]) == name)
        || (exists j :: 0 <= j < |users| && GoesBy(users[j], name)))
  }

  ghost predicate Conflicts(users: seq<User>, admin: Admin, hasAdminRole: bool, c: Conflict) {
    match c
    case MissingAdminRole => !hasAdminRole
    case InvalidAdminUsername => !Username.IsValid(Username.Normalize(admin.username))
    case InvalidUsername(code) =>
      exists i, name :: 0 <= i < |users| && users[i].employeeCode == code && GoesBy(users[i], name) && !Username.IsValid(name)
    case DuplicateEmployeeCode(code) =>
      exists i, j :: AreTwo(users, i, j) && users[i].employeeCode == users[j].employeeCode == code
    case DuplicateUsername(name) =>
      exists i, j :: AreTwo(users, i, j) && GoesBy(users[i], name) && GoesBy(users[j], name)
    case ArchivedUsernameCollision(code) =>
      exists i :: 0 <= i < |users| && users[i].employeeCode == code && MeetsName(users, admin, i)
  }

  lemma {:induction false} CodeCountExactly(users: seq<User>, n: nat, code: Str)
    requires n <= |users|
    ensures CodeCount(users, n, code) > 0 <==> exists i :: 0 <= i < n && users[i].employeeCode == code
    ensures CodeCount(users, n, code) > 1 <==>
      exists i, j :: AreTwo(users, i, j) && j < n && users[i].employeeCode == users[j].employeeCode == code
  {
    if n > 0 {
      CodeCountExactly(users, n - 1, code);
      if i :| 0 <= i < n - 1 && users[n - 1].employeeCode == code && users[i].employeeCode == code {
        assert AreTwo(users, i, n - 1);
      }
    }
  }

  lemma {:induction false} NameCountExactly(users: seq<User>, n: nat, name: Str)
    requires n <= |users|
    ensures NameCount(users, n, name) > 0 <==> exists i :: 0 <= i < n && HasNormal(users[i], name)
    ensures NameCount(users, n, name) > 1 <==>
      exists i, j :: AreTwo(users, i, j) && j < n && HasNormal(users[i], name) && HasNormal(users[j], name)
  {
    hide HasNormal;
    if n > 0 {
      NameCountExactly(users, n - 1, name);
      if i :| 0 <= i < n - 1 && HasNormal(users[n - 1], name) && HasNormal(users[i], name) {
        assert AreTwo(users, i, n - 1);
      }
    }
  }

  lemma {:induction false} PlannedExactly(users: seq<User>, admin: Admin, n: nat, name: Str)
    requires n <= |users|
    ensures name in Planned(users, admin, n) <==>
      exists j :: 0 <= j < n && !IsReplacementAdmin(users[j], admin) && ArchivedName(users[j]) == name
  {
    hide IsReplacementAdmin, ArchivedName;
    if n > 0 { PlannedExactly(users, admin, n - 1, name); }
  }

  lemma CollidesExactly(users: seq<User>, admin: Admin, i: nat)
    requires i < |users|
    ensures Collides(users, admin, i) <==> MeetsName(users, admin, i)
  {
    var name := KeepsName(users[i]);
    PlannedExactly(users, admin, i, name);
    NameCountExactly(users, |users|, name);
    forall u: User ensures IsReplacementAdmin(u, admin) <==> IsAdminRow(u, admin) ensures HasNormal(u, name) <==> GoesBy(u, name) {
      UserExactly(u, admin);
    }
    forall u: User ensures KeepsName(u) == ArchivedName(u) {}
    hide IsReplacementAdmin, IsAdminRow, HasNormal, GoesBy, ArchivedName, KeepsName, Planned, NameCount, Username.Normalize;
  }

  /** The report lists exactly these conflicts. */
  lemma ConflictsExactly(users: seq<User>, admin: Admin, hasAdminRole: bool, c: Conflict)
    ensures IsConflict(users, admin, hasAdminRole, c) <==> Conflicts(users, admin, hasAdminRole, c)
  {
    forall u: User, name ensures HasNormal(u, name) <==> GoesBy(u, name) { UserExactly(u, admin); }
    match c
    case InvalidUsername(_) => InvalidExactly(users, admin, hasAdminRole, c);
    case DuplicateEmployeeCode(code) => CodeCountExactly(users, |users|, code);
    case DuplicateUsername(name) =>
      NameCountExactly(users, |users|, name);
      hide HasNormal, GoesBy;
    case ArchivedUsernameCollision(_) =>
      forall i: nat | i < |users| ensures Collides(users, admin, i) <==> MeetsName(users, admin, i) {
        CollidesExactly(users, admin, i);
      }
      hide Collides, MeetsName;
    case _ =>
  }

  lemma InvalidExactly(users: seq<User>, admin: Admin, hasAdminRole: bool, c: Conflict)
    requires c.InvalidUsername?
    ensures IsConflict(users, admin, hasAdminRole, c) <==> Conflicts(users, admin, hasAdminRole, c)
  {
    hide Username.Normalize, Username.IsValid;
    if i :| 0 <= i < |users| && users[i].employeeCode == c.code && HasName(users[i])
            && !Username.IsValid(Username.Normalize(users[i].username.value)) {
      assert GoesBy(users[i], Username.Normalize(users[i].username.value));
    }
  }

  // ---------------------------------------------------------------- plan

  /** What the plan says of one user: the administrator's row is left alone,
      what is archived already is skipped, and everybody else is archived under
      the name he keeps. */
  ghost predicate IsPlannedAs(item: PlanItem, u: User, admin: Admin) {
    && item.userId == Some(u.id) && item.employeeCode == u.employeeCode
    && (if IsAdminRow(u, admin) then item.action == SkipAdmin && item.archivedUsername == None
        else item.action == (if IsDone(u) then SkipAlreadyArchived else Archive) && item.archivedUsername == Some(KeepsName(u)))
  }

  lemma ItemExactly(u: User, admin: Admin)
    ensures IsPlannedAs(PlanItemFor(u, admin), u, admin)
  {
    UserExactly(u, admin);
    hide IsReplacementAdmin, IsAdminRow, AlreadyArchived, IsDone;
  }

  /** One item for the administrator, then one for every user in order. */
  lemma PlanExactly(users: seq<User>, admin: Admin)
    ensures var plan := PlanFor(users, admin);
            && |plan| == |users| + 1 && plan[0] == PlanItem(None, admin.employeeCode, EnsureAdmin, None)
            && forall i :: 0 <= i < |users| ==> IsPlannedAs(plan[i + 1], users[i], admin)
  {
    forall i | 0 <= i < |users| ensures IsPlannedAs(PlanItemFor(users[i], admin), users[i], admin) {
      ItemExactly(users[i], admin);
    }
    hide PlanItemFor, IsPlannedAs;
  }

  // --------------------------------------------------------------- writes

  /** The administrator's row, wherever it is, is renamed, active and an
      administrator's. */
  predicate BecomesAdmin(u: User, u': User, admin: Admin) {
    u' == User(u.id, u.employeeCode, Some(admin.username), ACTIVE, true)
  }

  /** Row by row, what the cutover leaves once the administrator's row and the
      first n plan items are done: that row, or a new one, in force; everybody so
      far archived who was not and has a name to keep; every other row as it was. */
  lemma ProgressExactly(users: seq<User>, admin: Admin, newId: nat, n: nat)
    ensures var after := Progress(users, admin, newId, n);
            && (forall i :: 0 <= i < |users| ==>
                  var u := users[i];
                  if u.employeeCode == admin.employeeCode then BecomesAdmin(u, after[i], admin)
                  else if i >= n || IsAdminRow(u, admin) || IsDone(u) || |KeepsName(u)| == 0 then after[i] == u
                  else after[i] == User(u.id, u.employeeCode, Some(KeepsName(u)), INACTIVE, u.isSystemAdmin))
            && after[|users|..] == (if exists i :: 0 <= i < |users| && users[i].employeeCode == admin.employeeCode then []
                                    else [User(newId, admin.employeeCode, Some(admin.username), ACTIVE, true)])
    ensures Progress(users, admin, newId, |users|) == AfterCutover(users, admin, newId)
  {
    forall i | 0 <= i < |users|
      ensures IsReplacementAdmin(users[i], admin) <==> IsAdminRow(users[i], admin)
      ensures AlreadyArchived(users[i]) <==> IsDone(users[i])
    {
      UserExactly(users[i], admin);
    }
    hide IsReplacementAdmin, IsAdminRow, AlreadyArchived, IsDone, ArchivedName;
  }

  /** No two rows hold the same username. */
  ghost predicate UniqueNames(users: seq<User>) {
    forall i, j :: AreTwo(users, i, j) && users[i].username.Some? ==> users[i].username != users[j].username
  }

  /** A write is let through exactly when the table keeps its unique usernames. */
  lemma TakenExactly(users: seq<User>, k: nat, row: User)
    requires UniqueNames(users) && k < |users| && row.username.Some?
    ensures UniqueNames(users[k := row]) <==> !Taken(users, k, row.username.value)
  {
    var after := users[k := row];
    if i :| 0 <= i < |users| && i != k && users[i].username == row.username {
      assert AreTwo(after, if i < k then i else k, if i < k then k else i);
    }
    if !UniqueNames(after) {
      var i, j :| AreTwo(after, i, j) && after[i].username.Some? && after[i].username == after[j].username;
      assert AreTwo(users, i, j);
    }
  }

  // ------------------------------------------------------------- verifier

  /** The first row with the administrator's employee code. */
  predicate IsFirstOf(users: seq<User>, code: Str, k: int) {
    && 0 <= k < |users| && users[k].employeeCode == code
    && forall i :: 0 <= i < k ==> users[i].employeeCode != code
  }

  ghost predicate Fails(users: seq<User>, admin: Admin, f: Failure) {
    match f
    case AdminMissing => forall i :: 0 <= i < |users| ==> users[i].employeeCode != admin.employeeCode
    case AdminNotActive => exists k :: IsFirstOf(users, admin.employeeCode, k) && users[k].status != ACTIVE
    case AdminUsernameMismatch =>
      exists k :: IsFirstOf(users, admin.employeeCode, k) && users[k].username != Some(Username.Normalize(admin.username))
    case AdminRoleMissing => exists k :: IsFirstOf(users, admin.employeeCode, k) && !users[k].isSystemAdmin
    case UsernameNull(code) =>
      exists i :: 0 <= i < |users| && users[i].employeeCode == code && (forall name :: !GoesBy(users[i], name))
    case DuplicateName(name) => exists i, j :: AreTwo(users, i, j) && GoesBy(users[i], name) && GoesBy(users[j], name)
    case ActiveLegacy(code) =>
      exists i :: 0 <= i < |users| && users[i].employeeCode == code && code != admin.employeeCode && users[i].status == ACTIVE
                  && IsNamedAlive(users[i])
    case NoActiveAdmin => forall i :: 0 <= i < |users| ==> users[i].status != ACTIVE || !users[i].isSystemAdmin
  }

  /** A user who goes by a name that does not begin with "archived-". */
  ghost predicate IsNamedAlive(u: User) {
    (exists name :: GoesBy(u, name)) && forall rest :: !GoesBy(u, Ascii("archived-") + rest)
  }

  lemma {:induction false} FindsFirst(users: seq<User>, code: Str, k: int)
    requires IsFirstOf(users, code, k)
    ensures FindCode(users, code) == Some(users[k])
  {
    if k > 0 {
      assert IsFirstOf(users[1..], code, k - 1);
      FindsFirst(users[1..], code, k - 1);
    }
  }

  lemma {:induction false} FirstExists(users: seq<User>, code: Str) returns (k: int)
    requires FindCode(users, code).Some?
    ensures IsFirstOf(users, code, k)
  {
    if users[0].employeeCode == code {
      k := 0;
    } else {
      k := FirstExists(users[1..], code);
      k := k + 1;
      assert forall i :: 0 < i < k ==> users[i] == users[1..][i - 1];
    }
  }

  lemma NameExactly(u: User, admin: Admin)
    ensures !HasName(u) <==> forall name :: !GoesBy(u, name)
    ensures IsActiveLegacy(u, admin) <==> u.employeeCode != admin.employeeCode && u.status == ACTIVE && IsNamedAlive(u)
  {
    if HasName(u) {
      var name := Username.Normalize(u.username.value);
      assert GoesBy(u, name);
      PrefixExactly(name);
    }
    hide Username.Normalize, Username.HasArchivedPrefix, Ascii;
  }

  lemma FailuresOfAdmin(users: seq<User>, admin: Admin, f: Failure)
    requires f in {AdminMissing, AdminNotActive, AdminUsernameMismatch, AdminRoleMissing}
    ensures IsFailure(users, admin, f) <==> Fails(users, admin, f)
  {
    forall k | IsFirstOf(users, admin.employeeCode, k) ensures FindCode(users, admin.employeeCode) == Some(users[k]) {
      FindsFirst(users, admin.employeeCode, k);
    }
    var found := FindCode(users, admin.employeeCode);
    if found.Some? {
      var k := FirstExists(users, admin.employeeCode);
      assert IsFirstOf(users, admin.employeeCode, k);
    } else {
      assert forall i :: 0 <= i < |users| ==> users[i] in users;
    }
    hide FindCode, Username.Normalize, IsFirstOf;
  }

  /** The verifier reports exactly these failures. */
  lemma FailuresExactly(users: seq<User>, admin: Admin, f: Failure)
    ensures IsFailure(users, admin, f) <==> Fails(users, admin, f)
  {
    match f
    case UsernameNull(_) =>
      forall u: User ensures !HasName(u) <==> forall name :: !GoesBy(u, name) { NameExactly(u, admin); }
      hide HasName, GoesBy;
    case DuplicateName(name) =>
      forall u: User ensures HasNormal(u, name) <==> GoesBy(u, name) { UserExactly(u, admin); }
      hide HasNormal, GoesBy;
      if i, j :| 0 <= i < j < |users| && HasNormal(users[i], name) && HasNormal(users[j], name) { assert AreTwo(users, i, j); }
    case ActiveLegacy(_) =>
      forall u: User ensures IsActiveLegacy(u, admin) <==> u.employeeCode != admin.employeeCode && u.status == ACTIVE && IsNamedAlive(u) {
        NameExactly(u, admin);
      }
      hide IsActiveLegacy, IsNamedAlive;
    case NoActiveAdmin =>
    case _ => FailuresOfAdmin(users, admin, f);
  }
}
