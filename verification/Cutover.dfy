/** The username cutover: conflict detection, plan and verifier
    (cutover-users-to-username-rules.ts) and the execute steps between them
    (cutover-users-to-username.ts). */
module Cutover {
  import opened JsText
  import opened Wrappers
  import Username

  datatype UserStatus = ACTIVE | INACTIVE | SUSPENDED | PENDING_ACTIVATION

  /** A user row; `isSystemAdmin` says that SYSTEM_ADMINISTRATOR is among its roles. */
  datatype User = User(id: nat, employeeCode: Str, username: Option<Str>, status: UserStatus, isSystemAdmin: bool)

  datatype Admin = Admin(employeeCode: Str, username: Str)

  datatype Conflict =
    | MissingAdminRole
    | InvalidAdminUsername
    | InvalidUsername(code: Str)
    | DuplicateEmployeeCode(code: Str)
    | DuplicateUsername(name: Str)
    | ArchivedUsernameCollision(code: Str)

  datatype PlanAction = EnsureAdmin | Archive | SkipAlreadyArchived | SkipAdmin

  datatype PlanItem = PlanItem(userId: Option<nat>, employeeCode: Str, action: PlanAction, archivedUsername: Option<Str>)

  datatype Failure =
    | AdminMissing
    | AdminNotActive
    | AdminUsernameMismatch
    | AdminRoleMissing
    | UsernameNull(code: Str)
    | DuplicateName(name: Str)
    | ActiveLegacy(code: Str)
    | NoActiveAdmin

  /** A username that JavaScript counts as present. */
  predicate HasName(u: User) {
    u.username.Some? && u.username.value != []
  }

  predicate IsReplacementAdmin(u: User, admin: Admin) {
    || u.employeeCode == admin.employeeCode
    || (HasName(u) && Username.Normalize(u.username.value) == Username.Normalize(admin.username))
  }

  /** `user.username ?? archivedUsernameForEmployeeCode(user.employeeCode)`. */
  function ArchivedName(u: User): Str {
    match u.username
    case Some(name) => name
    case None => Username.ArchivedUsername(u.employeeCode)
  }

  predicate HasNormal(u: User, name: Str) {
    HasName(u) && Username.Normalize(u.username.value) == name
  }

  // --------------------------------------------------------------- counting

  /** How many of the first n users carry the employee code. */
  function CodeCount(users: seq<User>, n: nat, code: Str): nat
    requires n <= |users|
  {
    if n == 0 then 0 else CodeCount(users, n - 1, code) + (if users[n - 1].employeeCode == code then 1 else 0)
  }

  /** How many of the first n users have the normalized username. */
  function NameCount(users: seq<User>, n: nat, name: Str): nat
    requires n <= |users|
  {
    if n == 0 then 0 else NameCount(users, n - 1, name) + (if HasNormal(users[n - 1], name) then 1 else 0)
  }

  lemma {:induction false} CodeCountPositive(users: seq<User>, n: nat, i: nat)
    requires i < n <= |users|
    ensures CodeCount(users, n, users[i].employeeCode) > 0
  {
    if i < n - 1 { CodeCountPositive(users, n - 1, i); }
  }

  lemma {:induction false} CodeCountTwice(users: seq<User>, n: nat, i: nat, j: nat)
    requires i < j < n <= |users| && users[i].employeeCode == users[j].employeeCode
    ensures CodeCount(users, n, users[i].employeeCode) > 1
  {
    if j < n - 1 { CodeCountTwice(users, n - 1, i, j); } else { CodeCountPositive(users, j, i); }
  }

  lemma {:induction false} NameCountPositive(users: seq<User>, n: nat, i: nat, name: Str)
    requires i < n <= |users| && HasNormal(users[i], name)
    ensures NameCount(users, n, name) > 0
  {
    if i < n - 1 { NameCountPositive(users, n - 1, i, name); }
  }

  lemma {:induction false} NameCountTwice(users: seq<User>, n: nat, i: nat, j: nat, name: Str)
    requires i < j < n <= |users| && HasNormal(users[i], name) && HasNormal(users[j], name)
    ensures NameCount(users, n, name) > 1
  {
    if j < n - 1 { NameCountTwice(users, n - 1, i, j, name); } else { NameCountPositive(users, j, i, name); }
  }

  function MapCount(m: map<Str, nat>, k: Str): nat {
    if k in m then m[k] else 0
  }

  // --------------------------------------------------------- conflict check

  function InvalidNames(users: seq<User>, n: nat): seq<Conflict>
    requires n <= |users|
  {
    if n == 0 then [] else
      var u := users[n - 1];
      InvalidNames(users, n - 1)
      + (if HasName(u) && !Username.IsValid(Username.Normalize(u.username.value)) then [InvalidUsername(u.employeeCode)] else [])
  }

  /** Names planned for archiving among the first n users. */
  function Planned(users: seq<User>, admin: Admin, n: nat): set<Str>
    requires n <= |users|
  {
    if n == 0 then {} else
      Planned(users, admin, n - 1)
      + (if IsReplacementAdmin(users[n - 1], admin) then {} else {ArchivedName(users[n - 1])})
  }

  /** User i would be archived under a name that an earlier archived user
      takes, or that some user already holds. */
  predicate Collides(users: seq<User>, admin: Admin, i: nat)
    requires i < |users|
  {
    var archived := ArchivedName(users[i]);
    && !IsReplacementAdmin(users[i], admin)
    && archived != Username.Normalize(admin.username)
    && (archived in Planned(users, admin, i) || NameCount(users, |users|, archived) > 0)
  }

  function CollisionsTo(users: seq<User>, admin: Admin, n: nat): seq<Conflict>
    requires n <= |users|
  {
    if n == 0 then [] else
      CollisionsTo(users, admin, n - 1)
      + (if Collides(users, admin, n - 1) then [ArchivedUsernameCollision(users[n - 1].employeeCode)] else [])
  }

  /** What each conflict reports. */
  ghost predicate IsConflict(users: seq<User>, admin: Admin, hasAdminRole: bool, c: Conflict) {
    match c
    case MissingAdminRole => !hasAdminRole
    case InvalidAdminUsername => !Username.IsValid(Username.Normalize(admin.username))
    case InvalidUsername(code) =>
      exists i :: 0 <= i < |users| && users[i].employeeCode == code && HasName(users[i])
                  && !Username.IsValid(Username.Normalize(users[i].username.value))
    case DuplicateEmployeeCode(code) => CodeCount(users, |users|, code) > 1
    case DuplicateUsername(name) => NameCount(users, |users|, name) > 1
    case ArchivedUsernameCollision(code) =>
      exists i :: 0 <= i < |users| && users[i].employeeCode == code && Collides(users, admin, i)
  }

  ghost predicate NoConflicts(users: seq<User>, admin: Admin, hasAdminRole: bool) {
    forall c :: !IsConflict(users, admin, hasAdminRole, c)
  }

  lemma {:induction false} InvalidNamesMeaning(users: seq<User>, n: nat, c: Conflict)
    requires n <= |users|
    ensures c in InvalidNames(users, n) <==>
      && c.InvalidUsername?
      && exists i :: 0 <= i < n && users[i].employeeCode == c.code && HasName(users[i])
                     && !Username.IsValid(Username.Normalize(users[i].username.value))
  {
    hide Username.Normalize, Username.ArchivedUsername, Username.IsValid, Username.HasArchivedPrefix;
    if n > 0 { InvalidNamesMeaning(users, n - 1, c); }
  }

  lemma {:induction false} CollisionsMeaning(users: seq<User>, admin: Admin, n: nat, c: Conflict)
    requires n <= |users|
    ensures c in CollisionsTo(users, admin, n) <==>
      && c.ArchivedUsernameCollision?
      && exists i :: 0 <= i < n && users[i].employeeCode == c.code && Collides(users, admin, i)
  {
    hide Username.Normalize, Username.ArchivedUsername, Username.IsValid, Username.HasArchivedPrefix;
    if n > 0 { CollisionsMeaning(users, admin, n - 1, c); }
  }

  lemma {:induction false} PlannedMeaning(users: seq<User>, admin: Admin, n: nat, i: nat)
    requires i < n <= |users| && !IsReplacementAdmin(users[i], admin)
    ensures ArchivedName(users[i]) in Planned(users, admin, n)
  {
    hide Username.Normalize, Username.ArchivedUsername, Username.IsValid, Username.HasArchivedPrefix;
    if i < n - 1 { PlannedMeaning(users, admin, n - 1, i); }
  }

  method CountUsers(users: seq<User>)
    returns (codes: map<Str, nat>, names: map<Str, nat>, invalid: seq<Conflict>)
    ensures forall c :: MapCount(codes, c) == CodeCount(users, |users|, c)
    ensures forall n :: MapCount(names, n) == NameCount(users, |users|, n)
    ensures invalid == InvalidNames(users, |users|)
  {
    hide Username.Normalize, Username.ArchivedUsername, Username.IsValid, Username.HasArchivedPrefix;
    codes, names, invalid := map[], map[], [];
    for i := 0 to |users|
      invariant forall c :: MapCount(codes, c) == CodeCount(users, i, c)
      invariant forall n :: MapCount(names, n) == NameCount(users, i, n)
      invariant invalid == InvalidNames(users, i)
    {
      var u := users[i];
      codes := codes[u.employeeCode := MapCount(codes, u.employeeCode) + 1];
      if HasName(u) {
        var normalized := Username.Normalize(u.username.value);
        if !Username.IsValid(normalized) {
          invalid := invalid + [InvalidUsername(u.employeeCode)];
        }
        names := names[normalized := MapCount(names, normalized) + 1];
      }
    }
  }

  method Duplicates(counts: map<Str, nat>) returns (dup: set<Str>)
    ensures forall x :: x in dup <==> MapCount(counts, x) > 1
  {
    dup := {};
    var keys := counts.Keys;
    while keys != {}
      invariant keys <= counts.Keys
      invariant forall x :: x in dup <==> x !in keys && MapCount(counts, x) > 1
    {
      var k :| k in keys;
      keys := keys - {k};
      if counts[k] > 1 {
        dup := dup + {k};
      }
    }
  }

  method Collisions(users: seq<User>, admin: Admin, names: map<Str, nat>) returns (found: seq<Conflict>)
    requires forall n :: MapCount(names, n) == NameCount(users, |users|, n)
    ensures found == CollisionsTo(users, admin, |users|)
  {
    hide Username.Normalize, Username.ArchivedUsername, Username.IsValid, Username.HasArchivedPrefix;
    found := [];
    var planned: set<Str> := {};
    for i := 0 to |users|
      invariant planned == Planned(users, admin, i)
      invariant found == CollisionsTo(users, admin, i)
    {
      var u := users[i];
      if !IsReplacementAdmin(u, admin) {
        var archived := ArchivedName(u);
        assert MapCount(names, archived) == NameCount(users, |users|, archived);
        if archived in planned || MapCount(names, archived) > 0 {
          if archived != Username.Normalize(admin.username) {
            found := found + [ArchivedUsernameCollision(u.employeeCode)];
          }
        }
        planned := planned + {archived};
      }
    }
  }

  /** The four lists together hold exactly the conflicts. */
  lemma ReportedExactly(users: seq<User>, admin: Admin, hasAdminRole: bool, head: seq<Conflict>,
                        duplicates: seq<Conflict>, c: Conflict)
    requires c in head <==>
      (c == MissingAdminRole && !hasAdminRole)
      || (c == InvalidAdminUsername && !Username.IsValid(Username.Normalize(admin.username)))
    requires c in duplicates <==>
      (c.DuplicateEmployeeCode? && CodeCount(users, |users|, c.code) > 1)
      || (c.DuplicateUsername? && NameCount(users, |users|, c.name) > 1)
    ensures c in head + InvalidNames(users, |users|) + duplicates + CollisionsTo(users, admin, |users|)
       <==> IsConflict(users, admin, hasAdminRole, c)
  {
    hide Username.Normalize, Username.IsValid, CodeCount, NameCount, InvalidNames, CollisionsTo, HasName, Collides;
    InvalidNamesMeaning(users, |users|, c);
    CollisionsMeaning(users, admin, |users|, c);
  }

  /** Reports exactly the conflicts there are. */
  method DetectConflicts(users: seq<User>, admin: Admin, hasAdminRole: bool) returns (conflicts: seq<Conflict>)
    ensures forall c :: c in conflicts <==> IsConflict(users, admin, hasAdminRole, c)
  {
    hide Username.Normalize, Username.ArchivedUsername, Username.IsValid, Username.HasArchivedPrefix;
    var head := [];
    if !hasAdminRole {
      head := head + [MissingAdminRole];
    }
    if !Username.IsValid(Username.Normalize(admin.username)) {
      head := head + [InvalidAdminUsername];
    }
    var codes, names, invalid := CountUsers(users);
    var dupCodes := Duplicates(codes);
    var dupNames := Duplicates(names);
    var collisions := Collisions(users, admin, names);
    var duplicates := Listed((set x | x in dupCodes :: DuplicateEmployeeCode(x)) + (set x | x in dupNames :: DuplicateUsername(x)));
    conflicts := head + invalid + duplicates + collisions;
    forall c ensures c in conflicts <==> IsConflict(users, admin, hasAdminRole, c) {
      ReportedExactly(users, admin, hasAdminRole, head, duplicates, c);
    }
  }

  method Listed(all: set<Conflict>) returns (r: seq<Conflict>)
    ensures forall c :: c in r <==> c in all
  {
    r := [];
    var left := all;
    while left != {}
      invariant left <= all
      invariant forall c :: c in r <==> c in all && c !in left
    {
      var c :| c in left;
      left := left - {c};
      r := r + [c];
    }
  }

  // ------------------------------------------------------------------- plan

  predicate AlreadyArchived(u: User) {
    u.status == INACTIVE && HasName(u) && Username.HasArchivedPrefix(Username.Normalize(u.username.value))
  }

  function PlanItemFor(u: User, admin: Admin): PlanItem {
    if IsReplacementAdmin(u, admin) then PlanItem(Some(u.id), u.employeeCode, SkipAdmin, None)
    else PlanItem(Some(u.id), u.employeeCode, if AlreadyArchived(u) then SkipAlreadyArchived else Archive, Some(ArchivedName(u)))
  }

  function PlanFor(users: seq<User>, admin: Admin): seq<PlanItem> {
    [PlanItem(None, admin.employeeCode, EnsureAdmin, None)]
      + seq(|users|, i requires 0 <= i < |users| => PlanItemFor(users[i], admin))
  }

  method BuildPlan(users: seq<User>, admin: Admin) returns (plan: seq<PlanItem>)
    ensures plan == PlanFor(users, admin)
  {
    hide Username.Normalize, Username.ArchivedUsername, Username.IsValid, Username.HasArchivedPrefix;
    plan := [PlanItem(None, admin.employeeCode, EnsureAdmin, None)];
    for i := 0 to |users|
      invariant |plan| == i + 1 && plan[0] == PlanItem(None, admin.employeeCode, EnsureAdmin, None)
      invariant forall j :: 0 <= j < i ==> plan[j + 1] == PlanItemFor(users[j], admin)
    {
      var u := users[i];
      if IsReplacementAdmin(u, admin) {
        plan := plan + [PlanItem(Some(u.id), u.employeeCode, SkipAdmin, None)];
        continue;
      }
      var action := if AlreadyArchived(u) then SkipAlreadyArchived else Archive;
      plan := plan + [PlanItem(Some(u.id), u.employeeCode, action, Some(ArchivedName(u)))];
    }
  }

  // --------------------------------------------------------------- verifier

  function FindCode(users: seq<User>, code: Str): (r: Option<User>)
    ensures r.Some? ==> r.value in users && r.value.employeeCode == code
    ensures r.None? ==> forall u :: u in users ==> u.employeeCode != code
  {
    if users == [] then None
    else if users[0].employeeCode == code then Some(users[0])
    else FindCode(users[1..], code)
  }

  predicate IsActiveLegacy(u: User, admin: Admin) {
    && HasName(u) && u.employeeCode != admin.employeeCode && u.status == ACTIVE
    && !Username.HasArchivedPrefix(Username.Normalize(u.username.value))
  }

  /** What the first n users give rise to, kind by kind. */
  ghost predicate FailsAmong(users: seq<User>, admin: Admin, n: nat, f: Failure)
    requires n <= |users|
  {
    match f
    case UsernameNull(code) => exists i :: 0 <= i < n && users[i].employeeCode == code && !HasName(users[i])
    case DuplicateName(name) => exists i, j :: 0 <= i < j < n && HasNormal(users[i], name) && HasNormal(users[j], name)
    case ActiveLegacy(code) => exists i :: 0 <= i < n && users[i].employeeCode == code && IsActiveLegacy(users[i], admin)
    case _ => false
  }

  /** What each failure of the verifier reports. */
  ghost predicate IsFailure(users: seq<User>, admin: Admin, f: Failure) {
    var found := FindCode(users, admin.employeeCode);
    match f
    case AdminMissing => found.None?
    case AdminNotActive => found.Some? && found.value.status != ACTIVE
    case AdminUsernameMismatch => found.Some? && found.value.username != Some(Username.Normalize(admin.username))
    case AdminRoleMissing => found.Some? && !found.value.isSystemAdmin
    case NoActiveAdmin => forall i :: 0 <= i < |users| ==> !(users[i].status == ACTIVE && users[i].isSystemAdmin)
    case _ => FailsAmong(users, admin, |users|, f)
  }

  function AdminFailures(users: seq<User>, admin: Admin): seq<Failure> {
    match FindCode(users, admin.employeeCode)
    case None => [AdminMissing]
    case Some(a) =>
      (if a.status != ACTIVE then [AdminNotActive] else [])
      + (if a.username != Some(Username.Normalize(admin.username)) then [AdminUsernameMismatch] else [])
      + (if !a.isSystemAdmin then [AdminRoleMissing] else [])
  }

  function SeenNames(users: seq<User>, n: nat): set<Str>
    requires n <= |users|
  {
    if n == 0 then {} else
      SeenNames(users, n - 1)
      + (if HasName(users[n - 1]) then {Username.Normalize(users[n - 1].username.value)} else {})
  }

  /** What one user gives rise to, given the names of the users before. */
  function FailuresOf(u: User, admin: Admin, seen: set<Str>): seq<Failure> {
    if !HasName(u) then [UsernameNull(u.employeeCode)]
    else
      var name := Username.Normalize(u.username.value);
      (if name in seen then [DuplicateName(name)] else [])
      + (if IsActiveLegacy(u, admin) then [ActiveLegacy(u.employeeCode)] else [])
  }

  function UserFailures(users: seq<User>, admin: Admin, n: nat): seq<Failure>
    requires n <= |users|
  {
    if n == 0 then [] else UserFailures(users, admin, n - 1) + FailuresOf(users[n - 1], admin, SeenNames(users, n - 1))
  }

  lemma FailuresOfMeaning(u: User, admin: Admin, seen: set<Str>, f: Failure)
    ensures f in FailuresOf(u, admin, seen) <==>
      match f
      case UsernameNull(code) => u.employeeCode == code && !HasName(u)
      case DuplicateName(name) => HasNormal(u, name) && name in seen
      case ActiveLegacy(code) => u.employeeCode == code && IsActiveLegacy(u, admin)
      case _ => false
  {
    hide Username.Normalize, Username.HasArchivedPrefix;
  }

  lemma {:induction false} SeenNamesMeaning(users: seq<User>, n: nat, name: Str)
    requires n <= |users|
    ensures name in SeenNames(users, n) <==> exists i :: 0 <= i < n && HasNormal(users[i], name)
  {
    hide Username.Normalize, Username.ArchivedUsername, Username.IsValid, Username.HasArchivedPrefix;
    if n > 0 { SeenNamesMeaning(users, n - 1, name); }
  }

  lemma NullNamesAmong(users: seq<User>, admin: Admin, n: nat, code: Str)
    requires n < |users|
    ensures FailsAmong(users, admin, n + 1, UsernameNull(code)) <==>
      FailsAmong(users, admin, n, UsernameNull(code)) || (users[n].employeeCode == code && !HasName(users[n]))
  {
    hide HasName;
  }

  lemma LegacyAmong(users: seq<User>, admin: Admin, n: nat, code: Str)
    requires n < |users|
    ensures FailsAmong(users, admin, n + 1, ActiveLegacy(code)) <==>
      FailsAmong(users, admin, n, ActiveLegacy(code)) || (users[n].employeeCode == code && IsActiveLegacy(users[n], admin))
  {
    hide IsActiveLegacy;
  }

  lemma DuplicatesAmong(users: seq<User>, admin: Admin, n: nat, name: Str)
    requires n < |users|
    ensures FailsAmong(users, admin, n + 1, DuplicateName(name)) <==>
      FailsAmong(users, admin, n, DuplicateName(name)) || (HasNormal(users[n], name) && name in SeenNames(users, n))
  {
    SeenNamesMeaning(users, n, name);
    hide HasNormal, SeenNames;
  }

  lemma {:induction false} UserFailuresMeaning(users: seq<User>, admin: Admin, n: nat, f: Failure)
    requires n <= |users|
    ensures f in UserFailures(users, admin, n) <==> FailsAmong(users, admin, n, f)
  {
    hide SeenNames, IsActiveLegacy, HasName, HasNormal, FailuresOf;
    if n > 0 {
      UserFailuresMeaning(users, admin, n - 1, f);
      FailuresOfMeaning(users[n - 1], admin, SeenNames(users, n - 1), f);
      match f
      case UsernameNull(code) => NullNamesAmong(users, admin, n - 1, code);
      case DuplicateName(name) => DuplicatesAmong(users, admin, n - 1, name);
      case ActiveLegacy(code) => LegacyAmong(users, admin, n - 1, code);
      case _ =>
      hide FailsAmong;
    }
  }

  function ActiveAdmins(users: seq<User>, n: nat): (count: nat)
    requires n <= |users|
    ensures count == 0 <==> forall i :: 0 <= i < n ==> !(users[i].status == ACTIVE && users[i].isSystemAdmin)
  {
    if n == 0 then 0
    else ActiveAdmins(users, n - 1) + (if users[n - 1].status == ACTIVE && users[n - 1].isSystemAdmin then 1 else 0)
  }

  function AllFailures(users: seq<User>, admin: Admin): seq<Failure> {
    AdminFailures(users, admin) + UserFailures(users, admin, |users|)
    + (if ActiveAdmins(users, |users|) < 1 then [NoActiveAdmin] else [])
  }

  lemma AllFailuresMeaning(users: seq<User>, admin: Admin, f: Failure)
    ensures f in AllFailures(users, admin) <==> IsFailure(users, admin, f)
  {
    hide Username.Normalize, Username.ArchivedUsername, Username.IsValid, Username.HasArchivedPrefix;
    UserFailuresMeaning(users, admin, |users|, f);
  }

  /** Reports exactly the failures there are. */
  method VerifyInvariants(users: seq<User>, admin: Admin) returns (failures: seq<Failure>)
    ensures forall f :: f in failures <==> IsFailure(users, admin, f)
  {
    hide Username.Normalize, Username.ArchivedUsername, Username.IsValid, Username.HasArchivedPrefix;
    failures := AdminFailures(users, admin);
    var seen: set<Str> := {};
    for i := 0 to |users|
      invariant seen == SeenNames(users, i)
      invariant failures == AdminFailures(users, admin) + UserFailures(users, admin, i)
    {
      var u := users[i];
      if !HasName(u) {
        failures := failures + [UsernameNull(u.employeeCode)];
        continue;
      }
      var normalized := Username.Normalize(u.username.value);
      if normalized in seen {
        failures := failures + [DuplicateName(normalized)];
      }
      seen := seen + {normalized};
      if u.employeeCode != admin.employeeCode && u.status == ACTIVE && !Username.HasArchivedPrefix(normalized) {
        failures := failures + [ActiveLegacy(u.employeeCode)];
      }
    }
    if ActiveAdmins(users, |users|) < 1 {
      failures := failures + [NoActiveAdmin];
    }
    forall f ensures f in failures <==> IsFailure(users, admin, f) {
      AllFailuresMeaning(users, admin, f);
    }
  }

  // -------------------------------------------------------------- execution

  datatype Outcome =
    | ConflictsFound
    | DryRun
    | RoleMissing
    | UniqueViolation
    | AdminCheckFailed
    | SafetyAbort
    | VerificationFailed
    | Completed

  /** The bootstrap input reader hands on normalized usernames only. */
  predicate NormalizedInput(admin: Admin) {
    Username.Normalize(admin.username) == admin.username
  }

  predicate DistinctIds(users: seq<User>) {
    forall i, j :: 0 <= i < j < |users| ==> users[i].id != users[j].id
  }

  /** What an operator can check beforehand, beyond the conflict report: no
      user with another employee code holds the administrator's username or
      would be archived under it, and none has the empty username. */
  predicate CleanUser(u: User, admin: Admin) {
    u.employeeCode != admin.employeeCode ==>
      && u.username != Some([])
      && !HasNormal(u, admin.username)
      && (u.username.None? ==> ArchivedName(u) != admin.username)
  }

  predicate Clean(users: seq<User>, admin: Admin) {
    forall i :: 0 <= i < |users| ==> CleanUser(users[i], admin)
  }

  predicate NeedsArchiving(u: User, admin: Admin) {
    !IsReplacementAdmin(u, admin) && !AlreadyArchived(u) && ArchivedName(u) != []
  }

  /** A user's row once the cutover is over. */
  function Final(u: User, admin: Admin): User {
    if u.employeeCode == admin.employeeCode then
      u.(username := Some(admin.username), status := ACTIVE, isSystemAdmin := true)
    else if NeedsArchiving(u, admin) then u.(username := Some(ArchivedName(u)), status := INACTIVE)
    else u
  }

  predicate HasAdminRow(users: seq<User>, admin: Admin) {
    exists i :: 0 <= i < |users| && users[i].employeeCode == admin.employeeCode
  }

  /** The rows after the administrator's upsert and the first n plan items. */
  function Progress(users: seq<User>, admin: Admin, newId: nat, n: nat): seq<User> {
    seq(|users|, i requires 0 <= i < |users| =>
      if i < n || users[i].employeeCode == admin.employeeCode then Final(users[i], admin) else users[i])
    + (if HasAdminRow(users, admin) then []
       else [User(newId, admin.employeeCode, Some(admin.username), ACTIVE, true)])
  }

  function AfterCutover(users: seq<User>, admin: Admin, newId: nat): seq<User> {
    Progress(users, admin, newId, |users|)
  }

  ghost predicate Verified(users: seq<User>, admin: Admin) {
    forall f :: !IsFailure(users, admin, f)
  }

  lemma DerivedNameFacts(u: User)
    requires u.username.None?
    ensures ArchivedName(u) != [] && Username.Normalize(ArchivedName(u)) == ArchivedName(u)
  {
    Username.ArchivedUsernameIsValid(u.employeeCode);
    Username.ValidIsNormal(ArchivedName(u));
  }

  /** No two users end up under names that differ only in case. */
  lemma NamesApart(users: seq<User>, admin: Admin, i: nat, j: nat)
    requires NoConflicts(users, admin, true) && NormalizedInput(admin) && Clean(users, admin)
    requires i < j < |users|
    requires users[i].employeeCode != admin.employeeCode && users[j].employeeCode != admin.employeeCode
    ensures Username.Normalize(ArchivedName(users[i])) != Username.Normalize(ArchivedName(users[j]))
  {
    hide Username.Normalize, Username.ArchivedUsername, Username.IsValid, Username.HasArchivedPrefix;
    var u, v := users[i], users[j];
    var name := Username.Normalize(ArchivedName(u));
    assert !IsConflict(users, admin, true, DuplicateUsername(name));
    assert !IsConflict(users, admin, true, ArchivedUsernameCollision(u.employeeCode));
    assert !IsConflict(users, admin, true, ArchivedUsernameCollision(v.employeeCode));
    assert !Collides(users, admin, i) && !Collides(users, admin, j);
    if u.username.None? { DerivedNameFacts(u); }
    if v.username.None? { DerivedNameFacts(v); }
    if name == Username.Normalize(ArchivedName(v)) {
      if u.username.Some? && v.username.Some? {
        NameCountTwice(users, |users|, i, j, name);
      } else if u.username.None? && v.username.None? {
        PlannedMeaning(users, admin, j, i);
      } else {
        NameCountPositive(users, |users|, if u.username.None? then j else i, name);
      }
    }
  }

  /** Archived users keep clear of the administrator's name. */
  lemma NameApartFromAdmin(u: User, admin: Admin)
    requires NormalizedInput(admin) && CleanUser(u, admin) && u.employeeCode != admin.employeeCode
    ensures ArchivedName(u) != [] && Username.Normalize(ArchivedName(u)) != admin.username
    ensures !IsReplacementAdmin(u, admin)
  {
    hide Username.Normalize, Username.ArchivedUsername, Username.IsValid, Username.HasArchivedPrefix;
    if u.username.None? { DerivedNameFacts(u); }
  }

  lemma FinalRow(u: User, admin: Admin)
    requires NormalizedInput(admin) && CleanUser(u, admin)
    ensures var f := Final(u, admin);
            && HasName(f) && f.employeeCode == u.employeeCode
            && (if u.employeeCode == admin.employeeCode
                then f.username == Some(admin.username) && f.status == ACTIVE && f.isSystemAdmin
                else f.username == Some(ArchivedName(u)) && f.status == INACTIVE)
    requires admin.username != []
  {
    hide Username.Normalize, Username.ArchivedUsername, Username.IsValid, Username.HasArchivedPrefix;
    if u.employeeCode != admin.employeeCode { NameApartFromAdmin(u, admin); }
  }

  lemma UniqueCodes(users: seq<User>, admin: Admin, i: nat, j: nat)
    requires NoConflicts(users, admin, true) && i < j < |users|
    ensures users[i].employeeCode != users[j].employeeCode
  {
    hide Username.Normalize, Username.ArchivedUsername, Username.IsValid, Username.HasArchivedPrefix;
    assert !IsConflict(users, admin, true, DuplicateEmployeeCode(users[i].employeeCode));
    if users[i].employeeCode == users[j].employeeCode {
      CodeCountTwice(users, |users|, i, j);
    }
  }

  lemma AdminNameNonEmpty(users: seq<User>, admin: Admin)
    requires NoConflicts(users, admin, true) && NormalizedInput(admin)
    ensures admin.username != []
  {
    hide Username.Normalize, Username.ArchivedUsername, Username.HasArchivedPrefix;
    assert !IsConflict(users, admin, true, InvalidAdminUsername);
  }

  /** Final names are pairwise different once normalized. */
  lemma FinalNamesApart(users: seq<User>, admin: Admin, newId: nat, i: nat, j: nat)
    requires NoConflicts(users, admin, true) && NormalizedInput(admin) && Clean(users, admin)
    requires i < j < |AfterCutover(users, admin, newId)|
    ensures var after := AfterCutover(users, admin, newId);
            && HasName(after[i]) && HasName(after[j])
            && Username.Normalize(after[i].username.value) != Username.Normalize(after[j].username.value)
  {
    hide Username.Normalize, Username.ArchivedUsername, Username.IsValid, Username.HasArchivedPrefix;
    AdminNameNonEmpty(users, admin);
    FinalRow(users[i], admin);
    if users[i].employeeCode != admin.employeeCode { NameApartFromAdmin(users[i], admin); }
    if j < |users| {
      FinalRow(users[j], admin);
      UniqueCodes(users, admin, i, j);
      if users[j].employeeCode != admin.employeeCode {
        NameApartFromAdmin(users[j], admin);
        if users[i].employeeCode != admin.employeeCode { NamesApart(users, admin, i, j); }
      }
    }
  }

  lemma AdminRowIndex(users: seq<User>, admin: Admin, newId: nat) returns (k: nat)
    requires admin.username != []
    ensures var after := AfterCutover(users, admin, newId);
            && k < |after| && after[k].employeeCode == admin.employeeCode
            && after[k].username == Some(admin.username) && after[k].status == ACTIVE && after[k].isSystemAdmin
    ensures k < |users| <==> HasAdminRow(users, admin)
    ensures k < |users| ==> users[k].employeeCode == admin.employeeCode
  {
    hide Username.Normalize, Username.ArchivedUsername, Username.IsValid, Username.HasArchivedPrefix;
    if HasAdminRow(users, admin) {
      k :| 0 <= k < |users| && users[k].employeeCode == admin.employeeCode;
    } else {
      k := |users|;
    }
  }

  /** Every row of the finished table, and the administrator's. */
  lemma CleanRows(users: seq<User>, admin: Admin, newId: nat)
    requires NoConflicts(users, admin, true) && NormalizedInput(admin) && Clean(users, admin)
    ensures var after := AfterCutover(users, admin, newId);
            && (forall i :: 0 <= i < |after| ==>
                  && HasName(after[i]) && !IsActiveLegacy(after[i], admin)
                  && (after[i].employeeCode == admin.employeeCode ==>
                        after[i].username == Some(admin.username) && after[i].status == ACTIVE && after[i].isSystemAdmin))
            && (exists k :: 0 <= k < |after| && after[k].employeeCode == admin.employeeCode)
  {
    hide Username.Normalize, Username.ArchivedUsername, Username.IsValid, Username.HasArchivedPrefix;
    AdminNameNonEmpty(users, admin);
    var k := AdminRowIndex(users, admin, newId);
    forall i | 0 <= i < |users| ensures HasName(AfterCutover(users, admin, newId)[i])
      && !IsActiveLegacy(AfterCutover(users, admin, newId)[i], admin)
      && (users[i].employeeCode == admin.employeeCode ==>
        AfterCutover(users, admin, newId)[i].username == Some(admin.username)
        && AfterCutover(users, admin, newId)[i].status == ACTIVE && AfterCutover(users, admin, newId)[i].isSystemAdmin)
    {
      FinalRow(users[i], admin);
    }
  }

  lemma CleanVerifies(users: seq<User>, admin: Admin, newId: nat, f: Failure)
    requires NoConflicts(users, admin, true) && NormalizedInput(admin) && Clean(users, admin)
    ensures !IsFailure(AfterCutover(users, admin, newId), admin, f)
  {
    hide Username.Normalize, Username.ArchivedUsername, Username.IsValid, Username.HasArchivedPrefix;
    var after := AfterCutover(users, admin, newId);
    CleanRows(users, admin, newId);
    if f.DuplicateName? && IsFailure(after, admin, f) {
      var i, j :| 0 <= i < j < |after| && HasNormal(after[i], f.name) && HasNormal(after[j], f.name);
      FinalNamesApart(users, admin, newId, i, j);
    }
    hide AfterCutover, IsActiveLegacy, HasName, NoConflicts, Clean, HasNormal;
    var k :| 0 <= k < |after| && after[k].employeeCode == admin.employeeCode;
    assert after[k] in after;
    var found := FindCode(after, admin.employeeCode);
    var m :| 0 <= m < |after| && after[m] == found.value;
  }

  lemma UncleanFails(users: seq<User>, admin: Admin, newId: nat, i: nat)
    requires NoConflicts(users, admin, true) && NormalizedInput(admin)
    requires i < |users| && !CleanUser(users[i], admin)
    ensures !Verified(AfterCutover(users, admin, newId), admin)
  {
    hide Username.Normalize, Username.ArchivedUsername, Username.IsValid, Username.HasArchivedPrefix;
    var after := AfterCutover(users, admin, newId);
    AdminNameNonEmpty(users, admin);
    var k := AdminRowIndex(users, admin, newId);
    var u := users[i];
    assert after[i] == Final(u, admin);
    if u.username == Some([]) {
      assert IsFailure(after, admin, UsernameNull(u.employeeCode));
    } else {
      if u.username.None? { DerivedNameFacts(u); }
      assert HasNormal(after[i], admin.username) && HasNormal(after[k], admin.username);
      var a, b := if i < k then i else k, if i < k then k else i;
      assert HasNormal(after[a], admin.username) && HasNormal(after[b], admin.username);
      assert IsFailure(after, admin, DuplicateName(admin.username));
    }
  }

  /** After a conflict-free plan is carried out, the verifier has nothing to
      report exactly when the user list was clean to begin with. */
  lemma VerifiedExactlyWhenClean(users: seq<User>, admin: Admin, newId: nat)
    requires NoConflicts(users, admin, true) && NormalizedInput(admin)
    ensures Verified(AfterCutover(users, admin, newId), admin) <==> Clean(users, admin)
  {
    hide Username.Normalize, Username.ArchivedUsername, Username.IsValid, Username.HasArchivedPrefix;
    if Clean(users, admin) {
      forall f ensures !IsFailure(AfterCutover(users, admin, newId), admin, f) {
        CleanVerifies(users, admin, newId, f);
      }
    } else {
      var i :| 0 <= i < |users| && !CleanUser(users[i], admin);
      UncleanFails(users, admin, newId, i);
    }
  }

  lemma LoneUserHasNoConflict(u: User, admin: Admin)
    requires NormalizedInput(admin) && Username.IsValid(admin.username) && !HasName(u)
    requires ArchivedName(u) == admin.username || u.username == Some([])
    ensures NoConflicts([u], admin, true)
  {
    hide Username.Normalize, Username.ArchivedUsername, Username.IsValid, Username.HasArchivedPrefix;
    var users := [u];
    assert forall x :: NameCount(users, 1, x) == NameCount(users, 0, x) == 0;
    assert forall x :: CodeCount(users, 1, x) <= CodeCount(users, 0, x) + 1 == 1;
    assert Planned(users, admin, 0) == {};
    assert !Collides(users, admin, 0);
    forall c ensures !IsConflict(users, admin, true, c) {
    }
  }

  /** A stored empty username passes the conflict check and fails the verifier. */
  lemma EmptyUsernameSlipsThrough()
    ensures var admin := Admin([65], Ascii("root"));
            var users := [User(0, [66], Some([]), ACTIVE, false)];
            && NormalizedInput(admin) && NoConflicts(users, admin, true)
            && !Clean(users, admin) && !Verified(AfterCutover(users, admin, 1), admin)
  {
    var admin := Admin([65], Ascii("root"));
    var u := User(0, [66], Some([]), ACTIVE, false);
    Username.ValidIsNormal(admin.username);
    LoneUserHasNoConflict(u, admin);
    assert !CleanUser(u, admin);
    UncleanFails([u], admin, 1, 0);
  }

  lemma DerivedFromB()
    ensures Username.ArchivedUsername([66]) == Username.ARCHIVED_PREFIX + [98]
  {
    TrimNoWhite([66]);
    assert Lower([66]) == [98] + Lower([]);
    hide Lower, Trim;
    assert Username.Sanitize([98]) == [98];
    assert Username.AllNameUnits(Username.ARCHIVED_PREFIX);
    assert Username.IsValid(Username.ARCHIVED_PREFIX + [98]);
  }

  /** So does an administrator named like a legacy user's derived name. */
  lemma DerivedNameSlipsThrough()
    ensures var admin := Admin([65], Username.ARCHIVED_PREFIX + [98]);
            var users := [User(0, [66], None, ACTIVE, false)];
            && NormalizedInput(admin) && NoConflicts(users, admin, true)
            && !Clean(users, admin) && !Verified(AfterCutover(users, admin, 1), admin)
  {
    var admin := Admin([65], Username.ARCHIVED_PREFIX + [98]);
    var u := User(0, [66], None, ACTIVE, false);
    DerivedFromB();
    Username.ArchivedUsernameIsValid([66]);
    Username.ValidIsNormal(admin.username);
    hide Username.Normalize, Username.ArchivedUsername, Username.IsValid, Username.HasArchivedPrefix;
    LoneUserHasNoConflict(u, admin);
    assert !CleanUser(u, admin);
    UncleanFails([u], admin, 1, 0);
  }

  predicate Taken(users: seq<User>, k: nat, name: Str) {
    exists i :: 0 <= i < |users| && i != k && users[i].username == Some(name)
  }

  /** On a clean list no write meets a username that another row holds. */
  lemma NoTakenName(users: seq<User>, admin: Admin, newId: nat, n: nat)
    requires NoConflicts(users, admin, true) && NormalizedInput(admin) && Clean(users, admin)
    requires n < |users| && users[n].employeeCode != admin.employeeCode
    ensures !Taken(Progress(users, admin, newId, n), n, ArchivedName(users[n]))
  {
    hide Username.Normalize, Username.ArchivedUsername, Username.IsValid, Username.HasArchivedPrefix;
    var rows := Progress(users, admin, newId, n);
    var name := ArchivedName(users[n]);
    NameApartFromAdmin(users[n], admin);
    AdminNameNonEmpty(users, admin);
    forall i | 0 <= i < |rows| && i != n ensures rows[i].username != Some(name) {
      if i < |users| && users[i].employeeCode != admin.employeeCode {
        FinalRow(users[i], admin);
        NamesApart(users, admin, if i < n then i else n, if i < n then n else i);
      }
    }
  }

  lemma NoTakenAdminName(users: seq<User>, admin: Admin, k: nat)
    requires NormalizedInput(admin) && Clean(users, admin) && admin.username != []
    requires forall i :: 0 <= i < |users| && users[i].employeeCode == admin.employeeCode ==> i == k
    ensures !Taken(users, k, admin.username)
  {
    hide Username.Normalize, Username.ArchivedUsername, Username.IsValid, Username.HasArchivedPrefix;
    forall i | 0 <= i < |users| && i != k ensures users[i].username != Some(admin.username) {
      assert CleanUser(users[i], admin);
    }
  }

  function FindIndex(users: seq<User>, code: Str): (k: nat)
    ensures k <= |users|
    ensures k < |users| ==> users[k].employeeCode == code
    ensures k == |users| ==> forall i :: 0 <= i < |users| ==> users[i].employeeCode != code
  {
    if users == [] then 0 else if users[0].employeeCode == code then 0 else 1 + FindIndex(users[1..], code)
  }

  function FindId(users: seq<User>, id: nat): (k: nat)
    ensures k <= |users|
    ensures k < |users| ==> users[k].id == id
    ensures k == |users| ==> forall i :: 0 <= i < |users| ==> users[i].id != id
  {
    if users == [] then 0 else if users[0].id == id then 0 else 1 + FindId(users[1..], id)
  }

  /** The users table, with the unique index on usernames. */
  class UserStore {
    var users: seq<User>
    var nextId: nat

    constructor (rows: seq<User>, freshId: nat)
      ensures users == rows && nextId == freshId
    {
      users, nextId := rows, freshId;
    }

    /** Writes a row unless another one holds its username. */
    method Write(k: nat, row: User) returns (ok: bool)
      requires k < |users| && row.username.Some?
      modifies this`users
      ensures ok == !Taken(old(users), k, row.username.value)
      ensures users == if ok then old(users)[k := row] else old(users)
    {
      ok := !Taken(users, k, row.username.value);
      if ok {
        users := users[k := row];
      }
    }

    method UpsertAdmin(admin: Admin) returns (ok: bool, k: nat)
      requires NoConflicts(users, admin, true) && NormalizedInput(admin)
      modifies this
      ensures Clean(old(users), admin) ==> ok
      ensures ok ==> users == Progress(old(users), admin, old(nextId), 0) && k < |users|
      ensures ok ==> k == FindIndex(old(users), admin.employeeCode)
    {
      hide Username.Normalize, Username.ArchivedUsername, Username.IsValid, Username.HasArchivedPrefix;
      AdminNameNonEmpty(users, admin);
      k := FindIndex(users, admin.employeeCode);
      forall i | 0 <= i < |users| && users[i].employeeCode == admin.employeeCode ensures i == k {
        if i < k { UniqueCodes(users, admin, i, k); } else if k < i { UniqueCodes(users, admin, k, i); }
      }
      if Clean(users, admin) { NoTakenAdminName(users, admin, k); }
      if k < |users| {
        ok := Write(k, users[k].(username := Some(admin.username), status := ACTIVE, isSystemAdmin := true));
      } else {
        ok := !Taken(users, k, admin.username);
        if ok {
          users := users + [User(nextId, admin.employeeCode, Some(admin.username), ACTIVE, true)];
          nextId := nextId + 1;
        }
      }
      assert ok ==> users == Progress(old(users), admin, old(nextId), 0);
    }

    /** Carries out one plan item of an archived user. */
    method ArchiveOne(item: PlanItem, adminId: nat) returns (outcome: Outcome)
      requires item.userId.Some? && item.archivedUsername.Some?
      requires item.userId.value != adminId ==> exists i :: 0 <= i < |users| && users[i].id == item.userId.value
      modifies this`users
      ensures item.userId.value == adminId ==> outcome == SafetyAbort && users == old(users)
      ensures item.userId.value != adminId ==>
        var k := FindId(old(users), item.userId.value);
        if Taken(old(users), k, item.archivedUsername.value) then outcome == UniqueViolation && users == old(users)
        else outcome == Completed
             && users == old(users)[k := old(users)[k].(username := item.archivedUsername, status := INACTIVE)]
    {
      if item.userId.value == adminId {
        return SafetyAbort;
      }
      var k := FindId(users, item.userId.value);
      var ok := Write(k, users[k].(username := item.archivedUsername, status := INACTIVE));
      return if ok then Completed else UniqueViolation;
    }

    method ArchiveAll(plan: seq<PlanItem>, admin: Admin, adminId: nat, ghost before: seq<User>, ghost newId: nat)
      returns (outcome: Outcome)
      requires NoConflicts(before, admin, true) && NormalizedInput(admin)
      requires DistinctIds(before) && forall i :: 0 <= i < |before| ==> before[i].id < newId
      requires plan == PlanFor(before, admin) && users == Progress(before, admin, newId, 0)
      requires FindIndex(before, admin.employeeCode) < |users|
      requires adminId == users[FindIndex(before, admin.employeeCode)].id
      modifies this`users
      ensures outcome == Completed || outcome == UniqueViolation
      ensures Clean(before, admin) ==> outcome == Completed
      ensures outcome == Completed ==> users == AfterCutover(before, admin, newId)
    {
      hide Username.Normalize, Username.ArchivedUsername, Username.IsValid, Username.HasArchivedPrefix;
      hide NoConflicts, NormalizedInput, DistinctIds, Clean, Taken, AlreadyArchived, HasAdminRow, FindIndex, FindId;
      var n := 1;
      while n < |plan|
        invariant 1 <= n <= |plan|
        invariant users == Progress(before, admin, newId, n - 1)
      {
        var item := plan[n];
        ghost var u := before[n - 1];
        assert item == PlanItemFor(u, admin);
        if item.action == Archive && item.archivedUsername.value != [] {
          assert users[n - 1].id == u.id;
          ArchiveTarget(before, admin, newId, n - 1);
          if Clean(before, admin) { NoTakenName(before, admin, newId, n - 1); }
          ghost var rows := users;
          var step := ArchiveOne(item, adminId);
          if step != Completed {
            return step;
          }
          ProgressStep(before, admin, newId, n - 1);
        } else {
          assert Final(u, admin) == u || u.employeeCode == admin.employeeCode;
          ProgressSkip(before, admin, newId, n - 1);
        }
        n := n + 1;
      }
      return Completed;
    }

    /** The script's run: dry by default, and only on a conflict-free list. */
    method Run(admin: Admin, hasAdminRole: bool, managesUsers: bool, execute: bool) returns (outcome: Outcome)
      requires NormalizedInput(admin)
      requires DistinctIds(users) && forall i :: 0 <= i < |users| ==> users[i].id < nextId
      modifies this
      ensures outcome == Completed <==>
        && execute && managesUsers
        && NoConflicts(old(users), admin, hasAdminRole) && Clean(old(users), admin)
      ensures outcome == Completed ==> users == AfterCutover(old(users), admin, old(nextId)) && Verified(users, admin)
      ensures outcome == ConflictsFound <==> !NoConflicts(old(users), admin, hasAdminRole)
      ensures outcome == DryRun <==> NoConflicts(old(users), admin, hasAdminRole) && !execute
      ensures outcome in {ConflictsFound, DryRun} ==> users == old(users) && nextId == old(nextId)
      ensures outcome == AdminCheckFailed ==> !managesUsers && users == Progress(old(users), admin, old(nextId), 0)
      ensures outcome == VerificationFailed ==> users == AfterCutover(old(users), admin, old(nextId)) && !Verified(users, admin)
      ensures outcome != RoleMissing
    {
      hide Username.Normalize, Username.ArchivedUsername, Username.IsValid, Username.HasArchivedPrefix;
      var before, newId := users, nextId;
      var conflicts := DetectConflicts(users, admin, hasAdminRole);
      var plan := BuildPlan(users, admin);
      if |conflicts| > 0 {
        assert conflicts[0] in conflicts;
        return ConflictsFound;
      }
      assert NoConflicts(before, admin, hasAdminRole);
      assert !IsConflict(before, admin, hasAdminRole, MissingAdminRole);
      if !execute {
        return DryRun;
      }
      VerifiedExactlyWhenClean(before, admin, newId);
      var ok, k := UpsertAdmin(admin);
      if !ok {
        return UniqueViolation;
      }
      if !managesUsers {
        return AdminCheckFailed;
      }
      outcome := ArchiveAll(plan, admin, users[k].id, before, newId);
      if outcome != Completed {
        return;
      }
      var failures := VerifyInvariants(users, admin);
      if |failures| > 0 {
        assert failures[0] in failures;
        return VerificationFailed;
      }
    }
  }

  lemma ArchiveTarget(users: seq<User>, admin: Admin, newId: nat, n: nat)
    requires DistinctIds(users) && (forall i :: 0 <= i < |users| ==> users[i].id < newId)
    requires n < |users| && users[n].employeeCode != admin.employeeCode
    ensures var rows := Progress(users, admin, newId, n);
            FindId(rows, users[n].id) == n
    ensures var k := FindIndex(users, admin.employeeCode);
            k < |Progress(users, admin, newId, n)| ==> Progress(users, admin, newId, n)[k].id != users[n].id
  {
    hide Username.Normalize, Username.ArchivedUsername, Username.IsValid, Username.HasArchivedPrefix;
    var rows := Progress(users, admin, newId, n);
    assert forall i :: 0 <= i < |users| ==> rows[i].id == users[i].id;
    assert rows[n].id == users[n].id;
    var k := FindId(rows, users[n].id);
    assert k < |users|;
    assert k == n;
  }

  lemma ProgressStep(users: seq<User>, admin: Admin, newId: nat, n: nat)
    requires n < |users| && users[n].employeeCode != admin.employeeCode && NeedsArchiving(users[n], admin)
    ensures var rows := Progress(users, admin, newId, n);
            rows[n := rows[n].(username := Some(ArchivedName(users[n])), status := INACTIVE)]
              == Progress(users, admin, newId, n + 1)
  {
    hide Username.Normalize, Username.ArchivedUsername, Username.IsValid, Username.HasArchivedPrefix;
  }

  lemma ProgressSkip(users: seq<User>, admin: Admin, newId: nat, n: nat)
    requires n < |users| && (Final(users[n], admin) == users[n] || users[n].employeeCode == admin.employeeCode)
    ensures Progress(users, admin, newId, n) == Progress(users, admin, newId, n + 1)
  {
    hide Username.Normalize, Username.ArchivedUsername, Username.IsValid, Username.HasArchivedPrefix;
  }
}
