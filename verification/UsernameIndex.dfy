/** Plan, execute and verify of the partial unique username index
    (mongo-index-ensure-rules.js and ensure-username-index.js). */
module UsernameIndex {
  import opened JsText
  import opened Wrappers
  import opened StableJson

  /** One entry of the collection's index list; `unique` says that the option
      is exactly `true`. */
  datatype Index = Index(name: Str, unique: bool, key: Option<Json>, partialFilter: Option<Json>)

  datatype IndexAction = Unchanged | Create | Replace

  datatype EnsureOutcome = RefusedDuplicates | Verified | VerificationFailed

  const PARTIAL_NAME := Ascii("users_username_unique_partial")
  const PRISMA_NAME := Ascii("users_username_key")
  const ID_NAME := Ascii("_id_")

  const USERNAME_KEY := JObj([Member(Ascii("username"), JNum([49]))])
  const USERNAME_PARTIAL :=
    JObj([Member(Ascii("username"), JObj([
      Member(Ascii("$exists"), JBool(true)),
      Member(Ascii("$type"), JStr(Ascii("string")))]))])

  const DESIRED := Index(PARTIAL_NAME, true, Some(USERNAME_KEY), Some(USERNAME_PARTIAL))

  predicate IndexKeyEquals(ix: Index, expected: Json) {
    && ix.key.Some? && (ix.key.value.JObj? || ix.key.value.JArr?)
    && StableStringify(ix.key.value) == StableStringify(expected)
  }

  predicate IsCorrect(ix: Index) {
    && ix.name == PARTIAL_NAME
    && ix.unique
    && IndexKeyEquals(ix, USERNAME_KEY)
    && PartialFiltersEqual(ix.partialFilter, Some(USERNAME_PARTIAL))
  }

  predicate IsIncompatible(ix: Index) {
    if ix.name == ID_NAME || IsCorrect(ix) then false
    else
      && (IndexKeyEquals(ix, USERNAME_KEY) || ix.name == PRISMA_NAME || ix.name == PARTIAL_NAME)
      && (ix.unique || ix.name == PRISMA_NAME)
  }

  function FindIncompatible(ixs: seq<Index>): (r: seq<Index>)
    ensures forall ix :: ix in r <==> ix in ixs && IsIncompatible(ix)
  {
    if ixs == [] then []
    else if IsIncompatible(ixs[0]) then [ixs[0]] + FindIncompatible(ixs[1..])
    else FindIncompatible(ixs[1..])
  }

  /** First index of the given name. */
  function FindNamed(ixs: seq<Index>, name: Str): (r: Option<Index>)
    ensures r.Some? ==> r.value in ixs && r.value.name == name
    ensures r.None? ==> forall ix :: ix in ixs ==> ix.name != name
  {
    if ixs == [] then None
    else if ixs[0].name == name then Some(ixs[0])
    else FindNamed(ixs[1..], name)
  }

  function PlanAction(ixs: seq<Index>): IndexAction {
    var desired := FindNamed(ixs, PARTIAL_NAME);
    var incompatible := FindIncompatible(ixs);
    if desired.Some? && IsCorrect(desired.value) && |incompatible| == 0 then Unchanged
    else if desired.Some? && IsCorrect(desired.value) && |incompatible| > 0 then Replace
    else if desired.None? && |incompatible| == 0 then Create
    else Replace
  }

  predicate DistinctNames(ixs: seq<Index>) {
    forall i, j :: 0 <= i < j < |ixs| ==> ixs[i].name != ixs[j].name
  }

  /** The list without the indexes carrying one of the names. */
  function Without(ixs: seq<Index>, names: set<Str>): (r: seq<Index>)
    ensures forall ix :: ix in r <==> ix in ixs && ix.name !in names
  {
    if ixs == [] then []
    else if ixs[0].name in names then Without(ixs[1..], names)
    else [ixs[0]] + Without(ixs[1..], names)
  }

  lemma {:induction false} WithoutWithout(ixs: seq<Index>, a: set<Str>, b: set<Str>)
    ensures Without(Without(ixs, a), b) == Without(ixs, a + b)
  {
    if ixs != [] {
      WithoutWithout(ixs[1..], a, b);
      if ixs[0].name !in a {
        assert Without(ixs, a)[1..] == Without(ixs[1..], a);
      }
    }
  }

  lemma {:induction false} WithoutNone(ixs: seq<Index>, names: set<Str>)
    requires forall ix :: ix in ixs ==> ix.name !in names
    ensures Without(ixs, names) == ixs
  {
    if ixs != [] {
      assert forall ix :: ix in ixs[1..] ==> ix in ixs;
      WithoutNone(ixs[1..], names);
    }
  }

  lemma {:induction false} WithoutDistinct(ixs: seq<Index>, names: set<Str>)
    requires DistinctNames(ixs)
    ensures DistinctNames(Without(ixs, names))
  {
    if ixs != [] {
      assert DistinctNames(ixs[1..]) by {
        forall i, j | 0 <= i < j < |ixs| - 1 ensures ixs[1..][i].name != ixs[1..][j].name {
          assert ixs[i + 1].name != ixs[j + 1].name;
        }
      }
      WithoutDistinct(ixs[1..], names);
      var w := Without(ixs[1..], names);
      forall j | 0 <= j < |w| ensures w[j].name != ixs[0].name {
        assert w[j] in w;
        var k :| 0 <= k < |ixs| - 1 && ixs[1..][k] == w[j];
        assert ixs[0].name != ixs[k + 1].name;
      }
    }
  }

  function Names(ixs: seq<Index>): set<Str> {
    set ix | ix in ixs :: ix.name
  }

  lemma SameNameSameIndex(ixs: seq<Index>, a: Index, b: Index)
    requires DistinctNames(ixs) && a in ixs && b in ixs && a.name == b.name
    ensures a == b
  {
    var i :| 0 <= i < |ixs| && ixs[i] == a;
    var j :| 0 <= j < |ixs| && ixs[j] == b;
    assert !(i < j) && !(j < i);
  }

  /** The index list after dropping every incompatible index. */
  function Compatible(ixs: seq<Index>): seq<Index> {
    Without(ixs, Names(FindIncompatible(ixs)))
  }

  /** The list the ensure script leaves behind. */
  function Ensured(ixs: seq<Index>): seq<Index> {
    if PlanAction(ixs) == Unchanged then ixs
    else
      var kept := Compatible(ixs);
      var still := FindNamed(kept, PARTIAL_NAME);
      if still.Some? && IsCorrect(still.value) then kept
      else Without(kept, {PARTIAL_NAME}) + [DESIRED]
  }

  lemma DesiredIsCorrect()
    ensures IsCorrect(DESIRED)
  {
    assert Truthy(Some(USERNAME_PARTIAL));
  }

  lemma CompatibleKeeps(ixs: seq<Index>)
    requires DistinctNames(ixs)
    ensures DistinctNames(Compatible(ixs))
    ensures forall ix :: ix in Compatible(ixs) <==> ix in ixs && !IsIncompatible(ix)
  {
    WithoutDistinct(ixs, Names(FindIncompatible(ixs)));
    forall ix ensures ix in Compatible(ixs) <==> ix in ixs && !IsIncompatible(ix) {
      if ix in ixs && ix.name in Names(FindIncompatible(ixs)) {
        var o :| o in FindIncompatible(ixs) && o.name == ix.name;
        SameNameSameIndex(ixs, ix, o);
      }
    }
  }

  lemma EnsuredMembers(ixs: seq<Index>)
    requires DistinctNames(ixs)
    ensures var after := Ensured(ixs);
            && DistinctNames(after)
            && (forall ix :: ix in ixs && !IsIncompatible(ix) && ix.name != PARTIAL_NAME ==> ix in after)
            && (forall ix :: ix in after ==> ix == DESIRED || (ix in ixs && !IsIncompatible(ix)))
            && (DESIRED in after || (FindNamed(after, PARTIAL_NAME).Some? && IsCorrect(FindNamed(after, PARTIAL_NAME).value)))
  {
    hide IsCorrect, IsIncompatible;
    CompatibleKeeps(ixs);
    if PlanAction(ixs) == Unchanged {
      assert forall ix :: ix in ixs ==> ix !in FindIncompatible(ixs);
    } else {
      WithoutDistinct(Compatible(ixs), {PARTIAL_NAME});
    }
  }

  /** From any list with distinct names, the script ends with the correct
      partial index and no incompatible one, keeps every index that is neither
      incompatible nor a bearer of the reserved name, and brings in nothing
      but the desired index. */
  lemma EnsuredIsCorrect(ixs: seq<Index>)
    requires DistinctNames(ixs)
    ensures var after := Ensured(ixs);
            && DistinctNames(after)
            && FindNamed(after, PARTIAL_NAME).Some? && IsCorrect(FindNamed(after, PARTIAL_NAME).value)
            && FindIncompatible(after) == []
            && (forall ix :: ix in ixs && !IsIncompatible(ix) && ix.name != PARTIAL_NAME ==> ix in after)
            && (forall ix :: ix in after ==> ix == DESIRED || (ix in ixs && !IsIncompatible(ix)))
  {
    var after := Ensured(ixs);
    DesiredIsCorrect();
    assert !IsIncompatible(DESIRED);
    EnsuredMembers(ixs);
    hide Ensured, IsCorrect, IsIncompatible;
    EmptyWhenNone(FindIncompatible(after));
    var found := FindNamed(after, PARTIAL_NAME);
    if DESIRED in after {
      SameNameSameIndex(after, DESIRED, found.value);
    }
  }

  function VerifyOutcome(ixs: seq<Index>): EnsureOutcome {
    var created := FindNamed(ixs, PARTIAL_NAME);
    if created.None? || !IsCorrect(created.value) || |FindIncompatible(ixs)| > 0 then VerificationFailed else Verified
  }

  /** The script's own verification step never fails. */
  lemma EnsuredVerifies(ixs: seq<Index>)
    requires DistinctNames(ixs)
    ensures VerifyOutcome(Ensured(ixs)) == Verified
  {
    EnsuredIsCorrect(ixs);
  }

  lemma EmptyWhenNone<T>(s: seq<T>)
    ensures (forall x :: x !in s) ==> s == []
  {
    if s != [] { assert s[0] in s; }
  }

  /** Running the script again plans no change and changes nothing. */
  lemma EnsureIsIdempotent(ixs: seq<Index>)
    requires DistinctNames(ixs)
    ensures PlanAction(Ensured(ixs)) == Unchanged && Ensured(Ensured(ixs)) == Ensured(ixs)
  {
    EnsuredIsCorrect(ixs);
  }

  /** The plan says "unchanged" exactly on the lists the script leaves alone. */
  lemma UnchangedExactlyOnFixpoints(ixs: seq<Index>)
    requires DistinctNames(ixs)
    ensures PlanAction(ixs) == Unchanged <==> Ensured(ixs) == ixs
  {
    EnsureIsIdempotent(ixs);
  }

  predicate WellFormedIndex(ix: Index) {
    (ix.key.Some? ==> WellFormed(ix.key.value)) && (ix.partialFilter.Some? ==> WellFormed(ix.partialFilter.value))
  }

  /** What being correct means for an index, whatever the order in which its
      key and filter list their fields. */
  lemma CorrectMeansSame(ix: Index)
    requires WellFormedIndex(ix)
    ensures IsCorrect(ix) <==>
      && ix.name == PARTIAL_NAME && ix.unique
      && ix.key.Some? && Same(ix.key.value, USERNAME_KEY)
      && ix.partialFilter.Some? && Same(ix.partialFilter.value, USERNAME_PARTIAL)
  {
    assert WellFormed(USERNAME_KEY);
    var filter := USERNAME_PARTIAL.members[0].value;
    assert filter.members[0].key != filter.members[1].key;
    assert WellFormed(filter);
    assert WellFormed(USERNAME_PARTIAL);
    PartialFiltersEqualDecidesSame(ix.partialFilter, USERNAME_PARTIAL);
    if ix.key.Some? {
      StableStringifyDecidesSame(ix.key.value, USERNAME_KEY);
    }
  }

  /** The users collection, as far as its index list goes. */
  class UsersCollection {
    var indexes: seq<Index>

    constructor (existing: seq<Index>)
      ensures indexes == existing
    {
      indexes := existing;
    }

    method DropIndex(name: Str)
      modifies this
      ensures indexes == Without(old(indexes), {name})
    {
      indexes := Without(indexes, {name});
    }

    method CreateIndex(ix: Index)
      modifies this
      ensures indexes == old(indexes) + [ix]
    {
      indexes := indexes + [ix];
    }

    method DropAll(doomed: seq<Index>)
      modifies this
      ensures indexes == Without(old(indexes), Names(doomed))
    {
      ghost var existing := indexes;
      var i := 0;
      WithoutNone(existing, {});
      assert Names(doomed[..0]) == {};
      while i < |doomed|
        invariant 0 <= i <= |doomed|
        invariant indexes == Without(existing, Names(doomed[..i]))
      {
        DropIndex(doomed[i].name);
        WithoutWithout(existing, Names(doomed[..i]), {doomed[i].name});
        assert doomed[..i + 1] == doomed[..i] + [doomed[i]];
        assert Names(doomed[..i + 1]) == Names(doomed[..i]) + {doomed[i].name};
        i := i + 1;
      }
      assert doomed[..i] == doomed;
    }

    method Verify() returns (outcome: EnsureOutcome)
      ensures outcome == VerifyOutcome(indexes)
    {
      var created := FindNamed(indexes, PARTIAL_NAME);
      if created.None? || !IsCorrect(created.value) {
        return VerificationFailed;
      }
      var leftover := FindIncompatible(indexes);
      if |leftover| > 0 {
        return VerificationFailed;
      }
      return Verified;
    }

    /** The script's main sequence; `duplicateGroups` is the number of user
        groups sharing a username. */
    method EnsureUsernameIndex(duplicateGroups: nat) returns (outcome: EnsureOutcome)
      requires DistinctNames(indexes)
      modifies this
      ensures duplicateGroups > 0 ==> outcome == RefusedDuplicates && indexes == old(indexes)
      ensures duplicateGroups == 0 ==> outcome == Verified && indexes == Ensured(old(indexes))
    {
      if duplicateGroups > 0 {
        return RefusedDuplicates;
      }
      var action := PlanAction(indexes);
      var incompatible := FindIncompatible(indexes);
      if action != Unchanged {
        DropAll(incompatible);
        var stillDesired := FindNamed(indexes, PARTIAL_NAME);
        if stillDesired.None? || !IsCorrect(stillDesired.value) {
          if stillDesired.Some? {
            DropIndex(PARTIAL_NAME);
          } else {
            WithoutNone(indexes, {PARTIAL_NAME});
          }
          CreateIndex(DESIRED);
        }
      }
      assert indexes == Ensured(old(indexes));
      EnsuredVerifies(old(indexes));
      outcome := Verify();
    }
  }
}
