/** Which indexes of the users collection survive the ensure script, by name,
    uniqueness and key alone (mongo-index-ensure-rules.js,
    ensure-username-index.js). */
module IndexesKept {
  import opened JsText
  import opened Wrappers
  import opened StableJson
  import opened UsernameIndex

  /** `{ username: 1 }`. */
  const BY_USERNAME := JObj([Member(Ascii("username"), JNum(Ascii("1")))])

  /** `{ username: { $exists: true, $type: "string" } }`. */
  const NAMED_ONLY :=
    JObj([Member(Ascii("username"), JObj([
      Member(Ascii("$exists"), JBool(true)), Member(Ascii("$type"), JStr(Ascii("string")))]))])

  ghost predicate OnUsername(ix: Index) {
    ix.key.Some? && Same(ix.key.value, BY_USERNAME)
  }

  /** The partial unique index, whatever the order of its fields. */
  ghost predicate IsWanted(ix: Index) {
    && ix.name == Ascii("users_username_unique_partial") && ix.unique && OnUsername(ix)
    && ix.partialFilter.Some? && Same(ix.partialFilter.value, NAMED_ONLY)
  }

  /** The other bearers of the two reserved names, and the other unique indexes
      on the username. */
  ghost predicate MustGo(ix: Index) {
    && ix.name != Ascii("_id_") && !IsWanted(ix)
    && (ix.name in {Ascii("users_username_key"), Ascii("users_username_unique_partial")} || (ix.unique && OnUsername(ix)))
  }

  lemma Spelled()
    ensures PARTIAL_NAME == Ascii("users_username_unique_partial") && PRISMA_NAME == Ascii("users_username_key")
    ensures ID_NAME == Ascii("_id_") && USERNAME_KEY == BY_USERNAME && USERNAME_PARTIAL == NAMED_ONLY
  {
    assert Ascii("1") == [49];
  }

  lemma KeyExactly(ix: Index)
    requires WellFormedIndex(ix)
    ensures IndexKeyEquals(ix, USERNAME_KEY) <==> OnUsername(ix)
  {
    Spelled();
    assert WellFormed(USERNAME_KEY);
    if ix.key.Some? { StableStringifyDecidesSame(ix.key.value, USERNAME_KEY); }
    hide StableStringify;
  }

  lemma WantedExactly(ix: Index)
    requires WellFormedIndex(ix)
    ensures IsCorrect(ix) <==> IsWanted(ix)
  {
    Spelled();
    CorrectMeansSame(ix);
    hide Same, IsCorrect, Ascii;
  }

  /** A bearer of the partial name that is not the wanted index, unique or not,
      and what is incompatible: together what must go. */
  lemma GoesExactly(ix: Index)
    requires WellFormedIndex(ix)
    ensures MustGo(ix) <==> IsIncompatible(ix) || (ix.name == PARTIAL_NAME && !IsCorrect(ix))
  {
    Spelled();
    NamesDiffer();
    KeyExactly(ix);
    WantedExactly(ix);
    hide Same, IsCorrect, Ascii, IndexKeyEquals, IsWanted, OnUsername;
  }

  lemma NamesDiffer()
    ensures Ascii("_id_") != Ascii("users_username_unique_partial") && Ascii("_id_") != Ascii("users_username_key")
  {
    assert |Ascii("_id_")| == 4;
  }

  lemma {:induction false} FindsOnly(ixs: seq<Index>, name: Str, ix: Index)
    requires DistinctNames(ixs) && ix in ixs && ix.name == name
    ensures FindNamed(ixs, name) == Some(ix)
  {
    var found := FindNamed(ixs, name);
    SameNameSameIndex(ixs, ix, found.value);
  }

  lemma EnsuredExactly(ixs: seq<Index>)
    requires DistinctNames(ixs)
    ensures var after := Ensured(ixs);
            && (forall ix :: ix in ixs ==>
                  (ix in after <==> ix == DESIRED || !(IsIncompatible(ix) || (ix.name == PARTIAL_NAME && !IsCorrect(ix)))))
            && (forall ix :: ix in after ==> ix in ixs || (ix == DESIRED && forall o :: o in ixs ==> !IsCorrect(o)))
  {
    DesiredIsCorrect();
    EnsuredIsCorrect(ixs);
    CompatibleKeeps(ixs);
    var after := Ensured(ixs);
    forall ix | ix in ixs && ix.name == PARTIAL_NAME ensures FindNamed(ixs, PARTIAL_NAME) == Some(ix) { FindsOnly(ixs, PARTIAL_NAME, ix); }
    if exists o :: o in ixs && IsCorrect(o) {
      var o :| o in ixs && IsCorrect(o);
      assert o.name == PARTIAL_NAME && !IsIncompatible(o);
      FindsOnly(Compatible(ixs), PARTIAL_NAME, o);
    }
    hide IsCorrect, IsIncompatible, FindNamed, FindIncompatible, Compatible;
    assert DESIRED.name == PARTIAL_NAME;
  }

  /** From any list of well-formed indexes with distinct names the script drops
      exactly those that must go, keeps every other one, and adds the wanted
      index when no index was it. */
  lemma DroppedExactly(ixs: seq<Index>)
    requires DistinctNames(ixs) && forall ix :: ix in ixs ==> WellFormedIndex(ix)
    ensures var after := Ensured(ixs);
            && (forall ix :: ix in ixs ==> (ix in after <==> !MustGo(ix)))
            && (forall ix :: ix in after && ix !in ixs ==>
                  ix == Index(Ascii("users_username_unique_partial"), true, Some(BY_USERNAME), Some(NAMED_ONLY)))
            && ((exists ix :: ix in after && ix !in ixs) <==> forall ix :: ix in ixs ==> !IsWanted(ix))
  {
    EnsuredExactly(ixs);
    EnsuredIsCorrect(ixs);
    DesiredIsCorrect();
    Spelled();
    forall ix | ix in ixs
      ensures MustGo(ix) <==> IsIncompatible(ix) || (ix.name == PARTIAL_NAME && !IsCorrect(ix))
      ensures IsCorrect(ix) <==> IsWanted(ix)
    {
      GoesExactly(ix);
      WantedExactly(ix);
    }
    var after := Ensured(ixs);
    var now := FindNamed(after, PARTIAL_NAME).value;
    assert now in after && IsCorrect(now);
    hide IsCorrect, IsIncompatible, MustGo, IsWanted, Ensured, Ascii;
  }

  /** Which indexes stand in the way: all that must go but a bearer of the
      partial name that is not unique. */
  lemma IncompatibleExactly(ix: Index)
    requires WellFormedIndex(ix)
    ensures IsIncompatible(ix) <==> MustGo(ix) && (ix.unique || ix.name == Ascii("users_username_key"))
  {
    Spelled();
    NamesDiffer();
    KeyExactly(ix);
    WantedExactly(ix);
    hide Same, IsCorrect, Ascii, IndexKeyEquals, IsWanted, OnUsername;
  }

  /** The plan: replace when an index must go, else create unless the wanted
      index is there.  The check afterwards passes exactly where the plan would
      change nothing. */
  lemma PlanExactly(ixs: seq<Index>)
    requires DistinctNames(ixs) && forall ix :: ix in ixs ==> WellFormedIndex(ix)
    ensures PlanAction(ixs) == (if exists ix :: ix in ixs && MustGo(ix) then Replace
                                else if exists ix :: ix in ixs && IsWanted(ix) then Unchanged else Create)
    ensures VerifyOutcome(ixs) == if (forall ix :: ix in ixs ==> !MustGo(ix)) && exists ix :: ix in ixs && IsWanted(ix)
                                  then Verified else VerificationFailed
  {
    Spelled();
    forall ix | ix in ixs
      ensures MustGo(ix) <==> IsIncompatible(ix) || (ix.name == PARTIAL_NAME && !IsCorrect(ix))
      ensures IsCorrect(ix) <==> IsWanted(ix)
      ensures ix.name == PARTIAL_NAME ==> FindNamed(ixs, PARTIAL_NAME) == Some(ix)
    {
      GoesExactly(ix);
      WantedExactly(ix);
      if ix.name == PARTIAL_NAME { FindsOnly(ixs, PARTIAL_NAME, ix); }
    }
    assert forall ix :: IsWanted(ix) ==> ix.name == PARTIAL_NAME;
    EmptyWhenNone(FindIncompatible(ixs));
    hide IsCorrect, IsIncompatible, MustGo, IsWanted, Ascii;
    if |FindIncompatible(ixs)| > 0 { assert FindIncompatible(ixs)[0] in FindIncompatible(ixs); }
  }
}
