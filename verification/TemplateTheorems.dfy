/** Clones, and what a reordering reads back as. */
module TemplateTheorems {
  import opened JsText
  import opened Wrappers
  import opened ChecklistEngine
  import opened Templates
  import opened TemplateProofs
  import Sorting

  // ------------------------------------------------------------------ clones

  datatype ItemContent = ItemContent(sortOrder: int, rules: ItemRules)

  datatype SectionContent = SectionContent(name: Str, sortOrder: int, items: seq<ItemContent>)

  function ItemContents(items: seq<Item>): (r: seq<ItemContent>)
    ensures |r| == |items|
  {
    seq(|items|, i requires 0 <= i < |items| => ItemContent(items[i].sortOrder, items[i].rules))
  }

  /** What a version says, whatever ids its rows have. */
  function Contents(sections: seq<Section>): (r: seq<SectionContent>)
    ensures |r| == |sections|
  {
    seq(|sections|, i requires 0 <= i < |sections| =>
      SectionContent(sections[i].name, sections[i].sortOrder, ItemContents(sections[i].items)))
  }

  function FreshItems(first: nat, source: seq<Item>, n: nat): seq<Item>
    requires n <= |source|
  {
    seq(n, j requires 0 <= j < n => Item(first + j, source[j].sortOrder, source[j].rules))
  }

  lemma {:induction false} ItemsToCloned(before: seq<ItemRow>, s: nat, source: seq<Item>, n: nat)
    requires n <= |source| && forall i :: 0 <= i < |before| ==> before[i].sectionId != s
    ensures ItemsTo(before + ClonedItems(s, source), s, |before| + n) == FreshItems(|before|, source, n)
  {
    if n == 0 {
      ItemsToSkip(before + ClonedItems(s, source), s, 0, |before|);
    } else {
      ItemsToCloned(before, s, source, n - 1);
    }
  }

  /** The items of a section cloned last are the source's, under new ids. */
  lemma LastClonedItems(before: seq<ItemRow>, s: nat, source: seq<Item>)
    requires forall i :: 0 <= i < |before| ==> before[i].sectionId != s
    requires Sorting.SortedBy(source, ItemOrder())
    ensures SectionItems(before + ClonedItems(s, source), s) == FreshItems(|before|, source, |source|)
  {
    ItemsToCloned(before, s, source, |source|);
    Sorting.SortOfSorted(FreshItems(|before|, source, |source|), ItemOrder());
  }

  predicate ReadsAs(items: seq<Item>, source: seq<Item>, first: nat) {
    ItemContents(items) == ItemContents(source) && forall x :: x in items ==> x.id >= first
  }

  lemma LastClonedReads(before: seq<ItemRow>, s: nat, source: seq<Item>, first: nat)
    requires forall i :: 0 <= i < |before| ==> before[i].sectionId != s
    requires Sorting.SortedBy(source, ItemOrder()) && first <= |before|
    ensures ReadsAs(SectionItems(before + ClonedItems(s, source), s), source, first)
  {
    LastClonedItems(before, s, source);
    hide SectionItems;
  }

  /** Items appended under other sections change nothing. */
  lemma OtherItemsAppended(before: seq<ItemRow>, added: seq<ItemRow>, s: nat)
    requires forall i :: 0 <= i < |added| ==> added[i].sectionId != s
    ensures SectionItems(before + added, s) == SectionItems(before, s)
  {
    var after := before + added;
    ItemsToSame(before, after, s, |before|);
    ItemsToSkip(after, s, |before|, |after|);
  }

  lemma ParentsBelow(db: Db, v: nat, source: seq<Section>, n: nat)
    requires References(db) && n <= |source|
    ensures var r := CloneTo(db, v, source, n);
            && |db.items| <= |r.items| && |r.sections| == |db.sections| + n
            && forall i :: 0 <= i < |r.items| ==> r.items[i].sectionId < |r.sections|
  {
    CloneFacts(db, v, source, n);
    hide CloneTo;
    var r := CloneTo(db, v, source, n);
    assert forall i :: 0 <= i < |db.items| ==> r.items[i] == db.items[i];
  }

  lemma {:induction false} ClonedItemsRead(db: Db, v: nat, source: seq<Section>, n: nat, k: nat)
    requires References(db) && k < n <= |source|
    requires forall i :: 0 <= i < |source| ==> Sorting.SortedBy(source[i].items, ItemOrder())
    ensures ReadsAs(SectionItems(CloneTo(db, v, source, n).items, |db.sections| + k), source[k].items, |db.items|)
  {
    hide SectionItems, ReadsAs;
    var before, added := CloneTo(db, v, source, n - 1), ClonedItems(|db.sections| + n - 1, source[n - 1].items);
    ParentsBelow(db, v, source, n - 1);
    assert CloneTo(db, v, source, n).items == before.items + added;
    hide CloneTo;
    if k == n - 1 {
      LastClonedReads(before.items, |db.sections| + k, source[k].items, |db.items|);
    } else {
      ClonedItemsRead(db, v, source, n - 1, k);
      OtherItemsAppended(before.items, added, |db.sections| + k);
    }
  }

  lemma {:induction false} SectionsToRange(sections: seq<SectionRow>, items: seq<ItemRow>, v: nat, m: nat, n: nat)
    requires m <= n <= |sections|
    requires forall s :: 0 <= s < m ==> sections[s].versionId != v
    requires forall s :: m <= s < n ==> sections[s].versionId == v
    ensures SectionsTo(sections, items, v, n) == RangeSections(sections, items, m, n)
  {
    hide SectionItems;
    if m == n { SectionsToSkip(sections, items, v, 0, n); } else { SectionsToRange(sections, items, v, m, n - 1); }
  }

  function RangeSections(sections: seq<SectionRow>, items: seq<ItemRow>, m: nat, n: nat): seq<Section>
    requires m <= n <= |sections|
  {
    seq(n - m, k requires 0 <= k < n - m =>
      Section(m + k, sections[m + k].name, sections[m + k].sortOrder, SectionItems(items, m + k)))
  }

  predicate InReadingOrder(sections: seq<Section>) {
    && (forall i, j :: 0 <= i < j < |sections| ==> sections[i].sortOrder <= sections[j].sortOrder)
    && (forall i, j, k :: 0 <= i < |sections| && 0 <= j < k < |sections[i].items|
          ==> sections[i].items[j].sortOrder <= sections[i].items[k].sortOrder)
  }

  lemma DefinitionInOrder(db: Db, v: nat)
    ensures InReadingOrder(Definition(db, v))
  {
    hide SectionItems;
    var d := Definition(db, v);
    Sorting.SortSorted(SectionsTo(db.sections, db.items, v, |db.sections|), SectionOrder());
    forall i, j, k | 0 <= i < |d| && 0 <= j < k < |d[i].items| ensures d[i].items[j].sortOrder <= d[i].items[k].sortOrder {
      assert d[i] in d;
      DefinitionMembers(db, v, d[i]);
      SectionItemsSorted(db.items, d[i].id);
    }
    assert forall i, j :: 0 <= i < j < |d| ==> SectionOrder()(d[i]) <= SectionOrder()(d[j]);
  }

  lemma SectionItemsSorted(items: seq<ItemRow>, s: nat)
    ensures var r := SectionItems(items, s); forall j, k :: 0 <= j < k < |r| ==> r[j].sortOrder <= r[k].sortOrder
  {
    Sorting.SortSorted(ItemsTo(items, s, |items|), ItemOrder());
    var r := SectionItems(items, s);
    assert forall j, k :: 0 <= j < k < |r| ==> ItemOrder()(r[j]) <= ItemOrder()(r[k]);
  }

  lemma ClonedRows(db: Db, v: nat, source: seq<Section>)
    ensures var after := CloneTo(db, v, source, |source|);
            && |after.sections| == |db.sections| + |source|
            && (forall s :: 0 <= s < |db.sections| ==> after.sections[s] == db.sections[s])
            && (forall k :: 0 <= k < |source| ==>
                  after.sections[|db.sections| + k] == SectionRow(v, source[k].name, source[k].sortOrder))
            && (forall s :: |db.sections| <= s < |after.sections| ==> after.sections[s].versionId == v)
  {
    CloneFacts(db, v, source, |source|);
    hide CloneTo;
    var after, m := CloneTo(db, v, source, |source|), |db.sections|;
    forall s | m <= s < |after.sections| ensures after.sections[s].versionId == v {
      var k := s - m;
      assert after.sections[m + k] == SectionRow(v, source[k].name, source[k].sortOrder);
    }
  }

  lemma ClonedDefinition(db: Db, v: nat, source: seq<Section>)
    requires InReadingOrder(source)
    requires forall s :: 0 <= s < |db.sections| ==> db.sections[s].versionId != v
    ensures var after := CloneTo(db, v, source, |source|);
            && |after.sections| == |db.sections| + |source|
            && (forall k :: 0 <= k < |source| ==>
                  after.sections[|db.sections| + k] == SectionRow(v, source[k].name, source[k].sortOrder))
            && Definition(after, v) == RangeSections(after.sections, after.items, |db.sections|, |after.sections|)
  {
    hide CloneTo, SectionItems;
    ClonedRows(db, v, source);
    var after := CloneTo(db, v, source, |source|);
    SectionsToRange(after.sections, after.items, v, |db.sections|, |after.sections|);
    hide SectionsTo;
    RangeInOrder(after.sections, after.items, |db.sections|, |after.sections|, source);
  }

  lemma RangeInOrder(sections: seq<SectionRow>, items: seq<ItemRow>, m: nat, n: nat, source: seq<Section>)
    requires InReadingOrder(source) && m + |source| == n <= |sections|
    requires forall k :: 0 <= k < |source| ==> sections[m + k].sortOrder == source[k].sortOrder
    ensures var d := RangeSections(sections, items, m, n); Sorting.Sort(d, SectionOrder()) == d
  {
    hide SectionItems;
    var d := RangeSections(sections, items, m, n);
    assert forall k :: 0 <= k < |d| ==> d[k].sortOrder == source[k].sortOrder;
    Sorting.SortOfSorted(d, SectionOrder());
  }

  /** A source in reading order, cloned under a version without sections, reads
      back with the same content; all its rows are new. */
  lemma CloneReadsBack(db: Db, v: nat, source: seq<Section>)
    requires References(db) && InReadingOrder(source)
    requires forall s :: 0 <= s < |db.sections| ==> db.sections[s].versionId != v
    ensures var d := Definition(CloneTo(db, v, source, |source|), v);
            && Contents(d) == Contents(source)
            && forall x :: x in d ==> x.id >= |db.sections| && forall y :: y in x.items ==> y.id >= |db.items|
  {
    hide CloneTo, SectionItems, ItemContents, Definition;
    ClonedDefinition(db, v, source);
    var d := Definition(CloneTo(db, v, source, |source|), v);
    forall k | 0 <= k < |source| ensures ReadsAs(d[k].items, source[k].items, |db.items|) {
      ClonedItemsRead(db, v, source, |source|, k);
    }
    assert Contents(d) == Contents(source);
    forall x | x in d ensures x.id >= |db.sections| && forall y :: y in x.items ==> y.id >= |db.items| {
      var k :| 0 <= k < |d| && d[k] == x;
      assert ReadsAs(d[k].items, source[k].items, |db.items|);
    }
  }

  /** A new draft of a reachable template says exactly what its source says,
      under fresh section and item ids and the next version number, and every
      other version stays as it was. */
  lemma CloneCopiesContent(ops: seq<Op>, code: Str, source: Option<nat>)
    requires Step(Run(EMPTY, ops), CreateDraftVersion(code, source)).1.Done?
    ensures var db := Run(EMPTY, ops);
            var (after, outcome) := Step(db, CreateDraftVersion(code, source));
            var v, t := outcome.versionId, FindTemplate(db.templates, code);
            && v == |db.versions| && |after.versions| == v + 1
            && after.versions[v].templateId == t && after.versions[v].status.DRAFT?
            && (forall w :: 0 <= w < v && db.versions[w].templateId == t ==> db.versions[w].number < after.versions[v].number)
            && Contents(Definition(after, v)) == Contents(CloneSource(db, t, source))
            && (forall x :: x in Definition(after, v) ==> x.id >= |db.sections| && forall y :: y in x.items ==> y.id >= |db.items|)
            && (forall w :: 0 <= w < v ==> Definition(after, w) == Definition(db, w))
  {
    hide Run;
    EveryRunIsSound(ops);
    var db := Run(EMPTY, ops);
    var t := FindTemplate(db.templates, code);
    var content := CloneSource(db, t, source);
    SourceInOrder(db, t, source);
    CloneFromSound(db, t, source);
  }

  lemma SourceInOrder(db: Db, t: nat, source: Option<nat>)
    ensures InReadingOrder(CloneSource(db, t, source))
  {
    hide Definition, InReadingOrder;
    forall v ensures InReadingOrder(Definition(db, v)) { DefinitionInOrder(db, v); }
    assert InReadingOrder([]) by { NothingInOrder(); }
  }

  lemma NothingInOrder()
    ensures InReadingOrder([])
  {
  }

  lemma CloneFromSound(db: Db, t: nat, source: Option<nat>)
    requires Sound(db) && t < |db.templates|
    ensures var v, content := |db.versions|, CloneSource(db, t, source);
            var after := CloneTo(WithDraft(db, t), v, content, |content|);
            && after.versions == WithDraft(db, t).versions
            && Contents(Definition(after, v)) == Contents(content)
            && (forall x :: x in Definition(after, v) ==> x.id >= |db.sections| && forall y :: y in x.items ==> y.id >= |db.items|)
            && (forall w :: 0 <= w < v ==> Definition(after, w) == Definition(db, w))
  {
    var v, content, added := |db.versions|, CloneSource(db, t, source), WithDraft(db, t);
    var after := CloneTo(added, v, content, |content|);
    SourceInOrder(db, t, source);
    WithDraftSound(db, t);
    SoundParts(db);
    SoundParts(added);
    CloneSourceRulesOk(db, t, source);
    CloneTouches(added, v, content);
    CloneReadsBack(added, v, content);
    Touched(added, after, v);
    hide CloneTo, CloneSource, Contents, Definition, TouchesOnly, SameRows;
    forall w | 0 <= w < v ensures Definition(after, w) == Definition(db, w) {
      TouchesSameRows(added, after, v, w);
      SameDefinition(added, after, w);
      DefinitionIgnoresVersions(db, added, w);
    }
  }

  lemma DefinitionIgnoresVersions(db: Db, added: Db, w: nat)
    requires added.sections == db.sections && added.items == db.items
    ensures Definition(added, w) == Definition(db, w)
  {
  }

  // ---------------------------------------------------------------- reorders

  predicate Distinct(ids: seq<nat>) {
    forall a, b :: 0 <= a < b < |ids| ==> ids[a] != ids[b]
  }

  function IdSet(ids: seq<nat>): set<nat> {
    set id | id in ids
  }

  lemma {:induction false} DistinctCount(ids: seq<nat>)
    ensures |IdSet(ids)| <= |ids|
    ensures |IdSet(ids)| == |ids| <==> Distinct(ids)
  {
    if ids != [] {
      var init, last := ids[..|ids| - 1], ids[|ids| - 1];
      DistinctCount(init);
      assert ids == init + [last];
      assert IdSet(ids) == IdSet(init) + {last};
      if last in init {
        assert IdSet(ids) == IdSet(init);
        assert !Distinct(ids);
      } else {
        assert Distinct(init) <==> Distinct(ids);
      }
    }
  }

  lemma SubsetCount(a: set<nat>, b: set<nat>)
    requires a <= b
    ensures |a| <= |b|
    ensures |a| == |b| ==> a == b
  {
    assert b == a + (b - a);
    assert |b| == |a| + |b - a|;
  }

  /** The pigeonhole behind the guard: what passes it is a permutation of the
      existing ids exactly when it repeats none. */
  lemma GuardMeansPermutation(ids: seq<nat>, existing: set<nat>)
    requires ReorderGuard(ids, existing)
    ensures Distinct(ids) <==> IdSet(ids) == existing
    ensures Distinct(ids) <==> forall id :: id in existing ==> id in ids
  {
    DistinctCount(ids);
    SubsetCount(IdSet(ids), existing);
    if forall id :: id in existing ==> id in ids { assert IdSet(ids) == existing; }
  }

  lemma {:induction false} RenumberAt<T>(rows: seq<T>, ids: seq<nat>, number: (T, int) -> T, n: nat, k: nat)
    requires k < n <= |ids| && (forall i :: 0 <= i < |ids| ==> ids[i] < |rows|) && Distinct(ids)
    ensures RenumberTo(rows, ids, number, n)[ids[k]] == number(rows[ids[k]], k)
  {
    if k == n - 1 { RenumberKeeps(rows, ids, number, k, ids[k]); } else { RenumberAt(rows, ids, number, n - 1, k); }
  }

  lemma {:induction false} SectionsToCount(sections: seq<SectionRow>, items: seq<ItemRow>, v: nat, n: nat)
    requires n <= |sections|
    ensures |SectionsTo(sections, items, v, n)| == |set s | 0 <= s < n && sections[s].versionId == v|
  {
    hide SectionItems;
    if n > 0 {
      SectionsToCount(sections, items, v, n - 1);
      var before, now := set s | 0 <= s < n - 1 && sections[s].versionId == v, set s | 0 <= s < n && sections[s].versionId == v;
      assert now == if sections[n - 1].versionId == v then before + {n - 1} else before;
    }
  }

  lemma {:induction false} ItemsToCount(items: seq<ItemRow>, s: nat, n: nat)
    requires n <= |items|
    ensures |ItemsTo(items, s, n)| == |set i | 0 <= i < n && items[i].sectionId == s|
  {
    if n > 0 {
      ItemsToCount(items, s, n - 1);
      var before, now := set i | 0 <= i < n - 1 && items[i].sectionId == s, set i | 0 <= i < n && items[i].sectionId == s;
      assert now == if items[n - 1].sectionId == s then before + {n - 1} else before;
    }
  }

  function SectionIdsOf(sections: seq<Section>): (r: seq<nat>)
    ensures |r| == |sections|
  {
    seq(|sections|, k requires 0 <= k < |sections| => sections[k].id)
  }

  lemma DefinitionCount(db: Db, v: nat)
    ensures |Definition(db, v)| == |SectionIds(db, v)|
  {
    hide SectionItems;
    SectionsToCount(db.sections, db.items, v, |db.sections|);
    Sorting.SortMembers(SectionsTo(db.sections, db.items, v, |db.sections|), SectionOrder());
  }

  lemma ReorderedSections(db: Db, v: nat, ids: seq<nat>, k: nat)
    requires ReorderGuard(ids, SectionIds(db, v)) && Distinct(ids) && k < |ids|
    ensures var rows := RenumberTo(db.sections, ids, NumberSection(), |ids|);
            rows[ids[k]] == db.sections[ids[k]].(sortOrder := k)
  {
    RenumberAt(db.sections, ids, NumberSection(), |ids|, k);
  }

  /** Reading a version's sections back after an accepted reordering gives
      exactly the requested order if and only if no id was repeated; then each
      section has only its sort order changed. */
  lemma SectionsReadBackInOrder(db: Db, code: Str, number: nat, ids: seq<nat>)
    requires Step(db, ReorderSections(code, number, ids)).1.Done?
    ensures var (after, outcome) := Step(db, ReorderSections(code, number, ids));
            var d := Definition(after, outcome.versionId);
            && (SectionIdsOf(d) == ids <==> Distinct(ids))
            && (Distinct(ids) ==> forall k :: 0 <= k < |ids| ==>
                  ids[k] < |db.sections| && k < |d|
                  && d[k] == Section(ids[k], db.sections[ids[k]].name, k, SectionItems(db.items, ids[k])))
            && after == db.(sections := after.sections)
            && (forall w :: w != outcome.versionId ==> Definition(after, w) == Definition(db, w))
  {
    var (after, outcome) := Step(db, ReorderSections(code, number, ids));
    var v := outcome.versionId;
    assert ReorderGuard(ids, SectionIds(db, v)) && after.items == db.items;
    hide Definition, SectionItems, Step;
    ReorderSectionsTouches(db, v, ids);
    assert SectionIds(after, v) == SectionIds(db, v);
    GuardMeansPermutation(ids, SectionIds(db, v));
    var d := Definition(after, v);
    if SectionIdsOf(d) == ids {
      forall id | id in SectionIds(db, v) ensures id in ids { DefinitionHolds(after, v, id); }
    }
    if Distinct(ids) {
      forall k | 0 <= k < |ids|
        ensures k < |d| && d[k] == Section(ids[k], db.sections[ids[k]].name, k, SectionItems(db.items, ids[k]))
      {
        SectionAtPlace(db, after, v, ids, k);
      }
      DefinitionCount(after, v);
    }
    forall w | w != v ensures Definition(after, w) == Definition(db, w) {
      TouchesSameRows(db, after, v, w);
      SameDefinition(db, after, w);
    }
  }

  lemma DefinitionHolds(db: Db, v: nat, id: nat)
    requires id in SectionIds(db, v)
    ensures id in SectionIdsOf(Definition(db, v))
  {
    hide Definition, SectionItems;
    var x := Section(id, db.sections[id].name, db.sections[id].sortOrder, SectionItems(db.items, id));
    DefinitionMembers(db, v, x);
    var p :| 0 <= p < |Definition(db, v)| && Definition(db, v)[p] == x;
    assert SectionIdsOf(Definition(db, v))[p] == id;
  }

  lemma SectionAtPlace(db: Db, after: Db, v: nat, ids: seq<nat>, k: nat)
    requires ReorderGuard(ids, SectionIds(db, v)) && Distinct(ids) && k < |ids|
    requires after == db.(sections := RenumberTo(db.sections, ids, NumberSection(), |ids|))
    requires SectionIds(after, v) == SectionIds(db, v) && IdSet(ids) == SectionIds(db, v)
    ensures var d := Definition(after, v);
            k < |d| && d[k] == Section(ids[k], db.sections[ids[k]].name, k, SectionItems(db.items, ids[k]))
  {
    var d := Definition(after, v);
    DefinitionCount(after, v);
    Sorting.SortSorted(SectionsTo(after.sections, after.items, v, |after.sections|), SectionOrder());
    hide Definition, SectionItems, RenumberTo;
    forall i | 0 <= i < |d| ensures Sorting.HasKey(d, SectionOrder(), i) {
      ReorderedSections(db, v, ids, i);
      var x := Section(ids[i], db.sections[ids[i]].name, i, SectionItems(db.items, ids[i]));
      DefinitionMembers(after, v, x);
      var p :| 0 <= p < |d| && d[p] == x;
      assert SectionOrder()(d[p]) == i;
    }
    Sorting.SortedCover(d, SectionOrder(), k);
    assert d[k] in d && d[k].sortOrder == k;
    DefinitionMembers(after, v, d[k]);
    assert d[k].id in IdSet(ids);
    var j :| 0 <= j < |ids| && ids[j] == d[k].id;
    ReorderedSections(db, v, ids, j);
  }

  function ItemIdsOf(items: seq<Item>): (r: seq<nat>)
    ensures |r| == |items|
  {
    seq(|items|, k requires 0 <= k < |items| => items[k].id)
  }

  lemma SectionItemsCount(db: Db, s: nat)
    ensures |SectionItems(db.items, s)| == |ItemIds(db, s)|
  {
    ItemsToCount(db.items, s, |db.items|);
    Sorting.SortMembers(ItemsTo(db.items, s, |db.items|), ItemOrder());
  }

  lemma SectionItemsHold(db: Db, s: nat, id: nat)
    requires id in ItemIds(db, s)
    ensures id in ItemIdsOf(SectionItems(db.items, s))
  {
    hide SectionItems;
    var x := Item(id, db.items[id].sortOrder, db.items[id].rules);
    SectionItemsMembers(db.items, s, x);
    var p :| 0 <= p < |SectionItems(db.items, s)| && SectionItems(db.items, s)[p] == x;
    assert ItemIdsOf(SectionItems(db.items, s))[p] == id;
  }

  lemma ItemAtPlace(db: Db, after: Db, s: nat, ids: seq<nat>, k: nat)
    requires ReorderGuard(ids, ItemIds(db, s)) && Distinct(ids) && k < |ids|
    requires after == db.(items := RenumberTo(db.items, ids, NumberItem(), |ids|))
    requires ItemIds(after, s) == ItemIds(db, s) && IdSet(ids) == ItemIds(db, s)
    ensures var d := SectionItems(after.items, s);
            k < |d| && d[k] == Item(ids[k], k, db.items[ids[k]].rules)
  {
    var d := SectionItems(after.items, s);
    SectionItemsCount(after, s);
    Sorting.SortSorted(ItemsTo(after.items, s, |after.items|), ItemOrder());
    hide SectionItems, RenumberTo;
    forall i | 0 <= i < |d| ensures Sorting.HasKey(d, ItemOrder(), i) {
      RenumberAt(db.items, ids, NumberItem(), |ids|, i);
      var x := Item(ids[i], i, db.items[ids[i]].rules);
      SectionItemsMembers(after.items, s, x);
      var p :| 0 <= p < |d| && d[p] == x;
      assert ItemOrder()(d[p]) == i;
    }
    Sorting.SortedCover(d, ItemOrder(), k);
    assert d[k] in d && d[k].sortOrder == k;
    SectionItemsMembers(after.items, s, d[k]);
    assert d[k].id in IdSet(ids);
    var j :| 0 <= j < |ids| && ids[j] == d[k].id;
    RenumberAt(db.items, ids, NumberItem(), |ids|, j);
  }

  /** The same for the items of one section; the items of every other section,
      and all section rows, stay as they were. */
  lemma ItemsReadBackInOrder(db: Db, code: Str, number: nat, s: nat, ids: seq<nat>)
    requires Step(db, ReorderItems(code, number, s, ids)).1.Done?
    ensures var after := Step(db, ReorderItems(code, number, s, ids)).0;
            var d := SectionItems(after.items, s);
            && (ItemIdsOf(d) == ids <==> Distinct(ids))
            && (Distinct(ids) ==> forall k :: 0 <= k < |ids| ==>
                  ids[k] < |db.items| && k < |d| && d[k] == Item(ids[k], k, db.items[ids[k]].rules))
            && after == db.(items := after.items)
            && (forall t :: t != s ==> SectionItems(after.items, t) == SectionItems(db.items, t))
  {
    var after := Step(db, ReorderItems(code, number, s, ids)).0;
    assert ReorderGuard(ids, ItemIds(db, s)) && after.sections == db.sections;
    hide SectionItems, Step;
    forall k | 0 <= k < |db.items|
      ensures after.items[k].sectionId == db.items[k].sectionId
      ensures db.items[k].sectionId != s ==> after.items[k] == db.items[k]
    {
      RenumberItems(db.items, ids, |ids|, k);
      if db.items[k].sectionId != s { RenumberKeeps(db.items, ids, NumberItem(), |ids|, k); }
    }
    assert ItemIds(after, s) == ItemIds(db, s);
    GuardMeansPermutation(ids, ItemIds(db, s));
    var d := SectionItems(after.items, s);
    if ItemIdsOf(d) == ids {
      forall id | id in ItemIds(db, s) ensures id in ids { SectionItemsHold(after, s, id); }
    }
    if Distinct(ids) {
      forall k | 0 <= k < |ids| ensures k < |d| && d[k] == Item(ids[k], k, db.items[ids[k]].rules) {
        ItemAtPlace(db, after, s, ids, k);
      }
      SectionItemsCount(after, s);
    }
    forall t | t != s ensures SectionItems(after.items, t) == SectionItems(db.items, t) {
      SameItemRows(db.items, after.items, t);
    }
  }

  lemma SameItemRows(items: seq<ItemRow>, after: seq<ItemRow>, t: nat)
    requires |after| == |items|
    requires forall k :: 0 <= k < |items| ==> after[k].sectionId == items[k].sectionId
    requires forall k :: 0 <= k < |items| && items[k].sectionId == t ==> after[k] == items[k]
    ensures SectionItems(after, t) == SectionItems(items, t)
  {
    ItemsToSame(items, after, t, |items|);
  }

  // ------------------------------------------------- the schema's unique keys

  /** What the unique keys (templateVersionId, sortOrder) of sections and
      (sectionId, sortOrder) of items look at. */
  datatype KeyRow = KeyRow(parent: nat, sortOrder: int)

  function SectionKeys(rows: seq<SectionRow>): (r: seq<KeyRow>)
    ensures |r| == |rows|
  {
    seq(|rows|, k requires 0 <= k < |rows| => KeyRow(rows[k].versionId, rows[k].sortOrder))
  }

  function ItemKeys(rows: seq<ItemRow>): (r: seq<KeyRow>)
    ensures |r| == |rows|
  {
    seq(|rows|, k requires 0 <= k < |rows| => KeyRow(rows[k].sectionId, rows[k].sortOrder))
  }

  function NumberKey(): (KeyRow, int) -> KeyRow { (row: KeyRow, n: int) => row.(sortOrder := n) }

  function Siblings(rows: seq<KeyRow>, parent: nat): set<nat> {
    set k | 0 <= k < |rows| && rows[k].parent == parent
  }

  /** Another row of the same parent holds this sort order. */
  predicate Occupied(rows: seq<KeyRow>, id: nat, order: int)
    requires id < |rows|
  {
    exists j :: 0 <= j < |rows| && j != id && rows[j].parent == rows[id].parent && rows[j].sortOrder == order
  }

  /** The updates of a reordering with the key enforced update by update: the
      first occupied number ends the transaction. */
  function KeyedRenumberTo(rows: seq<KeyRow>, ids: seq<nat>, n: nat): (r: Option<seq<KeyRow>>)
    requires n <= |ids| && forall k :: 0 <= k < |ids| ==> ids[k] < |rows|
    ensures r.Some? ==> r.value == RenumberTo(rows, ids, NumberKey(), n)
  {
    if n == 0 then Some(rows)
    else
      match KeyedRenumberTo(rows, ids, n - 1)
      case None => None
      case Some(before) =>
        if Occupied(before, ids[n - 1], n - 1) then None
        else Some(before[ids[n - 1] := NumberKey()(before[ids[n - 1]], n - 1)])
  }

  /** Another row of the parent, not yet renumbered when the n-th update comes,
      holds number n from before. */
  predicate HeldByOther(rows: seq<KeyRow>, parent: nat, ids: seq<nat>, n: nat)
    requires n < |ids|
  {
    exists j :: 0 <= j < |rows| && rows[j].parent == parent && j != ids[n] && j !in ids[..n] && rows[j].sortOrder == n
  }

  /** After n updates: rows that were named hold numbers below n, the others
      what they held. */
  lemma {:induction false} OrdersAfter(rows: seq<KeyRow>, ids: seq<nat>, n: nat, j: nat)
    requires (forall i :: 0 <= i < |ids| ==> ids[i] < |rows|) && n <= |ids| && j < |rows|
    ensures var now := RenumberTo(rows, ids, NumberKey(), n)[j];
            && now.parent == rows[j].parent
            && (if j in ids[..n] then 0 <= now.sortOrder < n else now == rows[j])
  {
    if n > 0 {
      OrdersAfter(rows, ids, n - 1, j);
      assert ids[..n] == ids[..n - 1] + [ids[n - 1]];
    }
  }

  lemma OccupiedExactly(rows: seq<KeyRow>, parent: nat, ids: seq<nat>, n: nat)
    requires ReorderGuard(ids, Siblings(rows, parent)) && n < |ids|
    ensures Occupied(RenumberTo(rows, ids, NumberKey(), n), ids[n], n) <==> HeldByOther(rows, parent, ids, n)
  {
    var before := RenumberTo(rows, ids, NumberKey(), n);
    hide RenumberTo;
    forall j | 0 <= j < |rows|
      ensures before[j].parent == rows[j].parent
      ensures before[j].sortOrder == n <==> rows[j].sortOrder == n && j !in ids[..n]
    {
      OrdersAfter(rows, ids, n, j);
    }
    assert ids[n] in Siblings(rows, parent);
  }

  /** A request that passes the guard goes through exactly when no update
      writes a number that a sibling not yet renumbered holds. */
  lemma {:induction false} KeyedExactly(rows: seq<KeyRow>, parent: nat, ids: seq<nat>, n: nat)
    requires ReorderGuard(ids, Siblings(rows, parent)) && n <= |ids|
    ensures KeyedRenumberTo(rows, ids, n).Some? <==> forall k :: 0 <= k < n ==> !HeldByOther(rows, parent, ids, k)
  {
    hide HeldByOther, Occupied, RenumberTo;
    if n > 0 {
      KeyedExactly(rows, parent, ids, n - 1);
      OccupiedExactly(rows, parent, ids, n - 1);
    }
  }

  /** Some row of the parent holds this number. */
  predicate HeldBySome(rows: seq<KeyRow>, parent: nat, order: int) {
    exists j :: 0 <= j < |rows| && rows[j].parent == parent && rows[j].sortOrder == order
  }

  /** The rows of a parent hold every number from 0 up to their own count. */
  predicate NumberedFromZero(rows: seq<KeyRow>, parent: nat) {
    forall m :: 0 <= m < |Siblings(rows, parent)| ==> HeldBySome(rows, parent, m)
  }

  /** Whether a request leaves every number as it is. */
  predicate MovesNone(rows: seq<KeyRow>, ids: seq<nat>, n: nat)
    requires n <= |ids| && forall i :: 0 <= i < |ids| ==> ids[i] < |rows|
  {
    forall a :: 0 <= a < n ==> rows[ids[a]].sortOrder == a
  }

  lemma {:induction false} FreeMeansUnmoved(rows: seq<KeyRow>, parent: nat, ids: seq<nat>, n: nat)
    requires ReorderGuard(ids, Siblings(rows, parent)) && NumberedFromZero(rows, parent) && n <= |ids|
    requires forall k :: 0 <= k < n ==> !HeldByOther(rows, parent, ids, k)
    ensures MovesNone(rows, ids, n)
  {
    if n > 0 {
      FreeMeansUnmoved(rows, parent, ids, n - 1);
      assert HeldBySome(rows, parent, n - 1);
      var j :| 0 <= j < |rows| && rows[j].parent == parent && rows[j].sortOrder == n - 1;
      assert !HeldByOther(rows, parent, ids, n - 1);
    }
  }

  /** Under the key, a request over rows numbered from 0 is accepted exactly
      when it moves none of them, and then repeats none. */
  lemma KeyRefusesEveryMove(rows: seq<KeyRow>, parent: nat, ids: seq<nat>)
    requires ReorderGuard(ids, Siblings(rows, parent)) && NumberedFromZero(rows, parent)
    ensures KeyedRenumberTo(rows, ids, |ids|).Some? <==> MovesNone(rows, ids, |ids|)
    ensures KeyedRenumberTo(rows, ids, |ids|).Some? ==> Distinct(ids)
  {
    KeyedExactly(rows, parent, ids, |ids|);
    hide KeyedRenumberTo, IdSet;
    if forall k :: 0 <= k < |ids| ==> !HeldByOther(rows, parent, ids, k) { FreeMeansUnmoved(rows, parent, ids, |ids|); }
    if MovesNone(rows, ids, |ids|) {
      assert Distinct(ids);
      GuardMeansPermutation(ids, Siblings(rows, parent));
      forall k | 0 <= k < |ids| ensures !HeldByOther(rows, parent, ids, k) {
        forall j | 0 <= j < |rows| && rows[j].parent == parent && rows[j].sortOrder == k ensures j == ids[k] {
          assert j in Siblings(rows, parent);
        }
      }
    }
  }

  lemma {:induction false} SectionKeysFollow(rows: seq<SectionRow>, ids: seq<nat>, n: nat)
    requires n <= |ids| && forall i :: 0 <= i < |ids| ==> ids[i] < |rows|
    ensures SectionKeys(RenumberTo(rows, ids, NumberSection(), n)) == RenumberTo(SectionKeys(rows), ids, NumberKey(), n)
  {
    if n > 0 { SectionKeysFollow(rows, ids, n - 1); }
  }

  lemma {:induction false} ItemKeysFollow(rows: seq<ItemRow>, ids: seq<nat>, n: nat)
    requires n <= |ids| && forall i :: 0 <= i < |ids| ==> ids[i] < |rows|
    ensures ItemKeys(RenumberTo(rows, ids, NumberItem(), n)) == RenumberTo(ItemKeys(rows), ids, NumberKey(), n)
  {
    if n > 0 { ItemKeysFollow(rows, ids, n - 1); }
  }

  /** An accepted section request under the key: it goes through, to the same
      table, exactly when no update writes a number that a section not yet
      renumbered holds; for sections numbered from 0, exactly when it moves none. */
  lemma SectionMovesRefused(db: Db, code: Str, number: nat, ids: seq<nat>)
    requires Step(db, ReorderSections(code, number, ids)).1.Done?
    ensures forall i :: 0 <= i < |ids| ==> ids[i] < |db.sections|
    ensures var (after, outcome) := Step(db, ReorderSections(code, number, ids));
            var rows, v := SectionKeys(db.sections), outcome.versionId;
            var keyed := KeyedRenumberTo(rows, ids, |ids|);
            && (keyed.Some? <==> forall k :: 0 <= k < |ids| ==> !HeldByOther(rows, v, ids, k))
            && (keyed.Some? ==> keyed.value == SectionKeys(after.sections))
            && (NumberedFromZero(rows, v) ==> (keyed.Some? <==> MovesNone(rows, ids, |ids|)))
  {
    var (after, outcome) := Step(db, ReorderSections(code, number, ids));
    var v, rows := outcome.versionId, SectionKeys(db.sections);
    assert ReorderGuard(ids, SectionIds(db, v));
    assert after.sections == RenumberTo(db.sections, ids, NumberSection(), |ids|);
    hide Step, RenumberTo, HeldByOther, NumberedFromZero, MovesNone;
    assert SectionIds(db, v) == Siblings(rows, v);
    SectionKeysFollow(db.sections, ids, |ids|);
    KeyedExactly(rows, v, ids, |ids|);
    if NumberedFromZero(rows, v) { KeyRefusesEveryMove(rows, v, ids); }
  }

  /** The same for the items of one section. */
  lemma ItemMovesRefused(db: Db, code: Str, number: nat, s: nat, ids: seq<nat>)
    requires Step(db, ReorderItems(code, number, s, ids)).1.Done?
    ensures forall i :: 0 <= i < |ids| ==> ids[i] < |db.items|
    ensures var after, rows := Step(db, ReorderItems(code, number, s, ids)).0, ItemKeys(db.items);
            var keyed := KeyedRenumberTo(rows, ids, |ids|);
            && (keyed.Some? <==> forall k :: 0 <= k < |ids| ==> !HeldByOther(rows, s, ids, k))
            && (keyed.Some? ==> keyed.value == ItemKeys(after.items))
            && (NumberedFromZero(rows, s) ==> (keyed.Some? <==> MovesNone(rows, ids, |ids|)))
  {
    var after, rows := Step(db, ReorderItems(code, number, s, ids)).0, ItemKeys(db.items);
    assert ReorderGuard(ids, ItemIds(db, s));
    assert after.items == RenumberTo(db.items, ids, NumberItem(), |ids|);
    hide Step, RenumberTo, HeldByOther, NumberedFromZero, MovesNone;
    assert ItemIds(db, s) == Siblings(rows, s);
    ItemKeysFollow(db.items, ids, |ids|);
    KeyedExactly(rows, s, ids, |ids|);
    if NumberedFromZero(rows, s) { KeyRefusesEveryMove(rows, s, ids); }
  }

  // -------------------------------------------------------- repeated ids

  /** A template with a draft of two sections, numbered 0 and 5. */
  const GAPPED := Db([TemplateRow([65], None)], [VersionRow(0, 1, DRAFT)],
                     [SectionRow(0, [66], 0), SectionRow(0, [67], 5)], [])

  const BUILDING: seq<Op> :=
    [CreateTemplate([65])] + [AddSection([65], 1, [66], Some(0))] + [AddSection([65], 1, [67], Some(5))]

  lemma RunSnoc(db: Db, ops: seq<Op>, o: Op)
    ensures Run(db, ops + [o]) == Step(Run(db, ops), o).0
  {
    hide Step;
    assert (ops + [o])[..|ops|] == ops;
  }

  lemma BuildingRuns()
    ensures Run(EMPTY, BUILDING) == GAPPED
  {
    RunSnoc(EMPTY, [], CreateTemplate([65]));
    RunSnoc(EMPTY, [CreateTemplate([65])], AddSection([65], 1, [66], Some(0)));
    RunSnoc(EMPTY, [CreateTemplate([65])] + [AddSection([65], 1, [66], Some(0))], AddSection([65], 1, [67], Some(5)));
    assert [] + [CreateTemplate([65])] == [CreateTemplate([65])];
    assert Run(EMPTY, []) == EMPTY;
    hide Run;
    var db1 := Step(EMPTY, CreateTemplate([65])).0;
    assert db1 == Db([TemplateRow([65], None)], [VersionRow(0, 1, DRAFT)], [], []);
    var db2 := Step(db1, AddSection([65], 1, [66], Some(0))).0;
    assert db2 == db1.(sections := [SectionRow(0, [66], 0)]);
  }

  lemma RepeatedUpdates()
    ensures RenumberTo(GAPPED.sections, [0, 0], NumberSection(), 2) == [SectionRow(0, [66], 1), SectionRow(0, [67], 5)]
  {
    assert RenumberTo(GAPPED.sections, [0, 0], NumberSection(), 0) == GAPPED.sections;
    assert RenumberTo(GAPPED.sections, [0, 0], NumberSection(), 1) == GAPPED.sections;
  }

  /** From an empty database: over sections numbered 0 and 5, a request that
      names the first of them twice is accepted, passes the key, leaves them at
      1 and 5, and does not read back. */
  lemma RepeatedIdIsAccepted()
    ensures var db := Run(EMPTY, BUILDING);
            var (after, outcome) := Step(db, ReorderSections([65], 1, [0, 0]));
            && SectionIds(db, 0) == {0, 1} && outcome == Done(0)
            && KeyedRenumberTo(SectionKeys(db.sections), [0, 0], 2).Some?
            && SectionKeys(after.sections) == [KeyRow(0, 1), KeyRow(0, 5)]
            && SectionIdsOf(Definition(after, 0)) != [0, 0]
  {
    BuildingRuns();
    RepeatedUpdates();
    hide Run;
    var db, ids := GAPPED, [0, 0];
    assert SectionIds(db, 0) == {0, 1};
    assert ReorderGuard(ids, {0, 1});
    var (after, outcome) := Step(db, ReorderSections([65], 1, ids));
    assert outcome == Done(0) && after.sections == RenumberTo(db.sections, ids, NumberSection(), 2) by { hide RenumberTo; }
    hide Step, Definition, RenumberTo, KeyedRenumberTo;
    SectionsReadBackInOrder(db, [65], 1, ids);
    assert ids[0] == ids[1];
    SectionMovesRefused(db, [65], 1, ids);
    var rows := SectionKeys(db.sections);
    assert rows == [KeyRow(0, 0), KeyRow(0, 5)];
    assert forall k :: 0 <= k < 2 ==> !HeldByOther(rows, 0, ids, k);
  }
}
