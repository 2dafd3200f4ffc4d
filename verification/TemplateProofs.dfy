/** What every run of the template service keeps. */
module TemplateProofs {
  import opened JsText
  import opened Wrappers
  import opened ChecklistEngine
  import opened Templates
  import Sorting

  // --------------------------------------------------------------- invariant

  predicate References(db: Db) {
    && (forall v :: 0 <= v < |db.versions| ==> db.versions[v].templateId < |db.templates|)
    && (forall s :: 0 <= s < |db.sections| ==> db.sections[s].versionId < |db.versions|)
    && (forall i :: 0 <= i < |db.items| ==> db.items[i].sectionId < |db.sections|)
  }

  /** Codes name one template; a template's versions are numbered upwards from 1. */
  predicate Keys(db: Db) {
    && (forall a, b :: 0 <= a < b < |db.templates| ==> db.templates[a].code != db.templates[b].code)
    && (forall a, b :: 0 <= a < b < |db.versions| && db.versions[a].templateId == db.versions[b].templateId
          ==> db.versions[a].number < db.versions[b].number)
    && (forall v :: 0 <= v < |db.versions| ==> db.versions[v].number >= 1)
  }

  /** The current version is one of the template's own and published. */
  predicate CurrentsPublished(db: Db) {
    forall t :: 0 <= t < |db.templates| && db.templates[t].currentVersionId.Some? ==>
      var v := db.templates[t].currentVersionId.value;
      v < |db.versions| && db.versions[v].templateId == t && db.versions[v].status.PUBLISHED?
  }

  predicate PublishedHaveContent(db: Db) {
    forall v :: 0 <= v < |db.versions| && db.versions[v].status.PUBLISHED? ==> HasContent(db, v)
  }

  predicate RulesSound(db: Db) {
    forall i :: 0 <= i < |db.items| ==> RulesOk(db.items[i].rules)
  }

  predicate Sound(db: Db) {
    References(db) && Keys(db) && CurrentsPublished(db) && PublishedHaveContent(db) && RulesSound(db)
  }

  // ------------------------------------------------------------------ frames

  /** No row of a version, its sections or its items differs. */
  predicate SameRows(db: Db, after: Db, v: nat) {
    && |db.sections| <= |after.sections| && |db.items| <= |after.items|
    && (forall s :: 0 <= s < |db.sections| ==> after.sections[s].versionId == db.sections[s].versionId)
    && (forall s :: 0 <= s < |db.sections| && db.sections[s].versionId == v ==> after.sections[s] == db.sections[s])
    && (forall s :: |db.sections| <= s < |after.sections| ==> after.sections[s].versionId != v)
    && (forall i :: 0 <= i < |db.items| ==> after.items[i].sectionId == db.items[i].sectionId)
    && (forall i :: 0 <= i < |db.items| && db.items[i].sectionId in SectionIds(db, v) ==> after.items[i] == db.items[i])
    && (forall i :: |db.items| <= i < |after.items| ==> after.items[i].sectionId !in SectionIds(db, v))
  }

  lemma {:induction false} ItemsToSame(items: seq<ItemRow>, after: seq<ItemRow>, s: nat, n: nat)
    requires n <= |items| && n <= |after|
    requires forall i :: 0 <= i < n && (items[i].sectionId == s || after[i].sectionId == s) ==> after[i] == items[i]
    ensures ItemsTo(after, s, n) == ItemsTo(items, s, n)
  {
    if n > 0 { ItemsToSame(items, after, s, n - 1); }
  }

  lemma {:induction false} ItemsToSkip(items: seq<ItemRow>, s: nat, m: nat, n: nat)
    requires m <= n <= |items| && forall i :: m <= i < n ==> items[i].sectionId != s
    ensures ItemsTo(items, s, n) == ItemsTo(items, s, m)
  {
    if m < n { ItemsToSkip(items, s, m, n - 1); }
  }

  lemma SectionItemsSame(db: Db, after: Db, v: nat, s: nat)
    requires SameRows(db, after, v) && s in SectionIds(db, v)
    ensures SectionItems(after.items, s) == SectionItems(db.items, s)
  {
    ItemsToSame(db.items, after.items, s, |db.items|);
    ItemsToSkip(after.items, s, |db.items|, |after.items|);
  }

  lemma {:induction false} SectionsToSame(db: Db, after: Db, v: nat, n: nat)
    requires SameRows(db, after, v) && n <= |db.sections|
    ensures SectionsTo(after.sections, after.items, v, n) == SectionsTo(db.sections, db.items, v, n)
  {
    hide SectionItems;
    if n > 0 {
      SectionsToSame(db, after, v, n - 1);
      if db.sections[n - 1].versionId == v { SectionItemsSame(db, after, v, n - 1); }
    }
  }

  lemma {:induction false} SectionsToSkip(sections: seq<SectionRow>, items: seq<ItemRow>, v: nat, m: nat, n: nat)
    requires m <= n <= |sections| && forall s :: m <= s < n ==> sections[s].versionId != v
    ensures SectionsTo(sections, items, v, n) == SectionsTo(sections, items, v, m)
  {
    hide SectionItems;
    if m < n { SectionsToSkip(sections, items, v, m, n - 1); }
  }

  /** A version's content depends on its own rows only. */
  lemma SameDefinition(db: Db, after: Db, v: nat)
    requires SameRows(db, after, v)
    ensures Definition(after, v) == Definition(db, v)
  {
    hide SectionItems;
    SectionsToSame(db, after, v, |db.sections|);
    SectionsToSkip(after.sections, after.items, v, |db.sections|, |after.sections|);
  }

  // ------------------------------------------------------------------ clones

  /** Cloning appends one row per section, and the items of each under it. */
  lemma {:induction false} CloneFacts(db: Db, v: nat, source: seq<Section>, n: nat)
    requires n <= |source|
    ensures var after := CloneTo(db, v, source, n);
      && after.templates == db.templates && after.versions == db.versions
      && |after.sections| == |db.sections| + n && db.sections <= after.sections && db.items <= after.items
      && (forall k :: 0 <= k < n ==>
            after.sections[|db.sections| + k] == SectionRow(v, source[k].name, source[k].sortOrder))
      && (forall i :: |db.items| <= i < |after.items| ==>
            && |db.sections| <= after.items[i].sectionId < |after.sections|
            && exists s, j :: 0 <= s < n && 0 <= j < |source[s].items| && after.items[i].rules == source[s].items[j].rules)
  {
    if n > 0 {
      CloneFacts(db, v, source, n - 1);
      var before, after := CloneTo(db, v, source, n - 1), CloneTo(db, v, source, n);
      forall i | |db.items| <= i < |after.items|
        ensures |db.sections| <= after.items[i].sectionId < |after.sections|
        ensures exists s, j :: 0 <= s < n && 0 <= j < |source[s].items| && after.items[i].rules == source[s].items[j].rules
      {
        if i >= |before.items| {
          var j := i - |before.items|;
          assert after.items[i].rules == source[n - 1].items[j].rules;
        } else {
          assert after.items[i] == before.items[i];
        }
      }
    }
  }

  /** What is read from a version is made of rows of the tables. */
  lemma {:induction false} ItemsToMembers(items: seq<ItemRow>, s: nat, n: nat, x: Item)
    requires n <= |items|
    ensures x in ItemsTo(items, s, n) <==>
      x.id < n && items[x.id].sectionId == s && x == Item(x.id, items[x.id].sortOrder, items[x.id].rules)
  {
    if n > 0 { ItemsToMembers(items, s, n - 1, x); }
  }

  lemma SectionItemsMembers(items: seq<ItemRow>, s: nat, x: Item)
    ensures x in SectionItems(items, s) <==>
      x.id < |items| && items[x.id].sectionId == s && x == Item(x.id, items[x.id].sortOrder, items[x.id].rules)
  {
    ItemsToMembers(items, s, |items|, x);
    Sorting.SortMembers(ItemsTo(items, s, |items|), ItemOrder());
  }

  lemma {:induction false} SectionsToMembers(sections: seq<SectionRow>, items: seq<ItemRow>, v: nat, n: nat, x: Section)
    requires n <= |sections|
    ensures x in SectionsTo(sections, items, v, n) <==>
      && x.id < n && sections[x.id].versionId == v
      && x == Section(x.id, sections[x.id].name, sections[x.id].sortOrder, SectionItems(items, x.id))
  {
    hide SectionItems;
    if n > 0 { SectionsToMembers(sections, items, v, n - 1, x); }
  }

  lemma DefinitionMembers(db: Db, v: nat, x: Section)
    ensures x in Definition(db, v) <==>
      && x.id < |db.sections| && db.sections[x.id].versionId == v
      && x == Section(x.id, db.sections[x.id].name, db.sections[x.id].sortOrder, SectionItems(db.items, x.id))
  {
    hide SectionItems;
    SectionsToMembers(db.sections, db.items, v, |db.sections|, x);
    Sorting.SortMembers(SectionsTo(db.sections, db.items, v, |db.sections|), SectionOrder());
  }

  lemma DefinitionRulesOk(db: Db, v: nat)
    requires RulesSound(db)
    ensures forall s, j :: 0 <= s < |Definition(db, v)| && 0 <= j < |Definition(db, v)[s].items|
              ==> RulesOk(Definition(db, v)[s].items[j].rules)
  {
    hide Definition, SectionItems, RulesOk;
    var d := Definition(db, v);
    forall s, j | 0 <= s < |d| && 0 <= j < |d[s].items| ensures RulesOk(d[s].items[j].rules) {
      assert d[s] in d;
      DefinitionMembers(db, v, d[s]);
      assert d[s].items[j] in SectionItems(db.items, d[s].id);
      SectionItemsMembers(db.items, d[s].id, d[s].items[j]);
    }
  }

  // ------------------------------------------------------------- renumbering

  lemma {:induction false} RenumberKeeps<T>(rows: seq<T>, ids: seq<nat>, number: (T, int) -> T, n: nat, k: nat)
    requires n <= |ids| && (forall i :: 0 <= i < |ids| ==> ids[i] < |rows|) && k < |rows|
    requires forall i :: 0 <= i < n ==> ids[i] != k
    ensures RenumberTo(rows, ids, number, n)[k] == rows[k]
  {
    if n > 0 { RenumberKeeps(rows, ids, number, n - 1, k); }
  }

  lemma {:induction false} RenumberSections(rows: seq<SectionRow>, ids: seq<nat>, n: nat, k: nat)
    requires n <= |ids| && (forall i :: 0 <= i < |ids| ==> ids[i] < |rows|) && k < |rows|
    ensures RenumberTo(rows, ids, NumberSection(), n)[k] == rows[k].(sortOrder := RenumberTo(rows, ids, NumberSection(), n)[k].sortOrder)
  {
    if n > 0 { RenumberSections(rows, ids, n - 1, k); }
  }

  lemma {:induction false} RenumberItems(rows: seq<ItemRow>, ids: seq<nat>, n: nat, k: nat)
    requires n <= |ids| && (forall i :: 0 <= i < |ids| ==> ids[i] < |rows|) && k < |rows|
    ensures RenumberTo(rows, ids, NumberItem(), n)[k] == rows[k].(sortOrder := RenumberTo(rows, ids, NumberItem(), n)[k].sortOrder)
  {
    if n > 0 { RenumberItems(rows, ids, n - 1, k); }
  }

  // ------------------------------------------------------- what a step changes

  /** What a step may change: it only adds to the tables and touches the
      content of drafts, and a version's status only moves forward. */
  predicate Follows(db: Db, after: Db) {
    && |db.templates| <= |after.templates| && |db.versions| <= |after.versions|
    && (forall t :: 0 <= t < |db.templates| ==> after.templates[t].code == db.templates[t].code)
    && (forall v :: 0 <= v < |db.versions| ==>
          && after.versions[v].templateId == db.versions[v].templateId && after.versions[v].number == db.versions[v].number
          && (after.versions[v].status == db.versions[v].status || db.versions[v].status.DRAFT? || after.versions[v].status.ARCHIVED?)
          && (after.versions[v].status.DRAFT? ==> db.versions[v].status.DRAFT?)
          && (!db.versions[v].status.DRAFT? ==> SameRows(db, after, v)))
  }

  /** Content stays as long as sections and items keep their parents. */
  lemma ContentStays(db: Db, after: Db, v: nat)
    requires HasContent(db, v)
    requires |db.sections| <= |after.sections| && |db.items| <= |after.items|
    requires forall s :: 0 <= s < |db.sections| ==> after.sections[s].versionId == db.sections[s].versionId
    requires forall i :: 0 <= i < |db.items| ==> after.items[i].sectionId == db.items[i].sectionId
    ensures HasContent(after, v)
  {
    var i :| 0 <= i < |db.items| && db.items[i].sectionId in SectionIds(db, v);
    assert after.items[i].sectionId in SectionIds(after, v);
  }

  /** Only rows of one version differ or are new, and no row changes its parent. */
  predicate TouchesOnly(db: Db, after: Db, v: nat) {
    && after.templates == db.templates && after.versions == db.versions
    && |db.sections| <= |after.sections| && |db.items| <= |after.items|
    && (forall s :: 0 <= s < |db.sections| ==> after.sections[s].versionId == db.sections[s].versionId)
    && (forall s :: 0 <= s < |db.sections| && db.sections[s].versionId != v ==> after.sections[s] == db.sections[s])
    && (forall s :: |db.sections| <= s < |after.sections| ==> after.sections[s].versionId == v)
    && (forall i :: 0 <= i < |db.items| ==> after.items[i].sectionId == db.items[i].sectionId)
    && (forall i :: 0 <= i < |db.items| && db.items[i].sectionId !in SectionIds(db, v) ==> after.items[i] == db.items[i])
    && (forall i :: |db.items| <= i < |after.items| ==> after.items[i].sectionId in SectionIds(after, v))
  }

  lemma TouchesSameRows(db: Db, after: Db, v: nat, w: nat)
    requires TouchesOnly(db, after, v) && w != v
    ensures SameRows(db, after, w)
  {
  }

  lemma TouchesSound(db: Db, after: Db, v: nat)
    requires References(db) && Keys(db) && CurrentsPublished(db) && PublishedHaveContent(db)
    requires TouchesOnly(db, after, v) && v < |db.versions| && RulesSound(after)
    ensures Sound(after)
  {
    hide RulesOk, HasContent;
    forall w | 0 <= w < |db.versions| && db.versions[w].status.PUBLISHED? ensures HasContent(after, w) {
      ContentStays(db, after, w);
    }
  }

  lemma TouchesFollows(db: Db, after: Db, v: nat)
    requires TouchesOnly(db, after, v) && v < |db.versions| && db.versions[v].status.DRAFT?
    ensures Follows(db, after)
  {
    hide SameRows, TouchesOnly;
    assert after.versions == db.versions && after.templates == db.templates by { Touched(db, after, v); }
    forall w | 0 <= w < |db.versions| && !db.versions[w].status.DRAFT? ensures SameRows(db, after, w) {
      TouchesSameRows(db, after, v, w);
    }
  }

  lemma Touched(db: Db, after: Db, v: nat)
    requires TouchesOnly(db, after, v)
    ensures after.templates == db.templates && after.versions == db.versions
  {
  }

  lemma WithDraftSound(db: Db, t: nat)
    requires Sound(db) && t < |db.templates|
    ensures Sound(WithDraft(db, t))
  {
    hide RulesOk, HasContent;
    var added := WithDraft(db, t);
    forall w | 0 <= w < |db.versions| && HasContent(db, w) ensures HasContent(added, w) { ContentStays(db, added, w); }
  }

  lemma CloneTouches(db: Db, v: nat, source: seq<Section>)
    requires References(db) && v < |db.versions| && RulesSound(db)
    requires forall s, j :: 0 <= s < |source| && 0 <= j < |source[s].items| ==> RulesOk(source[s].items[j].rules)
    ensures TouchesOnly(db, CloneTo(db, v, source, |source|), v) && RulesSound(CloneTo(db, v, source, |source|))
  {
    hide RulesOk, CloneTo;
    CloneFacts(db, v, source, |source|);
    var after := CloneTo(db, v, source, |source|);
    forall s | 0 <= s < |after.sections|
      ensures s < |db.sections| ==> after.sections[s] == db.sections[s]
      ensures s >= |db.sections| ==> after.sections[s].versionId == v
    {
      if s >= |db.sections| {
        var k := s - |db.sections|;
        assert after.sections[|db.sections| + k] == SectionRow(v, source[k].name, source[k].sortOrder);
      }
    }
    assert forall i :: 0 <= i < |db.items| ==> after.items[i] == db.items[i];
  }

  lemma CloneFollows(db: Db, code: Str, source: Option<nat>)
    requires Sound(db)
    ensures Follows(db, CreateDraftStep(db, code, source).0)
    ensures Sound(CreateDraftStep(db, code, source).0)
  {
    hide CloneSource, CloneTo, Definition, Follows, Sound, TouchesOnly, RulesSound;
    var t := FindTemplate(db.templates, code);
    SameFollows(db);
    if CreateDraftStep(db, code, source).0 != db {
      var content := CloneSource(db, t, source);
      var added, after := WithDraft(db, t), CloneTo(WithDraft(db, t), |db.versions|, content, |content|);
      WithDraftSound(db, t);
      SoundParts(db);
      SoundParts(added);
      CloneSourceRulesOk(db, t, source);
      CloneTouches(added, |db.versions|, content);
      TouchesSound(added, after, |db.versions|);
      TouchesFollows(added, after, |db.versions|);
      FollowsAdded(db, added, after);
    }
  }

  lemma SoundParts(db: Db)
    requires Sound(db)
    ensures References(db) && Keys(db) && CurrentsPublished(db) && PublishedHaveContent(db) && RulesSound(db)
  {
  }

  lemma CloneSourceRulesOk(db: Db, t: nat, source: Option<nat>)
    requires RulesSound(db)
    ensures var content := CloneSource(db, t, source);
            forall s, j :: 0 <= s < |content| && 0 <= j < |content[s].items| ==> RulesOk(content[s].items[j].rules)
  {
    hide Definition, RulesOk, RulesSound;
    forall v ensures forall s, j :: 0 <= s < |Definition(db, v)| && 0 <= j < |Definition(db, v)[s].items|
                       ==> RulesOk(Definition(db, v)[s].items[j].rules) {
      DefinitionRulesOk(db, v);
    }
  }

  lemma SameFollows(db: Db)
    ensures Follows(db, db)
  {
  }

  /** Versions that exist before a new one is added. */
  lemma FollowsAdded(db: Db, added: Db, after: Db)
    requires Follows(added, after) && |db.versions| <= |added.versions| && added.templates == db.templates
    requires added.sections == db.sections && added.items == db.items
    requires forall v :: 0 <= v < |db.versions| ==> added.versions[v] == db.versions[v]
    ensures Follows(db, after)
  {
    forall v | 0 <= v < |db.versions| && !db.versions[v].status.DRAFT? ensures SameRows(db, after, v) {
      assert SameRows(added, after, v);
    }
  }

  lemma ReorderSectionsTouches(db: Db, v: nat, ids: seq<nat>)
    requires ReorderGuard(ids, SectionIds(db, v))
    ensures TouchesOnly(db, db.(sections := RenumberTo(db.sections, ids, NumberSection(), |ids|)), v)
  {
    hide RenumberTo;
    var after := db.(sections := RenumberTo(db.sections, ids, NumberSection(), |ids|));
    forall k | 0 <= k < |db.sections|
      ensures after.sections[k].versionId == db.sections[k].versionId
      ensures db.sections[k].versionId != v ==> after.sections[k] == db.sections[k]
    {
      RenumberSections(db.sections, ids, |ids|, k);
      if db.sections[k].versionId != v { RenumberKeeps(db.sections, ids, NumberSection(), |ids|, k); }
    }
  }

  lemma ReorderItemsTouches(db: Db, v: nat, s: nat, ids: seq<nat>)
    requires s in SectionIds(db, v) && ReorderGuard(ids, ItemIds(db, s)) && RulesSound(db)
    ensures var after := db.(items := RenumberTo(db.items, ids, NumberItem(), |ids|));
            TouchesOnly(db, after, v) && RulesSound(after)
  {
    hide RenumberTo, RulesOk;
    var after := db.(items := RenumberTo(db.items, ids, NumberItem(), |ids|));
    forall k | 0 <= k < |db.items|
      ensures after.items[k].sectionId == db.items[k].sectionId && after.items[k].rules == db.items[k].rules
      ensures db.items[k].sectionId != s ==> after.items[k] == db.items[k]
    {
      RenumberItems(db.items, ids, |ids|, k);
      if db.items[k].sectionId != s { RenumberKeeps(db.items, ids, NumberItem(), |ids|, k); }
    }
  }

  lemma ContentTouches(db: Db, op: Op)
    requires RulesSound(db) && References(db)
    requires op.AddSection? || op.ReorderSections? || op.AddItem? || op.UpdateItem? || op.ReorderItems?
    requires DraftGuard(db, op.code, op.number).None?
    ensures var after := ContentStep(db, op).0;
            TouchesOnly(db, after, VersionAt(db, op.code, op.number)) && RulesSound(after)
  {
    hide RulesOk, PatchOk, Patched, FindVersion, FindTemplate;
    var v := VersionAt(db, op.code, op.number);
    match op
    case ReorderSections(_, _, ids) =>
      if ReorderGuard(ids, SectionIds(db, v)) { ReorderSectionsTouches(db, v, ids); }
    case ReorderItems(_, _, s, ids) =>
      if s in SectionIds(db, v) && ReorderGuard(ids, ItemIds(db, s)) { ReorderItemsTouches(db, v, s, ids); }
    case AddSection(_, _, _, _) =>
    case AddItem(_, _, s, _) =>
      if s in SectionIds(db, v) { assert s in SectionIds(ContentStep(db, op).0, v); }
    case UpdateItem(_, _, _, _) =>
  }

  lemma ContentStepFollows(db: Db, op: Op)
    requires Sound(db)
    requires op.AddSection? || op.ReorderSections? || op.AddItem? || op.UpdateItem? || op.ReorderItems?
    ensures Follows(db, ContentStep(db, op).0)
    ensures Sound(ContentStep(db, op).0)
  {
    var after := ContentStep(db, op).0;
    if DraftGuard(db, op.code, op.number).Some? {
      SameFollows(db);
    } else {
      var v := VersionAt(db, op.code, op.number);
      ContentTouches(db, op);
      hide ContentStep, TouchesOnly, RulesSound, HasContent, SameRows;
      TouchesFollows(db, after, v);
      TouchesSound(db, after, v);
    }
  }

  lemma StatusStepContent(db: Db, op: Op)
    requires op.PublishVersion? || op.ArchiveVersion? || op.CreateTemplate?
    ensures var after := Step(db, op).0;
            && after.sections == db.sections && after.items == db.items
            && (forall v :: HasContent(after, v) <==> HasContent(db, v))
            && (forall v :: SameRows(db, after, v))
  {
    var after := Step(db, op).0;
    assert after.sections == db.sections && after.items == db.items;
    hide Step;
    forall v ensures HasContent(after, v) <==> HasContent(db, v) {
      if HasContent(db, v) { ContentStays(db, after, v); }
      if HasContent(after, v) { ContentStays(after, db, v); }
    }
  }

  lemma CreateTemplateFollows(db: Db, code: Str)
    requires Sound(db)
    ensures Follows(db, CreateTemplateStep(db, code).0)
    ensures Sound(CreateTemplateStep(db, code).0)
  {
    StatusStepContent(db, CreateTemplate(code));
    hide RulesOk, HasContent, SameRows;
  }

  /** Moving one version's status and its template's pointer. */
  lemma StatusFollows(db: Db, after: Db, v: nat)
    requires References(db) && v < |db.versions| && |after.templates| == |db.templates|
    requires |after.versions| == |db.versions|
    requires after.versions == db.versions[v := db.versions[v].(status := after.versions[v].status)]
    requires forall t :: 0 <= t < |db.templates| ==> after.templates[t].code == db.templates[t].code
    requires after.sections == db.sections && after.items == db.items
    requires db.versions[v].status.DRAFT? || after.versions[v].status.ARCHIVED?
    requires !after.versions[v].status.DRAFT?
    ensures Follows(db, after)
  {
    forall w: nat ensures SameRows(db, after, w) { }
    hide SameRows;
  }

  lemma StatusKeeps(db: Db, after: Db, v: nat)
    requires Sound(db) && v < |db.versions| && |after.templates| == |db.templates|
    requires |after.versions| == |db.versions|
    requires after.versions == db.versions[v := db.versions[v].(status := after.versions[v].status)]
    requires forall t :: 0 <= t < |db.templates| ==> after.templates[t].code == db.templates[t].code
    requires after.sections == db.sections && after.items == db.items
    ensures References(after) && Keys(after) && RulesSound(after)
  {
    hide RulesOk, CurrentsPublished, PublishedHaveContent;
  }

  lemma ContentKept(db: Db, after: Db, v: nat)
    requires PublishedHaveContent(db) && v < |db.versions| && after.sections == db.sections && after.items == db.items
    requires |after.versions| == |db.versions|
    requires after.versions == db.versions[v := db.versions[v].(status := after.versions[v].status)]
    requires after.versions[v].status.PUBLISHED? ==> HasContent(db, v)
    ensures PublishedHaveContent(after)
  {
    hide HasContent;
    forall w | 0 <= w < |after.versions| && after.versions[w].status.PUBLISHED? ensures HasContent(after, w) {
      ContentStays(db, after, w);
    }
  }

  lemma PublishFollows(db: Db, code: Str, number: nat)
    requires Sound(db)
    ensures Follows(db, PublishStep(db, code, number).0)
    ensures Sound(PublishStep(db, code, number).0)
  {
    hide Follows, Keys, RulesSound, PublishedHaveContent, HasContent, FindVersion, FindTemplate;
    var after := PublishStep(db, code, number).0;
    SameFollows(db);
    if after != db {
      var v := VersionAt(db, code, number);
      StatusFollows(db, after, v);
      StatusKeeps(db, after, v);
      ContentKept(db, after, v);
    }
  }

  lemma ArchiveFollows(db: Db, code: Str, number: nat)
    requires Sound(db)
    ensures Follows(db, ArchiveStep(db, code, number).0)
    ensures Sound(ArchiveStep(db, code, number).0)
  {
    hide Follows, Keys, RulesSound, PublishedHaveContent, HasContent, FindVersion, FindTemplate;
    var after := ArchiveStep(db, code, number).0;
    SameFollows(db);
    if after != db {
      var v := VersionAt(db, code, number);
      StatusFollows(db, after, v);
      StatusKeeps(db, after, v);
      ContentKept(db, after, v);
    }
  }

  lemma StepFollows(db: Db, op: Op)
    requires Sound(db)
    ensures Follows(db, Step(db, op).0)
    ensures Sound(Step(db, op).0)
  {
    hide Sound, Follows;
    match op
    case CreateDraftVersion(code, source) => CloneFollows(db, code, source);
    case CreateTemplate(code) => CreateTemplateFollows(db, code);
    case PublishVersion(code, number) => PublishFollows(db, code, number);
    case ArchiveVersion(code, number) => ArchiveFollows(db, code, number);
    case _ => ContentStepFollows(db, op);
  }

  lemma EmptySound()
    ensures Sound(EMPTY)
  {
  }

  /** In every run: the current version of a template is none or one of its own
      published versions, published versions have content, version numbers of a
      template only grow, and every stored item's rules are consistent. */
  lemma {:induction false} EveryRunIsSound(ops: seq<Op>)
    ensures Sound(Run(EMPTY, ops))
  {
    hide Sound, Step, Follows;
    EmptySound();
    if ops != [] {
      EveryRunIsSound(ops[..|ops| - 1]);
      StepFollows(Run(EMPTY, ops[..|ops| - 1]), ops[|ops| - 1]);
    }
  }

  lemma {:induction false} RunSplit(db: Db, ops: seq<Op>, more: seq<Op>)
    ensures Run(db, ops + more) == Run(Run(db, ops), more)
  {
    hide Step;
    if more == [] {
      assert ops + more == ops;
    } else {
      var all := ops + more;
      assert all[..|all| - 1] == ops + more[..|more| - 1] && all[|all| - 1] == more[|more| - 1];
      RunSplit(db, ops, more[..|more| - 1]);
    }
  }

  lemma {:induction false} FrozenFrom(db: Db, more: seq<Op>, v: nat)
    requires Sound(db) && v < |db.versions| && !db.versions[v].status.DRAFT?
    ensures var after := Run(db, more);
            && Sound(after) && v < |after.versions| && !after.versions[v].status.DRAFT?
            && (db.versions[v].status.ARCHIVED? ==> after.versions[v].status.ARCHIVED?)
            && after.versions[v].templateId == db.versions[v].templateId && after.versions[v].number == db.versions[v].number
            && Definition(after, v) == Definition(db, v)
  {
    hide Sound, Step, Definition, SameRows;
    if more != [] {
      FrozenFrom(db, more[..|more| - 1], v);
      var before := Run(db, more[..|more| - 1]);
      StepFollows(before, more[|more| - 1]);
      SameDefinition(before, Run(db, more), v);
    }
  }

  /** Once a version has left DRAFT, in any run, it never returns to it and its
      sections, items and options never change again. */
  lemma PublishedContentNeverChanges(ops: seq<Op>, more: seq<Op>, v: nat)
    requires v < |Run(EMPTY, ops).versions| && !Run(EMPTY, ops).versions[v].status.DRAFT?
    ensures var before, now := Run(EMPTY, ops), Run(EMPTY, ops + more);
            && v < |now.versions| && !now.versions[v].status.DRAFT?
            && (before.versions[v].status.ARCHIVED? ==> now.versions[v].status.ARCHIVED?)
            && Definition(now, v) == Definition(before, v)
  {
    hide Sound, Step, Definition, Run;
    EveryRunIsSound(ops);
    RunSplit(EMPTY, ops, more);
    FrozenFrom(Run(EMPTY, ops), more, v);
  }
}
