/** What the editing calls of a template accept and store, field by field
    (checklist-templates.service.ts, checklist-engine.ts). */
module TemplateEdits {
  import opened JsText
  import opened Wrappers
  import opened ChecklistEngine
  import opened ChecklistMeaning
  import opened Templates
  import opened TemplateProofs
  import opened PublishedVersions
  import TT = TemplateTheorems
  import Sorting

  // ------------------------------------------------------------------- rules

  /** Text of so many units once trimmed. */
  predicate Within(t: Str, least: nat, most: nat) {
    var n := |Trim(t)|;
    least <= n && n <= most
  }

  predicate GoodOption(o: ItemOption) {
    Within(o.value, 1, 100) && Within(o.caption, 1, 200) && o.sortOrder >= 0
  }

  /** What a request may bring, field by field. */
  predicate GoodRequest(p: ItemPatch) {
    && (p.caption.Some? ==> Within(p.caption.value, 1, 300))
    && (p.helpText.Some? ==> Within(p.helpText.value, 0, 1000))
    && (p.defaultResponse.Some? ==> Within(p.defaultResponse.value, 0, 200))
    && (p.sortOrder.Some? ==> 0 <= p.sortOrder.value)
    && p.minValue != Some(NaN) && p.maxValue != Some(NaN)
  }

  /** What the rules must be once the request is merged in. */
  predicate GoodRules(rules: ItemRules) {
    && (rules.minValue.Some? && rules.maxValue.Some? ==> !Below(rules.maxValue.value, rules.minValue.value))
    && (rules.itemType == SINGLE_SELECT ==> |rules.options| > 0)
    && |rules.options| <= 50 && forall i :: 0 <= i < |rules.options| ==> GoodOption(rules.options[i])
  }

  lemma GoodExactly(p: ItemPatch, rules: ItemRules)
    ensures PatchOk(p) <==> GoodRequest(p)
    ensures RulesOk(rules) <==> GoodRules(rules)
  {
    BelowExactly();
    hide Trim, NumLess, Below;
  }

  /** The options as they are read: those of the request by their own sort order
      or, without one, by their place in it. */
  ghost predicate OptionsTaken(given: seq<OptionInput>, stored: seq<ItemOption>) {
    && (forall a, b :: 0 <= a < b < |stored| ==> stored[a].sortOrder <= stored[b].sortOrder)
    && multiset(stored) == multiset(seq(|given|, i requires 0 <= i < |given| =>
         ItemOption(given[i].value, given[i].caption, if given[i].sortOrder.Some? then given[i].sortOrder.value else i)))
  }

  /** Each field of the stored rules is the one the request brings, else the
      one there was. */
  ghost predicate Taken(before: ItemRules, p: ItemPatch, after: ItemRules) {
    && after.caption == (if p.caption.Some? then p.caption.value else before.caption)
    && after.helpText == (if p.helpText.Some? then p.helpText else before.helpText)
    && after.itemType == (if p.itemType.Some? then p.itemType.value else before.itemType)
    && after.isRequired == (if p.isRequired.Some? then p.isRequired.value else before.isRequired)
    && after.allowNotApplicable == (if p.allowNotApplicable.Some? then p.allowNotApplicable.value else before.allowNotApplicable)
    && after.requiresEvidenceOnFail
       == (if p.requiresEvidenceOnFail.Some? then p.requiresEvidenceOnFail.value else before.requiresEvidenceOnFail)
    && after.isCriticalFailure == (if p.isCriticalFailure.Some? then p.isCriticalFailure.value else before.isCriticalFailure)
    && after.remarkRequiredOnFail
       == (if p.remarkRequiredOnFail.Some? then p.remarkRequiredOnFail.value else before.remarkRequiredOnFail)
    && after.correctiveActionRequiredOnFail
       == (if p.correctiveActionRequiredOnFail.Some? then p.correctiveActionRequiredOnFail.value
           else before.correctiveActionRequiredOnFail)
    && after.minValue == (if p.minValue.Some? then p.minValue else before.minValue)
    && after.maxValue == (if p.maxValue.Some? then p.maxValue else before.maxValue)
    && after.defaultResponse == (if p.defaultResponse.Some? then p.defaultResponse else before.defaultResponse)
    && (if p.options.Some? then OptionsTaken(p.options.value, after.options) else after.options == before.options)
  }

  lemma TakenExactly(before: ItemRules, p: ItemPatch)
    ensures Taken(before, p, Patched(before, p))
  {
    if p.options.Some? {
      var given := p.options.value;
      var numbered := seq(|given|, i requires 0 <= i < |given| =>
        ItemOption(given[i].value, given[i].caption, Or(given[i].sortOrder, i)));
      assert numbered == seq(|given|, i requires 0 <= i < |given| =>
        ItemOption(given[i].value, given[i].caption, if given[i].sortOrder.Some? then given[i].sortOrder.value else i));
      Sorting.SortElements(numbered, OptionOrder());
      Sorting.SortSorted(numbered, OptionOrder());
      assert Numbered(given) == Sorting.Sort(numbered, OptionOrder());
    }
    hide Numbered, Sorting.Sort;
  }

  // ------------------------------------------------------------------- items

  /** What an item is before a request says anything about it. */
  const UNSAID :=
    ItemRules([], None, ACCEPTABLE_UNACCEPTABLE_NA, true, false, false, false, false, false, None, None, None, [])

  /** A call may edit this version: it is the draft of that number. */
  predicate IsDraft(db: Db, code: Str, number: nat, v: nat) {
    IsVersion(db, code, number, v) && db.versions[v].status == DRAFT
  }

  /** Why a call on no draft is refused. */
  ghost predicate NoDraft(db: Db, code: Str, number: nat, e: Error) {
    e == (if forall t :: 0 <= t < |db.templates| ==> db.templates[t].code != code then TemplateNotFound
          else if forall v :: 0 <= v < |db.versions| ==> !IsVersion(db, code, number, v) then VersionNotFound
          else VersionNotEditable)
  }

  lemma DraftExactly(db: Db, code: Str, number: nat, v: nat)
    requires Sound(db)
    ensures DraftGuard(db, code, number).None? && VersionAt(db, code, number) == v <==> IsDraft(db, code, number, v)
    ensures DraftGuard(db, code, number).Some? ==> NoDraft(db, code, number, DraftGuard(db, code, number).value)
  {
    forall w: nat | w < |db.versions| && IsVersion(db, code, number, w)
      ensures VersionGuard(db, code, number).None? && VersionAt(db, code, number) == w
    {
      FindsVersion(db, code, number, w);
    }
    if VersionGuard(db, code, number).None? { assert IsVersion(db, code, number, VersionAt(db, code, number)); }
    TemplateExactly(db, code, number);
    hide Sound, VersionAt, VersionGuard;
  }

  lemma TemplateExactly(db: Db, code: Str, number: nat)
    ensures VersionGuard(db, code, number) == Some(TemplateNotFound) <==>
      forall t :: 0 <= t < |db.templates| ==> db.templates[t].code != code
    ensures VersionGuard(db, code, number) in {None, Some(TemplateNotFound), Some(VersionNotFound)}
  {
  }

  /** Nothing but one row of the item table differs. */
  predicate OnlyItem(db: Db, after: Db, i: nat) {
    && after == db.(items := after.items) && i < |after.items| && |db.items| <= |after.items| <= |db.items| + 1
    && (|after.items| > |db.items| ==> i == |db.items|)
    && forall j :: 0 <= j < |db.items| && j != i ==> after.items[j] == db.items[j]
  }

  /** An update of an item of a draft is accepted exactly when the request and
      the merged rules are good; it stores the merged rules and nothing else. */
  lemma UpdateExactly(db: Db, code: Str, number: nat, v: nat, i: nat, p: ItemPatch)
    requires Sound(db) && IsDraft(db, code, number, v)
    ensures var (after, outcome) := Step(db, UpdateItem(code, number, i, p));
            if i >= |db.items| || db.sections[db.items[i].sectionId].versionId != v then (after, outcome) == (db, Refused(ItemNotFound))
            else if !GoodRequest(p) || !GoodRules(Patched(db.items[i].rules, p)) then (after, outcome) == (db, Refused(InvalidItemRules))
            else
              && outcome == Done(v) && OnlyItem(db, after, i) && |after.items| == |db.items|
              && Taken(db.items[i].rules, p, after.items[i].rules)
              && after.items[i].sectionId == db.items[i].sectionId
              && after.items[i].sortOrder == (if p.sortOrder.Some? then p.sortOrder.value else db.items[i].sortOrder)
  {
    DraftExactly(db, code, number, v);
    if i < |db.items| {
      GoodExactly(p, Patched(db.items[i].rules, p));
      TakenExactly(db.items[i].rules, p);
    }
    assert InVersion(db, i, v) <==> i < |db.items| && db.sections[db.items[i].sectionId].versionId == v;
    hide DraftGuard, VersionAt, PatchOk, RulesOk, GoodRequest, GoodRules, Patched, Taken, InVersion, IsDraft;
  }

  /** A new item needs a caption; what the request leaves unsaid is the default,
      and it comes last unless it says where. */
  lemma AddItemExactly(db: Db, code: Str, number: nat, v: nat, s: nat, p: ItemPatch)
    requires Sound(db) && IsDraft(db, code, number, v)
    ensures var (after, outcome) := Step(db, AddItem(code, number, s, p));
            if s >= |db.sections| || db.sections[s].versionId != v then (after, outcome) == (db, Refused(SectionNotFound))
            else if p.caption == None || !GoodRequest(p) || !GoodRules(Patched(UNSAID, p)) then
              (after, outcome) == (db, Refused(InvalidItemRules))
            else
              && outcome == Done(v) && OnlyItem(db, after, |db.items|) && |after.items| == |db.items| + 1
              && var added := after.items[|db.items|];
                 && added.sectionId == s && Taken(UNSAID, p, added.rules)
                 && added.sortOrder == (if p.sortOrder.Some? then p.sortOrder.value
                                        else |set i | 0 <= i < |db.items| && db.items[i].sectionId == s|)
  {
    DraftExactly(db, code, number, v);
    GoodExactly(p, Patched(UNSAID, p));
    TakenExactly(UNSAID, p);
    assert UNSAID == DEFAULT_RULES;
    assert ItemIds(db, s) == set i | 0 <= i < |db.items| && db.items[i].sectionId == s;
    hide DraftGuard, VersionAt, PatchOk, RulesOk, GoodRequest, GoodRules, Patched, Taken, IsDraft, ItemIds;
  }

  /** A new section comes last in its draft unless the request says where. */
  lemma AddSectionExactly(db: Db, code: Str, number: nat, v: nat, name: Str, order: Option<int>)
    requires Sound(db) && IsDraft(db, code, number, v)
    ensures var (after, outcome) := Step(db, AddSection(code, number, name, order));
            && outcome == Done(v)
            && after == db.(sections := db.sections + [SectionRow(v, name,
                 if order.Some? then order.value else |set s | 0 <= s < |db.sections| && db.sections[s].versionId == v|)])
  {
    DraftExactly(db, code, number, v);
    assert SectionIds(db, v) == set s | 0 <= s < |db.sections| && db.sections[s].versionId == v;
    hide DraftGuard, VersionAt, IsDraft, SectionIds;
  }

  /** A request to reorder names as many ids as there are rows, each of a row. */
  predicate NamesSiblings(ids: seq<nat>, siblings: set<nat>) {
    |ids| == |siblings| && forall id :: id in ids ==> id in siblings
  }

  /** The last place at which a request names this row. */
  predicate LastPlace(ids: seq<nat>, row: nat, k: int) {
    0 <= k < |ids| && ids[k] == row && row !in ids[k + 1..]
  }

  lemma LastPlaceNext(ids: seq<nat>, n: nat, row: nat)
    requires 0 < n <= |ids|
    ensures LastPlace(ids[..n], row, n - 1) <==> ids[n - 1] == row
    ensures forall k :: 0 <= k < n - 1 ==> (LastPlace(ids[..n], row, k) <==> LastPlace(ids[..n - 1], row, k) && ids[n - 1] != row)
    ensures row in ids[..n] <==> row in ids[..n - 1] || row == ids[n - 1]
  {
    assert ids[..n][n..] == [];
    forall k | 0 <= k < n - 1
      ensures LastPlace(ids[..n], row, k) <==> LastPlace(ids[..n - 1], row, k) && ids[n - 1] != row
    {
      assert ids[..n][k + 1..] == ids[..n - 1][k + 1..] + [ids[n - 1]];
    }
    assert ids[..n] == ids[..n - 1] + [ids[n - 1]];
  }

  lemma {:induction false} RenumberedTo<T>(rows: seq<T>, ids: seq<nat>, number: (T, int) -> T, n: nat, row: nat)
    requires n <= |ids| && row < |rows| && forall k :: 0 <= k < |ids| ==> ids[k] < |rows|
    requires forall x: T, j, k :: number(number(x, j), k) == number(x, k)
    ensures var after := RenumberTo(rows, ids, number, n);
            if row in ids[..n] then exists k :: LastPlace(ids[..n], row, k) && after[row] == number(rows[row], k)
            else after[row] == rows[row]
  {
    if n > 0 {
      RenumberedTo(rows, ids, number, n - 1, row);
      LastPlaceNext(ids, n, row);
      hide LastPlace;
      if ids[n - 1] == row {
        assert LastPlace(ids[..n], row, n - 1);
      } else if row in ids[..n - 1] {
        var k :| LastPlace(ids[..n - 1], row, k) && RenumberTo(rows, ids, number, n - 1)[row] == number(rows[row], k);
        InPlace(ids[..n - 1], row, k);
        assert LastPlace(ids[..n], row, k);
      }
    }
  }

  lemma InPlace(ids: seq<nat>, row: nat, k: int)
    ensures LastPlace(ids, row, k) ==> 0 <= k < |ids|
  {
  }

  /** Sections are reordered exactly when the request names as many ids as the
      draft has sections, each of one; a section takes its last place in the
      request, and nothing else changes. */
  lemma ReorderSectionsExactly(db: Db, code: Str, number: nat, v: nat, ids: seq<nat>)
    requires Sound(db) && IsDraft(db, code, number, v)
    ensures var (after, outcome) := Step(db, ReorderSections(code, number, ids));
            if !NamesSiblings(ids, set s | 0 <= s < |db.sections| && db.sections[s].versionId == v) then
              (after, outcome) == (db, Refused(SectionNotFound))
            else
              && outcome == Done(v) && after == db.(sections := after.sections) && |after.sections| == |db.sections|
              && forall s :: 0 <= s < |db.sections| ==>
                   if s in ids then exists k :: LastPlace(ids, s, k) && after.sections[s] == db.sections[s].(sortOrder := k)
                   else after.sections[s] == db.sections[s]
  {
    DraftExactly(db, code, number, v);
    assert SectionIds(db, v) == set s | 0 <= s < |db.sections| && db.sections[s].versionId == v;
    assert ReorderGuard(ids, SectionIds(db, v)) <==> NamesSiblings(ids, SectionIds(db, v));
    if NamesSiblings(ids, SectionIds(db, v)) {
      assert ids[..|ids|] == ids;
      forall s: nat | s < |db.sections|
        ensures var rows := RenumberTo(db.sections, ids, NumberSection(), |ids|);
                if s in ids then exists k :: LastPlace(ids, s, k) && rows[s] == db.sections[s].(sortOrder := k)
                else rows[s] == db.sections[s]
      {
        RenumberedTo(db.sections, ids, NumberSection(), |ids|, s);
      }
    }
    hide DraftGuard, VersionAt, IsDraft, SectionIds, LastPlace, RenumberTo, ReorderGuard, NamesSiblings;
  }

  /** Items are reordered within one section of the draft, by the same rule. */
  lemma ReorderItemsExactly(db: Db, code: Str, number: nat, v: nat, s: nat, ids: seq<nat>)
    requires Sound(db) && IsDraft(db, code, number, v)
    ensures var (after, outcome) := Step(db, ReorderItems(code, number, s, ids));
            if s >= |db.sections| || db.sections[s].versionId != v then (after, outcome) == (db, Refused(SectionNotFound))
            else if !NamesSiblings(ids, set i | 0 <= i < |db.items| && db.items[i].sectionId == s) then
              (after, outcome) == (db, Refused(ItemNotFound))
            else
              && outcome == Done(v) && after == db.(items := after.items) && |after.items| == |db.items|
              && forall i :: 0 <= i < |db.items| ==>
                   if i in ids then exists k :: LastPlace(ids, i, k) && after.items[i] == db.items[i].(sortOrder := k)
                   else after.items[i] == db.items[i]
  {
    DraftExactly(db, code, number, v);
    assert ItemIds(db, s) == set i | 0 <= i < |db.items| && db.items[i].sectionId == s;
    assert ReorderGuard(ids, ItemIds(db, s)) <==> NamesSiblings(ids, ItemIds(db, s));
    assert s in SectionIds(db, v) <==> s < |db.sections| && db.sections[s].versionId == v;
    if NamesSiblings(ids, ItemIds(db, s)) {
      assert ids[..|ids|] == ids;
      forall i: nat | i < |db.items|
        ensures var rows := RenumberTo(db.items, ids, NumberItem(), |ids|);
                if i in ids then exists k :: LastPlace(ids, i, k) && rows[i] == db.items[i].(sortOrder := k)
                else rows[i] == db.items[i]
      {
        RenumberedTo(db.items, ids, NumberItem(), |ids|, i);
      }
    }
    hide DraftGuard, VersionAt, IsDraft, ItemIds, SectionIds, LastPlace, RenumberTo, ReorderGuard, NamesSiblings;
  }

  /** The calls that edit content. */
  predicate IsEdit(op: Op) {
    op.AddSection? || op.ReorderSections? || op.AddItem? || op.UpdateItem? || op.ReorderItems?
  }

  /** No edit reaches anything but a draft. */
  lemma EditsNeedADraft(db: Db, op: Op)
    requires Sound(db) && IsEdit(op)
    requires forall v :: 0 <= v < |db.versions| ==> !IsDraft(db, op.code, op.number, v)
    ensures var (after, outcome) := Step(db, op);
            after == db && outcome.Refused? && NoDraft(db, op.code, op.number, outcome.error)
  {
    if DraftGuard(db, op.code, op.number).None? {
      DraftExactly(db, op.code, op.number, VersionAt(db, op.code, op.number));
    } else {
      DraftExactly(db, op.code, op.number, 0);
    }
    hide DraftGuard, VersionAt, IsDraft, NoDraft;
  }

  // ------------------------------------------------------------ new versions

  /** A template starts with an empty draft number 1; its code must be new. */
  lemma CreateTemplateExactly(db: Db, code: Str)
    ensures var (after, outcome) := Step(db, CreateTemplate(code));
            if exists t :: 0 <= t < |db.templates| && db.templates[t].code == code then
              (after, outcome) == (db, Refused(TemplateCodeConflict))
            else
              && outcome == Done(|db.versions|)
              && after == db.(templates := db.templates + [TemplateRow(code, None)],
                              versions := db.versions + [VersionRow(|db.templates|, 1, DRAFT)])
  {
  }

  /** A draft version is refused exactly for a template that does not exist, or
      a source version it has not. */
  lemma CreateDraftExactly(db: Db, code: Str, source: Option<nat>)
    requires Sound(db)
    ensures var (after, outcome) := Step(db, CreateDraftVersion(code, source));
            if forall t :: 0 <= t < |db.templates| ==> db.templates[t].code != code then
              (after, outcome) == (db, Refused(TemplateNotFound))
            else if source.Some? && forall v :: 0 <= v < |db.versions| ==> !IsVersion(db, code, source.value, v) then
              (after, outcome) == (db, Refused(VersionNotFound))
            else outcome == Done(|db.versions|)
  {
    if source.Some? {
      forall v: nat | v < |db.versions| && IsVersion(db, code, source.value, v)
        ensures VersionGuard(db, code, source.value).None?
      {
        FindsVersion(db, code, source.value, v);
      }
      if VersionGuard(db, code, source.value).None? {
        assert IsVersion(db, code, source.value, VersionAt(db, code, source.value));
      }
      TemplateExactly(db, code, source.value);
    }
    hide Sound, CloneTo, CloneSource, WithDraft;
  }

  /** Version v of template t is published, and none of its published versions
      has a higher number. */
  predicate IsNewestPublished(db: Db, t: nat, v: nat) {
    && v < |db.versions| && db.versions[v].templateId == t && db.versions[v].status == PUBLISHED
    && forall w :: 0 <= w < |db.versions| && db.versions[w].templateId == t && db.versions[w].status == PUBLISHED
                   ==> db.versions[w].number <= db.versions[v].number
  }

  /** What a new draft starts from: the version asked for, else the published one
      of the highest number, else nothing. */
  ghost predicate StartsFrom(db: Db, t: nat, source: Option<nat>, content: seq<Section>) {
    match source
    case Some(number) =>
      exists v :: 0 <= v < |db.versions| && db.versions[v].templateId == t && db.versions[v].number == number
                  && content == Definition(db, v)
    case None =>
      || (exists v :: IsNewestPublished(db, t, v) && content == Definition(db, v))
      || (content == [] && forall v :: 0 <= v < |db.versions| && db.versions[v].templateId == t ==> db.versions[v].status != PUBLISHED)
  }

  lemma SourceExactly(db: Db, t: nat, source: Option<nat>)
    requires source.Some? ==> FindVersion(db.versions, t, source.value) < |db.versions|
    ensures StartsFrom(db, t, source, CloneSource(db, t, source))
  {
    hide Definition;
    if source.None? {
      var from := HighestPublishedTo(db.versions, t, |db.versions|);
      if from.Some? { assert IsNewestPublished(db, t, from.value); }
    }
  }

  lemma {:induction false} HighestExactly(versions: seq<VersionRow>, t: nat, n: nat)
    requires n <= |versions|
    ensures var m := HighestTo(versions, t, n);
            m == 0 || exists i :: 0 <= i < n && versions[i].templateId == t && versions[i].number == m
  {
    if n > 0 { HighestExactly(versions, t, n - 1); }
  }

  /** In every reachable state a new draft version takes the number after the
      highest of its template and reads as what it starts from, under fresh
      rows; every other version reads as before. */
  lemma NewDraftReadsAsItsSource(ops: seq<Op>, code: Str, source: Option<nat>)
    requires Step(Run(EMPTY, ops), CreateDraftVersion(code, source)).1.Done?
    ensures var db := Run(EMPTY, ops);
            var (after, outcome) := Step(db, CreateDraftVersion(code, source));
            var v := outcome.versionId;
            && v == |db.versions| && |after.versions| == v + 1 && after.versions[v].status == DRAFT
            && after.versions[..v] == db.versions && after.templates == db.templates
            && after.versions[v].templateId < |db.templates| && db.templates[after.versions[v].templateId].code == code
            && (forall w :: 0 <= w < v && db.versions[w].templateId == after.versions[v].templateId
                  ==> db.versions[w].number < after.versions[v].number)
            && (after.versions[v].number == 1
                || exists w :: 0 <= w < v && db.versions[w].templateId == after.versions[v].templateId
                               && db.versions[w].number + 1 == after.versions[v].number)
            && (exists content :: StartsFrom(db, after.versions[v].templateId, source, content)
                                  && TT.Contents(Definition(after, v)) == TT.Contents(content))
            && (forall w :: 0 <= w < v ==> Definition(after, w) == Definition(db, w))
  {
    TT.CloneCopiesContent(ops, code, source);
    var db := Run(EMPTY, ops);
    hide Run, Definition, TT.Contents;
    var t := FindTemplate(db.templates, code);
    SourceExactly(db, t, source);
    HighestExactly(db.versions, t, |db.versions|);
    var content := CloneSource(db, t, source);
    CloneFacts(WithDraft(db, t), |db.versions|, content, |content|);
    hide CloneTo, CloneSource, StartsFrom, HighestTo;
  }
}
