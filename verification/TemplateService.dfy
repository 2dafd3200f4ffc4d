/** The template service over its tables, method by method
    (checklist-templates.service.ts). */
module TemplateService {
  import opened JsText
  import opened Wrappers
  import opened ChecklistEngine
  import opened Templates

  class ChecklistTemplatesService {
    var templates: seq<TemplateRow>
    var versions: seq<VersionRow>
    var sections: seq<SectionRow>
    var items: seq<ItemRow>

    function State(): Db
      reads this
    {
      Db(templates, versions, sections, items)
    }

    constructor ()
      ensures State() == EMPTY
    {
      templates, versions, sections, items := [], [], [], [];
    }

    method CreateTemplate(code: Str) returns (outcome: Outcome)
      modifies this
      ensures (State(), outcome) == Step(old(State()), Op.CreateTemplate(code))
    {
      var t := FindTemplate(templates, code);
      if t < |templates| {
        return Refused(TemplateCodeConflict);
      }
      templates := templates + [TemplateRow(code, None)];
      versions := versions + [VersionRow(t, 1, DRAFT)];
      return Done(|versions| - 1);
    }

    /** Writes a source's sections and items under a version, row by row. */
    method CreateSections(v: nat, source: seq<Section>)
      modifies this`sections, this`items
      ensures State() == CloneTo(old(State()), v, source, |source|)
    {
      ghost var before := State();
      for n := 0 to |source|
        invariant State() == CloneTo(before, v, source, n)
      {
        var s := |sections|;
        sections := sections + [SectionRow(v, source[n].name, source[n].sortOrder)];
        CreateItems(s, source[n].items);
      }
    }

    method CreateItems(s: nat, source: seq<Item>)
      modifies this`items
      ensures items == old(items) + ClonedItems(s, source)
    {
      ghost var before := items;
      for n := 0 to |source|
        invariant items == before + ClonedItems(s, source)[..n]
      {
        items := items + [ItemRow(s, source[n].sortOrder, source[n].rules)];
      }
    }

    method CreateDraftVersion(code: Str, source: Option<nat>) returns (outcome: Outcome)
      modifies this
      ensures (State(), outcome) == Step(old(State()), Op.CreateDraftVersion(code, source))
    {
      hide CloneTo, Definition;
      var t := FindTemplate(templates, code);
      if t == |templates| {
        return Refused(TemplateNotFound);
      }
      if source.Some? && FindVersion(versions, t, source.value) == |versions| {
        return Refused(VersionNotFound);
      }
      var content := CloneSource(State(), t, source);
      var v := |versions|;
      versions := versions + [VersionRow(t, HighestTo(versions, t, |versions|) + 1, DRAFT)];
      CreateSections(v, content);
      return Done(v);
    }

    /** The version named by a request, if it is a draft. */
    method FindDraft(code: Str, number: nat) returns (e: Option<Error>, v: nat)
      ensures e == DraftGuard(State(), code, number)
      ensures e.None? ==> v == VersionAt(State(), code, number)
    {
      v := 0;
      e := VersionGuard(State(), code, number);
      if e.None? {
        v := VersionAt(State(), code, number);
        if !versions[v].status.DRAFT? {
          e := Some(VersionNotEditable);
        }
      }
    }

    method AddSection(code: Str, number: nat, name: Str, sortOrder: Option<int>) returns (outcome: Outcome)
      modifies this
      ensures (State(), outcome) == Step(old(State()), Op.AddSection(code, number, name, sortOrder))
    {
      hide DraftGuard, VersionAt;
      var e, v := FindDraft(code, number);
      if e.Some? {
        return Refused(e.value);
      }
      var order := if sortOrder.Some? then sortOrder.value else |SectionIds(State(), v)|;
      sections := sections + [SectionRow(v, name, order)];
      return Done(v);
    }

    method ReorderSections(code: Str, number: nat, orderedIds: seq<nat>) returns (outcome: Outcome)
      modifies this
      ensures (State(), outcome) == Step(old(State()), Op.ReorderSections(code, number, orderedIds))
    {
      hide DraftGuard, VersionAt;
      var e, v := FindDraft(code, number);
      if e.Some? {
        return Refused(e.value);
      }
      if !ReorderGuard(orderedIds, SectionIds(State(), v)) {
        return Refused(SectionNotFound);
      }
      ghost var before := State();
      for n := 0 to |orderedIds|
        invariant State() == before.(sections := RenumberTo(before.sections, orderedIds, NumberSection(), n))
      {
        var id := orderedIds[n];
        sections := sections[id := sections[id].(sortOrder := n)];
      }
      return Done(v);
    }

    method AddItem(code: Str, number: nat, sectionId: nat, patch: ItemPatch) returns (outcome: Outcome)
      modifies this
      ensures (State(), outcome) == Step(old(State()), Op.AddItem(code, number, sectionId, patch))
    {
      hide DraftGuard, VersionAt, PatchOk, RulesOk, Patched;
      var e, v := FindDraft(code, number);
      if e.Some? {
        return Refused(e.value);
      }
      if sectionId !in SectionIds(State(), v) {
        return Refused(SectionNotFound);
      }
      var rules := Patched(DEFAULT_RULES, patch);
      if patch.caption.None? || !PatchOk(patch) || !RulesOk(rules) {
        return Refused(InvalidItemRules);
      }
      var order := if patch.sortOrder.Some? then patch.sortOrder.value else |ItemIds(State(), sectionId)|;
      items := items + [ItemRow(sectionId, order, rules)];
      return Done(v);
    }

    method UpdateItem(code: Str, number: nat, itemId: nat, patch: ItemPatch) returns (outcome: Outcome)
      modifies this
      ensures (State(), outcome) == Step(old(State()), Op.UpdateItem(code, number, itemId, patch))
    {
      hide DraftGuard, VersionAt, PatchOk, RulesOk, Patched;
      var e, v := FindDraft(code, number);
      if e.Some? {
        return Refused(e.value);
      }
      if !InVersion(State(), itemId, v) {
        return Refused(ItemNotFound);
      }
      var row := items[itemId];
      var rules := Patched(row.rules, patch);
      if !PatchOk(patch) || !RulesOk(rules) {
        return Refused(InvalidItemRules);
      }
      row := row.(rules := rules);
      if patch.sortOrder.Some? {
        row := row.(sortOrder := patch.sortOrder.value);
      }
      items := items[itemId := row];
      return Done(v);
    }

    method ReorderItems(code: Str, number: nat, sectionId: nat, orderedIds: seq<nat>) returns (outcome: Outcome)
      modifies this
      ensures (State(), outcome) == Step(old(State()), Op.ReorderItems(code, number, sectionId, orderedIds))
    {
      hide DraftGuard, VersionAt;
      var e, v := FindDraft(code, number);
      if e.Some? {
        return Refused(e.value);
      }
      if sectionId !in SectionIds(State(), v) {
        return Refused(SectionNotFound);
      }
      if !ReorderGuard(orderedIds, ItemIds(State(), sectionId)) {
        return Refused(ItemNotFound);
      }
      ghost var before := State();
      for n := 0 to |orderedIds|
        invariant State() == before.(items := RenumberTo(before.items, orderedIds, NumberItem(), n))
      {
        var id := orderedIds[n];
        items := items[id := items[id].(sortOrder := n)];
      }
      return Done(v);
    }

    method PublishVersion(code: Str, number: nat) returns (outcome: Outcome)
      modifies this
      ensures (State(), outcome) == Step(old(State()), Op.PublishVersion(code, number))
    {
      var e := VersionGuard(State(), code, number);
      if e.Some? {
        return Refused(e.value);
      }
      var v := VersionAt(State(), code, number);
      if !versions[v].status.DRAFT? {
        return Refused(VersionNotDraft);
      }
      if !HasContent(State(), v) {
        return Refused(EmptyTemplate);
      }
      var t := versions[v].templateId;
      versions := versions[v := versions[v].(status := PUBLISHED)];
      templates := templates[t := templates[t].(currentVersionId := Some(v))];
      return Done(v);
    }

    method ArchiveVersion(code: Str, number: nat) returns (outcome: Outcome)
      modifies this
      ensures (State(), outcome) == Step(old(State()), Op.ArchiveVersion(code, number))
    {
      var e := VersionGuard(State(), code, number);
      if e.Some? {
        return Refused(e.value);
      }
      var v := VersionAt(State(), code, number);
      if versions[v].status.ARCHIVED? {
        return Refused(VersionAlreadyArchived);
      }
      var t := versions[v].templateId;
      versions := versions[v := versions[v].(status := ARCHIVED)];
      if templates[t].currentVersionId == Some(v) {
        templates := templates[t := templates[t].(currentVersionId := None)];
      }
      return Done(v);
    }
  }
}
