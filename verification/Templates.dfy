/** Checklist templates and their versions: four tables and what every
    operation does to them (checklist-templates.service.ts).  Rows are never
    deleted, so a row's id is its position in its table. */
module Templates {
  import opened JsText
  import opened Wrappers
  import opened ChecklistEngine
  import Sorting

  datatype Status = DRAFT | PUBLISHED | ARCHIVED

  datatype TemplateRow = TemplateRow(code: Str, currentVersionId: Option<nat>)

  datatype VersionRow = VersionRow(templateId: nat, number: nat, status: Status)

  datatype SectionRow = SectionRow(versionId: nat, name: Str, sortOrder: int)

  /** An item with its options; the options are kept in the order they are read in. */
  datatype ItemRow = ItemRow(sectionId: nat, sortOrder: int, rules: ItemRules)

  datatype Db = Db(templates: seq<TemplateRow>, versions: seq<VersionRow>, sections: seq<SectionRow>, items: seq<ItemRow>)

  datatype OptionInput = OptionInput(value: Str, caption: Str, sortOrder: Option<int>)

  /** The body of an add or update request; absent fields are `None`. */
  datatype ItemPatch = ItemPatch(
    caption: Option<Str>,
    helpText: Option<Str>,
    sortOrder: Option<int>,
    itemType: Option<ItemType>,
    isRequired: Option<bool>,
    allowNotApplicable: Option<bool>,
    requiresEvidenceOnFail: Option<bool>,
    isCriticalFailure: Option<bool>,
    remarkRequiredOnFail: Option<bool>,
    correctiveActionRequiredOnFail: Option<bool>,
    minValue: Option<Num>,
    maxValue: Option<Num>,
    defaultResponse: Option<Str>,
    options: Option<seq<OptionInput>>)

  datatype Op =
    | CreateTemplate(code: Str)
    | CreateDraftVersion(code: Str, source: Option<nat>)
    | AddSection(code: Str, number: nat, name: Str, sortOrder: Option<int>)
    | ReorderSections(code: Str, number: nat, orderedIds: seq<nat>)
    | AddItem(code: Str, number: nat, sectionId: nat, patch: ItemPatch)
    | UpdateItem(code: Str, number: nat, itemId: nat, patch: ItemPatch)
    | ReorderItems(code: Str, number: nat, sectionId: nat, orderedIds: seq<nat>)
    | PublishVersion(code: Str, number: nat)
    | ArchiveVersion(code: Str, number: nat)

  datatype Error =
    | TemplateCodeConflict | TemplateNotFound | VersionNotFound | VersionNotEditable | VersionNotDraft
    | VersionAlreadyArchived | SectionNotFound | ItemNotFound | InvalidItemRules | EmptyTemplate

  datatype Outcome = Done(versionId: nat) | Refused(error: Error)

  // --------------------------------------------------------------- reading

  function FindTemplate(rows: seq<TemplateRow>, code: Str): (k: nat)
    ensures k <= |rows|
    ensures k < |rows| ==> rows[k].code == code
    ensures k == |rows| ==> forall i :: 0 <= i < |rows| ==> rows[i].code != code
  {
    if rows == [] then 0 else if rows[0].code == code then 0 else 1 + FindTemplate(rows[1..], code)
  }

  function FindVersion(rows: seq<VersionRow>, templateId: nat, number: nat): (k: nat)
    ensures k <= |rows|
    ensures k < |rows| ==> rows[k].templateId == templateId && rows[k].number == number
    ensures k == |rows| ==> forall i :: 0 <= i < |rows| ==> rows[i].templateId != templateId || rows[i].number != number
  {
    if rows == [] then 0
    else if rows[0].templateId == templateId && rows[0].number == number then 0
    else 1 + FindVersion(rows[1..], templateId, number)
  }

  /** Items of a section among the first n rows, in creation order. */
  function ItemsTo(items: seq<ItemRow>, sectionId: nat, n: nat): seq<Item>
    requires n <= |items|
  {
    if n == 0 then []
    else
      var row := items[n - 1];
      ItemsTo(items, sectionId, n - 1) + (if row.sectionId == sectionId then [Item(n - 1, row.sortOrder, row.rules)] else [])
  }

  /** Items of a section as they are read, by sort order. */
  function SectionItems(items: seq<ItemRow>, sectionId: nat): seq<Item> {
    Sorting.Sort(ItemsTo(items, sectionId, |items|), ItemOrder())
  }

  function SectionsTo(sections: seq<SectionRow>, items: seq<ItemRow>, v: nat, n: nat): seq<Section>
    requires n <= |sections|
  {
    if n == 0 then []
    else
      var row := sections[n - 1];
      SectionsTo(sections, items, v, n - 1)
      + (if row.versionId == v then [Section(n - 1, row.name, row.sortOrder, SectionItems(items, n - 1))] else [])
  }

  /** The content of a version: sections by sort order, each with its items. */
  function Definition(db: Db, v: nat): seq<Section> {
    Sorting.Sort(SectionsTo(db.sections, db.items, v, |db.sections|), SectionOrder())
  }

  function SectionIds(db: Db, v: nat): set<nat> {
    set s | 0 <= s < |db.sections| && db.sections[s].versionId == v
  }

  function ItemIds(db: Db, sectionId: nat): set<nat> {
    set i | 0 <= i < |db.items| && db.items[i].sectionId == sectionId
  }

  predicate InVersion(db: Db, itemId: nat, v: nat) {
    itemId < |db.items| && db.items[itemId].sectionId in SectionIds(db, v)
  }

  // ------------------------------------------------------------- item rules

  predicate TextWithin(t: Str, least: nat, most: nat) {
    least <= |Trim(t)| <= most
  }

  predicate TextOption(t: Option<Str>, least: nat, most: nat) {
    t.Some? ==> TextWithin(t.value, least, most)
  }

  predicate NumberOption(n: Option<Num>) {
    n.Some? ==> !n.value.NaN?
  }

  predicate OrderOption(n: Option<int>) {
    n.Some? ==> n.value >= 0
  }

  predicate OptionsOk(options: seq<ItemOption>) {
    |options| <= 50
    && forall i :: 0 <= i < |options| ==>
         TextWithin(options[i].value, 1, 100) && TextWithin(options[i].caption, 1, 200) && options[i].sortOrder >= 0
  }

  /** What an item's rules must be whenever they are stored: bounds in order,
      and options to choose from. */
  predicate RulesOk(rules: ItemRules) {
    && (rules.minValue.Some? && rules.maxValue.Some? ==> !NumLess(rules.maxValue.value, rules.minValue.value))
    && (rules.itemType.SINGLE_SELECT? ==> rules.options != [])
    && OptionsOk(rules.options)
  }

  /** The schema's checks of the fields one by one. */
  predicate PatchOk(p: ItemPatch) {
    && TextOption(p.caption, 1, 300) && TextOption(p.helpText, 0, 1000) && TextOption(p.defaultResponse, 0, 200)
    && OrderOption(p.sortOrder) && NumberOption(p.minValue) && NumberOption(p.maxValue)
  }

  function OptionOrder(): ItemOption -> int { (o: ItemOption) => o.sortOrder }

  function Numbered(options: seq<OptionInput>): seq<ItemOption> {
    Sorting.Sort(
      seq(|options|, i requires 0 <= i < |options| =>
        ItemOption(options[i].value, options[i].caption, Or(options[i].sortOrder, i))),
      OptionOrder())
  }

  function Or<T>(o: Option<T>, default: T): T {
    if o.Some? then o.value else default
  }

  function OrKeep<T>(o: Option<T>, kept: Option<T>): Option<T> {
    if o.Some? then o else kept
  }

  function Patched(rules: ItemRules, p: ItemPatch): ItemRules {
    ItemRules(
      Or(p.caption, rules.caption), OrKeep(p.helpText, rules.helpText), Or(p.itemType, rules.itemType),
      Or(p.isRequired, rules.isRequired), Or(p.allowNotApplicable, rules.allowNotApplicable),
      Or(p.requiresEvidenceOnFail, rules.requiresEvidenceOnFail), Or(p.isCriticalFailure, rules.isCriticalFailure),
      Or(p.remarkRequiredOnFail, rules.remarkRequiredOnFail),
      Or(p.correctiveActionRequiredOnFail, rules.correctiveActionRequiredOnFail),
      OrKeep(p.minValue, rules.minValue), OrKeep(p.maxValue, rules.maxValue), OrKeep(p.defaultResponse, rules.defaultResponse),
      if p.options.Some? then Numbered(p.options.value) else rules.options)
  }

  const DEFAULT_RULES :=
    ItemRules([], None, ACCEPTABLE_UNACCEPTABLE_NA, true, false, false, false, false, false, None, None, None, [])

  // ----------------------------------------------------------------- guards

  function VersionGuard(db: Db, code: Str, number: nat): Option<Error> {
    var t := FindTemplate(db.templates, code);
    if t == |db.templates| then Some(TemplateNotFound)
    else if FindVersion(db.versions, t, number) == |db.versions| then Some(VersionNotFound)
    else None
  }

  function VersionAt(db: Db, code: Str, number: nat): (v: nat)
    requires VersionGuard(db, code, number).None?
    ensures v < |db.versions| && db.versions[v].number == number
    ensures db.versions[v].templateId < |db.templates| && db.templates[db.versions[v].templateId].code == code
  {
    FindVersion(db.versions, FindTemplate(db.templates, code), number)
  }

  /** Content changes only in a draft. */
  function DraftGuard(db: Db, code: Str, number: nat): Option<Error> {
    match VersionGuard(db, code, number)
    case Some(e) => Some(e)
    case None => if db.versions[VersionAt(db, code, number)].status.DRAFT? then None else Some(VersionNotEditable)
  }

  predicate ReorderGuard(ids: seq<nat>, existing: set<nat>) {
    |ids| == |existing| && forall k :: 0 <= k < |ids| ==> ids[k] in existing
  }

  // ------------------------------------------------------------------ steps

  /** Highest version number of a template among the first n rows, 0 if none. */
  function HighestTo(versions: seq<VersionRow>, t: nat, n: nat): (m: nat)
    requires n <= |versions|
    ensures forall i :: 0 <= i < n && versions[i].templateId == t ==> versions[i].number <= m
  {
    if n == 0 then 0
    else
      var m := HighestTo(versions, t, n - 1);
      if versions[n - 1].templateId == t && versions[n - 1].number > m then versions[n - 1].number else m
  }

  /** The published version of a template with the highest number. */
  function HighestPublishedTo(versions: seq<VersionRow>, t: nat, n: nat): (r: Option<nat>)
    requires n <= |versions|
    ensures r.Some? ==> r.value < n && versions[r.value].templateId == t && versions[r.value].status.PUBLISHED?
    ensures r.Some? ==> forall i :: 0 <= i < n && versions[i].templateId == t && versions[i].status.PUBLISHED?
                                    ==> versions[i].number <= versions[r.value].number
    ensures r.None? ==> forall i :: 0 <= i < n && versions[i].templateId == t ==> !versions[i].status.PUBLISHED?
  {
    if n == 0 then None
    else
      var r := HighestPublishedTo(versions, t, n - 1);
      var row := versions[n - 1];
      if row.templateId == t && row.status.PUBLISHED? && (r.None? || row.number > versions[r.value].number) then Some(n - 1) else r
  }

  function ClonedItems(sectionId: nat, source: seq<Item>): seq<ItemRow> {
    seq(|source|, i requires 0 <= i < |source| => ItemRow(sectionId, source[i].sortOrder, source[i].rules))
  }

  /** Copies the first n sections of a source, with their items, under a version. */
  function CloneTo(db: Db, v: nat, source: seq<Section>, n: nat): Db
    requires n <= |source|
  {
    if n == 0 then db
    else
      var before := CloneTo(db, v, source, n - 1);
      var section := source[n - 1];
      before.(sections := before.sections + [SectionRow(v, section.name, section.sortOrder)],
              items := before.items + ClonedItems(|before.sections|, section.items))
  }

  /** What a new draft starts from: the version asked for, else the highest
      published one, else nothing. */
  function CloneSource(db: Db, t: nat, source: Option<nat>): seq<Section> {
    var from := if source.Some? then Some(FindVersion(db.versions, t, source.value))
                else HighestPublishedTo(db.versions, t, |db.versions|);
    if from.Some? then Definition(db, from.value) else []
  }

  function WithDraft(db: Db, t: nat): Db {
    db.(versions := db.versions + [VersionRow(t, HighestTo(db.versions, t, |db.versions|) + 1, DRAFT)])
  }

  function CreateDraftStep(db: Db, code: Str, source: Option<nat>): (Db, Outcome) {
    var t := FindTemplate(db.templates, code);
    if t == |db.templates| then (db, Refused(TemplateNotFound))
    else if source.Some? && FindVersion(db.versions, t, source.value) == |db.versions| then (db, Refused(VersionNotFound))
    else
      var content := CloneSource(db, t, source);
      (CloneTo(WithDraft(db, t), |db.versions|, content, |content|), Done(|db.versions|))
  }

  /** Rows after the first n ids have been given their new sort order. */
  function RenumberTo<T>(rows: seq<T>, ids: seq<nat>, number: (T, int) -> T, n: nat): (r: seq<T>)
    requires n <= |ids| && forall k :: 0 <= k < |ids| ==> ids[k] < |rows|
    ensures |r| == |rows|
  {
    if n == 0 then rows
    else
      var before := RenumberTo(rows, ids, number, n - 1);
      before[ids[n - 1] := number(before[ids[n - 1]], n - 1)]
  }

  function NumberSection(): (SectionRow, int) -> SectionRow { (row: SectionRow, n: int) => row.(sortOrder := n) }

  function NumberItem(): (ItemRow, int) -> ItemRow { (row: ItemRow, n: int) => row.(sortOrder := n) }

  predicate HasContent(db: Db, v: nat) {
    exists i :: 0 <= i < |db.items| && db.items[i].sectionId in SectionIds(db, v)
  }

  function ContentStep(db: Db, op: Op): (Db, Outcome)
    requires op.AddSection? || op.ReorderSections? || op.AddItem? || op.UpdateItem? || op.ReorderItems?
  {
    match DraftGuard(db, op.code, op.number)
    case Some(e) => (db, Refused(e))
    case None =>
      var v := VersionAt(db, op.code, op.number);
      match op
      case AddSection(_, _, name, order) =>
        (db.(sections := db.sections + [SectionRow(v, name, Or(order, |SectionIds(db, v)|))]), Done(v))
      case ReorderSections(_, _, ids) =>
        if !ReorderGuard(ids, SectionIds(db, v)) then (db, Refused(SectionNotFound))
        else (db.(sections := RenumberTo(db.sections, ids, NumberSection(), |ids|)), Done(v))
      case AddItem(_, _, s, patch) =>
        var rules := Patched(DEFAULT_RULES, patch);
        if s !in SectionIds(db, v) then (db, Refused(SectionNotFound))
        else if patch.caption.None? || !PatchOk(patch) || !RulesOk(rules) then (db, Refused(InvalidItemRules))
        else (db.(items := db.items + [ItemRow(s, Or(patch.sortOrder, |ItemIds(db, s)|), rules)]), Done(v))
      case UpdateItem(_, _, i, patch) =>
        if !InVersion(db, i, v) then (db, Refused(ItemNotFound))
        else
          var row := db.items[i];
          var rules := Patched(row.rules, patch);
          if !PatchOk(patch) || !RulesOk(rules) then (db, Refused(InvalidItemRules))
          else (db.(items := db.items[i := ItemRow(row.sectionId, Or(patch.sortOrder, row.sortOrder), rules)]), Done(v))
      case ReorderItems(_, _, s, ids) =>
        if s !in SectionIds(db, v) then (db, Refused(SectionNotFound))
        else if !ReorderGuard(ids, ItemIds(db, s)) then (db, Refused(ItemNotFound))
        else (db.(items := RenumberTo(db.items, ids, NumberItem(), |ids|)), Done(v))
  }

  function SetStatus(db: Db, v: nat, status: Status): Db
    requires v < |db.versions|
  {
    db.(versions := db.versions[v := db.versions[v].(status := status)])
  }

  function SetCurrent(db: Db, t: nat, current: Option<nat>): Db
    requires t < |db.templates|
  {
    db.(templates := db.templates[t := db.templates[t].(currentVersionId := current)])
  }

  function PublishStep(db: Db, code: Str, number: nat): (Db, Outcome) {
    match VersionGuard(db, code, number)
    case Some(e) => (db, Refused(e))
    case None =>
      var v := VersionAt(db, code, number);
      if !db.versions[v].status.DRAFT? then (db, Refused(VersionNotDraft))
      else if !HasContent(db, v) then (db, Refused(EmptyTemplate))
      else (SetCurrent(SetStatus(db, v, PUBLISHED), db.versions[v].templateId, Some(v)), Done(v))
  }

  function ArchiveStep(db: Db, code: Str, number: nat): (Db, Outcome) {
    match VersionGuard(db, code, number)
    case Some(e) => (db, Refused(e))
    case None =>
      var v := VersionAt(db, code, number);
      var t := db.versions[v].templateId;
      if db.versions[v].status.ARCHIVED? then (db, Refused(VersionAlreadyArchived))
      else if db.templates[t].currentVersionId == Some(v) then (SetCurrent(SetStatus(db, v, ARCHIVED), t, None), Done(v))
      else (SetStatus(db, v, ARCHIVED), Done(v))
  }

  function CreateTemplateStep(db: Db, code: Str): (Db, Outcome) {
    var t := FindTemplate(db.templates, code);
    if t < |db.templates| then (db, Refused(TemplateCodeConflict))
    else (db.(templates := db.templates + [TemplateRow(code, None)], versions := db.versions + [VersionRow(t, 1, DRAFT)]),
          Done(|db.versions|))
  }

  /** One service call. */
  function Step(db: Db, op: Op): (Db, Outcome) {
    match op
    case CreateTemplate(code) => CreateTemplateStep(db, code)
    case CreateDraftVersion(code, source) => CreateDraftStep(db, code, source)
    case PublishVersion(code, number) => PublishStep(db, code, number)
    case ArchiveVersion(code, number) => ArchiveStep(db, code, number)
    case _ => ContentStep(db, op)
  }

  const EMPTY := Db([], [], [], [])

  function Run(db: Db, ops: seq<Op>): Db {
    if ops == [] then db else Step(Run(db, ops[..|ops| - 1]), ops[|ops| - 1]).0
  }

  /** The version new records are made on. */
  function PublishedVersion(db: Db, code: Str): Option<nat> {
    var t := FindTemplate(db.templates, code);
    if t == |db.templates| then None
    else
      var current := db.templates[t].currentVersionId;
      if current.Some? && current.value < |db.versions| && db.versions[current.value].status.PUBLISHED? then current else None
  }
}
