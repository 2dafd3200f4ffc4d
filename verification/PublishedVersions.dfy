/** Which version of a template is in force: what publishing and archiving do
    to it, over whole runs, and which version a new inspection is made on
    (checklist-templates.service.ts, inspection-records.service.ts). */
module PublishedVersions {
  import opened JsText
  import opened Wrappers
  import opened ChecklistEngine
  import opened Templates
  import opened TemplateProofs

  /** Row v is the version of this number of the template of this code. */
  predicate IsVersion(db: Db, code: Str, number: nat, v: nat) {
    && v < |db.versions| && db.versions[v].number == number
    && db.versions[v].templateId < |db.templates| && db.templates[db.versions[v].templateId].code == code
  }

  /** Some item lies in some section of the version. */
  predicate HoldsItem(db: Db, v: nat) {
    exists i :: 0 <= i < |db.items| && db.items[i].sectionId < |db.sections| && db.sections[db.items[i].sectionId].versionId == v
  }

  lemma HoldsExactly(db: Db, v: nat)
    ensures HasContent(db, v) <==> HoldsItem(db, v)
  {
  }

  lemma FindsVersion(db: Db, code: Str, number: nat, v: nat)
    requires Sound(db) && IsVersion(db, code, number, v)
    ensures VersionGuard(db, code, number).None? && VersionAt(db, code, number) == v
  {
  }

  /** An accepted publish puts the version of that number in force, whatever
      was in force before, and changes nothing else; on any database. */
  lemma PublishedIsInForce(db: Db, code: Str, number: nat)
    requires Step(db, PublishVersion(code, number)).1.Done?
    ensures var (after, outcome) := Step(db, PublishVersion(code, number));
            var v := outcome.versionId;
            && IsVersion(db, code, number, v) && db.versions[v].status == DRAFT && HoldsItem(db, v)
            && PublishedVersion(after, code) == Some(v)
            && var t := db.versions[v].templateId;
               && after == db.(versions := after.versions, templates := after.templates)
               && after.versions == db.versions[v := db.versions[v].(status := PUBLISHED)]
               && after.templates == db.templates[t := db.templates[t].(currentVersionId := Some(v))]
  {
    var v := VersionAt(db, code, number);
    HoldsExactly(db, v);
    hide HasContent, HoldsItem;
    FirstStays(db.templates, code, Some(v));
  }

  lemma {:induction false} FirstStays(rows: seq<TemplateRow>, code: Str, current: Option<nat>)
    requires FindTemplate(rows, code) < |rows|
    ensures var t := FindTemplate(rows, code);
            FindTemplate(rows[t := rows[t].(currentVersionId := current)], code) == t
  {
    var t := FindTemplate(rows, code);
    var after := rows[t := rows[t].(currentVersionId := current)];
    SameCodes(rows, after, code);
  }

  lemma {:induction false} SameCodes(a: seq<TemplateRow>, b: seq<TemplateRow>, code: Str)
    requires |a| == |b| && forall i :: 0 <= i < |a| ==> a[i].code == b[i].code
    ensures FindTemplate(a, code) == FindTemplate(b, code)
  {
    if a != [] { SameCodes(a[1..], b[1..], code); }
  }

  /** A publish is accepted exactly for a draft with an item, and an archiving
      exactly for a version that is not archived. */
  lemma AcceptedExactly(db: Db, code: Str, number: nat, v: nat)
    requires Sound(db)
    ensures Step(db, PublishVersion(code, number)).1 == Done(v) <==>
      IsVersion(db, code, number, v) && db.versions[v].status == DRAFT && HoldsItem(db, v)
    ensures Step(db, ArchiveVersion(code, number)).1 == Done(v) <==>
      IsVersion(db, code, number, v) && db.versions[v].status != ARCHIVED
    ensures !Step(db, PublishVersion(code, number)).1.Done? ==> Step(db, PublishVersion(code, number)).0 == db
    ensures !Step(db, ArchiveVersion(code, number)).1.Done? ==> Step(db, ArchiveVersion(code, number)).0 == db
  {
    if IsVersion(db, code, number, v) { FindsVersion(db, code, number, v); }
    if VersionGuard(db, code, number).None? { HoldsExactly(db, VersionAt(db, code, number)); }
    hide HasContent, HoldsItem, Sound;
  }

  /** Why a publish or an archiving of a known version is refused. */
  lemma RefusedExactly(db: Db, code: Str, number: nat, v: nat)
    requires Sound(db) && IsVersion(db, code, number, v)
    ensures Step(db, PublishVersion(code, number)).1 ==
      if db.versions[v].status != DRAFT then Refused(VersionNotDraft) else if !HoldsItem(db, v) then Refused(EmptyTemplate) else Done(v)
    ensures Step(db, ArchiveVersion(code, number)).1 ==
      if db.versions[v].status == ARCHIVED then Refused(VersionAlreadyArchived) else Done(v)
  {
    FindsVersion(db, code, number, v);
    HoldsExactly(db, v);
    hide HasContent, HoldsItem, Sound;
  }

  /** Without such a version both are refused, and say whether the template is
      unknown or the number. */
  lemma UnknownVersion(db: Db, code: Str, number: nat)
    requires forall v :: 0 <= v < |db.versions| ==> !IsVersion(db, code, number, v)
    ensures var why := if forall t :: 0 <= t < |db.templates| ==> db.templates[t].code != code then TemplateNotFound else VersionNotFound;
            Step(db, PublishVersion(code, number)) == Step(db, ArchiveVersion(code, number)) == (db, Refused(why))
  {
    if VersionGuard(db, code, number).None? { assert IsVersion(db, code, number, VersionAt(db, code, number)); }
  }

  /** An accepted archiving takes the version out of force if it was in force,
      and changes nothing else. */
  lemma ArchivedIsOut(db: Db, code: Str, number: nat)
    requires Step(db, ArchiveVersion(code, number)).1.Done?
    ensures var (after, outcome) := Step(db, ArchiveVersion(code, number));
            var v := outcome.versionId;
            && IsVersion(db, code, number, v) && db.versions[v].status != ARCHIVED
            && var t := db.versions[v].templateId;
               && after == db.(versions := after.versions, templates := after.templates)
               && after.versions == db.versions[v := db.versions[v].(status := ARCHIVED)]
               && after.templates == (if db.templates[t].currentVersionId == Some(v)
                                      then db.templates[t := db.templates[t].(currentVersionId := None)] else db.templates)
  {
  }

  // -------------------------------------------------------------------- runs

  /** The version last published and not archived since, by the accepted calls
      of a run alone. */
  function LastPublished(ops: seq<Op>, code: Str): Option<nat> {
    if ops == [] then None
    else
      var init, last := ops[..|ops| - 1], ops[|ops| - 1];
      var before, outcome := LastPublished(init, code), Step(Run(EMPTY, init), last).1;
      if last.PublishVersion? && last.code == code && outcome.Done? then Some(outcome.versionId)
      else if last.ArchiveVersion? && outcome.Done? && before == Some(outcome.versionId) then None
      else before
  }

  /** What is in force is a published version of the template's own. */
  predicate InForce(db: Db, code: Str, current: Option<nat>) {
    || (exists t :: 0 <= t < |db.templates| && db.templates[t].code == code && db.templates[t].currentVersionId == current)
    || (current == None && forall t :: 0 <= t < |db.templates| ==> db.templates[t].code != code)
  }

  lemma InForceExactly(db: Db, code: Str, current: Option<nat>)
    requires Sound(db)
    ensures PublishedVersion(db, code) == current <==> InForce(db, code, current)
  {
    var t := FindTemplate(db.templates, code);
    if t < |db.templates| {
      assert forall u :: 0 <= u < |db.templates| && db.templates[u].code == code ==> u == t;
    }
  }

  lemma OtherStepsKeepForce(db: Db, op: Op, code: Str)
    requires Sound(db) && !op.PublishVersion? && !op.ArchiveVersion?
    ensures var after := Step(db, op).0;
            Sound(after) ==> PublishedVersion(after, code) == PublishedVersion(db, code)
  {
    var after := Step(db, op).0;
    OtherStepsKeepTemplates(db, op);
    hide Step, Sound;
    if Sound(after) {
      var current := PublishedVersion(db, code);
      InForceExactly(db, code, current);
      hide PublishedVersion;
      if op.CreateTemplate? {
        NewTemplateHasNone(db, after, code, current);
      }
      InForceExactly(after, code, current);
    }
  }

  lemma OtherStepsKeepTemplates(db: Db, op: Op)
    requires !op.PublishVersion? && !op.ArchiveVersion?
    ensures var after := Step(db, op).0;
            if op.CreateTemplate? then after.templates == db.templates || after.templates == db.templates + [TemplateRow(op.code, None)]
            else after.templates == db.templates
    ensures op.CreateTemplate? && Step(db, op).0.templates != db.templates ==>
      forall t :: 0 <= t < |db.templates| ==> db.templates[t].code != op.code
  {
    hide DraftGuard, VersionAt, CloneSource, PatchOk, RulesOk, ReorderGuard, Patched, RenumberTo;
    if op.CreateDraftVersion? && FindTemplate(db.templates, op.code) < |db.templates| {
      var t := FindTemplate(db.templates, op.code);
      var content := CloneSource(db, t, op.source);
      CloneFacts(WithDraft(db, t), |db.versions|, content, |content|);
    }
  }

  lemma NewTemplateHasNone(db: Db, after: Db, code: Str, current: Option<nat>)
    requires InForce(db, code, current)
    requires after.templates == db.templates
          || (exists added :: after.templates == db.templates + [TemplateRow(added, None)]
                              && forall t :: 0 <= t < |db.templates| ==> db.templates[t].code != added)
    ensures InForce(after, code, current)
  {
    if after.templates != db.templates {
      var added :| after.templates == db.templates + [TemplateRow(added, None)]
                   && forall t :: 0 <= t < |db.templates| ==> db.templates[t].code != added;
      var n := |db.templates|;
      assert after.templates[n] == TemplateRow(added, None);
      if t :| 0 <= t < n && db.templates[t].code == code && db.templates[t].currentVersionId == current {
        assert after.templates[t] == db.templates[t];
      } else if added == code {
        assert after.templates[n].code == code;
      }
    }
  }

  lemma PublishStepForce(db: Db, op: Op, code: Str)
    requires Sound(db) && Sound(Step(db, op).0) && (op.PublishVersion? || op.ArchiveVersion?)
    ensures var (after, outcome) := Step(db, op);
            var before := PublishedVersion(db, code);
            PublishedVersion(after, code) ==
              if op.PublishVersion? && op.code == code && outcome.Done? then Some(outcome.versionId)
              else if op.ArchiveVersion? && outcome.Done? && before == Some(outcome.versionId) then None
              else before
  {
    var (after, outcome) := Step(db, op);
    var before := PublishedVersion(db, code);
    InForceExactly(db, code, before);
    if outcome.Done? {
      if op.PublishVersion? { PublishedIsInForce(db, op.code, op.number); } else { ArchivedIsOut(db, op.code, op.number); }
      var v := outcome.versionId;
      var t := db.versions[v].templateId;
      hide Step, HoldsItem, PublishedVersion;
      var now := if op.PublishVersion? && op.code == code then Some(v)
                 else if op.ArchiveVersion? && before == Some(v) then None else before;
      MovedForce(db, after, code, before, t, v, op.PublishVersion?, now);
      InForceExactly(after, code, now);
    } else {
      AcceptedExactly(db, op.code, op.number, 0);
    }
  }

  lemma MovedForce(db: Db, after: Db, code: Str, before: Option<nat>, t: nat, v: nat, publish: bool, now: Option<nat>)
    requires Sound(db) && InForce(db, code, before) && v < |db.versions| && t == db.versions[v].templateId < |db.templates|
    requires after.templates == (if publish then db.templates[t := db.templates[t].(currentVersionId := Some(v))]
                                 else if db.templates[t].currentVersionId == Some(v)
                                 then db.templates[t := db.templates[t].(currentVersionId := None)] else db.templates)
    requires now == (if publish && db.templates[t].code == code then Some(v) else if !publish && before == Some(v) then None else before)
    ensures InForce(after, code, now)
  {
    hide Sound;
    assert Keys(db) && CurrentsPublished(db) by { SoundParts(db); }
    assert |after.templates| == |db.templates|;
    assert forall u :: 0 <= u < |db.templates| ==> after.templates[u].code == db.templates[u].code;
    if u :| 0 <= u < |db.templates| && db.templates[u].code == code && db.templates[u].currentVersionId == before {
      assert u == t <==> db.templates[t].code == code;
      if u != t {
        assert after.templates[u] == db.templates[u];
        assert before != Some(v);
      } else {
        assert after.templates[t].currentVersionId == now;
      }
    } else {
      assert db.templates[t].code != code;
    }
  }

  lemma SoundParts(db: Db)
    requires Sound(db)
    ensures References(db) && Keys(db) && CurrentsPublished(db)
  {
  }

  /** In every run the version in force for a document is the one last published
      for it and not archived since, and none otherwise. */
  lemma {:induction false} InForceIsLastPublished(ops: seq<Op>, code: Str)
    ensures PublishedVersion(Run(EMPTY, ops), code) == LastPublished(ops, code)
  {
    hide Step, Sound, PublishedVersion;
    EveryRunIsSound(ops);
    if ops == [] {
      NothingInForce(code);
    } else {
      var init, last := ops[..|ops| - 1], ops[|ops| - 1];
      EveryRunIsSound(init);
      InForceIsLastPublished(init, code);
      if last.PublishVersion? || last.ArchiveVersion? {
        PublishStepForce(Run(EMPTY, init), last, code);
      } else {
        OtherStepsKeepForce(Run(EMPTY, init), last, code);
      }
    }
  }

  lemma NothingInForce(code: Str)
    ensures PublishedVersion(EMPTY, code) == None
  {
  }
}
