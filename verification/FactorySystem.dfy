/** Templates and inspection records together: drafts are made on the current
    published version of their document's template, and every later call reads
    the checklist of that version anew from the template tables
    (inspection-records.service.ts, checklist-templates.service.ts). */
module FactorySystem {
  import opened JsText
  import opened Wrappers
  import opened ChecklistEngine
  import opened RecordRules
  import opened InspectionRecords
  import opened InspectionProofs
  import InspectionTheorems
  import T = Templates
  import TP = TemplateProofs
  import PV = PublishedVersions

  datatype System = System(templates: T.Db, records: seq<Record>)

  datatype SystemOp = TemplateCall(templateOp: T.Op) | RecordCall(user: User, recordOp: Op)

  const DAILY_CLEANING := Ascii("NMS/PPU/CL/24")
  const FREEZER_TRUCK := Ascii("NMS/PPU/CL/30")

  function CodeOf(key: Key): Str {
    if key.TruckKey? then FREEZER_TRUCK else DAILY_CLEANING
  }

  function DefinitionsOf(db: T.Db): Definitions {
    (v: nat) => T.Definition(db, v)
  }

  /** The record call with the version the template tables give it. */
  function Resolved(db: T.Db, op: Op): Op {
    if op.CreateDraft? then op.(version := T.PublishedVersion(db, CodeOf(op.key))) else op
  }

  function SystemStep(s: System, o: SystemOp): System {
    match o
    case TemplateCall(op) => s.(templates := T.Step(s.templates, op).0)
    case RecordCall(user, op) => s.(records := Step(s.records, user, Resolved(s.templates, op), DefinitionsOf(s.templates)).0)
  }

  const START := System(T.EMPTY, [])

  function SystemRun(s: System, ops: seq<SystemOp>): System {
    if ops == [] then s else SystemStep(SystemRun(s, ops[..|ops| - 1]), ops[|ops| - 1])
  }

  /** Every record is on a version that is out of reach of editing. */
  predicate Pinned(s: System) {
    forall k :: 0 <= k < |s.records| ==>
      && s.records[k].versionId < |s.templates.versions|
      && !s.templates.versions[s.records[k].versionId].status.DRAFT?
  }

  predicate SystemSound(s: System) {
    TP.Sound(s.templates) && Pinned(s) && AllSound(s.records, DefinitionsOf(s.templates))
  }

  lemma TemplateCallKeeps(s: System, op: T.Op)
    requires SystemSound(s)
    ensures SystemSound(SystemStep(s, TemplateCall(op)))
    ensures var after := SystemStep(s, TemplateCall(op));
            forall k :: 0 <= k < |s.records| ==>
              ItemsOf(s.records[k], DefinitionsOf(after.templates)) == ItemsOf(s.records[k], DefinitionsOf(s.templates))
  {
    hide TP.Sound, T.Step, T.Definition, Sound, FlattenItems;
    TP.StepFollows(s.templates, op);
    var after := T.Step(s.templates, op).0;
    forall k | 0 <= k < |s.records|
      ensures T.Definition(after, s.records[k].versionId) == T.Definition(s.templates, s.records[k].versionId)
    {
      TP.SameDefinition(s.templates, after, s.records[k].versionId);
    }
  }

  lemma PublishedIsPublished(db: T.Db, code: Str)
    ensures var v := T.PublishedVersion(db, code);
            v.Some? ==> v.value < |db.versions| && db.versions[v.value].status.PUBLISHED?
  {
  }

  lemma NewRecordVersion(records: seq<Record>, user: User, op: Op, defs: Definitions)
    ensures var after := Step(records, user, op, defs).0;
            && |records| <= |after| <= |records| + 1
            && (|after| > |records| ==> op.CreateDraft? && op.version == Some(after[|records|].versionId))
  {
    hide Claimed, Reviewed, Decided, Persist, ValidationOf, FlattenItems, ReviewGuard, LoadingGuard;
  }

  lemma RecordCallKeeps(s: System, user: User, op: Op)
    requires SystemSound(s)
    ensures var after := SystemStep(s, RecordCall(user, op));
            && SystemSound(after) && |s.records| <= |after.records|
            && forall k :: 0 <= k < |s.records| ==> after.records[k].versionId == s.records[k].versionId
  {
    hide TP.Sound, T.Definition, Sound, Step, FlattenItems, InspectionTheorems.Follows, T.PublishedVersion;
    var defs := DefinitionsOf(s.templates);
    var resolved := Resolved(s.templates, op);
    StepSound(s.records, user, resolved, defs);
    NewRecordVersion(s.records, user, resolved, defs);
    if op.CreateDraft? { PublishedIsPublished(s.templates, CodeOf(op.key)); }
    forall k | 0 <= k < |s.records| ensures Step(s.records, user, resolved, defs).0[k].versionId == s.records[k].versionId {
      KeepsVersion(s.records, user, resolved, defs, k);
    }
  }

  lemma KeepsVersion(records: seq<Record>, user: User, op: Op, defs: Definitions, k: nat)
    requires k < |records|
    ensures k < |Step(records, user, op, defs).0| && Step(records, user, op, defs).0[k].versionId == records[k].versionId
  {
    hide Step;
    InspectionTheorems.StepFollows(records, user, op, defs, k);
  }

  lemma StartSound()
    ensures SystemSound(START)
  {
  }

  /** In every mixed run of template and record calls, every record is on a
      version that no call can edit, and is sound for the checklist that
      version now has. */
  lemma {:induction false} EveryMixedRunIsSound(ops: seq<SystemOp>)
    ensures SystemSound(SystemRun(START, ops))
  {
    hide SystemSound, SystemStep;
    if ops == [] {
      StartSound();
    } else {
      var s, o := SystemRun(START, ops[..|ops| - 1]), ops[|ops| - 1];
      EveryMixedRunIsSound(ops[..|ops| - 1]);
      if o.TemplateCall? { TemplateCallKeeps(s, o.templateOp); } else { RecordCallKeeps(s, o.user, o.recordOp); }
    }
  }

  lemma {:induction false} RunSplit(s: System, ops: seq<SystemOp>, more: seq<SystemOp>)
    ensures SystemRun(s, ops + more) == SystemRun(SystemRun(s, ops), more)
  {
    hide SystemStep;
    if more == [] {
      assert ops + more == ops;
    } else {
      var all := ops + more;
      assert all[..|all| - 1] == ops + more[..|more| - 1] && all[|all| - 1] == more[|more| - 1];
      RunSplit(s, ops, more[..|more| - 1]);
    }
  }

  lemma {:induction false} ItemsStayFixed(s: System, more: seq<SystemOp>, k: nat)
    requires SystemSound(s) && k < |s.records|
    ensures var after := SystemRun(s, more);
            && SystemSound(after) && k < |after.records|
            && after.records[k].versionId == s.records[k].versionId
            && ItemsOf(after.records[k], DefinitionsOf(after.templates)) == ItemsOf(s.records[k], DefinitionsOf(s.templates))
  {
    hide SystemSound, FlattenItems, T.Definition, T.Step, Step, Resolved;
    if more != [] {
      var before, o := SystemRun(s, more[..|more| - 1]), more[|more| - 1];
      ItemsStayFixed(s, more[..|more| - 1], k);
      if o.TemplateCall? { TemplateCallKeeps(before, o.templateOp); } else { RecordCallKeeps(before, o.user, o.recordOp); }
    }
  }

  /** The list of items a record is validated against is fixed from its
      creation onward, whatever is edited, published or archived later. */
  lemma RecordItemsNeverChange(ops: seq<SystemOp>, more: seq<SystemOp>, k: nat)
    requires k < |SystemRun(START, ops).records|
    ensures var before, now := SystemRun(START, ops), SystemRun(START, ops + more);
            && k < |now.records|
            && ItemsOf(now.records[k], DefinitionsOf(now.templates)) == ItemsOf(before.records[k], DefinitionsOf(before.templates))
  {
    hide SystemSound, SystemStep, SystemRun, FlattenItems, T.Definition;
    EveryMixedRunIsSound(ops);
    RunSplit(START, ops, more);
    ItemsStayFixed(SystemRun(START, ops), more, k);
  }

  /** So the truck guarantee holds for the checklist as it stands now: with a
      failing critical item, a submitted truck is blocked or rejected. */
  lemma CriticalFailuresStayBlocked(ops: seq<SystemOp>, k: nat)
    requires k < |SystemRun(START, ops).records| && !IsEditable(SystemRun(START, ops).records[k].status)
    requires SystemRun(START, ops).records[k].truck.Some?
    ensures var s := SystemRun(START, ops);
            var r := s.records[k];
            var validation := ValidationOf(FlattenItems(T.Definition(s.templates, r.versionId)), ResponsesOf(r.rows));
            && validation.isValid
            && (validation.hasCriticalFailure ==> r.truck.value.loadingDecision in {LOADING_BLOCKED, LoadingDecision.REJECTED})
  {
    EveryMixedRunIsSound(ops);
    hide SystemRun, TP.Sound, T.Definition, FlattenItems, ResponsesOf, DetectCriticalFailures, SoundPeople, ActionsDue, Errors;
    var s := SystemRun(START, ops);
    assert Sound(s.records[k], ItemsOf(s.records[k], DefinitionsOf(s.templates)));
  }

  // ------------------------------------------------------- new inspections

  function TemplateOps(ops: seq<SystemOp>): seq<T.Op> {
    if ops == [] then []
    else
      var last := ops[|ops| - 1];
      TemplateOps(ops[..|ops| - 1]) + (if last.TemplateCall? then [last.templateOp] else [])
  }

  lemma {:induction false} TemplatesRunAlone(ops: seq<SystemOp>)
    ensures SystemRun(START, ops).templates == T.Run(T.EMPTY, TemplateOps(ops))
  {
    hide T.Step, Step;
    if ops != [] {
      TemplatesRunAlone(ops[..|ops| - 1]);
      var before, last := TemplateOps(ops[..|ops| - 1]), ops[|ops| - 1];
      assert before + [] == before;
      if last.TemplateCall? {
        assert TemplateOps(ops) == before + [last.templateOp];
        assert TemplateOps(ops)[..|TemplateOps(ops)| - 1] == before;
      }
    }
  }

  /** The document an inspection is recorded under. */
  const DOCUMENTS: map<bool, Str> := map[true := Ascii("NMS/PPU/CL/30"), false := Ascii("NMS/PPU/CL/24")]

  /** The record calls of a run, each creation with the version in force. */
  function RecordOps(ops: seq<SystemOp>, db: T.Db): seq<Call> {
    if ops == [] then []
    else
      var last := ops[|ops| - 1];
      RecordOps(ops[..|ops| - 1], db)
      + match last
        case TemplateCall(_) => []
        case RecordCall(user, op) =>
          [Call(user, if op.CreateDraft? then op.(version := T.PublishedVersion(db, DOCUMENTS[op.key.TruckKey?])) else op)]
  }

  /** While no template call comes in between, the mixed system is the record
      service on the checklists as the tables hold them. */
  lemma {:induction false} RecordsRunAlone(s: System, ops: seq<SystemOp>)
    requires forall i :: 0 <= i < |ops| ==> ops[i].RecordCall?
    ensures SystemRun(s, ops) == System(s.templates, Run(s.records, RecordOps(ops, s.templates), (v: nat) => T.Definition(s.templates, v)))
  {
    hide T.Step, Step, T.Definition;
    if ops != [] {
      var init, last := ops[..|ops| - 1], ops[|ops| - 1];
      RecordsRunAlone(s, init);
      var calls := RecordOps(ops, s.templates);
      assert calls[..|calls| - 1] == RecordOps(init, s.templates);
      assert calls[|calls| - 1] == Call(last.user, Resolved(s.templates, last.recordOp));
      assert DefinitionsOf(s.templates) == ((v: nat) => T.Definition(s.templates, v));
    }
  }

  /** A new inspection is made on the version last published for its document
      and not archived since, whatever calls came before; without one no
      inspection is opened. */
  lemma NewInspectionIsOnLastPublished(ops: seq<SystemOp>, user: User, op: Op)
    requires op.CreateDraft?
    ensures var before, after := SystemRun(START, ops), SystemRun(START, ops + [RecordCall(user, op)]);
            var current := PV.LastPublished(TemplateOps(ops), DOCUMENTS[op.key.TruckKey?]);
            && after.templates == before.templates
            && (current == None ==> after.records == before.records)
            && (|after.records| > |before.records| ==> after.records[|before.records|].versionId == current.value)
  {
    var s := SystemRun(START, ops);
    assert (ops + [RecordCall(user, op)])[..|ops|] == ops;
    TemplatesRunAlone(ops);
    assert CodeOf(op.key) == DOCUMENTS[op.key.TruckKey?];
    PV.InForceIsLastPublished(TemplateOps(ops), CodeOf(op.key));
    var resolved, defs := Resolved(s.templates, op), DefinitionsOf(s.templates);
    NewRecordVersion(s.records, user, resolved, defs);
    if resolved.version == None { NoneOpened(s.records, user, resolved, defs); }
    hide Step, T.PublishedVersion;
  }

  lemma NoneOpened(records: seq<Record>, user: User, op: Op, defs: Definitions)
    requires op.CreateDraft? && op.version == None
    ensures Step(records, user, op, defs).0 == records
  {
    hide ResolveKey;
  }
}
