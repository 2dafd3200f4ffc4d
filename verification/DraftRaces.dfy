/** Draft creations that overlap: each looks for a record of its key first and
    inserts one later, with no unique key on the table to stop it
    (inspection-records.service.ts, createTruckDraft). */
module DraftRaces {
  import opened JsText
  import opened Wrappers
  import opened RecordRules
  import opened InspectionRecords
  import opened InspectionTheorems
  import opened OneItemChecklists
  import SG = SubmitGate

  /** A creation that found nothing in its way among the first `seen` records. */
  datatype Pending = Pending(user: nat, key: Key, area: Str, version: nat, reinspectionOf: Option<nat>, seen: nat)

  datatype Drafts = Drafts(gate: SG.Gate, pending: map<nat, Pending>)

  predicate Creates(o: SG.GateOp) { o.Other? && o.op.CreateDraft? }

  /** Every step of the other calls, submits and saves split as in the gate. */
  type RestOp = o: SG.GateOp | !Creates(o) witness SG.Validate(0)

  type CreateOp = o: Op | o.CreateDraft? witness CreateDraft(CleaningKey(0, None, []), [], None, None)

  datatype DraftOp = LookUp(call: nat, user: User, op: CreateOp) | Insert(call: nat) | Rest(step: RestOp)

  /** The look-up, the template version and the reinspected record allow it. */
  predicate MayInsert(records: seq<Record>, user: User, op: CreateOp) {
    && ResolveKey(records, op.key, user.id).CreateNew? && op.version.Some?
    && (op.key.TruckKey? && op.reinspectionOf.Some? ==> op.reinspectionOf.value < |records|)
  }

  function LookUpStep(d: Drafts, call: nat, user: User, op: CreateOp): Drafts {
    if call in d.pending || !MayInsert(d.gate.records, user, op) then d
    else d.(pending := d.pending[call := Pending(user.id, op.key, op.area, op.version.value, op.reinspectionOf, |d.gate.records|)])
  }

  /** Inserts without looking again. */
  function InsertStep(d: Drafts, call: nat): Drafts {
    if call !in d.pending then d
    else
      var p := d.pending[call];
      var record := NewRecord(p.user, p.key, p.area, p.version, p.reinspectionOf);
      Drafts(d.gate.(records := d.gate.records + [record]), d.pending - {call})
  }

  function DraftStep(d: Drafts, o: DraftOp, defs: Definitions): Drafts {
    match o
    case LookUp(call, user, op) => LookUpStep(d, call, user, op)
    case Insert(call) => InsertStep(d, call)
    case Rest(step) => d.(gate := SG.GateStep(d.gate, step, defs))
  }

  function DraftRun(d: Drafts, ops: seq<DraftOp>, defs: Definitions): Drafts {
    if ops == [] then d else DraftStep(DraftRun(d, ops[..|ops| - 1], defs), ops[|ops| - 1], defs)
  }

  const NO_DRAFTS := Drafts(SG.IDLE, map[])

  // --------------------------------------------------------------- condition

  /** The step inserts a record of the key although another one, inserted since
      its look-up, is there and not archived. */
  predicate InsertsOvertaken(d: Drafts, o: DraftOp, key: Key) {
    && o.Insert? && o.call in d.pending && d.pending[o.call].key == key
    && exists j :: d.pending[o.call].seen <= j < |d.gate.records| && KeyOf(d.gate.records[j]) == key
                   && !d.gate.records[j].status.ARCHIVED?
  }

  /** What the look-ups saw: of their key nothing that is not archived. */
  predicate LookUpsHold(d: Drafts, key: Key) {
    forall c :: c in d.pending && d.pending[c].key == key ==>
      && d.pending[c].seen <= |d.gate.records|
      && forall i :: 0 <= i < d.pending[c].seen && KeyOf(d.gate.records[i]) == key ==> d.gate.records[i].status.ARCHIVED?
  }

  /** No other step moves a record to or from a truck key, or out of the archive. */
  lemma RestKeepsTruckKeys(g: SG.Gate, o: RestOp, defs: Definitions, key: Key)
    requires key.TruckKey?
    ensures var after := SG.GateStep(g, o, defs).records;
            && |after| == |g.records|
            && forall k :: 0 <= k < |after| ==>
                 && (KeyOf(after[k]) == key <==> KeyOf(g.records[k]) == key)
                 && (g.records[k].status.ARCHIVED? ==> after[k].status.ARCHIVED?)
  {
    hide Step;
    if o.Other? { ReviewKeepsTruckKeys(g.records, o.user, o.op, defs); }
  }

  lemma ReviewKeepsTruckKeys(records: seq<Record>, user: User, op: Op, defs: Definitions)
    requires op.Review?
    ensures var after := Step(records, user, op, defs).0;
            && |after| == |records|
            && forall k :: 0 <= k < |after| ==>
                 KeyOf(after[k]) == KeyOf(records[k]) && (records[k].status.ARCHIVED? ==> after[k].status.ARCHIVED?)
  {
    var after := Step(records, user, op, defs).0;
    StepAdds(records, user, op, defs);
    hide Step;
    forall k | 0 <= k < |records|
      ensures KeyOf(after[k]) == KeyOf(records[k]) && (records[k].status.ARCHIVED? ==> after[k].status.ARCHIVED?)
    {
      StepKeys(records, user, op, defs, k);
      StepArchived(records, user, op, defs, k);
    }
  }

  lemma RestKeeps(d: Drafts, o: DraftOp, defs: Definitions, key: Key)
    requires key.TruckKey? && OlderArchived(d.gate.records, key) && LookUpsHold(d, key) && o.Rest?
    ensures var after := DraftStep(d, o, defs);
            OlderArchived(after.gate.records, key) && LookUpsHold(after, key)
  {
    RestKeepsTruckKeys(d.gate, o.step, defs, key);
    hide SG.GateStep, KeyOf;
  }

  lemma LookUpHolds(d: Drafts, o: DraftOp, defs: Definitions, key: Key)
    requires key.TruckKey? && OlderArchived(d.gate.records, key) && LookUpsHold(d, key) && o.LookUp?
    ensures DraftStep(d, o, defs).gate == d.gate && LookUpsHold(DraftStep(d, o, defs), key)
  {
    hide KeyOf;
    var newest := NewestTo(d.gate.records, o.op.key, |d.gate.records|);
  }

  lemma InsertKeepsExactly(d: Drafts, o: DraftOp, defs: Definitions, key: Key)
    requires key.TruckKey? && OlderArchived(d.gate.records, key) && LookUpsHold(d, key) && o.Insert?
    ensures var after := DraftStep(d, o, defs);
            && (OlderArchived(after.gate.records, key) <==> !InsertsOvertaken(d, o, key))
            && LookUpsHold(after, key)
  {
    if o.call in d.pending {
      var p, records := d.pending[o.call], d.gate.records;
      CreatedKey(p.user, p.key, p.area, p.version, p.reinspectionOf);
      var after := DraftStep(d, o, defs).gate.records;
      assert after[|records|] == NewRecord(p.user, p.key, p.area, p.version, p.reinspectionOf);
      assert forall i :: 0 <= i < |records| ==> after[i] == records[i];
      hide KeyOf, NewRecord, DraftStep;
      if InsertsOvertaken(d, o, key) {
        var j :| p.seen <= j < |records| && KeyOf(records[j]) == key && !records[j].status.ARCHIVED?;
        assert KeyOf(after[j]) == key && KeyOf(after[|records|]) == key;
      }
    }
  }

  lemma StepKeepsExactly(d: Drafts, o: DraftOp, defs: Definitions, key: Key)
    requires key.TruckKey? && OlderArchived(d.gate.records, key) && LookUpsHold(d, key)
    ensures var after := DraftStep(d, o, defs);
            && (OlderArchived(after.gate.records, key) <==> !InsertsOvertaken(d, o, key))
            && LookUpsHold(after, key)
  {
    match o
    case LookUp(_, _, _) => LookUpHolds(d, o, defs, key);
    case Insert(_) => InsertKeepsExactly(d, o, defs, key);
    case Rest(_) => RestKeeps(d, o, defs, key);
  }

  /** The key is unique after every step of the run. */
  predicate AlwaysUnique(ops: seq<DraftOp>, defs: Definitions, key: Key) {
    && OlderArchived(DraftRun(NO_DRAFTS, ops, defs).gate.records, key)
    && (ops == [] || AlwaysUnique(ops[..|ops| - 1], defs, key))
  }

  /** No step of the run inserts a record of the key that was overtaken. */
  predicate NeverOvertaken(ops: seq<DraftOp>, defs: Definitions, key: Key) {
    ops == [] ||
      (var init := ops[..|ops| - 1];
       NeverOvertaken(init, defs, key) && !InsertsOvertaken(DraftRun(NO_DRAFTS, init, defs), ops[|ops| - 1], key))
  }

  lemma {:induction false} UniqueKeepsLookUps(ops: seq<DraftOp>, defs: Definitions, key: Key)
    requires key.TruckKey? && AlwaysUnique(ops, defs, key)
    ensures LookUpsHold(DraftRun(NO_DRAFTS, ops, defs), key)
  {
    hide DraftStep, OlderArchived, InsertsOvertaken;
    if ops != [] {
      UniqueKeepsLookUps(ops[..|ops| - 1], defs, key);
      StepKeepsExactly(DraftRun(NO_DRAFTS, ops[..|ops| - 1], defs), ops[|ops| - 1], defs, key);
    }
  }

  /** However creations, saves, submits and decisions interleave, the truck
      inspections of one vehicle, date and shift stay archived but the newest if
      and only if no creation inserts one after another that has overtaken its
      look-up and is not archived. */
  lemma {:induction false} TruckKeysUniqueExactly(ops: seq<DraftOp>, defs: Definitions, key: Key)
    requires key.TruckKey?
    ensures AlwaysUnique(ops, defs, key) <==> NeverOvertaken(ops, defs, key)
  {
    hide DraftStep, OlderArchived, InsertsOvertaken, LookUpsHold;
    if ops == [] {
      EmptyUnique(key);
      assert DraftRun(NO_DRAFTS, ops, defs).gate.records == [];
    } else {
      var init := ops[..|ops| - 1];
      TruckKeysUniqueExactly(init, defs, key);
      if AlwaysUnique(init, defs, key) {
        UniqueKeepsLookUps(init, defs, key);
        assert OlderArchived(DraftRun(NO_DRAFTS, init, defs).gate.records, key);
        StepKeepsExactly(DraftRun(NO_DRAFTS, init, defs), ops[|ops| - 1], defs, key);
      }
    }
  }

  // ----------------------------------------------------------- whole creation

  /** A creation that nothing interrupts is the whole call. */
  lemma UninterruptedCreationIsAtomic(d: Drafts, call: nat, user: User, op: CreateOp, defs: Definitions)
    requires call !in d.pending
    ensures DraftStep(DraftStep(d, LookUp(call, user, op), defs), Insert(call), defs)
         == d.(gate := d.gate.(records := Step(d.gate.records, user, op, defs).0))
  {
    hide NewRecord, ResolveKey;
    if MayInsert(d.gate.records, user, op) {
      var looked := DraftStep(d, LookUp(call, user, op), defs);
      assert looked.pending - {call} == d.pending;
    }
  }

  /** What a creation saw stays as it was seen until it inserts, whatever else
      happens in between. */
  lemma SeenStays(d: Drafts, o: DraftOp, defs: Definitions, call: nat)
    requires call in d.pending && o != Insert(call)
    ensures var after := DraftStep(d, o, defs); call in after.pending && after.pending[call] == d.pending[call]
  {
    hide SG.GateStep, MayInsert, NewRecord;
  }

  /** Without creations the steps are those of the gate, in the same order. */
  lemma {:induction false} RestIsTheGate(d: Drafts, steps: seq<RestOp>, defs: Definitions)
    ensures DraftRun(d, seq(|steps|, i requires 0 <= i < |steps| => Rest(steps[i])), defs)
         == Drafts(SG.GateRun(d.gate, steps, defs), d.pending)
  {
    hide SG.GateStep;
    if steps != [] {
      var init, ops := steps[..|steps| - 1], seq(|steps|, i requires 0 <= i < |steps| => Rest(steps[i]));
      RestIsTheGate(d, init, defs);
      assert ops[..|ops| - 1] == seq(|init|, i requires 0 <= i < |init| => Rest(init[i]));
    }
  }

  // ---------------------------------------------------------- it does happen

  lemma DraftRunSnoc(d: Drafts, ops: seq<DraftOp>, o: DraftOp, defs: Definitions)
    ensures DraftRun(d, ops + [o], defs) == DraftStep(DraftRun(d, ops, defs), o, defs)
  {
    hide DraftStep;
    assert (ops + [o])[..|ops|] == ops;
  }

  const CREATING: CreateOp := CreateDraft(TRUCK, [], Some(0), None)

  /** Two users start the same truck inspection; both look before either inserts. */
  function TwoCreations(): seq<DraftOp> {
    [LookUp(0, User(1, {}, {}), CREATING)] + [LookUp(1, User(2, {}, {}), CREATING)] + [Insert(0)] + [Insert(1)]
  }

  /** Both creations after their look-ups. */
  const BOTH_LOOKED :=
    Drafts(SG.IDLE, map[0 := Pending(1, TRUCK, [], 0, None, 0), 1 := Pending(2, TRUCK, [], 0, None, 0)])

  lemma FirstLooks(d: Drafts, call: nat, user: User, defs: Definitions)
    requires d.gate == SG.IDLE && call !in d.pending
    ensures DraftStep(d, LookUp(call, user, CREATING), defs)
         == d.(pending := d.pending[call := Pending(user.id, TRUCK, [], 0, None, 0)])
  {
    assert NewestTo([], TRUCK, 0).None?;
  }

  lemma BothLook(defs: Definitions)
    ensures DraftRun(NO_DRAFTS, [LookUp(0, User(1, {}, {}), CREATING)] + [LookUp(1, User(2, {}, {}), CREATING)], defs)
         == BOTH_LOOKED
  {
    var o1, o2 := LookUp(0, User(1, {}, {}), CREATING), LookUp(1, User(2, {}, {}), CREATING);
    DraftRunSnoc(NO_DRAFTS, [], o1, defs);
    DraftRunSnoc(NO_DRAFTS, [o1], o2, defs);
    assert [] + [o1] == [o1];
    assert DraftRun(NO_DRAFTS, [], defs) == NO_DRAFTS;
    hide DraftRun, DraftStep;
    FirstLooks(NO_DRAFTS, 0, User(1, {}, {}), defs);
    FirstLooks(NO_DRAFTS.(pending := map[0 := Pending(1, TRUCK, [], 0, None, 0)]), 1, User(2, {}, {}), defs);
  }

  lemma BothInsert(defs: Definitions)
    ensures DraftStep(DraftStep(BOTH_LOOKED, Insert(0), defs), Insert(1), defs).gate.records
         == [NewRecord(1, TRUCK, [], 0, None), NewRecord(2, TRUCK, [], 0, None)]
  {
    hide NewRecord;
    var half := InsertStep(BOTH_LOOKED, 0);
    assert half.gate.records == [NewRecord(1, TRUCK, [], 0, None)];
    assert 1 in half.pending && half.pending[1] == Pending(2, TRUCK, [], 0, None, 0);
  }

  /** From an empty table: two live records of one truck key. */
  lemma TwoCreationsShareAKey(defs: Definitions)
    ensures var records := DraftRun(NO_DRAFTS, TwoCreations(), defs).gate.records;
            && |records| == 2 && records[0].status.DRAFT? && records[1].status.DRAFT?
            && KeyOf(records[0]) == TRUCK && KeyOf(records[1]) == TRUCK && !OlderArchived(records, TRUCK)
  {
    var o1, o2 := LookUp(0, User(1, {}, {}), CREATING), LookUp(1, User(2, {}, {}), CREATING);
    BothLook(defs);
    DraftRunSnoc(NO_DRAFTS, [o1] + [o2], Insert(0), defs);
    DraftRunSnoc(NO_DRAFTS, [o1] + [o2] + [Insert(0)], Insert(1), defs);
    hide DraftRun, DraftStep;
    BothInsert(defs);
  }
}
