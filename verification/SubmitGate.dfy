/** Saves, submits and loading decisions that interleave.  Saves and submits
    read the record and check its owner and status once, store their answers one
    by one, and then a save writes the label it brought, a submit reads back and
    validates; only a submit's last step, a conditional update with the rows it
    raises, is atomic.  A loading decision reads the recommendation and checks
    it once, and writes later (inspection-records.service.ts, saveDraft, submit
    and approveLoadingDecision). */
module SubmitGate {
  import opened JsText
  import opened Wrappers
  import opened ChecklistEngine
  import opened RecordRules
  import opened InspectionRecords
  import opened InspectionProofs

  datatype Request =
    | Save(entries: seq<Entry>, newArea: Option<Str>)
    | Submission(answers: Option<seq<Entry>>)
    | Decision(decision: LoadingDecision)

  /** What a call does once its answers are stored; a save keeps the label it
      saw at its beginning. */
  datatype Next = ThenLabel(newArea: Option<Str>, seenArea: Str) | ThenValidate

  /** Where a call stands. */
  datatype Phase =
    | Storing(user: User, id: nat, rest: seq<Entry>, next: Next)
    | Validated(user: User, id: nat, rs: ResponseMap, rows: seq<ResultRow>)
    | Deciding(user: User, id: nat, decision: LoadingDecision)
    | Finished(claimed: bool)

  datatype Event = Claim(call: nat, id: nat) | Reopen(id: nat)

  datatype Gate = Gate(records: seq<Record>, calls: map<nat, Phase>, log: seq<Event>)

  /** The calls that are one step. */
  type OtherOp = o: Op | o.CreateDraft? || o.Review? witness Review(0, WorkflowAction.CHECK, None)

  datatype GateOp =
    | Begin(call: nat, user: User, id: nat, request: Request)
    | StoreAnswer(call: nat)
    | FinishSave(call: nat)
    | Validate(call: nat)
    | ClaimRecord(call: nat)
    | WriteDecision(call: nat)
    | Other(user: User, op: OtherOp)

  function FirstPhase(user: User, id: nat, request: Request, seenArea: Str): Phase {
    match request
    case Save(entries, newArea) => Storing(user, id, entries, ThenLabel(newArea, seenArea))
    case Submission(answers) => Storing(user, id, if answers.Some? then answers.value else [], ThenValidate)
    case Decision(decision) => Deciding(user, id, decision)
  }

  /** The checks a call makes on the record it reads first. */
  predicate Admitted(records: seq<Record>, user: User, id: nat, request: Request) {
    if request.Decision? then LoadingStep(records, user, DecideLoading(id, request.decision)).1.Done?
    else OwnerGuard(records, user, id).None?
  }

  function BeginStep(g: Gate, o: GateOp): Gate
    requires o.Begin?
  {
    if o.call in g.calls || !Admitted(g.records, o.user, o.id, o.request) then g
    else g.(calls := g.calls[o.call := FirstPhase(o.user, o.id, o.request, g.records[o.id].area)])
  }

  predicate IsStoring(g: Gate, call: nat) {
    call in g.calls && g.calls[call].Storing? && g.calls[call].id < |g.records|
  }

  /** Stores the next answer without looking at the status again. */
  function StoreStep(g: Gate, call: nat, defs: Definitions): Gate {
    if !IsStoring(g, call) || g.calls[call].rest == [] then g
    else
      var p := g.calls[call];
      var r := g.records[p.id];
      g.(records := g.records[p.id := r.(rows := PersistEntry(r.rows, ItemsOf(r, defs), p.rest[0]))],
         calls := g.calls[call := p.(rest := p.rest[1..])])
  }

  /** Whether a save, as it read the record, brings another label. */
  predicate BringsLabel(next: Next) {
    next.ThenLabel? && next.newArea.Some? && next.newArea.value != [] && next.newArea.value != next.seenArea
  }

  function FinishStep(g: Gate, call: nat): Gate {
    if !IsStoring(g, call) || g.calls[call].rest != [] || !g.calls[call].next.ThenLabel? then g
    else
      var p := g.calls[call];
      var r := g.records[p.id];
      g.(records := if BringsLabel(p.next) then g.records[p.id := r.(area := p.next.newArea.value)] else g.records,
         calls := g.calls[call := Finished(false)])
  }

  function ValidateStep(g: Gate, call: nat, defs: Definitions): Gate {
    if !IsStoring(g, call) || g.calls[call].rest != [] || !g.calls[call].next.ThenValidate? then g
    else
      var p := g.calls[call];
      var r := g.records[p.id];
      var rs := ResponsesOf(r.rows);
      if ValidationOf(ItemsOf(r, defs), rs).isValid then g.(calls := g.calls[call := Validated(p.user, p.id, rs, r.rows)])
      else g.(calls := g.calls[call := Finished(false)])
  }

  /** The transaction: claims the record if it is still editable. */
  function ClaimStep(g: Gate, call: nat, defs: Definitions): Gate {
    if call !in g.calls || !g.calls[call].Validated? || g.calls[call].id >= |g.records| then g
    else
      var p := g.calls[call];
      var r := g.records[p.id];
      if !IsEditable(r.status) then g.(calls := g.calls[call := Finished(false)])
      else
        Gate(g.records[p.id := Claimed(r, ItemsOf(r, defs), p.rs, p.rows, p.user.id)],
             g.calls[call := Finished(true)],
             g.log + [Claim(call, p.id)])
  }

  predicate IsDeciding(g: Gate, call: nat) {
    && call in g.calls && g.calls[call].Deciding? && g.calls[call].id < |g.records|
    && g.records[g.calls[call].id].truck.Some?
  }

  /** Writes the decision without looking at the recommendation again. */
  function WriteStep(g: Gate, call: nat): Gate {
    if !IsDeciding(g, call) then g
    else
      var p := g.calls[call];
      g.(records := g.records[p.id := Decided(g.records[p.id], p.user.id, p.decision)], calls := g.calls[call := Finished(false)])
  }

  function OtherStep(g: Gate, user: User, op: OtherOp, defs: Definitions): Gate {
    var after := Step(g.records, user, op, defs).0;
    var reopened := op.Review? && op.id < |g.records| && op.id < |after|
                    && !IsEditable(g.records[op.id].status) && IsEditable(after[op.id].status);
    Gate(after, g.calls, if reopened then g.log + [Reopen(op.id)] else g.log)
  }

  function GateStep(g: Gate, o: GateOp, defs: Definitions): Gate {
    match o
    case Begin(_, _, _, _) => BeginStep(g, o)
    case StoreAnswer(call) => StoreStep(g, call, defs)
    case FinishSave(call) => FinishStep(g, call)
    case Validate(call) => ValidateStep(g, call, defs)
    case ClaimRecord(call) => ClaimStep(g, call, defs)
    case WriteDecision(call) => WriteStep(g, call)
    case Other(user, op) => OtherStep(g, user, op, defs)
  }

  function GateRun(g: Gate, ops: seq<GateOp>, defs: Definitions): Gate {
    if ops == [] then g else GateStep(GateRun(g, ops[..|ops| - 1], defs), ops[|ops| - 1], defs)
  }

  const IDLE := Gate([], map[], [])

  // -------------------------------------------------------------- the log

  /** Whether the last event of a record in the log is a claim. */
  function ClaimedLast(log: seq<Event>, id: nat): bool {
    if log == [] then false
    else
      var e := log[|log| - 1];
      if e.id == id then e.Claim? else ClaimedLast(log[..|log| - 1], id)
  }

  predicate HasClaimed(log: seq<Event>, call: nat) {
    exists i :: 0 <= i < |log| && log[i].Claim? && log[i].call == call
  }

  /** Record by record the log alternates, claim first; no call claims twice. */
  predicate Alternates(log: seq<Event>) {
    log == [] ||
      (var init, e := log[..|log| - 1], log[|log| - 1];
       && Alternates(init)
       && (e.Claim? ==> !ClaimedLast(init, e.id) && !HasClaimed(init, e.call))
       && (e.Reopen? ==> ClaimedLast(init, e.id)))
  }

  ghost predicate Consistent(g: Gate) {
    && Alternates(g.log)
    && (forall k :: 0 <= k < |g.records| ==> (IsEditable(g.records[k].status) <==> !ClaimedLast(g.log, k)))
    && (forall k :: k >= |g.records| ==> !ClaimedLast(g.log, k))
    && (forall c :: HasClaimed(g.log, c) <==> c in g.calls && g.calls[c] == Finished(true))
    && (forall k :: 0 <= k < |g.records| ==> DistinctActions(g.records[k].actions))
  }

  lemma LogAppend(log: seq<Event>, e: Event)
    ensures forall k :: ClaimedLast(log + [e], k) == if e.id == k then e.Claim? else ClaimedLast(log, k)
    ensures forall c :: HasClaimed(log + [e], c) <==> HasClaimed(log, c) || (e.Claim? && e.call == c)
    ensures Alternates(log + [e]) <==>
      && Alternates(log)
      && (e.Claim? ==> !ClaimedLast(log, e.id) && !HasClaimed(log, e.call))
      && (e.Reopen? ==> ClaimedLast(log, e.id))
  {
    assert (log + [e])[..|log|] == log;
    forall c ensures HasClaimed(log + [e], c) <==> HasClaimed(log, c) || (e.Claim? && e.call == c) {
      if HasClaimed(log, c) {
        var i :| 0 <= i < |log| && log[i].Claim? && log[i].call == c;
        assert (log + [e])[i].Claim?;
      }
      if e.Claim? && e.call == c { assert (log + [e])[|log|].Claim?; }
    }
  }

  lemma ClaimKeepsConsistent(g: Gate, call: nat, defs: Definitions)
    requires Consistent(g)
    ensures Consistent(ClaimStep(g, call, defs))
  {
    hide Alternates, ClaimedLast, RaiseTo, RecommendedDecision, FlattenItems, DistinctActions;
    if call in g.calls && g.calls[call].Validated? && g.calls[call].id < |g.records| {
      var p := g.calls[call];
      LogAppend(g.log, Claim(call, p.id));
      var r := g.records[p.id];
      RaiseFacts(r.actions, ItemsOf(r, defs), p.rs, p.rows, p.user.id, |ItemsOf(r, defs)|);
    }
  }

  /** What a whole call of another kind does to the things the gate tracks. */
  lemma OtherEffect(records: seq<Record>, user: User, op: OtherOp, defs: Definitions)
    ensures var after := Step(records, user, op, defs).0;
            && |records| <= |after| <= |records| + 1
            && (|after| > |records| ==> after[|records|].status.DRAFT? && after[|records|].actions == [])
            && forall k :: 0 <= k < |records| ==>
                 && after[k].actions == records[k].actions && after[k].versionId == records[k].versionId
                 && after[k].area == records[k].area && after[k].rows == records[k].rows && after[k].truck == records[k].truck
                 && (IsEditable(records[k].status) ==> IsEditable(after[k].status))
                 && (!IsEditable(records[k].status) && IsEditable(after[k].status) ==> op.Review? && op.id == k)
  {
    hide PersistTo, FlattenItems, ApprovedCount, RequestGuard, ResolveKey, CanView;
  }

  lemma OtherKeepsConsistent(g: Gate, user: User, op: OtherOp, defs: Definitions)
    requires Consistent(g)
    ensures Consistent(OtherStep(g, user, op, defs))
  {
    hide Alternates, ClaimedLast, HasClaimed, Step;
    OtherEffect(g.records, user, op, defs);
    if op.Review? { LogAppend(g.log, Reopen(op.id)); }
  }

  lemma CallStepsKeepConsistent(g: Gate, o: GateOp, defs: Definitions)
    requires Consistent(g) && !o.Other? && !o.ClaimRecord?
    ensures Consistent(GateStep(g, o, defs))
  {
    hide Alternates, ClaimedLast, HasClaimed, PersistEntry, ValidationOf, FlattenItems, ResponsesOf, DistinctActions, BringsLabel;
  }

  /** Whatever the interleaving, every record's log alternates between claims
      and reopenings, a record is editable exactly when its last claim was
      undone, no call claims twice, and no result row ever has two corrective
      actions. */
  lemma {:induction false} EveryInterleavingIsConsistent(ops: seq<GateOp>, defs: Definitions)
    ensures Consistent(GateRun(IDLE, ops, defs))
  {
    hide GateStep;
    if ops == [] {
      IdleConsistent();
    } else {
      var g, o := GateRun(IDLE, ops[..|ops| - 1], defs), ops[|ops| - 1];
      EveryInterleavingIsConsistent(ops[..|ops| - 1], defs);
      StepKeepsConsistent(g, o, defs);
    }
  }

  lemma IdleConsistent()
    ensures Consistent(IDLE)
  {
  }

  lemma StepKeepsConsistent(g: Gate, o: GateOp, defs: Definitions)
    requires Consistent(g)
    ensures Consistent(GateStep(g, o, defs))
  {
    if o.Other? {
      OtherKeepsConsistent(g, o.user, o.op, defs);
    } else if o.ClaimRecord? {
      ClaimKeepsConsistent(g, o.call, defs);
    } else {
      CallStepsKeepConsistent(g, o, defs);
    }
  }

  /** A record leaves the editable statuses in one way only: by the claim of
      one call that had validated its answers and never claimed before. */
  lemma EachMoveOutIsOneClaim(ops: seq<GateOp>, o: GateOp, defs: Definitions, k: nat)
    requires k < |GateRun(IDLE, ops, defs).records| && k < |GateStep(GateRun(IDLE, ops, defs), o, defs).records|
    requires IsEditable(GateRun(IDLE, ops, defs).records[k].status)
    requires !IsEditable(GateStep(GateRun(IDLE, ops, defs), o, defs).records[k].status)
    ensures var g := GateRun(IDLE, ops, defs);
            && o.ClaimRecord? && o.call in g.calls && g.calls[o.call].Validated? && g.calls[o.call].id == k
            && !HasClaimed(g.log, o.call)
            && GateStep(g, o, defs).log == g.log + [Claim(o.call, k)]
  {
    var g := GateRun(IDLE, ops, defs);
    EveryInterleavingIsConsistent(ops, defs);
    hide GateRun, Alternates, ClaimedLast, HasClaimed, DistinctActions, Step;
    hide PersistEntry, ValidationOf, FlattenItems, ResponsesOf, RaiseTo, RecommendedDecision, BringsLabel;
    if o.Other? { OtherEffect(g.records, o.user, o.op, defs); }
  }

  lemma GateRunSnoc(g: Gate, ops: seq<GateOp>, o: GateOp, defs: Definitions)
    ensures GateRun(g, ops + [o], defs) == GateStep(GateRun(g, ops, defs), o, defs)
  {
    hide GateStep;
    assert (ops + [o])[..|ops|] == ops;
  }

  // ------------------------------------------------- the steps make the calls

  function Stores(call: nat, n: nat): seq<GateOp> {
    if n == 0 then [] else Stores(call, n - 1) + [StoreAnswer(call)]
  }

  /** The gate after n answers of one call have been stored in a row. */
  function StoredBy(g: Gate, call: nat, defs: Definitions, n: nat): Gate
    requires IsStoring(g, call) && n <= |g.calls[call].rest|
  {
    var p := g.calls[call];
    var r := g.records[p.id];
    g.(records := g.records[p.id := r.(rows := PersistTo(r.rows, ItemsOf(r, defs), p.rest, n))],
       calls := g.calls[call := p.(rest := p.rest[n..])])
  }

  lemma StoredNext(g: Gate, call: nat, defs: Definitions, n: nat)
    requires IsStoring(g, call) && n < |g.calls[call].rest|
    ensures GateStep(StoredBy(g, call, defs, n), StoreAnswer(call), defs) == StoredBy(g, call, defs, n + 1)
  {
    hide PersistEntry, FlattenItems;
    var p := g.calls[call];
    assert p.rest[n..][0] == p.rest[n] && p.rest[n..][1..] == p.rest[n + 1..];
    var r := g.records[p.id];
    assert PersistTo(r.rows, ItemsOf(r, defs), p.rest, n + 1)
        == PersistEntry(PersistTo(r.rows, ItemsOf(r, defs), p.rest, n), ItemsOf(r, defs), p.rest[n]);
    hide PersistTo;
  }

  lemma StoredNone(g: Gate, call: nat, defs: Definitions)
    requires IsStoring(g, call)
    ensures StoredBy(g, call, defs, 0) == g
  {
    var p := g.calls[call];
    assert g.calls[call := p] == g.calls;
    assert g.records[p.id := g.records[p.id]] == g.records;
    hide FlattenItems;
  }

  lemma {:induction false} StoresRun(g: Gate, call: nat, defs: Definitions, n: nat)
    requires IsStoring(g, call) && n <= |g.calls[call].rest|
    ensures GateRun(g, Stores(call, n), defs) == StoredBy(g, call, defs, n)
  {
    hide StoredBy, GateStep;
    if n == 0 {
      StoredNone(g, call, defs);
      assert Stores(call, n) == [];
    } else {
      hide GateRun;
      StoresRun(g, call, defs, n - 1);
      GateRunSnoc(g, Stores(call, n - 1), StoreAnswer(call), defs);
      StoredNext(g, call, defs, n - 1);
    }
  }

  lemma {:induction false} StoresIdle(g: Gate, call: nat, defs: Definitions, n: nat)
    requires call !in g.calls
    ensures GateRun(g, Stores(call, n), defs) == g
  {
    if n > 0 {
      StoresIdle(g, call, defs, n - 1);
      GateRunSnoc(g, Stores(call, n - 1), StoreAnswer(call), defs);
      hide GateRun;
    }
  }

  /** A submit that nothing interrupts is the whole call. */
  lemma UninterruptedSubmitIsAtomic(g: Gate, call: nat, user: User, id: nat, answers: Option<seq<Entry>>, defs: Definitions)
    requires call !in g.calls
    ensures var n := if answers.Some? then |answers.value| else 0;
            var g1 := GateStep(g, Begin(call, user, id, Submission(answers)), defs);
            var g2 := GateRun(g1, Stores(call, n), defs);
            var g3 := GateStep(GateStep(g2, Validate(call), defs), ClaimRecord(call), defs);
            var (records, outcome) := Step(g.records, user, Submit(id, answers), defs);
            && g3.records == records
            && (outcome.Done? <==> call in g3.calls && g3.calls[call] == Finished(true))
  {
    hide PersistTo, ValidationOf, FlattenItems, ResponsesOf, RaiseTo, RecommendedDecision, GateRun;
    if OwnerGuard(g.records, user, id).None? {
      var g1 := GateStep(g, Begin(call, user, id, Submission(answers)), defs);
      var rest := g1.calls[call].rest;
      StoresRun(g1, call, defs, |rest|);
      assert answers.None? ==> PersistTo(g.records[id].rows, ItemsOf(g.records[id], defs), [], 0) == g.records[id].rows by {
        NothingPersisted(g.records[id].rows, ItemsOf(g.records[id], defs));
      }
    } else {
      StoresIdle(g, call, defs, if answers.Some? then |answers.value| else 0);
    }
  }

  lemma NothingPersisted(rows: seq<ResultRow>, items: seq<Item>)
    ensures PersistTo(rows, items, [], 0) == rows
  {
  }

  /** So is a save. */
  lemma UninterruptedSaveIsAtomic(g: Gate, call: nat, user: User, id: nat, entries: seq<Entry>, newArea: Option<Str>,
                                  defs: Definitions)
    requires call !in g.calls
    ensures var g1 := GateStep(g, Begin(call, user, id, Save(entries, newArea)), defs);
            var g2 := GateStep(GateRun(g1, Stores(call, |entries|), defs), FinishSave(call), defs);
            g2.records == Step(g.records, user, SaveDraft(id, entries, newArea), defs).0
  {
    hide PersistTo, FlattenItems, GateRun;
    if OwnerGuard(g.records, user, id).None? {
      var g1 := GateStep(g, Begin(call, user, id, Save(entries, newArea)), defs);
      StoresRun(g1, call, defs, |entries|);
      assert entries[|entries|..] == [];
    } else {
      StoresIdle(g, call, defs, |entries|);
    }
  }

  /** And a loading decision. */
  lemma UninterruptedDecisionIsAtomic(g: Gate, call: nat, user: User, id: nat, decision: LoadingDecision, defs: Definitions)
    requires call !in g.calls
    ensures GateStep(GateStep(g, Begin(call, user, id, Decision(decision)), defs), WriteDecision(call), defs).records
         == Step(g.records, user, DecideLoading(id, decision), defs).0
  {
  }
}
