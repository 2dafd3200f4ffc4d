/** What the gate leaves open: answers, labels and loading decisions that arrive late. */
module LateStores {
  import opened JsText
  import opened Wrappers
  import opened ChecklistEngine
  import opened RecordRules
  import opened InspectionRecords
  import opened InspectionProofs
  import opened SubmitGate

  /** Record k stays out of the editable statuses throughout the run. */
  ghost predicate StaysOut(g: Gate, more: seq<GateOp>, defs: Definitions, k: nat) {
    && k < |GateRun(g, more, defs).records| && !IsEditable(GateRun(g, more, defs).records[k].status)
    && (more == [] || StaysOut(g, more[..|more| - 1], defs, k))
  }

  /** The call has answers to store that differ from what is stored. */
  predicate HoldsAnswer(r: Record, items: seq<Item>, p: Phase) {
    p.Storing? && exists i :: 0 <= i < |p.rest| && PersistEntry(r.rows, items, p.rest[i]) != r.rows
  }

  /** The call is a save with a label to write that differs from the record's. */
  predicate HoldsLabel(r: Record, p: Phase) {
    p.Storing? && BringsLabel(p.next) && p.next.newArea.value != r.area
  }

  ghost predicate PendingAnswer(g: Gate, defs: Definitions, k: nat)
    requires k < |g.records|
  {
    exists c :: c in g.calls && g.calls[c].Storing? && g.calls[c].id == k
                && HoldsAnswer(g.records[k], ItemsOf(g.records[k], defs), g.calls[c])
  }

  ghost predicate PendingLabel(g: Gate, k: nat)
    requires k < |g.records|
  {
    exists c :: c in g.calls && g.calls[c].Storing? && g.calls[c].id == k && HoldsLabel(g.records[k], g.calls[c])
  }

  /** One step changes a submitted record's answers exactly when it stores a
      differing answer of a call begun earlier, its label exactly when it ends a
      save begun earlier that brings another one. */
  lemma StepChangesExactly(g: Gate, o: GateOp, defs: Definitions, k: nat)
    requires k < |g.records| && !IsEditable(g.records[k].status)
    ensures var after := GateStep(g, o, defs);
            && k < |after.records| && after.records[k].versionId == g.records[k].versionId
            && (after.records[k].rows != g.records[k].rows <==>
                  && o.StoreAnswer? && IsStoring(g, o.call) && g.calls[o.call].id == k && g.calls[o.call].rest != []
                  && PersistEntry(g.records[k].rows, ItemsOf(g.records[k], defs), g.calls[o.call].rest[0]) != g.records[k].rows)
            && (after.records[k].area != g.records[k].area <==>
                  && o.FinishSave? && IsStoring(g, o.call) && g.calls[o.call].id == k && g.calls[o.call].rest == []
                  && HoldsLabel(g.records[k], g.calls[o.call]))
  {
    hide PersistEntry, ValidationOf, FlattenItems, ResponsesOf, Step, RaiseTo, RecommendedDecision;
    if o.Other? { OtherEffect(g.records, o.user, o.op, defs); }
  }

  // --------------------------------------------------------- nothing pending

  /** What a step leaves of the calls that are still storing. */
  lemma StepNarrows(g: Gate, o: GateOp, defs: Definitions, k: nat, c: nat)
    requires k < |g.records| && !IsEditable(g.records[k].status)
    requires c in GateStep(g, o, defs).calls && GateStep(g, o, defs).calls[c].Storing? && GateStep(g, o, defs).calls[c].id == k
    ensures c in g.calls && g.calls[c].Storing? && g.calls[c].id == k
    ensures var before, now := g.calls[c], GateStep(g, o, defs).calls[c];
            && now.next == before.next && (now.rest == before.rest || (before.rest != [] && now.rest == before.rest[1..]))
  {
    hide PersistEntry, ValidationOf, FlattenItems, ResponsesOf, Step, RaiseTo, RecommendedDecision, BringsLabel;
  }

  lemma SettledStep(g: Gate, o: GateOp, defs: Definitions, k: nat)
    requires k < |g.records| && !IsEditable(g.records[k].status)
    ensures var after := GateStep(g, o, defs);
            && k < |after.records|
            && (!PendingAnswer(g, defs, k) ==> after.records[k].rows == g.records[k].rows && !PendingAnswer(after, defs, k))
            && (!PendingLabel(g, k) ==> after.records[k].area == g.records[k].area && !PendingLabel(after, k))
  {
    hide GateStep, PersistEntry, FlattenItems, BringsLabel;
    StepChangesExactly(g, o, defs, k);
    var after := GateStep(g, o, defs);
    forall c | c in after.calls && after.calls[c].Storing? && after.calls[c].id == k
      ensures c in g.calls && g.calls[c].Storing? && g.calls[c].id == k && after.calls[c].next == g.calls[c].next
      ensures forall i :: 0 <= i < |after.calls[c].rest| ==> after.calls[c].rest[i] in g.calls[c].rest
    {
      StepNarrows(g, o, defs, k, c);
    }
  }

  lemma {:induction false} SettledStays(g: Gate, more: seq<GateOp>, defs: Definitions, k: nat)
    requires k < |g.records| && StaysOut(g, more, defs, k)
    ensures var now := GateRun(g, more, defs);
            && k < |now.records| && now.records[k].versionId == g.records[k].versionId
            && (!PendingAnswer(g, defs, k) ==> now.records[k].rows == g.records[k].rows && !PendingAnswer(now, defs, k))
            && (!PendingLabel(g, k) ==> now.records[k].area == g.records[k].area && !PendingLabel(now, k))
  {
    hide GateStep, PendingAnswer, PendingLabel;
    if more != [] {
      var before, o := GateRun(g, more[..|more| - 1], defs), more[|more| - 1];
      SettledStays(g, more[..|more| - 1], defs, k);
      OutBefore(g, more, defs, k);
      SettledStep(before, o, defs, k);
      StepChangesExactly(before, o, defs, k);
    }
  }

  lemma OutBefore(g: Gate, more: seq<GateOp>, defs: Definitions, k: nat)
    requires StaysOut(g, more, defs, k) && more != []
    ensures StaysOut(g, more[..|more| - 1], defs, k)
    ensures var before := GateRun(g, more[..|more| - 1], defs);
            k < |before.records| && !IsEditable(before.records[k].status)
  {
    hide GateRun;
  }

  // -------------------------------------------------------- something pending

  lemma {:induction false} StoresStayOut(g: Gate, call: nat, defs: Definitions, k: nat, n: nat)
    requires k < |g.records| && !IsEditable(g.records[k].status)
    requires IsStoring(g, call) && n <= |g.calls[call].rest|
    ensures StaysOut(g, Stores(call, n), defs, k)
  {
    hide PersistTo, FlattenItems, GateRun;
    StoresRun(g, call, defs, n);
    if n > 0 {
      StoresStayOut(g, call, defs, k, n - 1);
      assert Stores(call, n)[..|Stores(call, n)| - 1] == Stores(call, n - 1);
    }
  }

  /** If some entry differs from what is stored, storing some prefix shows it. */
  lemma SomePrefixDiffers(rows: seq<ResultRow>, items: seq<Item>, rest: seq<Entry>, i: nat) returns (n: nat)
    requires i < |rest| && PersistEntry(rows, items, rest[i]) != rows
    ensures n <= |rest| && PersistTo(rows, items, rest, n) != rows
  {
    hide PersistEntry;
    n := if PersistTo(rows, items, rest, i) != rows then i else i + 1;
  }

  ghost predicate AnswersMayChange(g: Gate, defs: Definitions, k: nat)
    requires k < |g.records|
  {
    exists more :: StaysOut(g, more, defs, k) && GateRun(g, more, defs).records[k].rows != g.records[k].rows
  }

  ghost predicate LabelMayChange(g: Gate, defs: Definitions, k: nat)
    requires k < |g.records|
  {
    exists more :: StaysOut(g, more, defs, k) && GateRun(g, more, defs).records[k].area != g.records[k].area
  }

  /** A submitted record's answers change in some run that does not reopen it
      if and only if a save or submit begun earlier still holds an answer for it
      that differs from what is stored. */
  lemma AnswersChangeExactly(g: Gate, defs: Definitions, k: nat)
    requires k < |g.records| && !IsEditable(g.records[k].status)
    ensures AnswersMayChange(g, defs, k) <==> PendingAnswer(g, defs, k)
  {
    hide GateRun, PersistEntry, PersistTo, FlattenItems;
    if PendingAnswer(g, defs, k) {
      var c :| c in g.calls && g.calls[c].Storing? && g.calls[c].id == k
               && HoldsAnswer(g.records[k], ItemsOf(g.records[k], defs), g.calls[c]);
      var rest, items := g.calls[c].rest, ItemsOf(g.records[k], defs);
      var i :| 0 <= i < |rest| && PersistEntry(g.records[k].rows, items, rest[i]) != g.records[k].rows;
      var n := SomePrefixDiffers(g.records[k].rows, items, rest, i);
      StoresRun(g, c, defs, n);
      StoresStayOut(g, c, defs, k, n);
    } else {
      forall more | StaysOut(g, more, defs, k) ensures GateRun(g, more, defs).records[k].rows == g.records[k].rows {
        SettledStays(g, more, defs, k);
      }
    }
  }

  /** ... and its label if and only if such a save brings another one. */
  lemma LabelChangesExactly(g: Gate, defs: Definitions, k: nat)
    requires k < |g.records| && !IsEditable(g.records[k].status)
    ensures LabelMayChange(g, defs, k) <==> PendingLabel(g, k)
  {
    hide GateRun, PersistTo, FlattenItems;
    if PendingLabel(g, k) {
      var c :| c in g.calls && g.calls[c].Storing? && g.calls[c].id == k && HoldsLabel(g.records[k], g.calls[c]);
      var n := |g.calls[c].rest|;
      StoresRun(g, c, defs, n);
      StoresStayOut(g, c, defs, k, n);
      var stored, all := StoredBy(g, c, defs, n), Stores(c, n) + [FinishSave(c)];
      GateRunSnoc(g, Stores(c, n), FinishSave(c), defs);
      assert all[..|all| - 1] == Stores(c, n);
      assert stored.calls[c].rest == [] && stored.records[k].area == g.records[k].area;
      assert GateRun(g, all, defs) == FinishStep(stored, c);
      assert StaysOut(g, all, defs, k);
    } else {
      forall more | StaysOut(g, more, defs, k) ensures GateRun(g, more, defs).records[k].area == g.records[k].area {
        SettledStays(g, more, defs, k);
      }
    }
  }

  // ------------------------------------------------- what holds after a claim

  /** What a call relies on: answers it had read, valid for the record's items;
      a decision for a truck, and never PENDING. */
  predicate PhaseSound(g: Gate, defs: Definitions, p: Phase) {
    && (p.Validated? ==>
          && p.id < |g.records| && p.rs == ResponsesOf(p.rows)
          && ValidationOf(ItemsOf(g.records[p.id], defs), p.rs).isValid)
    && (p.Deciding? ==> p.id < |g.records| && g.records[p.id].truck.Some? && !p.decision.PENDING?)
  }

  ghost predicate AllPhasesSound(g: Gate, defs: Definitions) {
    forall c :: c in g.calls ==> PhaseSound(g, defs, g.calls[c])
  }

  lemma VersionsStay(g: Gate, o: GateOp, defs: Definitions)
    ensures var after := GateStep(g, o, defs);
            && |g.records| <= |after.records|
            && forall k :: 0 <= k < |g.records| ==>
                 && after.records[k].versionId == g.records[k].versionId
                 && (after.records[k].truck.Some? <==> g.records[k].truck.Some?)
  {
    hide PersistEntry, ValidationOf, FlattenItems, ResponsesOf, Step, RaiseTo, RecommendedDecision, BringsLabel;
    if o.Other? { OtherEffect(g.records, o.user, o.op, defs); }
  }

  lemma StepKeepsPhases(g: Gate, o: GateOp, defs: Definitions)
    requires AllPhasesSound(g, defs)
    ensures AllPhasesSound(GateStep(g, o, defs), defs)
  {
    VersionsStay(g, o, defs);
    hide PersistEntry, ValidationOf, FlattenItems, ResponsesOf, Step, RaiseTo, RecommendedDecision, BringsLabel;
    var after := GateStep(g, o, defs);
    forall c | c in after.calls ensures PhaseSound(after, defs, after.calls[c]) {
      if c in g.calls { assert PhaseSound(g, defs, g.calls[c]); }
    }
  }

  lemma {:induction false} EveryRunKeepsPhases(ops: seq<GateOp>, defs: Definitions)
    ensures AllPhasesSound(GateRun(IDLE, ops, defs), defs)
  {
    hide GateStep, PhaseSound;
    if ops != [] {
      EveryRunKeepsPhases(ops[..|ops| - 1], defs);
      StepKeepsPhases(GateRun(IDLE, ops[..|ops| - 1], defs), ops[|ops| - 1], defs);
    }
  }

  /** A decision begun earlier that would approve the record. */
  predicate Approves(p: Phase, k: nat) {
    p.Deciding? && p.id == k && IsApprovedOutcome(p.decision)
  }

  ghost predicate PendingApproval(g: Gate, k: nat) {
    exists c :: c in g.calls && Approves(g.calls[c], k)
  }

  predicate IsCritical(r: Record, items: seq<Item>) {
    |DetectCriticalFailures(items, ResponsesOf(r.rows))| > 0
  }

  /** The truck guarantee, with no approval on its way against a critical failure. */
  ghost predicate Guarded(g: Gate, k: nat, items: seq<Item>) {
    && k < |g.records| && SoundTruck(g.records[k], items)
    && (IsCritical(g.records[k], items) ==> !PendingApproval(g, k))
  }

  /** On a blocked recommendation no approving decision begins. */
  lemma BlockedAdmitsNoApproval(records: seq<Record>, user: User, k: nat, decision: LoadingDecision, items: seq<Item>)
    requires k < |records| && SoundTruck(records[k], items) && IsCritical(records[k], items) && IsApprovedOutcome(decision)
    ensures !Admitted(records, user, k, Decision(decision))
  {
    CriticalMeansBlocked(items, ResponsesOf(records[k].rows));
    hide DetectCriticalFailures, ResponsesOf, RecommendedDecision;
  }

  /** The step writes a loading decision about record k. */
  predicate WritesDecision(g: Gate, o: GateOp, k: nat) {
    o.WriteDecision? && o.call in g.calls && g.calls[o.call].Deciding? && g.calls[o.call].id == k
  }

  /** What a step does to the truck of a record that is not editable. */
  lemma StepTruck(g: Gate, o: GateOp, defs: Definitions, k: nat)
    requires k < |g.records| && !IsEditable(g.records[k].status)
    ensures var after := GateStep(g, o, defs);
            && k < |after.records|
            && after.records[k].truck ==
                 if WritesDecision(g, o, k) && g.records[k].truck.Some?
                 then Some(g.records[k].truck.value.(loadingDecision := g.calls[o.call].decision,
                                                     decidedBy := Some(g.calls[o.call].user.id)))
                 else g.records[k].truck
  {
    hide PersistEntry, ValidationOf, FlattenItems, ResponsesOf, Step, RaiseTo, RecommendedDecision, BringsLabel, Admitted;
    if o.Other? { OtherEffect(g.records, o.user, o.op, defs); }
  }

  /** The only new decisions are those that begin. */
  lemma StepDeciding(g: Gate, o: GateOp, defs: Definitions, c: nat)
    requires c in GateStep(g, o, defs).calls && GateStep(g, o, defs).calls[c].Deciding?
    ensures (c in g.calls && g.calls[c] == GateStep(g, o, defs).calls[c])
         || (o.Begin? && o.request == Decision(GateStep(g, o, defs).calls[c].decision) && o.id == GateStep(g, o, defs).calls[c].id
             && Admitted(g.records, o.user, o.id, o.request))
  {
    hide PersistEntry, ValidationOf, FlattenItems, ResponsesOf, Step, RaiseTo, RecommendedDecision, BringsLabel, Admitted;
  }

  lemma StepKeepsGuarded(g: Gate, o: GateOp, defs: Definitions, k: nat, items: seq<Item>)
    requires AllPhasesSound(g, defs) && Guarded(g, k, items) && !IsEditable(g.records[k].status)
    requires k < |GateStep(g, o, defs).records| && GateStep(g, o, defs).records[k].rows == g.records[k].rows
    ensures Guarded(GateStep(g, o, defs), k, items)
  {
    var after := GateStep(g, o, defs);
    StepTruck(g, o, defs, k);
    if o.WriteDecision? && o.call in g.calls { assert PhaseSound(g, defs, g.calls[o.call]); }
    if IsCritical(g.records[k], items) {
      forall c | c in after.calls ensures !Approves(after.calls[c], k) {
        if after.calls[c].Deciding? && after.calls[c].id == k && IsApprovedOutcome(after.calls[c].decision) {
          StepDeciding(g, o, defs, c);
          if c in g.calls { assert !Approves(g.calls[c], k); }
          BlockedAdmitsNoApproval(g.records, o.user, k, after.calls[c].decision, items);
        }
      }
      if o.WriteDecision? && o.call in g.calls { assert !Approves(g.calls[o.call], k); }
    }
    hide GateStep, DetectCriticalFailures, ResponsesOf, RecommendedDecision, FlattenItems, ValidationOf;
  }

  lemma {:induction false} GuardedStays(g: Gate, more: seq<GateOp>, defs: Definitions, k: nat, items: seq<Item>)
    requires k < |g.records| && StaysOut(g, more, defs, k) && !PendingAnswer(g, defs, k)
    requires AllPhasesSound(g, defs) && Guarded(g, k, items)
    ensures AllPhasesSound(GateRun(g, more, defs), defs) && Guarded(GateRun(g, more, defs), k, items)
  {
    hide GateStep, PendingAnswer, Guarded, PhaseSound;
    if more != [] {
      var before, o := GateRun(g, more[..|more| - 1], defs), more[|more| - 1];
      OutBefore(g, more, defs, k);
      GuardedStays(g, more[..|more| - 1], defs, k, items);
      SettledStays(g, more[..|more| - 1], defs, k);
      SettledStep(before, o, defs, k);
      StepKeepsPhases(before, o, defs);
      StepKeepsGuarded(before, o, defs, k, items);
    }
  }

  /** Calls that are about to claim a record they may claim. */
  predicate Claims(g: Gate, call: nat, k: nat) {
    call in g.calls && g.calls[call].Validated? && g.calls[call].id == k < |g.records| && IsEditable(g.records[k].status)
  }

  /** From the claim until the record is reopened the stored answers are those
      the claiming call validated. */
  ghost predicate ClaimedAnswersHold(g: Gate, call: nat, defs: Definitions, k: nat)
    requires Claims(g, call, k)
  {
    var after := GateStep(g, ClaimRecord(call), defs);
    forall more :: StaysOut(after, more, defs, k) ==>
      k < |GateRun(after, more, defs).records| && GateRun(after, more, defs).records[k].rows == g.calls[call].rows
  }

  /** ... valid, and the truck guarantee stands: the recommendation is theirs and
      a critical failure leaves the decision blocked or rejected. */
  ghost predicate ClaimedRecordHolds(g: Gate, call: nat, defs: Definitions, k: nat)
    requires Claims(g, call, k)
  {
    var after := GateStep(g, ClaimRecord(call), defs);
    forall more :: StaysOut(after, more, defs, k) ==>
      && k < |GateRun(after, more, defs).records|
      && var r := GateRun(after, more, defs).records[k];
         && r.rows == g.calls[call].rows
         && ValidationOf(ItemsOf(r, defs), ResponsesOf(r.rows)).isValid && SoundTruck(r, ItemsOf(r, defs))
  }

  lemma ClaimEffect(g: Gate, call: nat, defs: Definitions, k: nat)
    requires Claims(g, call, k)
    ensures var after := GateStep(g, ClaimRecord(call), defs);
            && |after.records| == |g.records| && after.records[k].status.PENDING_CHECK?
            && after.records[k].rows == g.records[k].rows && after.records[k].versionId == g.records[k].versionId
            && (after.records[k].truck.Some? <==> g.records[k].truck.Some?)
            && (PendingAnswer(after, defs, k) <==> PendingAnswer(g, defs, k))
            && (PendingApproval(after, k) <==> PendingApproval(g, k))
            && (PhaseSound(g, defs, g.calls[call]) && g.records[k].rows == g.calls[call].rows ==>
                  SoundTruck(after.records[k], ItemsOf(g.records[k], defs)))
  {
    hide PersistEntry, ValidationOf, FlattenItems, RaiseTo, RecommendedDecision, ResponsesOf, DetectCriticalFailures;
    var p := g.calls[call];
    CriticalMeansBlocked(ItemsOf(g.records[k], defs), p.rs);
    var after := GateStep(g, ClaimRecord(call), defs);
    assert forall c :: c in g.calls && !g.calls[c].Validated? ==> c in after.calls && after.calls[c] == g.calls[c];
    assert forall c :: c in after.calls && c != call ==> c in g.calls && after.calls[c] == g.calls[c];
    assert after.calls[call] == Finished(true);
    hide GateStep;
  }

  /** What the claim finds: the validated answers stored, no differing one
      pending, and no approving decision pending against a critical failure. */
  ghost predicate SettledAtClaim(g: Gate, call: nat, defs: Definitions, k: nat)
    requires Claims(g, call, k)
  {
    && g.records[k].rows == g.calls[call].rows && !PendingAnswer(g, defs, k)
    && (IsCritical(g.records[k], ItemsOf(g.records[k], defs)) ==> !PendingApproval(g, k))
  }

  lemma ApprovalBreaks(g: Gate, defs: Definitions, k: nat, items: seq<Item>)
    requires k < |g.records| && !IsEditable(g.records[k].status) && AllPhasesSound(g, defs)
    requires IsCritical(g.records[k], items) && PendingApproval(g, k)
    ensures exists more :: StaysOut(g, more, defs, k) && !SoundTruck(GateRun(g, more, defs).records[k], items)
  {
    var c :| c in g.calls && Approves(g.calls[c], k);
    assert PhaseSound(g, defs, g.calls[c]);
    var after := GateStep(g, WriteDecision(c), defs);
    assert !SoundTruck(after.records[k], items) && !IsEditable(after.records[k].status);
    hide GateStep, DetectCriticalFailures, ResponsesOf, SoundTruck;
    GateRunSnoc(g, [], WriteDecision(c), defs);
    assert GateRun(g, [], defs) == g && [] + [WriteDecision(c)] == [WriteDecision(c)];
    assert [WriteDecision(c)][..0] == [];
    assert StaysOut(g, [], defs, k);
    assert StaysOut(g, [WriteDecision(c)], defs, k);
  }

  /** From a claim until the record is reopened the stored answers are the ones
      the claiming call validated, in every continuation, if and only if they
      are at the claim and no save or submit holds a differing one. */
  lemma ClaimedAnswersHoldExactly(g: Gate, call: nat, defs: Definitions, k: nat)
    requires Claims(g, call, k)
    ensures ClaimedAnswersHold(g, call, defs, k) <==>
      g.records[k].rows == g.calls[call].rows && !PendingAnswer(g, defs, k)
  {
    ClaimEffect(g, call, defs, k);
    var after := GateStep(g, ClaimRecord(call), defs);
    assert StaysOut(after, [], defs, k) && GateRun(after, [], defs) == after;
    hide GateRun, GateStep, PendingAnswer, FlattenItems;
    AnswersChangeExactly(after, defs, k);
    if g.records[k].rows == g.calls[call].rows && !PendingAnswer(g, defs, k) {
      forall more | StaysOut(after, more, defs, k)
        ensures k < |GateRun(after, more, defs).records| && GateRun(after, more, defs).records[k].rows == g.calls[call].rows
      {
        SettledStays(after, more, defs, k);
      }
    }
  }

  lemma SettledMeansHolds(ops: seq<GateOp>, call: nat, defs: Definitions, k: nat)
    requires Claims(GateRun(IDLE, ops, defs), call, k) && SettledAtClaim(GateRun(IDLE, ops, defs), call, defs, k)
    ensures ClaimedRecordHolds(GateRun(IDLE, ops, defs), call, defs, k)
  {
    var g := GateRun(IDLE, ops, defs);
    EveryRunKeepsPhases(ops, defs);
    assert PhaseSound(g, defs, g.calls[call]);
    ClaimEffect(g, call, defs, k);
    StepKeepsPhases(g, ClaimRecord(call), defs);
    var after, items := GateStep(g, ClaimRecord(call), defs), ItemsOf(g.records[k], defs);
    hide GateRun, GateStep, PendingAnswer, PendingApproval;
    hide FlattenItems, ValidationOf, ResponsesOf, SoundTruck, DetectCriticalFailures;
    assert Guarded(after, k, items);
    forall more | StaysOut(after, more, defs, k)
      ensures k < |GateRun(after, more, defs).records|
      ensures var r := GateRun(after, more, defs).records[k];
              && r.rows == g.calls[call].rows
              && ValidationOf(ItemsOf(r, defs), ResponsesOf(r.rows)).isValid && SoundTruck(r, ItemsOf(r, defs))
    {
      SettledStays(after, more, defs, k);
      GuardedStays(after, more, defs, k, items);
    }
  }

  /** From a claim until the record is reopened the validated answers stay stored
      and valid and the truck guarantee stands, however saves, submits and
      loading decisions go on, if and only if the claim finds those answers
      stored, no differing one pending, and no approving decision pending when
      they have a critical failure. */
  lemma ClaimedRecordHoldsExactly(ops: seq<GateOp>, call: nat, defs: Definitions, k: nat)
    requires Claims(GateRun(IDLE, ops, defs), call, k)
    ensures var g := GateRun(IDLE, ops, defs);
            ClaimedRecordHolds(g, call, defs, k) <==> SettledAtClaim(g, call, defs, k)
  {
    var g := GateRun(IDLE, ops, defs);
    if SettledAtClaim(g, call, defs, k) {
      SettledMeansHolds(ops, call, defs, k);
    } else {
      EveryRunKeepsPhases(ops, defs);
      ClaimEffect(g, call, defs, k);
      StepKeepsPhases(g, ClaimRecord(call), defs);
      var after, items := GateStep(g, ClaimRecord(call), defs), ItemsOf(g.records[k], defs);
      hide GateRun, GateStep, PendingAnswer, PendingApproval;
    hide FlattenItems, ValidationOf, ResponsesOf, SoundTruck, DetectCriticalFailures;
      if g.records[k].rows == g.calls[call].rows && !PendingAnswer(g, defs, k) {
        ApprovalBreaks(after, defs, k, items);
        var more :| StaysOut(after, more, defs, k) && !SoundTruck(GateRun(after, more, defs).records[k], items);
        SettledStays(after, more, defs, k);
      } else {
        ClaimedAnswersHoldExactly(g, call, defs, k);
      }
    }
  }
}
