/** How interleaved saves, submits and loading decisions move from one step to
    the next, and what each step writes (inspection-records.service.ts,
    saveDraft, submit and approveLoadingDecision). */
module GateCalls {
  import opened JsText
  import opened Wrappers
  import opened ChecklistEngine
  import opened ChecklistMeaning
  import opened RecordRules
  import opened InspectionRecords
  import opened InspectionProofs
  import opened Submittability
  import opened StoredAnswers
  import opened RecordCalls
  import opened SubmitGate

  // ------------------------------------------------------------------ phases

  /** What a request stands at once it has begun. */
  ghost predicate Starts(p: Phase, user: User, id: nat, request: Request, area: Str) {
    && !p.Finished? && p.user == user && p.id == id
    && match request
       case Save(entries, newArea) => p.Storing? && p.rest == entries && p.next == ThenLabel(newArea, area)
       case Submission(answers) => p.Storing? && p.rest == (if answers.Some? then answers.value else []) && p.next == ThenValidate
       case Decision(decision) => p.Deciding? && p.decision == decision
  }

  /** The one step a call can take where it stands, and where it then is. */
  ghost predicate Moves(records: seq<Record>, o: GateOp, p: Phase, next: Phase, defs: Definitions)
    requires !p.Finished? ==> p.id < |records|
  {
    match p
    case Storing(user, id, rest, goal) =>
      if rest != [] then o.StoreAnswer? && next == Storing(user, id, rest[1..], goal)
      else if goal.ThenLabel? then o.FinishSave? && next == Finished(false)
      else
        && o.Validate?
        && var r := records[id];
           next == if ValidationOf(ItemsOf(r, defs), ResponsesOf(r.rows)).errors == []
                   then Validated(user, id, ResponsesOf(r.rows), r.rows) else Finished(false)
    case Validated(_, id, _, _) => o.ClaimRecord? && next == Finished(records[id].status in WITH_OPERATOR)
    case Deciding(_, id, _) => o.WriteDecision? && records[id].truck.Some? && next == Finished(false)
    case Finished(_) => false
  }

  predicate IsOwn(o: GateOp, call: nat) {
    (o.StoreAnswer? || o.FinishSave? || o.Validate? || o.ClaimRecord? || o.WriteDecision?) && o.call == call
  }

  /** A step of a call is the one its phase asks for and moves it on, or it does
      nothing at all; no other call moves. */
  lemma MovesExactly(g: Gate, o: GateOp, call: nat, defs: Definitions)
    requires IsOwn(o, call) && call in g.calls && (!g.calls[call].Finished? ==> g.calls[call].id < |g.records|)
    ensures var after := GateStep(g, o, defs);
            && (after == g || Moves(g.records, o, g.calls[call], after.calls[call], defs))
            && (after == g ==> forall next :: !Moves(g.records, o, g.calls[call], next, defs))
            && after.calls.Keys == g.calls.Keys && forall c :: c in g.calls && c != call ==> after.calls[c] == g.calls[c]
  {
    hide PersistEntry, FlattenItems, ResponsesOf, Errors, Claimed, Decided, BringsLabel;
    var p, after := g.calls[call], GateStep(g, o, defs);
    if p.Storing? && p.rest != [] { assert |p.rest[1..]| < |p.rest|; }
    if after.calls[call] == p { assert after == g || p.Storing?; }
  }

  /** Why a loading decision may be begun. */
  predicate MayDecide(records: seq<Record>, user: User, id: nat, decision: LoadingDecision) {
    && !(user.roles !! LOADING_ROLES) && decision != PENDING && id < |records| && records[id].truck.Some?
    && (decision in APPROVALS ==> records[id].truck.value.recommendedDecision != Some(LOADING_BLOCKED))
  }

  /** A new request begins exactly where the whole call would be let in; until
      then nothing is written. */
  lemma BeginExactly(g: Gate, call: nat, user: User, id: nat, request: Request, defs: Definitions)
    ensures var after := GateStep(g, Begin(call, user, id, request), defs);
            var admitted := if request.Decision? then MayDecide(g.records, user, id, request.decision) else MayEdit(g.records, user, id);
            if call in g.calls || !admitted then after == g
            else
              && after.records == g.records && after.log == g.log && after.calls.Keys == g.calls.Keys + {call}
              && Starts(after.calls[call], user, id, request, g.records[id].area)
              && forall c :: c in g.calls ==> after.calls[c] == g.calls[c]
  {
    if request.Decision? {
      LoadingExactly(g.records, user, id, request.decision, defs);
      hide LOADING_ROLES, APPROVALS, MayDecideLoading, LoadingGuard, Decided;
    } else {
      OwnerExactly(g.records, user, id);
      hide OwnerGuard, MayEdit;
    }
  }

  // ------------------------------------------------------------------ writes

  /** The label after a save that had read this one. */
  function LabelAfter(area: Str, newArea: Option<Str>, seenArea: Str): Str {
    if newArea.Some? && |newArea.value| > 0 && newArea.value != seenArea then newArea.value else area
  }

  /** What the step of a call that stands at p makes of its record. */
  ghost predicate Writes(o: GateOp, p: Phase, r: Record, r': Record, items: seq<Item>) {
    match o
    case StoreAnswer(_) =>
      && p.Storing? && p.rest != [] && r' == r.(rows := r'.rows)
      && ResponsesOf(r'.rows) == Merged(ResponsesOf(r.rows), items, p.rest[..1], 1)
    case FinishSave(_) =>
      p.Storing? && p.next.ThenLabel? && r' == r.(area := LabelAfter(r.area, p.next.newArea, p.next.seenArea))
    case ClaimRecord(_) =>
      && p.Validated?
      && (if r.status in WITH_OPERATOR then IsLateClaim(r, r', items, p.rs, p.rows, p.user.id) else r' == r)
    case WriteDecision(_) =>
      && p.Deciding? && r.truck.Some?
      && r' == r.(truck := Some(r.truck.value.(loadingDecision := p.decision, decidedBy := Some(p.user.id))),
                  approvals := r.approvals + [Approval(LoadingApproval, p.decision in APPROVALS, p.user.id)])
    case _ => r' == r
  }

  /** A claim by answers that were read earlier: advice and actions are theirs,
      the stored rows stay as they are now. */
  ghost predicate IsLateClaim(r: Record, r': Record, items: seq<Item>, answers: ResponseMap, rows: seq<ResultRow>, user: nat) {
    && r' == r.(status := PENDING_CHECK, actions := r'.actions, truck := r'.truck)
    && r'.truck == (if r.truck.Some?
                    then Some(r.truck.value.(recommendedDecision := Some(Advice(items, answers)), loadingDecision := Advice(items, answers)))
                    else None)
    && (answers == ResponsesOf(rows) ==>
          && r.actions <= r'.actions
          && (forall a :: |r.actions| <= a < |r'.actions| ==> RaisedFor(r'.actions[a], r.actions, items, answers, user))
          && (forall i :: 0 <= i < |items| && items[i].rules.correctiveActionRequiredOnFail && FailsIn(items[i], answers)
                ==> HasAction(r'.actions, items[i].id)))
  }

  lemma LateClaimExactly(r: Record, items: seq<Item>, rs: ResponseMap, rows: seq<ResultRow>, user: nat)
    ensures IsLateClaim(r, Claimed(r, items, rs, rows, user), items, rs, rows, user)
  {
    AdviceExactly(items, rs);
    if rs == ResponsesOf(rows) {
      RaisedExactly(r.actions, items, rows, user, |items|);
      forall i | 0 <= i < |items| && items[i].rules.correctiveActionRequiredOnFail && FailsIn(items[i], rs)
        ensures HasAction(RaiseTo(r.actions, items, rs, rows, user, |items|), items[i].id)
      {
        DueExactly(r.actions, items, rows, user, i);
      }
    }
    hide RaiseTo, RaisedFor, Advice, RecommendedDecision, ResponsesOf, FailsIn;
  }

  lemma EntryExactly(rows: seq<ResultRow>, items: seq<Item>, rest: seq<Entry>)
    requires rest != [] && DistinctRows(rows)
    ensures ResponsesOf(PersistEntry(rows, items, rest[0])) == Merged(ResponsesOf(rows), items, rest[..1], 1)
  {
    StoredReadsBack(rows, items, rest[..1], 1);
    hide PersistEntry;
    assert PersistTo(rows, items, rest[..1], 0) == rows;
    assert PersistTo(rows, items, rest[..1], 1) == PersistEntry(rows, items, rest[0]);
  }

  /** A step that moves a call writes this to its record, and nothing else to
      any; only a claim is logged. */
  lemma WritesExactly(g: Gate, o: GateOp, call: nat, defs: Definitions)
    requires IsOwn(o, call) && call in g.calls && !g.calls[call].Finished? && g.calls[call].id < |g.records|
    requires DistinctRows(g.records[g.calls[call].id].rows) && GateStep(g, o, defs) != g
    ensures var p, after := g.calls[call], GateStep(g, o, defs);
            var r := g.records[p.id];
            && OnlyRecord(g.records, after.records, p.id)
            && Writes(o, p, r, after.records[p.id], ItemsOf(r, defs))
            && after.log == g.log + if o.ClaimRecord? && r.status in WITH_OPERATOR then [Claim(call, p.id)] else []
  {
    var p := g.calls[call];
    var r := g.records[p.id];
    var items := ItemsOf(r, defs);
    if p.Storing? && p.rest != [] { EntryExactly(r.rows, items, p.rest); }
    if p.Validated? { LateClaimExactly(r, items, p.rs, p.rows, p.user.id); }
    hide PersistEntry, FlattenItems, ResponsesOf, Errors, Claimed, Merged, IsLateClaim;
  }

  /** Calls of one step are the calls themselves; a review that hands a submitted
      record back is logged. */
  lemma OtherExactly(g: Gate, user: User, op: OtherOp, defs: Definitions)
    ensures var after := GateStep(g, Other(user, op), defs);
            && after.records == Step(g.records, user, op, defs).0 && after.calls == g.calls
            && after.log == g.log + if op.Review? && op.id < |g.records| && g.records[op.id].status !in WITH_OPERATOR
                                       && after.records[op.id].status in WITH_OPERATOR then [Reopen(op.id)] else []
  {
    OtherEffect(g.records, user, op, defs);
    hide Step;
  }
}
