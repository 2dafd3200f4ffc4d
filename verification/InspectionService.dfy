/** The inspection-record service over its table, method by method
    (inspection-records.service.ts). */
module InspectionService {
  import opened JsText
  import opened Wrappers
  import opened ChecklistEngine
  import opened RecordRules
  import opened InspectionRecords

  class InspectionRecordsService {
    /** The record table, in creation order; a record's id is its position. */
    var records: seq<Record>

    constructor ()
      ensures records == []
    {
      records := [];
    }

    /** Upserts every response that belongs to an item of the checklist. */
    method PersistResponses(id: nat, items: seq<Item>, entries: seq<Entry>)
      requires id < |records|
      modifies this
      ensures records == old(records)[id := Persist(old(records)[id], items, entries)]
    {
      hide PersistOne, FindItem;
      ghost var before := records;
      for n := 0 to |entries|
        invariant records == before[id := before[id].(rows := PersistTo(before[id].rows, items, entries, n))]
      {
        var item := FindItem(items, entries[n].itemId);
        if item.None? {
          continue;
        }
        records := records[id := records[id].(rows := PersistOne(records[id].rows, item.value, entries[n].response))];
      }
    }

    /** One corrective action per failing item that calls for one and has none
        yet; says how many were raised. */
    method CreateCorrectiveActions(id: nat, items: seq<Item>, rs: ResponseMap, rows: seq<ResultRow>, user: nat)
      returns (created: nat)
      requires id < |records|
      modifies this
      ensures var raised := RaiseTo(old(records)[id].actions, items, rs, rows, user, |items|);
              records == old(records)[id := old(records)[id].(actions := raised)]
              && created == |raised| - |old(records)[id].actions|
    {
      hide RowIndex, IsFailure;
      ghost var before := records;
      created := 0;
      for n := 0 to |items|
        invariant records == before[id := before[id].(actions := RaiseTo(before[id].actions, items, rs, rows, user, n))]
        invariant created == |RaiseTo(before[id].actions, items, rs, rows, user, n)| - |before[id].actions|
      {
        var item := items[n];
        if !item.rules.correctiveActionRequiredOnFail {
          continue;
        }
        if !IsFailure(item, Lookup(rs, item.id)) {
          continue;
        }
        if RowIndex(rows, item.id) == |rows| {
          continue;
        }
        if HasAction(records[id].actions, item.id) {
          continue;
        }
        var action := Action(item.id, item.rules.isCriticalFailure, user);
        records := records[id := records[id].(actions := records[id].actions + [action])];
        created := created + 1;
      }
    }

    /** Starts a draft, or resumes the requester's own. */
    method CreateDraft(user: User, key: Key, area: Str, version: Option<nat>, reinspectionOf: Option<nat>) returns (outcome: Outcome)
      modifies this
      ensures forall defs: Definitions ::
        (records, outcome) == Step(old(records), user, Op.CreateDraft(key, area, version, reinspectionOf), defs)
    {
      var resolution := ResolveKey(records, key, user.id);
      if resolution.Conflict? {
        return Refused(DuplicateRecord);
      }
      if resolution.Resume? {
        return Done(resolution.recordId);
      }
      if version.None? {
        return Refused(NoPublishedTemplate);
      }
      if key.TruckKey? && reinspectionOf.Some? && reinspectionOf.value >= |records| {
        return Refused(NotFound);
      }
      records := records + [NewRecord(user.id, key, area, version.value, reinspectionOf)];
      return Done(|records| - 1);
    }

    method SaveDraft(user: User, id: nat, entries: seq<Entry>, newArea: Option<Str>, defs: Definitions) returns (outcome: Outcome)
      modifies this
      ensures (records, outcome) == Step(old(records), user, Op.SaveDraft(id, entries, newArea), defs)
    {
      hide PersistTo, FlattenItems;
      var e := OwnerGuard(records, user, id);
      if e.Some? {
        return Refused(e.value);
      }
      PersistResponses(id, ItemsOf(records[id], defs), entries);
      if newArea.Some? && newArea.value != [] && newArea.value != records[id].area {
        records := records[id := records[id].(area := newArea.value)];
      }
      ghost var after := Step(old(records), user, Op.SaveDraft(id, entries, newArea), defs).0;
      assert records[id] == after[id] && records == after;
      return Done(id);
    }

    /** Stores the answers, validates everything stored, and only then claims
        the record; says how many corrective actions were raised and what the
        counts are. */
    method Submit(user: User, id: nat, answers: Option<seq<Entry>>, defs: Definitions)
      returns (outcome: Outcome, created: nat, counts: Option<RecordCounts>)
      modifies this
      ensures (records, outcome) == Step(old(records), user, Op.Submit(id, answers), defs)
      ensures outcome.Done? ==>
        && id < |old(records)| && id < |records|
        && created == |records[id].actions| - |old(records)[id].actions|
        && counts == Some(CountsOf(ItemsOf(records[id], defs), ResponsesOf(records[id].rows)))
    {
      hide PersistTo, FlattenItems, ResponsesOf, RaiseTo, RecommendedDecision, Errors, DetectCriticalFailures;
      created, counts := 0, None;
      var e := OwnerGuard(records, user, id);
      if e.Some? {
        return Refused(e.value), 0, None;
      }
      var items := ItemsOf(records[id], defs);
      if answers.Some? {
        PersistResponses(id, items, answers.value);
      }
      assert records == old(records)[id := WithAnswers(old(records)[id], items, answers)];
      var rows := records[id].rows;
      var rs := ToResponseMap(rows);
      var validation := ValidateChecklistResponses(defs(records[id].versionId), rs);
      if !validation.isValid {
        return Refused(ValidationFailed(validation.errors)), 0, None;
      }
      records := records[id := records[id].(status := PENDING_CHECK)];
      created := CreateCorrectiveActions(id, items, rs, rows, user.id);
      if records[id].truck.Some? {
        var decision := RecommendedDecision(items, rs);
        records := records[id := records[id].(truck := Some(records[id].truck.value.(
                                                recommendedDecision := Some(decision), loadingDecision := decision)))];
      }
      ghost var after := Step(old(records), user, Op.Submit(id, answers), defs).0;
      assert records[id] == after[id] && records == after;
      var tally := ComputeRecordCounts(items, rs);
      return Done(id), created, Some(tally);
    }

    /** Check, verify, return, reject and void. */
    method ApplyWorkflow(user: User, id: nat, action: ReviewAction, comment: Option<Str>) returns (outcome: Outcome)
      modifies this
      ensures forall defs: Definitions :: (records, outcome) == Step(old(records), user, Op.Review(id, action, comment), defs)
    {
      hide ApprovedCount;
      if PermissionFor(action) !in user.permissions {
        return Refused(PermissionForbidden);
      }
      if CommentRequired(action) && (comment.None? || IsBlank(comment.value)) {
        return Refused(MissingComment);
      }
      if id >= |records| || !CanView(records[id], user) {
        return Refused(NotFound);
      }
      var r := records[id];
      if IsImmutableVerified(r.status) && !action.VOID? {
        return Refused(Locked);
      }
      var to := ResolveTransition(r.status, action);
      if to.None? {
        return Refused(InvalidTransition);
      }
      match action {
        case CHECK =>
          if !MayCheck(DEFAULT_POLICY, user.id, r.createdBy) { return Refused(SegregationOfDuty); }
          if ApprovedCount(r.approvals, CheckApproval) > 0 { return Refused(DuplicateApproval); }
          r := r.(status := to.value, checkedBy := Some(user.id));
          r := r.(approvals := r.approvals + [Approval(CheckApproval, true, user.id)]);
        case VERIFY =>
          if !MayVerify(DEFAULT_POLICY, user.id, r.createdBy, r.checkedBy) { return Refused(SegregationOfDuty); }
          if ApprovedCount(r.approvals, VerifyApproval) > 0 { return Refused(DuplicateApproval); }
          r := r.(status := to.value, verifiedBy := Some(user.id));
          r := r.(approvals := r.approvals + [Approval(VerifyApproval, true, user.id)]);
        case RETURN =>
          r := r.(status := to.value, approvals := r.approvals + [Approval(ReturnApproval, false, user.id)]);
        case REJECT =>
          r := r.(status := to.value, approvals := r.approvals + [Approval(RejectApproval, false, user.id)]);
        case VOID =>
          r := r.(status := to.value, approvals := r.approvals + [Approval(VoidApproval, false, user.id)]);
      }
      records := records[id := r];
      return Done(id);
    }

    method ApproveLoadingDecision(user: User, id: nat, decision: LoadingDecision) returns (outcome: Outcome)
      modifies this
      ensures forall defs: Definitions :: (records, outcome) == Step(old(records), user, Op.DecideLoading(id, decision), defs)
    {
      if !MayDecideLoading(user) {
        return Refused(LoadingForbidden);
      }
      if decision.PENDING? {
        return Refused(InvalidPayload);
      }
      if id >= |records| {
        return Refused(NotFound);
      }
      var r := records[id];
      if r.truck.None? {
        return Refused(NotATruck);
      }
      var approved := IsApprovedOutcome(decision);
      if approved && !OverrideToApprovedAllowed(r.truck.value.recommendedDecision) {
        return Refused(CriticalOverride);
      }
      r := r.(truck := Some(r.truck.value.(loadingDecision := decision, decidedBy := Some(user.id))));
      r := r.(approvals := r.approvals + [Approval(LoadingApproval, approved, user.id)]);
      records := records[id := r];
      return Done(id);
    }
  }
}
