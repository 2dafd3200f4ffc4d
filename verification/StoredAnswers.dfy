/** Answers as they are stored and read back: what a save or submit makes of
    the response map, and what the rows of a submitted record must hold. */
module StoredAnswers {
  import opened JsText
  import opened Wrappers
  import opened ChecklistEngine
  import opened ChecklistMeaning
  import opened RecordRules
  import opened InspectionRecords
  import opened InspectionProofs
  import opened InspectionTheorems
  import opened Submittability

  // ------------------------------------------------------------- round trip

  ghost predicate IsOfChecklist(items: seq<Item>, id: nat) {
    exists i :: 0 <= i < |items| && items[i].id == id
  }

  /** Photos an answer leaves stored: those it brings, else those there were. */
  function PhotosAfter(answers: ResponseMap, id: nat, response: Response): seq<Str> {
    if response.evidence.Some? then response.evidence.value
    else if id in answers && answers[id].evidence.Some? then answers[id].evidence.value
    else []
  }

  /** The answers after the first n entries of a request: a status answer for an
      item of the checklist replaces that item's answer, texts and all; any
      other entry changes nothing. */
  ghost function Merged(answers: ResponseMap, items: seq<Item>, entries: seq<Entry>, n: nat): ResponseMap
    requires n <= |entries|
  {
    if n == 0 then answers
    else
      var before, id, given := Merged(answers, items, entries, n - 1), entries[n - 1].itemId, entries[n - 1].response;
      if !IsOfChecklist(items, id) || given.value.None? || !given.value.value.StatusValue? then before
      else
        before[id := Response(id, given.value, given.remark, given.issueReason, given.correction, given.correctiveAction,
                              Some(PhotosAfter(before, id, given)))]
  }

  lemma AnswerOfRow(rows: seq<ResultRow>, i: nat)
    requires DistinctRows(rows) && i < |rows|
    ensures rows[i].itemId in ResponsesOf(rows) && ResponsesOf(rows)[rows[i].itemId] == ToResponse(rows[i])
  {
    ResponseOfRow(rows, |rows|, i);
  }

  lemma AnsweredRow(rows: seq<ResultRow>, id: nat) returns (i: nat)
    requires DistinctRows(rows) && id in ResponsesOf(rows)
    ensures i < |rows| && rows[i].itemId == id && ResponsesOf(rows)[id] == ToResponse(rows[i])
  {
    ResponsesDomain(rows, |rows|, id);
    i :| 0 <= i < |rows| && rows[i].itemId == id;
    AnswerOfRow(rows, i);
  }

  lemma OneStored(rows: seq<ResultRow>, item: Item, given: Response)
    requires DistinctRows(rows) && given.value.Some? && given.value.value.StatusValue?
    ensures var after, answers := PersistOne(rows, item, given), ResponsesOf(rows);
            && DistinctRows(after)
            && ResponsesOf(after) ==
                 answers[item.id := Response(item.id, given.value, given.remark, given.issueReason, given.correction,
                                             given.correctiveAction, Some(PhotosAfter(answers, item.id, given)))]
  {
    var after, answers, k := PersistOne(rows, item, given), ResponsesOf(rows), RowIndex(rows, item.id);
    PersistOneRow(rows, item, given);
    StatusRoundTrip(item.rules.itemType, given.value.value.status, ACCEPTABLE);
    assert k < |after| && after[k].itemId == item.id && |rows| <= |after| <= |rows| + 1;
    assert forall j :: 0 <= j < |rows| && j != k ==> after[j] == rows[j] && rows[j].itemId != item.id;
    if k < |rows| { AnswerOfRow(rows, k); } else if item.id in answers { var i := AnsweredRow(rows, item.id); }
    AnswerOfRow(after, k);
    var expected := answers[item.id := Response(item.id, given.value, given.remark, given.issueReason, given.correction,
                                                given.correctiveAction, Some(PhotosAfter(answers, item.id, given)))];
    assert ResponsesOf(after)[item.id] == expected[item.id];
    hide ResponsesOf, PersistOne, PhotosAfter, ResultFromNormalized;
    forall id: nat | id != item.id
      ensures id in ResponsesOf(after) <==> id in answers
      ensures id in answers ==> ResponsesOf(after)[id] == answers[id]
    {
      if id in answers {
        var i := AnsweredRow(rows, id);
        assert after[i] == rows[i];
        AnswerOfRow(after, i);
      } else if id in ResponsesOf(after) {
        var i := AnsweredRow(after, id);
        assert after[i] == rows[i];
        AnswerOfRow(rows, i);
      }
    }
  }

  /** Storing a request row by row and reading the rows back is merging the
      request into the answers. */
  lemma {:induction false} StoredReadsBack(rows: seq<ResultRow>, items: seq<Item>, entries: seq<Entry>, n: nat)
    requires DistinctRows(rows) && n <= |entries|
    ensures DistinctRows(PersistTo(rows, items, entries, n))
    ensures ResponsesOf(PersistTo(rows, items, entries, n)) == Merged(ResponsesOf(rows), items, entries, n)
  {
    hide ResponsesOf, PhotosAfter;
    if n > 0 {
      StoredReadsBack(rows, items, entries, n - 1);
      var before, found := PersistTo(rows, items, entries, n - 1), FindItem(items, entries[n - 1].itemId);
      if found.Some? && entries[n - 1].response.value.Some? && entries[n - 1].response.value.value.StatusValue? {
        OneStored(before, found.value, entries[n - 1].response);
      }
      hide PersistOne, DistinctRows;
    }
  }

  // --------------------------------------------------------- submitted rows

  /** What the rows owe to one item of the checklist. */
  ghost predicate RowsMeet(item: Item, rows: seq<ResultRow>) {
    && (item.rules.isRequired ==> item.rules.itemType in STATUS_TYPES && exists i :: 0 <= i < |rows| && rows[i].itemId == item.id)
    && (item.rules.itemType in STATUS_TYPES ==>
          forall i :: 0 <= i < |rows| && rows[i].itemId == item.id ==> RowMeets(item.rules, rows[i]))
  }

  ghost predicate RowMeets(rules: ItemRules, row: ResultRow) {
    && (row.status == NOT_APPLICABLE_RESULT ==> rules.allowNotApplicable)
    && (row.status in {UNACCEPTABLE, FAIL_RESULT} ==>
          && (rules.requiresEvidenceOnFail ==> |row.attachments| > 0)
          && (rules.remarkRequiredOnFail ==> Says(row.notes))
          && (rules.correctiveActionRequiredOnFail ==> Says(row.correctiveAction)))
  }

  lemma ValidMeansRowsMeet(items: seq<Item>, rows: seq<ResultRow>, n: nat)
    requires DistinctRows(rows) && n < |items| && ValidationOf(items, ResponsesOf(rows)).isValid
    ensures RowsMeet(items[n], rows)
  {
    var item, rs := items[n], ResponsesOf(rows);
    forall code ensures !Reports(item, Lookup(rs, item.id), code) {
      NothingBroken(items, rs, n, code);
      BreaksExactly(item, Lookup(rs, item.id), code);
    }
    hide ValidationOf, ResponsesOf, Reports, Says;
    if item.rules.isRequired { RequiredHasRow(item, rows); }
    forall i | 0 <= i < |rows| && rows[i].itemId == item.id && item.rules.itemType in STATUS_TYPES
      ensures RowMeets(item.rules, rows[i])
    {
      AnswerOfRow(rows, i);
      assert Lookup(rs, item.id) == Some(ToResponse(rows[i]));
      forall code ensures !Reports(item, Some(ToResponse(rows[i])), code) { assert !Reports(item, Lookup(rs, item.id), code); }
      AnswerMeets(item, rows[i]);
    }
  }

  lemma NothingBroken(items: seq<Item>, rs: ResponseMap, n: nat, code: ErrorCode)
    requires n < |items| && ValidationOf(items, rs).isValid
    ensures !Breaks(items[n], Lookup(rs, items[n].id), code)
  {
    hide Breaks, ErrorsTo;
    ErrorsToMeaning(items, rs, |items|, ValidationError(items[n].id, code));
  }

  lemma RequiredHasRow(item: Item, rows: seq<ResultRow>)
    requires DistinctRows(rows) && item.rules.isRequired && !Reports(item, Lookup(ResponsesOf(rows), item.id), REQUIRED)
    ensures item.rules.itemType in STATUS_TYPES && exists i :: 0 <= i < |rows| && rows[i].itemId == item.id
  {
    var i := AnsweredRow(rows, item.id);
  }

  lemma AnswerMeets(item: Item, row: ResultRow)
    requires item.rules.itemType in STATUS_TYPES && row.itemId == item.id
    requires forall code :: !Reports(item, Some(ToResponse(row)), code)
    ensures RowMeets(item.rules, row)
  {
    var r := Some(ToResponse(row));
    hide Says;
    assert !Reports(item, r, NOT_APPLICABLE_NOT_ALLOWED) && !Reports(item, r, EVIDENCE_REQUIRED);
    assert !Reports(item, r, REMARK_REQUIRED) && !Reports(item, r, CORRECTIVE_ACTION_REQUIRED);
  }

  const WITH_OPERATOR: set<RecordStatus> := {DRAFT, RecordStatus.REJECTED, RETURNED_FOR_CORRECTION}

  /** In every reachable state the rows of a record that is out of the
      operator's hands meet every item of its checklist: a row for each required
      one, and for each failing one the photos, the remark and the corrective
      action it calls for. */
  lemma SubmittedRowsMeetRules(calls: seq<Call>, defs: Definitions, k: nat, item: Item)
    requires k < |Run([], calls, defs)| && Run([], calls, defs)[k].status !in WITH_OPERATOR
    requires InSections(item, defs(Run([], calls, defs)[k].versionId))
    ensures RowsMeet(item, Run([], calls, defs)[k].rows)
  {
    var r := Run([], calls, defs)[k];
    EveryRunKeepsRows(calls, defs);
    assert DistinctRows(r.rows);
    SubmittedTrucksAreSafe(calls, defs, k);
    FlattenMembers(defs(r.versionId), item);
    var items := ItemsOf(r, defs);
    var n :| 0 <= n < |items| && items[n] == item;
    hide Run, FlattenItems, ValidationOf, ResponsesOf, RowsMeet;
    ValidMeansRowsMeet(items, r.rows, n);
  }
}
