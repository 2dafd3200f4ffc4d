/** Checklists of one item, on which the failing runs are shown. */
module OneItemChecklists {
  import opened JsText
  import opened Wrappers
  import opened ChecklistEngine
  import opened RecordRules
  import opened InspectionRecords
  import Sorting

  const CRITICAL_ITEM :=
    Item(7, 0, ItemRules([], None, PASS_FAIL_NA, true, false, false, true, false, false, None, None, None, []))

  const NUMBER_ITEM :=
    Item(7, 0, ItemRules([], None, NUMBER, true, false, false, false, false, false, None, None, None, []))

  /** Every version holds one section with one item. */
  function Only(item: Item): Definitions {
    (v: nat) => [Section(0, [], 0, [item])]
  }

  lemma OnlyItem(item: Item, v: nat)
    ensures FlattenItems(Only(item)(v)) == [item]
    ensures forall other :: InSections(other, Only(item)(v)) <==> other == item
  {
    var sections := Only(item)(v);
    assert sections[0].items == [item];
    assert Sorting.Sort([item][1..], ItemOrder()) == [] && Sorting.Sort(sections[1..], SectionOrder()) == [];
    assert Sorting.Sort([item], ItemOrder()) == [item];
    assert Sorting.Sort(sections, SectionOrder()) == sections;
    assert Concat(sections[1..]) == [];
    assert sections[0] in sections;
  }

  function Answer(st: NormalizedStatus): seq<Entry> {
    [Entry(7, Response(7, Some(StatusValue(st)), None, None, None, None, None))]
  }

  function AnswerRow(st: NormalizedStatus): ResultRow {
    ResultRow(7, ResultFromNormalized(PASS_FAIL_NA, st), None, None, None, None, [])
  }

  /** Nothing stored, or one of those answers. */
  predicate OneAnswer(rows: seq<ResultRow>) {
    rows == [] || exists st :: rows == [AnswerRow(st)]
  }

  lemma AnswerStored(rows: seq<ResultRow>, st: NormalizedStatus)
    requires OneAnswer(rows)
    ensures PersistTo(rows, [CRITICAL_ITEM], Answer(st), 1) == [AnswerRow(st)]
  {
    var entries := Answer(st);
    assert FindItem([CRITICAL_ITEM], 7) == Some(CRITICAL_ITEM);
    assert PersistTo(rows, [CRITICAL_ITEM], entries, 0) == rows;
    assert PersistOne(rows, CRITICAL_ITEM, entries[0].response) == [AnswerRow(st)];
  }

  lemma EntryStored(rows: seq<ResultRow>, st: NormalizedStatus)
    requires OneAnswer(rows)
    ensures PersistEntry(rows, [CRITICAL_ITEM], Answer(st)[0]) == [AnswerRow(st)]
  {
    AnswerStored(rows, st);
    assert PersistTo(rows, [CRITICAL_ITEM], Answer(st), 0) == rows;
  }

  lemma AnswerRead(st: NormalizedStatus)
    ensures ResponsesOf([AnswerRow(st)]) == map[7 := ToResponse(AnswerRow(st))]
  {
    assert ResponsesTo([AnswerRow(st)], 0) == map[];
  }

  lemma AnswerValid(st: NormalizedStatus)
    requires st.PASS? || st.FAIL?
    ensures var rs := map[7 := ToResponse(AnswerRow(st))];
            ValidationOf([CRITICAL_ITEM], rs).isValid && (IsFailure(CRITICAL_ITEM, Lookup(rs, 7)) <==> st.FAIL?)
  {
    var rs := map[7 := ToResponse(AnswerRow(st))];
    assert ErrorsFor(CRITICAL_ITEM, Lookup(rs, 7)) == [];
    assert ErrorsTo([CRITICAL_ITEM], rs, 0) == [];
    assert ErrorsTo([CRITICAL_ITEM], rs, 1) == [];
  }

  lemma NoneListed(items: seq<Item>)
    ensures (forall i :: i !in items) ==> items == []
  {
    if items != [] { assert items[0] in items; }
  }

  /** PASS is valid and approves; FAIL is valid, critical, and blocks. */
  lemma AnswerJudged(st: NormalizedStatus)
    requires st.PASS? || st.FAIL?
    ensures var rs := ResponsesOf([AnswerRow(st)]);
            && ValidationOf([CRITICAL_ITEM], rs).isValid
            && (ValidationOf([CRITICAL_ITEM], rs).hasCriticalFailure <==> st.FAIL?)
            && RecommendedDecision([CRITICAL_ITEM], rs) == if st.PASS? then APPROVED_FOR_LOADING else LOADING_BLOCKED
  {
    AnswerRead(st);
    AnswerValid(st);
    var rs, items := ResponsesOf([AnswerRow(st)]), [CRITICAL_ITEM];
    hide ResponsesOf, Errors, IsFailure, Lookup, AnswerRow;
    var critical := DetectCriticalFailures(items, rs);
    assert items[0] == CRITICAL_ITEM;
    if st.FAIL? {
      assert CRITICAL_ITEM in critical;
    } else {
      assert forall i :: i in items ==> i == CRITICAL_ITEM;
      NoneListed(critical);
    }
  }

  const OWNER := User(1, {}, {})

  const NOTE: Str := [111, 107]

  lemma NoteSaysSomething()
    ensures !IsBlank(NOTE)
  {
    TrimNoWhite(NOTE);
  }

  const TRUCK := TruckKey(0, None, [65])

  /** A truck inspection just started by user 1. */
  const TRUCK_DRAFT := NewRecord(1, TRUCK, [], 0, None)

  lemma FirstDraft(user: User, key: Key, defs: Definitions)
    ensures Step([], user, CreateDraft(key, [], Some(0), None), defs).0 == [NewRecord(user.id, key, [], 0, None)]
  {
    assert NewestTo([], key, 0).None?;
  }

  /** An optional number of at most 10. */
  const BOUNDED_ITEM :=
    Item(7, 0, ItemRules([], None, NUMBER, false, false, false, false, false, false, None, Some(Finite(10.0)), None, []))

  const INFINITE_READING: ResponseMap :=
    map[7 := Response(7, Some(NumberValue(PosInfinity)), None, None, None, None, None)]

  /** Valid answers with no item failed by the counts that are yet not approved:
      an infinite reading above the bound. */
  lemma InfiniteReadingDisagrees()
    ensures var items := FlattenItems(Only(BOUNDED_ITEM)(0));
            && ValidationOf(items, INFINITE_READING).isValid
            && CountsOf(items, INFINITE_READING).failed == 0
            && RecommendedDecision(items, INFINITE_READING) == CONDITIONALLY_APPROVED
  {
    OnlyItem(BOUNDED_ITEM, 0);
    hide FlattenItems, Only;
    var items, rs := [BOUNDED_ITEM], INFINITE_READING;
    var r := Lookup(rs, 7);
    assert IsFailure(BOUNDED_ITEM, r) && Classify(NUMBER, ValueOf(r)) == Unanswered;
    assert ErrorsFor(BOUNDED_ITEM, r) == [];
    assert ErrorsTo(items, rs, 0) == [] && ErrorsTo(items, rs, 1) == [];
    assert CountTo(items, rs, Answered(FAIL), 0) == 0;
    assert IsFailure(items[0], Lookup(rs, items[0].id));
    assert forall i :: i in items ==> i == BOUNDED_ITEM;
    NoneListed(DetectCriticalFailures(items, rs));
  }
}
