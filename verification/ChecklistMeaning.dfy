/** What counts as an answer, which answers fail and which error each rule
    reports, in terms of the answer's own fields. */
module ChecklistMeaning {
  import opened JsText
  import opened Wrappers
  import opened ChecklistEngine

  // ---------------------------------------------------------------- answers

  /** What the operator has to give before an item that is no status item
      counts as answered. */
  predicate Given(t: ItemType, v: ItemValue) {
    || (t in {SHORT_TEXT, LONG_TEXT} && v.TextValue? && SaysSomething(v.text))
    || (t in {NUMBER, TEMPERATURE} && v.NumberValue? && v.number.Finite?)
    || (t == DATE && v.DateValue? && |v.text| > 0)
    || (t == TIME && v.TimeValue? && |v.text| > 0)
    || (t == SINGLE_SELECT && v.SelectValue? && |v.text| > 0)
    || (t == PHOTO_EVIDENCE && v.PhotoValue? && |v.photos| > 0)
    || (t == SIGNATURE && v.SignatureValue? && |v.signedAt| > 0)
  }

  const STATUS_TYPES: set<ItemType> := {PASS_FAIL_NA, ACCEPTABLE_UNACCEPTABLE_NA, YES_NO_NA}

  /** A status item is answered by a status, any other by what is given for its
      type, and then it passes. */
  lemma ClassifiedExactly(t: ItemType, value: Option<ItemValue>, st: NormalizedStatus)
    ensures Classify(t, value) == Answered(st) <==>
      value.Some? && (if t in STATUS_TYPES then value.value == StatusValue(st) else st == PASS && Given(t, value.value))
  {
    if value.Some? && value.value.TextValue? { BlankExactly(value.value.text); }
    hide IsBlank, SaysSomething;
  }

  /** a < b among the numbers, NaN comparing with nothing. */
  predicate Below(a: Num, b: Num) {
    || (a.NegInfinity? && (b.Finite? || b.PosInfinity?))
    || (a.Finite? && (b.PosInfinity? || (b.Finite? && a.r < b.r)))
  }

  /** An answer that fails: the FAIL of a status item, or a reading outside the
      bounds that are set. */
  predicate Fails(item: Item, value: Option<ItemValue>) {
    && value.Some?
    && (|| (item.rules.itemType in STATUS_TYPES && value.value == StatusValue(FAIL))
        || (&& item.rules.itemType in {NUMBER, TEMPERATURE} && value.value.NumberValue?
            && (|| (item.rules.minValue.Some? && Below(value.value.number, item.rules.minValue.value))
                || (item.rules.maxValue.Some? && Below(item.rules.maxValue.value, value.value.number)))))
  }

  lemma FailsExactly(item: Item, r: Option<Response>)
    ensures IsFailure(item, r) <==> Fails(item, if r.Some? then r.value.value else None)
  {
    BelowExactly();
    hide NumLess, Below;
  }

  lemma BelowExactly()
    ensures forall a, b :: NumLess(a, b) <==> Below(a, b)
  {
  }

  // ----------------------------------------------------------------- errors

  ghost predicate Says(t: Option<Str>) {
    t.Some? && SaysSomething(t.value)
  }

  ghost predicate IsAnswered(item: Item, r: Option<Response>) {
    && r.Some? && r.value.value.Some?
    && (if item.rules.itemType in STATUS_TYPES then r.value.value.value.StatusValue? else Given(item.rules.itemType, r.value.value.value))
  }

  /** When an item's answer gives rise to an error, field by field. */
  ghost predicate Reports(item: Item, r: Option<Response>, code: ErrorCode) {
    var rules := item.rules;
    if code == REQUIRED then rules.isRequired && !IsAnswered(item, r)
    else
      && IsAnswered(item, r)
      && match code
         case NOT_APPLICABLE_NOT_ALLOWED =>
           !rules.allowNotApplicable && rules.itemType in STATUS_TYPES && r.value.value.value == StatusValue(NOT_APPLICABLE)
         case OUT_OF_RANGE => rules.itemType in {NUMBER, TEMPERATURE} && Fails(item, r.value.value)
         case REMARK_REQUIRED => Fails(item, r.value.value) && rules.remarkRequiredOnFail && !Says(r.value.remark)
         case EVIDENCE_REQUIRED =>
           && Fails(item, r.value.value) && rules.requiresEvidenceOnFail
           && (r.value.evidence.None? || |r.value.evidence.value| == 0)
         case CORRECTIVE_ACTION_REQUIRED =>
           Fails(item, r.value.value) && rules.correctiveActionRequiredOnFail && !Says(r.value.correctiveAction)
         case REQUIRED => false
  }

  lemma AnsweredExactly(item: Item, r: Option<Response>)
    ensures Classify(item.rules.itemType, ValueOf(r)).Answered? <==> IsAnswered(item, r)
    ensures Classify(item.rules.itemType, ValueOf(r)) == Answered(NOT_APPLICABLE) <==>
      r.Some? && item.rules.itemType in STATUS_TYPES && r.value.value == Some(StatusValue(NOT_APPLICABLE))
  {
    var t, value := item.rules.itemType, ValueOf(r);
    ClassifiedExactly(t, value, PASS);
    ClassifiedExactly(t, value, FAIL);
    ClassifiedExactly(t, value, NOT_APPLICABLE);
    hide Classify, Given;
    var c := Classify(t, value);
    assert c.Answered? ==> c.status.PASS? || c.status.FAIL? || c.status.NOT_APPLICABLE?;
    if value.Some? && value.value.StatusValue? {
      assert value.value.status.PASS? || value.value.status.FAIL? || value.value.status.NOT_APPLICABLE?;
    }
    assert c.Answered? ==> c == Answered(PASS) || c == Answered(FAIL) || c == Answered(NOT_APPLICABLE);
    assert value.Some? && value.value.StatusValue? ==>
      value == Some(StatusValue(PASS)) || value == Some(StatusValue(FAIL)) || value == Some(StatusValue(NOT_APPLICABLE));
  }

  lemma TextExactly(t: Option<Str>)
    ensures NoText(t) <==> !Says(t)
  {
    if t.Some? { BlankExactly(t.value); }
    hide IsBlank;
  }

  lemma BreaksExactly(item: Item, r: Option<Response>, code: ErrorCode)
    ensures Breaks(item, r, code) <==> Reports(item, r, code)
  {
    AnsweredExactly(item, r);
    FailsExactly(item, r);
    if r.Some? {
      TextExactly(r.value.remark);
      TextExactly(r.value.correctiveAction);
    }
    hide Classify, IsFailure, Fails, IsAnswered, NoText, Says;
    assert IsAnswered(item, r) ==> r.Some? && r.value.value.Some?;
  }

  /** An error is in the list exactly when some item of some section gives rise
      to it by its answer. */
  lemma ErrorsExactly(sections: seq<Section>, rs: ResponseMap, e: ValidationError)
    ensures e in ValidationOf(FlattenItems(sections), rs).errors <==>
      exists item :: InSections(item, sections) && item.id == e.itemId
                     && Reports(item, if item.id in rs then Some(rs[item.id]) else None, e.code)
  {
    ErrorReportedExactlyWhenBroken(sections, rs, e);
    hide Breaks, Reports, ValidationOf, FlattenItems;
    forall item: Item ensures Breaks(item, Lookup(rs, item.id), e.code) <==> Reports(item, Lookup(rs, item.id), e.code) {
      BreaksExactly(item, Lookup(rs, item.id), e.code);
    }
  }

  /** Missing photos are reported exactly for the answered, failing items that
      call for them and come with no evidence or an empty list of it. */
  lemma EvidenceReportedExactly(sections: seq<Section>, rs: ResponseMap, id: nat)
    ensures ValidationError(id, EVIDENCE_REQUIRED) in ValidationOf(FlattenItems(sections), rs).errors <==>
      && id in rs && (rs[id].evidence == None || rs[id].evidence == Some([]))
      && exists item :: InSections(item, sections) && item.id == id && item.rules.requiresEvidenceOnFail
                        && IsAnswered(item, Some(rs[id])) && Fails(item, rs[id].value)
  {
    ErrorsExactly(sections, rs, ValidationError(id, EVIDENCE_REQUIRED));
    hide ValidationOf, FlattenItems, IsAnswered, Fails, InSections;
    forall item: Item | item.id == id
      ensures Reports(item, Lookup(rs, id), EVIDENCE_REQUIRED) <==>
        && id in rs && (rs[id].evidence == None || rs[id].evidence == Some([])) && item.rules.requiresEvidenceOnFail
        && IsAnswered(item, Some(rs[id])) && Fails(item, rs[id].value)
    {
      NoneAnswered(item);
      if id in rs && rs[id].evidence.Some? { assert |rs[id].evidence.value| == 0 <==> rs[id].evidence.value == []; }
    }
    hide Reports;
  }

  lemma NoneAnswered(item: Item)
    ensures !IsAnswered(item, None)
  {
  }

  /** The critical ids are those of the failing items marked critical. */
  lemma CriticalExactly(sections: seq<Section>, rs: ResponseMap, id: nat)
    ensures id in ValidationOf(FlattenItems(sections), rs).criticalFailureItemIds <==>
      && id in rs
      && exists item :: InSections(item, sections) && item.id == id && item.rules.isCriticalFailure && Fails(item, rs[id].value)
    ensures ValidationOf(FlattenItems(sections), rs).hasCriticalFailure <==>
      exists item :: InSections(item, sections) && item.rules.isCriticalFailure && item.id in rs && Fails(item, rs[item.id].value)
  {
    var items := FlattenItems(sections);
    forall item: Item ensures item in items <==> InSections(item, sections) { FlattenMembers(sections, item); }
    hide FlattenItems, InSections;
    CriticalAmong(items, rs, id);
    assert forall item :: InSections(item, sections) <==> item in items;
    hide ValidationOf, Fails;
  }

  lemma CriticalAmong(items: seq<Item>, rs: ResponseMap, id: nat)
    ensures id in ValidationOf(items, rs).criticalFailureItemIds <==>
      && id in rs
      && exists item :: item in items && item.id == id && item.rules.isCriticalFailure && Fails(item, rs[id].value)
    ensures ValidationOf(items, rs).hasCriticalFailure <==>
      exists item :: item in items && item.rules.isCriticalFailure && item.id in rs && Fails(item, rs[item.id].value)
  {
    var critical := DetectCriticalFailures(items, rs);
    var ids := IdsOf(critical);
    forall item: Item ensures IsFailure(item, Lookup(rs, item.id)) <==> item.id in rs && Fails(item, rs[item.id].value) {
      FailsExactly(item, Lookup(rs, item.id));
    }
    hide IsFailure, Fails, DetectCriticalFailures, Errors;
    assert forall i :: 0 <= i < |critical| ==> ids[i] == critical[i].id && critical[i] in critical;
    if item :| item in items && item.id == id && item.rules.isCriticalFailure && id in rs && Fails(item, rs[id].value) {
      assert item in critical;
      var i :| 0 <= i < |critical| && critical[i] == item;
      assert ids[i] == id;
    }
    if item :| item in items && item.rules.isCriticalFailure && item.id in rs && Fails(item, rs[item.id].value) {
      assert item in critical;
    }
    if critical != [] { assert critical[0] in critical; }
  }
}
