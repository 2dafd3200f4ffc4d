/** The checklist engine: response classification, failure detection,
    validation, mark-all-acceptable, record counts and the loading
    recommendation (checklist-engine.ts, inspection-records.ts,
    truck-inspection.ts). */
module ChecklistEngine {
  import opened JsText
  import opened Wrappers
  import Sorting

  datatype ItemType =
    | PASS_FAIL_NA | ACCEPTABLE_UNACCEPTABLE_NA | YES_NO_NA
    | SHORT_TEXT | LONG_TEXT | NUMBER | TEMPERATURE | DATE | TIME
    | SINGLE_SELECT | PHOTO_EVIDENCE | SIGNATURE

  datatype NormalizedStatus = PASS | FAIL | NOT_APPLICABLE

  datatype ResponseStatus = Unanswered | Answered(status: NormalizedStatus)

  /** A JavaScript number. */
  datatype Num = NaN | NegInfinity | Finite(r: real) | PosInfinity

  predicate NumLess(a: Num, b: Num) {
    match (a, b)
    case (NaN, _) => false
    case (_, NaN) => false
    case (Finite(x), Finite(y)) => x < y
    case (NegInfinity, _) => !b.NegInfinity?
    case (_, PosInfinity) => !a.PosInfinity?
    case _ => false
  }

  datatype ItemValue =
    | StatusValue(status: NormalizedStatus)
    | TextValue(text: Str)
    | NumberValue(number: Num)
    | DateValue(text: Str)
    | TimeValue(text: Str)
    | SelectValue(text: Str)
    | PhotoValue(photos: seq<Str>)
    | SignatureValue(signedByName: Str, signedAt: Str)

  /** One answer; photos are represented by their file names. */
  datatype Response = Response(
    itemId: nat,
    value: Option<ItemValue>,
    remark: Option<Str>,
    issueReason: Option<Str>,
    correction: Option<Str>,
    correctiveAction: Option<Str>,
    evidence: Option<seq<Str>>)

  type ResponseMap = map<nat, Response>

  datatype ItemOption = ItemOption(value: Str, caption: Str, sortOrder: int)

  /** The fields of an item that an administrator edits. */
  datatype ItemRules = ItemRules(
    caption: Str,
    helpText: Option<Str>,
    itemType: ItemType,
    isRequired: bool,
    allowNotApplicable: bool,
    requiresEvidenceOnFail: bool,
    isCriticalFailure: bool,
    remarkRequiredOnFail: bool,
    correctiveActionRequiredOnFail: bool,
    minValue: Option<Num>,
    maxValue: Option<Num>,
    defaultResponse: Option<Str>,
    options: seq<ItemOption>)

  datatype Item = Item(id: nat, sortOrder: int, rules: ItemRules)

  datatype Section = Section(id: nat, name: Str, sortOrder: int, items: seq<Item>)

  predicate IsStatusType(t: ItemType) {
    t.PASS_FAIL_NA? || t.ACCEPTABLE_UNACCEPTABLE_NA? || t.YES_NO_NA?
  }

  predicate IsNumeric(t: ItemType) {
    t.NUMBER? || t.TEMPERATURE?
  }

  function Lookup(rs: ResponseMap, id: nat): Option<Response> {
    if id in rs then Some(rs[id]) else None
  }

  function ValueOf(r: Option<Response>): Option<ItemValue> {
    if r.Some? then r.value.value else None
  }

  /** `classifyResponseStatus`. */
  function Classify(t: ItemType, value: Option<ItemValue>): ResponseStatus {
    match value
    case None => Unanswered
    case Some(v) =>
      if IsStatusType(t) then (if v.StatusValue? then Answered(v.status) else Unanswered)
      else
        var filled :=
          match t
          case SHORT_TEXT => v.TextValue? && !IsBlank(v.text)
          case LONG_TEXT => v.TextValue? && !IsBlank(v.text)
          case NUMBER => v.NumberValue? && v.number.Finite?
          case TEMPERATURE => v.NumberValue? && v.number.Finite?
          case DATE => v.DateValue? && v.text != []
          case TIME => v.TimeValue? && v.text != []
          case SINGLE_SELECT => v.SelectValue? && v.text != []
          case PHOTO_EVIDENCE => v.PhotoValue? && v.photos != []
          case SIGNATURE => v.SignatureValue? && v.signedAt != []
          case _ => false;
        if filled then Answered(PASS) else Unanswered
  }

  /** A numeric reading outside the item's bounds, finite or not. */
  predicate OutOfRange(rules: ItemRules, n: Num) {
    || (rules.minValue.Some? && NumLess(n, rules.minValue.value))
    || (rules.maxValue.Some? && NumLess(rules.maxValue.value, n))
  }

  predicate IsFailure(item: Item, r: Option<Response>) {
    match ValueOf(r)
    case None => false
    case Some(v) =>
      if IsStatusType(item.rules.itemType) then v == StatusValue(FAIL)
      else IsNumeric(item.rules.itemType) && v.NumberValue? && OutOfRange(item.rules, v.number)
  }

  // --------------------------------------------------------------- flatten

  function ItemOrder(): Item -> int { (i: Item) => i.sortOrder }

  function SectionOrder(): Section -> int { (s: Section) => s.sortOrder }

  function Concat(sections: seq<Section>): seq<Item> {
    if sections == [] then [] else Sorting.Sort(sections[0].items, ItemOrder()) + Concat(sections[1..])
  }

  function FlattenItems(sections: seq<Section>): seq<Item> {
    Concat(Sorting.Sort(sections, SectionOrder()))
  }

  ghost predicate InSections(item: Item, sections: seq<Section>) {
    exists s :: s in sections && item in s.items
  }

  lemma {:induction false} ConcatMembers(sections: seq<Section>, item: Item)
    ensures item in Concat(sections) <==> InSections(item, sections)
  {
    if sections != [] {
      ConcatMembers(sections[1..], item);
      Sorting.SortMembers(sections[0].items, ItemOrder());
      assert sections == [sections[0]] + sections[1..];
    }
  }

  /** Flattening keeps every item of every section and adds none. */
  lemma FlattenMembers(sections: seq<Section>, item: Item)
    ensures item in FlattenItems(sections) <==> InSections(item, sections)
  {
    Sorting.SortMembers(sections, SectionOrder());
    ConcatMembers(Sorting.Sort(sections, SectionOrder()), item);
  }

  // ------------------------------------------------------ critical failures

  function DetectCriticalFailures(items: seq<Item>, rs: ResponseMap): (r: seq<Item>)
    ensures forall i :: i in r <==> i in items && i.rules.isCriticalFailure && IsFailure(i, Lookup(rs, i.id))
  {
    if items == [] then []
    else
      (if items[0].rules.isCriticalFailure && IsFailure(items[0], Lookup(rs, items[0].id)) then [items[0]] else [])
      + DetectCriticalFailures(items[1..], rs)
  }

  // ------------------------------------------------------------- validation

  datatype ErrorCode =
    | REQUIRED | NOT_APPLICABLE_NOT_ALLOWED | REMARK_REQUIRED
    | EVIDENCE_REQUIRED | CORRECTIVE_ACTION_REQUIRED | OUT_OF_RANGE

  datatype ValidationError = ValidationError(itemId: nat, code: ErrorCode)

  datatype ValidationResult = ValidationResult(
    isValid: bool, errors: seq<ValidationError>, criticalFailureItemIds: seq<nat>, hasCriticalFailure: bool)

  predicate NoText(t: Option<Str>) {
    t.None? || IsBlank(t.value)
  }

  function RemarkOf(r: Option<Response>): Option<Str> { if r.Some? then r.value.remark else None }

  function CorrectiveActionOf(r: Option<Response>): Option<Str> { if r.Some? then r.value.correctiveAction else None }

  predicate HasEvidence(r: Option<Response>) {
    r.Some? && r.value.evidence.Some? && r.value.evidence.value != []
  }

  function When(cond: bool, id: nat, code: ErrorCode): seq<ValidationError> {
    if cond then [ValidationError(id, code)] else []
  }

  /** Errors of a failing answer. */
  function FailureErrors(item: Item, r: Option<Response>): seq<ValidationError> {
    When(item.rules.remarkRequiredOnFail && NoText(RemarkOf(r)), item.id, REMARK_REQUIRED)
    + When(item.rules.requiresEvidenceOnFail && !HasEvidence(r), item.id, EVIDENCE_REQUIRED)
    + When(item.rules.correctiveActionRequiredOnFail && NoText(CorrectiveActionOf(r)), item.id, CORRECTIVE_ACTION_REQUIRED)
  }

  /** Errors of one item, in the order they are pushed. */
  function ErrorsFor(item: Item, r: Option<Response>): seq<ValidationError> {
    var rules := item.rules;
    var status := Classify(rules.itemType, ValueOf(r));
    if status == Unanswered then When(rules.isRequired, item.id, REQUIRED)
    else
      var failed := IsFailure(item, r);
      When(status == Answered(NOT_APPLICABLE) && !rules.allowNotApplicable, item.id, NOT_APPLICABLE_NOT_ALLOWED)
      + When(IsNumeric(rules.itemType) && ValueOf(r).value.NumberValue? && failed, item.id, OUT_OF_RANGE)
      + (if failed then FailureErrors(item, r) else [])
  }

  function ErrorsTo(items: seq<Item>, rs: ResponseMap, n: nat): seq<ValidationError>
    requires n <= |items|
  {
    if n == 0 then [] else ErrorsTo(items, rs, n - 1) + ErrorsFor(items[n - 1], Lookup(rs, items[n - 1].id))
  }

  function Errors(items: seq<Item>, rs: ResponseMap): seq<ValidationError> {
    ErrorsTo(items, rs, |items|)
  }

  function IdsOf(items: seq<Item>): seq<nat> {
    seq(|items|, i requires 0 <= i < |items| => items[i].id)
  }

  function ValidationOf(items: seq<Item>, rs: ResponseMap): ValidationResult {
    var errors := Errors(items, rs);
    var critical := IdsOf(DetectCriticalFailures(items, rs));
    ValidationResult(|errors| == 0, errors, critical, |critical| > 0)
  }

  /** Errors pushed for a failing answer. */
  method PushFailureErrors(errors: seq<ValidationError>, item: Item, r: Option<Response>) returns (out: seq<ValidationError>)
    requires IsFailure(item, r)
    ensures out == errors + FailureErrors(item, r)
  {
    hide Classify, IsFailure, IsBlank;
    out := errors;
    if item.rules.remarkRequiredOnFail && NoText(RemarkOf(r)) {
      out := out + [ValidationError(item.id, REMARK_REQUIRED)];
    }
    if item.rules.requiresEvidenceOnFail && !HasEvidence(r) {
      out := out + [ValidationError(item.id, EVIDENCE_REQUIRED)];
    }
    if item.rules.correctiveActionRequiredOnFail && NoText(CorrectiveActionOf(r)) {
      out := out + [ValidationError(item.id, CORRECTIVE_ACTION_REQUIRED)];
    }
  }

  /** The loop body of the validation pass. */
  method PushErrors(errors: seq<ValidationError>, item: Item, r: Option<Response>) returns (out: seq<ValidationError>)
    ensures out == errors + ErrorsFor(item, r)
  {
    hide Classify, IsFailure, FailureErrors;
    out := errors;
    var rules := item.rules;
    var status := Classify(rules.itemType, ValueOf(r));
    var failed := IsFailure(item, r);
    if status == Unanswered {
      if rules.isRequired {
        out := out + [ValidationError(item.id, REQUIRED)];
      }
      return;
    }
    if status == Answered(NOT_APPLICABLE) && !rules.allowNotApplicable {
      out := out + [ValidationError(item.id, NOT_APPLICABLE_NOT_ALLOWED)];
    }
    AnsweredHasValue(rules.itemType, ValueOf(r));
    if IsNumeric(rules.itemType) && ValueOf(r).value.NumberValue? && IsFailure(item, r) {
      out := out + [ValidationError(item.id, OUT_OF_RANGE)];
    }
    if failed {
      out := PushFailureErrors(out, item, r);
    }
  }

  /** The engine's validation pass. */
  method ValidateChecklistResponses(sections: seq<Section>, rs: ResponseMap) returns (result: ValidationResult)
    ensures result == ValidationOf(FlattenItems(sections), rs)
  {
    hide ErrorsFor, FlattenItems;
    var items := FlattenItems(sections);
    var errors: seq<ValidationError> := [];
    for n := 0 to |items|
      invariant errors == ErrorsTo(items, rs, n)
    {
      errors := PushErrors(errors, items[n], Lookup(rs, items[n].id));
    }
    var critical := IdsOf(DetectCriticalFailures(items, rs));
    return ValidationResult(|errors| == 0, errors, critical, |critical| > 0);
  }

  lemma AnsweredHasValue(t: ItemType, value: Option<ItemValue>)
    requires Classify(t, value).Answered?
    ensures value.Some?
  {
  }

  /** The rule an error code stands for, item by item. */
  predicate Breaks(item: Item, r: Option<Response>, code: ErrorCode) {
    var rules := item.rules;
    var status := Classify(rules.itemType, ValueOf(r));
    match code
    case REQUIRED => status == Unanswered && rules.isRequired
    case NOT_APPLICABLE_NOT_ALLOWED => status == Answered(NOT_APPLICABLE) && !rules.allowNotApplicable
    case OUT_OF_RANGE => status.Answered? && IsNumeric(rules.itemType) && IsFailure(item, r)
    case REMARK_REQUIRED => status.Answered? && IsFailure(item, r) && rules.remarkRequiredOnFail && NoText(RemarkOf(r))
    case EVIDENCE_REQUIRED => status.Answered? && IsFailure(item, r) && rules.requiresEvidenceOnFail && !HasEvidence(r)
    case CORRECTIVE_ACTION_REQUIRED =>
      status.Answered? && IsFailure(item, r) && rules.correctiveActionRequiredOnFail && NoText(CorrectiveActionOf(r))
  }

  lemma FailureErrorsMeaning(item: Item, r: Option<Response>, e: ValidationError)
    ensures e in FailureErrors(item, r) <==>
      && e.itemId == item.id
      && ((e.code == REMARK_REQUIRED && item.rules.remarkRequiredOnFail && NoText(RemarkOf(r)))
          || (e.code == EVIDENCE_REQUIRED && item.rules.requiresEvidenceOnFail && !HasEvidence(r))
          || (e.code == CORRECTIVE_ACTION_REQUIRED && item.rules.correctiveActionRequiredOnFail && NoText(CorrectiveActionOf(r))))
  {
    hide NoText, HasEvidence;
  }

  lemma ErrorsForMeaning(item: Item, r: Option<Response>, e: ValidationError)
    ensures e in ErrorsFor(item, r) <==> e.itemId == item.id && Breaks(item, r, e.code)
  {
    if Classify(item.rules.itemType, ValueOf(r)) != Unanswered {
      AnsweredHasValue(item.rules.itemType, ValueOf(r));
      assert IsNumeric(item.rules.itemType) && IsFailure(item, r) ==> ValueOf(r).value.NumberValue?;
    }
    FailureErrorsMeaning(item, r, e);
    hide Classify, IsFailure, NoText, HasEvidence, FailureErrors, IsNumeric;
  }

  lemma {:induction false} ErrorsToMeaning(items: seq<Item>, rs: ResponseMap, n: nat, e: ValidationError)
    requires n <= |items|
    ensures e in ErrorsTo(items, rs, n) <==>
      exists i :: 0 <= i < n && items[i].id == e.itemId && Breaks(items[i], Lookup(rs, items[i].id), e.code)
  {
    hide Breaks, ErrorsFor, Lookup;
    if n > 0 {
      ErrorsToMeaning(items, rs, n - 1, e);
      ErrorsForMeaning(items[n - 1], Lookup(rs, items[n - 1].id), e);
    }
  }

  /** An error is reported exactly when some item of some section breaks the
      rule it names, whatever the order of sections and items. */
  lemma ErrorReportedExactlyWhenBroken(sections: seq<Section>, rs: ResponseMap, e: ValidationError)
    ensures e in ValidationOf(FlattenItems(sections), rs).errors <==>
      exists item :: InSections(item, sections) && item.id == e.itemId && Breaks(item, Lookup(rs, item.id), e.code)
  {
    hide Breaks, ErrorsFor, Lookup;
    var items := FlattenItems(sections);
    ErrorsToMeaning(items, rs, |items|, e);
    forall item ensures item in items <==> InSections(item, sections) { FlattenMembers(sections, item); }
    if i :| 0 <= i < |items| && items[i].id == e.itemId && Breaks(items[i], Lookup(rs, items[i].id), e.code) {
      assert items[i] in items;
    }
  }

  /** The declarative rule of one item. */
  predicate MeetsRules(item: Item, r: Option<Response>) {
    var rules := item.rules;
    var status := Classify(rules.itemType, ValueOf(r));
    if status == Unanswered then !rules.isRequired
    else
      && (status == Answered(NOT_APPLICABLE) ==> rules.allowNotApplicable)
      && (IsFailure(item, r) ==>
            && IsStatusType(rules.itemType)
            && (rules.remarkRequiredOnFail ==> !NoText(RemarkOf(r)))
            && (rules.requiresEvidenceOnFail ==> HasEvidence(r))
            && (rules.correctiveActionRequiredOnFail ==> !NoText(CorrectiveActionOf(r))))
  }

  lemma MeetsRulesExactly(item: Item, r: Option<Response>)
    ensures MeetsRules(item, r) <==> forall code :: !Breaks(item, r, code)
  {
    var t := item.rules.itemType;
    assert IsFailure(item, r) ==> IsStatusType(t) || IsNumeric(t);
    assert IsStatusType(t) ==> !IsNumeric(t);
    hide Classify, IsFailure, IsBlank;
    if !MeetsRules(item, r) {
      assert Breaks(item, r, REQUIRED) || Breaks(item, r, NOT_APPLICABLE_NOT_ALLOWED) || Breaks(item, r, OUT_OF_RANGE)
          || Breaks(item, r, REMARK_REQUIRED) || Breaks(item, r, EVIDENCE_REQUIRED) || Breaks(item, r, CORRECTIVE_ACTION_REQUIRED);
    }
  }

  /** Responses are valid exactly when every item of every section meets its rules. */
  lemma ValidExactlyWhenRulesMet(sections: seq<Section>, rs: ResponseMap)
    ensures ValidationOf(FlattenItems(sections), rs).isValid <==>
      forall item :: InSections(item, sections) ==> MeetsRules(item, Lookup(rs, item.id))
  {
    hide Breaks, ErrorsFor, MeetsRules, Lookup, FlattenItems;
    var errors := ValidationOf(FlattenItems(sections), rs).errors;
    if errors != [] {
      var e := errors[0];
      assert e in errors;
      ErrorReportedExactlyWhenBroken(sections, rs, e);
      var item :| InSections(item, sections) && item.id == e.itemId && Breaks(item, Lookup(rs, item.id), e.code);
      MeetsRulesExactly(item, Lookup(rs, item.id));
    } else {
      forall item | InSections(item, sections) ensures MeetsRules(item, Lookup(rs, item.id)) {
        MeetsRulesExactly(item, Lookup(rs, item.id));
        forall code ensures !Breaks(item, Lookup(rs, item.id), code) {
          ErrorReportedExactlyWhenBroken(sections, rs, ValidationError(item.id, code));
        }
      }
    }
  }

  // ------------------------------------------------------------------ counts

  datatype RecordCounts = RecordCounts(acceptable: nat, failed: nat, notApplicable: nat, unanswered: nat, total: nat)

  function StatusOf(item: Item, rs: ResponseMap): ResponseStatus {
    Classify(item.rules.itemType, ValueOf(Lookup(rs, item.id)))
  }

  function CountTo(items: seq<Item>, rs: ResponseMap, st: ResponseStatus, n: nat): nat
    requires n <= |items|
  {
    if n == 0 then 0 else CountTo(items, rs, st, n - 1) + (if StatusOf(items[n - 1], rs) == st then 1 else 0)
  }

  function CountsOf(items: seq<Item>, rs: ResponseMap): RecordCounts {
    RecordCounts(CountTo(items, rs, Answered(PASS), |items|), CountTo(items, rs, Answered(FAIL), |items|),
                 CountTo(items, rs, Answered(NOT_APPLICABLE), |items|), CountTo(items, rs, Unanswered, |items|), |items|)
  }

  method ComputeRecordCounts(items: seq<Item>, rs: ResponseMap) returns (counts: RecordCounts)
    ensures counts == CountsOf(items, rs)
    ensures counts.acceptable + counts.failed + counts.notApplicable + counts.unanswered == counts.total
  {
    hide Classify;
    var acceptable, failed, notApplicable, unanswered := 0, 0, 0, 0;
    for n := 0 to |items|
      invariant acceptable == CountTo(items, rs, Answered(PASS), n)
      invariant failed == CountTo(items, rs, Answered(FAIL), n)
      invariant notApplicable == CountTo(items, rs, Answered(NOT_APPLICABLE), n)
      invariant unanswered == CountTo(items, rs, Unanswered, n)
      invariant acceptable + failed + notApplicable + unanswered == n
    {
      match StatusOf(items[n], rs) {
        case Answered(PASS) => acceptable := acceptable + 1;
        case Answered(FAIL) => failed := failed + 1;
        case Answered(NOT_APPLICABLE) => notApplicable := notApplicable + 1;
        case Unanswered => unanswered := unanswered + 1;
      }
    }
    return RecordCounts(acceptable, failed, notApplicable, unanswered, |items|);
  }

  lemma {:induction false} CountPositive(items: seq<Item>, rs: ResponseMap, st: ResponseStatus, n: nat)
    requires n <= |items|
    ensures CountTo(items, rs, st, n) > 0 <==> exists i :: 0 <= i < n && StatusOf(items[i], rs) == st
  {
    hide StatusOf;
    if n > 0 { CountPositive(items, rs, st, n - 1); }
  }

  // ---------------------------------------------------- loading decision

  datatype LoadingDecision = PENDING | APPROVED_FOR_LOADING | CONDITIONALLY_APPROVED | LOADING_BLOCKED | REJECTED

  predicate AnyFailure(items: seq<Item>, rs: ResponseMap) {
    exists i :: 0 <= i < |items| && IsFailure(items[i], Lookup(rs, items[i].id))
  }

  function RecommendedDecision(items: seq<Item>, rs: ResponseMap): LoadingDecision {
    if |DetectCriticalFailures(items, rs)| > 0 then LOADING_BLOCKED
    else if AnyFailure(items, rs) then CONDITIONALLY_APPROVED
    else APPROVED_FOR_LOADING
  }

  /** An infinite reading beyond a bound: a failure that no status shows. */
  predicate HiddenFailure(item: Item, r: Option<Response>) {
    Classify(item.rules.itemType, ValueOf(r)) == Unanswered && IsFailure(item, r)
  }

  lemma HiddenFailureIsInfinite(item: Item, r: Option<Response>)
    ensures HiddenFailure(item, r) ==>
      && IsNumeric(item.rules.itemType) && ValueOf(r).Some?
      && (ValueOf(r).value == NumberValue(PosInfinity) || ValueOf(r).value == NumberValue(NegInfinity))
  {
  }

  lemma FailureCases(item: Item, r: Option<Response>)
    requires MeetsRules(item, r)
    ensures IsFailure(item, r) <==> Classify(item.rules.itemType, ValueOf(r)) == Answered(FAIL) || HiddenFailure(item, r)
  {
  }

  /** On valid responses the recommendation and the counts agree: loading is
      approved exactly when nothing counts as failed and no infinite reading
      hides a failure; it is blocked exactly on a critical failure. */
  lemma RecommendationAgreesWithCounts(sections: seq<Section>, rs: ResponseMap)
    requires ValidationOf(FlattenItems(sections), rs).isValid
    ensures var items := FlattenItems(sections);
            && (RecommendedDecision(items, rs) == APPROVED_FOR_LOADING <==>
                  && CountsOf(items, rs).failed == 0
                  && forall i :: 0 <= i < |items| ==> !HiddenFailure(items[i], Lookup(rs, items[i].id)))
            && (RecommendedDecision(items, rs) == LOADING_BLOCKED <==> ValidationOf(items, rs).hasCriticalFailure)
  {
    hide FlattenItems, Classify, IsFailure, MeetsRules, Lookup, ErrorsFor;
    var items := FlattenItems(sections);
    ValidExactlyWhenRulesMet(sections, rs);
    CountPositive(items, rs, Answered(FAIL), |items|);
    forall i | 0 <= i < |items|
      ensures var r := Lookup(rs, items[i].id);
              IsFailure(items[i], r) <==> StatusOf(items[i], rs) == Answered(FAIL) || HiddenFailure(items[i], r)
    {
      FlattenMembers(sections, items[i]);
      FailureCases(items[i], Lookup(rs, items[i].id));
    }
    if DetectCriticalFailures(items, rs) != [] {
      var c := DetectCriticalFailures(items, rs)[0];
      assert c in DetectCriticalFailures(items, rs);
      var i :| 0 <= i < |items| && items[i] == c;
      assert AnyFailure(items, rs);
    }
  }

  /** With infinite readings ruled out, approval is exactly "none failed". */
  lemma FiniteReadingsAgree(sections: seq<Section>, rs: ResponseMap)
    requires ValidationOf(FlattenItems(sections), rs).isValid
    requires forall id :: id in rs && rs[id].value.Some? && rs[id].value.value.NumberValue? ==> rs[id].value.value.number.Finite?
    ensures var items := FlattenItems(sections);
            RecommendedDecision(items, rs) == APPROVED_FOR_LOADING <==> CountsOf(items, rs).failed == 0
  {
    hide FlattenItems, Classify, IsFailure, MeetsRules, ErrorsFor, HiddenFailure;
    var items := FlattenItems(sections);
    RecommendationAgreesWithCounts(sections, rs);
    forall i | 0 <= i < |items| ensures !HiddenFailure(items[i], Lookup(rs, items[i].id)) {
      HiddenFailureIsInfinite(items[i], Lookup(rs, items[i].id));
    }
  }
}
