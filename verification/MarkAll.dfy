/** "Mark all acceptable" of the checklist engine: what it fills in and what
    it cannot disturb (checklist-engine.ts). */
module MarkAll {
  import opened Wrappers
  import opened ChecklistEngine
  import CM = ChecklistMeaning

  datatype Preview = Preview(itemIdsToFill: seq<nat>, existingFailureItemIds: seq<nat>)

  predicate Fillable(item: Item, rs: ResponseMap) {
    IsStatusType(item.rules.itemType) && StatusOf(item, rs) == Unanswered
  }

  function FillIdsTo(items: seq<Item>, rs: ResponseMap, n: nat): seq<nat>
    requires n <= |items|
  {
    if n == 0 then [] else FillIdsTo(items, rs, n - 1) + (if Fillable(items[n - 1], rs) then [items[n - 1].id] else [])
  }

  function FailureIdsTo(items: seq<Item>, rs: ResponseMap, n: nat): seq<nat>
    requires n <= |items|
  {
    if n == 0 then [] else
      FailureIdsTo(items, rs, n - 1)
      + (if IsStatusType(items[n - 1].rules.itemType) && StatusOf(items[n - 1], rs) == Answered(FAIL) then [items[n - 1].id] else [])
  }

  method PreviewMarkAllAcceptable(items: seq<Item>, rs: ResponseMap) returns (p: Preview)
    ensures p == Preview(FillIdsTo(items, rs, |items|), FailureIdsTo(items, rs, |items|))
  {
    hide StatusOf, IsStatusType;
    var toFill, failures := [], [];
    for n := 0 to |items|
      invariant toFill == FillIdsTo(items, rs, n)
      invariant failures == FailureIdsTo(items, rs, n)
    {
      var item := items[n];
      if IsStatusType(item.rules.itemType) {
        var status := StatusOf(item, rs);
        if status == Unanswered {
          toFill := toFill + [item.id];
        } else if status == Answered(FAIL) {
          failures := failures + [item.id];
        }
      }
    }
    return Preview(toFill, failures);
  }

  function Acceptable(id: nat): Response {
    Response(id, Some(StatusValue(PASS)), None, None, None, None, None)
  }

  function FilledTo(items: seq<Item>, rs: ResponseMap, fill: seq<nat>, n: nat): ResponseMap
    requires n <= |items|
  {
    if n == 0 then rs
    else
      var m := FilledTo(items, rs, fill, n - 1);
      var item := items[n - 1];
      if item.id in fill && IsStatusType(item.rules.itemType) then m[item.id := Acceptable(item.id)] else m
  }

  function MarkedAll(items: seq<Item>, rs: ResponseMap): ResponseMap {
    FilledTo(items, rs, FillIdsTo(items, rs, |items|), |items|)
  }

  lemma {:induction false} NothingToFill(items: seq<Item>, rs: ResponseMap, n: nat)
    requires n <= |items|
    ensures FilledTo(items, rs, [], n) == rs
  {
    if n > 0 { NothingToFill(items, rs, n - 1); }
  }

  method ApplyMarkAllAcceptable(items: seq<Item>, rs: ResponseMap) returns (next: ResponseMap)
    ensures next == MarkedAll(items, rs)
  {
    hide StatusOf, IsStatusType;
    var preview := PreviewMarkAllAcceptable(items, rs);
    var fill := preview.itemIdsToFill;
    if |fill| == 0 {
      NothingToFill(items, rs, |items|);
      return rs;
    }
    next := rs;
    for n := 0 to |items|
      invariant next == FilledTo(items, rs, fill, n)
    {
      var item := items[n];
      if item.id in fill {
        if IsStatusType(item.rules.itemType) {
          next := next[item.id := Acceptable(item.id)];
        }
      }
    }
  }

  // ------------------------------------------------------------- properties

  ghost predicate UniqueIds(items: seq<Item>) {
    forall i, j :: 0 <= i < j < |items| ==> items[i].id != items[j].id
  }

  lemma {:induction false} FillIdsMeaning(items: seq<Item>, rs: ResponseMap, n: nat, id: nat)
    requires n <= |items|
    ensures id in FillIdsTo(items, rs, n) <==> exists i :: 0 <= i < n && items[i].id == id && Fillable(items[i], rs)
  {
    hide Fillable;
    if n > 0 { FillIdsMeaning(items, rs, n - 1, id); }
  }

  /** A status item that shows this answer, or none. */
  ghost predicate Shows(item: Item, rs: ResponseMap, st: ResponseStatus) {
    && item.rules.itemType in CM.STATUS_TYPES
    && match st
       case Answered(given) => item.id in rs && rs[item.id].value == Some(StatusValue(given))
       case Unanswered => item.id !in rs || rs[item.id].value.None? || !rs[item.id].value.value.StatusValue?
  }

  lemma ShowsExactly(item: Item, rs: ResponseMap)
    ensures Shows(item, rs, Unanswered) <==> Fillable(item, rs)
    ensures Shows(item, rs, Answered(FAIL)) <==> IsStatusType(item.rules.itemType) && StatusOf(item, rs) == Answered(FAIL)
  {
  }

  /** The places, in order, of those among the first n items that show it. */
  ghost predicate ArePlaces(items: seq<Item>, rs: ResponseMap, st: ResponseStatus, n: nat, places: seq<nat>)
    requires n <= |items|
  {
    && (forall j, k :: 0 <= j < k < |places| ==> places[j] < places[k])
    && (forall k :: 0 <= k < |places| ==> places[k] < n && Shows(items[places[k]], rs, st))
    && (forall i :: 0 <= i < n && Shows(items[i], rs, st) ==> i in places)
  }

  ghost function IdsAt(items: seq<Item>, places: seq<nat>): (ids: seq<nat>)
    requires forall k :: 0 <= k < |places| ==> places[k] < |items|
  {
    seq(|places|, k requires 0 <= k < |places| => items[places[k]].id)
  }

  lemma PlacesNext(items: seq<Item>, rs: ResponseMap, st: ResponseStatus, n: nat, places: seq<nat>) returns (more: seq<nat>)
    requires 0 < n <= |items| && ArePlaces(items, rs, st, n - 1, places)
    ensures ArePlaces(items, rs, st, n, more)
    ensures IdsAt(items, more) == IdsAt(items, places) + if Shows(items[n - 1], rs, st) then [items[n - 1].id] else []
  {
    hide Shows;
    more := places;
    if Shows(items[n - 1], rs, st) {
      more := places + [n - 1];
      forall i | 0 <= i < n && Shows(items[i], rs, st) ensures i in more {
        if i == n - 1 { assert more[|places|] == i; } else { assert i in places; }
      }
      assert IdsAt(items, more) == IdsAt(items, places) + [items[n - 1].id];
    } else {
      assert forall i :: 0 <= i < n && Shows(items[i], rs, st) ==> i < n - 1;
    }
  }

  lemma {:induction false} PreviewTo(items: seq<Item>, rs: ResponseMap, n: nat) returns (open: seq<nat>, rejected: seq<nat>)
    requires n <= |items|
    ensures ArePlaces(items, rs, Unanswered, n, open) && FillIdsTo(items, rs, n) == IdsAt(items, open)
    ensures ArePlaces(items, rs, Answered(FAIL), n, rejected) && FailureIdsTo(items, rs, n) == IdsAt(items, rejected)
  {
    open, rejected := [], [];
    if n > 0 {
      open, rejected := PreviewTo(items, rs, n - 1);
      ShowsExactly(items[n - 1], rs);
      hide Shows, Fillable, StatusOf, IsStatusType, ArePlaces, IdsAt;
      open := PlacesNext(items, rs, Unanswered, n, open);
      rejected := PlacesNext(items, rs, Answered(FAIL), n, rejected);
    }
  }

  /** The preview lists the status items without a status, and those answered
      unacceptable, each once and in order. */
  lemma PreviewExactly(items: seq<Item>, rs: ResponseMap)
    ensures exists places :: ArePlaces(items, rs, Unanswered, |items|, places) && FillIdsTo(items, rs, |items|) == IdsAt(items, places)
    ensures exists places ::
      ArePlaces(items, rs, Answered(FAIL), |items|, places) && FailureIdsTo(items, rs, |items|) == IdsAt(items, places)
  {
    var open, rejected := PreviewTo(items, rs, |items|);
  }

  lemma {:induction false} FilledLookup(items: seq<Item>, rs: ResponseMap, fill: seq<nat>, n: nat, id: nat)
    requires n <= |items|
    ensures Lookup(FilledTo(items, rs, fill, n), id) ==
      if id in fill && exists i :: 0 <= i < n && items[i].id == id && IsStatusType(items[i].rules.itemType)
      then Some(Acceptable(id)) else Lookup(rs, id)
  {
    hide IsStatusType;
    if n > 0 { FilledLookup(items, rs, fill, n - 1, id); }
  }

  /** The response of every item afterwards: acceptable where it was fillable,
      untouched, remarks and evidence included, everywhere else. */
  lemma MarkedLookup(items: seq<Item>, rs: ResponseMap, k: nat)
    requires UniqueIds(items) && k < |items|
    ensures Lookup(MarkedAll(items, rs), items[k].id) ==
      if Fillable(items[k], rs) then Some(Acceptable(items[k].id)) else Lookup(rs, items[k].id)
  {
    hide StatusOf, IsStatusType;
    var id, fill := items[k].id, FillIdsTo(items, rs, |items|);
    FillIdsMeaning(items, rs, |items|, id);
    FilledLookup(items, rs, fill, |items|, id);
    assert forall i :: 0 <= i < |items| && items[i].id == id ==> i == k;
  }

  /** Responses to items outside the checklist are untouched too. */
  lemma MarkedForeign(items: seq<Item>, rs: ResponseMap, id: nat)
    requires forall i :: 0 <= i < |items| ==> items[i].id != id
    ensures Lookup(MarkedAll(items, rs), id) == Lookup(rs, id)
  {
    FilledLookup(items, rs, FillIdsTo(items, rs, |items|), |items|, id);
  }

  lemma FillableItem(item: Item, rs: ResponseMap)
    requires Fillable(item, rs)
    ensures !IsFailure(item, Lookup(rs, item.id))
    ensures !IsFailure(item, Some(Acceptable(item.id)))
    ensures Classify(item.rules.itemType, ValueOf(Some(Acceptable(item.id)))) == Answered(PASS)
    ensures ErrorsFor(item, Some(Acceptable(item.id))) == []
    ensures ErrorsFor(item, Lookup(rs, item.id)) == When(item.rules.isRequired, item.id, REQUIRED)
  {
  }

  /** Answered items keep their response, no item changes sides between
      failing and not failing, and no fillable item is left. */
  lemma MarkAllKeepsAnswers(items: seq<Item>, rs: ResponseMap, k: nat)
    requires UniqueIds(items) && k < |items|
    ensures var marked, item := MarkedAll(items, rs), items[k];
            && (StatusOf(item, rs) != Unanswered ==> Lookup(marked, item.id) == Lookup(rs, item.id))
            && (IsFailure(item, Lookup(marked, item.id)) <==> IsFailure(item, Lookup(rs, item.id)))
            && (StatusOf(item, marked) == if Fillable(item, rs) then Answered(PASS) else StatusOf(item, rs))
            && !Fillable(item, marked)
  {
    MarkedLookup(items, rs, k);
    hide Classify, IsFailure, MarkedAll;
    if Fillable(items[k], rs) { FillableItem(items[k], rs); }
  }

  lemma {:induction false} NoFillIds(items: seq<Item>, rs: ResponseMap, n: nat)
    requires n <= |items| && forall i :: 0 <= i < |items| ==> !Fillable(items[i], rs)
    ensures FillIdsTo(items, rs, n) == []
  {
    hide Fillable;
    if n > 0 { NoFillIds(items, rs, n - 1); }
  }

  /** Applying it twice is applying it once. */
  lemma MarkAllIdempotent(items: seq<Item>, rs: ResponseMap)
    requires UniqueIds(items)
    ensures MarkedAll(items, MarkedAll(items, rs)) == MarkedAll(items, rs)
  {
    var marked := MarkedAll(items, rs);
    forall k | 0 <= k < |items| ensures !Fillable(items[k], marked) { MarkAllKeepsAnswers(items, rs, k); }
    NoFillIds(items, marked, |items|);
    NothingToFill(items, marked, |items|);
  }

  lemma {:induction false} CriticalUnchanged(items: seq<Item>, a: ResponseMap, b: ResponseMap)
    requires forall i :: 0 <= i < |items| ==> IsFailure(items[i], Lookup(a, items[i].id)) == IsFailure(items[i], Lookup(b, items[i].id))
    ensures DetectCriticalFailures(items, a) == DetectCriticalFailures(items, b)
  {
    hide IsFailure, Lookup;
    if items != [] {
      assert IsFailure(items[0], Lookup(a, items[0].id)) == IsFailure(items[0], Lookup(b, items[0].id));
      CriticalUnchanged(items[1..], a, b);
    }
  }

  /** The critical failures, the failing set and the loading recommendation
      are the same before and after. */
  lemma MarkAllKeepsDecision(items: seq<Item>, rs: ResponseMap)
    requires UniqueIds(items)
    ensures var marked := MarkedAll(items, rs);
            && DetectCriticalFailures(items, marked) == DetectCriticalFailures(items, rs)
            && AnyFailure(items, marked) == AnyFailure(items, rs)
            && RecommendedDecision(items, marked) == RecommendedDecision(items, rs)
  {
    hide IsFailure, Lookup, MarkedAll;
    var marked := MarkedAll(items, rs);
    forall k | 0 <= k < |items|
      ensures IsFailure(items[k], Lookup(marked, items[k].id)) == IsFailure(items[k], Lookup(rs, items[k].id))
    {
      MarkAllKeepsAnswers(items, rs, k);
    }
    CriticalUnchanged(items, marked, rs);
  }

  lemma {:induction false} CountsMove(items: seq<Item>, rs: ResponseMap, n: nat)
    requires UniqueIds(items) && n <= |items|
    ensures var marked, filled := MarkedAll(items, rs), |FillIdsTo(items, rs, n)|;
            && CountTo(items, marked, Answered(PASS), n) == CountTo(items, rs, Answered(PASS), n) + filled
            && CountTo(items, marked, Unanswered, n) + filled == CountTo(items, rs, Unanswered, n)
            && CountTo(items, marked, Answered(FAIL), n) == CountTo(items, rs, Answered(FAIL), n)
            && CountTo(items, marked, Answered(NOT_APPLICABLE), n) == CountTo(items, rs, Answered(NOT_APPLICABLE), n)
  {
    hide StatusOf, IsStatusType, MarkedAll, Lookup, IsFailure;
    if n > 0 {
      CountsMove(items, rs, n - 1);
      MarkAllKeepsAnswers(items, rs, n - 1);
    }
  }

  /** Exactly the filled items move from unanswered to acceptable. */
  lemma MarkAllMovesCounts(items: seq<Item>, rs: ResponseMap)
    requires UniqueIds(items)
    ensures var before, after := CountsOf(items, rs), CountsOf(items, MarkedAll(items, rs));
            var filled := |FillIdsTo(items, rs, |items|)|;
            && after.acceptable == before.acceptable + filled
            && after.unanswered == before.unanswered - filled
            && after.failed == before.failed && after.notApplicable == before.notApplicable
  {
    CountsMove(items, rs, |items|);
  }

  /** The list without REQUIRED errors on the given items. */
  function WithoutRequired(errors: seq<ValidationError>, ids: seq<nat>): seq<ValidationError> {
    if errors == [] then []
    else
      (if errors[0].code == REQUIRED && errors[0].itemId in ids then [] else [errors[0]]) + WithoutRequired(errors[1..], ids)
  }

  lemma {:induction false} WithoutRequiredAppend(a: seq<ValidationError>, b: seq<ValidationError>, ids: seq<nat>)
    ensures WithoutRequired(a + b, ids) == WithoutRequired(a, ids) + WithoutRequired(b, ids)
  {
    if a == [] {
      assert a + b == b;
    } else {
      WithoutRequiredAppend(a[1..], b, ids);
      assert (a + b)[1..] == a[1..] + b;
    }
  }

  lemma {:induction false} WithoutRequiredKeeps(errors: seq<ValidationError>, ids: seq<nat>)
    requires forall e :: e in errors ==> e.code != REQUIRED || e.itemId !in ids
    ensures WithoutRequired(errors, ids) == errors
  {
    if errors != [] {
      assert errors[0] in errors && forall e :: e in errors[1..] ==> e in errors;
      WithoutRequiredKeeps(errors[1..], ids);
    }
  }

  lemma ItemErrors(items: seq<Item>, rs: ResponseMap, k: nat)
    requires UniqueIds(items) && k < |items|
    ensures var item := items[k];
            ErrorsFor(item, Lookup(MarkedAll(items, rs), item.id))
              == WithoutRequired(ErrorsFor(item, Lookup(rs, item.id)), FillIdsTo(items, rs, |items|))
  {
    hide Classify, MarkedAll, IsFailure, ErrorsFor, Breaks, StatusOf, IsStatusType;
    var item, ids := items[k], FillIdsTo(items, rs, |items|);
    var errors := ErrorsFor(item, Lookup(rs, item.id));
    MarkedLookup(items, rs, k);
    FillIdsMeaning(items, rs, |items|, item.id);
    if Fillable(item, rs) {
      FillableItem(item, rs);
      assert item.id in ids;
    } else {
      assert item.id !in ids;
      forall e | e in errors ensures e.itemId !in ids {
        ErrorsForMeaning(item, Lookup(rs, item.id), e);
      }
      WithoutRequiredKeeps(errors, ids);
    }
  }

  lemma ErrorsNext(items: seq<Item>, rs: ResponseMap, n: nat)
    requires 0 < n <= |items|
    ensures ErrorsTo(items, rs, n) == ErrorsTo(items, rs, n - 1) + ErrorsFor(items[n - 1], Lookup(rs, items[n - 1].id))
  {
    hide ErrorsFor, Lookup;
  }

  lemma {:induction false} ErrorsShrinkTo(items: seq<Item>, rs: ResponseMap, n: nat)
    requires UniqueIds(items) && n <= |items|
    ensures ErrorsTo(items, MarkedAll(items, rs), n)
         == WithoutRequired(ErrorsTo(items, rs, n), FillIdsTo(items, rs, |items|))
  {
    hide MarkedAll, ErrorsFor, Lookup, FillIdsTo;
    if n > 0 {
      ErrorsShrinkTo(items, rs, n - 1);
      hide ErrorsTo, WithoutRequired;
      ErrorsNext(items, rs, n);
      ErrorsNext(items, MarkedAll(items, rs), n);
      ItemErrors(items, rs, n - 1);
      WithoutRequiredAppend(ErrorsTo(items, rs, n - 1), ErrorsFor(items[n - 1], Lookup(rs, items[n - 1].id)),
                            FillIdsTo(items, rs, |items|));
    }
  }

  /** Validation afterwards reports the earlier errors, in the same order,
      without the REQUIRED errors of filled items and with nothing new. */
  lemma MarkAllShrinksErrors(items: seq<Item>, rs: ResponseMap)
    requires UniqueIds(items)
    ensures Errors(items, MarkedAll(items, rs)) == WithoutRequired(Errors(items, rs), FillIdsTo(items, rs, |items|))
  {
    ErrorsShrinkTo(items, rs, |items|);
  }
}
