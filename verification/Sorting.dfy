/** Stable sorting by an integer key, as `Array.prototype.sort` and the
    database's `orderBy` do it. */
module Sorting {

  function Insert<T>(x: T, ys: seq<T>, key: T -> int): seq<T> {
    if ys == [] || key(x) <= key(ys[0]) then [x] + ys
    else [ys[0]] + Insert(x, ys[1..], key)
  }

  function Sort<T>(xs: seq<T>, key: T -> int): seq<T> {
    if xs == [] then [] else Insert(xs[0], Sort(xs[1..], key), key)
  }

  ghost predicate SortedBy<T>(xs: seq<T>, key: T -> int) {
    forall i, j :: 0 <= i < j < |xs| ==> key(xs[i]) <= key(xs[j])
  }

  lemma {:induction false} InsertElements<T>(x: T, ys: seq<T>, key: T -> int)
    ensures multiset(Insert(x, ys, key)) == multiset{x} + multiset(ys)
  {
    if ys != [] && key(x) > key(ys[0]) {
      InsertElements(x, ys[1..], key);
      assert ys == [ys[0]] + ys[1..];
    }
  }

  lemma {:induction false} SortElements<T>(xs: seq<T>, key: T -> int)
    ensures multiset(Sort(xs, key)) == multiset(xs)
  {
    if xs != [] {
      SortElements(xs[1..], key);
      InsertElements(xs[0], Sort(xs[1..], key), key);
      assert xs == [xs[0]] + xs[1..];
    }
  }

  /** Sorting neither adds nor loses an element. */
  lemma SortMembers<T>(xs: seq<T>, key: T -> int)
    ensures |Sort(xs, key)| == |xs|
    ensures forall x :: x in Sort(xs, key) <==> x in xs
  {
    SortElements(xs, key);
    assert |multiset(Sort(xs, key))| == |multiset(xs)|;
    forall x ensures x in Sort(xs, key) <==> x in xs {
      assert x in Sort(xs, key) <==> x in multiset(Sort(xs, key));
    }
  }

  lemma {:induction false} InsertSorted<T>(x: T, ys: seq<T>, key: T -> int)
    requires SortedBy(ys, key)
    ensures SortedBy(Insert(x, ys, key), key)
  {
    if ys != [] && key(x) > key(ys[0]) {
      InsertSorted(x, ys[1..], key);
      var r := Insert(x, ys[1..], key);
      InsertElements(x, ys[1..], key);
      forall j | 0 <= j < |r| ensures key(ys[0]) <= key(r[j]) {
        assert r[j] in multiset(r);
        if r[j] != x {
          assert r[j] in ys[1..];
        }
      }
    }
  }

  lemma {:induction false} SortSorted<T>(xs: seq<T>, key: T -> int)
    ensures SortedBy(Sort(xs, key), key)
  {
    if xs != [] {
      SortSorted(xs[1..], key);
      InsertSorted(xs[0], Sort(xs[1..], key), key);
    }
  }

  /** A sorted list is left as it is. */
  lemma {:induction false} SortOfSorted<T>(xs: seq<T>, key: T -> int)
    requires SortedBy(xs, key)
    ensures Sort(xs, key) == xs
  {
    if xs != [] {
      SortOfSorted(xs[1..], key);
      assert xs == [xs[0]] + xs[1..];
    }
  }

  predicate HasKey<T>(ys: seq<T>, key: T -> int, k: int) {
    exists p :: 0 <= p < |ys| && key(ys[p]) == k
  }

  /** In a sorted list in which each of 0, 1, ... up to its length occurs as a
      key, the k-th element has key k. */
  lemma SortedCover<T>(ys: seq<T>, key: T -> int, k: nat)
    requires SortedBy(ys, key) && k < |ys|
    requires forall i :: 0 <= i < |ys| ==> HasKey(ys, key, i)
    ensures key(ys[k]) == k
  {
    var low := CoverBelow(ys, key, k);
    var high := CoverAbove(ys, key, k);
    assert low == k || key(ys[low]) <= key(ys[k]);
    assert high == k || key(ys[k]) <= key(ys[high]);
  }

  lemma {:induction false} CoverAbove<T>(ys: seq<T>, key: T -> int, k: nat) returns (p: nat)
    requires SortedBy(ys, key) && k < |ys|
    requires forall i :: 0 <= i < |ys| ==> HasKey(ys, key, i)
    ensures k <= p < |ys| && key(ys[p]) == k
  {
    assert HasKey(ys, key, k);
    p :| 0 <= p < |ys| && key(ys[p]) == k;
    if k > 0 {
      var q := CoverAbove(ys, key, k - 1);
    }
  }

  lemma {:induction false} CoverBelow<T>(ys: seq<T>, key: T -> int, k: nat) returns (p: nat)
    requires SortedBy(ys, key) && k < |ys|
    requires forall i :: 0 <= i < |ys| ==> HasKey(ys, key, i)
    ensures p <= k && key(ys[p]) == k
    decreases |ys| - k
  {
    assert HasKey(ys, key, k);
    p :| 0 <= p < |ys| && key(ys[p]) == k;
    if k + 1 < |ys| {
      var q := CoverBelow(ys, key, k + 1);
    }
  }
}
