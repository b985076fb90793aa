/** The engine sorts twice with the platform's array sort: the input numbers
    in ascending order, and the collected subsets by length. That sort is
    stable, so it is modelled as a stable insertion sort by an integer key:
    the result is ordered by key, holds the same elements, and keeps the
    relative order of elements with equal keys. */
module Sorting {

  /** xs is in non-decreasing order of key. */
  predicate SortedBy<T>(xs: seq<T>, key: T -> int)
  {
    forall i, j :: 0 <= i < j < |xs| ==> key(xs[i]) <= key(xs[j])
  }

  /** Every element of xs has a key of at least lo. */
  predicate KeysFrom<T>(xs: seq<T>, key: T -> int, lo: int)
  {
    forall i :: 0 <= i < |xs| ==> key(xs[i]) >= lo
  }

  /** Inserts x before the first element whose key is not smaller than its own. */
  function InsertBy<T>(x: T, xs: seq<T>, key: T -> int): (r: seq<T>)
    ensures |r| == |xs| + 1
    ensures multiset(r) == multiset(xs) + multiset{x}
  {
    if xs == [] || key(x) <= key(xs[0]) then [x] + xs
    else
      assert xs == [xs[0]] + xs[1..];
      [xs[0]] + InsertBy(x, xs[1..], key)
  }

  /** Sorts xs by key: each element, last first, is inserted into the sorted rest. */
  function SortBy<T>(xs: seq<T>, key: T -> int): (r: seq<T>)
    ensures |r| == |xs|
    ensures multiset(r) == multiset(xs)
  {
    if xs == [] then []
    else
      assert xs == [xs[0]] + xs[1..];
      InsertBy(xs[0], SortBy(xs[1..], key), key)
  }

  /** The elements of xs whose key is v, in their order in xs. */
  function Having<T>(xs: seq<T>, key: T -> int, v: int): seq<T>
  {
    if xs == [] then []
    else (if key(xs[0]) == v then [xs[0]] else []) + Having(xs[1..], key, v)
  }

  lemma {:induction false} InsertKeysFrom<T>(x: T, xs: seq<T>, key: T -> int, lo: int)
    requires KeysFrom(xs, key, lo) && key(x) >= lo
    ensures KeysFrom(InsertBy(x, xs, key), key, lo)
  {
    if xs != [] && key(x) > key(xs[0]) {
      InsertKeysFrom(x, xs[1..], key, lo);
    }
  }

  /** Inserting into a sorted sequence keeps it sorted. */
  lemma {:induction false} InsertSorted<T>(x: T, xs: seq<T>, key: T -> int)
    requires SortedBy(xs, key)
    ensures SortedBy(InsertBy(x, xs, key), key)
  {
    if xs != [] && key(x) > key(xs[0]) {
      InsertSorted(x, xs[1..], key);
      InsertKeysFrom(x, xs[1..], key, key(xs[0]));
    }
  }

  /** The result of the sort is ordered by key. */
  lemma {:induction false} SortBySorted<T>(xs: seq<T>, key: T -> int)
    ensures SortedBy(SortBy(xs, key), key)
  {
    if xs != [] {
      SortBySorted(xs[1..], key);
      InsertSorted(xs[0], SortBy(xs[1..], key), key);
    }
  }

  /** Inserting x puts it ahead of every element with the same key. */
  lemma {:induction false} InsertHaving<T>(x: T, xs: seq<T>, key: T -> int, v: int)
    ensures Having(InsertBy(x, xs, key), key, v)
         == if key(x) == v then [x] + Having(xs, key, v) else Having(xs, key, v)
  {
    if xs == [] || key(x) <= key(xs[0]) {
      assert ([x] + xs)[1..] == xs;
    } else {
      InsertHaving(x, xs[1..], key, v);
      assert ([xs[0]] + InsertBy(x, xs[1..], key))[1..] == InsertBy(x, xs[1..], key);
    }
  }

  /** The sort is stable: the elements with any one key keep their order. */
  lemma {:induction false} SortByStable<T>(xs: seq<T>, key: T -> int, v: int)
    ensures Having(SortBy(xs, key), key, v) == Having(xs, key, v)
  {
    if xs != [] {
      SortByStable(xs[1..], key, v);
      InsertHaving(xs[0], SortBy(xs[1..], key), key, v);
    }
  }
}
