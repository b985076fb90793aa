/** The top-level enumeration: the numbers are sorted ascending, the subset
    taken by every selection vector is recorded once in an insertion-ordered
    map keyed by its contents, the whole sorted list is recorded last, the
    recorded subsets are sorted by length, and the terms of each subset are
    produced in that order. */
module Calculation {
  import opened Counter
  import opened Partitions
  import opened Expressions
  import opened Enumeration
  import opened Sorting

  /** The key of the ascending numeric sort. */
  function Identity(x: int): int
  {
    x
  }

  /** The key of the sort of subsets, shortest first. */
  function Size(s: seq<int>): int
  {
    |s|
  }

  /** Setting key s in an insertion-ordered map whose keys are m: a new key
      goes last, an existing one keeps its place. */
  function Record(m: seq<seq<int>>, s: seq<int>): (r: seq<seq<int>>)
    ensures s in r && |m| <= |r| <= |m| + 1
  {
    if s in m then m else m + [s]
  }

  /** After recording s, the keys are those before and s, each key at most
      once if it was so before. */
  lemma RecordKeys(m: seq<seq<int>>, s: seq<int>)
    ensures forall y :: y in Record(m, s) <==> y in m || y == s
    ensures forall y :: multiset(m)[y] <= 1 ==> multiset(Record(m, s))[y] <= 1
  {
  }

  /** The keys recorded after the subsets ls of the selections sels, in order. */
  function Recorded(ns: seq<int>, sels: seq<seq<bool>>): seq<seq<int>>
    requires forall k :: 0 <= k < |sels| ==> |sels[k]| == |ns|
  {
    if sels == [] then []
    else
      var n := |sels| - 1;
      Record(Recorded(ns, sels[..n]), Split(ns, sels[n]).0)
  }

  /** The subsets in the order their terms are produced. */
  function CalculationSubsets(numbers: seq<int>): (subs: seq<seq<int>>)
    ensures SortedBy(subs, Size)
  {
    var keys := Keys(SortBy(numbers, Identity));
    SortBySorted(keys, Size);
    SortBy(keys, Size)
  }

  /** The terms of each subset of subs, one subset after another. */
  function TermsOfEach(subs: seq<seq<int>>): (ts: seq<Term>)
    ensures forall t :: t in ts <==> exists k :: 0 <= k < |subs| && t in Terms(subs[k])
  {
    if subs == [] then []
    else
      var n := |subs| - 1;
      var prev := TermsOfEach(subs[..n]);
      MemberSnoc(subs[..n], subs[n], prev);
      assert subs[..n] + [subs[n]] == subs;
      prev + Terms(subs[n])
  }

  /** Appending the terms of s to those of the subsets pre gives the terms
      of pre + [s]. */
  lemma MemberSnoc(pre: seq<seq<int>>, s: seq<int>, prev: seq<Term>)
    requires forall t :: t in prev <==> exists k :: 0 <= k < |pre| && t in Terms(pre[k])
    ensures forall t :: t in prev + Terms(s) <==> exists k :: 0 <= k < |pre| + 1 && t in Terms((pre + [s])[k])
  {
    var subs := pre + [s];
    forall t | t in prev + Terms(s)
      ensures exists k :: 0 <= k < |subs| && t in Terms(subs[k])
    {
      if t in Terms(s) {
        assert subs[|pre|] == s;
      } else {
        var k :| 0 <= k < |pre| && t in Terms(pre[k]);
        assert subs[k] == pre[k];
      }
    }
    forall t, k | 0 <= k < |subs| && t in Terms(subs[k])
      ensures t in prev + Terms(s)
    {
      if k < |pre| {
        assert subs[k] == pre[k];
      } else {
        assert subs[k] == s;
      }
    }
  }

  lemma RecordedNext(ns: seq<int>, sels: seq<seq<bool>>, i: nat)
    requires forall k :: 0 <= k < |sels| ==> |sels[k]| == |ns|
    requires i < |sels|
    ensures Recorded(ns, sels[..i + 1]) == Record(Recorded(ns, sels[..i]), Split(ns, sels[i]).0)
  {
    assert sels[..i + 1][..i] == sels[..i];
  }

  lemma TermsOfEachNext(subs: seq<seq<int>>, i: nat)
    requires i < |subs|
    ensures TermsOfEach(subs[..i + 1]) == TermsOfEach(subs[..i]) + Terms(subs[i])
  {
    assert subs[..i + 1][..i] == subs[..i];
  }

  /** The map of subsets: the subset of every selection recorded once, in
      first-seen order, then the whole sorted list. */
  method DistinctSubsets(sorted: seq<int>) returns (subsets: seq<seq<int>>)
    ensures subsets == Keys(sorted)
  {
    subsets := [];
    var sels := Selections(|sorted|);
    for i := 0 to |sels|
      invariant subsets == Recorded(sorted, sels[..i])
    {
      RecordedNext(sorted, sels, i);
      var ls, _ := Partition(sorted, sels[i]);
      if ls !in subsets {
        subsets := subsets + [ls];
      }
    }
    assert sels[..|sels|] == sels;
    if sorted !in subsets {
      subsets := subsets + [sorted];
    }
  }

  /** The calculations method: the numbers sorted, their distinct subsets
      sorted by length and the terms of each produced one subset after
      another. */
  method Calculations(numbers: seq<int>) returns (calcs: seq<Term>)
    ensures calcs == TermsOfEach(CalculationSubsets(numbers))
  {
    var sorted := SortBy(numbers, Identity);
    var subsets := DistinctSubsets(sorted);
    var bySize := SortBy(subsets, Size);
    calcs := [];
    for i := 0 to |bySize|
      invariant calcs == TermsOfEach(bySize[..i])
    {
      TermsOfEachNext(bySize, i);
      calcs := calcs + Terms(bySize[i]);
    }
    assert bySize[..|bySize|] == bySize;
  }

  // ---------------------------------------------------------------------
  // Which subsets are visited.

  /** m is a sub-multiset of xs written in ascending order, the form in which
      the engine meets every subset. */
  ghost predicate SubBag(m: seq<int>, xs: seq<int>)
  {
    Ascending(m) && multiset(m) <= multiset(xs)
  }

  /** The subset a selection takes from an ascending list is ascending. */
  lemma {:induction false} SplitAscending(xs: seq<int>, sel: seq<bool>)
    requires |xs| == |sel| && Ascending(xs)
    ensures Ascending(Split(xs, sel).0)
  {
    if sel != [] {
      var n := |sel| - 1;
      var p := Split(xs[..n], sel[..n]);
      assert Ascending(xs[..n]);
      SplitAscending(xs[..n], sel[..n]);
      if sel[n] {
        assert forall k :: 0 <= k < n ==> xs[..n][k] <= xs[n];
        SplitBounded(xs[..n], sel[..n], xs[n]);
        AscendingSnoc(p.0, xs[n]);
        assert Split(xs, sel).0 == p.0 + [xs[n]];
      } else {
        assert Split(xs, sel).0 == p.0;
      }
    }
  }

  /** A bound of every element bounds the subset a selection takes. */
  lemma SplitBounded(xs: seq<int>, sel: seq<bool>, x: int)
    requires |xs| == |sel| && forall k :: 0 <= k < |xs| ==> xs[k] <= x
    ensures forall y :: y in Split(xs, sel).0 ==> y <= x
  {
    SplitMultiset(xs, sel);
    forall y | y in Split(xs, sel).0 ensures y <= x {
      assert y in multiset(xs);
    }
  }

  /** An ascending list stays ascending when a bound of all its elements is appended. */
  lemma AscendingSnoc(a: seq<int>, x: int)
    requires Ascending(a) && forall y :: y in a ==> y <= x
    ensures Ascending(a + [x])
  {
    forall i, j | 0 <= i < j < |a| + 1 ensures (a + [x])[i] <= (a + [x])[j] {
      if j == |a| {
        assert a[i] in a;
      }
    }
  }

  /** Two ascending lists with the same elements are the same list. */
  lemma {:induction false} AscendingUnique(a: seq<int>, b: seq<int>)
    requires Ascending(a) && Ascending(b) && multiset(a) == multiset(b)
    ensures a == b
    decreases |a|
  {
    assert |a| == |multiset(a)| == |multiset(b)| == |b|;
    if a != [] {
      var n := |a| - 1;
      AscendingLast(a, b);
      DropLastMultiset(a, b);
      AscendingUnique(a[..n], b[..n]);
      assert a == a[..n] + [a[n]] && b == b[..n] + [b[n]];
    }
  }

  /** The largest element ends both. */
  lemma AscendingLast(a: seq<int>, b: seq<int>)
    requires Ascending(a) && Ascending(b) && multiset(a) == multiset(b) && a != [] && |a| == |b|
    ensures a[|a| - 1] == b[|b| - 1]
  {
    assert a[|a| - 1] in multiset(b) && b[|b| - 1] in multiset(a);
  }

  /** Equal lists of elements with equal last elements stay equal without them. */
  lemma DropLastMultiset(a: seq<int>, b: seq<int>)
    requires a != [] && b != [] && multiset(a) == multiset(b) && a[|a| - 1] == b[|b| - 1]
    ensures multiset(a[..|a| - 1]) == multiset(b[..|b| - 1])
  {
    var a', b', x := a[..|a| - 1], b[..|b| - 1], a[|a| - 1];
    assert multiset(a) == multiset(a') + multiset{x} by {
      assert a == a' + [x];
    }
    assert multiset(b) == multiset(b') + multiset{x} by {
      assert b == b' + [x];
    }
    forall y ensures multiset(a')[y] == multiset(b')[y] {
      assert (multiset(a') + multiset{x})[y] == (multiset(b') + multiset{x})[y];
    }
  }

  /** Every ascending sub-multiset of an ascending list is the subset taken
      by the selection of its elements. */
  lemma SubsetTaken(xs: seq<int>, m: seq<int>)
    requires Ascending(xs) && SubBag(m, xs)
    ensures Split(xs, SelectionFor(xs, multiset(m))).0 == m
  {
    var sel := SelectionFor(xs, multiset(m));
    SplitSelectionFor(xs, multiset(m));
    SplitAscending(xs, sel);
    AscendingUnique(Split(xs, sel).0, m);
  }

  /** The recorded keys: each a non-empty ascending sub-multiset, none twice,
      and the subset of every selection among them. */
  lemma RecordedKeys(ns: seq<int>, sels: seq<seq<bool>>)
    requires Ascending(ns)
    requires forall k :: 0 <= k < |sels| ==> |sels[k]| == |ns| && Proper(sels[k])
    ensures forall y :: y in Recorded(ns, sels) ==> SubBag(y, ns) && y != []
    ensures forall y :: multiset(Recorded(ns, sels))[y] <= 1
    ensures forall k :: 0 <= k < |sels| ==> Split(ns, sels[k]).0 in Recorded(ns, sels)
  {
    RecordedBags(ns, sels);
    RecordedOnce(ns, sels);
    RecordedHas(ns, sels);
  }

  lemma {:induction false} RecordedBags(ns: seq<int>, sels: seq<seq<bool>>)
    requires Ascending(ns)
    requires forall k :: 0 <= k < |sels| ==> |sels[k]| == |ns| && Proper(sels[k])
    ensures forall y :: y in Recorded(ns, sels) ==> SubBag(y, ns) && y != []
  {
    if sels != [] {
      var n := |sels| - 1;
      var prev, s := Recorded(ns, sels[..n]), Split(ns, sels[n]).0;
      assert Recorded(ns, sels) == Record(prev, s);
      RecordedBags(ns, sels[..n]);
      RecordKeys(prev, s);
      assert SubBag(s, ns) && s != [] by {
        assert Proper(sels[n]);
        SplitAscending(ns, sels[n]);
        SplitMultiset(ns, sels[n]);
      }
    }
  }

  lemma {:induction false} RecordedOnce(ns: seq<int>, sels: seq<seq<bool>>)
    requires forall k :: 0 <= k < |sels| ==> |sels[k]| == |ns|
    ensures forall y :: multiset(Recorded(ns, sels))[y] <= 1
  {
    if sels != [] {
      var n := |sels| - 1;
      RecordedOnce(ns, sels[..n]);
      RecordKeys(Recorded(ns, sels[..n]), Split(ns, sels[n]).0);
    }
  }

  lemma {:induction false} RecordedHas(ns: seq<int>, sels: seq<seq<bool>>)
    requires forall k :: 0 <= k < |sels| ==> |sels[k]| == |ns|
    ensures forall k :: 0 <= k < |sels| ==> Split(ns, sels[k]).0 in Recorded(ns, sels)
  {
    if sels != [] {
      var n := |sels| - 1;
      var prev, s := Recorded(ns, sels[..n]), Split(ns, sels[n]).0;
      assert Recorded(ns, sels) == Record(prev, s);
      RecordedHas(ns, sels[..n]);
      RecordKeys(prev, s);
      forall k | 0 <= k < |sels| ensures Split(ns, sels[k]).0 in Record(prev, s) {
        if k < n {
          assert sels[..n][k] == sels[k];
        }
      }
    }
  }

  /** The keys of the map once the whole sorted list is recorded. */
  function Keys(sorted: seq<int>): seq<seq<int>>
  {
    Record(Recorded(sorted, SelectionVectors(|sorted|)), sorted)
  }

  /** Every non-empty ascending sub-multiset of the sorted numbers is a key. */
  lemma KeyFound(sorted: seq<int>, m: seq<int>)
    requires Ascending(sorted) && SubBag(m, sorted) && m != []
    ensures m in Keys(sorted)
  {
    var sels := SelectionVectors(|sorted|);
    SubsetTaken(sorted, m);
    var sel := SelectionFor(sorted, multiset(m));
    if false in sel {
      SelectionsComplete(sel);
      var k :| 0 <= k < |sels| && sels[k] == sel;
      RecordedKeys(sorted, sels);
      assert m in Recorded(sorted, sels);
    } else {
      SplitAllTrue(sorted, sel);
    }
    RecordKeys(Recorded(sorted, sels), sorted);
  }

  /** The keys are the non-empty ascending sub-multisets of the sorted
      numbers, each once, and the empty list only when there are no numbers. */
  lemma KeysVisit(sorted: seq<int>)
    requires Ascending(sorted)
    ensures forall s :: s in Keys(sorted) ==> SubBag(s, sorted) && (s == [] ==> sorted == [])
    ensures forall m :: SubBag(m, sorted) && m != [] ==> multiset(Keys(sorted))[m] == 1
  {
    RecordedKeys(sorted, SelectionVectors(|sorted|));
    RecordKeys(Recorded(sorted, SelectionVectors(|sorted|)), sorted);
    forall m | SubBag(m, sorted) && m != [] ensures multiset(Keys(sorted))[m] == 1 {
      KeyFound(sorted, m);
    }
  }

  /** Every subset produced is an ascending sub-multiset of the numbers, empty
      only when the numbers are; every non-empty ascending sub-multiset is
      produced exactly once; and shorter subsets come first. */
  lemma CalculationSubsetsVisit(numbers: seq<int>)
    ensures SortedBy(CalculationSubsets(numbers), Size)
    ensures forall s :: s in CalculationSubsets(numbers) ==> SubBag(s, numbers) && (s == [] ==> numbers == [])
    ensures forall m :: SubBag(m, numbers) && m != [] ==> multiset(CalculationSubsets(numbers))[m] == 1
  {
    var sorted := SortBy(numbers, Identity);
    assert Ascending(sorted) by {
      SortBySorted(numbers, Identity);
    }
    var keys := Keys(sorted);
    var subs := SortBy(keys, Size);
    assert CalculationSubsets(numbers) == subs;
    SortBySorted(keys, Size);
    assert multiset(sorted) == multiset(numbers) && |sorted| == |numbers|;
    forall s | s in subs ensures SubBag(s, numbers) && (s == [] ==> numbers == []) {
      assert s in multiset(keys);
      assert s in keys;
      KeysVisit(sorted);
      assert SubBag(s, sorted) && (s == [] ==> sorted == []);
      assert multiset(s) <= multiset(numbers);
    }
    assert forall m :: SubBag(m, numbers) && m != [] ==> multiset(subs)[m] == 1 by {
      KeysVisit(sorted);
    }
  }

  // ---------------------------------------------------------------------
  // What is produced.

  /** Every term produced for subsets that are sub-multisets of b is well
      formed, uses a sub-multiset of b as leaves, and is positive throughout
      when b is. */
  lemma {:induction false} TermsOfEachSound(subs: seq<seq<int>>, b: multiset<int>)
    requires forall s :: s in subs ==> multiset(s) <= b
    ensures forall t :: t in TermsOfEach(subs) ==>
      Wf(t) && multiset(Leaves(t)) <= b && (AllPositive(b) ==> Positive(t))
  {
    if subs != [] {
      var n := |subs| - 1;
      TermsOfEachSound(subs[..n], b);
      var s := subs[n];
      TermsSound(s);
      assert multiset(s) <= b;
    }
  }

  /** The terms of every listed subset are among those produced. */
  lemma {:induction false} TermsOfEachComplete(subs: seq<seq<int>>, s: seq<int>)
    requires s in subs
    ensures forall t :: t in Terms(s) ==> t in TermsOfEach(subs)
  {
    var n := |subs| - 1;
    if s != subs[n] {
      TermsOfEachComplete(subs[..n], s);
    }
  }

  /** Every calculation is well formed, its leaves are drawn from the
      numbers with no number used more often than given, and with positive
      numbers every value in it is positive. */
  lemma CalculationsSound(numbers: seq<int>)
    ensures forall t :: t in TermsOfEach(CalculationSubsets(numbers)) ==>
      Wf(t) && multiset(Leaves(t)) <= multiset(numbers) &&
      ((forall i :: 0 <= i < |numbers| ==> numbers[i] > 0) ==> Positive(t))
  {
    CalculationSubsetsVisit(numbers);
    TermsOfEachSound(CalculationSubsets(numbers), multiset(numbers));
    if forall i :: 0 <= i < |numbers| ==> numbers[i] > 0 {
      assert AllPositive(multiset(numbers));
    }
  }

  /** Every term over any non-empty ascending sub-multiset of the numbers is
      a calculation. */
  lemma CalculationsComplete(numbers: seq<int>, m: seq<int>)
    requires SubBag(m, numbers) && m != []
    ensures forall t :: t in Terms(m) ==> t in TermsOfEach(CalculationSubsets(numbers))
  {
    CalculationSubsetsVisit(numbers);
    assert m in multiset(CalculationSubsets(numbers));
    TermsOfEachComplete(CalculationSubsets(numbers), m);
  }

  /** With positive numbers, every well-formed term whose leaves are drawn
      from the numbers, none more often than given, is a calculation. */
  lemma CalculationsExhaustive(numbers: seq<int>, t: Term)
    requires forall i :: 0 <= i < |numbers| ==> numbers[i] > 0
    requires Wf(t) && multiset(Leaves(t)) <= multiset(numbers)
    ensures t in TermsOfEach(CalculationSubsets(numbers))
  {
    var m := SortBy(Leaves(t), Identity);
    assert SubBag(m, numbers) && m != [] by {
      SortBySorted(Leaves(t), Identity);
      LeavesNonEmpty(t);
    }
    assert t in Terms(m) by {
      PositiveSide(numbers, m);
      TermsComplete(m, t);
    }
    CalculationsComplete(numbers, m);
  }

  lemma SplitsOfFiveFive()
    ensures Split([5, 5], [true, false]).0 == [5]
    ensures Split([5, 5], [false, true]).0 == [5]
  {
    SplitSnoc([], [], 5, true);
    SplitSnoc([], [], 5, false);
    assert [] + [5] == [5] && [] + [true] == [true] && [] + [false] == [false];
    SplitSnoc([5], [true], 5, false);
    SplitSnoc([5], [false], 5, true);
    assert [5] + [5] == [5, 5] && [true] + [false] == [true, false] && [false] + [true] == [false, true];
  }

  lemma KeysOfFiveFive()
    ensures Keys([5, 5]) == [[5], [5, 5]]
  {
    SelectionsOfTwo();
    SplitsOfFiveFive();
    var sels := SelectionVectors(2);
    assert sels[..1] == [[true, false]] && sels[..1][..0] == [];
    assert Recorded([5, 5], sels[..1]) == [[5]];
    assert Recorded([5, 5], sels) == [[5]];
  }

  lemma SortsOfFiveFive()
    ensures SortBy([5, 5], Identity) == [5, 5]
    ensures SortBy([[5], [5, 5]], Size) == [[5], [5, 5]]
  {
    assert SortBy([5], Identity) == [5];
    assert SortBy([[5, 5]], Size) == [[5, 5]];
  }

  /** Numbers given twice: [5, 5] visits [5] once, then [5, 5]. */
  lemma FiveFive()
    ensures CalculationSubsets([5, 5]) == [[5], [5, 5]]
  {
    SortsOfFiveFive();
    KeysOfFiveFive();
  }

  /** No numbers, no calculations. */
  lemma NoNumbers()
    ensures TermsOfEach(CalculationSubsets([])) == []
  {
    assert CalculationSubsets([]) == [[]];
    assert Terms([]) == [];
  }
}
