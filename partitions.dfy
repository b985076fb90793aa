/** Splitting a list of numbers by a boolean vector into the elements at
    `true` positions and those at `false` positions, both in their original
    order. */
module Partitions {

  function CountTrue(sel: seq<bool>): (c: nat)
    ensures c <= |sel|
    ensures c == 0 <==> true !in sel
    ensures c == |sel| <==> false !in sel
  {
    if sel == [] then 0
    else
      assert sel == sel[..|sel| - 1] + [sel[|sel| - 1]];
      CountTrue(sel[..|sel| - 1]) + (if sel[|sel| - 1] then 1 else 0)
  }

  /** The pair (ls, rs) of the partition: ls holds the elements at true
      positions, rs those at false positions. */
  function Split(xs: seq<int>, sel: seq<bool>): (r: (seq<int>, seq<int>))
    requires |xs| == |sel|
    ensures |r.0| == CountTrue(sel) && |r.1| == |sel| - CountTrue(sel)
    ensures r.0 == [] <==> true !in sel
    ensures r.1 == [] <==> false !in sel
  {
    if sel == [] then ([], [])
    else
      var n := |xs| - 1;
      var p := Split(xs[..n], sel[..n]);
      if sel[n] then (p.0 + [xs[n]], p.1) else (p.0, p.1 + [xs[n]])
  }

  /** No element is lost or invented: the two sides together are the input. */
  lemma {:induction false} SplitMultiset(xs: seq<int>, sel: seq<bool>)
    requires |xs| == |sel|
    ensures multiset(Split(xs, sel).0) + multiset(Split(xs, sel).1) == multiset(xs)
  {
    if sel != [] {
      var n := |xs| - 1;
      var p := Split(xs[..n], sel[..n]);
      var q := Split(xs, sel);
      var e := multiset{xs[n]};
      assert multiset(p.0) + multiset(p.1) == multiset(xs[..n]) by {
        SplitMultiset(xs[..n], sel[..n]);
      }
      assert multiset(q.0) + multiset(q.1) == multiset(p.0) + multiset(p.1) + e by {
        SplitLastMultiset(xs, sel);
      }
      assert multiset(xs) == multiset(xs[..n]) + e by {
        assert xs == xs[..n] + [xs[n]];
      }
    }
  }

  /** The last element goes to exactly one side. */
  lemma SplitLastMultiset(xs: seq<int>, sel: seq<bool>)
    requires |xs| == |sel| && sel != []
    ensures multiset(Split(xs, sel).0) + multiset(Split(xs, sel).1)
         == multiset(Split(xs[..|xs| - 1], sel[..|xs| - 1]).0) + multiset(Split(xs[..|xs| - 1], sel[..|xs| - 1]).1)
          + multiset{xs[|xs| - 1]}
  {
    var n := |xs| - 1;
    var p := Split(xs[..n], sel[..n]);
    var q := Split(xs, sel);
    if sel[n] {
      assert q.1 == p.1;
      assert multiset(q.0) == multiset(p.0) + multiset{xs[n]} by {
        assert q.0 == p.0 + [xs[n]];
      }
    } else {
      assert q.0 == p.0;
      assert multiset(q.1) == multiset(p.1) + multiset{xs[n]} by {
        assert q.1 == p.1 + [xs[n]];
      }
    }
  }

  /** Puts the two sides back together, taking from ls at true positions and
      from rs at false positions. */
  function Merge(ls: seq<int>, rs: seq<int>, sel: seq<bool>): (r: seq<int>)
    requires |ls| == CountTrue(sel) && |rs| == |sel| - CountTrue(sel)
    ensures |r| == |sel|
  {
    if sel == [] then []
    else
      var n := |sel| - 1;
      if sel[n] then Merge(ls[..|ls| - 1], rs, sel[..n]) + [ls[|ls| - 1]]
      else Merge(ls, rs[..|rs| - 1], sel[..n]) + [rs[|rs| - 1]]
  }

  /** Split of a list extended by one element. */
  lemma SplitSnoc(xs: seq<int>, sel: seq<bool>, x: int, b: bool)
    requires |xs| == |sel|
    ensures Split(xs + [x], sel + [b])
         == if b then (Split(xs, sel).0 + [x], Split(xs, sel).1) else (Split(xs, sel).0, Split(xs, sel).1 + [x])
  {
    assert (xs + [x])[..|xs|] == xs;
    assert (sel + [b])[..|sel|] == sel;
  }

  /** Merging the two sides of a split gives back the input. */
  lemma {:induction false} MergeSplit(xs: seq<int>, sel: seq<bool>)
    requires |xs| == |sel|
    ensures Merge(Split(xs, sel).0, Split(xs, sel).1, sel) == xs
  {
    if sel != [] {
      var n := |sel| - 1;
      assert xs == xs[..n] + [xs[n]];
      assert sel == sel[..n] + [sel[n]];
      MergeSplit(xs[..n], sel[..n]);
      SplitSnoc(xs[..n], sel[..n], xs[n], sel[n]);
      var p := Split(xs[..n], sel[..n]);
      var q := Split(xs, sel);
      if sel[n] {
        assert q.0[..|q.0| - 1] == p.0;
      } else {
        assert q.1[..|q.1| - 1] == p.1;
      }
    }
  }

  /** Splitting a merge gives back the two sides. */
  lemma {:induction false} SplitMerge(ls: seq<int>, rs: seq<int>, sel: seq<bool>)
    requires |ls| == CountTrue(sel) && |rs| == |sel| - CountTrue(sel)
    ensures Split(Merge(ls, rs, sel), sel) == (ls, rs)
  {
    if sel != [] {
      var n := |sel| - 1;
      var pre := sel[..n];
      assert sel == pre + [sel[n]];
      assert CountTrue(sel) == CountTrue(pre) + (if sel[n] then 1 else 0);
      if sel[n] {
        var ls', x := ls[..|ls| - 1], ls[|ls| - 1];
        assert ls == ls' + [x];
        var m' := Merge(ls', rs, pre);
        assert Merge(ls, rs, sel) == m' + [x];
        SplitMerge(ls', rs, pre);
        SplitSnoc(m', pre, x, true);
      } else {
        var rs', x := rs[..|rs| - 1], rs[|rs| - 1];
        assert rs == rs' + [x];
        var m' := Merge(ls, rs', pre);
        assert Merge(ls, rs, sel) == m' + [x];
        SplitMerge(ls, rs', pre);
        SplitSnoc(m', pre, x, false);
      }
    }
  }

  /** Position by position: the element at a true position i is element
      CountTrue(sel[..i]) of ls, the number of true positions before it. */
  lemma {:induction false} SplitAtTrue(xs: seq<int>, sel: seq<bool>, i: nat)
    requires |xs| == |sel| && i < |sel| && sel[i]
    ensures CountTrue(sel[..i]) < |Split(xs, sel).0| && Split(xs, sel).0[CountTrue(sel[..i])] == xs[i]
  {
    var n := |sel| - 1;
    var p := Split(xs[..n], sel[..n]);
    var q := Split(xs, sel);
    assert q == if sel[n] then (p.0 + [xs[n]], p.1) else (p.0, p.1 + [xs[n]]);
    var c := CountTrue(sel[..i]);
    if i < n {
      assert sel[..n][..i] == sel[..i];
      SplitAtTrue(xs[..n], sel[..n], i);
      assert c < |p.0| && p.0[c] == xs[i];
      assert q.0[c] == p.0[c];
    } else {
      assert c == CountTrue(sel[..n]) by {
        assert sel[..i] == sel[..n];
      }
      assert |p.0| == c;
    }
  }

  /** The element at a false position i is element i - CountTrue(sel[..i])
      of rs, the number of false positions before it. */
  lemma {:induction false} SplitAtFalse(xs: seq<int>, sel: seq<bool>, i: nat)
    requires |xs| == |sel| && i < |sel| && !sel[i]
    ensures i - CountTrue(sel[..i]) < |Split(xs, sel).1| && Split(xs, sel).1[i - CountTrue(sel[..i])] == xs[i]
  {
    var n := |sel| - 1;
    var p := Split(xs[..n], sel[..n]);
    var q := Split(xs, sel);
    assert q == if sel[n] then (p.0 + [xs[n]], p.1) else (p.0, p.1 + [xs[n]]);
    var c := CountTrue(sel[..i]);
    if i < n {
      var xp, sp := xs[..n], sel[..n];
      assert CountTrue(sp[..i]) == c by {
        assert sp[..i] == sel[..i];
      }
      assert xp[i] == xs[i];
      SplitAtFalse(xp, sp, i);
      var d := i - c;
      assert d < |p.1| && p.1[d] == xs[i];
      assert q.1[d] == p.1[d];
    } else {
      assert c == CountTrue(sel[..n]) by {
        assert sel[..i] == sel[..n];
      }
      assert |p.1| == n - c;
    }
  }

  /** When every position is selected, ls is the whole input. */
  lemma {:induction false} SplitAllTrue(xs: seq<int>, sel: seq<bool>)
    requires |xs| == |sel| && false !in sel
    ensures Split(xs, sel).0 == xs
  {
    if sel != [] {
      var n := |sel| - 1;
      SplitAllTrue(xs[..n], sel[..n]);
      assert xs == xs[..n] + [xs[n]];
    }
  }

  /** A selection that sends the sub-multiset a of xs to ls: scanning from
      the back, an element goes to ls while a still holds a copy of it. */
  function SelectionFor(xs: seq<int>, a: multiset<int>): (sel: seq<bool>)
    ensures |sel| == |xs|
  {
    if xs == [] then []
    else
      var n := |xs| - 1;
      if xs[n] in a then SelectionFor(xs[..n], a - multiset{xs[n]}) + [true]
      else SelectionFor(xs[..n], a) + [false]
  }

  /** What remains of a for the rest of xs once its last element is decided. */
  function Remaining(xs: seq<int>, a: multiset<int>): multiset<int>
    requires xs != []
  {
    var x := xs[|xs| - 1];
    if x in a then a - multiset{x} else a
  }

  lemma RemainingBound(xs: seq<int>, a: multiset<int>)
    requires xs != [] && a <= multiset(xs)
    ensures Remaining(xs, a) <= multiset(xs[..|xs| - 1])
    ensures Remaining(xs, a) + (if xs[|xs| - 1] in a then multiset{xs[|xs| - 1]} else multiset{}) == a
  {
    var n, x := |xs| - 1, xs[|xs| - 1];
    var b := multiset(xs[..n]);
    assert multiset(xs) == b + multiset{x} by {
      assert xs == xs[..n] + [x];
    }
    if x in a {
      forall y ensures (a - multiset{x})[y] <= b[y] {
        assert a[y] <= multiset(xs)[y];
      }
      assert (a - multiset{x}) + multiset{x} == a;
    } else {
      forall y ensures a[y] <= b[y] {
        assert a[y] <= multiset(xs)[y];
      }
      assert a + multiset{} == a;
    }
  }

  lemma SplitSelectionForLast(xs: seq<int>, a: multiset<int>)
    requires xs != []
    ensures var n := |xs| - 1;
      Split(xs, SelectionFor(xs, a)).0
      == Split(xs[..n], SelectionFor(xs[..n], Remaining(xs, a))).0 + (if xs[n] in a then [xs[n]] else [])
  {
    var n, x := |xs| - 1, xs[|xs| - 1];
    var sel' := SelectionFor(xs[..n], Remaining(xs, a));
    assert xs[..n] + [x] == xs;
    SplitSnoc(xs[..n], sel', x, x in a);
  }

  /** Every sub-multiset of xs is what some selection sends to ls. */
  lemma {:induction false} SplitSelectionFor(xs: seq<int>, a: multiset<int>)
    requires a <= multiset(xs)
    ensures multiset(Split(xs, SelectionFor(xs, a)).0) == a
  {
    if xs != [] {
      var n := |xs| - 1;
      RemainingBound(xs, a);
      SplitSelectionFor(xs[..n], Remaining(xs, a));
      SplitSelectionForLast(xs, a);
    }
  }

  /** One more position of the input extends one side of the split. */
  lemma SplitPrefixNext(xs: seq<int>, sel: seq<bool>, i: nat)
    requires |xs| == |sel| && i < |xs|
    ensures var p := Split(xs[..i], sel[..i]);
      Split(xs[..i + 1], sel[..i + 1]) == if sel[i] then (p.0 + [xs[i]], p.1) else (p.0, p.1 + [xs[i]])
  {
    assert xs[..i + 1] == xs[..i] + [xs[i]];
    assert sel[..i + 1] == sel[..i] + [sel[i]];
    SplitSnoc(xs[..i], sel[..i], xs[i], sel[i]);
  }

  /** The partition method: pushes each element onto ls or rs in one pass. */
  method Partition(xs: seq<int>, selection: seq<bool>) returns (ls: seq<int>, rs: seq<int>)
    requires |xs| == |selection|
    ensures (ls, rs) == Split(xs, selection)
  {
    ls, rs := [], [];
    for i := 0 to |selection|
      invariant (ls, rs) == Split(xs[..i], selection[..i])
    {
      SplitPrefixNext(xs, selection, i);
      if selection[i] {
        ls := ls + [xs[i]];
      } else {
        rs := rs + [xs[i]];
      }
    }
    assert xs[..|selection|] == xs;
    assert selection[..|selection|] == selection;
  }
}
