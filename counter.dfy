/** The selection generator of the engine: a binary counter over a boolean
    vector of length n that yields every vector except all-false and all-true,
    least significant position first. */
module Counter {

  function Pow2(n: nat): (r: nat)
    ensures r >= 1
  {
    if n == 0 then 1 else 2 * Pow2(n - 1)
  }

  /** A vector that is neither all-false nor all-true: both sides of the
      partition it drives are non-empty. */
  predicate Proper(s: seq<bool>)
  {
    true in s && false in s
  }

  /** The n low bits of k, least significant bit at index 0. */
  function Bits(k: nat, n: nat): (r: seq<bool>)
    ensures |r| == n
  {
    if n == 0 then [] else [k % 2 == 1] + Bits(k / 2, n - 1)
  }

  /** The number a vector encodes, index 0 least significant. */
  function Value(b: seq<bool>): nat
  {
    if b == [] then 0 else (if b[0] then 1 else 0) + 2 * Value(b[1..])
  }

  lemma {:induction false} ValueBound(b: seq<bool>)
    ensures Value(b) < Pow2(|b|)
  {
    if b != [] {
      ValueBound(b[1..]);
    }
  }

  lemma {:induction false} ValueOfBits(k: nat, n: nat)
    requires k < Pow2(n)
    ensures Value(Bits(k, n)) == k
  {
    if n > 0 {
      ValueOfBits(k / 2, n - 1);
      assert Bits(k, n)[1..] == Bits(k / 2, n - 1);
    }
  }

  lemma {:induction false} BitsOfValue(b: seq<bool>)
    ensures Bits(Value(b), |b|) == b
  {
    if b != [] {
      BitsOfValue(b[1..]);
      var w := Value(b[1..]);
      var d := if b[0] then 1 else 0;
      assert Value(b) == d + 2 * w;
      HalfOf(w, d);
      assert b == [b[0]] + b[1..];
    }
  }

  lemma HalfOf(w: nat, d: nat)
    requires d < 2
    ensures (d + 2 * w) % 2 == d && (d + 2 * w) / 2 == w
  {
  }

  /** Flipping one position changes the encoded number by that position's weight. */
  lemma {:induction false} ValueUpdate(b: seq<bool>, j: nat, x: bool)
    requires j < |b|
    ensures Value(b[j := x]) == Value(b) - (if b[j] then Pow2(j) else 0) + (if x then Pow2(j) else 0)
  {
    if j == 0 {
      assert b[j := x][1..] == b[1..];
    } else {
      ValueUpdate(b[1..], j - 1, x);
      assert b[j := x][1..] == b[1..][j - 1 := x];
    }
  }

  lemma {:induction false} ValueZero(b: seq<bool>)
    ensures Value(b) == 0 <==> true !in b
  {
    if b != [] {
      ValueZero(b[1..]);
      assert b == [b[0]] + b[1..];
    }
  }

  lemma {:induction false} ValueFull(b: seq<bool>)
    ensures Value(b) == Pow2(|b|) - 1 <==> false !in b
  {
    if b != [] {
      ValueFull(b[1..]);
      ValueBound(b[1..]);
      assert b == [b[0]] + b[1..];
    }
  }

  /** The number of vectors the generator yields: 2^n - 2, and none for n = 0. */
  function SelectionCount(n: nat): nat
  {
    if n == 0 then 0 else Pow2(n) - 2
  }

  lemma {:induction false} SelectionProper(n: nat, k: nat)
    requires k < SelectionCount(n)
    ensures Proper(Bits(k + 1, n))
  {
    ValueOfBits(k + 1, n);
    ValueZero(Bits(k + 1, n));
    ValueFull(Bits(k + 1, n));
  }

  /** The vectors the generator yields, in order: the k-th (from 0) is k + 1
      in binary. Each has length n and is neither all-false nor all-true. */
  function SelectionVectors(n: nat): (r: seq<seq<bool>>)
    ensures |r| == SelectionCount(n)
    ensures forall k :: 0 <= k < |r| ==> |r[k]| == n && Proper(r[k])
  {
    var r := seq(SelectionCount(n), k requires 0 <= k < SelectionCount(n) => Bits(k + 1, n));
    assert forall k :: 0 <= k < |r| ==> Proper(r[k]) by {
      forall k | 0 <= k < |r| ensures Proper(r[k]) {
        SelectionProper(n, k);
      }
    }
    r
  }

  /** The k-th vector encodes k + 1: the counter starts from all-false and
      adds one per yield. */
  lemma SelectionValue(n: nat, k: nat)
    requires k < SelectionCount(n)
    ensures Value(SelectionVectors(n)[k]) == k + 1
  {
    ValueOfBits(k + 1, n);
  }

  /** No vector is yielded twice. */
  lemma SelectionsDistinct(n: nat, i: nat, j: nat)
    requires i < j < SelectionCount(n)
    ensures SelectionVectors(n)[i] != SelectionVectors(n)[j]
  {
    SelectionValue(n, i);
    SelectionValue(n, j);
  }

  /** Every vector that is neither all-false nor all-true is yielded. */
  lemma SelectionsComplete(s: seq<bool>)
    requires Proper(s)
    ensures s in SelectionVectors(|s|)
  {
    var v := Value(s);
    ValueZero(s);
    ValueFull(s);
    ValueBound(s);
    BitsOfValue(s);
    assert SelectionVectors(|s|)[v - 1] == s;
  }

  /** The generator: flips the entries of one array in place, as a binary
      increment whose carry loop never runs off the end, and records a
      snapshot of the array after each increment. */
  method Selections(n: nat) returns (out: seq<seq<bool>>)
    ensures out == SelectionVectors(n)
  {
    var fs := new bool[n](_ => false);
    ValueZero(fs[..]);
    var max := Pow2(n) - 2;
    var i := 0;
    out := [];
    while i < max
      invariant 0 <= i && (max >= 0 ==> i <= max)
      invariant Value(fs[..]) == i
      invariant |out| == i
      invariant forall k :: 0 <= k < i ==> out[k] == Bits(k + 1, n)
    {
      var carry := true;
      var j := 0;
      while carry
        invariant 0 <= j <= n
        invariant Value(fs[..]) + (if carry then Pow2(j) else 0) == i + 1
        decreases n - j
      {
        ghost var before := fs[..];
        carry := fs[j];
        fs[j] := !fs[j];
        ValueUpdate(before, j, !before[j]);
        assert fs[..] == before[j := !before[j]];
        j := j + 1;
      }
      BitsOfValue(fs[..]);
      out := out + [fs[..]];
      i := i + 1;
    }
    assert |out| == SelectionCount(n);
  }
}
