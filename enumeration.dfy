/** The term enumerator: every way of splitting a list of numbers into two
    non-empty order-preserving sides, every term of each side, and every
    left/right pair combined under + * - / where the pruning rules allow. */
module Enumeration {
  import opened Counter
  import opened Partitions
  import opened Expressions

  /** Addition of l and r: never with a subtraction on either side nor with
      a sum on the left; a sum on the right is flattened when l is not larger
      than its first argument, otherwise l must not exceed r. */
  function AddStep(l: Term, r: Term): (ts: seq<Term>)
    ensures |ts| <= 1
    ensures ts != [] ==> ts[0].Node? && ts[0].op == Add && |ts[0].args| >= 2 && ts[0].args[0] == l &&
                         ts[0].val == l.val + r.val
  {
    if Is(l, Add) || Is(l, Sub) || Is(r, Sub) then []
    else if Is(r, Add) then
      if r.args != [] && l.val <= r.args[0].val then [Node(Add, [l] + r.args, l.val + r.val)] else []
    else if l.val <= r.val then [Node(Add, [l, r], l.val + r.val)]
    else []
  }

  /** Multiplication of l and r: as addition, with division in place of
      subtraction, and never when either side has value 1. */
  function MulStep(l: Term, r: Term): (ts: seq<Term>)
    ensures |ts| <= 1
    ensures ts != [] ==> ts[0].Node? && ts[0].op == Mul && |ts[0].args| >= 2 && ts[0].args[0] == l &&
                         ts[0].val == l.val * r.val && l.val != 1 && r.val != 1
  {
    if Is(l, Mul) || Is(l, Div) || Is(r, Div) || l.val == 1 || r.val == 1 then []
    else if Is(r, Mul) then
      if r.args != [] && l.val <= r.args[0].val then [Node(Mul, [l] + r.args, l.val * r.val)] else []
    else if l.val <= r.val then [Node(Mul, [l, r], l.val * r.val)]
    else []
  }

  /** Subtraction of r from l: binary only, never a non-positive result and
      never l - r == r. */
  function SubStep(l: Term, r: Term): (ts: seq<Term>)
    ensures |ts| <= 1
    ensures ts != [] ==> ts[0].Node? && ts[0].op == Sub && ts[0].args == [l, r] &&
                         ts[0].val + r.val == l.val && 0 < ts[0].val != r.val
  {
    if Is(l, Sub) || Is(r, Sub) then []
    else
      var v := l.val - r.val;
      if v > 0 && v != r.val then [Node(Sub, [l, r], v)] else []
  }

  /** Division of l by r: binary only, r above 1, exact, and never l / r == r. */
  function DivStep(l: Term, r: Term): (ts: seq<Term>)
    ensures |ts| <= 1
    ensures ts != [] ==> ts[0].Node? && ts[0].op == Div && ts[0].args == [l, r] &&
                         r.val > 1 && ts[0].val * r.val == l.val && ts[0].val != r.val
  {
    if Is(l, Div) || Is(r, Div) || r.val <= 1 then []
    else if l.val % r.val == 0 && l.val / r.val != r.val then [Node(Div, [l, r], l.val / r.val)]
    else []
  }

  /** What one left/right pair yields, in the order + * - /. */
  function CombinePair(l: Term, r: Term): (ts: seq<Term>)
    ensures |ts| <= 4
  {
    AddStep(l, r) + MulStep(l, r) + SubStep(l, r) + DivStep(l, r)
  }

  /** The inner loop: l against every right term in turn. */
  function CombineRow(l: Term, rts: seq<Term>): (ts: seq<Term>)
    ensures forall t :: t in ts <==> exists j :: 0 <= j < |rts| && t in CombinePair(l, rts[j])
    ensures |ts| <= 4 * |rts|
  {
    var blocks := seq(|rts|, j requires 0 <= j < |rts| => CombinePair(l, rts[j]));
    assert forall j :: 0 <= j < |rts| ==> blocks[j] == CombinePair(l, rts[j]);
    FlattenBound(blocks, 4);
    Flatten(blocks)
  }

  /** The outer loop: every left term in turn against all right terms. */
  function Combine(lts: seq<Term>, rts: seq<Term>): (ts: seq<Term>)
    ensures forall t :: t in ts <==> exists i :: 0 <= i < |lts| && t in CombineRow(lts[i], rts)
    ensures |ts| <= 4 * |lts| * |rts|
  {
    var blocks := seq(|lts|, i requires 0 <= i < |lts| => CombineRow(lts[i], rts));
    assert forall i :: 0 <= i < |lts| ==> blocks[i] == CombineRow(lts[i], rts);
    var m := 4 * |rts|;
    FlattenBound(blocks, m);
    assert m * |lts| == 4 * |lts| * |rts| by {
      MulSwap(|lts|, |rts|);
    }
    Flatten(blocks)
  }

  /** Both sides of a split by a vector that is neither all-false nor
      all-true are non-empty and shorter than the input, so the recursion
      on them ends. */
  lemma SplitShrinks(ns: seq<int>, sel: seq<bool>)
    requires |sel| == |ns| && Proper(sel)
    ensures 0 < |Split(ns, sel).0| < |ns| && 0 < |Split(ns, sel).1| < |ns|
  {
    assert true in sel && false in sel;
  }

  /** The terms of one split: every term over the true side against every
      term over the false side. */
  function SplitTerms(ns: seq<int>, sel: seq<bool>): (ts: seq<Term>)
    requires |sel| == |ns| && Proper(sel)
    ensures |ts| <= 4 * |Terms(Split(ns, sel).0)| * |Terms(Split(ns, sel).1)|
    decreases |ns|, 0
  {
    var p := Split(ns, sel);
    SplitShrinks(ns, sel);
    Combine(Terms(p.0), Terms(p.1))
  }

  /** The blocks one after the other. */
  function Flatten(blocks: seq<seq<Term>>): (ts: seq<Term>)
    ensures forall t :: t in ts <==> exists k :: 0 <= k < |blocks| && t in blocks[k]
  {
    if blocks == [] then [] else blocks[0] + Flatten(blocks[1..])
  }

  lemma MulSwap(x: nat, y: nat)
    ensures (4 * y) * x == 4 * x * y
  {
  }

  /** Blocks of at most m terms each flatten to at most m terms per block. */
  lemma {:induction false} FlattenBound(blocks: seq<seq<Term>>, m: nat)
    requires forall k :: 0 <= k < |blocks| ==> |blocks[k]| <= m
    ensures |Flatten(blocks)| <= m * |blocks|
  {
    if blocks != [] {
      FlattenBound(blocks[1..], m);
      assert m * |blocks| == m + m * |blocks[1..]|;
    }
  }

  /** The terms of every split driven by sels, in order. */
  function TermsOver(ns: seq<int>, sels: seq<seq<bool>>): (ts: seq<Term>)
    requires forall k :: 0 <= k < |sels| ==> |sels[k]| == |ns| && Proper(sels[k])
    ensures forall t :: t in ts <==> exists k :: 0 <= k < |sels| && t in SplitTerms(ns, sels[k])
    decreases |ns|, |sels|
  {
    var blocks := seq(|sels|, k requires 0 <= k < |sels| => SplitTerms(ns, sels[k]));
    assert forall k :: 0 <= k < |sels| ==> blocks[k] == SplitTerms(ns, sels[k]);
    Flatten(blocks)
  }

  /** Every term over the numbers ns, each number used once: a single number
      yields its leaf; otherwise the terms of every split. */
  function Terms(ns: seq<int>): (ts: seq<Term>)
    ensures ns == [] ==> ts == []
    ensures |ns| == 1 ==> ts == [Leaf(ns[0])]
    decreases |ns|, SelectionCount(|ns|) + 1
  {
    if |ns| == 1 then [Leaf(ns[0])] else TermsOver(ns, SelectionVectors(|ns|))
  }

  // ---------------------------------------------------------------------
  // Soundness: every yielded term is well formed, its leaves are the input
  // numbers, and with positive inputs every value in it is positive.

  ghost predicate AllPositive(b: multiset<int>)
  {
    forall x :: x in b ==> x > 0
  }

  ghost predicate Sound(t: Term, b: multiset<int>)
  {
    Wf(t) && multiset(Leaves(t)) == b && (AllPositive(b) ==> Positive(t))
  }

  lemma ValsCons(l: Term, rest: seq<Term>)
    ensures Vals([l] + rest) == [l.val] + Vals(rest)
  {
  }

  lemma SumCons(x: int, vs: seq<int>)
    ensures Sum([x] + vs) == x + Sum(vs)
  {
    assert ([x] + vs)[1..] == vs;
  }

  lemma ProductCons(x: int, vs: seq<int>)
    ensures Product([x] + vs) == x * Product(vs)
  {
    assert ([x] + vs)[1..] == vs;
  }

  lemma PairVals(l: Term, r: Term)
    ensures Vals([l, r]) == [l.val, r.val]
    ensures Sum([l.val, r.val]) == l.val + r.val
    ensures Product([l.val, r.val]) == l.val * r.val
  {
    SumCons(r.val, []);
    SumCons(l.val, [r.val]);
    ProductCons(r.val, []);
    ProductCons(l.val, [r.val]);
    assert [l.val] + [r.val] == [l.val, r.val];
    assert [r.val] + [] == [r.val];
  }

  lemma AllPositiveSplit(a: multiset<int>, b: multiset<int>)
    requires AllPositive(a + b)
    ensures AllPositive(a) && AllPositive(b)
  {
    forall x | x in a ensures x > 0 {
      assert x in a + b;
    }
    forall x | x in b ensures x > 0 {
      assert x in a + b;
    }
  }

  /** A node flattening l into the arguments of the sum or product r. */
  lemma {:induction false} FlattenSound(op: Op, l: Term, r: Term, v: int, a: multiset<int>, b: multiset<int>)
    requires op == Add || op == Mul
    requires Sound(l, a) && Sound(r, b) && Is(r, op)
    requires !Is(l, op) && !Is(l, if op == Add then Sub else Div)
    requires op == Mul ==> l.val != 1
    requires r.args != [] && l.val <= r.args[0].val
    requires v == if op == Add then l.val + r.val else l.val * r.val
    ensures Sound(Node(op, [l] + r.args, v), a + b)
  {
    var args := [l] + r.args;
    var t := Node(op, args, v);
    assert forall i :: 0 <= i < |args| ==> args[i] == if i == 0 then l else r.args[i - 1];
    assert Vals(args) == [l.val] + Vals(r.args) by {
      ValsCons(l, r.args);
    }
    assert Ascending(Vals(args)) by {
      assert Ascending(Vals(r.args));
      assert Vals(r.args)[0] == r.args[0].val;
    }
    assert v == Apply(op, Vals(args)) by {
      SumCons(l.val, Vals(r.args));
      ProductCons(l.val, Vals(r.args));
    }
    assert Wf(t) by {
      assert NodeShape(op, args, v);
    }
    assert multiset(Leaves(t)) == a + b by {
      LeavesCons(op, l, r.args, v, op, r.val);
    }
    if AllPositive(a + b) {
      AllPositiveSplit(a, b);
      assert Positive(l) && Positive(r);
      FlattenPositive(op, l, r, v);
    }
  }

  lemma FlattenPositive(op: Op, l: Term, r: Term, v: int)
    requires op == Add || op == Mul
    requires Positive(l) && Positive(r) && r.Node?
    requires v == if op == Add then l.val + r.val else l.val * r.val
    ensures Positive(Node(op, [l] + r.args, v))
  {
    var args := [l] + r.args;
    assert v > 0 by {
      if op == Mul {
        ProductPositive(l.val, r.val);
      }
    }
    forall i | 0 <= i < |args| ensures Positive(args[i]) {
      if i > 0 {
        assert args[i] == r.args[i - 1];
      }
    }
  }

  lemma ProductPositive(x: int, y: int)
    requires x > 0 && y > 0
    ensures x * y > 0
  {
  }

  /** A binary node over l and r whose operator's own conditions hold. */
  lemma {:induction false} BinarySound(op: Op, l: Term, r: Term, v: int, a: multiset<int>, b: multiset<int>)
    requires Sound(l, a) && Sound(r, b)
    requires v == Apply(op, [l.val, r.val])
    requires NodeShape(op, [l, r], v)
    requires AllPositive(a + b) && op != Sub ==> v > 0
    ensures Sound(Node(op, [l, r], v), a + b)
  {
    PairVals(l, r);
    LeavesPair(op, l, r, v);
    if AllPositive(a + b) {
      AllPositiveSplit(a, b);
    }
  }

  lemma DivPositive(x: int, y: int)
    requires x > 0 && y > 1 && x % y == 0
    ensures x / y > 0
  {
    assert x == y * (x / y);
  }

  lemma {:induction false} AddSound(l: Term, r: Term, a: multiset<int>, b: multiset<int>)
    requires Sound(l, a) && Sound(r, b)
    ensures forall t :: t in AddStep(l, r) ==> Sound(t, a + b)
  {
    forall t | t in AddStep(l, r) ensures Sound(t, a + b) {
      if Is(r, Add) {
        FlattenSound(Add, l, r, l.val + r.val, a, b);
      } else {
        AddBinary(l, r, a, b);
      }
    }
  }

  lemma AddBinary(l: Term, r: Term, a: multiset<int>, b: multiset<int>)
    requires Sound(l, a) && Sound(r, b)
    requires !Is(l, Add) && !Is(l, Sub) && !Is(r, Sub) && !Is(r, Add)
    requires l.val <= r.val
    ensures Sound(Node(Add, [l, r], l.val + r.val), a + b)
  {
    PairVals(l, r);
    if AllPositive(a + b) {
      AllPositiveSplit(a, b);
    }
    BinarySound(Add, l, r, l.val + r.val, a, b);
  }

  lemma {:induction false} MulSound(l: Term, r: Term, a: multiset<int>, b: multiset<int>)
    requires Sound(l, a) && Sound(r, b)
    ensures forall t :: t in MulStep(l, r) ==> Sound(t, a + b)
  {
    forall t | t in MulStep(l, r) ensures Sound(t, a + b) {
      if Is(r, Mul) {
        FlattenSound(Mul, l, r, l.val * r.val, a, b);
      } else {
        MulBinary(l, r, a, b);
      }
    }
  }

  lemma MulBinary(l: Term, r: Term, a: multiset<int>, b: multiset<int>)
    requires Sound(l, a) && Sound(r, b)
    requires !Is(l, Mul) && !Is(l, Div) && !Is(r, Div) && !Is(r, Mul) && l.val != 1 && r.val != 1
    requires l.val <= r.val
    ensures Sound(Node(Mul, [l, r], l.val * r.val), a + b)
  {
    PairVals(l, r);
    if AllPositive(a + b) {
      AllPositiveSplit(a, b);
    }
    BinarySound(Mul, l, r, l.val * r.val, a, b);
  }

  lemma {:induction false} SubSound(l: Term, r: Term, a: multiset<int>, b: multiset<int>)
    requires Sound(l, a) && Sound(r, b)
    ensures forall t :: t in SubStep(l, r) ==> Sound(t, a + b)
  {
    forall t | t in SubStep(l, r) ensures Sound(t, a + b) {
      SubBinary(l, r, a, b);
    }
  }

  lemma SubBinary(l: Term, r: Term, a: multiset<int>, b: multiset<int>)
    requires Sound(l, a) && Sound(r, b)
    requires !Is(l, Sub) && !Is(r, Sub) && l.val - r.val > 0 && l.val - r.val != r.val
    ensures Sound(Node(Sub, [l, r], l.val - r.val), a + b)
  {
    var v := l.val - r.val;
    assert v == Apply(Sub, [l.val, r.val]) by {
      assert [l.val, r.val][1..] == [r.val];
      assert Sum([r.val]) == r.val + Sum([r.val][1..]);
      assert [r.val][1..] == [];
    }
    assert NodeShape(Sub, [l, r], v);
    BinarySound(Sub, l, r, v, a, b);
  }

  lemma {:induction false} DivSound(l: Term, r: Term, a: multiset<int>, b: multiset<int>)
    requires Sound(l, a) && Sound(r, b)
    ensures forall t :: t in DivStep(l, r) ==> Sound(t, a + b)
  {
    forall t | t in DivStep(l, r) ensures Sound(t, a + b) {
      DivBinary(l, r, a, b);
    }
  }

  lemma DivBinary(l: Term, r: Term, a: multiset<int>, b: multiset<int>)
    requires Sound(l, a) && Sound(r, b)
    requires !Is(l, Div) && !Is(r, Div) && r.val > 1 && l.val % r.val == 0 && l.val / r.val != r.val
    ensures Sound(Node(Div, [l, r], l.val / r.val), a + b)
  {
    var v := l.val / r.val;
    assert Product([r.val]) == r.val by {
      ProductCons(r.val, []);
      assert [r.val] + [] == [r.val];
    }
    assert [l.val, r.val][1..] == [r.val];
    assert Apply(Div, [l.val, r.val]) == v;
    if AllPositive(a + b) {
      AllPositiveSplit(a, b);
      DivPositive(l.val, r.val);
    }
    BinarySound(Div, l, r, v, a, b);
  }

  lemma {:induction false} PairSound(l: Term, r: Term, a: multiset<int>, b: multiset<int>)
    requires Sound(l, a) && Sound(r, b)
    ensures forall t :: t in CombinePair(l, r) ==> Sound(t, a + b)
  {
    AddSound(l, r, a, b);
    MulSound(l, r, a, b);
    SubSound(l, r, a, b);
    DivSound(l, r, a, b);
  }

  lemma CombineRowSound(l: Term, rts: seq<Term>, a: multiset<int>, b: multiset<int>)
    requires Sound(l, a)
    requires forall j :: 0 <= j < |rts| ==> Sound(rts[j], b)
    ensures forall t :: t in CombineRow(l, rts) ==> Sound(t, a + b)
  {
    forall t | t in CombineRow(l, rts) ensures Sound(t, a + b) {
      var j :| 0 <= j < |rts| && t in CombinePair(l, rts[j]);
      PairSound(l, rts[j], a, b);
    }
  }

  lemma CombineSound(lts: seq<Term>, rts: seq<Term>, a: multiset<int>, b: multiset<int>)
    requires forall i :: 0 <= i < |lts| ==> Sound(lts[i], a)
    requires forall j :: 0 <= j < |rts| ==> Sound(rts[j], b)
    ensures forall t :: t in Combine(lts, rts) ==> Sound(t, a + b)
  {
    forall t | t in Combine(lts, rts) ensures Sound(t, a + b) {
      var i :| 0 <= i < |lts| && t in CombineRow(lts[i], rts);
      CombineRowSound(lts[i], rts, a, b);
    }
  }

  lemma {:induction false} TermsOverSound(ns: seq<int>, sels: seq<seq<bool>>)
    requires forall k :: 0 <= k < |sels| ==> |sels[k]| == |ns| && Proper(sels[k])
    ensures forall t :: t in TermsOver(ns, sels) ==> Sound(t, multiset(ns))
    decreases |ns|, |sels|
  {
    var blocks := seq(|sels|, k requires 0 <= k < |sels| => SplitTerms(ns, sels[k]));
    forall t | t in TermsOver(ns, sels) ensures Sound(t, multiset(ns)) {
      var k :| 0 <= k < |blocks| && t in blocks[k];
      SplitTermsSound(ns, sels[k]);
    }
  }

  lemma {:induction false} SplitTermsSound(ns: seq<int>, sel: seq<bool>)
    requires |sel| == |ns| && Proper(sel)
    ensures forall t :: t in SplitTerms(ns, sel) ==> Sound(t, multiset(ns))
    decreases |ns|, 0
  {
    var p := Split(ns, sel);
    SplitShrinks(ns, sel);
    SplitMultiset(ns, sel);
    TermsSound(p.0);
    TermsSound(p.1);
    var lts, rts := Terms(p.0), Terms(p.1);
    assert forall i :: 0 <= i < |lts| ==> lts[i] in lts;
    assert forall j :: 0 <= j < |rts| ==> rts[j] in rts;
    CombineSound(lts, rts, multiset(p.0), multiset(p.1));
  }

  lemma {:induction false} TermsSound(ns: seq<int>)
    ensures forall t :: t in Terms(ns) ==> Sound(t, multiset(ns))
    decreases |ns|, SelectionCount(|ns|) + 1
  {
    if |ns| == 1 {
      assert ns == [ns[0]];
    } else {
      TermsOverSound(ns, SelectionVectors(|ns|));
    }
  }

  /** Every yielded term is well formed: its cached values are its
      operators applied to its arguments' values, sums and products are
      flattened to the right with non-decreasing arguments and no
      subtraction or division inside, and subtractions and divisions are
      binary, not nested in their own kind, and never yield their right
      operand. */
  lemma TermsWellFormed(ns: seq<int>)
    ensures forall t :: t in Terms(ns) ==> Wf(t)
  {
    TermsSound(ns);
  }

  /** Every yielded term's cached value is the value of its tree. */
  lemma TermsEvaluate(ns: seq<int>)
    ensures forall t :: t in Terms(ns) ==> t.val == Eval(t)
  {
    TermsSound(ns);
    forall t | t in Terms(ns) ensures t.val == Eval(t) {
      WfEval(t);
    }
  }

  /** The leaves of every yielded term are the input numbers, each used
      exactly once. */
  lemma TermsLeaves(ns: seq<int>)
    ensures forall t :: t in Terms(ns) ==> multiset(Leaves(t)) == multiset(ns)
  {
    TermsSound(ns);
  }

  /** With positive inputs, every value in every yielded term is positive. */
  lemma TermsPositive(ns: seq<int>)
    requires forall i :: 0 <= i < |ns| ==> ns[i] > 0
    ensures forall t :: t in Terms(ns) ==> Positive(t)
  {
    TermsSound(ns);
    assert AllPositive(multiset(ns));
  }

  // ---------------------------------------------------------------------
  // Completeness: every well-formed term over positive numbers is yielded.

  /** The operands the enumerator combines to build node t: its first
      argument, and its second argument or, for a longer sum or product, the
      node over all its other arguments. */
  function Operands(t: Term): (Term, Term)
    requires t.Node? && |t.args| >= 2
  {
    if |t.args| == 2 then (t.args[0], t.args[1])
    else (t.args[0], Node(t.op, t.args[1..], Apply(t.op, Vals(t.args[1..]))))
  }

  /** The node over all arguments of a sum or product but the first is well formed. */
  lemma RestWf(t: Term)
    requires t.Node? && Wf(t) && |t.args| > 2
    ensures Wf(Node(t.op, t.args[1..], Apply(t.op, Vals(t.args[1..]))))
  {
    var args, rest := t.args, t.args[1..];
    assert t.op == Add || t.op == Mul;
    assert forall i :: 0 <= i < |rest| ==> rest[i] == args[i + 1];
    assert Vals(rest) == Vals(args)[1..];
    assert NodeShape(t.op, rest, Apply(t.op, Vals(rest)));
  }

  /** The operands of a well-formed node are well formed and share its leaves. */
  lemma OperandsSplit(t: Term)
    requires t.Node? && Wf(t)
    ensures Wf(Operands(t).0) && Wf(Operands(t).1)
    ensures Leaves(t) == Leaves(Operands(t).0) + Leaves(Operands(t).1)
  {
    OperandsWf(t);
    OperandsLeaves(t);
  }

  lemma OperandsWf(t: Term)
    requires t.Node? && Wf(t)
    ensures Wf(Operands(t).0) && Wf(Operands(t).1)
  {
    assert Wf(t.args[0]);
    if |t.args| == 2 {
      assert Wf(t.args[1]);
    } else {
      RestWf(t);
    }
  }

  lemma OperandsLeaves(t: Term)
    requires t.Node? && |t.args| >= 2
    ensures Leaves(t) == Leaves(Operands(t).0) + Leaves(Operands(t).1)
  {
    var args := t.args;
    if |args| == 2 {
      assert t == Node(t.op, [args[0], args[1]], t.val);
      LeavesPair(t.op, args[0], args[1], t.val);
    } else {
      var rest := args[1..];
      assert t == Node(t.op, [args[0]] + rest, t.val);
      LeavesCons(t.op, args[0], rest, t.val, t.op, Apply(t.op, Vals(rest)));
    }
  }

  lemma {:induction false} ProductAtLeast(vs: seq<int>)
    requires forall i :: 0 <= i < |vs| ==> vs[i] >= 2
    ensures Product(vs) >= 1 && (vs != [] ==> Product(vs) >= 2)
  {
    if vs != [] {
      ProductAtLeast(vs[1..]);
      var p := Product(vs[1..]);
      assert vs[0] * (p - 1) >= 0;
    }
  }

  lemma AddYields(t: Term)
    requires t.Node? && t.op == Add && Wf(t)
    ensures t in AddStep(Operands(t).0, Operands(t).1)
  {
    if |t.args| == 2 {
      AddPairYields(t);
    } else {
      AddChainYields(t);
    }
  }

  lemma AddPairYields(t: Term)
    requires t.Node? && t.op == Add && Wf(t) && |t.args| == 2
    ensures t in AddStep(t.args[0], t.args[1])
  {
    var l, r := t.args[0], t.args[1];
    assert !Is(l, Add) && !Is(l, Sub) && !Is(r, Add) && !Is(r, Sub);
    assert l.val <= r.val by {
      assert Vals(t.args)[0] == l.val && Vals(t.args)[1] == r.val;
    }
    assert t.val == l.val + r.val by {
      PairVals(l, r);
      assert t.args == [l, r];
    }
    assert t == Node(Add, [l, r], l.val + r.val) by {
      assert t.args == [l, r];
    }
  }

  /** The first argument of a flattened sum or product, and the node over the
      remaining arguments: the first is no larger than the second's first
      argument and the cached value is the operator over the two. */
  lemma ChainParts(t: Term)
    requires t.Node? && (t.op == Add || t.op == Mul) && Wf(t) && |t.args| > 2
    ensures var l, r := Operands(t).0, Operands(t).1;
      r.Node? && r.op == t.op && r.args == t.args[1..] && r.args != [] && l.val <= r.args[0].val &&
      t.args == [l] + r.args &&
      t.val == (if t.op == Add then l.val + r.val else l.val * r.val)
  {
    var args := t.args;
    var l, rest := args[0], args[1..];
    assert args == [l] + rest;
    assert l.val <= rest[0].val by {
      assert Vals(args)[0] == l.val && Vals(args)[1] == args[1].val;
    }
    assert t.val == (if t.op == Add then l.val + Apply(t.op, Vals(rest)) else l.val * Apply(t.op, Vals(rest))) by {
      ValsCons(l, rest);
      SumCons(l.val, Vals(rest));
      ProductCons(l.val, Vals(rest));
    }
  }

  lemma AddChainYields(t: Term)
    requires t.Node? && t.op == Add && Wf(t) && |t.args| > 2
    ensures t in AddStep(Operands(t).0, Operands(t).1)
  {
    var l, r := Operands(t).0, Operands(t).1;
    ChainParts(t);
    assert !Is(l, Add) && !Is(l, Sub);
    assert AddStep(l, r) == [Node(Add, [l] + r.args, l.val + r.val)];
  }

  lemma MulYields(t: Term)
    requires t.Node? && t.op == Mul && Wf(t) && Positive(Operands(t).1)
    ensures t in MulStep(Operands(t).0, Operands(t).1)
  {
    if |t.args| == 2 {
      MulPairYields(t);
    } else {
      MulChainYields(t);
    }
  }

  lemma MulPairYields(t: Term)
    requires t.Node? && t.op == Mul && Wf(t) && |t.args| == 2
    ensures t in MulStep(t.args[0], t.args[1])
  {
    var l, r := t.args[0], t.args[1];
    assert !Is(l, Mul) && !Is(l, Div) && !Is(r, Mul) && !Is(r, Div) && l.val != 1 && r.val != 1;
    assert l.val <= r.val by {
      assert Vals(t.args)[0] == l.val && Vals(t.args)[1] == r.val;
    }
    assert t.val == l.val * r.val by {
      PairVals(l, r);
      assert t.args == [l, r];
    }
    assert t == Node(Mul, [l, r], l.val * r.val) by {
      assert t.args == [l, r];
    }
  }

  lemma MulChainYields(t: Term)
    requires t.Node? && t.op == Mul && Wf(t) && |t.args| > 2 && Positive(Operands(t).1)
    ensures t in MulStep(Operands(t).0, Operands(t).1)
  {
    var l, r := Operands(t).0, Operands(t).1;
    ChainParts(t);
    assert !Is(l, Mul) && !Is(l, Div) && l.val != 1;
    assert r.val != 1 by {
      var rest := r.args;
      assert forall i :: 0 <= i < |rest| ==> rest[i] == t.args[i + 1];
      assert forall i :: 0 <= i < |rest| ==> Positive(rest[i]);
      ProductAtLeast(Vals(rest));
    }
    assert MulStep(l, r) == [Node(Mul, [l] + r.args, l.val * r.val)];
  }

  lemma SubYields(t: Term)
    requires t.Node? && t.op == Sub && Wf(t)
    ensures t in SubStep(Operands(t).0, Operands(t).1)
  {
    var l, r := t.args[0], t.args[1];
    assert t.args == [l, r];
    assert Vals(t.args)[1..] == [r.val];
    SumCons(r.val, []);
    assert [r.val] + [] == [r.val];
  }

  lemma DivYields(t: Term)
    requires t.Node? && t.op == Div && Wf(t)
    ensures t in DivStep(Operands(t).0, Operands(t).1)
  {
    var l, r := t.args[0], t.args[1];
    assert t.args == [l, r];
    assert Vals(t.args)[1..] == [r.val];
    ProductCons(r.val, []);
    assert [r.val] + [] == [r.val];
  }

  /** A well-formed node is among the terms built from its operands, when its
      second operand is positive throughout. */
  lemma OperandsYield(t: Term)
    requires t.Node? && Wf(t) && Positive(Operands(t).1)
    ensures t in CombinePair(Operands(t).0, Operands(t).1)
  {
    match t.op
    case Add => AddYields(t);
    case Mul => MulYields(t);
    case Sub => SubYields(t);
    case Div => DivYields(t);
  }

  lemma CombineRowHas(l: Term, rts: seq<Term>, j: nat, t: Term)
    requires j < |rts| && t in CombinePair(l, rts[j])
    ensures t in CombineRow(l, rts)
  {
  }

  /** The outer and inner loops reach every left/right pair. */
  lemma CombineHas(lts: seq<Term>, rts: seq<Term>, i: nat, j: nat, t: Term)
    requires i < |lts| && j < |rts| && t in CombinePair(lts[i], rts[j])
    ensures t in Combine(lts, rts)
  {
    CombineRowHas(lts[i], rts, j, t);
  }

  /** The loop over the selections reaches every selection. */
  lemma TermsOverHas(ns: seq<int>, sels: seq<seq<bool>>, k: nat, t: Term)
    requires forall k :: 0 <= k < |sels| ==> |sels[k]| == |ns| && Proper(sels[k])
    requires k < |sels| && t in SplitTerms(ns, sels[k])
    ensures t in TermsOver(ns, sels)
  {
  }

  lemma PositiveSide(ns: seq<int>, xs: seq<int>)
    requires forall i :: 0 <= i < |ns| ==> ns[i] > 0
    requires multiset(xs) <= multiset(ns)
    ensures forall i :: 0 <= i < |xs| ==> xs[i] > 0
  {
    forall i | 0 <= i < |xs| ensures xs[i] > 0 {
      assert xs[i] in multiset(ns);
    }
  }

  /** The selection of a non-empty part a of ns, leaving the non-empty rest
      b, is proper, and its split has exactly a and b as its two sides. */
  lemma SplitFor(ns: seq<int>, a: multiset<int>, b: multiset<int>)
    requires a != multiset{} && b != multiset{} && a + b == multiset(ns)
    ensures var p := Split(ns, SelectionFor(ns, a));
      Proper(SelectionFor(ns, a)) && multiset(p.0) == a && multiset(p.1) == b &&
      |p.0| < |ns| && |p.1| < |ns|
  {
    var sel := SelectionFor(ns, a);
    var p := Split(ns, sel);
    assert multiset(p.0) == a by {
      SplitSelectionFor(ns, a);
    }
    assert multiset(p.1) == b by {
      SplitMultiset(ns, sel);
      assert multiset(p.0) + multiset(p.1) == a + b;
      forall x ensures multiset(p.1)[x] == b[x] {
        assert (multiset(p.0) + multiset(p.1))[x] == (a + b)[x];
      }
    }
    assert Proper(sel) by {
      assert p.0 != [] && p.1 != [];
    }
  }

  /** A term built from one left and one right term of some split is yielded. */
  lemma YieldedFromSplit(ns: seq<int>, sel: seq<bool>, l: Term, r: Term, t: Term)
    requires |sel| == |ns| && Proper(sel)
    requires l in Terms(Split(ns, sel).0) && r in Terms(Split(ns, sel).1)
    requires t in CombinePair(l, r)
    ensures t in Terms(ns)
  {
    var p := Split(ns, sel);
    var lts, rts := Terms(p.0), Terms(p.1);
    var i :| 0 <= i < |lts| && lts[i] == l;
    var j :| 0 <= j < |rts| && rts[j] == r;
    CombineHas(lts, rts, i, j, t);
    assert t in SplitTerms(ns, sel);
    SelectionsComplete(sel);
    var sels := SelectionVectors(|ns|);
    var k :| 0 <= k < |sels| && sels[k] == sel;
    TermsOverHas(ns, sels, k, t);
    assert |ns| != 1 by {
      SplitShrinks(ns, sel);
    }
  }

  /** Every well-formed term whose leaves are exactly the given positive
      numbers is yielded. */
  lemma {:induction false} TermsComplete(ns: seq<int>, t: Term)
    requires forall i :: 0 <= i < |ns| ==> ns[i] > 0
    requires Wf(t) && multiset(Leaves(t)) == multiset(ns)
    ensures t in Terms(ns)
    decreases |ns|
  {
    if t.Leaf? {
      assert |ns| == |multiset(ns)| == 1;
      assert ns[0] in multiset(ns);
      assert ns == [t.val];
    } else {
      var l, r := Operands(t).0, Operands(t).1;
      OperandsSplit(t);
      LeavesNonEmpty(l);
      LeavesNonEmpty(r);
      SplitFor(ns, multiset(Leaves(l)), multiset(Leaves(r)));
      var sel := SelectionFor(ns, multiset(Leaves(l)));
      var p := Split(ns, sel);
      assert l in Terms(p.0) by {
        SplitMultiset(ns, sel);
        PositiveSide(ns, p.0);
        TermsComplete(p.0, l);
      }
      assert r in Terms(p.1) && Positive(r) by {
        SplitMultiset(ns, sel);
        PositiveSide(ns, p.1);
        TermsComplete(p.1, r);
        TermsPositive(p.1);
      }
      OperandsYield(t);
      YieldedFromSplit(ns, sel, l, r, t);
    }
  }

  /** Over positive numbers the yielded terms are exactly the well-formed
      terms whose leaves are those numbers. */
  lemma TermsExactly(ns: seq<int>, t: Term)
    requires forall i :: 0 <= i < |ns| ==> ns[i] > 0
    ensures t in Terms(ns) <==> Wf(t) && multiset(Leaves(t)) == multiset(ns)
  {
    TermsSound(ns);
    if Wf(t) && multiset(Leaves(t)) == multiset(ns) {
      TermsComplete(ns, t);
    }
  }

  lemma SelectionsOfTwo()
    ensures SelectionVectors(2) == [[true, false], [false, true]]
  {
    assert Bits(1, 2) == [true, false] by {
      assert Bits(0, 1) == [false] + Bits(0, 0);
    }
    assert Bits(2, 2) == [false, true] by {
      assert Bits(1, 1) == [true] + Bits(0, 0);
    }
  }

  lemma SplitsOfOneTwo()
    ensures Split([1, 2], [true, false]) == ([1], [2])
    ensures Split([1, 2], [false, true]) == ([2], [1])
  {
    assert Split([], []) == ([], []);
    SplitSnoc([], [], 1, true);
    SplitSnoc([], [], 1, false);
    assert [] + [1] == [1] && [] + [2] == [2] && [] + [true] == [true] && [] + [false] == [false];
    SplitSnoc([1], [true], 2, false);
    SplitSnoc([1], [false], 2, true);
    assert [1] + [2] == [1, 2] && [true] + [false] == [true, false] && [false] + [true] == [false, true];
  }

  lemma RowOfOne(l: Term, r: Term)
    ensures CombineRow(l, [r]) == CombinePair(l, r)
  {
    var rts := [r];
    var blocks := seq(|rts|, j requires 0 <= j < |rts| => CombinePair(l, rts[j]));
    assert CombineRow(l, rts) == Flatten(blocks);
    assert blocks == [CombinePair(l, r)];
    assert Flatten(blocks) == blocks[0] + Flatten(blocks[1..]);
    assert blocks[1..] == [];
  }

  lemma CombineOfOne(l: Term, rts: seq<Term>)
    ensures Combine([l], rts) == CombineRow(l, rts)
  {
    var lts := [l];
    var blocks := seq(|lts|, i requires 0 <= i < |lts| => CombineRow(lts[i], rts));
    assert Combine(lts, rts) == Flatten(blocks);
    assert blocks == [CombineRow(l, rts)];
    assert Flatten(blocks) == blocks[0] + Flatten(blocks[1..]);
    assert blocks[1..] == [];
  }

  lemma CombineOneTwo()
    ensures Combine([Leaf(1)], [Leaf(2)]) == [Node(Add, [Leaf(1), Leaf(2)], 3)]
    ensures Combine([Leaf(2)], [Leaf(1)]) == []
  {
    var l1, l2 := Leaf(1), Leaf(2);
    assert CombinePair(l1, l2) == [Node(Add, [l1, l2], 3)];
    assert CombinePair(l2, l1) == [];
    RowOfOne(l1, l2);
    RowOfOne(l2, l1);
    CombineOfOne(l1, [l2]);
    CombineOfOne(l2, [l1]);
  }

  lemma SplitTermsOneTwo()
    ensures SplitTerms([1, 2], [true, false]) == [Node(Add, [Leaf(1), Leaf(2)], 3)]
    ensures SplitTerms([1, 2], [false, true]) == []
  {
    SplitsOfOneTwo();
    CombineOneTwo();
    assert Terms([1]) == [Leaf(1)];
    assert Terms([2]) == [Leaf(2)];
  }

  /** [1, 2] yields only 1 + 2: 1 * 2 has a factor 1, 1 - 2 is negative,
      1 / 2 is not exact, 2 + 1 is out of order, 2 * 1 has a factor 1,
      2 - 1 equals its right operand and 2 / 1 divides by 1. */
  lemma TermsOneTwo()
    ensures Terms([1, 2]) == [Node(Add, [Leaf(1), Leaf(2)], 3)]
  {
    SelectionsOfTwo();
    SplitTermsOneTwo();
    var sels := SelectionVectors(2);
    var blocks := seq(|sels|, k requires 0 <= k < |sels| => SplitTerms([1, 2], sels[k]));
    assert Terms([1, 2]) == Flatten(blocks);
    assert blocks == [[Node(Add, [Leaf(1), Leaf(2)], 3)], []];
    assert Flatten(blocks) == blocks[0] + Flatten(blocks[1..]);
    assert Flatten(blocks[1..]) == blocks[1] + Flatten(blocks[2..]);
  }
}
