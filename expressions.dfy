/** Expression trees as the engine builds them: a leaf holds one source
    number, an operation node holds an operator, its ordered arguments and
    the cached value `val` computed when the node was built. */
module Expressions {

  datatype Op = Add | Sub | Mul | Div

  datatype Term = Leaf(val: int) | Node(op: Op, args: seq<Term>, val: int)

  /** `t.op === op` in the engine: a leaf has none of the four operators. */
  predicate Is(t: Term, op: Op)
  {
    t.Node? && t.op == op
  }

  predicate Ascending(vs: seq<int>)
  {
    forall i, j :: 0 <= i < j < |vs| ==> vs[i] <= vs[j]
  }

  function Sum(vs: seq<int>): int
  {
    if vs == [] then 0 else vs[0] + Sum(vs[1..])
  }

  function Product(vs: seq<int>): int
  {
    if vs == [] then 1 else vs[0] * Product(vs[1..])
  }

  /** An operator applied to argument values: a sum or product over all of
      them; a - b - c as a - (b + c) and a / b / c as a / (b * c), as the
      engine's comments read chains. */
  function Apply(op: Op, vs: seq<int>): int
  {
    match op
    case Add => Sum(vs)
    case Mul => Product(vs)
    case Sub => if vs == [] then 0 else vs[0] - Sum(vs[1..])
    case Div => if vs == [] || Product(vs[1..]) == 0 then 0 else vs[0] / Product(vs[1..])
  }

  /** The cached values of a list of terms. */
  function Vals(ts: seq<Term>): (vs: seq<int>)
    ensures |vs| == |ts|
  {
    seq(|ts|, i requires 0 <= i < |ts| => ts[i].val)
  }

  /** Reference evaluation from the leaves up, ignoring every cached value. */
  function Eval(t: Term): int
  {
    match t
    case Leaf(n) => n
    case Node(op, args, _) => Apply(op, seq(|args|, i requires 0 <= i < |args| => Eval(args[i])))
  }

  function Concat(ss: seq<seq<int>>): seq<int>
  {
    if ss == [] then [] else ss[0] + Concat(ss[1..])
  }

  /** The source numbers at the leaves, left to right. */
  function Leaves(t: Term): seq<int>
  {
    match t
    case Leaf(n) => [n]
    case Node(_, args, _) => Concat(seq(|args|, i requires 0 <= i < |args| => Leaves(args[i])))
  }

  /** What a node's own construction guarantees, with the value already
      cached in each argument. */
  ghost predicate NodeShape(op: Op, args: seq<Term>, v: int)
  {
    match op
    case Add =>
      (forall i :: 0 <= i < |args| ==> !Is(args[i], Add) && !Is(args[i], Sub)) &&
      Ascending(Vals(args))
    case Mul =>
      (forall i :: 0 <= i < |args| ==> !Is(args[i], Mul) && !Is(args[i], Div) && args[i].val != 1) &&
      Ascending(Vals(args))
    case Sub =>
      |args| == 2 && !Is(args[0], Sub) && !Is(args[1], Sub) && v > 0 && v != args[1].val
    case Div =>
      |args| == 2 && !Is(args[0], Div) && !Is(args[1], Div) &&
      args[1].val > 1 && args[0].val % args[1].val == 0 && v != args[1].val
  }

  /** A well-formed term: every node has at least two arguments, caches the
      value of its operator over its arguments' cached values, and keeps the
      shape rules of the enumeration. */
  ghost predicate Wf(t: Term)
  {
    match t
    case Leaf(_) => true
    case Node(op, args, v) =>
      |args| >= 2 &&
      (forall i :: 0 <= i < |args| ==> Wf(args[i])) &&
      v == Apply(op, Vals(args)) &&
      NodeShape(op, args, v)
  }

  /** Every value in the tree, leaves included, is positive. */
  ghost predicate Positive(t: Term)
  {
    t.val > 0 &&
    match t
    case Leaf(_) => true
    case Node(_, args, _) => forall i :: 0 <= i < |args| ==> Positive(args[i])
  }

  /** The cached value of a well-formed term is the value of its tree. */
  lemma {:induction false} WfEval(t: Term)
    requires Wf(t)
    ensures t.val == Eval(t)
  {
    match t
    case Leaf(_) =>
    case Node(op, args, v) =>
      forall i | 0 <= i < |args| ensures args[i].val == Eval(args[i]) {
        WfEval(args[i]);
      }
      assert Vals(args) == seq(|args|, i requires 0 <= i < |args| => Eval(args[i]));
  }

  /** A well-formed term has at least one leaf. */
  lemma {:induction false} LeavesNonEmpty(t: Term)
    requires Wf(t)
    ensures Leaves(t) != []
  {
    match t
    case Leaf(_) =>
    case Node(_, args, _) =>
      var ss := seq(|args|, i requires 0 <= i < |args| => Leaves(args[i]));
      LeavesNonEmpty(args[0]);
      assert Concat(ss) == ss[0] + Concat(ss[1..]);
  }

  /** The leaves of a node whose first argument is l and whose remaining
      arguments are those of rest. */
  lemma LeavesCons(op: Op, l: Term, rest: seq<Term>, v: int, op': Op, v': int)
    ensures Leaves(Node(op, [l] + rest, v)) == Leaves(l) + Leaves(Node(op', rest, v'))
  {
    var args := [l] + rest;
    var ss := seq(|args|, i requires 0 <= i < |args| => Leaves(args[i]));
    assert ss[1..] == seq(|rest|, i requires 0 <= i < |rest| => Leaves(rest[i]));
  }

  lemma ConcatPair(a: seq<int>, b: seq<int>)
    ensures Concat([a, b]) == a + b
  {
    assert [a, b][1..] == [b];
    assert [b][1..] == [];
    assert Concat([b]) == b + Concat([]) == b;
    assert Concat([a, b]) == a + Concat([b]);
  }

  /** The leaves of a binary node are those of its left then its right argument. */
  lemma LeavesPair(op: Op, l: Term, r: Term, v: int)
    ensures Leaves(Node(op, [l, r], v)) == Leaves(l) + Leaves(r)
  {
    var args := [l, r];
    assert seq(|args|, i requires 0 <= i < |args| => Leaves(args[i])) == [Leaves(l), Leaves(r)];
    ConcatPair(Leaves(l), Leaves(r));
  }
}
