/** Rendering a term as text: a leaf as its decimal value, an operation node
    as its arguments joined by the operator symbol, wrapped in parentheses
    when it has more than one argument. A reader for that text is given
    beside it, and reading back a rendered well-formed term gives the term. */
module Rendering {
  import opened Expressions

  datatype Option<T> = None | Some(value: T)

  function Symbol(op: Op): char
  {
    match op
    case Add => '+'
    case Sub => '-'
    case Mul => '*'
    case Div => '/'
  }

  predicate IsDigit(c: char)
  {
    '0' <= c <= '9'
  }

  function Digit(d: nat): (c: char)
    requires d < 10
    ensures IsDigit(c)
  {
    "0123456789"[d]
  }

  function DigitValue(c: char): nat
    requires IsDigit(c)
  {
    c as int - '0' as int
  }

  /** Decimal digits of n, most significant first, no leading zeros. */
  function NatToString(n: nat): (s: string)
    ensures s != [] && forall i :: 0 <= i < |s| ==> IsDigit(s[i])
    ensures n == 0 ==> s == "0"
    ensures n > 0 ==> s[0] != '0'
  {
    if n < 10 then [Digit(n)] else NatToString(n / 10) + [Digit(n % 10)]
  }

  /** Decimal text of an integer, with a leading '-' when negative. */
  function IntToString(v: int): string
  {
    if v < 0 then "-" + NatToString(-v) else NatToString(v)
  }

  /** The strings ss with sep between adjacent ones. */
  function Join(ss: seq<string>, sep: char): string
  {
    if ss == [] then ""
    else if |ss| == 1 then ss[0]
    else ss[0] + [sep] + Join(ss[1..], sep)
  }

  /** The engine's term rendering. */
  function TermToString(t: Term): (s: string)
    ensures t.Node? && |t.args| > 1 ==> |s| >= 2 && s[0] == '(' && s[|s| - 1] == ')'
  {
    match t
    case Leaf(n) => IntToString(n)
    case Node(op, args, _) =>
      var out := Join(seq(|args|, i requires 0 <= i < |args| => TermToString(args[i])), Symbol(op));
      if |args| > 1 then "(" + out + ")" else out
  }

  // ---------------------------------------------------------------------
  // Reading rendered text back.

  function OpOf(c: char): Option<Op>
  {
    if c == '+' then Some(Add)
    else if c == '-' then Some(Sub)
    else if c == '*' then Some(Mul)
    else if c == '/' then Some(Div)
    else None
  }

  /** The value of a string of decimal digits. */
  function DigitsValue(d: string): nat
    requires forall i :: 0 <= i < |d| ==> IsDigit(d[i])
  {
    if d == [] then 0 else 10 * DigitsValue(d[..|d| - 1]) + DigitValue(d[|d| - 1])
  }

  /** The length of the run of digits that starts s. */
  function DigitRun(s: string): (k: nat)
    ensures k <= |s| && forall i :: 0 <= i < k ==> IsDigit(s[i])
  {
    if s != [] && IsDigit(s[0]) then 1 + DigitRun(s[1..]) else 0
  }

  /** Reads one term from the front of s and returns it with the rest of s. */
  function ParseTerm(s: string): (r: Option<(Term, string)>)
    ensures r.Some? ==> |r.value.1| < |s|
    decreases |s|, 0
  {
    if s == [] then None
    else if IsDigit(s[0]) then
      var k := DigitRun(s);
      Some((Leaf(DigitsValue(s[..k])), s[k..]))
    else if s[0] == '(' then
      match ParseTerm(s[1..])
      case None => None
      case Some((first, rest)) =>
        if rest == [] || OpOf(rest[0]).None? then None
        else ParseChain(OpOf(rest[0]).value, rest[1..], [first])
    else None
  }

  /** Reads the remaining arguments of a parenthesised node with operator op
      whose earlier arguments are acc, up to and including the ')'. */
  function ParseChain(op: Op, s: string, acc: seq<Term>): (r: Option<(Term, string)>)
    ensures r.Some? ==> |r.value.1| < |s|
    decreases |s|, 1
  {
    match ParseTerm(s)
    case None => None
    case Some((t, rest)) =>
      if rest == [] then None
      else if rest[0] == Symbol(op) then ParseChain(op, rest[1..], acc + [t])
      else if rest[0] == ')' then
        var args := acc + [t];
        Some((Node(op, args, Apply(op, Vals(args))), rest[1..]))
      else None
  }

  // ---------------------------------------------------------------------
  // Round trip.

  /** Every leaf holds a non-negative number, so it renders without a sign. */
  ghost predicate NonNegativeLeaves(t: Term)
  {
    match t
    case Leaf(n) => n >= 0
    case Node(_, args, _) => forall i :: 0 <= i < |args| ==> NonNegativeLeaves(args[i])
  }

  /** Text that cannot extend a number written before it. */
  predicate Boundary(s: string)
  {
    s == [] || !IsDigit(s[0])
  }

  lemma {:induction false} DigitsOfNat(n: nat)
    ensures DigitsValue(NatToString(n)) == n
  {
    if n >= 10 {
      DigitsOfNat(n / 10);
      var s := NatToString(n);
      assert s[..|s| - 1] == NatToString(n / 10);
    }
  }

  lemma {:induction false} DigitRunOf(d: string, rest: string)
    requires forall i :: 0 <= i < |d| ==> IsDigit(d[i])
    requires Boundary(rest)
    ensures DigitRun(d + rest) == |d|
  {
    if d != [] {
      assert (d + rest)[1..] == d[1..] + rest;
      DigitRunOf(d[1..], rest);
    }
  }

  /** The decimal text of a natural number reads back as that number. */
  lemma ParseNumber(n: nat, rest: string)
    requires Boundary(rest)
    ensures ParseTerm(NatToString(n) + rest) == Some((Leaf(n), rest))
  {
    var d := NatToString(n);
    DigitRunOf(d, rest);
    DigitsOfNat(n);
    assert (d + rest)[..|d|] == d;
    assert (d + rest)[|d|..] == rest;
  }

  function Width(t: Term): nat
  {
    if t.Node? then |t.args| else 0
  }

  function Rendered(args: seq<Term>): seq<string>
  {
    seq(|args|, i requires 0 <= i < |args| => TermToString(args[i]))
  }

  lemma {:induction false} JoinCons(ss: seq<string>, sep: char)
    requires |ss| >= 2
    ensures Join(ss, sep) == ss[0] + [sep] + Join(ss[1..], sep)
  {
  }

  lemma JoinLast(ss: seq<string>, k: nat, c: char, s: string)
    requires k == |ss| - 1
    ensures Join(ss[k..], c) + ")" + s == ss[k] + (")" + s)
  {
    assert ss[k..] == [ss[k]];
  }

  lemma JoinNext(ss: seq<string>, k: nat, c: char, s: string)
    requires k < |ss| - 1
    ensures Join(ss[k..], c) + ")" + s == ss[k] + ([c] + (Join(ss[k + 1..], c) + ")" + s))
  {
    JoinCons(ss[k..], c);
    assert ss[k..][1..] == ss[k + 1..];
  }

  lemma ParseOpen(text: string, first: Term, op: Op, tail: string)
    requires text != [] && text[0] == '('
    requires ParseTerm(text[1..]) == Some((first, [Symbol(op)] + tail))
    ensures ParseTerm(text) == ParseChain(op, tail, [first])
  {
    assert OpOf(Symbol(op)) == Some(op);
    assert ([Symbol(op)] + tail)[1..] == tail;
  }

  lemma ChainStep(op: Op, text: string, t: Term, tail: string, acc: seq<Term>)
    requires ParseTerm(text) == Some((t, [Symbol(op)] + tail))
    ensures ParseChain(op, text, acc) == ParseChain(op, tail, acc + [t])
  {
    assert ([Symbol(op)] + tail)[1..] == tail;
  }

  lemma ChainEnd(op: Op, text: string, t: Term, s: string, acc: seq<Term>)
    requires ParseTerm(text) == Some((t, ")" + s))
    ensures ParseChain(op, text, acc) == Some((Node(op, acc + [t], Apply(op, Vals(acc + [t]))), s))
  {
    assert Symbol(op) != ')';
    assert (")" + s)[1..] == s;
  }

  /** Reading a rendered well-formed term, followed by text that does not
      extend it, gives back the term and that text. */
  lemma {:induction false} ParseRender(t: Term, s: string)
    requires Wf(t) && NonNegativeLeaves(t) && Boundary(s)
    ensures ParseTerm(TermToString(t) + s) == Some((t, s))
    decreases t, Width(t) + 1
  {
    match t
    case Leaf(n) =>
      ParseNumber(n, s);
    case Node(op, args, v) =>
      ParseOpenRender(t, s);
      assert ArgsReadable(args);
      ParseChainRender(t, 1, s);
      assert args[..1] == [args[0]];
      assert Rebuilt(t) == t;
  }

  /** Reading the '(' of a rendered node and its first argument leaves the
      reader in the chain of the remaining arguments. */
  lemma {:induction false} ParseOpenRender(t: Term, s: string)
    requires t.Node? && Wf(t) && NonNegativeLeaves(t) && Boundary(s)
    ensures ParseTerm(TermToString(t) + s)
         == ParseChain(t.op, Join(Rendered(t.args)[1..], Symbol(t.op)) + ")" + s, [t.args[0]])
    decreases t, 0
  {
    var args, op := t.args, t.op;
    var ss := Rendered(args);
    var c := Symbol(op);
    var tail := Join(ss[1..], c) + ")" + s;
    var text := TermToString(t) + s;
    assert text == "(" + (ss[0] + ([c] + tail)) by {
      JoinCons(ss, c);
      assert TermToString(t) == "(" + Join(ss, c) + ")";
    }
    assert text[0] == '(' && text[1..] == ss[0] + ([c] + tail);
    assert ParseTerm(text[1..]) == Some((args[0], [c] + tail)) by {
      ParseRender(args[0], [c] + tail);
    }
    ParseOpen(text, args[0], op, tail);
  }

  /** Every argument is well formed with non-negative leaves. */
  ghost predicate ArgsReadable(args: seq<Term>)
  {
    forall i :: 0 <= i < |args| ==> Wf(args[i]) && NonNegativeLeaves(args[i])
  }

  /** The node the reader builds from t's operator and arguments. */
  function Rebuilt(t: Term): Term
    requires t.Node?
  {
    Node(t.op, t.args, Apply(t.op, Vals(t.args)))
  }

  /** Reading the rendered arguments from position k on completes the node. */
  lemma {:induction false} ParseChainRender(t: Term, k: nat, s: string)
    requires t.Node? && ArgsReadable(t.args) && Boundary(s)
    requires 1 <= k < |t.args|
    ensures ParseChain(t.op, Join(Rendered(t.args)[k..], Symbol(t.op)) + ")" + s, t.args[..k]) == Some((Rebuilt(t), s))
    decreases t, |t.args| - k
  {
    var ss, c := Rendered(t.args), Symbol(t.op);
    var here := ParseChain(t.op, Join(ss[k..], c) + ")" + s, t.args[..k]);
    if k == |t.args| - 1 {
      assert here == Some((Rebuilt(t), s)) by {
        ParseChainLast(t, s);
      }
    } else {
      var next := ParseChain(t.op, Join(ss[k + 1..], c) + ")" + s, t.args[..k + 1]);
      assert here == next by {
        ParseChainNext(t, k, s);
      }
      assert next == Some((Rebuilt(t), s)) by {
        ParseChainRender(t, k + 1, s);
      }
    }
  }

  /** Reading one more rendered argument and the symbol after it. */
  lemma {:induction false} ParseChainNext(t: Term, k: nat, s: string)
    requires t.Node? && ArgsReadable(t.args) && Boundary(s)
    requires 1 <= k < |t.args| - 1
    ensures var ss, c := Rendered(t.args), Symbol(t.op);
      ParseChain(t.op, Join(ss[k..], c) + ")" + s, t.args[..k])
      == ParseChain(t.op, Join(ss[k + 1..], c) + ")" + s, t.args[..k + 1])
    decreases t, 0
  {
    var args, c := t.args, Symbol(t.op);
    var ss := Rendered(args);
    var tail := Join(ss[k + 1..], c) + ")" + s;
    var text := Join(ss[k..], c) + ")" + s;
    assert ss[k] == TermToString(args[k]);
    JoinNext(ss, k, c, s);
    assert ParseTerm(text) == Some((args[k], [c] + tail)) by {
      ParseRender(args[k], [c] + tail);
    }
    ChainStep(t.op, text, args[k], tail, args[..k]);
    assert args[..k] + [args[k]] == args[..k + 1];
  }

  /** Reading the last rendered argument and the ')' completes the node. */
  lemma {:induction false} ParseChainLast(t: Term, s: string)
    requires t.Node? && |t.args| >= 1 && ArgsReadable(t.args) && Boundary(s)
    ensures var k := |t.args| - 1;
      ParseChain(t.op, Join(Rendered(t.args)[k..], Symbol(t.op)) + ")" + s, t.args[..k]) == Some((Rebuilt(t), s))
    decreases t, 0
  {
    var args, c := t.args, Symbol(t.op);
    var k := |args| - 1;
    var ss := Rendered(args);
    assert ss[k] == TermToString(args[k]);
    var text := Join(ss[k..], c) + ")" + s;
    JoinLast(ss, k, c, s);
    assert ParseTerm(text) == Some((args[k], ")" + s)) by {
      ParseRender(args[k], ")" + s);
    }
    ChainEnd(t.op, text, args[k], s, args[..k]);
    assert args[..k] + [args[k]] == args;
  }

  /** A rendered well-formed term with non-negative leaves reads back as
      exactly that term. */
  lemma RenderRoundTrip(t: Term)
    requires Wf(t) && NonNegativeLeaves(t)
    ensures ParseTerm(TermToString(t)) == Some((t, ""))
  {
    ParseRender(t, "");
    assert TermToString(t) + "" == TermToString(t);
  }

  /** Distinct well-formed terms with non-negative leaves render differently. */
  lemma RenderInjective(t1: Term, t2: Term)
    requires Wf(t1) && NonNegativeLeaves(t1)
    requires Wf(t2) && NonNegativeLeaves(t2)
    requires TermToString(t1) == TermToString(t2)
    ensures t1 == t2
  {
    RenderRoundTrip(t1);
    RenderRoundTrip(t2);
  }
}
