/** Each rule of the differentiator keeps the meaning of its tree (packages/cas/src/differentiate.ts): what it builds
    from sound derivatives is sound, and meaning ignores groups and unary `+`. */
module Calculus {
  import opened Options
  import opened Reals
  import opened Rationals
  import opened Trees
  import opened DualNumbers
  import opened Rules

  // ---- groups and unary plus have no meaning ----

  lemma {:induction false} EraseVaries(n: Node, x: nat)
    ensures Varies(Erase(n), x) == Varies(n, x)
    decreases n
  {
    match n
    case Group(a) => EraseVaries(a, x);
    case Unary(_, a) => EraseVaries(a, x);
    case Factorial(a) => EraseVaries(a, x);
    case Binary(_, a, b) =>
      EraseVaries(a, x);
      EraseVaries(b, x);
    case Call(fn, args) =>
      forall i | 0 <= i < |args| ensures Varies(Erase(args[i]), x) == Varies(args[i], x) { EraseVaries(args[i], x); }
      ErasedCall(n);
      hide Erase;
      var m := Erase(n);
      assert forall i :: 0 <= i < |args| ==> Varies(m.args[i], x) == Varies(args[i], x);
    case _ =>
  }

  lemma ErasedCall(n: Node)
    requires n.Call?
    ensures var m := Erase(n);
            m.Call? && m.fn == n.fn && |m.args| == |n.args| && forall i :: 0 <= i < |n.args| ==> m.args[i] == Erase(n.args[i])
  {}

  lemma {:induction false} EraseLiteral(n: Node)
    ensures Literal(Erase(n)) == Literal(n)
    decreases n
  {
    hide Divided;
    match n
    case Group(a) => EraseLiteral(a);
    case Unary(_, a) => EraseLiteral(a);
    case Binary(_, a, b) =>
      EraseLiteral(a);
      EraseLiteral(b);
    case _ =>
  }

  lemma {:induction false} EraseIsE(n: Node)
    ensures IsE(Erase(n)) == IsE(n)
    decreases n
  {
    match n
    case Group(a) => EraseIsE(a);
    case Unary(negative, a) => if !negative { EraseIsE(a); }
    case _ =>
  }

  lemma {:induction false} EraseEval(n: Node, it: Meaning)
    ensures Eval(Erase(n), it) == Eval(n, it)
    decreases n, 1
  {
    match n
    case Group(a) => EraseEval(a, it);
    case Unary(_, a) => EraseEval(a, it);
    case Factorial(a) => EraseEval(a, it);
    case Binary(_, a, b) =>
      EraseEval(a, it);
      EraseEval(b, it);
    case Call(_, args) =>
      ErasedCall(n);
      EraseEvalArgs(n, |args|, it);
    case _ =>
  }

  lemma {:induction false} EraseEvalArgs(n: Node, k: nat, it: Meaning)
    requires n.Call? && k <= |n.args|
    ensures Erase(n).Call? && |Erase(n).args| == |n.args|
    ensures EvalArgs(Erase(n), k, it) == EvalArgs(n, k, it)
    decreases n, 0, k
  {
    ErasedCall(n);
    if k > 0 {
      hide Erase;
      EraseEvalArgs(n, k - 1, it);
      EraseEval(n.args[k - 1], it);
    }
  }

  lemma {:induction false} EraseDual(n: Node, x: nat, it: Meaning)
    ensures Dual(Erase(n), x, it) == Dual(n, x, it)
    decreases n, 1
  {
    match n
    case Group(a) =>
      EraseVaries(n, x);
      EraseEval(n, it);
      EraseDual(a, x, it);
    case Unary(_, a) =>
      EraseVaries(n, x);
      EraseEval(n, it);
      EraseDual(a, x, it);
    case Binary(op, a, b) => EraseBinary(n, x, it);
    case Call(fn, args) => EraseCall(n, x, it);
    case _ =>
      EraseVaries(n, x);
      EraseEval(n, it);
  }

  lemma {:induction false} EraseBinary(n: Node, x: nat, it: Meaning)
    requires n.Binary?
    ensures Dual(Erase(n), x, it) == Dual(n, x, it)
    decreases n, 0
  {
    EraseVaries(n, x);
    EraseEval(n, it);
    EraseDual(n.left, x, it);
    EraseDual(n.right, x, it);
    ErasePower(n.left, n.right, x, it);
    hide Eval, Varies, QuotientPart, PowerPart, Times;
  }

  lemma {:induction false} EraseCall(n: Node, x: nat, it: Meaning)
    requires n.Call?
    ensures Dual(Erase(n), x, it) == Dual(n, x, it)
    decreases n, 0
  {
    EraseVaries(n, x);
    EraseEval(n, it);
    ErasedCall(n);
    hide Erase, Eval, Varies, SlopeAt, CallPart, Times;
    if |n.args| == 1 {
      EraseDual(n.args[0], x, it);
    } else if |n.args| == 2 {
      EraseDual(n.args[0], x, it);
      EraseDual(n.args[1], x, it);
      ErasePower(n.args[0], n.args[1], x, it);
    }
  }

  /** The parts that look at the operand trees look through groups. */
  lemma ErasePower(a: Node, b: Node, x: nat, it: Meaning)
    ensures forall da: Pair, db: Pair, w: real ::
              PowerPart(Erase(a), Erase(b), da, db, w, x, it) == PowerPart(a, b, da, db, w, x, it)
    ensures forall fn: Fn, da: Pair, db: Pair, w: real ::
              CallPart(fn, Erase(a), Erase(b), da, db, w, x, it) == CallPart(fn, a, b, da, db, w, x, it)
  {
    EraseVaries(a, x);
    EraseVaries(b, x);
    EraseLiteral(b);
    EraseIsE(a);
    hide Erase, Varies, Literal, IsE, QuotientPart, Times, Inverse, Both;
  }

  /** Trees that are equal once erased have the same derivative. */
  lemma SoundErased(n: Node, after: Node, x: nat)
    ensures Sound(Erase(n), after, x) <==> Sound(n, after, x)
  {
    forall it: Meaning ensures Dual(Erase(n), x, it) == Dual(n, x, it) { EraseDual(n, x, it); }
  }

  // ---- leaves, sums, products and quotients ----

  lemma ConstantSound(n: Node, x: nat)
    requires !Varies(n, x)
    ensures Sound(n, ZERO, x)
  {
    forall it: Meaning ensures Eval(ZERO, it) == Some(0.0) { WholeEval(0, it); }
  }

  lemma VariableSound(x: nat)
    ensures Sound(Name(x), ONE, x)
  {
    forall it: Meaning ensures Eval(ONE, it) == Some(1.0) { WholeEval(1, it); }
  }

  lemma {:induction false} StripDual(n: Node, x: nat, it: Meaning)
    ensures Dual(Strip(n), x, it) == Dual(n, x, it)
  {
    match n
    case Group(a) => StripDual(a, x, it);
    case Unary(negative, a) => if !negative { StripDual(a, x, it); }
    case _ =>
  }

  lemma SoundStripped(n: Node, after: Node, x: nat)
    ensures Sound(Strip(n), after, x) <==> Sound(n, after, x)
  {
    forall it: Meaning ensures Dual(Strip(n), x, it) == Dual(n, x, it) { StripDual(n, x, it); }
  }

  /** The e-parts of a binary operation come from its operands. */
  lemma BinaryDual(op: Op, a: Node, b: Node, x: nat, it: Meaning)
    requires Varies(a, x) || Varies(b, x)
    requires Dual(Binary(op, a, b), x, it).Some?
    ensures Dual(a, x, it).Some? && Dual(b, x, it).Some?
    ensures var e, p, q := Dual(Binary(op, a, b), x, it).value.e, Dual(a, x, it).value, Dual(b, x, it).value;
            && (op == Add ==> e == p.e + q.e)
            && (op == Sub ==> e == p.e - q.e)
            && (op == Mul ==> e == Times(p.e, q.v) + Times(p.v, q.e))
            && (op == Div ==> Some(e) == QuotientPart(p, q))
  {
    hide Times, QuotientPart, PowerPart;
  }

  lemma NegationEval(df: Node, decimal: bool, it: Meaning, e: real)
    requires Eval(df, it) == Some(e)
    ensures Eval(FoldTimes(Unary(true, ONE), df, decimal), it) == Some(-e)
  {
    WholeEval(1, it);
    hide FoldTimes, Times;
    TimesEval(Unary(true, ONE), df, decimal, it, -1.0, e);
    TimesMinus(1.0, e);
  }

  lemma NegationDual(f: Node, x: nat, it: Meaning)
    requires Varies(f, x) && Dual(Unary(true, f), x, it).Some?
    ensures Dual(f, x, it).Some? && Dual(Unary(true, f), x, it).value.e == -Dual(f, x, it).value.e
  {}

  lemma NegationSound(f: Node, df: Node, x: nat, decimal: bool)
    requires Sound(f, df, x) && Varies(f, x)
    ensures Sound(Unary(true, f), FoldTimes(Unary(true, ONE), df, decimal), x)
  {
    hide FoldTimes, Lawful, Varies, Val;
    var n, tree := Unary(true, f), FoldTimes(Unary(true, ONE), df, decimal);
    forall it: Meaning | Lawful(it) && Dual(n, x, it).Some? ensures Eval(tree, it) == Some(Dual(n, x, it).value.e) {
      NegationDual(f, x, it);
      NegationEval(df, decimal, it, Dual(f, x, it).value.e);
    }
  }

  lemma ConstantDual(c: Node, x: nat, it: Meaning)
    requires !Varies(c, x) && Dual(c, x, it).Some?
    ensures Dual(c, x, it).value.e == 0.0
  {}

  lemma ScaledEval(c: Node, df: Node, decimal: bool, it: Meaning, p: real, q: Pair)
    requires Eval(c, it) == Some(p) && Eval(df, it) == Some(q.e)
    ensures Eval(FoldTimes(c, df, decimal), it) == Some(Times(0.0, q.v) + Times(p, q.e))
    ensures Times(0.0, q.v) + Times(p, q.e) == Times(q.e, p) + Times(q.v, 0.0)
  {
    TimesEval(c, df, decimal, it, p, q.e);
    TimesUnit(q.v);
    TimesMinus(p, q.e);
  }

  lemma ScaledLeft(c: Node, f: Node, df: Node, x: nat, decimal: bool)
    requires Sound(f, df, x) && Varies(f, x) && !Varies(c, x)
    ensures Sound(Binary(Mul, c, f), FoldTimes(c, df, decimal), x)
  {
    hide FoldTimes, Lawful, Times, Varies;
    forall it: Meaning | Lawful(it) && Dual(Binary(Mul, c, f), x, it).Some?
      ensures Eval(FoldTimes(c, df, decimal), it) == Some(Dual(Binary(Mul, c, f), x, it).value.e)
    {
      BinaryDual(Mul, c, f, x, it);
      ConstantDual(c, x, it);
      ScaledEval(c, df, decimal, it, Dual(c, x, it).value.v, Dual(f, x, it).value);
    }
  }

  lemma ScaledRight(f: Node, c: Node, df: Node, x: nat, decimal: bool)
    requires Sound(f, df, x) && Varies(f, x) && !Varies(c, x)
    ensures Sound(Binary(Mul, f, c), FoldTimes(c, df, decimal), x)
  {
    hide FoldTimes, Lawful, Times, Varies;
    forall it: Meaning | Lawful(it) && Dual(Binary(Mul, f, c), x, it).Some?
      ensures Eval(FoldTimes(c, df, decimal), it) == Some(Dual(Binary(Mul, f, c), x, it).value.e)
    {
      BinaryDual(Mul, f, c, x, it);
      ConstantDual(c, x, it);
      ScaledEval(c, df, decimal, it, Dual(c, x, it).value.v, Dual(f, x, it).value);
    }
  }

  function ProductTree(f: Node, g: Node, df: Node, dg: Node, decimal: bool): Node {
    FoldPlus(FoldTimes(df, g, decimal), FoldTimes(f, dg, decimal), decimal)
  }

  lemma ProductEval(f: Node, g: Node, df: Node, dg: Node, decimal: bool, it: Meaning, p: Pair, q: Pair)
    requires Eval(f, it) == Some(p.v) && Eval(g, it) == Some(q.v)
    requires Eval(df, it) == Some(p.e) && Eval(dg, it) == Some(q.e)
    ensures Eval(ProductTree(f, g, df, dg, decimal), it) == Some(Times(p.e, q.v) + Times(p.v, q.e))
  {
    hide Eval, FoldTimes, FoldPlus, Times;
    TimesEval(df, g, decimal, it, p.e, q.v);
    TimesEval(f, dg, decimal, it, p.v, q.e);
    PlusEval(FoldTimes(df, g, decimal), FoldTimes(f, dg, decimal), decimal, it, Times(p.e, q.v), Times(p.v, q.e));
  }

  lemma ProductSound(f: Node, g: Node, df: Node, dg: Node, x: nat, decimal: bool)
    requires Sound(f, df, x) && Sound(g, dg, x) && Varies(f, x)
    ensures Sound(Binary(Mul, f, g), ProductTree(f, g, df, dg, decimal), x)
  {
    hide ProductTree, Lawful, Times, Varies;
    var n := Binary(Mul, f, g);
    forall it: Meaning | Lawful(it) && Dual(n, x, it).Some?
      ensures Eval(ProductTree(f, g, df, dg, decimal), it) == Some(Dual(n, x, it).value.e)
    {
      BinaryDual(Mul, f, g, x, it);
      ProductEval(f, g, df, dg, decimal, it, Dual(f, x, it).value, Dual(g, x, it).value);
    }
  }

  lemma ConstantQuotient(a: real, e: real, b: real)
    requires b != 0.0
    ensures Times(b, b) != 0.0 && (Times(e, b) - Times(a, 0.0)) / Times(b, b) == e / b
  {
    NonzeroProduct(b, b);
    TimesUnit(a);
    assert Times(Times(e, b), b) == Times(e, Times(b, b));
    SameRatio(Times(e, b), Times(b, b), e, b);
  }

  lemma DivisorEval(df: Node, g: Node, decimal: bool, it: Meaning, p: Pair, q: Pair)
    requires Eval(df, it) == Some(p.e) && Eval(g, it) == Some(q.v) && q.e == 0.0 && QuotientPart(p, q).Some?
    ensures Eval(FoldOver(df, g, decimal), it) == QuotientPart(p, q)
  {
    ConstantQuotient(p.v, p.e, q.v);
    hide FoldOver, Times, Eval;
    OverEval(df, g, decimal, it, p.e, q.v);
  }

  lemma DivisorSound(f: Node, g: Node, df: Node, x: nat, decimal: bool)
    requires Sound(f, df, x) && Varies(f, x) && !Varies(g, x)
    ensures Sound(Binary(Div, f, g), FoldOver(df, g, decimal), x)
  {
    hide FoldOver, Lawful, QuotientPart, Varies;
    var n := Binary(Div, f, g);
    forall it: Meaning | Lawful(it) && Dual(n, x, it).Some?
      ensures Eval(FoldOver(df, g, decimal), it) == Some(Dual(n, x, it).value.e)
    {
      BinaryDual(Div, f, g, x, it);
      ConstantDual(g, x, it);
      DivisorEval(df, g, decimal, it, Dual(f, x, it).value, Dual(g, x, it).value);
    }
  }

  function QuotientTree(f: Node, g: Node, df: Node, dg: Node, decimal: bool): Node {
    FoldOver(FoldMinus(FoldTimes(df, g, decimal), FoldTimes(f, dg, decimal), decimal), FoldPow(g, TWO), decimal)
  }

  lemma QuotientEval(f: Node, g: Node, df: Node, dg: Node, decimal: bool, it: Meaning, p: Pair, q: Pair)
    requires Lawful(it) && Eval(f, it) == Some(p.v) && Eval(g, it) == Some(q.v)
    requires Eval(df, it) == Some(p.e) && Eval(dg, it) == Some(q.e) && QuotientPart(p, q).Some?
    ensures Eval(QuotientTree(f, g, df, dg, decimal), it) == QuotientPart(p, q)
  {
    hide Eval, FoldTimes, FoldOver, FoldMinus, FoldPow, Times, Lawful, Both;
    NonzeroProduct(q.v, q.v);
    GSquared(g, it, q.v);
    TimesEval(df, g, decimal, it, p.e, q.v);
    TimesEval(f, dg, decimal, it, p.v, q.e);
    MinusEval(FoldTimes(df, g, decimal), FoldTimes(f, dg, decimal), decimal, it, Times(p.e, q.v), Times(p.v, q.e));
    OverEval(FoldMinus(FoldTimes(df, g, decimal), FoldTimes(f, dg, decimal), decimal), FoldPow(g, TWO), decimal, it,
             Times(p.e, q.v) - Times(p.v, q.e), Times(q.v, q.v));
  }

  lemma GSquared(g: Node, it: Meaning, u: real)
    requires Lawful(it) && Eval(g, it) == Some(u)
    ensures Eval(FoldPow(g, TWO), it) == Some(Times(u, u))
  {
    hide Eval, FoldPow, Lawful;
    SquareEval(g, it, Some(u));
  }

  lemma QuotientSound(f: Node, g: Node, df: Node, dg: Node, x: nat, decimal: bool)
    requires Sound(f, df, x) && Sound(g, dg, x) && Varies(g, x)
    ensures Sound(Binary(Div, f, g), QuotientTree(f, g, df, dg, decimal), x)
  {
    hide QuotientTree, QuotientPart, Lawful, Varies;
    var n := Binary(Div, f, g);
    forall it: Meaning | Lawful(it) && Dual(n, x, it).Some?
      ensures Eval(QuotientTree(f, g, df, dg, decimal), it) == Some(Dual(n, x, it).value.e)
    {
      BinaryDual(Div, f, g, x, it);
      QuotientEval(f, g, df, dg, decimal, it, Dual(f, x, it).value, Dual(g, x, it).value);
    }
  }

  // ---- a chain of + and - ----

  datatype Item = Item(node: Node, negative: bool)

  /** The terms of a chain of `+` and `-`, in order. */
  function TermsOf(n: Node): (items: seq<Item>)
    ensures items != []
    ensures forall k :: 0 <= k < |items| ==> Size(items[k].node) <= Size(n)
    decreases Size(n)
  {
    var s := Strip(n);
    if s.Binary? && (s.op == Add || s.op == Sub) then TermsOf(s.left) + [Item(s.right, s.op == Sub)]
    else [Item(n, false)]
  }

  /** The sum of the e-parts of the first k terms. */
  function PartSum(items: seq<Item>, k: nat, x: nat, it: Meaning): Option<real>
    requires k <= |items|
  {
    if k == 0 then Some(0.0)
    else
      var front, d := PartSum(items, k - 1, x, it), Dual(items[k - 1].node, x, it);
      if front.None? || d.None? then None
      else Some(if items[k - 1].negative then front.value - d.value.e else front.value + d.value.e)
  }

  lemma {:induction false} PartSumPrefix(items: seq<Item>, more: seq<Item>, k: nat, x: nat, it: Meaning)
    requires k <= |items|
    ensures PartSum(items + more, k, x, it) == PartSum(items, k, x, it)
  {
    if k > 0 {
      assert (items + more)[k - 1] == items[k - 1];
      PartSumPrefix(items, more, k - 1, x, it);
    }
  }

  /** The e-parts of a sum's operands, whether it varies or not. */
  lemma SumDual(op: Op, a: Node, b: Node, x: nat, it: Meaning)
    requires (op == Add || op == Sub) && Dual(Binary(op, a, b), x, it).Some?
    ensures Dual(a, x, it).Some? && Dual(b, x, it).Some?
    ensures var e, p, q := Dual(Binary(op, a, b), x, it).value.e, Dual(a, x, it).value.e, Dual(b, x, it).value.e;
            e == if op == Add then p + q else p - q
  {
    if Varies(a, x) || Varies(b, x) { BinaryDual(op, a, b, x, it); }
  }

  /** The e-part of a chain is the signed sum of its terms' e-parts. */
  lemma {:induction false} ChainOfSums(n: Node, x: nat, it: Meaning)
    requires Dual(n, x, it).Some?
    ensures PartSum(TermsOf(n), |TermsOf(n)|, x, it) == Some(Dual(n, x, it).value.e)
    decreases Size(n)
  {
    var s := Strip(n);
    StripDual(n, x, it);
    hide Dual, Strip;
    if s.Binary? && (s.op == Add || s.op == Sub) {
      var front, last := TermsOf(s.left), Item(s.right, s.op == Sub);
      SumDual(s.op, s.left, s.right, x, it);
      ChainOfSums(s.left, x, it);
      PartSumPrefix(front, [last], |front|, x, it);
      var items := front + [last];
      assert items[|items| - 1] == last;
    } else {
      var items := [Item(n, false)];
      assert PartSum(items, 0, x, it) == Some(0.0);
    }
  }

  /** `out` adds up the first k terms. */
  ghost predicate PartlySound(n: Node, k: nat, out: Node, x: nat)
    requires k <= |TermsOf(n)|
  {
    forall it: Meaning :: Lawful(it) && Dual(n, x, it).Some? ==> Eval(out, it) == PartSum(TermsOf(n), k, x, it)
  }

  lemma StartSum(n: Node, x: nat)
    ensures PartlySound(n, 0, ZERO, x)
  {
    forall it: Meaning ensures Eval(ZERO, it) == Some(0.0) { WholeEval(0, it); }
  }

  lemma {:induction false} PartSumDefined(items: seq<Item>, j: nat, k: nat, x: nat, it: Meaning)
    requires j <= k <= |items| && PartSum(items, k, x, it).Some?
    ensures PartSum(items, j, x, it).Some?
  {
    if j < k { PartSumDefined(items, j, k - 1, x, it); }
  }

  lemma StepSum(n: Node, k: nat, out: Node, d: Node, x: nat, decimal: bool)
    requires k < |TermsOf(n)| && PartlySound(n, k, out, x) && Sound(TermsOf(n)[k].node, d, x)
    ensures PartlySound(n, k + 1, if TermsOf(n)[k].negative then FoldMinus(out, d, decimal) else FoldPlus(out, d, decimal), x)
  {
    hide FoldMinus, FoldPlus, TermsOf, Lawful;
    var items := TermsOf(n);
    forall it: Meaning | Lawful(it) && Dual(n, x, it).Some?
      ensures Eval(if items[k].negative then FoldMinus(out, d, decimal) else FoldPlus(out, d, decimal), it)
           == PartSum(items, k + 1, x, it)
    {
      ChainOfSums(n, x, it);
      PartSumDefined(items, k + 1, |items|, x, it);
      var p, e := PartSum(items, k, x, it).value, Dual(items[k].node, x, it).value.e;
      PlusEval(out, d, decimal, it, p, e);
      MinusEval(out, d, decimal, it, p, e);
    }
  }

  lemma EndSum(n: Node, out: Node, x: nat)
    requires PartlySound(n, |TermsOf(n)|, out, x)
    ensures Sound(n, out, x)
  {
    forall it: Meaning | Lawful(it) && Dual(n, x, it).Some? ensures Eval(out, it) == Some(Dual(n, x, it).value.e) {
      ChainOfSums(n, x, it);
    }
  }

  // ---- the chain rule ----

  /** `outer` is the derivative of n as a function of the value of u. */
  ghost predicate OuterSound(n: Node, u: Node, outer: Node, x: nat) {
    forall it: Meaning :: Lawful(it) && Dual(n, x, it).Some? ==>
      Dual(u, x, it).Some? && Eval(outer, it).Some?
      && Dual(n, x, it).value.e == Times(Eval(outer, it).value, Dual(u, x, it).value.e)
  }

  lemma ChainSound(n: Node, u: Node, outer: Node, du: Node, x: nat, decimal: bool)
    requires OuterSound(n, u, outer, x) && Sound(u, du, x)
    ensures Sound(n, FoldTimes(outer, du, decimal), x)
  {
    hide FoldTimes, Lawful, Times;
    forall it: Meaning | Lawful(it) && Dual(n, x, it).Some?
      ensures Eval(FoldTimes(outer, du, decimal), it) == Some(Dual(n, x, it).value.e)
    {
      TimesEval(outer, du, decimal, it, Eval(outer, it).value, Dual(u, x, it).value.e);
    }
  }

  /** At the variable itself the outer derivative is the whole derivative. */
  lemma DirectSound(n: Node, u: Node, outer: Node, x: nat)
    requires OuterSound(n, u, outer, x) && Strip(u).Name? && Strip(u).name == x
    ensures Sound(n, outer, x)
  {
    hide Lawful;
    forall it: Meaning | Lawful(it) && Dual(n, x, it).Some? ensures Eval(outer, it) == Some(Dual(n, x, it).value.e) {
      StripDual(u, x, it);
      TimesUnit(Eval(outer, it).value);
    }
  }
}
