/** The differentiation rules (`scaled`, `power`, `outer`, `call` and the table `FUNCTIONS`,
    packages/cas/src/differentiate.ts), each sound for dual evaluation. */
module Rules {
  import opened Options
  import opened Reals
  import opened Rationals
  import opened Trees
  import opened DualNumbers

  // ---- the table ----

  function Of(fn: Fn, u: Node): Node { Call(fn, [u]) }

  function SquareOf(u: Node): Node { FoldPow(u, TWO) }

  function Reciprocal(d: Node, decimal: bool): Node { FoldOver(ONE, d, decimal) }

  function Arcsecant(u: Node, decimal: bool): Node {
    Reciprocal(FoldTimes(Of(Abs, u), Of(Sqrt, FoldMinus(SquareOf(u), ONE, decimal)), decimal), decimal)
  }

  /** `FUNCTIONS`: the derivative of a function of one argument at u. */
  function Table(fn: Fn, u: Node, decimal: bool): Option<Node> {
    var uu := SquareOf(u);
    match fn
    case Sin => Some(Of(Cos, u))
    case Cos => Some(Negate(Of(Sin, u), decimal))
    case Tan => Some(SquareOf(Of(Sec, u)))
    case Sec => Some(FoldTimes(Of(Sec, u), Of(Tan, u), decimal))
    case Csc => Some(Negate(FoldTimes(Of(Csc, u), Of(Cot, u), decimal), decimal))
    case Cot => Some(Negate(SquareOf(Of(Csc, u)), decimal))
    case Asin => Some(Reciprocal(Of(Sqrt, FoldMinus(ONE, uu, decimal)), decimal))
    case Acos => Some(Negate(Reciprocal(Of(Sqrt, FoldMinus(ONE, uu, decimal)), decimal), decimal))
    case Atan => Some(Reciprocal(FoldPlus(ONE, uu, decimal), decimal))
    case Asec => Some(Arcsecant(u, decimal))
    case Acsc => Some(Negate(Arcsecant(u, decimal), decimal))
    case Acot => Some(Negate(Reciprocal(FoldPlus(ONE, uu, decimal), decimal), decimal))
    case Sinh => Some(Of(Cosh, u))
    case Cosh => Some(Of(Sinh, u))
    case Tanh => Some(SquareOf(Of(Sech, u)))
    case Sech => Some(Negate(FoldTimes(Of(Sech, u), Of(Tanh, u), decimal), decimal))
    case Csch => Some(Negate(FoldTimes(Of(Csch, u), Of(Coth, u), decimal), decimal))
    case Coth => Some(Negate(SquareOf(Of(Csch, u)), decimal))
    case Asinh => Some(Reciprocal(Of(Sqrt, FoldPlus(uu, ONE, decimal)), decimal))
    case Acosh => Some(Reciprocal(Of(Sqrt, FoldMinus(uu, ONE, decimal)), decimal))
    case Atanh => Some(Reciprocal(FoldMinus(ONE, uu, decimal), decimal))
    case Asech => Some(Negate(Reciprocal(FoldTimes(u, Of(Sqrt, FoldMinus(ONE, uu, decimal)), decimal), decimal), decimal))
    case Acsch =>
      Some(Negate(Reciprocal(FoldTimes(Of(Abs, u), Of(Sqrt, FoldPlus(ONE, uu, decimal)), decimal), decimal), decimal))
    case Acoth => Some(Reciprocal(FoldMinus(ONE, uu, decimal), decimal))
    case _ => None
  }

  /** The outer derivative of a call of one argument. */
  function OuterOf(fn: Fn, node: Node, u: Node, decimal: bool): Option<Node> {
    match fn
    case Exp => Some(node)
    case Ln => Some(FoldOver(ONE, u, decimal))
    case Log => Some(FoldOver(ONE, u, decimal))
    case Log10 => Some(FoldOver(ONE, FoldTimes(u, Of(Ln, Number(Fraction(10, 1), 0)), decimal), decimal))
    case Log2 => Some(FoldOver(ONE, FoldTimes(u, Of(Ln, Number(Fraction(2, 1), 0)), decimal), decimal))
    case Sqrt => Some(FoldOver(ONE, FoldTimes(TWO, node, decimal), decimal))
    case NthRoot => Some(FoldOver(ONE, FoldTimes(TWO, node, decimal), decimal))
    case Cbrt => Some(FoldOver(ONE, FoldTimes(Number(Fraction(3, 1), 0), FoldPow(node, TWO), decimal), decimal))
    case Abs => Some(Of(Sign, u))
    case _ => Table(fn, u, decimal)
  }

  // ---- building blocks ----

  lemma OfEval(fn: Fn, u: Node, it: Meaning, x: real)
    requires Eval(u, it) == Some(x)
    ensures Eval(Of(fn, u), it) == At(it, fn, x)
  {
    var n := Of(fn, u);
    assert EvalArgs(n, 0, it) == Some([]);
    assert EvalArgs(n, 1, it) == Some([] + [x]);
    assert [] + [x] == [x];
  }

  lemma WholeEval(k: int, it: Meaning)
    ensures Eval(Number(Fraction(k, 1), 0), it) == Some(k as real)
  {
    WholeValue(k);
  }

  lemma SquareEval(u: Node, it: Meaning, x: Option<real>)
    requires Lawful(it) && Eval(u, it) == x && x.Some?
    ensures Eval(SquareOf(u), it) == Square(x)
  {
    WholeEval(2, it);
    PowEval(u, TWO, it, x.value, 2.0, Times(x.value, x.value));
  }

  lemma ReciprocalEval(d: Node, decimal: bool, it: Meaning, x: Option<real>)
    requires Eval(d, it) == x && Inverse(x).Some?
    ensures Eval(Reciprocal(d, decimal), it) == Inverse(x)
  {
    WholeEval(1, it);
    OverEval(ONE, d, decimal, it, 1.0, x.value);
  }

  lemma NegEval(a: Node, decimal: bool, it: Meaning, x: Option<real>)
    requires Eval(a, it) == x && x.Some?
    ensures Eval(Negate(a, decimal), it) == Neg(x)
  {
    NegateEval(a, decimal, it, x.value);
  }

  lemma BothEval(a: Node, b: Node, decimal: bool, it: Meaning, x: Option<real>, y: Option<real>)
    requires Eval(a, it) == x && Eval(b, it) == y && x.Some? && y.Some?
    ensures Eval(FoldTimes(a, b, decimal), it) == Both(x, y)
  {
    TimesEval(a, b, decimal, it, x.value, y.value);
  }

  /** 1 - u^2, u^2 - 1 and 1 + u^2. */
  lemma SquareSums(u: Node, decimal: bool, it: Meaning, x: real)
    requires Lawful(it) && Eval(u, it) == Some(x)
    ensures Eval(FoldMinus(ONE, SquareOf(u), decimal), it) == Some(1.0 - Times(x, x))
    ensures Eval(FoldMinus(SquareOf(u), ONE, decimal), it) == Some(Times(x, x) - 1.0)
    ensures Eval(FoldPlus(ONE, SquareOf(u), decimal), it) == Some(1.0 + Times(x, x))
    ensures Eval(FoldPlus(SquareOf(u), ONE, decimal), it) == Some(Times(x, x) + 1.0)
  {
    WholeEval(1, it);
    SquareEval(u, it, Some(x));
    var uu := SquareOf(u);
    hide *;
    MinusEval(ONE, uu, decimal, it, 1.0, Times(x, x));
    MinusEval(uu, ONE, decimal, it, Times(x, x), 1.0);
    PlusEval(ONE, uu, decimal, it, 1.0, Times(x, x));
    PlusEval(uu, ONE, decimal, it, Times(x, x), 1.0);
  }

  // ---- the table is sound ----

  predicate Circular(fn: Fn) {
    fn == Sin || fn == Cos || fn == Tan || fn == Sec || fn == Csc || fn == Cot
    || fn == Sinh || fn == Cosh || fn == Tanh || fn == Sech || fn == Csch || fn == Coth
  }

  lemma CircularSound(fn: Fn, u: Node, decimal: bool, it: Meaning, x: real)
    requires Circular(fn) && Lawful(it) && Eval(u, it) == Some(x) && Slope(fn, x, it).Some?
    ensures Table(fn, u, decimal).Some? && Eval(Table(fn, u, decimal).value, it) == Slope(fn, x, it)
  {
    hide Eval, Of, SquareOf, FoldTimes, Negate, At, Lawful;
    forall f: Fn ensures Eval(Of(f, u), it) == At(it, f, x) { OfEval(f, u, it, x); }
    match fn
    case Sin => 
    case Cos => NegEval(Of(Sin, u), decimal, it, At(it, Sin, x));
    case Tan => SquareEval(Of(Sec, u), it, At(it, Sec, x));
    case Sec => BothEval(Of(Sec, u), Of(Tan, u), decimal, it, At(it, Sec, x), At(it, Tan, x));
    case Csc =>
      BothEval(Of(Csc, u), Of(Cot, u), decimal, it, At(it, Csc, x), At(it, Cot, x));
      NegEval(FoldTimes(Of(Csc, u), Of(Cot, u), decimal), decimal, it, Both(At(it, Csc, x), At(it, Cot, x)));
    case Cot =>
      SquareEval(Of(Csc, u), it, At(it, Csc, x));
      NegEval(SquareOf(Of(Csc, u)), decimal, it, Square(At(it, Csc, x)));
    case Sinh =>
    case Cosh =>
    case Tanh => SquareEval(Of(Sech, u), it, At(it, Sech, x));
    case Sech =>
      BothEval(Of(Sech, u), Of(Tanh, u), decimal, it, At(it, Sech, x), At(it, Tanh, x));
      NegEval(FoldTimes(Of(Sech, u), Of(Tanh, u), decimal), decimal, it, Both(At(it, Sech, x), At(it, Tanh, x)));
    case Csch =>
      BothEval(Of(Csch, u), Of(Coth, u), decimal, it, At(it, Csch, x), At(it, Coth, x));
      NegEval(FoldTimes(Of(Csch, u), Of(Coth, u), decimal), decimal, it, Both(At(it, Csch, x), At(it, Coth, x)));
    case Coth =>
      SquareEval(Of(Csch, u), it, At(it, Csch, x));
      NegEval(SquareOf(Of(Csch, u)), decimal, it, Square(At(it, Csch, x)));
  }

  /** 1/d and -1/d. */
  lemma InverseParts(d: Node, decimal: bool, it: Meaning, y: Option<real>)
    requires Eval(d, it) == y && Inverse(y).Some?
    ensures Eval(Reciprocal(d, decimal), it) == Inverse(y)
    ensures Eval(Negate(Reciprocal(d, decimal), decimal), it) == Neg(Inverse(y))
  {
    hide Eval, Negate, Reciprocal;
    ReciprocalEval(d, decimal, it, y);
    NegEval(Reciprocal(d, decimal), decimal, it, Inverse(y));
  }

  /** 1/sqrt(s), 1/(a*sqrt(s)) and their negations, for s the value of a tree. */
  lemma RootParts(s: Node, a: Node, decimal: bool, it: Meaning, y: real, z: Option<real>)
    requires Eval(s, it) == Some(y) && Eval(a, it) == z
    ensures var r := At(it, Sqrt, y);
            && (Inverse(r).Some? ==>
                  Eval(Reciprocal(Of(Sqrt, s), decimal), it) == Inverse(r)
                  && Eval(Negate(Reciprocal(Of(Sqrt, s), decimal), decimal), it) == Neg(Inverse(r)))
            && (Inverse(Both(z, r)).Some? ==>
                  var d := FoldTimes(a, Of(Sqrt, s), decimal);
                  Eval(Reciprocal(d, decimal), it) == Inverse(Both(z, r))
                  && Eval(Negate(Reciprocal(d, decimal), decimal), it) == Neg(Inverse(Both(z, r))))
  {
    hide Eval, Negate, Reciprocal, FoldTimes, At, Times;
    OfEval(Sqrt, s, it, y);
    var r := At(it, Sqrt, y);
    if Inverse(r).Some? { InverseParts(Of(Sqrt, s), decimal, it, r); }
    if Inverse(Both(z, r)).Some? {
      BothEval(a, Of(Sqrt, s), decimal, it, z, r);
      InverseParts(FoldTimes(a, Of(Sqrt, s), decimal), decimal, it, Both(z, r));
    }
  }

  lemma InverseFunctionsSound(fn: Fn, u: Node, decimal: bool, it: Meaning, x: real)
    requires !Circular(fn) && Lawful(it) && Eval(u, it) == Some(x) && Slope(fn, x, it).Some?
    ensures Table(fn, u, decimal).Some? && Eval(Table(fn, u, decimal).value, it) == Slope(fn, x, it)
  {
    hide Eval, Of, SquareOf, FoldTimes, FoldPlus, FoldMinus, Negate, At, Lawful, Reciprocal, Times, Both, Inverse, Neg;
    SquareSums(u, decimal, it, x);
    OfEval(Abs, u, it, x);
    var uu, xx, a, z := SquareOf(u), Times(x, x), Of(Abs, u), At(it, Abs, x);
    InverseNeg(Slope(fn, x, it));
    match fn
    case Asin => RootParts(FoldMinus(ONE, uu, decimal), a, decimal, it, 1.0 - xx, z);
    case Acos => RootParts(FoldMinus(ONE, uu, decimal), a, decimal, it, 1.0 - xx, z);
    case Atan => InverseParts(FoldPlus(ONE, uu, decimal), decimal, it, Some(1.0 + xx));
    case Asec => RootParts(FoldMinus(uu, ONE, decimal), a, decimal, it, xx - 1.0, z);
    case Acsc => RootParts(FoldMinus(uu, ONE, decimal), a, decimal, it, xx - 1.0, z);
    case Acot => InverseParts(FoldPlus(ONE, uu, decimal), decimal, it, Some(1.0 + xx));
    case Asinh => RootParts(FoldPlus(uu, ONE, decimal), a, decimal, it, xx + 1.0, z);
    case Acosh => RootParts(FoldMinus(uu, ONE, decimal), a, decimal, it, xx - 1.0, z);
    case Atanh => InverseParts(FoldMinus(ONE, uu, decimal), decimal, it, Some(1.0 - xx));
    case Asech => RootParts(FoldMinus(ONE, uu, decimal), u, decimal, it, 1.0 - xx, Some(x));
    case Acsch => RootParts(FoldPlus(ONE, uu, decimal), a, decimal, it, 1.0 + xx, z);
    case Acoth => InverseParts(FoldMinus(ONE, uu, decimal), decimal, it, Some(1.0 - xx));
  }

  lemma InverseNeg(o: Option<real>)
    ensures forall y :: o == Neg(y) && o.Some? ==> y.Some?
  {}

  lemma TableSound(fn: Fn, u: Node, decimal: bool, it: Meaning, x: real)
    requires Lawful(it) && Eval(u, it) == Some(x) && Slope(fn, x, it).Some?
    ensures Table(fn, u, decimal).Some? && Eval(Table(fn, u, decimal).value, it) == Slope(fn, x, it)
  {
    hide *;
    if Circular(fn) { CircularSound(fn, u, decimal, it, x); } else { InverseFunctionsSound(fn, u, decimal, it, x); }
  }

  lemma LogPart(k: int, u: Node, decimal: bool, it: Meaning, x: real)
    requires Eval(u, it) == Some(x) && Inverse(Both(Some(x), At(it, Ln, k as real))).Some?
    ensures var ln := Of(Ln, Number(Fraction(k, 1), 0));
            Eval(FoldOver(ONE, FoldTimes(u, ln, decimal), decimal), it) == Inverse(Both(Some(x), At(it, Ln, k as real)))
  {
    var b := Number(Fraction(k, 1), 0);
    WholeEval(k, it);
    OfEval(Ln, b, it, k as real);
    hide Eval, FoldTimes, Of, At, Reciprocal;
    BothEval(u, Of(Ln, b), decimal, it, Some(x), At(it, Ln, k as real));
    ReciprocalIs(FoldTimes(u, Of(Ln, b), decimal), decimal);
    ReciprocalEval(FoldTimes(u, Of(Ln, b), decimal), decimal, it, Both(Some(x), At(it, Ln, k as real)));
  }

  lemma ReciprocalIs(d: Node, decimal: bool)
    ensures Reciprocal(d, decimal) == FoldOver(ONE, d, decimal)
  {}

  /** 1/(2*w). */
  lemma RootPart(node: Node, decimal: bool, it: Meaning, w: real)
    requires Eval(node, it) == Some(w) && Inverse(Some(Times(2.0, w))).Some?
    ensures Eval(FoldOver(ONE, FoldTimes(TWO, node, decimal), decimal), it) == Inverse(Some(Times(2.0, w)))
  {
    WholeEval(2, it);
    hide Eval, FoldTimes, Reciprocal, Times;
    TimesEval(TWO, node, decimal, it, 2.0, w);
    ReciprocalIs(FoldTimes(TWO, node, decimal), decimal);
    ReciprocalEval(FoldTimes(TWO, node, decimal), decimal, it, Some(Times(2.0, w)));
  }

  /** 1/(3*w^2). */
  lemma CubeRootPart(node: Node, decimal: bool, it: Meaning, w: real)
    requires Lawful(it) && Eval(node, it) == Some(w) && Inverse(Some(Times(3.0, Times(w, w)))).Some?
    ensures Eval(FoldOver(ONE, FoldTimes(Number(Fraction(3, 1), 0), FoldPow(node, TWO), decimal), decimal), it)
         == Inverse(Some(Times(3.0, Times(w, w))))
  {
    var three := Number(Fraction(3, 1), 0);
    WholeEval(3, it);
    SquareEval(node, it, Some(w));
    assert SquareOf(node) == FoldPow(node, TWO);
    hide Eval, FoldTimes, FoldPow, Reciprocal, Times;
    TimesEval(three, FoldPow(node, TWO), decimal, it, 3.0, Times(w, w));
    var d := FoldTimes(three, FoldPow(node, TWO), decimal);
    ReciprocalIs(d, decimal);
    ReciprocalEval(d, decimal, it, Some(Times(3.0, Times(w, w))));
  }

  lemma LogsAndRootsSound(fn: Fn, node: Node, u: Node, decimal: bool, it: Meaning, x: real, w: real)
    requires fn == Log10 || fn == Log2 || fn == Sqrt || fn == NthRoot || fn == Cbrt
    requires Lawful(it) && Eval(u, it) == Some(x) && Eval(node, it) == Some(w) && SlopeAt(fn, x, w, it).Some?
    ensures OuterOf(fn, node, u, decimal).Some? && Eval(OuterOf(fn, node, u, decimal).value, it) == SlopeAt(fn, x, w, it)
  {
    hide Eval, FoldTimes, FoldOver, FoldPow, Of, At, Slope, Table, Times, Lawful, Inverse, Both;
    match fn
    case Log10 => LogPart(10, u, decimal, it, x);
    case Log2 => LogPart(2, u, decimal, it, x);
    case Sqrt => RootPart(node, decimal, it, w);
    case NthRoot => RootPart(node, decimal, it, w);
    case Cbrt => CubeRootPart(node, decimal, it, w);
  }

  lemma LogarithmSound(u: Node, decimal: bool, it: Meaning, x: real)
    requires Eval(u, it) == Some(x) && Inverse(Some(x)).Some?
    ensures Eval(FoldOver(ONE, u, decimal), it) == Inverse(Some(x))
  {
    hide Eval, Reciprocal, FoldOver;
    ReciprocalEval(u, decimal, it, Some(x));
    ReciprocalIs(u, decimal);
  }

  /** The outer derivative of a call of one argument has the slope's value. */
  lemma OuterOfSound(fn: Fn, node: Node, u: Node, decimal: bool, it: Meaning, x: real, w: real)
    requires Lawful(it) && Eval(u, it) == Some(x) && Eval(node, it) == Some(w) && SlopeAt(fn, x, w, it).Some?
    ensures OuterOf(fn, node, u, decimal).Some? && Eval(OuterOf(fn, node, u, decimal).value, it) == SlopeAt(fn, x, w, it)
  {
    hide Eval, FoldTimes, FoldOver, FoldPow, Of, At, Slope, Table, Times, Lawful, Inverse, Both;
    if fn == Log10 || fn == Log2 || fn == Sqrt || fn == NthRoot || fn == Cbrt {
      hide OuterOf, SlopeAt;
      LogsAndRootsSound(fn, node, u, decimal, it, x, w);
    } else if fn == Ln || fn == Log {
      LogarithmSound(u, decimal, it, x);
    } else if fn == Abs {
      OfEval(Sign, u, it, x);
    } else if fn != Exp {
      TableSound(fn, u, decimal, it, x);
    }
  }
}
