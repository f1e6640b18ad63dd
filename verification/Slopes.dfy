/** The textbook derivatives behind dual evaluation, tied to each other: quotients of sine and cosine have the slopes of
    the quotient rule, inverse functions the reciprocal slopes, and sums, products and powers the first-order terms. */
module Slopes {
  import opened Options
  import opened Reals
  import opened Trees
  import opened DualNumbers

  // ---- sine, cosine and the exponential ----

  /** The slopes that all others follow from. */
  lemma BaseSlopes(u: real, w: real, it: Meaning)
    ensures Slope(Sin, u, it) == At(it, Cos, u) && Slope(Sinh, u, it) == At(it, Cosh, u) && Slope(Cosh, u, it) == At(it, Sinh, u)
    ensures At(it, Sin, u).Some? ==> Slope(Cos, u, it).Some? && Slope(Cos, u, it).value + At(it, Sin, u).value == 0.0
    ensures SlopeAt(Exp, u, w, it) == Some(w)
  {}

  /** The six circular functions at u. */
  ghost predicate Circle(u: real, s: real, c: real, it: Meaning) {
    && At(it, Sin, u) == Some(s) && At(it, Cos, u) == Some(c) && Times(s, s) + Times(c, c) == 1.0
    && (c != 0.0 ==> At(it, Tan, u) == Some(s / c) && At(it, Sec, u) == Some(1.0 / c))
    && (s != 0.0 ==> At(it, Cot, u) == Some(c / s) && At(it, Csc, u) == Some(1.0 / s))
  }

  /** The six hyperbolic functions at u. */
  ghost predicate Hyperbola(u: real, s: real, c: real, it: Meaning) {
    && At(it, Sinh, u) == Some(s) && At(it, Cosh, u) == Some(c) && Times(c, c) - Times(s, s) == 1.0
    && (c != 0.0 ==> At(it, Tanh, u) == Some(s / c) && At(it, Sech, u) == Some(1.0 / c))
    && (s != 0.0 ==> At(it, Coth, u) == Some(c / s) && At(it, Csch, u) == Some(1.0 / s))
  }

  lemma Reciprocals(p: real, q: real, k: real)
    requires q != 0.0 && k == 1.0 / q
    ensures Times(k, q) == 1.0 && p / q == Times(p, k)
  {}

  lemma QuotientTimes(n: real, q: real, k: real)
    requires q != 0.0 && k == 1.0 / q && Times(q, q) != 0.0
    ensures n / Times(q, q) == Times(n, Times(k, k))
  {
    var d := Times(q, q);
    var kk := Times(k, k);
    assert Times(d, kk) == 1.0;
    assert n == Times(n, Times(d, kk)) == Times(Times(n, kk), d);
  }

  /** (p/q)' by the quotient rule, over the reciprocal k of q. */
  lemma QuotientBy(p: real, p': real, q: real, q': real, k: real)
    requires q != 0.0 && k == 1.0 / q
    ensures QuotientPart(Pair(p, p'), Pair(q, q')) == Some(Times(Times(p', q) - Times(p, q'), Times(k, k)))
  {
    NonzeroProduct(q, q);
    QuotientTimes(Times(p', q) - Times(p, q'), q, k);
  }

  lemma CircleIdentities(s: real, c: real, k: real)
    requires Times(s, s) + Times(c, c) == 1.0
    ensures Times(c, c) - Times(s, -s) == 1.0 && Times(-s, s) - Times(c, c) == -1.0
    ensures Times(Times(0.0, c) - Times(1.0, -s), Times(k, k)) == Times(k, Times(s, k))
    ensures Times(Times(0.0, s) - Times(1.0, c), Times(k, k)) == -Times(k, Times(c, k))
  {}

  lemma CircleBase(u: real, s: real, c: real, it: Meaning)
    requires Circle(u, s, c, it)
    ensures Slope(Sin, u, it) == Some(c) && Slope(Cos, u, it) == Some(-s)
  {}

  lemma CosineQuotients(u: real, s: real, c: real, it: Meaning)
    requires Circle(u, s, c, it) && c != 0.0
    ensures Slope(Tan, u, it) == QuotientPart(Pair(s, c), Pair(c, -s))
    ensures Slope(Sec, u, it) == QuotientPart(Pair(1.0, 0.0), Pair(c, -s))
  {
    var k := 1.0 / c;
    Reciprocals(s, c, k);
    hide QuotientPart, Times;
    QuotientBy(s, c, c, -s, k);
    QuotientBy(1.0, 0.0, c, -s, k);
    CircleIdentities(s, c, k);
    TimesUnit(Times(k, k));
  }

  lemma SineQuotients(u: real, s: real, c: real, it: Meaning)
    requires Circle(u, s, c, it) && s != 0.0
    ensures Slope(Cot, u, it) == QuotientPart(Pair(c, -s), Pair(s, c))
    ensures Slope(Csc, u, it) == QuotientPart(Pair(1.0, 0.0), Pair(s, c))
  {
    var k := 1.0 / s;
    Reciprocals(c, s, k);
    hide QuotientPart, Times;
    QuotientBy(c, -s, s, c, k);
    QuotientBy(1.0, 0.0, s, c, k);
    CircleIdentities(s, c, k);
    TimesNegatedUnit(Times(k, k));
  }

  /** tan = sin/cos, sec = 1/cos, cot = cos/sin and csc = 1/sin have the slopes of the quotient rule. */
  lemma CircularQuotients(u: real, s: real, c: real, it: Meaning)
    requires Circle(u, s, c, it)
    ensures var sin', cos' := Slope(Sin, u, it), Slope(Cos, u, it);
            && sin' == Some(c) && cos' == Some(-s)
            && (c != 0.0 ==> Slope(Tan, u, it) == QuotientPart(Pair(s, sin'.value), Pair(c, cos'.value)))
            && (c != 0.0 ==> Slope(Sec, u, it) == QuotientPart(Pair(1.0, 0.0), Pair(c, cos'.value)))
            && (s != 0.0 ==> Slope(Cot, u, it) == QuotientPart(Pair(c, cos'.value), Pair(s, sin'.value)))
            && (s != 0.0 ==> Slope(Csc, u, it) == QuotientPart(Pair(1.0, 0.0), Pair(s, sin'.value)))
  {
    CircleBase(u, s, c, it);
    hide Slope, QuotientPart, Circle;
    if c != 0.0 { CosineQuotients(u, s, c, it); }
    if s != 0.0 { SineQuotients(u, s, c, it); }
  }

  lemma TimesNegatedUnit(x: real)
    ensures Times(-1.0, x) == -x
  {}

  lemma HyperbolaIdentities(s: real, c: real, k: real)
    requires Times(c, c) - Times(s, s) == 1.0
    ensures Times(s, s) - Times(c, c) == -1.0
    ensures Times(Times(0.0, c) - Times(1.0, s), Times(k, k)) == -Times(k, Times(s, k))
    ensures Times(Times(0.0, s) - Times(1.0, c), Times(k, k)) == -Times(k, Times(c, k))
  {}

  lemma HyperbolaBase(u: real, s: real, c: real, it: Meaning)
    requires Hyperbola(u, s, c, it)
    ensures Slope(Sinh, u, it) == Some(c) && Slope(Cosh, u, it) == Some(s)
  {}

  lemma HyperbolicCosineQuotients(u: real, s: real, c: real, it: Meaning)
    requires Hyperbola(u, s, c, it) && c != 0.0
    ensures Slope(Tanh, u, it) == QuotientPart(Pair(s, c), Pair(c, s))
    ensures Slope(Sech, u, it) == QuotientPart(Pair(1.0, 0.0), Pair(c, s))
  {
    var k := 1.0 / c;
    Reciprocals(s, c, k);
    hide QuotientPart, Times;
    QuotientBy(s, c, c, s, k);
    QuotientBy(1.0, 0.0, c, s, k);
    HyperbolaIdentities(s, c, k);
    TimesUnit(Times(k, k));
  }

  lemma HyperbolicSineQuotients(u: real, s: real, c: real, it: Meaning)
    requires Hyperbola(u, s, c, it) && s != 0.0
    ensures Slope(Coth, u, it) == QuotientPart(Pair(c, s), Pair(s, c))
    ensures Slope(Csch, u, it) == QuotientPart(Pair(1.0, 0.0), Pair(s, c))
  {
    var k := 1.0 / s;
    Reciprocals(c, s, k);
    hide QuotientPart, Times;
    QuotientBy(c, s, s, c, k);
    QuotientBy(1.0, 0.0, s, c, k);
    HyperbolaIdentities(s, c, k);
    TimesNegatedUnit(Times(k, k));
  }

  /** The same for tanh, sech, coth and csch. */
  lemma HyperbolicQuotients(u: real, s: real, c: real, it: Meaning)
    requires Hyperbola(u, s, c, it)
    ensures var sinh', cosh' := Slope(Sinh, u, it), Slope(Cosh, u, it);
            && sinh' == Some(c) && cosh' == Some(s)
            && (c != 0.0 ==> Slope(Tanh, u, it) == QuotientPart(Pair(s, sinh'.value), Pair(c, cosh'.value)))
            && (c != 0.0 ==> Slope(Sech, u, it) == QuotientPart(Pair(1.0, 0.0), Pair(c, cosh'.value)))
            && (s != 0.0 ==> Slope(Coth, u, it) == QuotientPart(Pair(c, cosh'.value), Pair(s, sinh'.value)))
            && (s != 0.0 ==> Slope(Csch, u, it) == QuotientPart(Pair(1.0, 0.0), Pair(s, sinh'.value)))
  {
    HyperbolaBase(u, s, c, it);
    hide Slope, QuotientPart, Hyperbola;
    if c != 0.0 { HyperbolicCosineQuotients(u, s, c, it); }
    if s != 0.0 { HyperbolicSineQuotients(u, s, c, it); }
  }

  // ---- inverse functions ----

  function InverseOf(g: Fn): Option<Fn> {
    match g
    case Asin => Some(Sin)
    case Acos => Some(Cos)
    case Atan => Some(Tan)
    case Asec => Some(Sec)
    case Acsc => Some(Csc)
    case Acot => Some(Cot)
    case Asinh => Some(Sinh)
    case Acosh => Some(Cosh)
    case Atanh => Some(Tanh)
    case Asech => Some(Sech)
    case Acsch => Some(Csch)
    case Acoth => Some(Coth)
    case Ln => Some(Exp)
    case _ => None
  }

  /** Where g takes the value w at u on its branch: the root in its derivative is the cofunction at w. */
  ghost predicate Branch(g: Fn, u: real, w: real, it: Meaning) {
    var uu := Times(u, u);
    match g
    case Asin => At(it, Sqrt, 1.0 - uu) == At(it, Cos, w)
    case Acos => At(it, Sqrt, 1.0 - uu) == At(it, Sin, w)
    case Asec => Both(At(it, Abs, u), At(it, Sqrt, uu - 1.0)) == Both(Some(u), At(it, Tan, w))
    case Acsc => Both(At(it, Abs, u), At(it, Sqrt, uu - 1.0)) == Both(Some(u), At(it, Cot, w))
    case Asinh => At(it, Sqrt, uu + 1.0) == At(it, Cosh, w)
    case Acosh => At(it, Sqrt, uu - 1.0) == At(it, Sinh, w)
    case Asech => At(it, Sqrt, 1.0 - uu) == At(it, Tanh, w)
    case Acsch => Both(At(it, Abs, u), At(it, Sqrt, 1.0 + uu)) == Both(Some(u), At(it, Coth, w))
    case _ => true
  }

  /** The slope of g at u and the slope of f at w = g(u) are reciprocal. */
  ghost predicate Reciprocal(f: Fn, g: Fn, u: real, w: real, it: Meaning) {
    var d, e := SlopeAt(f, w, u, it), SlopeAt(g, u, w, it);
    e.Some? ==> d.Some? && Times(d.value, e.value) == 1.0
  }

  lemma InverseOfItself(d: real, e: real)
    requires d != 0.0 && e == 1.0 / d
    ensures Times(d, e) == 1.0 && Times(-d, -e) == 1.0
  {}

  lemma TangentIdentity(s: real, c: real, k: real, u: real)
    requires Times(k, c) == 1.0 && u == Times(s, k)
    ensures Times(s, s) + Times(c, c) == 1.0 ==> Times(k, k) == 1.0 + Times(u, u)
    ensures Times(c, c) - Times(s, s) == 1.0 ==> Times(k, k) == 1.0 - Times(u, u)
    ensures Times(s, s) - Times(c, c) == 1.0 ==> Times(k, k) == Times(u, u) - 1.0
  {
    assert Times(Times(c, c), Times(k, k)) == 1.0;
    assert Times(Times(s, s), Times(k, k)) == Times(u, u);
  }

  lemma InverseSine(u: real, w: real, s: real, c: real, it: Meaning)
    requires Circle(w, s, c, it) && At(it, Sin, w) == Some(u) && Branch(Asin, u, w, it)
    ensures Reciprocal(Sin, Asin, u, w, it)
  {
    hide Times;
    var e := SlopeAt(Asin, u, w, it);
    if e.Some? {
      InverseOfItself(c, e.value);
    }
  }

  lemma InverseCosine(u: real, w: real, s: real, c: real, it: Meaning)
    requires Circle(w, s, c, it) && At(it, Cos, w) == Some(u) && Branch(Acos, u, w, it)
    ensures Reciprocal(Cos, Acos, u, w, it)
  {
    hide Times;
    var e := SlopeAt(Acos, u, w, it);
    if e.Some? {
      InverseOfItself(s, -e.value);
    }
  }

  lemma InverseTangent(u: real, w: real, s: real, c: real, it: Meaning)
    requires Circle(w, s, c, it) && At(it, Tan, w) == Some(u) && Branch(Atan, u, w, it) && c != 0.0
    ensures Reciprocal(Tan, Atan, u, w, it)
  {
    hide Times;
    var e := SlopeAt(Atan, u, w, it);
    if e.Some? {
      Reciprocals(s, c, 1.0 / c);
      TangentIdentity(s, c, 1.0 / c, u);
      InverseOfItself(1.0 + Times(u, u), e.value);
    }
  }

  lemma InverseCotangent(u: real, w: real, s: real, c: real, it: Meaning)
    requires Circle(w, s, c, it) && At(it, Cot, w) == Some(u) && Branch(Acot, u, w, it) && s != 0.0
    ensures Reciprocal(Cot, Acot, u, w, it)
  {
    hide Times;
    var e := SlopeAt(Acot, u, w, it);
    if e.Some? {
      Reciprocals(c, s, 1.0 / s);
      TangentIdentity(c, s, 1.0 / s, u);
      InverseOfItself(1.0 + Times(u, u), -e.value);
    }
  }

  lemma InverseSecant(u: real, w: real, s: real, c: real, it: Meaning)
    requires Circle(w, s, c, it) && At(it, Sec, w) == Some(u) && Branch(Asec, u, w, it) && c != 0.0
    ensures Reciprocal(Sec, Asec, u, w, it)
  {
    hide Times;
    var e := SlopeAt(Asec, u, w, it);
    if e.Some? {
      InverseOfItself(Times(u, s / c), e.value);
    }
  }

  lemma InverseCosecant(u: real, w: real, s: real, c: real, it: Meaning)
    requires Circle(w, s, c, it) && At(it, Csc, w) == Some(u) && Branch(Acsc, u, w, it) && s != 0.0
    ensures Reciprocal(Csc, Acsc, u, w, it)
  {
    hide Times;
    var e := SlopeAt(Acsc, u, w, it);
    if e.Some? {
      InverseOfItself(Times(u, c / s), -e.value);
    }
  }

  lemma InverseHyperbolicSine(u: real, w: real, s: real, c: real, it: Meaning)
    requires Hyperbola(w, s, c, it) && At(it, Sinh, w) == Some(u) && Branch(Asinh, u, w, it)
    ensures Reciprocal(Sinh, Asinh, u, w, it)
  {
    hide Times;
    var e := SlopeAt(Asinh, u, w, it);
    if e.Some? {
      InverseOfItself(c, e.value);
    }
  }

  lemma InverseHyperbolicCosine(u: real, w: real, s: real, c: real, it: Meaning)
    requires Hyperbola(w, s, c, it) && At(it, Cosh, w) == Some(u) && Branch(Acosh, u, w, it)
    ensures Reciprocal(Cosh, Acosh, u, w, it)
  {
    hide Times;
    var e := SlopeAt(Acosh, u, w, it);
    if e.Some? {
      InverseOfItself(s, e.value);
    }
  }

  lemma InverseHyperbolicTangent(u: real, w: real, s: real, c: real, it: Meaning)
    requires Hyperbola(w, s, c, it) && At(it, Tanh, w) == Some(u) && Branch(Atanh, u, w, it) && c != 0.0
    ensures Reciprocal(Tanh, Atanh, u, w, it)
  {
    hide Times;
    var e := SlopeAt(Atanh, u, w, it);
    if e.Some? {
      Reciprocals(s, c, 1.0 / c);
      TangentIdentity(s, c, 1.0 / c, u);
      InverseOfItself(1.0 - Times(u, u), e.value);
    }
  }

  lemma InverseHyperbolicCotangent(u: real, w: real, s: real, c: real, it: Meaning)
    requires Hyperbola(w, s, c, it) && At(it, Coth, w) == Some(u) && Branch(Acoth, u, w, it) && s != 0.0
    ensures Reciprocal(Coth, Acoth, u, w, it)
  {
    hide Times;
    var e := SlopeAt(Acoth, u, w, it);
    if e.Some? {
      Reciprocals(c, s, 1.0 / s);
      TangentIdentity(c, s, 1.0 / s, u);
      InverseOfItself(1.0 - Times(u, u), e.value);
    }
  }

  lemma InverseHyperbolicSecant(u: real, w: real, s: real, c: real, it: Meaning)
    requires Hyperbola(w, s, c, it) && At(it, Sech, w) == Some(u) && Branch(Asech, u, w, it) && c != 0.0
    ensures Reciprocal(Sech, Asech, u, w, it)
  {
    hide Times;
    var e := SlopeAt(Asech, u, w, it);
    if e.Some? {
      InverseOfItself(Times(u, s / c), -e.value);
    }
  }

  lemma InverseHyperbolicCosecant(u: real, w: real, s: real, c: real, it: Meaning)
    requires Hyperbola(w, s, c, it) && At(it, Csch, w) == Some(u) && Branch(Acsch, u, w, it) && s != 0.0
    ensures Reciprocal(Csch, Acsch, u, w, it)
  {
    hide Times;
    var e := SlopeAt(Acsch, u, w, it);
    if e.Some? {
      InverseOfItself(Times(u, c / s), -e.value);
    }
  }

  /** Every inverse circular or hyperbolic function has the reciprocal of its function's slope. */
  lemma InverseSlopes(g: Fn, u: real, w: real, s: real, c: real, it: Meaning)
    requires InverseOf(g).Some? && g != Ln && At(it, InverseOf(g).value, w) == Some(u) && Branch(g, u, w, it)
    requires if g in {Asin, Acos, Atan, Asec, Acsc, Acot} then Circle(w, s, c, it) else Hyperbola(w, s, c, it)
    requires (g in {Atan, Asec, Atanh, Asech} ==> c != 0.0) && (g in {Acot, Acsc, Acoth, Acsch} ==> s != 0.0)
    ensures Reciprocal(InverseOf(g).value, g, u, w, it)
  {
    hide Circle, Hyperbola, Branch, Reciprocal, At;
    match g
    case Asin => InverseSine(u, w, s, c, it);
    case Acos => InverseCosine(u, w, s, c, it);
    case Atan => InverseTangent(u, w, s, c, it);
    case Asec => InverseSecant(u, w, s, c, it);
    case Acsc => InverseCosecant(u, w, s, c, it);
    case Acot => InverseCotangent(u, w, s, c, it);
    case Asinh => InverseHyperbolicSine(u, w, s, c, it);
    case Acosh => InverseHyperbolicCosine(u, w, s, c, it);
    case Atanh => InverseHyperbolicTangent(u, w, s, c, it);
    case Asech => InverseHyperbolicSecant(u, w, s, c, it);
    case Acsch => InverseHyperbolicCosecant(u, w, s, c, it);
    case Acoth => InverseHyperbolicCotangent(u, w, s, c, it);
  }

  /** The same for the natural logarithm, the inverse of the exponential. */
  lemma InverseExponential(u: real, w: real, it: Meaning)
    requires At(it, Exp, w) == Some(u)
    ensures Reciprocal(Exp, Ln, u, w, it)
  {
    if u != 0.0 { InverseOfItself(u, 1.0 / u); }
  }

  /** Roots, logarithms to a fixed base and the absolute value, by the equations that define them: w^2 = u, w^3 = u,
      exp(w ln 10) = u, exp(w ln 2) = u and w^2 = u^2. */
  lemma DefinedByEquation(u: real, w: real, it: Meaning)
    ensures var d := SlopeAt(Sqrt, u, w, it); d.Some? ==> Times(Times(2.0, w), d.value) == 1.0
    ensures var d := SlopeAt(NthRoot, u, w, it); d.Some? ==> Times(Times(2.0, w), d.value) == 1.0
    ensures var d := SlopeAt(Cbrt, u, w, it); d.Some? ==> Times(Times(3.0, Times(w, w)), d.value) == 1.0
    ensures var d, l := SlopeAt(Log10, u, w, it), At(it, Ln, 10.0); d.Some? ==> l.Some? && Times(Times(u, l.value), d.value) == 1.0
    ensures var d, l := SlopeAt(Log2, u, w, it), At(it, Ln, 2.0); d.Some? ==> l.Some? && Times(Times(u, l.value), d.value) == 1.0
    ensures SlopeAt(Log, u, w, it) == SlopeAt(Ln, u, w, it)
  {
    hide Times;
    var ln10, ln2 := At(it, Ln, 10.0), At(it, Ln, 2.0);
    if Times(2.0, w) != 0.0 { InverseOfItself(Times(2.0, w), 1.0 / Times(2.0, w)); }
    if Times(3.0, Times(w, w)) != 0.0 { InverseOfItself(Times(3.0, Times(w, w)), 1.0 / Times(3.0, Times(w, w))); }
    if ln10.Some? && Times(u, ln10.value) != 0.0 { InverseOfItself(Times(u, ln10.value), 1.0 / Times(u, ln10.value)); }
    if ln2.Some? && Times(u, ln2.value) != 0.0 { InverseOfItself(Times(u, ln2.value), 1.0 / Times(u, ln2.value)); }
  }

  lemma AbsoluteValue(u: real, w: real, it: Meaning)
    requires At(it, Sign, u).Some? && Times(At(it, Sign, u).value, w) == u
    ensures var d := SlopeAt(Abs, u, w, it); d.Some? <==> u != 0.0
    ensures var d := SlopeAt(Abs, u, w, it); d.Some? ==> Times(Times(2.0, w), d.value) == Times(2.0, u)
  {
    if u != 0.0 { TimesRotate(At(it, Sign, u).value, 2.0, w); }
  }

  // ---- sums, products, quotients and powers of dual numbers ----

  /** What a sum, a difference, a product or a quotient does to first order in h, with a moved by h*a.e, b by h*b.e and
      the result by h times its e-part: the two sides agree up to a multiple of h^2. For a quotient r this is said of
      r*b and a. */
  ghost predicate FirstOrder(op: Op, p: Pair, q: Pair, r: Pair, h: real) {
    var p', q', r' := p.v + Times(h, p.e), q.v + Times(h, q.e), r.v + Times(h, r.e);
    match op
    case Add => p' + q' == r'
    case Sub => p' - q' == r'
    case Mul => Times(p', q') == r' + Times(Times(h, h), Times(p.e, q.e))
    case Div => Times(r', q') == p' + Times(Times(h, h), Times(r.e, q.e))
    case Pow => true
  }

  lemma ProductFirstOrder(p: Pair, q: Pair, h: real)
    ensures Times(p.v + Times(h, p.e), q.v + Times(h, q.e))
         == Times(p.v, q.v) + Times(h, Times(p.e, q.v) + Times(p.v, q.e)) + Times(Times(h, h), Times(p.e, q.e))
  {}

  lemma QuotientOrder(p: Pair, q: Pair, r: Pair)
    requires q.v != 0.0 && r.v == p.v / q.v && QuotientPart(p, q) == Some(r.e)
    ensures Times(r.v, q.v) == p.v && Times(r.e, q.v) + Times(r.v, q.e) == p.e
  {}

  lemma SumParts(op: Op, a: Node, b: Node, x: nat, it: Meaning)
    requires (op == Add || op == Sub) && Varies(Binary(op, a, b), x) && Dual(Binary(op, a, b), x, it).Some?
    ensures Dual(a, x, it).Some? && Dual(b, x, it).Some?
    ensures var p, q, r := Dual(a, x, it).value, Dual(b, x, it).value, Dual(Binary(op, a, b), x, it).value;
            r == if op == Add then Pair(p.v + q.v, p.e + q.e) else Pair(p.v - q.v, p.e - q.e)
  {}

  lemma ProductParts(a: Node, b: Node, x: nat, it: Meaning)
    requires Varies(Binary(Mul, a, b), x) && Dual(Binary(Mul, a, b), x, it).Some?
    ensures Dual(a, x, it).Some? && Dual(b, x, it).Some?
    ensures var p, q, r := Dual(a, x, it).value, Dual(b, x, it).value, Dual(Binary(Mul, a, b), x, it).value;
            r == Pair(Times(p.v, q.v), Times(p.e, q.v) + Times(p.v, q.e))
  {
    hide Times, QuotientPart, PowerPart, SlopeAt, CallPart;
  }

  lemma QuotientParts(a: Node, b: Node, x: nat, it: Meaning)
    requires Varies(Binary(Div, a, b), x) && Dual(Binary(Div, a, b), x, it).Some?
    ensures Dual(a, x, it).Some? && Dual(b, x, it).Some?
    ensures var p, q, r := Dual(a, x, it).value, Dual(b, x, it).value, Dual(Binary(Div, a, b), x, it).value;
            q.v != 0.0 && r.v == p.v / q.v && QuotientPart(p, q) == Some(r.e)
  {
    hide Times, PowerPart, SlopeAt, CallPart;
  }

  /** Dual evaluation is right to first order. */
  lemma DualIsFirstOrder(op: Op, a: Node, b: Node, x: nat, it: Meaning, h: real)
    requires op != Pow && Varies(Binary(op, a, b), x) && Dual(Binary(op, a, b), x, it).Some?
    ensures Dual(a, x, it).Some? && Dual(b, x, it).Some?
    ensures FirstOrder(op, Dual(a, x, it).value, Dual(b, x, it).value, Dual(Binary(op, a, b), x, it).value, h)
  {
    hide Dual, Varies, QuotientPart;
    match op
    case Add =>
      SumParts(op, a, b, x, it);
      TimesAdd(Dual(a, x, it).value.e, Dual(b, x, it).value.e, h);
    case Sub =>
      SumParts(op, a, b, x, it);
      TimesAdd(Dual(a, x, it).value.e - Dual(b, x, it).value.e, Dual(b, x, it).value.e, h);
    case Mul =>
      ProductParts(a, b, x, it);
      hide Times;
      ProductFirstOrder(Dual(a, x, it).value, Dual(b, x, it).value, h);
    case Div =>
      QuotientParts(a, b, x, it);
      QuotientOrder(Dual(a, x, it).value, Dual(b, x, it).value, Dual(Binary(Div, a, b), x, it).value);
      hide Times;
      ProductFirstOrder(Dual(Binary(Div, a, b), x, it).value, Dual(b, x, it).value, h);
  }

  /** a^b = exp(b*ln a): the e-part of a power is the power times the e-part of b*ln a, also where only the base or only
      the exponent varies. */
  lemma PowerByLogarithm(a: Node, b: Node, p: Pair, q: Pair, w: real, l: real, x: nat, it: Meaning)
    requires PowerPart(a, b, p, q, w, x, it).Some? && At(it, Ln, p.v) == Some(l) && p.v != 0.0
    requires (!Varies(a, x) ==> p.e == 0.0) && (!Varies(b, x) ==> q.e == 0.0)
    requires (IsInt(Literal(b), 0) ==> q.v == 0.0) && (IsE(a) ==> l == 1.0)
    requires it.pow(p.v, q.v - 1.0).Some? ==> Times(it.pow(p.v, q.v - 1.0).value, p.v) == w
    ensures PowerPart(a, b, p, q, w, x, it) == Some(Times(w, Times(q.e, l) + Times(q.v, p.e) / p.v))
  {
    var less := it.pow(p.v, q.v - 1.0);
    if !Varies(b, x) {
      TimesUnit(l);
      if IsInt(Literal(b), 0) {
        TimesUnit(p.e);
        TimesUnit(w);
      } else {
        PowerOfBase(w, q.v, p.e, p.v, less.value);
      }
    } else if !Varies(a, x) {
      TimesUnit(q.v);
      TimesUnit(q.e);
      TimesAssoc(w, l, q.e);
      TimesSymm(l, q.e);
      if IsE(a) { TimesSymm(q.e, l); }
    }
  }

  lemma PowerOfBase(w: real, n: real, e: real, v: real, less: real)
    requires v != 0.0 && Times(less, v) == w
    ensures Times(Times(n, less), e) == Times(w, Times(n, e) / v)
  {
    var k := 1.0 / v;
    assert Times(n, e) / v == Times(Times(n, e), k);
    assert Times(w, k) == less by { assert Times(v, k) == 1.0; TimesAssoc(less, v, k); TimesUnit(less); }
    TimesRegroupPower(w, n, e, k, less);
  }

  lemma TimesRegroupPower(w: real, n: real, e: real, k: real, less: real)
    requires Times(w, k) == less
    ensures Times(w, Times(Times(n, e), k)) == Times(Times(n, less), e)
  {
    assert Times(w, Times(Times(n, e), k)) == Times(Times(w, k), Times(n, e));
  }

  /** log(a, b) = ln a / ln b, also where only a varies. */
  lemma LogarithmByQuotient(a: Node, b: Node, p: Pair, q: Pair, w: real, k: real, l: real, x: nat, it: Meaning)
    requires CallPart(Log, a, b, p, q, w, x, it).Some? && At(it, Ln, p.v) == Some(k) && At(it, Ln, q.v) == Some(l)
    requires p.v != 0.0 && q.v != 0.0 && l != 0.0 && (!Varies(b, x) ==> q.e == 0.0)
    ensures CallPart(Log, a, b, p, q, w, x, it) == QuotientPart(Pair(k, Times(1.0 / p.v, p.e)), Pair(l, Times(1.0 / q.v, q.e)))
  {
    if !Varies(b, x) { ConstantBase(p.v, p.e, k, l, 1.0 / q.v); }
  }

  lemma ConstantBase(v: real, e: real, k: real, l: real, m: real)
    requires v != 0.0 && l != 0.0
    ensures Times(v, l) != 0.0
    ensures Some(Times(1.0 / Times(v, l), e)) == QuotientPart(Pair(k, Times(1.0 / v, e)), Pair(l, Times(m, 0.0)))
  {
    NonzeroProduct(v, l);
    var r, i := 1.0 / l, 1.0 / v;
    assert 1.0 / Times(v, l) == Times(i, r) by { assert Times(Times(v, l), Times(i, r)) == 1.0; }
    QuotientBy(k, Times(i, e), l, Times(m, 0.0), r);
    assert Times(l, r) == 1.0;
    ConstantBaseExpanded(i, e, l, r, k, m);
  }

  lemma ConstantBaseExpanded(i: real, e: real, l: real, r: real, k: real, m: real)
    requires Times(l, r) == 1.0
    ensures Times(Times(Times(i, e), l) - Times(k, Times(m, 0.0)), Times(r, r)) == Times(Times(i, r), e)
  {
    assert Times(k, Times(m, 0.0)) == 0.0;
    assert Times(Times(Times(i, e), l), Times(r, r)) == Times(Times(Times(i, e), r), Times(l, r));
  }

  /** nthRoot(a, n)^n = a. */
  lemma RootByPower(a: Node, b: Node, p: Pair, q: Pair, w: real, x: nat, it: Meaning)
    requires CallPart(NthRoot, a, b, p, q, w, x, it).Some?
    ensures it.pow(w, q.v - 1.0).Some?
    ensures Times(Times(q.v, it.pow(w, q.v - 1.0).value), CallPart(NthRoot, a, b, p, q, w, x, it).value) == p.e
  {
    var d := Times(q.v, it.pow(w, q.v - 1.0).value);
    InverseOfItself(d, 1.0 / d);
    TimesAssoc(d, 1.0 / d, p.e);
    TimesUnit(p.e);
  }
}
