/** Two sparse polynomials with the same values everywhere are the same polynomial: the fact that lets the exactness of
    division be stated by values (packages/cas/src/poly.ts). */
module SparseZeros {
  import opened Reals
  import opened SparsePoly
  import opened SparseDegrees

  // ---- one variable ----

  /** c[0] + c[1]*x + c[2]*x^2 + ... */
  function Value(c: seq<real>, x: real): real {
    if c == [] then 0.0 else c[0] + Times(x, Value(c[1..], x))
  }

  lemma {:induction false} ValueUpdate(c: seq<real>, e: nat, t: real, x: real)
    requires e < |c|
    ensures Value(c[e := c[e] + t], x) == Value(c, x) + Times(t, Power(x, e))
  {
    hide Times;
    var d := c[e := c[e] + t];
    if e == 0 {
      assert d[1..] == c[1..];
      TimesUnit(t);
    } else {
      assert d[1..] == c[1..][e - 1 := c[1..][e - 1] + t];
      ValueUpdate(c[1..], e - 1, t, x);
      TimesAdd(Value(c[1..], x), Times(t, Power(x, e - 1)), x);
      TimesRotate(x, t, Power(x, e - 1));
    }
  }

  lemma {:induction false} ValueZero(c: seq<real>, x: real)
    requires forall i :: 0 <= i < |c| ==> c[i] == 0.0
    ensures Value(c, x) == 0.0
  {
    if c != [] {
      ValueZero(c[1..], x);
      TimesUnit(x);
    }
  }

  function Magnitude(x: real): real { if x < 0.0 then -x else x }

  lemma FarStep(c0: real, u: real, x: real, d: real, s: real)
    requires d > 0.0 && Magnitude(u) >= d && Times(s, d) == Magnitude(c0) && x >= 1.0 + s && s >= 0.0
    ensures Magnitude(c0 + Times(x, u)) >= d
  {
    hide Times;
    NonNegative(x - 1.0 - s, d);
    TimesAdd(x - 1.0 - s, 1.0 + s, d);
    TimesAdd(1.0, s, d);
    TimesUnit(d);
    assert Times(x, d) >= d + Magnitude(c0);
    if u >= 0.0 {
      NonNegative(x, u - d);
      TimesAdd(u - d, d, x);
    } else {
      NonNegative(x, -u - d);
      TimesAdd(-u - d, d, x);
      TimesAdd(-u, u, x);
      TimesUnit(x);
    }
  }

  lemma Ratio(a: real, d: real) returns (s: real)
    requires a >= 0.0 && d > 0.0
    ensures s >= 0.0 && Times(s, d) == a
  {
    s := a / d;
  }

  /** A polynomial with a nonzero leading coefficient stays away from zero far out. */
  lemma {:induction false} Far(c: seq<real>) returns (bound: real, d: real)
    requires c != [] && c[|c| - 1] != 0.0
    ensures d > 0.0 && forall x :: x >= bound ==> Magnitude(Value(c, x)) >= d
  {
    if |c| == 1 {
      bound, d := 0.0, Magnitude(c[0]);
      forall x | x >= bound ensures Magnitude(Value(c, x)) >= d {
        assert c[1..] == [];
        TimesUnit(x);
      }
    } else {
      var b, e := Far(c[1..]);
      var s := Ratio(Magnitude(c[0]), e);
      bound, d := if b < 1.0 + s then 1.0 + s else b, e;
      forall x | x >= bound ensures Magnitude(Value(c, x)) >= d {
        FarStep(c[0], Value(c[1..], x), x, e, s);
      }
    }
  }

  // ---- a polynomial along one generator ----

  function Slices(p: Poly, v: nat, d: nat, at: Point): (c: seq<real>)
    ensures |c| == d + 1 && forall k :: 0 <= k <= d ==> c[k] == Slice(p, v, k, at)
  {
    seq(d + 1, k requires 0 <= k => Slice(p, v, k, at))
  }

  lemma {:induction false} AlongOne(p: Poly, v: nat, d: nat, at: Point, x: real)
    requires DegreeAtMost(p, v, d)
    ensures Eval(p, With(at, v, x)) == Value(Slices(p, v, d, at), x)
  {
    hide Times, Mono, Without, Exp;
    var c := Slices(p, v, d, at);
    if p == [] {
      ValueZero(c, x);
    } else {
      var t, rest, e := p[0], Slices(p[1..], v, d, at), Exp(p[0].m, v);
      assert t in p;
      AlongOne(p[1..], v, d, at, x);
      var y := Mono(Without(t.m, v), at);
      assert c == rest[e := rest[e] + Times(t.c, y)];
      ValueUpdate(rest, e, Times(t.c, y), x);
      MonoSplit(t.m, v, at, x);
      TimesPower(t.c, y, Power(x, e));
    }
  }

  // ---- a common nonzero point ----

  /** No generator from `n` on. */
  ghost predicate Below(p: Poly, n: nat) { forall g: nat :: n <= g ==> DegreeAtMost(p, g, 0) }

  lemma ConstantOnly(p: Poly)
    requires Valid(p) && p != [] && Below(p, 0)
    ensures |p| == 1 && p[0].m == [] && p[0].c != 0.0
  {
    forall t | t in p ensures t.m == [] {
      forall g: nat ensures Exp(t.m, g) == Exp([], g) { assert DegreeAtMost(p, g, 0); }
      TrimmedUnique(t.m, []);
    }
    assert p[0] in p;
    assert |p| > 1 ==> p[1] in p && p[0].m != p[1].m;
  }

  lemma {:induction false} NonzeroPoint(p: Poly, q: Poly, n: nat) returns (at: Point)
    requires Valid(p) && Valid(q) && p != [] && q != [] && Below(p, n) && Below(q, n)
    ensures Eval(p, at) != 0.0 && Eval(q, at) != 0.0
    decreases n
  {
    hide *;
    if n == 0 {
      at := (g: nat) => 1.0;
      ConstantOnly(p);
      ConstantOnly(q);
      ConstantValue(p, at);
      ConstantValue(q, at);
    } else {
      var v := n - 1;
      LeadingCoefficient(p, v, n);
      LeadingCoefficient(q, v, n);
      var near := NonzeroPoint(CoefficientIn(p, v, DegreeIn(p, v)), CoefficientIn(q, v, DegreeIn(q, v)), v);
      var b := FarPoint(p, v, near);
      var c := FarPoint(q, v, near);
      at := With(near, v, if b < c then c else b);
    }
  }

  /** Where the leading coefficient is not zero, far along `g_v` the polynomial is not zero. */
  lemma FarPoint(p: Poly, v: nat, near: Point) returns (bound: real)
    requires p != [] && Eval(CoefficientIn(p, v, DegreeIn(p, v)), near) != 0.0
    ensures forall x :: x >= bound ==> Eval(p, With(near, v, x)) != 0.0
  {
    hide Eval, Slice, CoefficientIn;
    var d: nat := DegreeIn(p, v);
    CoefficientEval(p, v, d, near);
    var e: real;
    bound, e := Far(Slices(p, v, d, near));
    forall x | x >= bound ensures Eval(p, With(near, v, x)) != 0.0 {
      AlongOne(p, v, d, near, x);
    }
  }

  lemma ConstantValue(p: Poly, at: Point)
    requires |p| == 1 && p[0].m == []
    ensures Eval(p, at) == p[0].c
  {
    assert p == [p[0]] + [];
    EvalCons(p[0], [], at);
    TimesUnit(p[0].c);
  }

  lemma LeadingCoefficient(p: Poly, v: nat, n: nat)
    requires Valid(p) && p != [] && Below(p, n) && n == v + 1
    ensures var d := DegreeIn(p, v);
            d >= 0 && Valid(CoefficientIn(p, v, d)) && CoefficientIn(p, v, d) != [] && Below(CoefficientIn(p, v, d), v)
  {
    var d := DegreeIn(p, v);
    CoefficientValid(p, v, d);
    CoefficientTerms(p, v, d);
    forall g: nat | v <= g ensures DegreeAtMost(CoefficientIn(p, v, d), g, 0) {
      if g == v { CoefficientDegree(p, v, d, v, d); } else { CoefficientDegree(p, v, d, g, 0); }
    }
  }

  /** Every polynomial has finitely many generators. */
  lemma {:induction false} SomeWidth(p: Poly) returns (n: nat)
    ensures Below(p, n)
  {
    n := 0;
    if p != [] {
      var rest := SomeWidth(p[1..]);
      n := Max(|p[0].m|, rest);
      forall g: nat, t | n <= g && t in p ensures Exp(t.m, g) == 0 {
        assert DegreeAtMost(p[1..], g, 0);
      }
    }
  }

  // ---- sameness ----

  ghost predicate SameValues(a: Poly, b: Poly) { forall at: Point :: Eval(a, at) == Eval(b, at) }

  lemma NonzeroSomewhere(p: Poly)
    requires Valid(p) && p != []
    ensures exists at: Point :: Eval(p, at) != 0.0
  {
    var n := SomeWidth(p);
    var at := NonzeroPoint(p, p, n);
  }

  lemma ZeroEverywhere(p: Poly)
    requires Valid(p) && SameValues(p, [])
    ensures p == []
  {
    if p != [] { NonzeroSomewhere(p); }
  }

  /** Polynomials with the same values have the same coefficients in every generator. */
  lemma SameSlices(a: Poly, b: Poly, v: nat, k: nat, at: Point)
    requires Valid(a) && Valid(b) && SameValues(a, b)
    ensures Slice(a, v, k, at) == Slice(b, v, k, at)
  {
    hide Slice;
    var d := Difference(a, b);
    DifferenceValid(a, b);
    forall x: Point ensures Eval(d, x) == Eval([], x) { DifferenceEval(a, b, x); }
    hide Eval;
    ZeroEverywhere(d);
    SliceDifference(a, b, v, k, at);
    SliceNone(v, k, at);
  }

  lemma SliceNone(v: nat, k: nat, at: Point)
    ensures Slice([], v, k, at) == 0.0
  {}
}
