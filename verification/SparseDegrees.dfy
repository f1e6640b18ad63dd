/** A sparse polynomial seen in one generator: degrees, coefficients, and that only the zero polynomial is zero at
    every point (`degreeIn`, `coefficientsIn`, packages/cas/src/poly.ts). */
module SparseDegrees {
  import opened Reals
  import opened SparsePoly

  // ---- one generator apart ----

  function Without(m: Monomial, v: nat): (r: Monomial)
    ensures Trimmed(r)
    ensures forall g :: Exp(r, g) == if g == v then 0 else Exp(m, g)
  {
    Trim(if v < |m| then m[v := 0] else m)
  }

  function With(at: Point, v: nat, x: real): Point { (g: nat) => if g == v then x else at(g) }

  lemma {:induction false} MonoSplitBelow(m: Monomial, v: nat, n: nat, at: Point, x: real)
    ensures MonoBelow(m, n, With(at, v, x))
         == if v < n then Times(Power(x, Exp(m, v)), MonoBelow(Without(m, v), n, at)) else MonoBelow(Without(m, v), n, at)
  {
    if n > 0 {
      hide Times;
      MonoSplitBelow(m, v, n - 1, at, x);
      var w, p, q := MonoBelow(Without(m, v), n - 1, at), Power(x, Exp(m, v)), Power(at(n - 1), Exp(m, n - 1));
      if v == n - 1 {
        TimesUnit(w);
      } else if v < n - 1 {
        TimesAssoc(p, w, q);
      }
    }
  }

  lemma MonoSplit(m: Monomial, v: nat, at: Point, x: real)
    ensures Mono(m, With(at, v, x)) == Times(Power(x, Exp(m, v)), Mono(Without(m, v), at))
  {
    hide Times;
    var n := |m| + |Without(m, v)| + v + 1;
    MonoEnough(m, n, With(at, v, x));
    MonoEnough(Without(m, v), n, at);
    MonoSplitBelow(m, v, n, at, x);
  }

  lemma WithoutProduct(a: Monomial, b: Monomial, v: nat)
    ensures Without(MulMonomials(a, b), v) == MulMonomials(Without(a, v), Without(b, v))
  {
    TrimmedUnique(Without(MulMonomials(a, b), v), MulMonomials(Without(a, v), Without(b, v)));
  }

  lemma WithoutInjective(m: Monomial, n: Monomial, v: nat)
    requires Trimmed(m) && Trimmed(n) && Exp(m, v) == Exp(n, v) && Without(m, v) == Without(n, v)
    ensures m == n
  {
    forall g: nat ensures Exp(m, g) == Exp(n, g) {
      assert g != v ==> Exp(Without(m, v), g) == Exp(m, g) && Exp(Without(n, v), g) == Exp(n, g);
    }
    TrimmedUnique(m, n);
  }

  // ---- degrees ----

  predicate DegreeAtMost(p: Poly, v: nat, d: nat) { forall t :: t in p ==> Exp(t.m, v) <= d }

  /** `degreeIn`, -1 for zero. */
  function DegreeIn(p: Poly, v: nat): (d: int)
    ensures d >= -1 && (d == -1 <==> p == [])
    ensures d >= 0 ==> DegreeAtMost(p, v, d)
    ensures d >= 0 ==> exists t :: t in p && Exp(t.m, v) == d
  {
    if p == [] then -1 else
      var rest := DegreeIn(p[1..], v);
      assert p[0] in p;
      if rest < Exp(p[0].m, v) then Exp(p[0].m, v) else rest
  }

  lemma {:induction false} PutDegree(p: Poly, m: Monomial, c: real, v: nat, d: nat)
    requires DegreeAtMost(p, v, d) && Exp(m, v) <= d
    ensures DegreeAtMost(Put(p, m, c), v, d)
  {
    hide Exp;
    if p != [] {
      assert p[0] in p;
      PutDegree(p[1..], m, c, v, d);
    }
  }

  lemma {:induction false} PutAllDegree(out: Poly, b: Poly, v: nat, d: nat)
    requires DegreeAtMost(out, v, d) && DegreeAtMost(b, v, d)
    ensures DegreeAtMost(PutAll(out, b), v, d)
    decreases |b|
  {
    hide Exp, Put;
    if b != [] {
      assert b[0] in b;
      PutDegree(out, b[0].m, b[0].c, v, d);
      PutAllDegree(Put(out, b[0].m, b[0].c), b[1..], v, d);
    }
  }

  lemma SumDegree(a: Poly, b: Poly, v: nat, d: nat)
    requires DegreeAtMost(a, v, d) && DegreeAtMost(b, v, d)
    ensures DegreeAtMost(Sum(a, b), v, d)
  {
    PutAllDegree(a, b, v, d);
  }

  lemma DifferenceDegree(a: Poly, b: Poly, v: nat, d: nat)
    requires DegreeAtMost(a, v, d) && DegreeAtMost(b, v, d)
    ensures DegreeAtMost(Difference(a, b), v, d)
  {
    SumDegree(a, Negated(b), v, d);
  }

  lemma {:induction false} PutRowDegree(out: Poly, x: Term, b: Poly, v: nat, d: nat, e: nat)
    requires DegreeAtMost(out, v, d + e) && Exp(x.m, v) <= d && DegreeAtMost(b, v, e)
    ensures DegreeAtMost(PutRow(out, x, b), v, d + e)
    decreases |b|
  {
    hide Exp, Put, Times;
    if b != [] {
      assert b[0] in b;
      PutDegree(out, MulMonomials(x.m, b[0].m), Times(x.c, b[0].c), v, d + e);
      PutRowDegree(Put(out, MulMonomials(x.m, b[0].m), Times(x.c, b[0].c)), x, b[1..], v, d, e);
    }
  }

  lemma {:induction false} PutRowsDegree(out: Poly, a: Poly, b: Poly, v: nat, d: nat, e: nat)
    requires DegreeAtMost(out, v, d + e) && DegreeAtMost(a, v, d) && DegreeAtMost(b, v, e)
    ensures DegreeAtMost(PutRows(out, a, b), v, d + e)
    decreases |a|
  {
    hide Exp, PutRow;
    if a != [] {
      assert a[0] in a;
      PutRowDegree(out, a[0], b, v, d, e);
      PutRowsDegree(PutRow(out, a[0], b), a[1..], b, v, d, e);
    }
  }

  lemma ProductDegree(a: Poly, b: Poly, v: nat, d: nat, e: nat)
    requires DegreeAtMost(a, v, d) && DegreeAtMost(b, v, e)
    ensures DegreeAtMost(Product(a, b), v, d + e)
  {
    PutRowsDegree([], a, b, v, d, e);
  }

  // ---- the coefficient of a power of one generator ----

  /** The value of the coefficient of `g_v^k`. */
  function Slice(p: Poly, v: nat, k: nat, at: Point): real {
    if p == [] then 0.0
    else (if Exp(p[0].m, v) == k then Times(p[0].c, Mono(Without(p[0].m, v), at)) else 0.0) + Slice(p[1..], v, k, at)
  }

  /** Entry `k` of `coefficientsIn`. */
  function CoefficientIn(p: Poly, v: nat, k: nat): Poly {
    if p == [] then []
    else (if Exp(p[0].m, v) == k then [Term(Without(p[0].m, v), p[0].c)] else []) + CoefficientIn(p[1..], v, k)
  }

  lemma {:induction false} CoefficientEval(p: Poly, v: nat, k: nat, at: Point)
    ensures Eval(CoefficientIn(p, v, k), at) == Slice(p, v, k, at)
  {
    hide Mono, Times, Exp, Without;
    if p != [] {
      CoefficientEval(p[1..], v, k, at);
      var rest := CoefficientIn(p[1..], v, k);
      assert [] + rest == rest;
      EvalCons(Term(Without(p[0].m, v), p[0].c), rest, at);
    }
  }

  lemma {:induction false} CoefficientTerms(p: Poly, v: nat, k: nat)
    ensures forall t :: t in CoefficientIn(p, v, k) ==> exists s :: s in p && Exp(s.m, v) == k && t == Term(Without(s.m, v), s.c)
    ensures (exists s :: s in p && Exp(s.m, v) == k) <==> CoefficientIn(p, v, k) != []
  {
    hide Exp, Without;
    if p != [] {
      CoefficientTerms(p[1..], v, k);
      assert forall s :: s in p <==> s == p[0] || s in p[1..];
    }
  }

  lemma ValidCons(t: Term, rest: Poly)
    requires Valid(rest) && Trimmed(t.m) && t.c != 0.0 && forall s :: s in rest ==> s.m != t.m
    ensures Valid([t] + rest)
  {}

  lemma {:induction false} CoefficientValid(p: Poly, v: nat, k: nat)
    requires Valid(p)
    ensures Valid(CoefficientIn(p, v, k))
  {
    if p != [] {
      hide Exp, Without, Valid;
      CoefficientValid(p[1..], v, k);
      CoefficientTerms(p[1..], v, k);
      var rest := CoefficientIn(p[1..], v, k);
      assert [] + rest == rest;
      if Exp(p[0].m, v) == k {
        forall t | t in rest ensures t.m != Without(p[0].m, v) {
          var s :| s in p[1..] && Exp(s.m, v) == k && t == Term(Without(s.m, v), s.c);
          if t.m == Without(p[0].m, v) { WithoutInjective(s.m, p[0].m, v); }
        }
        ValidCons(Term(Without(p[0].m, v), p[0].c), rest);
      }
    }
  }

  lemma CoefficientDegree(p: Poly, v: nat, k: nat, w: nat, d: nat)
    requires DegreeAtMost(p, w, d)
    ensures DegreeAtMost(CoefficientIn(p, v, k), w, if w == v then 0 else d)
  {
    CoefficientTerms(p, v, k);
  }

  // ---- coefficients of sums and products ----

  /** One term's share of a slice. */
  function Share(t: Term, v: nat, k: nat, at: Point): real {
    if Exp(t.m, v) == k then Times(t.c, Mono(Without(t.m, v), at)) else 0.0
  }

  lemma {:induction false} SlicePut(p: Poly, m: Monomial, c: real, v: nat, k: nat, at: Point)
    ensures Slice(Put(p, m, c), v, k, at) == Slice(p, v, k, at) + Share(Term(m, c), v, k, at)
  {
    hide Mono, Times, Exp, Without;
    TimesUnit(Mono(Without(m, v), at));
    if p == [] {
      assert [Term(m, c)] + [] == [Term(m, c)];
    } else if p[0].m == m {
      TimesAdd(p[0].c, c, Mono(Without(m, v), at));
    } else {
      SlicePut(p[1..], m, c, v, k, at);
    }
  }

  lemma {:induction false} SlicePutAll(out: Poly, b: Poly, v: nat, k: nat, at: Point)
    ensures Slice(PutAll(out, b), v, k, at) == Slice(out, v, k, at) + Slice(b, v, k, at)
    decreases |b|
  {
    hide Mono, Times, Exp, Without, Put;
    if b != [] {
      SlicePut(out, b[0].m, b[0].c, v, k, at);
      SlicePutAll(Put(out, b[0].m, b[0].c), b[1..], v, k, at);
    }
  }

  lemma {:induction false} SliceNegated(p: Poly, v: nat, k: nat, at: Point)
    ensures Slice(Negated(p), v, k, at) == -Slice(p, v, k, at)
  {
    hide Mono, Times, Exp, Without;
    if p != [] {
      var x := Mono(Without(p[0].m, v), at);
      NegatedScaled(p);
      NegatedScaled(p[1..]);
      ScaledCons(p, -1.0);
      TimesNegated(p[0].c, x);
      SliceNegated(p[1..], v, k, at);
    }
  }

  lemma SliceDifference(a: Poly, b: Poly, v: nat, k: nat, at: Point)
    ensures Slice(Difference(a, b), v, k, at) == Slice(a, v, k, at) - Slice(b, v, k, at)
  {
    hide Mono, Times, Exp, Without, PutAll;
    SliceNegated(b, v, k, at);
    SlicePutAll(a, Negated(b), v, k, at);
  }

  lemma {:induction false} SlicePutRow(out: Poly, x: Term, b: Poly, v: nat, d: nat, e: nat, at: Point)
    requires Exp(x.m, v) <= d && DegreeAtMost(b, v, e)
    ensures Slice(PutRow(out, x, b), v, d + e, at)
         == Slice(out, v, d + e, at) + Times(Share(x, v, d, at), Slice(b, v, e, at))
    decreases |b|
  {
    hide Mono, Times, Put, MulMonomials, Without;
    TimesUnit(Share(x, v, d, at));
    if b != [] {
      var y := b[0];
      var xy := Term(MulMonomials(x.m, y.m), Times(x.c, y.c));
      assert y in b;
      SlicePut(out, xy.m, xy.c, v, d + e, at);
      SlicePutRow(Put(out, xy.m, xy.c), x, b[1..], v, d, e, at);
      ShareProduct(x, y, v, d, e, at);
      TimesAdd(Share(y, v, e, at), Slice(b[1..], v, e, at), Share(x, v, d, at));
    }
  }

  lemma ShareProduct(x: Term, y: Term, v: nat, d: nat, e: nat, at: Point)
    requires Exp(x.m, v) <= d && Exp(y.m, v) <= e
    ensures Share(Term(MulMonomials(x.m, y.m), Times(x.c, y.c)), v, d + e, at)
         == Times(Share(x, v, d, at), Share(y, v, e, at))
  {
    hide Mono, Times;
    WithoutProduct(x.m, y.m, v);
    hide Without;
    assert Exp(MulMonomials(x.m, y.m), v) == Exp(x.m, v) + Exp(y.m, v);
    hide MulMonomials, Exp;
    var p, q := Mono(Without(x.m, v), at), Mono(Without(y.m, v), at);
    MonoProduct(Without(x.m, v), Without(y.m, v), at);
    TimesTerms(x.c, y.c, p, q);
    TimesUnit(Times(x.c, p));
    TimesUnit(Times(y.c, q));
    TimesUnit(0.0);
  }

  lemma {:induction false} SlicePutRows(out: Poly, a: Poly, b: Poly, v: nat, d: nat, e: nat, at: Point)
    requires DegreeAtMost(a, v, d) && DegreeAtMost(b, v, e)
    ensures Slice(PutRows(out, a, b), v, d + e, at)
         == Slice(out, v, d + e, at) + Times(Slice(a, v, d, at), Slice(b, v, e, at))
    decreases |a|
  {
    hide Mono, Times, PutRow, Without, Exp;
    TimesUnit(Slice(b, v, e, at));
    if a != [] {
      assert a[0] in a;
      SlicePutRow(out, a[0], b, v, d, e, at);
      SlicePutRows(PutRow(out, a[0], b), a[1..], b, v, d, e, at);
      TimesAdd(Share(a[0], v, d, at), Slice(a[1..], v, d, at), Slice(b, v, e, at));
    }
  }

  /** The top coefficient of a product is the product of the top coefficients. */
  lemma SliceProduct(a: Poly, b: Poly, v: nat, d: nat, e: nat, at: Point)
    requires DegreeAtMost(a, v, d) && DegreeAtMost(b, v, e)
    ensures Slice(Product(a, b), v, d + e, at) == Times(Slice(a, v, d, at), Slice(b, v, e, at))
  {
    SlicePutRows([], a, b, v, d, e, at);
  }
}
