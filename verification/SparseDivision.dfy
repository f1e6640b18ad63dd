/** Arithmetic of sparse polynomials as loops over terms, and exact division (`divideExact`, packages/cas/src/poly.ts). */
module SparseDivision {
  import opened Options
  import opened Reals
  import opened SparsePoly
  import opened SparseDegrees
  import opened SparseZeros

  // ---- the operations, as loops over terms ----

  method Add(a: Poly, b: Poly) returns (out: Poly)
    requires Valid(a) && Valid(b)
    ensures out == Sum(a, b)
  {
    if |a| == 0 { return b; }
    if |b| == 0 { return a; }
    out := a;
    for i := 0 to |b|
      invariant PutAll(out, b[i..]) == PutAll(a, b)
    {
      assert b[i..][1..] == b[i + 1..];
      out := Put(out, b[i].m, b[i].c);
    }
  }

  method Negate(p: Poly) returns (out: Poly)
    ensures out == Negated(p)
  {
    out := [];
    for i := 0 to |p|
      invariant |out| == i && forall k :: 0 <= k < i ==> out[k] == Term(p[k].m, -p[k].c)
    {
      out := out + [Term(p[i].m, -p[i].c)];
    }
  }

  method Subtract(a: Poly, b: Poly) returns (out: Poly)
    requires Valid(a) && Valid(b)
    ensures out == Difference(a, b)
  {
    var c := Negate(b);
    NegatedScaled(b);
    ScaledValid(b, -1.0);
    out := Add(a, c);
  }

  /** `scale`. */
  function Scale(p: Poly, c: real): Poly {
    if c == 0.0 then [] else if c == 1.0 then p else Scaled(p, c)
  }

  lemma ScaleFacts(p: Poly, c: real)
    requires Valid(p)
    ensures Valid(Scale(p, c))
    ensures forall at: Point :: Eval(Scale(p, c), at) == Times(c, Eval(p, at))
    ensures forall v: nat, d: nat :: DegreeAtMost(p, v, d) ==> DegreeAtMost(Scale(p, c), v, d)
  {
    if c != 0.0 { ScaledValid(p, c); }
    forall at: Point ensures Eval(Scale(p, c), at) == Times(c, Eval(p, at)) {
      hide Times;
      TimesUnit(Eval(p, at));
      ScaledEval(p, c, at);
    }
    forall v: nat, d: nat | DegreeAtMost(p, v, d) ensures DegreeAtMost(Scale(p, c), v, d) {
      forall t | t in Scaled(p, c) ensures Exp(t.m, v) <= d {
        var i :| 0 <= i < |p| && t == Scaled(p, c)[i];
        assert p[i] in p;
      }
    }
  }

  method Multiply(a: Poly, b: Poly) returns (out: Poly)
    ensures out == Product(a, b)
  {
    if |a| == 0 || |b| == 0 {
      EmptyProduct(a, b);
      return [];
    }
    out := [];
    for i := 0 to |a|
      invariant PutRows(out, a[i..], b) == Product(a, b)
    {
      assert a[i..][1..] == a[i + 1..];
      ghost var before := out;
      for j := 0 to |b|
        invariant PutRow(out, a[i], b[j..]) == PutRow(before, a[i], b)
      {
        assert b[j..][1..] == b[j + 1..];
        out := Put(out, MulMonomials(a[i].m, b[j].m), Times(a[i].c, b[j].c));
      }
    }
  }

  lemma {:induction false} EmptyRows(out: Poly, a: Poly)
    ensures PutRows(out, a, []) == out
  {
    if a != [] { EmptyRows(out, a[1..]); }
  }

  lemma EmptyProduct(a: Poly, b: Poly)
    requires a == [] || b == []
    ensures Product(a, b) == []
  {
    EmptyRows([], a);
  }

  /** `generator`. */
  function Generator(g: nat, exponent: nat): Poly {
    [Term(Trim(seq(g + 1, i => if i == g then exponent else 0)), 1.0)]
  }

  lemma GeneratorFacts(g: nat, exponent: nat, at: Point)
    ensures Valid(Generator(g, exponent))
    ensures Slice(Generator(g, exponent), g, exponent, at) == 1.0
  {
    var t := Generator(g, exponent)[0];
    assert Exp(t.m, g) == exponent;
    forall w: nat ensures Exp(Without(t.m, g), w) == Exp([], w) {}
    TrimmedUnique(Without(t.m, g), []);
    TimesUnit(1.0);
  }

  lemma GeneratorDegree(g: nat, exponent: nat, v: nat)
    ensures DegreeAtMost(Generator(g, exponent), v, if v == g then exponent else 0)
  {}

  // ---- divideExact ----

  /** a = q*b, by values; polynomials with the same values are the same. */
  ghost predicate IsProduct(a: Poly, q: Poly, b: Poly) {
    forall at: Point :: Eval(a, at) == Times(Eval(q, at), Eval(b, at))
  }

  ghost predicate Divides(b: Poly, a: Poly) { exists q :: Valid(q) && IsProduct(a, q, b) }

  /** `constantValue`, none when some generator occurs. */
  function ConstantOf(p: Poly): Option<real> {
    if p == [] then Some(0.0) else if |p| == 1 && p[0].m == [] then Some(p[0].c) else None
  }

  /** `max(generators(p))` plus one, 0 for a constant. */
  function Top(p: Poly): (n: nat)
    ensures forall t :: t in p ==> |t.m| <= n
    ensures n > 0 ==> exists t :: t in p && |t.m| == n
  {
    if p == [] then 0 else
      var rest := Top(p[1..]);
      assert forall t :: t in p <==> t == p[0] || t in p[1..];
      assert p[0] in p;
      Max(|p[0].m|, rest)
  }

  /** No generator is new. */
  ghost predicate Inherits(q: Poly, a: Poly, b: Poly) {
    forall w: nat :: DegreeAtMost(a, w, 0) && DegreeAtMost(b, w, 0) ==> DegreeAtMost(q, w, 0)
  }

  lemma MainExists(b: Poly)
    requires Valid(b) && ConstantOf(b).None?
    ensures Top(b) > 0
  {
    assert b[0] in b;
    assert |b| > 1 ==> b[1] in b && b[0].m != b[1].m;
  }

  /** The highest generator of a divisor has a leading coefficient in fewer generators. */
  lemma MainGenerator(b: Poly)
    requires Valid(b) && ConstantOf(b).None?
    ensures Top(b) > 0
    ensures var v := Top(b) - 1; var d := DegreeIn(b, v);
            d >= 0 && Valid(CoefficientIn(b, v, d)) && CoefficientIn(b, v, d) != [] && Top(CoefficientIn(b, v, d)) < Top(b)
  {
    hide Valid, Exp, CoefficientIn, Top;
    MainExists(b);
    var v: nat := Top(b) - 1;
    var d: nat := DegreeIn(b, v);
    CoefficientValid(b, v, d);
    CoefficientTerms(b, v, d);
  }

  lemma {:induction false} SliceBeyond(p: Poly, v: nat, k: nat, at: Point)
    requires forall t :: t in p ==> Exp(t.m, v) != k
    ensures Slice(p, v, k, at) == 0.0
  {
    if p != [] {
      assert p[0] in p;
      SliceBeyond(p[1..], v, k, at);
    }
  }

  /** Somewhere the leading coefficients of two polynomials are both not zero. */
  lemma LeadingPoint(p: Poly, q: Poly, v: nat) returns (at: Point)
    requires Valid(p) && Valid(q) && p != [] && q != []
    ensures Slice(p, v, DegreeIn(p, v), at) != 0.0 && Slice(q, v, DegreeIn(q, v), at) != 0.0
  {
    var d: nat, e: nat := DegreeIn(p, v), DegreeIn(q, v);
    var top, peak := CoefficientIn(p, v, d), CoefficientIn(q, v, e);
    CoefficientValid(p, v, d);
    CoefficientValid(q, v, e);
    CoefficientTerms(p, v, d);
    CoefficientTerms(q, v, e);
    hide *;
    var m := SomeWidth(top);
    var n := SomeWidth(peak);
    at := NonzeroPoint(top, peak, Max(m, n));
    CoefficientEval(p, v, d, at);
    CoefficientEval(q, v, e, at);
  }

  lemma SameAsProduct(r: Poly, q: Poly, b: Poly)
    requires IsProduct(r, q, b)
    ensures Valid(Product(q, b)) && SameValues(r, Product(q, b))
  {
    hide Product, Times, Valid;
    ProductValid(q, b);
    forall at: Point ensures Eval(r, at) == Eval(Product(q, b), at) { ProductEval(q, b, at); }
  }

  lemma TopSlice(r: Poly, q: Poly, b: Poly, v: nat, d: nat, e: nat, at: Point)
    requires Valid(r) && IsProduct(r, q, b) && DegreeAtMost(q, v, d) && DegreeAtMost(b, v, e)
    ensures Slice(r, v, d + e, at) == Times(Slice(q, v, d, at), Slice(b, v, e, at))
  {
    hide *;
    SameAsProduct(r, q, b);
    SameSlices(r, Product(q, b), v, d + e, at);
    SliceProduct(q, b, v, d, e, at);
  }

  lemma HighSlice(r: Poly, q: Poly, b: Poly, v: nat, d: nat, e: nat, k: nat, at: Point)
    requires Valid(r) && IsProduct(r, q, b) && DegreeAtMost(q, v, d) && DegreeAtMost(b, v, e) && k > d + e
    ensures Slice(r, v, k, at) == 0.0
  {
    hide Slice, Eval, Product, IsProduct, Exp, Valid;
    SameAsProduct(r, q, b);
    SameSlices(r, Product(q, b), v, k, at);
    ProductDegree(q, b, v, d, e);
    SliceBeyond(Product(q, b), v, k, at);
  }

  /** Degrees add up in a product, and leading coefficients multiply. */
  lemma ProductLeads(r: Poly, q: Poly, b: Poly, v: nat)
    requires Valid(r) && Valid(q) && Valid(b) && IsProduct(r, q, b) && r != [] && b != []
    ensures q != [] && DegreeIn(r, v) == DegreeIn(q, v) + DegreeIn(b, v)
    ensures forall at: Point :: Slice(r, v, DegreeIn(r, v), at)
                             == Times(Slice(q, v, DegreeIn(q, v), at), Slice(b, v, DegreeIn(b, v), at))
  {
    hide Slice, Eval, Times, Exp, Valid, IsProduct;
    QuotientNotZero(r, q, b);
    var d: nat, e: nat, f: nat := DegreeIn(q, v), DegreeIn(b, v), DegreeIn(r, v);
    var x := LeadingPoint(q, b, v);
    TopSlice(r, q, b, v, d, e, x);
    NonzeroProduct(Slice(q, v, d, x), Slice(b, v, e, x));
    if d + e > f { SliceBeyond(r, v, d + e, x); }
    var y := LeadingPoint(r, r, v);
    if f > d + e { HighSlice(r, q, b, v, d, e, f, y); }
    forall at: Point ensures Slice(r, v, f, at) == Times(Slice(q, v, d, at), Slice(b, v, e, at)) {
      TopSlice(r, q, b, v, d, e, at);
    }
  }

  lemma QuotientNotZero(r: Poly, q: Poly, b: Poly)
    requires Valid(r) && IsProduct(r, q, b) && r != []
    ensures q != []
  {
    NonzeroSomewhere(r);
    var at: Point :| Eval(r, at) != 0.0;
    assert Eval(r, at) == Times(Eval(q, at), Eval(b, at));
    TimesUnit(Eval(b, at));
  }

  /** The same, by the code's own subtraction: a - q*b is the zero polynomial. */
  lemma ProductExactly(a: Poly, q: Poly, b: Poly)
    requires Valid(a)
    ensures IsProduct(a, q, b) <==> Difference(a, Product(q, b)) == []
  {
    hide Times, Difference, Product;
    var d := Difference(a, Product(q, b));
    ProductValid(q, b);
    DifferenceValid(a, Product(q, b));
    forall at: Point ensures Eval(d, at) == Eval(a, at) - Times(Eval(q, at), Eval(b, at)) {
      ProductEval(q, b, at);
      DifferenceEval(a, Product(q, b), at);
    }
    if IsProduct(a, q, b) {
      forall at: Point ensures Eval(d, at) == Eval([], at) {}
      ZeroEverywhere(d);
    }
    if d == [] {
      forall at: Point ensures Eval(a, at) == Times(Eval(q, at), Eval(b, at)) { assert Eval(d, at) == 0.0; }
    }
  }

  // ---- one step of the loop ----

  lemma {:induction false} FreeSlice(p: Poly, v: nat, at: Point)
    requires DegreeAtMost(p, v, 0) && forall t :: t in p ==> Trimmed(t.m)
    ensures Slice(p, v, 0, at) == Eval(p, at)
  {
    if p != [] {
      assert p[0] in p;
      TrimmedUnique(Without(p[0].m, v), p[0].m);
      FreeSlice(p[1..], v, at);
    }
  }

  function NextTerm(t: Poly, v: nat, n: nat): Poly { Product(t, Generator(v, n)) }

  function NextRest(r: Poly, t: Poly, b: Poly, v: nat, n: nat): Poly { Difference(r, Product(NextTerm(t, v, n), b)) }

  lemma NextSlice(r: Poly, t: Poly, b: Poly, v: nat, n: nat, e: nat, at: Point)
    requires Valid(t) && DegreeAtMost(t, v, 0) && DegreeAtMost(b, v, e)
    requires IsProduct(CoefficientIn(r, v, n + e), t, CoefficientIn(b, v, e))
    ensures Slice(NextRest(r, t, b, v, n), v, n + e, at) == 0.0
  {
    hide Slice, Eval, Times, Exp, Product, Difference, Generator, CoefficientIn;
    var g := Generator(v, n);
    GeneratorFacts(v, n, at);
    GeneratorDegree(v, n, v);
    ProductDegree(t, g, v, 0, n);
    SliceDifference(r, Product(Product(t, g), b), v, n + e, at);
    SliceProduct(Product(t, g), b, v, n, e, at);
    SliceProduct(t, g, v, 0, n, at);
    FreeSlice(t, v, at);
    CoefficientEval(r, v, n + e, at);
    CoefficientEval(b, v, e, at);
    TimesUnit(Eval(t, at));
  }

  lemma NextValid(t: Poly, b: Poly, v: nat, n: nat)
    ensures Valid(NextTerm(t, v, n))
    ensures forall r :: Valid(r) ==> Valid(NextRest(r, t, b, v, n))
  {
    hide Valid, Product, Difference;
    ProductValid(t, Generator(v, n));
    ProductValid(NextTerm(t, v, n), b);
    forall r | Valid(r) ensures Valid(NextRest(r, t, b, v, n)) { DifferenceValid(r, Product(NextTerm(t, v, n), b)); }
  }

  lemma NextDegree(r: Poly, t: Poly, b: Poly, w: nat, v: nat, n: nat, d: nat, e: nat)
    requires DegreeAtMost(t, w, 0) && DegreeAtMost(b, w, e) && DegreeAtMost(r, w, d)
    requires (if w == v then n else 0) + e <= d
    ensures DegreeAtMost(NextTerm(t, v, n), w, if w == v then n else 0)
    ensures DegreeAtMost(NextRest(r, t, b, v, n), w, d)
  {
    hide Product, Difference, Generator, Exp;
    var k := if w == v then n else 0;
    GeneratorDegree(v, n, w);
    ProductDegree(t, Generator(v, n), w, 0, k);
    ProductDegree(NextTerm(t, v, n), b, w, k, e);
    assert DegreeAtMost(Product(NextTerm(t, v, n), b), w, d);
    DifferenceDegree(r, Product(NextTerm(t, v, n), b), w, d);
  }

  /** The leading coefficient of the rest cancels. */
  lemma RestShrinks(r: Poly, t: Poly, b: Poly, v: nat, n: nat, e: nat)
    requires Valid(r) && Valid(t) && DegreeAtMost(t, v, 0) && DegreeAtMost(b, v, e)
    requires DegreeIn(r, v) == n + e
    requires IsProduct(CoefficientIn(r, v, n + e), t, CoefficientIn(b, v, e))
    ensures DegreeIn(NextRest(r, t, b, v, n), v) < n + e
  {
    hide Slice, Eval, Exp, CoefficientIn, NextRest, NextTerm, IsProduct, Valid;
    var next := NextRest(r, t, b, v, n);
    var c := CoefficientIn(next, v, n + e);
    NextDegree(r, t, b, v, v, n, n + e, e);
    NextValid(t, b, v, n);
    CoefficientValid(next, v, n + e);
    CoefficientTerms(next, v, n + e);
    if c != [] {
      NonzeroSomewhere(c);
      var at: Point :| Eval(c, at) != 0.0;
      CoefficientEval(next, v, n + e, at);
      NextSlice(r, t, b, v, n, e, at);
    }
  }

  /** a = q*b + r, by values. */
  ghost predicate Remains(a: Poly, q: Poly, b: Poly, r: Poly) {
    forall at: Point :: Eval(a, at) == Times(Eval(q, at), Eval(b, at)) + Eval(r, at)
  }

  lemma RemainsAt(a: Poly, q: Poly, b: Poly, r: Poly, s: Poly, at: Point)
    requires Eval(a, at) == Times(Eval(q, at), Eval(b, at)) + Eval(r, at)
    ensures Eval(a, at) == Times(Eval(Sum(q, s), at), Eval(b, at)) + Eval(Difference(r, Product(s, b)), at)
  {
    hide *;
    SumEval(q, s, at);
    TimesAdd(Eval(q, at), Eval(s, at), Eval(b, at));
    DifferenceEval(r, Product(s, b), at);
    ProductEval(s, b, at);
  }

  lemma RemainsStep(a: Poly, q: Poly, b: Poly, r: Poly, t: Poly, v: nat, n: nat)
    requires Remains(a, q, b, r)
    ensures Remains(a, Sum(q, NextTerm(t, v, n)), b, NextRest(r, t, b, v, n))
  {
    hide Times, Sum, Product, NextTerm, Difference;
    forall at: Point
      ensures Eval(a, at) == Times(Eval(Sum(q, NextTerm(t, v, n)), at), Eval(b, at)) + Eval(NextRest(r, t, b, v, n), at)
    {
      RemainsAt(a, q, b, r, NextTerm(t, v, n), at);
    }
  }

  lemma DividesAt(q: Poly, b: Poly, r: Poly, s: Poly, at: Point)
    requires Eval(r, at) == Times(Eval(q, at), Eval(b, at))
    ensures Eval(Difference(r, Product(s, b)), at) == Times(Eval(Difference(q, s), at), Eval(b, at))
  {
    hide *;
    DifferenceEval(q, s, at);
    DifferenceEval(r, Product(s, b), at);
    ProductEval(s, b, at);
    TimesAdd(Eval(q, at) - Eval(s, at), Eval(s, at), Eval(b, at));
  }

  /** What divides the rest still divides it. */
  lemma DividesStep(b: Poly, r: Poly, t: Poly, v: nat, n: nat)
    requires Divides(b, r)
    ensures Divides(b, NextRest(r, t, b, v, n))
  {
    hide Times, Product, NextTerm, Difference, Valid;
    var q :| Valid(q) && IsProduct(r, q, b);
    var s := NextTerm(t, v, n);
    NextValid(t, b, v, n);
    DifferenceValid(q, s);
    forall at: Point ensures Eval(NextRest(r, t, b, v, n), at) == Times(Eval(Difference(q, s), at), Eval(b, at)) {
      DividesAt(q, b, r, s, at);
    }
    assert IsProduct(NextRest(r, t, b, v, n), Difference(q, s), b);
  }

  /** A divisor's degree is no higher, and its leading coefficient divides the leading coefficient. */
  lemma LeadDivides(b: Poly, r: Poly, v: nat)
    requires Valid(r) && Valid(b) && r != [] && b != [] && Divides(b, r)
    ensures DegreeIn(b, v) <= DegreeIn(r, v)
    ensures Divides(CoefficientIn(b, v, DegreeIn(b, v)), CoefficientIn(r, v, DegreeIn(r, v)))
  {
    var q :| Valid(q) && IsProduct(r, q, b);
    hide Slice, Eval, Times, Exp, Valid, CoefficientIn;
    ProductLeads(r, q, b, v);
    var d: nat, e: nat, f: nat := DegreeIn(q, v), DegreeIn(b, v), DegreeIn(r, v);
    CoefficientValid(q, v, d);
    forall at: Point
      ensures Eval(CoefficientIn(r, v, f), at) == Times(Eval(CoefficientIn(q, v, d), at), Eval(CoefficientIn(b, v, e), at))
    {
      CoefficientEval(r, v, f, at);
      CoefficientEval(q, v, d, at);
      CoefficientEval(b, v, e, at);
    }
    assert IsProduct(CoefficientIn(r, v, f), CoefficientIn(q, v, d), CoefficientIn(b, v, e));
  }

  // ---- divideExact ----

  datatype Division = Quotient(q: Poly) | NotDivisible | ByZero

  lemma ScaleDivides(a: Poly, b: Poly, c: real)
    requires Valid(a) && ConstantOf(b) == Some(c) && c != 0.0
    ensures Valid(Scale(a, 1.0 / c)) && IsProduct(a, Scale(a, 1.0 / c), b) && Inherits(Scale(a, 1.0 / c), a, b)
  {
    var q := Scale(a, 1.0 / c);
    ScaleFacts(a, 1.0 / c);
    forall at: Point ensures Eval(a, at) == Times(Eval(q, at), Eval(b, at)) {
      ConstantValue(b, at);
      Inverted(c, Eval(a, at));
    }
  }

  lemma StartRemains(a: Poly, b: Poly)
    ensures Remains(a, [], b, a)
  {
    forall at: Point ensures Eval(a, at) == Times(Eval([], at), Eval(b, at)) + Eval(a, at) { TimesUnit(Eval(b, at)); }
  }

  lemma Finished(a: Poly, q: Poly, b: Poly)
    requires Remains(a, q, b, [])
    ensures IsProduct(a, q, b)
  {
    forall at: Point ensures Eval(a, at) == Times(Eval(q, at), Eval(b, at)) { assert Eval([], at) == 0.0; }
  }

  ghost predicate LoopInv(a: Poly, b: Poly, q: Poly, r: Poly) {
    && Valid(r) && Valid(q) && Remains(a, q, b, r)
    && Inherits(q, a, b) && Inherits(r, a, b)
    && (Divides(b, a) ==> Divides(b, r))
  }

  lemma StartLoop(a: Poly, b: Poly)
    requires Valid(a)
    ensures LoopInv(a, b, [], a)
  {
    StartRemains(a, b);
  }

  lemma LoopValid(a: Poly, b: Poly, q: Poly, r: Poly)
    requires LoopInv(a, b, q, r)
    ensures Valid(q) && Valid(r)
  {}

  lemma LoopDone(a: Poly, b: Poly, q: Poly, r: Poly)
    requires LoopInv(a, b, q, r) && r == []
    ensures Valid(q) && IsProduct(a, q, b) && Inherits(q, a, b)
  {
    Finished(a, q, b);
  }

  lemma NotDivided(a: Poly, b: Poly, q: Poly, r: Poly, v: nat)
    requires LoopInv(a, b, q, r) && Valid(b) && r != [] && b != []
    requires DegreeIn(r, v) < DegreeIn(b, v)
          || !Divides(CoefficientIn(b, v, DegreeIn(b, v)), CoefficientIn(r, v, DegreeIn(r, v)))
    ensures !Divides(b, a)
  {
    hide Valid, CoefficientIn, Remains, Inherits, IsProduct;
    if Divides(b, r) { LeadDivides(b, r, v); }
  }

  /** A divisor's main generator occurs in it. */
  lemma MainDegree(b: Poly)
    requires Valid(b) && Top(b) > 0
    ensures DegreeIn(b, Top(b) - 1) > 0
  {
    var t :| t in b && |t.m| == Top(b);
    assert Exp(t.m, Top(b) - 1) > 0;
  }

  lemma InheritsStep(a: Poly, b: Poly, q: Poly, r: Poly, t: Poly, v: nat, n: nat, e: nat)
    requires Inherits(q, a, b) && Inherits(r, a, b) && DegreeIn(b, v) > 0
    requires Inherits(t, CoefficientIn(r, v, n + e), CoefficientIn(b, v, e))
    ensures Inherits(Sum(q, NextTerm(t, v, n)), a, b) && Inherits(NextRest(r, t, b, v, n), a, b)
  {
    forall w: nat | DegreeAtMost(a, w, 0) && DegreeAtMost(b, w, 0)
      ensures DegreeAtMost(Sum(q, NextTerm(t, v, n)), w, 0) && DegreeAtMost(NextRest(r, t, b, v, n), w, 0)
    {
      hide Exp, Sum, NextTerm, NextRest, CoefficientIn;
      CoefficientDegree(r, v, n + e, w, 0);
      CoefficientDegree(b, v, e, w, 0);
      assert w != v;
      NextDegree(r, t, b, w, v, n, 0, 0);
      SumDegree(q, NextTerm(t, v, n), w, 0);
    }
  }

  /** The quotient of leading coefficients is free of the main generator. */
  lemma FreeQuotient(t: Poly, r: Poly, b: Poly, v: nat, n: nat, e: nat)
    requires Inherits(t, CoefficientIn(r, v, n), CoefficientIn(b, v, e))
    requires DegreeAtMost(r, v, n) && DegreeAtMost(b, v, e)
    ensures DegreeAtMost(t, v, 0)
  {
    hide Exp, CoefficientIn;
    CoefficientDegree(r, v, n, v, n);
    CoefficientDegree(b, v, e, v, e);
  }

  lemma LoopStep(a: Poly, b: Poly, q: Poly, r: Poly, t: Poly, v: nat, n: nat, e: nat)
    requires LoopInv(a, b, q, r) && Valid(b) && Valid(t) && r != [] && Top(b) == v + 1
    requires DegreeIn(b, v) == e && DegreeIn(r, v) == n + e
    requires IsProduct(CoefficientIn(r, v, n + e), t, CoefficientIn(b, v, e))
    requires Inherits(t, CoefficientIn(r, v, n + e), CoefficientIn(b, v, e))
    ensures LoopInv(a, b, Sum(q, NextTerm(t, v, n)), NextRest(r, t, b, v, n))
    ensures DegreeIn(NextRest(r, t, b, v, n), v) < DegreeIn(r, v)
  {
    hide Valid, Remains, Inherits, Divides, IsProduct, CoefficientIn, Exp, NextTerm, NextRest, Sum, Top;
    MainDegree(b);
    FreeQuotient(t, r, b, v, n + e, e);
    RestShrinks(r, t, b, v, n, e);
    NextValid(t, b, v, n);
    SumValid(q, NextTerm(t, v, n));
    RemainsStep(a, q, b, r, t, v, n);
    InheritsStep(a, b, q, r, t, v, n, e);
    if Divides(b, r) { DividesStep(b, r, t, v, n); }
  }

  /** `divideExact`: a quotient only when it is one, none only when there is none. */
  method DivideExact(a: Poly, b: Poly) returns (res: Division)
    requires Valid(a) && Valid(b)
    ensures res == ByZero <==> b == []
    ensures res.Quotient? ==> Valid(res.q) && IsProduct(a, res.q, b) && Inherits(res.q, a, b)
    ensures res == NotDivisible ==> !Divides(b, a)
    decreases Top(b), 1
  {
    var bc := ConstantOf(b);
    assert b != [] ==> b[0] in b;
    if bc.Some? {
      if bc.value == 0.0 { return ByZero; }
      ScaleDivides(a, b, bc.value);
      return Quotient(Scale(a, 1.0 / bc.value));
    }
    if |a| == 0 {
      return Quotient(a);
    }
    res := DivideAlong(a, b);
  }

  /** The rest of `divideExact`: long division in the divisor's highest generator. */
  method DivideAlong(a: Poly, b: Poly) returns (res: Division)
    requires Valid(a) && Valid(b) && a != [] && ConstantOf(b).None?
    ensures !res.ByZero?
    ensures res.Quotient? ==> Valid(res.q) && IsProduct(a, res.q, b) && Inherits(res.q, a, b)
    ensures res == NotDivisible ==> !Divides(b, a)
    decreases Top(b), 0
  {
    hide *;
    MainGenerator(b);
    var v: nat := Top(b) - 1;
    var db: nat := DegreeIn(b, v);
    var lb := CoefficientIn(b, v, db);
    var r, q: Poly := a, [];
    StartLoop(a, b);
    while |r| > 0
      invariant LoopInv(a, b, q, r)
      decreases DegreeIn(r, v)
    {
      LoopValid(a, b, q, r);
      var dr := DegreeIn(r, v);
      if dr < db {
        NotDivided(a, b, q, r, v);
        return NotDivisible;
      }
      CoefficientValid(r, v, dr);
      var sub := DivideExact(CoefficientIn(r, v, dr), lb);
      if sub.NotDivisible? {
        NotDivided(a, b, q, r, v);
        return NotDivisible;
      }
      LoopStep(a, b, q, r, sub.q, v, dr - db, db);
      ghost var nextQ, nextR := Sum(q, NextTerm(sub.q, v, dr - db)), NextRest(r, sub.q, b, v, dr - db);
      q, r := Advance(q, r, sub.q, b, v, dr - db);
      assert q == nextQ && r == nextR;
    }
    LoopDone(a, b, q, r);
    res := Quotient(q);
  }

  /** The loop's body: `q + t*v^n` and `r - t*v^n*b`. */
  method Advance(q: Poly, r: Poly, t: Poly, b: Poly, v: nat, n: nat) returns (nextQ: Poly, nextR: Poly)
    requires Valid(q) && Valid(r)
    ensures nextQ == Sum(q, NextTerm(t, v, n)) && nextR == NextRest(r, t, b, v, n)
  {
    hide Valid, Sum, Difference, Product, Generator;
    var qt := Multiply(t, Generator(v, n));
    NextValid(t, b, v, n);
    ProductValid(qt, b);
    nextQ := Add(q, qt);
    var back := Multiply(qt, b);
    nextR := Subtract(r, back);
  }
}
