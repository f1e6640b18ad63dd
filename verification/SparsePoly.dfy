/** Sparse multivariate polynomials (packages/cas/src/poly.ts). A polynomial is its terms in insertion order, one per
    monomial. Exact rational coefficients are modelled by real numbers, of which only field laws are used. */
module SparsePoly {
  import opened Reals

  /** The exponent of each generator id, trailing zeros trimmed. */
  type Monomial = seq<nat>

  datatype Term = Term(m: Monomial, c: real)

  type Poly = seq<Term>

  /** A value for every generator. */
  type Point = nat -> real

  // ---- monomials ----

  function Exp(m: Monomial, g: nat): nat { if g < |m| then m[g] else 0 }

  predicate Trimmed(m: Monomial) { m == [] || m[|m| - 1] != 0 }

  /** `trimmed`. */
  function Trim(m: Monomial): (r: Monomial)
    ensures Trimmed(r) && |r| <= |m|
    ensures forall g :: Exp(r, g) == Exp(m, g)
  {
    if m == [] || m[|m| - 1] != 0 then m else Trim(m[..|m| - 1])
  }

  function Max(a: nat, b: nat): nat { if a < b then b else a }

  /** `multiplyMonomials`. */
  function MulMonomials(a: Monomial, b: Monomial): (r: Monomial)
    ensures Trimmed(r)
    ensures forall g :: Exp(r, g) == Exp(a, g) + Exp(b, g)
  {
    Trim(seq(Max(|a|, |b|), i requires 0 <= i => Exp(a, i) + Exp(b, i)))
  }

  lemma TrimmedUnique(m: Monomial, n: Monomial)
    requires Trimmed(m) && Trimmed(n) && forall g :: Exp(m, g) == Exp(n, g)
    ensures m == n
  {
    assert |m| < |n| ==> Exp(m, |n| - 1) == 0 && Exp(n, |n| - 1) != 0;
    assert |n| < |m| ==> Exp(n, |m| - 1) == 0 && Exp(m, |m| - 1) != 0;
    forall i | 0 <= i < |m| && i < |n| ensures m[i] == n[i] { assert Exp(m, i) == m[i] && Exp(n, i) == n[i]; }
  }

  // ---- values ----

  function Power(x: real, n: nat): real { if n == 0 then 1.0 else Times(x, Power(x, n - 1)) }

  lemma {:induction false} PowerSum(x: real, a: nat, b: nat)
    ensures Power(x, a + b) == Times(Power(x, a), Power(x, b))
  {
    if a == 0 {
      TimesUnit(Power(x, b));
    } else {
      hide Times;
      PowerSum(x, a - 1, b);
      TimesAssoc(x, Power(x, a - 1), Power(x, b));
    }
  }

  /** The factors of generators below `n`. */
  function MonoBelow(m: Monomial, n: nat, at: Point): real {
    if n == 0 then 1.0 else Times(MonoBelow(m, n - 1, at), Power(at(n - 1), Exp(m, n - 1)))
  }

  function Mono(m: Monomial, at: Point): real { MonoBelow(m, |m|, at) }

  lemma {:induction false} MonoEnough(m: Monomial, n: nat, at: Point)
    requires |m| <= n
    ensures MonoBelow(m, n, at) == Mono(m, at)
  {
    if n > |m| {
      MonoEnough(m, n - 1, at);
      TimesUnit(Mono(m, at));
    }
  }

  lemma {:induction false} MonoSame(m: Monomial, r: Monomial, n: nat, at: Point)
    requires forall g :: 0 <= g < n ==> Exp(m, g) == Exp(r, g)
    ensures MonoBelow(m, n, at) == MonoBelow(r, n, at)
  {
    if n > 0 { MonoSame(m, r, n - 1, at); }
  }

  lemma {:induction false} MonoProductBelow(a: Monomial, b: Monomial, n: nat, at: Point)
    ensures MonoBelow(MulMonomials(a, b), n, at) == Times(MonoBelow(a, n, at), MonoBelow(b, n, at))
  {
    if n == 0 {
      TimesUnit(1.0);
    } else {
      hide Times;
      var x, i, j := at(n - 1), Exp(a, n - 1), Exp(b, n - 1);
      MonoProductBelow(a, b, n - 1, at);
      assert Exp(MulMonomials(a, b), n - 1) == i + j;
      PowerSum(x, i, j);
      TimesSwap(MonoBelow(a, n - 1, at), MonoBelow(b, n - 1, at), Power(x, i), Power(x, j));
    }
  }

  lemma MonoProduct(a: Monomial, b: Monomial, at: Point)
    ensures Mono(MulMonomials(a, b), at) == Times(Mono(a, at), Mono(b, at))
  {
    hide Times;
    var n := |a| + |b| + |MulMonomials(a, b)|;
    MonoEnough(a, n, at);
    MonoEnough(b, n, at);
    MonoEnough(MulMonomials(a, b), n, at);
    MonoProductBelow(a, b, n, at);
  }

  /** The value of a polynomial at a point. */
  function Eval(p: Poly, at: Point): real {
    if p == [] then 0.0 else Times(p[0].c, Mono(p[0].m, at)) + Eval(p[1..], at)
  }

  // ---- the representation ----

  predicate Has(p: Poly, m: Monomial) { exists t :: t in p && t.m == m }

  /** One term per monomial, trimmed keys, no zero coefficient. */
  ghost predicate Valid(p: Poly) {
    && (forall i, j :: 0 <= i < j < |p| ==> p[i].m != p[j].m)
    && (forall t :: t in p ==> Trimmed(t.m) && t.c != 0.0)
  }

  /** `put`: in place for a known monomial, deleting a zero sum; else at the end. */
  function Put(p: Poly, m: Monomial, c: real): Poly {
    if p == [] then (if c == 0.0 then [] else [Term(m, c)])
    else if p[0].m == m then
      (if p[0].c + c == 0.0 then p[1..] else [Term(m, p[0].c + c)] + p[1..])
    else [p[0]] + Put(p[1..], m, c)
  }

  lemma {:induction false} PutValid(p: Poly, m: Monomial, c: real)
    requires Valid(p) && Trimmed(m)
    ensures Valid(Put(p, m, c))
    ensures forall t :: t in Put(p, m, c) ==> t in p || t.m == m
  {
    if p != [] && p[0].m != m {
      PutValid(p[1..], m, c);
      var rest := Put(p[1..], m, c);
      assert forall t :: t in rest ==> t in p[1..] || t.m == m;
    }
  }

  lemma EvalCons(t: Term, rest: Poly, at: Point)
    ensures Eval([t] + rest, at) == Times(t.c, Mono(t.m, at)) + Eval(rest, at)
  {
    assert ([t] + rest)[1..] == rest;
  }

  lemma {:induction false} PutEval(p: Poly, m: Monomial, c: real, at: Point)
    ensures Eval(Put(p, m, c), at) == Eval(p, at) + Times(c, Mono(m, at))
  {
    hide Mono, Times;
    TimesUnit(Mono(m, at));
    if p == [] {
      EvalCons(Term(m, c), [], at);
      assert [Term(m, c)] + [] == [Term(m, c)];
    } else if p[0].m == m {
      EvalCons(Term(m, p[0].c + c), p[1..], at);
      TimesAdd(p[0].c, c, Mono(m, at));
    } else {
      EvalCons(p[0], Put(p[1..], m, c), at);
      PutEval(p[1..], m, c, at);
    }
  }

  /** The loop of `add`. */
  function PutAll(out: Poly, b: Poly): Poly
    decreases |b|
  {
    if b == [] then out else PutAll(Put(out, b[0].m, b[0].c), b[1..])
  }

  function Negated(p: Poly): Poly { seq(|p|, i requires 0 <= i < |p| => Term(p[i].m, -p[i].c)) }

  function Scaled(p: Poly, c: real): Poly { seq(|p|, i requires 0 <= i < |p| => Term(p[i].m, Times(p[i].c, c))) }

  /** The inner and the outer loop of `multiply`. */
  function PutRow(out: Poly, x: Term, b: Poly): Poly
    decreases |b|
  {
    if b == [] then out else PutRow(Put(out, MulMonomials(x.m, b[0].m), Times(x.c, b[0].c)), x, b[1..])
  }

  function PutRows(out: Poly, a: Poly, b: Poly): Poly
    decreases |a|
  {
    if a == [] then out else PutRows(PutRow(out, a[0], b), a[1..], b)
  }

  function Sum(a: Poly, b: Poly): Poly { if a == [] then b else PutAll(a, b) }

  function Difference(a: Poly, b: Poly): Poly { Sum(a, Negated(b)) }

  function Product(a: Poly, b: Poly): Poly { PutRows([], a, b) }

  lemma {:induction false} PutAllEval(out: Poly, b: Poly, at: Point)
    ensures Eval(PutAll(out, b), at) == Eval(out, at) + Eval(b, at)
    decreases |b|
  {
    hide Mono, Put;
    if b != [] {
      PutEval(out, b[0].m, b[0].c, at);
      PutAllEval(Put(out, b[0].m, b[0].c), b[1..], at);
    }
  }

  lemma SumEval(a: Poly, b: Poly, at: Point)
    ensures Eval(Sum(a, b), at) == Eval(a, at) + Eval(b, at)
  {
    PutAllEval(a, b, at);
  }

  lemma ScaledCons(p: Poly, c: real)
    requires p != []
    ensures Scaled(p, c) == [Term(p[0].m, Times(p[0].c, c))] + Scaled(p[1..], c)
  {
    hide Times;
    var q, r := Scaled(p, c), [Term(p[0].m, Times(p[0].c, c))] + Scaled(p[1..], c);
    forall i | 0 <= i < |p| ensures q[i] == r[i] {
      if i > 0 { assert p[1..][i - 1] == p[i]; }
    }
  }

  lemma {:induction false} ScaledEval(p: Poly, c: real, at: Point)
    ensures Eval(Scaled(p, c), at) == Times(c, Eval(p, at))
  {
    hide Mono, Times;
    TimesUnit(c);
    if p != [] {
      ScaledCons(p, c);
      EvalCons(Term(p[0].m, Times(p[0].c, c)), Scaled(p[1..], c), at);
      ScaledEval(p[1..], c, at);
      TimesRegroup(p[0].c, c, Mono(p[0].m, at));
      TimesAdd(Times(p[0].c, Mono(p[0].m, at)), Eval(p[1..], at), c);
    }
  }

  lemma NegatedScaled(p: Poly)
    ensures Negated(p) == Scaled(p, -1.0)
  {
    assert forall i :: 0 <= i < |p| ==> -p[i].c == Times(p[i].c, -1.0);
  }

  lemma DifferenceEval(a: Poly, b: Poly, at: Point)
    ensures Eval(Difference(a, b), at) == Eval(a, at) - Eval(b, at)
  {
    NegatedScaled(b);
    ScaledEval(b, -1.0, at);
    SumEval(a, Negated(b), at);
  }

  lemma {:induction false} PutRowEval(out: Poly, x: Term, b: Poly, at: Point)
    ensures Eval(PutRow(out, x, b), at) == Eval(out, at) + Times(Times(x.c, Mono(x.m, at)), Eval(b, at))
    decreases |b|
  {
    hide Mono, MulMonomials, Put, Times;
    var u := Times(x.c, Mono(x.m, at));
    TimesUnit(u);
    if b != [] {
      var y := b[0];
      PutEval(out, MulMonomials(x.m, y.m), Times(x.c, y.c), at);
      MonoProduct(x.m, y.m, at);
      PutRowEval(Put(out, MulMonomials(x.m, y.m), Times(x.c, y.c)), x, b[1..], at);
      TimesTerms(x.c, y.c, Mono(x.m, at), Mono(y.m, at));
      TimesAdd(Times(y.c, Mono(y.m, at)), Eval(b[1..], at), u);
    }
  }

  lemma {:induction false} PutRowsEval(out: Poly, a: Poly, b: Poly, at: Point)
    ensures Eval(PutRows(out, a, b), at) == Eval(out, at) + Times(Eval(a, at), Eval(b, at))
    decreases |a|
  {
    hide Mono, PutRow, Times;
    TimesUnit(Eval(b, at));
    if a != [] {
      PutRowEval(out, a[0], b, at);
      PutRowsEval(PutRow(out, a[0], b), a[1..], b, at);
      TimesAdd(Times(a[0].c, Mono(a[0].m, at)), Eval(a[1..], at), Eval(b, at));
    }
  }

  lemma ProductEval(a: Poly, b: Poly, at: Point)
    ensures Eval(Product(a, b), at) == Times(Eval(a, at), Eval(b, at))
  {
    PutRowsEval([], a, b, at);
  }

  // ---- the operations keep the representation ----

  lemma {:induction false} PutAllValid(out: Poly, b: Poly)
    requires Valid(out) && forall t :: t in b ==> Trimmed(t.m)
    ensures Valid(PutAll(out, b))
    decreases |b|
  {
    if b != [] {
      PutValid(out, b[0].m, b[0].c);
      PutAllValid(Put(out, b[0].m, b[0].c), b[1..]);
    }
  }

  lemma SumValid(a: Poly, b: Poly)
    requires Valid(a) && Valid(b)
    ensures Valid(Sum(a, b))
  {
    PutAllValid(a, b);
  }

  lemma ScaledValid(p: Poly, c: real)
    requires Valid(p) && c != 0.0
    ensures Valid(Scaled(p, c))
  {
    forall t | t in Scaled(p, c) ensures Trimmed(t.m) && t.c != 0.0 {
      var i :| 0 <= i < |p| && t == Scaled(p, c)[i];
      assert p[i] in p;
      NonzeroProduct(p[i].c, c);
    }
  }

  lemma DifferenceValid(a: Poly, b: Poly)
    requires Valid(a) && Valid(b)
    ensures Valid(Difference(a, b))
  {
    NegatedScaled(b);
    ScaledValid(b, -1.0);
    SumValid(a, Negated(b));
  }

  lemma {:induction false} PutRowValid(out: Poly, x: Term, b: Poly)
    requires Valid(out)
    ensures Valid(PutRow(out, x, b))
    decreases |b|
  {
    hide Put, Valid, MulMonomials;
    if b != [] {
      PutValid(out, MulMonomials(x.m, b[0].m), Times(x.c, b[0].c));
      PutRowValid(Put(out, MulMonomials(x.m, b[0].m), Times(x.c, b[0].c)), x, b[1..]);
    }
  }

  lemma {:induction false} PutRowsValid(out: Poly, a: Poly, b: Poly)
    requires Valid(out)
    ensures Valid(PutRows(out, a, b))
    decreases |a|
  {
    if a != [] {
      PutRowValid(out, a[0], b);
      PutRowsValid(PutRow(out, a[0], b), a[1..], b);
    }
  }

  lemma ProductValid(a: Poly, b: Poly)
    ensures Valid(Product(a, b))
  {
    PutRowsValid([], a, b);
  }
}
