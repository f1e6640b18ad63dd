/** The monomial order (`compareMonomials` and `leadingTerm`, packages/cas/src/poly.ts): it is total, products respect it,
    and leading terms multiply. */
module MonomialOrder {
  import opened Options
  import opened Reals
  import opened SparsePoly
  import opened SparseZeros
  import opened SparseDivision

  // ---- the order ----

  /** `compareMonomials` on the generators below `n`: the highest one that differs decides. */
  function CompareBelow(a: seq<int>, b: Monomial, n: nat): int {
    if n == 0 then 0
    else
      var d := (if n - 1 < |a| then a[n - 1] else 0) - (if n - 1 < |b| then b[n - 1] else 0);
      if d != 0 then d else CompareBelow(a, b, n - 1)
  }

  function Compare(a: seq<int>, b: Monomial): int { CompareBelow(a, b, Max(|a|, |b|)) }

  lemma {:induction false} CompareEnough(a: Monomial, b: Monomial, n: nat)
    requires |a| <= n && |b| <= n
    ensures CompareBelow(a, b, n) == Compare(a, b)
  {
    if n > Max(|a|, |b|) { CompareEnough(a, b, n - 1); }
  }

  lemma {:induction false} CompareOrder(a: Monomial, b: Monomial, c: Monomial, n: nat)
    ensures CompareBelow(a, b, n) == -CompareBelow(b, a, n)
    ensures CompareBelow(a, b, n) <= 0 && CompareBelow(b, c, n) <= 0 ==> CompareBelow(a, c, n) <= 0
    ensures CompareBelow(a, b, n) == 0 ==> forall g :: 0 <= g < n ==> Exp(a, g) == Exp(b, g)
  {
    if n > 0 { CompareOrder(a, b, c, n - 1); }
  }

  /** The order of `compareMonomials` is total, and equal only for equal monomials. */
  lemma CompareIsTotal(a: Monomial, b: Monomial, c: Monomial)
    ensures Compare(a, b) == -Compare(b, a)
    ensures Compare(a, b) <= 0 && Compare(b, c) <= 0 ==> Compare(a, c) <= 0
    ensures Compare(a, b) == 0 && Trimmed(a) && Trimmed(b) ==> a == b
  {
    var n := Max(Max(|a|, |b|), |c|);
    CompareEnough(a, b, n);
    CompareEnough(b, a, n);
    CompareEnough(b, c, n);
    CompareEnough(a, c, n);
    CompareOrder(a, b, c, n);
    if Compare(a, b) == 0 && Trimmed(a) && Trimmed(b) {
      forall g: nat ensures Exp(a, g) == Exp(b, g) {}
      TrimmedUnique(a, b);
    }
  }

  /** `leadingTerm`. */
  method LeadingTerm(p: Poly) returns (lead: Option<Term>)
    ensures lead.None? <==> p == []
    ensures lead.Some? ==> lead.value in p && forall t :: t in p ==> Compare(t.m, lead.value.m) <= 0
  {
    lead := None;
    for i := 0 to |p|
      invariant lead.None? <==> i == 0
      invariant lead.Some? ==> lead.value in p && forall k :: 0 <= k < i ==> Compare(p[k].m, lead.value.m) <= 0
    {
      var m := if lead.Some? then lead.value.m else [];
      forall k | 0 <= k < i ensures Compare(p[k].m, m) <= 0 && Compare(m, p[i].m) <= 0 ==> Compare(p[k].m, p[i].m) <= 0 {
        CompareIsTotal(p[k].m, m, p[i].m);
      }
      CompareIsTotal(m, p[i].m, m);
      CompareIsTotal(p[i].m, p[i].m, p[i].m);
      if lead.None? || Compare(p[i].m, lead.value.m) > 0 { lead := Some(p[i]); }
    }
  }

  /** Multiplying both sides by a monomial keeps the order. */
  lemma {:induction false} CompareTimesBelow(a: Monomial, b: Monomial, c: Monomial, n: nat)
    ensures CompareBelow(MulMonomials(a, c), MulMonomials(b, c), n) == CompareBelow(a, b, n)
  {
    if n > 0 {
      CompareTimesBelow(a, b, c, n - 1);
      assert Exp(MulMonomials(a, c), n - 1) - Exp(MulMonomials(b, c), n - 1) == Exp(a, n - 1) - Exp(b, n - 1);
    }
  }

  lemma CompareTimes(a: Monomial, b: Monomial, c: Monomial)
    ensures Compare(MulMonomials(a, c), MulMonomials(b, c)) == Compare(a, b)
  {
    var u, v := MulMonomials(a, c), MulMonomials(b, c);
    var n := |a| + |b| + |u| + |v|;
    CompareTimesBelow(a, b, c, n);
    CompareEnough(a, b, n);
    CompareEnough(u, v, n);
  }

  lemma TimesCommute(a: Monomial, b: Monomial)
    ensures MulMonomials(a, b) == MulMonomials(b, a)
  {
    forall g: nat ensures Exp(MulMonomials(a, b), g) == Exp(MulMonomials(b, a), g) {}
    TrimmedUnique(MulMonomials(a, b), MulMonomials(b, a));
  }

  /** Products of smaller monomials are smaller; a product reaches the greatest one only from the greatest factors. */
  lemma TimesBelow(u: Monomial, x: Monomial, t: Monomial, y: Monomial)
    requires Trimmed(u) && Trimmed(x) && Trimmed(t) && Trimmed(y) && Compare(u, x) <= 0 && Compare(t, y) <= 0
    ensures Compare(MulMonomials(u, t), MulMonomials(x, y)) <= 0
    ensures MulMonomials(u, t) == MulMonomials(x, y) <==> u == x && t == y
  {
    var ut, xt, xy := MulMonomials(u, t), MulMonomials(x, t), MulMonomials(x, y);
    CompareTimes(u, x, t);
    CompareTimes(t, y, x);
    TimesCommute(t, x);
    TimesCommute(y, x);
    hide Compare, MulMonomials;
    CompareIsTotal(ut, xt, xy);
    if ut == xy {
      CompareIsTotal(xt, xy, xt);
      CompareIsTotal(xt, ut, xt);
      CompareIsTotal(u, x, u);
      CompareIsTotal(t, y, t);
    }
  }

  // ---- coefficients ----

  /** The coefficient of a monomial. */
  function CoefAt(p: Poly, m: Monomial): real {
    if p == [] then 0.0 else (if p[0].m == m then p[0].c else 0.0) + CoefAt(p[1..], m)
  }

  lemma {:induction false} CoefPut(p: Poly, m: Monomial, c: real, k: Monomial)
    ensures CoefAt(Put(p, m, c), k) == CoefAt(p, k) + (if k == m then c else 0.0)
  {
    if p != [] {
      CoefPut(p[1..], m, c, k);
      var q := Put(p, m, c);
      if p[0].m == m {
        if p[0].c + c != 0.0 { assert q[1..] == p[1..]; }
      } else {
        assert q[1..] == Put(p[1..], m, c);
      }
    }
  }

  lemma {:induction false} CoefPutAll(out: Poly, b: Poly, k: Monomial)
    ensures CoefAt(PutAll(out, b), k) == CoefAt(out, k) + CoefAt(b, k)
    decreases |b|
  {
    if b != [] {
      CoefPut(out, b[0].m, b[0].c, k);
      CoefPutAll(Put(out, b[0].m, b[0].c), b[1..], k);
    }
  }

  lemma {:induction false} CoefScaled(p: Poly, c: real, k: Monomial)
    ensures CoefAt(Scaled(p, c), k) == Times(CoefAt(p, k), c)
  {
    if p != [] {
      ScaledCons(p, c);
      CoefScaled(p[1..], c, k);
      assert Scaled(p, c)[1..] == Scaled(p[1..], c);
    }
  }

  lemma CoefDifference(p: Poly, q: Poly, k: Monomial)
    ensures CoefAt(Difference(p, q), k) == CoefAt(p, k) - CoefAt(q, k)
  {
    NegatedScaled(q);
    CoefScaled(q, -1.0, k);
    CoefPutAll(p, Negated(q), k);
  }

  lemma {:induction false} CoefNone(p: Poly, m: Monomial)
    requires forall t :: t in p ==> t.m != m
    ensures CoefAt(p, m) == 0.0
  {
    if p != [] {
      assert p[0] in p;
      CoefNone(p[1..], m);
    }
  }

  lemma TailValid(p: Poly)
    requires Valid(p) && p != []
    ensures Valid(p[1..]) && forall t :: t in p[1..] ==> t.m != p[0].m
  {
    forall t | t in p[1..] ensures t.m != p[0].m {
      var i :| 0 <= i < |p[1..]| && p[1..][i] == t;
      assert p[1..][i] == p[i + 1];
    }
  }

  lemma {:induction false} CoefTerm(p: Poly, t: Term)
    requires Valid(p) && t in p
    ensures CoefAt(p, t.m) == t.c
  {
    TailValid(p);
    if t == p[0] { CoefNone(p[1..], t.m); } else { CoefTerm(p[1..], t); }
  }

  lemma {:induction false} TermOfCoef(p: Poly, m: Monomial)
    requires CoefAt(p, m) != 0.0 && Valid(p)
    ensures Term(m, CoefAt(p, m)) in p
  {
    TailValid(p);
    if p[0].m == m { CoefNone(p[1..], m); } else { TermOfCoef(p[1..], m); }
  }

  /** Polynomials with the same values have the same terms. */
  lemma SameTerms(p: Poly, q: Poly)
    requires Valid(p) && Valid(q) && SameValues(p, q)
    ensures forall t :: t in p <==> t in q
  {
    var d := Difference(p, q);
    forall at: Point ensures Eval(d, at) == 0.0 { DifferenceEval(p, q, at); }
    DifferenceValid(p, q);
    assert SameValues(d, []);
    ZeroEverywhere(d);
    hide Valid, CoefAt, Difference;
    assert CoefAt([], []) == 0.0;
    forall k: Monomial ensures CoefAt(p, k) == CoefAt(q, k) {
      CoefDifference(p, q, k);
      CoefNone(d, k);
    }
    forall t ensures t in p <==> t in q {
      if t in p { TermOver(p, q, t); }
      if t in q { TermOver(q, p, t); }
    }
  }

  lemma TermOver(p: Poly, q: Poly, t: Term)
    requires Valid(p) && Valid(q) && t in p && CoefAt(p, t.m) == CoefAt(q, t.m)
    ensures t in q
  {
    CoefTerm(p, t);
    TermOfCoef(q, t.m);
  }

  // ---- leading terms of products ----

  ghost predicate IsLead(p: Poly, t: Term) { t in p && forall u :: u in p ==> Compare(u.m, t.m) <= 0 }

  ghost predicate AtMost(p: Poly, m: Monomial) { forall t :: t in p ==> Compare(t.m, m) <= 0 }

  lemma {:induction false} SomeLead(p: Poly) returns (t: Term)
    requires p != []
    ensures IsLead(p, t)
  {
    t := p[0];
    CompareIsTotal(t.m, t.m, t.m);
    if |p| > 1 {
      var u := SomeLead(p[1..]);
      CompareIsTotal(t.m, u.m, t.m);
      if Compare(u.m, t.m) > 0 { t := u; }
      forall v | v in p ensures Compare(v.m, t.m) <= 0 {
        assert v == p[0] || v in p[1..];
        CompareIsTotal(v.m, u.m, t.m);
      }
    }
  }

  lemma OneLead(p: Poly, t: Term, u: Term)
    requires Valid(p) && IsLead(p, t) && IsLead(p, u)
    ensures t == u
  {
    CompareIsTotal(t.m, u.m, t.m);
    CoefTerm(p, t);
    CoefTerm(p, u);
  }

  /** A row of the product adds to the greatest monomial only from the greatest factors. */
  lemma {:induction false} CoefRow(out: Poly, u: Term, b: Poly, x: Monomial, y: Monomial)
    requires Valid(out) && Trimmed(u.m) && Trimmed(x) && Trimmed(y) && Compare(u.m, x) <= 0
    requires AtMost(b, y) && (forall t :: t in b ==> Trimmed(t.m)) && AtMost(out, MulMonomials(x, y))
    ensures var m, row := MulMonomials(x, y), PutRow(out, u, b);
            && Valid(row) && AtMost(row, m)
            && CoefAt(row, m) == CoefAt(out, m) + (if u.m == x then Times(u.c, CoefAt(b, y)) else 0.0)
    decreases |b|
  {
    if b == [] {
      TimesUnit(u.c);
    } else {
      var t, m := b[0], MulMonomials(x, y);
      assert t in b;
      TimesBelow(u.m, x, t.m, y);
      var k, c := MulMonomials(u.m, t.m), Times(u.c, t.c);
      hide Valid, Compare, MulMonomials, Times, Put;
      PutValid(out, k, c);
      CoefPut(out, k, c, m);
      CoefRow(Put(out, k, c), u, b[1..], x, y);
      TimesAdd(t.c, CoefAt(b[1..], y), u.c);
      TimesUnit(u.c);
    }
  }

  lemma {:induction false} CoefRows(out: Poly, a: Poly, b: Poly, x: Monomial, y: Monomial)
    requires Valid(out) && Trimmed(x) && Trimmed(y) && AtMost(a, x) && AtMost(b, y) && AtMost(out, MulMonomials(x, y))
    requires (forall t :: t in a ==> Trimmed(t.m)) && (forall t :: t in b ==> Trimmed(t.m))
    ensures var m, rows := MulMonomials(x, y), PutRows(out, a, b);
            && Valid(rows) && AtMost(rows, m)
            && CoefAt(rows, m) == CoefAt(out, m) + Times(CoefAt(a, x), CoefAt(b, y))
    decreases |a|
  {
    hide Valid, Compare, MulMonomials, Times;
    TimesUnit(CoefAt(b, y));
    if a != [] {
      assert a[0] in a;
      CoefRow(out, a[0], b, x, y);
      CoefRows(PutRow(out, a[0], b), a[1..], b, x, y);
      TimesAdd(a[0].c, CoefAt(a[1..], x), CoefAt(b, y));
    }
  }

  /** The leading term of a product is the product of the leading terms. */
  lemma LeadProduct(q: Poly, a: Poly, b: Poly, x: Term, y: Term)
    requires Valid(q) && Valid(a) && Valid(b) && IsProduct(q, a, b) && IsLead(a, x) && IsLead(b, y)
    ensures IsLead(q, Term(MulMonomials(x.m, y.m), Times(x.c, y.c)))
  {
    var r, m := Product(a, b), MulMonomials(x.m, y.m);
    forall at: Point ensures Eval(q, at) == Eval(r, at) { ProductEval(a, b, at); }
    CoefRows([], a, b, x.m, y.m);
    CoefTerm(a, x);
    CoefTerm(b, y);
    NonzeroProduct(x.c, y.c);
    TermOfCoef(r, m);
    SameTerms(q, r);
  }
}
