/** One quadratic Hensel step (`henselStep`, packages/cas/src/factor.ts). */
module Lifting {
  import opened Arith
  import opened DensePoly
  import opened Hensel
  import opened Bezout

  // ---- one Hensel step ----

  lemma EvalCombineTimes(s: seq<int>, a: seq<int>, t: seq<int>, b: seq<int>, x: int)
    ensures Eval(Combine(s, a, t, b), x) == Times(Eval(s, x), Eval(a, x)) + Times(Eval(t, x), Eval(b, x))
  {
    EvalCombine(s, a, t, b, x);
  }

  lemma ProductExpanded(f: int, g: int, h: int, s: int, t: int, e: int, q: int, r: int)
    ensures f - (g + (t * e + q * g)) * (h + r)
         == (f - g * h - e) + g * (s * e - (q * h + r)) + e * (1 - (s * g + t * h)) - ((t * e) * r + (q * g) * r)
  {}

  lemma ProductIdentity(f: int, g: int, h: int, s: int, t: int, e: int, q: int, r: int,
                        te: int, qg: int, g': int, h': int, d1: int, d2: int, d3: int)
    requires te == Times(t, e) && qg == Times(q, g) && g' == g + (te + qg) && h' == h + r
    requires d1 == f - Times(g, h) - e && d2 == Times(s, e) - (Times(q, h) + r)
    requires d3 == 1 - (Times(s, g) + Times(t, h))
    ensures f - Times(g', h') == (d1 + Times(g, d2)) + (Times(e, d3) - (Times(te, r) + Times(qg, r)))
  {
    ProductExpanded(f, g, h, s, t, e, q, r);
  }

  lemma ProductErrorAt(f: seq<int>, g: seq<int>, h: seq<int>, s: seq<int>, t: seq<int>, e: seq<int>, q: seq<int>, r: seq<int>,
                       te: seq<int>, qg: seq<int>, d1: seq<int>, d2: seq<int>, d3: seq<int>, x: int)
    requires te == Mul(t, e) && qg == Mul(q, g)
    requires d1 == Sub(Sub(f, Mul(g, h)), e) && d2 == Sub(Mul(s, e), Add(Mul(q, h), r)) && d3 == Sub([1], Combine(s, g, t, h))
    ensures Eval(Sub(f, Mul(Add(g, Add(te, qg)), Add(h, r))), x)
         == Eval(Add(Add(d1, Mul(g, d2)), Sub(Mul(e, d3), Add(Mul(te, r), Mul(qg, r)))), x)
  {
    hide *;
    EvalOne(x);
    var g', h' := Add(g, Add(te, qg)), Add(h, r);
    var left, right := Add(d1, Mul(g, d2)), Sub(Mul(e, d3), Add(Mul(te, r), Mul(qg, r)));
    EvalSub(f, Mul(g', h'), x);  EvalTimes(g', h', x);
    EvalAdd(g, Add(te, qg), x);  EvalAdd(te, qg, x);  EvalTimes(t, e, x);  EvalTimes(q, g, x);  EvalAdd(h, r, x);
    EvalAdd(left, right, x);
    EvalAdd(d1, Mul(g, d2), x);  EvalTimes(g, d2, x);
    EvalSub(Sub(f, Mul(g, h)), e, x);  EvalSub(f, Mul(g, h), x);  EvalTimes(g, h, x);
    EvalSub(Mul(s, e), Add(Mul(q, h), r), x);  EvalTimes(s, e, x);  EvalAdd(Mul(q, h), r, x);  EvalTimes(q, h, x);
    EvalSub(Mul(e, d3), Add(Mul(te, r), Mul(qg, r)), x);  EvalTimes(e, d3, x);
    EvalSub([1], Combine(s, g, t, h), x);  EvalCombineTimes(s, g, t, h, x);
    EvalAdd(Mul(te, r), Mul(qg, r), x);  EvalTimes(te, r, x);  EvalTimes(qg, r, x);
    ProductIdentity(Eval(f, x), Eval(g, x), Eval(h, x), Eval(s, x), Eval(t, x), Eval(e, x), Eval(q, x), Eval(r, x),
                    Eval(te, x), Eval(qg, x), Eval(g', x), Eval(h', x), Eval(d1, x), Eval(d2, x), Eval(d3, x));
  }

  /** f − g'·h' splits into five terms, each a multiple of m². */
  lemma ProductError(f: seq<int>, g: seq<int>, h: seq<int>, s: seq<int>, t: seq<int>, e: seq<int>, q: seq<int>, r: seq<int>)
    ensures var te, qg := Mul(t, e), Mul(q, g);
            var d1, d2 := Sub(Sub(f, Mul(g, h)), e), Sub(Mul(s, e), Add(Mul(q, h), r));
            var d3 := Sub([1], Combine(s, g, t, h));
            Same(Sub(f, Mul(Add(g, Add(te, qg)), Add(h, r))),
                 Add(Add(d1, Mul(g, d2)), Sub(Mul(e, d3), Add(Mul(te, r), Mul(qg, r)))))
  {
    var te, qg := Mul(t, e), Mul(q, g);
    var d1, d2 := Sub(Sub(f, Mul(g, h)), e), Sub(Mul(s, e), Add(Mul(q, h), r));
    var d3 := Sub([1], Combine(s, g, t, h));
    var g', h' := Add(g, Add(te, qg)), Add(h, r);
    var left, right := Add(d1, Mul(g, d2)), Sub(Mul(e, d3), Add(Mul(te, r), Mul(qg, r)));
    forall x: int ensures Eval(Sub(f, Mul(g', h')), x) == Eval(Add(left, right), x) {
      hide *;
      ProductErrorAt(f, g, h, s, t, e, q, r, te, qg, d1, d2, d3, x);
    }
  }

  /** The factor congruence modulo m², before the results are reduced. */
  lemma ProductLifted(f: seq<int>, g: seq<int>, h: seq<int>, s: seq<int>, t: seq<int>, e: seq<int>, q: seq<int>, r: seq<int>, m: int)
    requires m > 0 && m * m > 0
    requires Cong(e, Sub(f, Mul(g, h)), m * m)
    requires Cong(Mul(s, e), Add(Mul(q, h), r), m * m)
    requires Multiple(e, m) && Multiple(q, m) && Multiple(r, m)
    requires Cong(Combine(s, g, t, h), [1], m)
    ensures Cong(f, Mul(Add(g, Add(Mul(t, e), Mul(q, g))), Add(h, r)), m * m)
  {
    hide *;
    var te, qg := Mul(t, e), Mul(q, g);
    var d1, d2 := Sub(Sub(f, Mul(g, h)), e), Sub(Mul(s, e), Add(Mul(q, h), r));
    var d3 := Sub([1], Combine(s, g, t, h));
    CongSym(e, Sub(f, Mul(g, h)), m * m);
    CongDifference(Sub(f, Mul(g, h)), e, m * m);
    CongDifference(Mul(s, e), Add(Mul(q, h), r), m * m);
    CongSym(Combine(s, g, t, h), [1], m);
    CongDifference([1], Combine(s, g, t, h), m);
    MultipleMulAny(d2, g, m * m);
    MultipleAdd(d1, Mul(g, d2), m * m);
    MultipleMul(e, d3, m, m);
    MultipleMulAny(e, t, m);
    MultipleMulAny(q, g, m);
    MultipleMul(te, r, m, m);
    MultipleMul(qg, r, m, m);
    MultipleAdd(Mul(te, r), Mul(qg, r), m * m);
    MultipleAdd(Mul(e, d3), Add(Mul(te, r), Mul(qg, r)), m * m);
    var left, right := Add(d1, Mul(g, d2)), Sub(Mul(e, d3), Add(Mul(te, r), Mul(qg, r)));
    MultipleAdd(left, right, m * m);
    var error := Sub(f, Mul(Add(g, Add(te, qg)), Add(h, r)));
    ProductError(f, g, h, s, t, e, q, r);
    SameSym(error, Add(left, right));
    MultipleSame(Add(left, right), error, m * m);
    CongDifference(f, Mul(Add(g, Add(te, qg)), Add(h, r)), m * m);
  }

  lemma SameSym(f: seq<int>, g: seq<int>)
    requires Same(f, g)
    ensures Same(g, f)
  {}

  lemma BezoutExpanded(g: int, h: int, s: int, t: int, b: int, c: int, d: int)
    ensures (s - d) * g + (t - (t * b + c * g)) * h - 1
         == ((s * g + t * h - 1) - b) + g * (s * b - (c * h + d)) - b * ((s * g + t * h) - 1)
  {}

  lemma BezoutIdentity(g: int, h: int, s: int, t: int, b: int, c: int, d: int,
                       s': int, t': int, k: int, d1: int, d2: int, d3: int)
    requires s' == s - d && t' == t - (Times(t, b) + Times(c, g)) && k == Times(s, g) + Times(t, h)
    requires d1 == (k - 1) - b && d2 == Times(s, b) - (Times(c, h) + d) && d3 == k - 1
    ensures (Times(s', g) + Times(t', h)) - 1 == (d1 + Times(g, d2)) - Times(b, d3)
  {
    BezoutExpanded(g, h, s, t, b, c, d);
  }

  lemma BezoutErrorAt(g: seq<int>, h: seq<int>, s: seq<int>, t: seq<int>, b: seq<int>, c: seq<int>, d: seq<int>,
                      k: seq<int>, d1: seq<int>, d2: seq<int>, d3: seq<int>, x: int)
    requires k == Combine(s, g, t, h)
    requires d1 == Sub(Sub(k, [1]), b) && d2 == Sub(Mul(s, b), Add(Mul(c, h), d)) && d3 == Sub(k, [1])
    ensures Eval(Sub(Combine(Sub(s, d), g, Sub(t, Add(Mul(t, b), Mul(c, g))), h), [1]), x)
         == Eval(Sub(Add(d1, Mul(g, d2)), Mul(b, d3)), x)
  {
    hide *;
    EvalOne(x);
    var s', t' := Sub(s, d), Sub(t, Add(Mul(t, b), Mul(c, g)));
    EvalSub(Combine(s', g, t', h), [1], x);  EvalCombineTimes(s', g, t', h, x);
    EvalSub(s, d, x);
    EvalSub(t, Add(Mul(t, b), Mul(c, g)), x);  EvalAdd(Mul(t, b), Mul(c, g), x);  EvalTimes(t, b, x);  EvalTimes(c, g, x);
    EvalSub(Add(d1, Mul(g, d2)), Mul(b, d3), x);
    EvalAdd(d1, Mul(g, d2), x);  EvalTimes(g, d2, x);  EvalTimes(b, d3, x);
    EvalSub(d3, b, x);  EvalSub(k, [1], x);  EvalCombineTimes(s, g, t, h, x);
    EvalSub(Mul(s, b), Add(Mul(c, h), d), x);  EvalTimes(s, b, x);  EvalAdd(Mul(c, h), d, x);  EvalTimes(c, h, x);
    BezoutIdentity(Eval(g, x), Eval(h, x), Eval(s, x), Eval(t, x), Eval(b, x), Eval(c, x), Eval(d, x),
                   Eval(s', x), Eval(t', x), Eval(k, x), Eval(d1, x), Eval(d2, x), Eval(d3, x));
  }

  lemma BezoutError(g: seq<int>, h: seq<int>, s: seq<int>, t: seq<int>, b: seq<int>, c: seq<int>, d: seq<int>)
    ensures var k := Combine(s, g, t, h);
            var d1, d2 := Sub(Sub(k, [1]), b), Sub(Mul(s, b), Add(Mul(c, h), d));
            var d3 := Sub(k, [1]);
            Same(Sub(Combine(Sub(s, d), g, Sub(t, Add(Mul(t, b), Mul(c, g))), h), [1]),
                 Sub(Add(d1, Mul(g, d2)), Mul(b, d3)))
  {
    var k := Combine(s, g, t, h);
    var d1, d2 := Sub(Sub(k, [1]), b), Sub(Mul(s, b), Add(Mul(c, h), d));
    var d3 := Sub(k, [1]);
    var s', t' := Sub(s, d), Sub(t, Add(Mul(t, b), Mul(c, g)));
    forall x: int ensures Eval(Sub(Combine(s', g, t', h), [1]), x) == Eval(Sub(Add(d1, Mul(g, d2)), Mul(b, d3)), x) {
      hide *;
      BezoutErrorAt(g, h, s, t, b, c, d, k, d1, d2, d3, x);
    }
  }

  /** The Bezout congruence modulo m², before the results are reduced. */
  lemma BezoutLifted(g: seq<int>, h: seq<int>, s: seq<int>, t: seq<int>, b: seq<int>, c: seq<int>, d: seq<int>, m: int)
    requires m > 0 && m * m > 0
    requires Cong(b, Sub(Combine(s, g, t, h), [1]), m * m)
    requires Cong(Mul(s, b), Add(Mul(c, h), d), m * m)
    requires Cong(Combine(s, g, t, h), [1], m) && Multiple(b, m)
    ensures Cong(Combine(Sub(s, d), g, Sub(t, Add(Mul(t, b), Mul(c, g))), h), [1], m * m)
  {
    hide *;
    var k := Combine(s, g, t, h);
    var d1, d2 := Sub(Sub(k, [1]), b), Sub(Mul(s, b), Add(Mul(c, h), d));
    var d3 := Sub(k, [1]);
    CongSym(b, Sub(k, [1]), m * m);
    CongDifference(Sub(k, [1]), b, m * m);
    CongDifference(Mul(s, b), Add(Mul(c, h), d), m * m);
    CongDifference(k, [1], m);
    MultipleMulAny(d2, g, m * m);
    MultipleAdd(d1, Mul(g, d2), m * m);
    MultipleMul(b, d3, m, m);
    MultipleAdd(Add(d1, Mul(g, d2)), Mul(b, d3), m * m);
    var sum := Combine(Sub(s, d), g, Sub(t, Add(Mul(t, b), Mul(c, g))), h);
    BezoutError(g, h, s, t, b, c, d);
    SameSym(Sub(sum, [1]), Sub(Add(d1, Mul(g, d2)), Mul(b, d3)));
    MultipleSame(Sub(Add(d1, Mul(g, d2)), Mul(b, d3)), Sub(sum, [1]), m * m);
    CongDifference(sum, [1], m * m);
  }

  lemma CongMultiple(f: seq<int>, g: seq<int>, m: int, d: int)
    requires m > 0 && d > 0 && m % d == 0 && Cong(f, g, m) && Multiple(g, d)
    ensures Multiple(f, d)
  {
    forall i: int ensures Coef(f, i) % d == 0 {
      assert (Coef(f, i) - Coef(g, i)) % m == 0 && Coef(g, i) % d == 0;
      ModTrans(Coef(f, i) - Coef(g, i), m, d);
      ModSum(Coef(f, i) - Coef(g, i), Coef(g, i), d);
    }
  }

  lemma SquareModulus(m: int)
    requires m > 0
    ensures m * m > 0 && (m * m) % m == 0 && (m > 1 ==> m * m > 1)
  {
    MultipleMod(m, m);
  }

  /** The error and the two division results of the step are multiples of m. */
  lemma StepMultiples(f: seq<int>, g: seq<int>, h: seq<int>, s: seq<int>, e: seq<int>, q: seq<int>, r: seq<int>, m: int)
    requires m > 0 && m * m > 0 && Monic(h) && |r| < |h|
    requires Cong(f, Mul(g, h), m) && Cong(e, Sub(f, Mul(g, h)), m * m)
    requires Cong(Mul(s, e), Add(Mul(q, h), r), m * m)
    ensures Multiple(e, m) && Multiple(q, m) && Multiple(r, m)
  {
    hide Multiple, Cong, Mul, Add, Sub;
    SquareModulus(m);
    CongDifference(f, Mul(g, h), m);
    CongMultiple(e, Sub(f, Mul(g, h)), m * m, m);
    MultipleMulAny(e, s, m);
    CongSym(Mul(s, e), Add(Mul(q, h), r), m * m);
    CongMultiple(Add(Mul(q, h), r), Mul(s, e), m * m, m);
    MonicDivision(q, h, r, m);
  }

  /** Adding a remainder of lower degree keeps a monic polynomial monic of the same degree. */
  lemma MonicPlus(h: seq<int>, r: seq<int>, m: int)
    requires m > 1 && Monic(h) && |r| < |h|
    ensures Monic(Mod(Add(h, r), m)) && |Mod(Add(h, r), m)| == |h|
  {
    var sum := RawAdd(h, r);
    assert Add(h, r) == sum;
    assert 1 % m == 1;
    assert RawMod(sum, m)[|h| - 1] == 1;
  }

  lemma ModAgain(f: seq<int>, g: seq<int>, m: int, d: int)
    requires m > 0 && d > 0 && m % d == 0 && Cong(f, g, m)
    ensures Cong(Mod(f, m), g, m) && Cong(Mod(f, m), g, d)
  {
    hide Cong, Mod;
    ModCong(f, m);
    CongTrans(Mod(f, m), f, g, m);
    CongWeaken(Mod(f, m), g, m, d);
  }

  /** Adding a multiple of d does not change a polynomial modulo d. */
  lemma CongPlusMultiple(g: seq<int>, k: seq<int>, d: int)
    requires d > 0 && Multiple(k, d)
    ensures Cong(Add(g, k), g, d)
  {
    forall i: int ensures (Coef(Add(g, k), i) - Coef(g, i)) % d == 0 {
      assert Coef(Add(g, k), i) == Coef(RawAdd(g, k), i) == Coef(g, i) + Coef(k, i);
      assert Coef(k, i) % d == 0;
    }
  }

  /** `henselStep`: from f ≡ g·h and s·g + t·h ≡ 1 modulo m with h monic, to the same modulo m²;
      h keeps its degree, and g and h do not change modulo m. */
  method HenselStep(f: seq<int>, g: seq<int>, h: seq<int>, s: seq<int>, t: seq<int>, m: int)
    returns (g2: seq<int>, h2: seq<int>, s2: seq<int>, t2: seq<int>)
    requires m > 1 && Monic(h)
    requires Cong(f, Mul(g, h), m) && BezoutFor(g, h, s, t, m)
    ensures m * m > 0
    ensures Cong(f, Mul(g2, h2), m * m) && BezoutFor(g2, h2, s2, t2, m * m)
    ensures Monic(h2) && |h2| == |h|
    ensures Cong(g2, g, m) && Cong(h2, h, m)
    ensures Residues(g2, m * m) && Residues(h2, m * m) && Residues(s2, m * m) && Residues(t2, m * m)
  {
    hide Cong, Multiple, Mul, Add, Sub, BezoutFor, Same, Trimmed, Reduced;
    SquareModulus(m);
    var m2 := m * m;
    var gh := ZMul(g, h);
    var e := Mod(Sub(f, gh), m2);
    var se := ZMul(s, e);
    var q, r := ZDivmodMonic(se, h, m2);
    var te := ZMul(t, e);
    var qg := ZMul(q, g);
    g2 := Mod(Add(g, Add(te, qg)), m2);
    h2 := Mod(Add(h, r), m2);
    assert Cong(f, Mul(g2, h2), m2) && Cong(g2, g, m) && Cong(h2, h, m) by {
      FactorsLifted(f, g, h, s, t, e, q, r, m);
    }
    MonicPlus(h, r, m2);
    var sg := ZMul(s, g2);
    var th := ZMul(t, h2);
    var b := Mod(Sub(Add(sg, th), [1]), m2);
    var sb := ZMul(s, b);
    var c, d := ZDivmodMonic(sb, h2, m2);
    s2 := Mod(Sub(s, d), m2);
    var tb := ZMul(t, b);
    var cg := ZMul(c, g2);
    t2 := Mod(Sub(t, Add(tb, cg)), m2);
    CofactorsLifted(g, h, g2, h2, s, t, b, c, d, m);
  }

  lemma FactorsLifted(f: seq<int>, g: seq<int>, h: seq<int>, s: seq<int>, t: seq<int>, e: seq<int>, q: seq<int>, r: seq<int>, m: int)
    requires m > 1 && m * m > 1 && (m * m) % m == 0 && Monic(h) && |r| < |h|
    requires Cong(f, Mul(g, h), m) && BezoutFor(g, h, s, t, m)
    requires e == Mod(Sub(f, Mul(g, h)), m * m)
    requires Cong(Mul(s, e), Add(Mul(q, h), r), m * m)
    ensures var g2, h2 := Mod(Add(g, Add(Mul(t, e), Mul(q, g))), m * m), Mod(Add(h, r), m * m);
            Cong(f, Mul(g2, h2), m * m) && Cong(g2, g, m) && Cong(h2, h, m)
  {
    hide Cong, Multiple, Mul, Add, Sub, Combine, BezoutFor, Mod;
    var m2 := m * m;
    var te, qg := Mul(t, e), Mul(q, g);
    var g', h' := Add(g, Add(te, qg)), Add(h, r);
    var g2, h2 := Mod(g', m2), Mod(h', m2);
    ModCong(Sub(f, Mul(g, h)), m2);
    StepMultiples(f, g, h, s, e, q, r, m);
    CombineIsBezout(g, h, s, t, m);
    ProductLifted(f, g, h, s, t, e, q, r, m);
    ModCong(g', m2);
    ModCong(h', m2);
    CongSym(g2, g', m2);
    CongSym(h2, h', m2);
    CongMul(g', h', g2, h2, m2);
    CongTrans(f, Mul(g', h'), Mul(g2, h2), m2);
    MultipleMulAny(e, t, m);
    MultipleMulAny(q, g, m);
    MultipleAdd(te, qg, m);
    CongPlusMultiple(g, Add(te, qg), m);
    CongPlusMultiple(h, r, m);
    CongSym(g', g2, m2);
    CongSym(h', h2, m2);
    CongWeaken(g2, g', m2, m);
    CongWeaken(h2, h', m2, m);
    CongTrans(g2, g', g, m);
    CongTrans(h2, h', h, m);
  }

  lemma CofactorsLifted(g: seq<int>, h: seq<int>, g2: seq<int>, h2: seq<int>, s: seq<int>, t: seq<int>,
                        b: seq<int>, c: seq<int>, d: seq<int>, m: int)
    requires m > 1 && m * m > 1 && (m * m) % m == 0
    requires BezoutFor(g, h, s, t, m) && Cong(g2, g, m) && Cong(h2, h, m)
    requires b == Mod(Sub(Combine(s, g2, t, h2), [1]), m * m)
    requires Cong(Mul(s, b), Add(Mul(c, h2), d), m * m)
    ensures BezoutFor(g2, h2, Mod(Sub(s, d), m * m), Mod(Sub(t, Add(Mul(t, b), Mul(c, g2))), m * m), m * m)
  {
    hide Cong, Multiple, Mul, Add, Sub, Combine, BezoutFor, Mod;
    var m2 := m * m;
    var k := Combine(s, g2, t, h2);
    CombineIsBezout(g, h, s, t, m);
    CongRefl(s, m);
    CongRefl(t, m);
    CongCombine(s, g2, t, h2, s, g, t, h, m);
    CongTrans(k, Combine(s, g, t, h), [1], m);
    ModCong(Sub(k, [1]), m2);
    CongDifference(k, [1], m);
    CongMultiple(b, Sub(k, [1]), m2, m);
    BezoutLifted(g2, h2, s, t, b, c, d, m);
    var s', t' := Sub(s, d), Sub(t, Add(Mul(t, b), Mul(c, g2)));
    ModCong(s', m2);
    ModCong(t', m2);
    CongRefl(g2, m2);
    CongRefl(h2, m2);
    CongCombine(Mod(s', m2), g2, Mod(t', m2), h2, s', g2, t', h2, m2);
    CongTrans(Combine(Mod(s', m2), g2, Mod(t', m2), h2), Combine(s', g2, t', h2), [1], m2);
    CombineIsBezout(g2, h2, Mod(s', m2), Mod(t', m2), m2);
  }
}
