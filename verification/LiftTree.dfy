/** `lift`: factors modulo p lifted through a balanced tree to factors modulo p^(2^steps)
    (packages/cas/src/factor.ts). */
module LiftTree {
  import opened Arith
  import opened DensePoly
  import opened Hensel
  import opened Bezout
  import opened Lifting

  // ---- coprimality modulo p ----

  lemma CoprimeSym(a: seq<int>, b: seq<int>, p: int)
    requires p > 0 && CoprimePoly(a, b, p)
    ensures CoprimePoly(b, a, p)
  {
    var s, t :| BezoutFor(a, b, s, t, p);
    forall x: int ensures Eval(Combine(t, b, s, a), x) == Eval(Combine(s, a, t, b), x) {
      EvalAdd(Mul(t, b), Mul(s, a), x);
      EvalAdd(Mul(s, a), Mul(t, b), x);
    }
    CongSame(Combine(t, b, s, a), Combine(s, a, t, b), p);
    CongTrans(Combine(t, b, s, a), Combine(s, a, t, b), [1], p);
    assert BezoutFor(b, a, t, s, p);
  }

  lemma CoprimeOne(c: seq<int>, p: int)
    requires p > 0
    ensures CoprimePoly([1], c, p)
  {
    forall x: int ensures Eval(Combine([1], [1], [], c), x) == Eval([1], x) {
      EvalCombine([1], [1], [], c, x);
      EvalOne(x);
    }
    CongSame(Combine([1], [1], [], c), [1], p);
    assert BezoutFor([1], c, [1], [], p);
  }

  lemma CoprimeCong(a: seq<int>, a': seq<int>, b: seq<int>, b': seq<int>, p: int)
    requires p > 0 && CoprimePoly(a, b, p) && Cong(a, a', p) && Cong(b, b', p)
    ensures CoprimePoly(a', b', p)
  {
    var s, t :| BezoutFor(a, b, s, t, p);
    hide Cong, BezoutFor, Combine;
    CombineIsBezout(a, b, s, t, p);
    CongRefl(s, p);
    CongRefl(t, p);
    CongSym(a, a', p);
    CongSym(b, b', p);
    CongCombine(s, a', t, b', s, a, t, b, p);
    CongTrans(Combine(s, a', t, b'), Combine(s, a, t, b), [1], p);
    CombineIsBezout(a', b', s, t, p);
  }

  lemma TwoBezoutExpanded(a: int, b: int, c: int, s: int, t: int, v: int, w: int)
    ensures (s * a + t * c) * (v * b + w * c) == (s * v) * (a * b) + ((s * a) * w + t * (v * b + w * c)) * c
  {}

  lemma TwoBezout(a: int, b: int, c: int, s: int, t: int, v: int, w: int, k: int, l: int, u: int)
    requires k == Times(s, a) + Times(t, c) && l == Times(v, b) + Times(w, c)
    requires u == Times(Times(s, a), w) + Times(t, l)
    ensures Times(k, l) == Times(Times(s, v), Times(a, b)) + Times(u, c)
  {
    TwoBezoutExpanded(a, b, c, s, t, v, w);
  }

  lemma CoprimeMulAt(a: seq<int>, b: seq<int>, c: seq<int>, s: seq<int>, t: seq<int>, v: seq<int>, w: seq<int>,
                     k: seq<int>, l: seq<int>, u: seq<int>, x: int)
    requires k == Combine(s, a, t, c) && l == Combine(v, b, w, c) && u == Combine(Mul(s, a), w, t, l)
    ensures Eval(Mul(k, l), x) == Eval(Combine(Mul(s, v), Mul(a, b), u, c), x)
  {
    hide *;
    EvalTimes(k, l, x);
    EvalCombineTimes(s, a, t, c, x);
    EvalCombineTimes(v, b, w, c, x);
    EvalCombineTimes(Mul(s, a), w, t, l, x);
    EvalTimes(s, a, x);
    EvalTimes(s, v, x);
    EvalTimes(a, b, x);
    EvalCombineTimes(Mul(s, v), Mul(a, b), u, c, x);
    TwoBezout(Eval(a, x), Eval(b, x), Eval(c, x), Eval(s, x), Eval(t, x), Eval(v, x), Eval(w, x),
              Eval(k, x), Eval(l, x), Eval(u, x));
  }

  /** A product of polynomials coprime to c is coprime to c. */
  lemma CoprimeMul(a: seq<int>, b: seq<int>, c: seq<int>, p: int)
    requires p > 0 && CoprimePoly(a, c, p) && CoprimePoly(b, c, p)
    ensures CoprimePoly(Mul(a, b), c, p)
  {
    var s, t :| BezoutFor(a, c, s, t, p);
    var v, w :| BezoutFor(b, c, v, w, p);
    var k, l := Combine(s, a, t, c), Combine(v, b, w, c);
    var u := Combine(Mul(s, a), w, t, l);
    var sum := Combine(Mul(s, v), Mul(a, b), u, c);
    assert Same(sum, Mul(k, l)) by {
      forall x: int ensures Eval(sum, x) == Eval(Mul(k, l), x) {
        hide *;
        CoprimeMulAt(a, b, c, s, t, v, w, k, l, u, x);
      }
    }
    hide Cong, Same, Combine, BezoutFor, Mul;
    CombineIsBezout(a, c, s, t, p);
    CombineIsBezout(b, c, v, w, p);
    CongMul(k, l, [1], [1], p);
    MulOne([1]);
    CongSame(sum, Mul(k, l), p);
    CongTrans(sum, Mul(k, l), [1], p);
    CombineIsBezout(Mul(a, b), c, Mul(s, v), u, p);
  }

  lemma {:induction false} CoprimeProduct(us: seq<seq<int>>, c: seq<int>, p: int)
    requires p > 0 && forall i :: 0 <= i < |us| ==> CoprimePoly(us[i], c, p)
    ensures CoprimePoly(Product(us), c, p)
  {
    hide CoprimePoly;
    if us == [] {
      CoprimeOne(c, p);
    } else {
      CoprimeProduct(us[1..], c, p);
      CoprimeMul(us[0], Product(us[1..]), c, p);
    }
  }

  ghost predicate PairwiseCoprime(us: seq<seq<int>>, p: int)
    requires p > 0
  {
    forall i, j :: 0 <= i < j < |us| ==> CoprimePoly(us[i], us[j], p)
  }

  /** Pairwise coprime factors split into two coprime products. */
  lemma CoprimeHalves(us: seq<seq<int>>, half: nat, p: int)
    requires p > 0 && half <= |us| && PairwiseCoprime(us, p)
    ensures CoprimePoly(Product(us[..half]), Product(us[half..]), p)
    ensures PairwiseCoprime(us[..half], p) && PairwiseCoprime(us[half..], p)
  {
    hide CoprimePoly;
    forall i | 0 <= i < half
      ensures CoprimePoly(Product(us[half..]), us[i], p)
    {
      forall j | 0 <= j < |us[half..]| ensures CoprimePoly(us[half..][j], us[i], p) {
        CoprimeSym(us[i], us[half + j], p);
      }
      CoprimeProduct(us[half..], us[i], p);
    }
    forall i | 0 <= i < |us[..half]|
      ensures CoprimePoly(us[..half][i], Product(us[half..]), p)
    {
      CoprimeSym(Product(us[half..]), us[i], p);
    }
    CoprimeProduct(us[..half], Product(us[half..]), p);
  }

  lemma CoprimeUnit(c: int, b: seq<int>, p: int)
    requires p > 1 && Coprime(c, p)
    ensures CoprimePoly([c], b, p)
  {
    var u, v :| Combination(c, p, u, v) == 1;
    var sum := Combine([u], [c], [], b);
    assert Same(sum, [u * c]) by {
      forall x: int ensures Eval(sum, x) == Eval([u * c], x) { UnitEval(u, c, b, x); }
    }
    hide Cong, Same, Mul, Combine, BezoutFor;
    MultipleIs(1 - u * c, p, v);
    ConstantCong(u * c, 1, p);
    CongSame(sum, [u * c], p);
    CongTrans(sum, [u * c], [1], p);
    CombineIsBezout([c], b, [u], [], p);
  }

  lemma UnitEval(u: int, c: int, b: seq<int>, x: int)
    ensures Eval(Combine([u], [c], [], b), x) == Eval([u * c], x)
  {
    EvalConstant(u, x);
    EvalConstant(c, x);
    EvalConstant(u * c, x);
    assert Eval([], x) == 0;
    hide *;
    EvalCombine([u], [c], [], b, x);
  }

  // ---- products of monic factors ----

  lemma MonicMul(a: seq<int>, b: seq<int>)
    requires Monic(a) && Monic(b)
    ensures Monic(Mul(a, b)) && |Mul(a, b)| == |a| + |b| - 1
  {
    MulLead(a, b);
  }

  lemma {:induction false} MonicProduct(us: seq<seq<int>>)
    requires forall i :: 0 <= i < |us| ==> Monic(us[i])
    ensures Monic(Product(us))
  {
    if us != [] {
      MonicProduct(us[1..]);
      MonicMul(us[0], Product(us[1..]));
    }
  }

  lemma MonicMod(f: seq<int>, m: int)
    requires m > 1 && Monic(f)
    ensures Monic(Mod(f, m)) && |Mod(f, m)| == |f|
  {
    assert 1 % m == 1;
    assert RawMod(f, m)[|f| - 1] == 1;
  }

  lemma ModMulMod(a: seq<int>, u: seq<int>, p: int)
    requires p > 0
    ensures Mod(Mul(Mod(a, p), u), p) == Mod(Mul(a, u), p)
  {
    hide Cong, Mul;
    ModCong(a, p);
    CongRefl(u, p);
    CongMul(Mod(a, p), u, a, u, p);
    ModCong(Mul(Mod(a, p), u), p);
    CongTrans(Mod(Mul(Mod(a, p), u), p), Mul(Mod(a, p), u), Mul(a, u), p);
    ModUnique(Mod(Mul(Mod(a, p), u), p), Mul(a, u), p);
  }

  lemma ProductSnoc(us: seq<seq<int>>, u: seq<int>)
    requires Trimmed(u)
    ensures Product(us + [u]) == Mul(Product(us), u)
  {
    ProductConcat(us, [u]);
    assert Product([u]) == Mul(u, Product([])) by { assert [u][1..] == []; }
    MulOne(u);
  }

  /** `fpProduct`. */
  method FpProduct(us: seq<seq<int>>, p: int) returns (r: seq<int>)
    requires p > 1 && forall i :: 0 <= i < |us| ==> Trimmed(us[i])
    ensures r == Mod(Product(us), p)
  {
    r := [1];
    assert Residues([1], p);
    CongRefl([1], p);
    ModUnique([1], [1], p);
    assert us[..0] == [];
    for k := 0 to |us|
      invariant r == Mod(Product(us[..k]), p)
    {
      hide Mod, Mul;
      assert us[..k + 1] == us[..k] + [us[k]];
      ProductSnoc(us[..k], us[k]);
      ModMulMod(Product(us[..k]), us[k], p);
      r := FpMul(r, us[k], p);
    }
    assert us[..|us|] == us;
  }

  // ---- degrees ----

  /** If f ≡ g·h modulo m with h monic, g reduced and the leading coefficient of f not divisible
      by m, then deg f = deg g + deg h and f and g have congruent leading coefficients. */
  lemma CofactorDegree(f: seq<int>, g: seq<int>, h: seq<int>, m: int)
    requires m > 1 && f != [] && Lead(f) % m != 0 && Monic(h) && Residues(g, m)
    requires Cong(f, Mul(g, h), m)
    ensures g != [] && |f| == |g| + |h| - 1 && (Lead(g) - Lead(f)) % m == 0
  {
    var k := |f| - 1;
    assert (Coef(f, k) - Coef(Mul(g, h), k)) % m == 0;
    if g != [] {
      NonzeroResidue(Lead(g), m);
      var n := |g| + |h| - 2;
      MonicTop(g, h);
      assert (Coef(f, n) - Coef(Mul(g, h), n)) % m == 0;
      DegreeCases(Lead(f), Lead(g), Coef(f, n), Coef(Mul(g, h), k), m, n, k);
    }
  }

  lemma DegreeCases(lf: int, lg: int, fn: int, mk: int, m: int, n: int, k: int)
    requires m > 1 && lf % m != 0 && lg % m != 0 && (lf - mk) % m == 0 && (fn - lg) % m == 0
    requires n > k ==> fn == 0
    requires n < k ==> mk == 0
    requires n == k ==> fn == lf
    ensures n == k && (lg - lf) % m == 0
  {
    ModSum(0, fn - lg, m);
  }

  lemma {:induction false} MonicTop(g: seq<int>, h: seq<int>)
    requires g != [] && Trimmed(g) && Monic(h)
    ensures Coef(Mul(g, h), |g| + |h| - 2) == Lead(g)
    ensures forall i: int :: i > |g| + |h| - 2 ==> Coef(Mul(g, h), i) == 0
  {
    MulLead(g, h);
    var f := Mul(g, h);
    hide Mul;
    assert f[|f| - 1] == Lead(g) * 1;
  }

  // ---- the tree ----

  function Pow2(n: nat): nat { if n == 0 then 1 else 2 * Pow2(n - 1) }

  /** p^(2^steps). */
  function Target(p: int, steps: nat): int { Pow(p, Pow2(steps)) }

  lemma TargetNext(p: int, k: nat)
    ensures Target(p, k) * Target(p, k) == Target(p, k + 1)
  {
    PowAdd(p, Pow2(k), Pow2(k));
  }

  lemma TargetFacts(p: int, k: nat)
    requires p > 1
    ensures Target(p, k) > 1 && Target(p, k) % p == 0
  {
    Pow2Positive(k);
    PowPositive(p, Pow2(k));
    assert Pow(p, Pow2(k)) == p * Pow(p, Pow2(k) - 1);
    MultipleMod(p, Pow(p, Pow2(k) - 1));
  }

  lemma {:induction false} Pow2Positive(k: nat)
    ensures Pow2(k) >= 1
  {
    if k > 0 { Pow2Positive(k - 1); }
  }

  /** f is its leading coefficient times the product of the factors, modulo m. */
  ghost predicate Factors(f: seq<int>, fs: seq<seq<int>>, m: int)
    requires m > 0
  {
    f != [] && Cong(f, Mul([Lead(f)], Product(fs)), m)
  }

  /** What `lift` takes: a polynomial and its monic, pairwise coprime factors modulo p. */
  ghost predicate Liftable(f: seq<int>, us: seq<seq<int>>, p: int) {
    && Prime(p) && f != [] && Lead(f) % p != 0
    && (forall i :: 0 <= i < |us| ==> Monic(us[i]) && Residues(us[i], p))
    && PairwiseCoprime(us, p)
    && Factors(f, us, p)
  }

  /** What `lift` returns: a monic factor modulo m above every factor modulo p. */
  ghost predicate Lifts(fs: seq<seq<int>>, us: seq<seq<int>>, p: int, m: int)
    requires p > 0
  {
    && |fs| == |us|
    && forall i :: 0 <= i < |us| ==>
         Monic(fs[i]) && Residues(fs[i], m) && |fs[i]| == |us[i]| && Cong(fs[i], us[i], p)
  }

  /** `lift`. */
  method Lift(f: seq<int>, us: seq<seq<int>>, p: int, steps: nat) returns (fs: seq<seq<int>>)
    requires |us| >= 1 && Liftable(f, us, p)
    ensures Target(p, steps) > 1
    ensures Lifts(fs, us, p, Target(p, steps))
    ensures Factors(f, fs, Target(p, steps))
    decreases |us|
  {
    hide Cong, Mul, Prime, PairwiseCoprime, Factors, BezoutFor, CoprimePoly, Target, Trimmed, Reduced, Coprime;
    hide Lifts, Halves, Mod, Scale, Product, Pow2;
    PrimePositive(p);
    TargetFacts(p, steps);
    var target := Target(p, steps);
    if |us| == 1 {
      var inv := ModInverse(Lead(f), target);
      var only := Mod(Scale(inv, f), target);
      LeafLifted(f, us, inv, p, steps);
      fs := [only];
      return;
    }
    var half := |us| / 2;
    var left, right := us[..half], us[half..];
    var g, h := LiftPair(f, us, half, p, steps);
    HalvesLiftable(f, us, half, g, h, p, target);
    var fl := Lift(g, left, p, steps);
    var fr := Lift(h, right, p, steps);
    HalvesJoined(f, us, half, g, h, fl, fr, p, target);
    fs := fl + fr;
  }

  /** The two halves of the factors, lifted together by `steps` Hensel steps. */
  ghost predicate Halves(f: seq<int>, us: seq<seq<int>>, half: nat, g: seq<int>, h: seq<int>, p: int, m: int)
    requires p > 0 && m > 1 && half <= |us| && f != []
  {
    && Cong(f, Mul(g, h), m) && Monic(h) && Residues(g, m) && Residues(h, m)
    && Cong(g, Mul([Lead(f)], Product(us[..half])), p)
    && Cong(h, Product(us[half..]), p)
  }

  method LiftPair(f: seq<int>, us: seq<seq<int>>, half: nat, p: int, steps: nat) returns (g: seq<int>, h: seq<int>)
    requires Liftable(f, us, p) && half <= |us|
    ensures Target(p, steps) > 1
    ensures Halves(f, us, half, g, h, p, Target(p, steps))
  {
    hide Cong, Mul, Prime, PairwiseCoprime, Factors, BezoutFor, CoprimePoly, Target, Product, Mod;
    PrimePositive(p);
    var lc := Lead(f) % p;
    var pl := FpProduct(us[..half], p);
    var g0 := FpMul([lc], pl, p);
    var h0 := FpProduct(us[half..], p);
    TreeStart(f, us, half, g0, h0, p);
    var st := FpBezout(g0, h0, p);
    g, h := g0, h0;
    var s, t := st.value.0, st.value.1;
    var m := p;
    TargetZero(p);
    for k := 0 to steps
      invariant m == Target(p, k) && m > 1 && m % p == 0
      invariant Halves(f, us, half, g, h, p, m) && BezoutFor(g, h, s, t, m)
    {
      var g2, h2, s2, t2 := HenselStep(f, g, h, s, t, m);
      TreeStep(f, us, half, g, h, g2, h2, p, m);
      TargetNext(p, k);
      TargetFacts(p, k + 1);
      g, h, s, t := g2, h2, s2, t2;
      m := m * m;
    }
  }

  lemma PrimePositive(p: int)
    requires Prime(p)
    ensures p > 1 && p % p == 0
  {
    MultipleMod(p, 1);
  }

  lemma TargetZero(p: int)
    ensures Target(p, 0) == p
  {
    assert Pow(p, 1) == p * Pow(p, 0);
  }

  lemma TreeStart(f: seq<int>, us: seq<seq<int>>, half: nat, g0: seq<int>, h0: seq<int>, p: int)
    requires Liftable(f, us, p) && half <= |us|
    requires g0 == Mod(Mul([Lead(f) % p], Mod(Product(us[..half]), p)), p)
    requires h0 == Mod(Product(us[half..]), p)
    ensures p > 1 && Halves(f, us, half, g0, h0, p, p) && CoprimePoly(g0, h0, p)
  {
    hide Cong, Mul, Prime, BezoutFor, CoprimePoly, Product, Mod;
    PrimePositive(p);
    var pl, pr := Product(us[..half]), Product(us[half..]);
    LeadResidue(Lead(f), p);
    ModCong(pl, p);
    CongMul([Lead(f) % p], Mod(pl, p), [Lead(f)], pl, p);
    ModAgain(Mul([Lead(f) % p], Mod(pl, p)), Mul([Lead(f)], pl), p, p);
    ModCong(pr, p);
    forall i | 0 <= i < |us[half..]| ensures Monic(us[half..][i]) {}
    MonicProduct(us[half..]);
    MonicMod(pr, p);
    TreeProduct(f, us, half, g0, h0, p);
    CoprimeHalves(us, half, p);
    PrimeCoprime(Lead(f), p);
    CoprimeUnit(Lead(f), pr, p);
    CoprimeMul([Lead(f)], pl, pr, p);
    CongSym(g0, Mul([Lead(f)], pl), p);
    CongSym(h0, pr, p);
    CoprimeCong(Mul([Lead(f)], pl), g0, pr, h0, p);
  }

  lemma LeadResidue(c: int, p: int)
    requires p > 0
    ensures Cong([c % p], [c], p)
  {
    forall i: int ensures (Coef([c % p], i) - Coef([c], i)) % p == 0 {
      ResidueEntry(Coef([c % p], i), Coef([c], i), p);
    }
  }

  lemma TreeProduct(f: seq<int>, us: seq<seq<int>>, half: nat, g: seq<int>, h: seq<int>, p: int)
    requires p > 0 && Factors(f, us, p) && half <= |us|
    requires Cong(g, Mul([Lead(f)], Product(us[..half])), p) && Cong(h, Product(us[half..]), p)
    ensures Cong(f, Mul(g, h), p)
  {
    hide Cong, Mul, Product;
    var pl, pr := Product(us[..half]), Product(us[half..]);
    assert us == us[..half] + us[half..];
    ProductConcat(us[..half], us[half..]);
    MulAssociates([Lead(f)], pl, pr);
    CongMul(g, h, Mul([Lead(f)], pl), pr, p);
    CongSym(Mul(g, h), Mul(Mul([Lead(f)], pl), pr), p);
    CongTrans(f, Mul([Lead(f)], Product(us)), Mul(g, h), p);
  }

  lemma TreeStep(f: seq<int>, us: seq<seq<int>>, half: nat, g: seq<int>, h: seq<int>, g2: seq<int>, h2: seq<int>, p: int, m: int)
    requires p > 1 && m > 1 && m % p == 0 && half <= |us| && f != [] && Halves(f, us, half, g, h, p, m)
    requires m * m > 0 && Cong(f, Mul(g2, h2), m * m) && Monic(h2) && Residues(g2, m * m) && Residues(h2, m * m)
    requires Cong(g2, g, m) && Cong(h2, h, m)
    ensures m * m > 1 && Halves(f, us, half, g2, h2, p, m * m)
  {
    hide Cong, Mul, Product, Trimmed, Reduced;
    SquareModulus(m);
    CongWeaken(g2, g, m, p);
    CongWeaken(h2, h, m, p);
    CongTrans(g2, g, Mul([Lead(f)], Product(us[..half])), p);
    CongTrans(h2, h, Product(us[half..]), p);
  }

  lemma LeafScale(f: seq<int>, inv: int, m: int)
    requires m > 1 && f != [] && (inv * Lead(f) - 1) % m == 0
    ensures Monic(Mod(Scale(inv, f), m)) && |Mod(Scale(inv, f), m)| == |f|
    ensures Cong(f, Mul([Lead(f)], Mod(Scale(inv, f), m)), m)
  {
    var raw := RawMod(Scale(inv, f), m);
    ResidueEntry(raw[|f| - 1], inv * Lead(f), m);
    ModSum(raw[|f| - 1] - inv * Lead(f), inv * Lead(f) - 1, m);
    assert (raw[|f| - 1] - inv * Lead(f)) + (inv * Lead(f) - 1) == raw[|f| - 1] - 1;
    ResidueUnique(raw[|f| - 1], 1, m);
    assert Mod(Scale(inv, f), m) == raw;
    LeafCong(f, inv, Lead(f), m);
  }

  lemma LeafCong(f: seq<int>, inv: int, c: int, m: int)
    requires m > 0 && (inv * c - 1) % m == 0
    ensures Cong(f, Mul([c], Mod(Scale(inv, f), m)), m)
  {
    ModCong(Scale(inv, f), m);
    assert Cong(Mul([c], Scale(inv, f)), f, m) by {
      var d := Scale(inv * c - 1, f);
      assert Multiple(d, m) by {
        forall i: int ensures Coef(d, i) % m == 0 {
          if 0 <= i < |f| { ModScale(inv * c - 1, f[i], m); } else { MultipleMod(m, 0); }
        }
      }
      assert Same(d, Sub(Mul([c], Scale(inv, f)), f)) by {
        forall x: int ensures Eval(d, x) == Eval(Sub(Mul([c], Scale(inv, f)), f), x) { LeafEval(f, inv, c, x); }
      }
      hide Multiple, Same, Mul, Scale, Cong;
      MultipleSame(d, Sub(Mul([c], Scale(inv, f)), f), m);
      CongDifference(Mul([c], Scale(inv, f)), f, m);
    }
    hide Cong, Mul, Scale, Mod;
    CongRefl([c], m);
    CongMul([c], Mod(Scale(inv, f), m), [c], Scale(inv, f), m);
    CongTrans(Mul([c], Mod(Scale(inv, f), m)), Mul([c], Scale(inv, f)), f, m);
    CongSym(Mul([c], Mod(Scale(inv, f), m)), f, m);
  }

  lemma LeafEval(f: seq<int>, inv: int, c: int, x: int)
    ensures Eval(Scale(inv * c - 1, f), x) == Eval(Sub(Mul([c], Scale(inv, f)), f), x)
  {
    EvalConstant(c, x);
    hide *;
    EvalScale(inv * c - 1, f, x);
    EvalSub(Mul([c], Scale(inv, f)), f, x);
    EvalMul([c], Scale(inv, f), x);
    EvalScale(inv, f, x);
  }

  lemma EvalConstant(c: int, x: int)
    ensures Eval([c], x) == c
  {}

  /** Congruent monic residues modulo p have the same length. */
  lemma MonicLength(f: seq<int>, g: seq<int>, p: int)
    requires p > 1 && Monic(f) && Monic(g) && Cong(f, g, p)
    ensures |f| == |g|
  {
    assert 1 % p == 1;
    assert (Coef(f, |f| - 1) - Coef(g, |f| - 1)) % p == 0;
    assert (Coef(f, |g| - 1) - Coef(g, |g| - 1)) % p == 0;
    if |f| < |g| { ModSum(0, -1, p); }
  }

  lemma LeafLifted(f: seq<int>, us: seq<seq<int>>, inv: int, p: int, steps: nat)
    requires Liftable(f, us, p) && |us| == 1 && Target(p, steps) > 1
    requires Coprime(Lead(f), Target(p, steps)) ==> (inv * Lead(f) - 1) % Target(p, steps) == 0
    ensures var fs := [Mod(Scale(inv, f), Target(p, steps))];
            Lifts(fs, us, p, Target(p, steps)) && Factors(f, fs, Target(p, steps))
  {
    hide Cong, Mul, Prime, PairwiseCoprime, Coprime;
    var m := Target(p, steps);
    PrimePositive(p);
    TargetFacts(p, steps);
    PrimeCoprime(Lead(f), p);
    CoprimePower(Lead(f), p, Pow2(steps));
    var only := Mod(Scale(inv, f), m);
    LeafScale(f, inv, m);
    ProductOne(only);
    ProductOne(us[0]);
    assert us == [us[0]];
    ModTrans(inv * Lead(f) - 1, m, p);
    CongWeaken(f, Mul([Lead(f)], only), m, p);
    CongSym(f, Mul([Lead(f)], only), p);
    CongTrans(Mul([Lead(f)], only), f, Mul([Lead(f)], us[0]), p);
    CancelUnit(Lead(f), inv, only, us[0], p);
    MonicLength(only, us[0], p);
  }

  lemma ProductOne(u: seq<int>)
    requires Trimmed(u)
    ensures Product([u]) == u
  {
    assert [u][1..] == [];
    MulOne(u);
  }

  /** A unit constant cancels from a congruence. */
  lemma CancelUnit(c: int, inv: int, f: seq<int>, g: seq<int>, p: int)
    requires p > 1 && (inv * c - 1) % p == 0 && Cong(Mul([c], f), Mul([c], g), p)
    ensures Cong(f, g, p)
  {
    CancelOne(c, inv, f, p);
    CancelOne(c, inv, g, p);
    hide Cong, Mul;
    CongRefl([inv], p);
    CongMul([inv], Mul([c], f), [inv], Mul([c], g), p);
    CongSym(Mul([inv], Mul([c], f)), f, p);
    CongTrans(f, Mul([inv], Mul([c], f)), Mul([inv], Mul([c], g)), p);
    CongTrans(f, Mul([inv], Mul([c], g)), g, p);
  }

  lemma CancelOne(c: int, inv: int, f: seq<int>, p: int)
    requires p > 1 && (inv * c - 1) % p == 0
    ensures Cong(Mul([inv], Mul([c], f)), f, p)
  {
    assert Cong([inv * c], [1], p) by {
      forall i: int ensures (Coef([inv * c], i) - Coef([1], i)) % p == 0 { MultipleMod(p, 0); }
    }
    assert Same(Mul([inv], Mul([c], f)), Mul([inv * c], f)) by {
      forall x: int ensures Eval(Mul([inv], Mul([c], f)), x) == Eval(Mul([inv * c], f), x) { CancelEval(c, inv, f, x); }
    }
    assert Same(Mul([1], f), f) by {
      forall x: int ensures Eval(Mul([1], f), x) == Eval(f, x) { EvalMul([1], f, x); EvalOne(x); }
    }
    hide Cong, Same, Mul;
    CongRefl(f, p);
    CongMul([inv * c], f, [1], f, p);
    CongSame(Mul([1], f), f, p);
    CongTrans(Mul([inv * c], f), Mul([1], f), f, p);
    CongSame(Mul([inv], Mul([c], f)), Mul([inv * c], f), p);
    CongTrans(Mul([inv], Mul([c], f)), Mul([inv * c], f), f, p);
  }

  lemma CancelEval(c: int, inv: int, f: seq<int>, x: int)
    ensures Eval(Mul([inv], Mul([c], f)), x) == Eval(Mul([inv * c], f), x)
  {
    EvalConstant(c, x);
    EvalConstant(inv, x);
    EvalConstant(inv * c, x);
    hide *;
    EvalMul([inv], Mul([c], f), x);
    EvalMul([c], f, x);
    EvalMul([inv * c], f, x);
    Associate(inv, c, Eval(f, x));
  }

  lemma HalvesLiftable(f: seq<int>, us: seq<seq<int>>, half: nat, g: seq<int>, h: seq<int>, p: int, m: int)
    requires Liftable(f, us, p) && half <= |us| && m > 1 && m % p == 0 && Halves(f, us, half, g, h, p, m)
    ensures Liftable(g, us[..half], p) && Liftable(h, us[half..], p)
    ensures (Lead(g) - Lead(f)) % m == 0
  {
    hide Cong, Mul, Prime, CoprimePoly, Product, PairwiseCoprime, Trimmed, Reduced;
    PrimePositive(p);
    LeadNotDivisible(Lead(f), p, m);
    CofactorDegree(f, g, h, m);
    LeadsAgree(Lead(f), Lead(g), p, m);
    SmallMod(1, p);
    CoprimeHalves(us, half, p);
    LeftFactors(f, g, us[..half], p);
    ProductTrimmed(us[half..]);
    MulOne(Product(us[half..]));
  }

  lemma LeadNotDivisible(c: int, p: int, m: int)
    requires p > 1 && m > 1 && m % p == 0 && c % p != 0
    ensures c % m != 0
  {
    if c % m == 0 { ModTrans(c, m, p); }
  }

  lemma LeadsAgree(c: int, d: int, p: int, m: int)
    requires p > 1 && m > 1 && m % p == 0 && c % p != 0 && (d - c) % m == 0
    ensures d % p != 0 && (d - c) % p == 0
  {
    ModTrans(d - c, m, p);
    if d % p == 0 { ModSum(d, d - c, p); }
  }

  lemma LeftFactors(f: seq<int>, g: seq<int>, left: seq<seq<int>>, p: int)
    requires p > 1 && f != [] && g != [] && (Lead(g) - Lead(f)) % p == 0
    requires Cong(g, Mul([Lead(f)], Product(left)), p)
    ensures Factors(g, left, p)
  {
    hide Cong, Mul, Product;
    ConstantCong(Lead(f), Lead(g), p);
    CongRefl(Product(left), p);
    CongMul([Lead(f)], Product(left), [Lead(g)], Product(left), p);
    CongTrans(g, Mul([Lead(f)], Product(left)), Mul([Lead(g)], Product(left)), p);
  }

  lemma ConstantCong(a: int, b: int, p: int)
    requires p > 0 && (b - a) % p == 0
    ensures Cong([a], [b], p)
  {
    ModSum(0, b - a, p);
    forall i: int ensures (Coef([a], i) - Coef([b], i)) % p == 0 { MultipleMod(p, 0); }
  }

  lemma HalvesJoined(f: seq<int>, us: seq<seq<int>>, half: nat, g: seq<int>, h: seq<int>,
                     fl: seq<seq<int>>, fr: seq<seq<int>>, p: int, m: int)
    requires p > 1 && m > 1 && half <= |us| && f != [] && Halves(f, us, half, g, h, p, m)
    requires Lifts(fl, us[..half], p, m) && Lifts(fr, us[half..], p, m)
    requires Factors(g, fl, m) && Factors(h, fr, m) && (Lead(g) - Lead(f)) % m == 0
    ensures Lifts(fl + fr, us, p, m) && Factors(f, fl + fr, m)
  {
    hide Cong, Mul, Product, Trimmed, Reduced;
    ProductConcat(fl, fr);
    ConstantCong(Lead(f), Lead(g), m);
    CongSym([Lead(f)], [Lead(g)], m);
    CongRefl(Product(fl), m);
    CongMul([Lead(g)], Product(fl), [Lead(f)], Product(fl), m);
    CongTrans(g, Mul([Lead(g)], Product(fl)), Mul([Lead(f)], Product(fl)), m);
    ProductTrimmed(fr);
    MulOne(Product(fr));
    CongMul(g, h, Mul([Lead(f)], Product(fl)), Product(fr), m);
    MulAssociates([Lead(f)], Product(fl), Product(fr));
    CongTrans(f, Mul(g, h), Mul([Lead(f)], Product(fl + fr)), m);
    forall i | 0 <= i < |us|
      ensures Monic((fl + fr)[i]) && Residues((fl + fr)[i], m) && |(fl + fr)[i]| == |us[i]| && Cong((fl + fr)[i], us[i], p)
    {
      if i < half { assert us[i] == us[..half][i]; } else { assert us[i] == us[half..][i - half]; }
    }
  }
}
