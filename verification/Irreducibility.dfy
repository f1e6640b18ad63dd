/** What the recombination proves (`recombine` and `irreducibleFactors`, packages/cas/src/factor.ts): with a modulus
    above twice the leading coefficient times every coefficient of every factor, each factor returned is irreducible. */
module Irreducibility {
  import opened Options
  import opened Arith
  import opened DensePoly
  import opened Hensel
  import opened Bezout
  import opened Lifting
  import opened LiftTree
  import opened ExactDivision
  import opened Subsets
  import opened Recombination
  import opened PrimeFactors

  // ---- the pool without the factors used ----

  lemma {:induction false} WithoutSnoc(init: seq<seq<int>>, u: seq<int>, s: seq<int>, i: nat)
    requires i <= |init|
    ensures Without(init + [u], s, i) == Without(init, s, i) + (if |init| in s then [] else [u])
    decreases |init| - i
  {
    if i < |init| {
      WithoutSnoc(init, u, s, i + 1);
    } else {
      assert Without(init + [u], s, i + 1) == [];
    }
  }

  lemma {:induction false} WithoutPicks(pool: seq<seq<int>>, s: seq<int>)
    ensures IndexSubset(Left(|pool|, s), |pool|)
    ensures Without(pool, s, 0) == Pick(pool, Left(|pool|, s))
  {
    LeftExactly(|pool|, s);
    if pool != [] {
      var n := |pool| - 1;
      var init := pool[..n];
      assert pool == init + [pool[n]];
      WithoutPicks(init, s);
      WithoutSnoc(init, pool[n], s, 0);
      PickInit(pool, Left(n, s));
    }
  }

  /** Taking a subset's factors out of the pool keeps the entries at every other position, once each and in order. */
  lemma WithoutKeeps(pool: seq<seq<int>>, s: seq<int>) returns (kept: seq<int>)
    requires IndexSubset(s, |pool|)
    ensures IndexSubset(kept, |pool|) && forall i: int :: i in kept <==> 0 <= i < |pool| && i !in s
    ensures |kept| + |s| == |pool| && |Without(pool, s, 0)| == |kept|
    ensures forall k :: 0 <= k < |kept| ==> Without(pool, s, 0)[k] == pool[kept[k]]
  {
    kept := Left(|pool|, s);
    LeftExactly(|pool|, s);
    LeftCount(|pool|, s);
    WithoutPicks(pool, s);
  }

  // ---- coprime modulo p, coprime modulo its powers ----

  lemma SquareIdentity(s: int, a: int, t: int, b: int, m: int, k: int, e: int, se: int, te: int, mk: int, kk: int, z: int)
    requires Times(s, a) + Times(t, b) == 1 + mk && mk == Times(m, k) && e == 1 - mk
    requires se == Times(s, e) && te == Times(t, e) && kk == Times(k, k) && z == -kk
    ensures Times(se, a) + Times(te, b) == 1 + Times(m * m, z)
  {
    assert (s * e) * a + (t * e) * b == (s * a + t * b) * e;
    assert (1 + mk) * (1 - mk) == 1 - mk * mk;
    assert mk * mk == (m * m) * (k * k);
    assert (m * m) * z == -((m * m) * (k * k));
  }

  lemma SquareAt(a: seq<int>, b: seq<int>, s: seq<int>, t: seq<int>, k: seq<int>, m: int, x: int)
    requires Eval(Combine(s, a, t, b), x) == Eval([1], x) + Times(m, Eval(k, x))
    ensures var e := Sub([1], Scale(m, k));
            Eval(Combine(Mul(s, e), a, Mul(t, e), b), x) == Eval([1], x) + Times(m * m, Eval(Sub([], Mul(k, k)), x))
  {
    EvalOne(x);
    assert Eval([], x) == 0;
    EvalScale(m, k, x);
    assert Eval(Scale(m, k), x) == Times(m, Eval(k, x));
    hide *;
    var e := Sub([1], Scale(m, k));
    EvalCombineTimes(s, a, t, b, x);
    EvalCombineTimes(Mul(s, e), a, Mul(t, e), b, x);
    EvalTimes(s, e, x);
    EvalTimes(t, e, x);
    EvalSub([1], Scale(m, k), x);
    EvalTimes(k, k, x);
    EvalSub([], Mul(k, k), x);
    SquareIdentity(Eval(s, x), Eval(a, x), Eval(t, x), Eval(b, x), m, Eval(k, x), Eval(e, x),
                   Eval(Mul(s, e), x), Eval(Mul(t, e), x), Times(m, Eval(k, x)), Eval(Mul(k, k), x), Eval(Sub([], Mul(k, k)), x));
  }

  lemma CoprimeSquare(a: seq<int>, b: seq<int>, m: int)
    requires m > 1 && CoprimePoly(a, b, m)
    ensures m * m > 1 && CoprimePoly(a, b, m * m)
  {
    var s, t :| BezoutFor(a, b, s, t, m);
    hide Cong, Combine, Mul, Add, Sub, BezoutFor;
    SquareModulus(m);
    CombineIsBezout(a, b, s, t, m);
    var k := CongWitness(Combine(s, a, t, b), [1], m);
    var e := Sub([1], Scale(m, k));
    forall x: int
      ensures Eval(Combine(Mul(s, e), a, Mul(t, e), b), x) == Eval([1], x) + Times(m * m, Eval(Sub([], Mul(k, k)), x))
    {
      assert Eval(Combine(s, a, t, b), x) == Eval([1], x) + Times(m, Eval(k, x));
      SquareAt(a, b, s, t, k, m, x);
    }
    CongFrom(Combine(Mul(s, e), a, Mul(t, e), b), [1], Sub([], Mul(k, k)), m * m);
    CombineIsBezout(a, b, Mul(s, e), Mul(t, e), m * m);
    assert BezoutFor(a, b, Mul(s, e), Mul(t, e), m * m);
  }

  lemma {:induction false} CoprimeTarget(a: seq<int>, b: seq<int>, p: int, steps: nat)
    requires p > 1 && CoprimePoly(a, b, p)
    ensures Target(p, steps) > 1 && CoprimePoly(a, b, Target(p, steps))
  {
    hide CoprimePoly, Target;
    TargetFacts(p, steps);
    if steps == 0 {
      TargetZero(p);
    } else {
      CoprimeTarget(a, b, p, steps - 1);
      CoprimeSquare(a, b, Target(p, steps - 1));
      TargetNext(p, steps - 1);
    }
  }

  // ---- factors over ℤ are blocks of lifted factors ----

  /** Leading coefficient and degree of a multiple of a product of monic factors. */
  lemma DegreeOf(a: seq<int>, c: int, fs: seq<seq<int>>, p: int)
    requires p > 1 && a != [] && Lead(a) % p != 0 && (forall i :: 0 <= i < |fs| ==> Monic(fs[i])) && MultipleOf(a, c, fs, p)
    ensures |a| == |Product(fs)| && Factors(a, fs, p)
  {
    MonicProduct(fs);
    var g := Mod([c], p);
    hide Cong, Mul, Mod, Product;
    ModCong([c], p);
    CongSym(g, [c], p);
    CongRefl(Product(fs), p);
    CongMul([c], Product(fs), g, Product(fs), p);
    CongTrans(a, Mul([c], Product(fs)), Mul(g, Product(fs)), p);
    CofactorDegree(a, g, Product(fs), p);
    assert g == [Lead(g)];
    ModSum(0, Lead(g) - Lead(a), p);
    ConstantCong(Lead(g), Lead(a), p);
    CongMul(g, Product(fs), [Lead(a)], Product(fs), p);
    CongTrans(a, Mul(g, Product(fs)), Mul([Lead(a)], Product(fs)), p);
  }

  lemma TopCancelled(a: seq<int>, u: seq<int>)
    requires a != [] && Lead(a) != 0 && Monic(u) && |a| == |u|
    ensures |Sub(Mul([Lead(a)], u), a)| < |u|
  {
    var n := |u| - 1;
    MulLead([Lead(a)], u);
    SumCoef(Mul([Lead(a)], u), a, n);
    assert Coef(Sub(Mul([Lead(a)], u), a), n) == 0;
  }

  lemma MonicMultipleIdentity(c: int, u: int, k: int, a: int, m: int, w: int, d: int, r: int, z: int)
    requires a == Times(u, k) + Times(m, w) && d == k - c && r == Times(c, u) - a && z == -w
    ensures Times(d, u) + r == Times(m, z)
  {
    assert (k - c) * u == u * k - c * u;
    assert m * z == -(m * w);
  }

  lemma MonicMultipleAt(c: int, u: seq<int>, k: seq<int>, a: seq<int>, m: int, w: seq<int>, x: int)
    requires Eval(a, x) == Eval(Mul(u, k), x) + Times(m, Eval(w, x))
    ensures Eval(Add(Mul(Sub(k, [c]), u), Sub(Mul([c], u), a)), x) == Times(m, Eval(Sub([], w), x))
  {
    EvalConstant(c, x);
    assert Eval([], x) == 0;
    hide *;
    var d, r := Sub(k, [c]), Sub(Mul([c], u), a);
    EvalAdd(Mul(d, u), r, x);
    EvalTimes(d, u, x);
    EvalSub(k, [c], x);
    EvalSub(Mul([c], u), a, x);
    EvalTimes([c], u, x);
    EvalTimes(u, k, x);
    EvalSub([], w, x);
    MonicMultipleIdentity(c, Eval(u, x), Eval(k, x), Eval(a, x), m, Eval(w, x), Eval(d, x), Eval(r, x), Eval(Sub([], w), x));
  }

  /** A multiple of a monic polynomial of the same degree is its leading coefficient times it. */
  lemma MonicMultiple(a: seq<int>, u: seq<int>, k: seq<int>, m: int)
    requires m > 0 && a != [] && Lead(a) != 0 && Monic(u) && |a| == |u| && Cong(a, Mul(u, k), m)
    ensures Cong(a, Mul([Lead(a)], u), m)
  {
    var c := Lead(a);
    var d, r := Sub(k, [c]), Sub(Mul([c], u), a);
    TopCancelled(a, u);
    hide Cong, Mul, Add, Sub, Multiple;
    var w := CongWitness(a, Mul(u, k), m);
    forall x: int ensures Eval(Add(Mul(d, u), r), x) == m * Eval(Sub([], w), x) {
      assert Eval(a, x) == Eval(Mul(u, k), x) + Times(m, Eval(w, x));
      MonicMultipleAt(c, u, k, a, m, w, x);
    }
    MultipleFromEval(Add(Mul(d, u), r), Sub([], w), m);
    MonicDivision(d, u, r, m);
    CongDifference(Mul([c], u), a, m);
    CongSym(Mul([c], u), a, m);
  }

  ghost predicate MonicList(fs: seq<seq<int>>) { forall i :: 0 <= i < |fs| ==> Monic(fs[i]) }

  /** If b·a is a multiple of the product of fs modulo p^(2^steps), and modulo p the factor a is that of fs and
      b that of coprime gs, then a is that of fs modulo p^(2^steps). */
  lemma OneBlock(a: seq<int>, b: seq<int>, k: seq<int>, fs: seq<seq<int>>, gs: seq<seq<int>>, p: int, steps: nat)
    requires Prime(p) && MonicList(fs) && a != [] && b != [] && Lead(a) % p != 0 && Lead(b) % p != 0
    requires Factors(a, fs, p) && Factors(b, gs, p) && CoprimePoly(Product(fs), Product(gs), p)
    requires Target(p, steps) > 1 && Cong(Mul(b, a), Mul(Product(fs), k), Target(p, steps))
    ensures Factors(a, fs, Target(p, steps))
  {
    var m := Target(p, steps);
    var u, v := Product(fs), Product(gs);
    MonicProduct(fs);
    DegreeOf(a, Lead(a), fs, p);
    hide Cong, Mul, Product, CoprimePoly, Coprime, Target, Monic;
    CoprimeSym(u, v, p);
    PrimeCoprime(Lead(b), p);
    CoprimeUnit(Lead(b), u, p);
    CoprimeMul([Lead(b)], v, u, p);
    CongSym(b, Mul([Lead(b)], v), p);
    CongRefl(u, p);
    CoprimeCong(Mul([Lead(b)], v), b, u, u, p);
    CoprimeSym(b, u, p);
    CoprimeTarget(u, b, p, steps);
    var w := CoprimeCancels(u, b, a, k, m);
    MonicMultiple(a, u, w, m);
  }

  /** f is its leading coefficient times the product of the pool modulo m, and the pool is prime modulo p. */
  ghost predicate Factored(f: seq<int>, pool: seq<seq<int>>, p: int, m: int)
    requires p > 0 && m > 0
  {
    f != [] && Trimmed(f) && Lead(f) % p != 0 && PrimePool(pool, p) && Factors(f, pool, m)
  }

  /** g is its leading coefficient times the product of the pool's factors at the positions s. */
  ghost predicate Block(g: seq<int>, pool: seq<seq<int>>, s: seq<int>, m: int)
    requires m > 0
  {
    IndexSubset(s, |pool|) && Factors(g, Pick(pool, s), m)
  }

  lemma PickPrime(pool: seq<seq<int>>, s: seq<int>, p: int)
    requires p > 0 && PrimePool(pool, p) && IndexSubset(s, |pool|)
    ensures PrimePool(Pick(pool, s), p) && MonicList(Pick(pool, s))
  {
    hide IrreducibleMod, CoprimePoly;
  }

  lemma PickCoprime(pool: seq<seq<int>>, s: seq<int>, p: int)
    requires p > 0 && PrimePool(pool, p) && IndexSubset(s, |pool|)
    ensures CoprimePoly(Product(Pick(pool, s)), Product(Others(pool, s)), p)
  {
    var fs, gs := Pick(pool, s), Others(pool, s);
    var left := Left(|pool|, s);
    LeftExactly(|pool|, s);
    hide CoprimePoly, IrreducibleMod, Product, Left;
    forall j | 0 <= j < |gs| ensures CoprimePoly(Product(fs), gs[j], p) {
      forall i | 0 <= i < |fs| ensures CoprimePoly(fs[i], gs[j], p) {
        assert left[j] in left && s[i] in s;
        PositionsCoprime(pool, s[i], left[j], p);
      }
      CoprimeProduct(fs, gs[j], p);
      CoprimeSym(Product(fs), gs[j], p);
    }
    forall j | 0 <= j < |gs| ensures CoprimePoly(gs[j], Product(fs), p) { CoprimeSym(Product(fs), gs[j], p); }
    CoprimeProduct(gs, Product(fs), p);
    CoprimeSym(Product(gs), Product(fs), p);
  }

  lemma PositionsCoprime(pool: seq<seq<int>>, i: int, j: int, p: int)
    requires p > 0 && PairwiseCoprime(pool, p) && 0 <= i < |pool| && 0 <= j < |pool| && i != j
    ensures CoprimePoly(pool[i], pool[j], p)
  {
    hide CoprimePoly;
    if j < i { CoprimeSym(pool[j], pool[i], p); }
  }

  lemma LeadsOfFactors(a: seq<int>, b: seq<int>, f: seq<int>, p: int)
    requires p > 1 && Trimmed(a) && Trimmed(b) && Mul(a, b) == f && f != [] && Lead(f) % p != 0
    ensures a != [] && b != [] && Lead(a) * Lead(b) == Lead(f) && Lead(a) % p != 0 && Lead(b) % p != 0
  {
    assert Mul([], b) == [] && Mul(a, []) == [];
    MulLead(a, b);
    if Lead(a) % p == 0 { ModScale(Lead(a), Lead(b), p); }
    if Lead(b) % p == 0 { ModScale(Lead(b), Lead(a), p); }
  }

  /** A factor over ℤ is, modulo p^(2^steps), its leading coefficient times some of the lifted factors, and its
      cofactor is its own times the others. */
  lemma Blocks(f: seq<int>, a: seq<int>, b: seq<int>, pool: seq<seq<int>>, p: int, steps: nat) returns (s: seq<int>)
    requires Prime(p) && Target(p, steps) > 1 && Factored(f, pool, p, Target(p, steps))
    requires Trimmed(a) && Trimmed(b) && Mul(a, b) == f
    ensures Block(a, pool, s, Target(p, steps)) && Factors(b, Others(pool, s), Target(p, steps))
    ensures |a| == |Product(Pick(pool, s))| && |b| == |Product(Others(pool, s))|
  {
    var m := Target(p, steps);
    LeadsOfFactors(a, b, f, p);
    TargetFacts(p, steps);
    hide Cong, Mul, Product, Target, IrreducibleMod, CoprimePoly, PairwiseCoprime, Left;
    CongWeaken(f, Mul([Lead(f)], Product(pool)), m, p);
    s := ShareOut(a, b, Lead(f), pool, p);
    var c: int :| MultipleOf(a, c, Pick(pool, s), p);
    var d: int :| MultipleOf(b, d, Others(pool, s), p);
    LeftExactly(|pool|, s);
    PickPrime(pool, s, p);
    PickPrime(pool, Left(|pool|, s), p);
    var u, v := Product(Pick(pool, s)), Product(Others(pool, s));
    DegreeOf(a, c, Pick(pool, s), p);
    DegreeOf(b, d, Others(pool, s), p);
    PickCoprime(pool, s, p);
    PickSplit(pool, s);
    BothOrders(f, a, b, [Lead(f)], u, v, Product(pool), m);
    OneBlock(a, b, Mul([Lead(f)], v), Pick(pool, s), Others(pool, s), p, steps);
    CoprimeSym(u, v, p);
    OneBlock(b, a, Mul([Lead(f)], u), Others(pool, s), Pick(pool, s), p, steps);
  }

  lemma BothOrders(f: seq<int>, a: seq<int>, b: seq<int>, l: seq<int>, u: seq<int>, v: seq<int>, w: seq<int>, m: int)
    requires m > 0 && Mul(a, b) == f && Mul(u, v) == w && Cong(f, Mul(l, w), m)
    ensures Cong(Mul(b, a), Mul(u, Mul(l, v)), m) && Cong(Mul(a, b), Mul(v, Mul(l, u)), m)
  {
    MulCommutes(a, b);
    MulCommutes(l, v);
    MulCommutes(l, u);
    MulCommutes(l, w);
    MulCommutes(u, v);
    MulAssociates(u, v, l);
    MulAssociates(v, u, l);
  }

  // ---- one step of the search ----

  /** A polynomial of positive degree over ℤ that is no product of two such polynomials. */
  ghost predicate Irreducible(g: seq<int>) {
    && |g| >= 2
    && forall a: seq<int>, b: seq<int> :: Trimmed(a) && Trimmed(b) && Mul(a, b) == g ==> |a| == 1 || |b| == 1
  }

  /** The modulus is above twice the leading coefficient times any coefficient of any factor of smaller degree. */
  ghost predicate Room(f: seq<int>, m: int)
    requires f != []
  {
    forall g: seq<int>, i: int ::
      PositivePrimitive(g) && |g| < |f| && DividesPoly(g, f) ==> 2 * (Lead(f) * Abs(Coef(g, i))) < m
  }

  /** Every factor that is a block of the pool takes at least `size` of its members. */
  ghost predicate Large(rest: seq<int>, pool: seq<seq<int>>, size: nat, m: int)
    requires m > 0
  {
    forall g: seq<int>, s: seq<int> ::
      PositivePrimitive(g) && |g| >= 2 && DividesPoly(g, rest) && Block(g, pool, s, m) ==> |s| >= size
  }

  lemma {:induction false} SubsetIsProduct(lead: int, pool: seq<seq<int>>, s: seq<int>, m: int)
    requires m > 0 && IndexSubset(s, |pool|) && MonicPool(pool)
    ensures Cong(SubsetProduct(lead, pool, s, m), Mul([lead], Product(Pick(pool, s))), m)
    decreases |s|
  {
    hide Cong, Mul, Mod, Product;
    if s == [] {
      assert Pick(pool, s) == [];
      ConstantOne(lead, m);
    } else {
      var s', u := s[..|s| - 1], pool[Lead(s)];
      SubsetIsProduct(lead, pool, s', m);
      assert Pick(pool, s) == Pick(pool, s') + [u];
      ProductSnoc(Pick(pool, s'), u);
      var p := SubsetProduct(lead, pool, s', m);
      var v := Product(Pick(pool, s'));
      MulAssociates([lead], v, u);
      CongRefl(u, m);
      CongMul(p, u, Mul([lead], v), u, m);
      ModCong(Mul(p, u), m);
      CongTrans(Mod(Mul(p, u), m), Mul(p, u), Mul([lead], Product(Pick(pool, s))), m);
    }
  }

  lemma ConstantOne(c: int, m: int)
    requires m > 0
    ensures Cong([c], Mul([c], Product([])), m)
  {
    CongRefl([c], m);
    ConstantOf([c], c, m);
  }

  lemma ScaleIs(k: int, f: seq<int>)
    ensures Same(Mul([k], f), Scale(k, f))
  {
    forall x: int ensures Eval(Mul([k], f), x) == Eval(Scale(k, f), x) {
      EvalConstant(k, x);
      hide *;
      EvalMul([k], f, x);
      EvalScale(k, f, x);
    }
  }

  lemma ScaledProduct(k: int, l: int, u: seq<int>)
    ensures Same(Mul([k], Mul([l], u)), Mul([k * l], u))
  {
    forall x: int ensures Eval(Mul([k], Mul([l], u)), x) == Eval(Mul([k * l], u), x) { CancelEval(l, k, u, x); }
  }

  /** k times a block is what the subset's product reduces to. */
  lemma ScaledBlock(k: int, g: seq<int>, lead: int, u: seq<int>, m: int)
    requires m > 0 && g != [] && lead == k * Lead(g) && Cong(g, Mul([Lead(g)], u), m)
    ensures Cong(Mul([lead], u), Scale(k, g), m)
  {
    var l := Lead(g);
    hide Cong, Mul, Scale, Same;
    ScaledProduct(k, l, u);
    CongSame(Mul([k], Mul([l], u)), Mul([lead], u), m);
    CongSym(Mul([k], Mul([l], u)), Mul([lead], u), m);
    CongRefl([k], m);
    CongSym(g, Mul([l], u), m);
    CongMul([k], Mul([l], u), [k], g, m);
    CongTrans(Mul([lead], u), Mul([k], Mul([l], u)), Mul([k], g), m);
    ScaleIs(k, g);
    CongSame(Mul([k], g), Scale(k, g), m);
    CongTrans(Mul([lead], u), Mul([k], g), Scale(k, g), m);
  }

  lemma SymmetricIs(c: int, r: int, m: int)
    requires m > 0 && (c - r) % m == 0 && 2 * Abs(r) < m
    ensures Symmetric(c, m) == r
  {
    ModSum(0, c - r, m);
    SymmetricResidue(c, m, r);
  }

  lemma SymmetricCandidate(p: seq<int>, f: seq<int>, m: int)
    requires m > 0 && Cong(p, f, m) && Trimmed(f) && forall i: int :: 2 * Abs(Coef(f, i)) < m
    ensures Trim(seq(|p|, i requires 0 <= i < |p| => Symmetric(p[i], m))) == f
  {
    var c := seq(|p|, i requires 0 <= i < |p| => Symmetric(p[i], m));
    hide Symmetric;
    forall i: int ensures Coef(Trim(c), i) == Coef(f, i) {
      assert (Coef(p, i) - Coef(f, i)) % m == 0 && 2 * Abs(Coef(f, i)) < m;
      SymmetricIs(Coef(p, i), Coef(f, i), m);
      SymmetricZero(m);
      assert Coef(c, i) == Symmetric(Coef(p, i), m);
    }
    SameCoefTrimmed(Trim(c), f);
  }

  lemma SymmetricZero(m: int)
    requires m > 0
    ensures Symmetric(0, m) == 0
  {
    MultipleMod(m, 0);
    SymmetricIs(0, 0, m);
  }

  lemma ScaledBound(k: int, l: int, c: int, m: int)
    requires 0 < k && 0 < l && 2 * ((k * l) * Abs(c)) < m
    ensures 2 * Abs(k * c) < m
  {
    assert Abs(k * c) == k * Abs(c) by { if c < 0 { assert k * c == -(k * Abs(c)); } }
    MulMonotone(1, l, k * Abs(c));
    assert (k * Abs(c)) * l == (k * l) * Abs(c);
  }

  lemma ScaledFits(rest: seq<int>, g: seq<int>, q: seq<int>, m: int)
    requires m > 0 && PositivePrimitive(rest) && PositivePrimitive(g) && |g| < |rest| && Room(rest, m)
    requires Trimmed(q) && Mul(q, g) == rest
    ensures q != [] && Lead(q) > 0 && Lead(rest) == Lead(q) * Lead(g) && Trimmed(Scale(Lead(q), g))
    ensures forall i: int :: 2 * Abs(Coef(Scale(Lead(q), g), i)) < m
  {
    DivideOut(rest, g, q);
    MulLead(q, g);
    var k := Lead(q);
    NonzeroProduct(k, Lead(g));
    assert DividesPoly(g, rest) by { QuotientDivides(q, g, rest); }
    hide Mul, IsPrimitive, DividesPoly;
    forall i: int ensures 2 * Abs(Coef(Scale(k, g), i)) < m {
      assert 2 * (Lead(rest) * Abs(Coef(g, i))) < m;
      ScaledBound(k, Lead(g), Coef(g, i), m);
      assert Coef(Scale(k, g), i) == if 0 <= i < |g| then k * Coef(g, i) else 0;
    }
  }

  lemma BlockCandidate(k: int, g: seq<int>, lead: int, pool: seq<seq<int>>, s: seq<int>, m: int)
    requires m > 0 && MonicPool(pool) && Block(g, pool, s, m) && lead == k * Lead(g) && Trimmed(Scale(k, g))
    requires forall i: int :: 2 * Abs(Coef(Scale(k, g), i)) < m
    ensures Candidate(lead, pool, s, m) == Scale(k, g)
  {
    hide Cong, Mul, Product, SubsetProduct, Pick, Symmetric, Scale, Coef;
    SubsetIsProduct(lead, pool, s, m);
    var u, p := Product(Pick(pool, s)), SubsetProduct(lead, pool, s, m);
    ScaledBlock(k, g, lead, u, m);
    CongTrans(p, Mul([lead], u), Scale(k, g), m);
    SymmetricCandidate(p, Scale(k, g), m);
  }

  /** With room in the modulus, a factor that is a block is hit by its block. */
  lemma BlockHits(rest: seq<int>, pool: seq<seq<int>>, g: seq<int>, s: seq<int>, m: int)
    requires m > 0 && PositivePrimitive(rest) && MonicPool(pool) && 2 * Lead(rest) < m && Room(rest, m)
    requires PositivePrimitive(g) && |g| < |rest| && DividesPoly(g, rest) && Block(g, pool, s, m)
    ensures Hit(rest, pool, s, m)
  {
    var q := TrimmedQuotient(g, rest);
    ScaledFits(rest, g, q, m);
    BlockCandidate(Lead(q), g, Lead(rest), pool, s, m);
    hide Mul, Room, Candidate, IsPrimitive, Block, DividesPoly, Scale;
    assert PrimitivePart(Candidate(Lead(rest), pool, s, m), g);
    BlockShape(g, pool, s, m);
    ConstantTestSound(rest, pool, s, m, g, q);
    assert Splits(rest, pool, s, m, g, q);
  }

  lemma BlockShape(g: seq<int>, pool: seq<seq<int>>, s: seq<int>, m: int)
    requires m > 0 && Block(g, pool, s, m)
    ensures g != [] && IndexSubset(s, |pool|)
  {}

  lemma TrimmedQuotient(g: seq<int>, f: seq<int>) returns (q: seq<int>)
    requires DividesPoly(g, f)
    ensures Trimmed(q) && Mul(q, g) == f
  {
    var k :| Mul(k, g) == f;
    q := Trim(k);
    forall x: int ensures Eval(Mul(q, g), x) == Eval(f, x) {
      EvalMul(k, g, x);
      EvalTrim(k, x);
      EvalMul(q, g, x);
    }
    Canonical(Mul(q, g), f);
  }

  lemma SymmetricCong(p: seq<int>, m: int)
    requires m > 0
    ensures Cong(Trim(seq(|p|, i requires 0 <= i < |p| => Symmetric(p[i], m))), p, m)
  {
    var c := seq(|p|, i requires 0 <= i < |p| => Symmetric(p[i], m));
    hide Symmetric;
    forall i: int ensures (Coef(Trim(c), i) - Coef(p, i)) % m == 0 {
      MultipleMod(m, 0);
      if 0 <= i < |p| { SymmetricResidue(p[i], m, Symmetric(p[i], m)); }
      assert Coef(Trim(c), i) == Coef(c, i);
    }
  }

  lemma UnitPower(k: int, p: int, steps: nat)
    requires Prime(p) && k % p != 0
    ensures Coprime(k, Target(p, steps))
  {
    PrimeCoprime(k, p);
    CoprimePower(k, p, Pow2(steps));
  }

  lemma HitMultiple(rest: seq<int>, pool: seq<seq<int>>, s: seq<int>, g: seq<int>, q: seq<int>, m: int) returns (k: int)
    requires m > 0 && PositivePrimitive(rest) && 2 * Lead(rest) < m && MonicPool(pool) && IndexSubset(s, |pool|)
    requires Splits(rest, pool, s, m, g, q)
    ensures g != [] && Lead(rest) == k * Lead(g) && Candidate(Lead(rest), pool, s, m) == Scale(k, g)
  {
    hide IsPrimitive, Mul, Candidate;
    PositiveShape(rest);
    PositiveShape(g);
    CandidateNonzero(Lead(rest), pool, s, m);
    SymmetricNonzero(Lead(rest), m);
    k :| k != 0 && Candidate(Lead(rest), pool, s, m) == Scale(k, g);
  }

  /** A factor found by a subset is the block of that subset. */
  lemma HitIsBlock(rest: seq<int>, pool: seq<seq<int>>, s: seq<int>, g: seq<int>, q: seq<int>, p: int, steps: nat)
    requires Prime(p) && Target(p, steps) > 1 && PositivePrimitive(rest) && Lead(rest) % p != 0
    requires 2 * Lead(rest) < Target(p, steps) && MonicPool(pool) && IndexSubset(s, |pool|)
    requires Splits(rest, pool, s, Target(p, steps), g, q)
    ensures Block(g, pool, s, Target(p, steps))
  {
    var m := Target(p, steps);
    var lead := Lead(rest);
    var c := Candidate(lead, pool, s, m);
    var k := HitMultiple(rest, pool, s, g, q, m);
    if k % p == 0 { ModScale(k, Lead(g), p); }
    UnitPower(k, p, steps);
    hide Cong, Mul, Product, Pick, Symmetric, Target, Scale, IsPrimitive, Coprime, Splits, Prime;
    var u, w := Product(Pick(pool, s)), SubsetProduct(lead, pool, s, m);
    SubsetIsProduct(lead, pool, s, m);
    SymmetricCong(w, m);
    CongTrans(c, w, Mul([lead], u), m);
    BlockFrom(k, g, lead, u, m);
  }

  lemma BlockFrom(k: int, g: seq<int>, lead: int, u: seq<int>, m: int)
    requires m > 1 && g != [] && lead == k * Lead(g) && Coprime(k, m) && Cong(Scale(k, g), Mul([lead], u), m)
    ensures Cong(g, Mul([Lead(g)], u), m)
  {
    var l := Lead(g);
    hide Cong, Mul, Scale, Same, Coprime;
    ScaleIs(k, g);
    CongSame(Mul([k], g), Scale(k, g), m);
    ScaledProduct(k, l, u);
    CongSame(Mul([k], Mul([l], u)), Mul([lead], u), m);
    CongSym(Mul([k], Mul([l], u)), Mul([lead], u), m);
    CongTrans(Mul([k], g), Scale(k, g), Mul([lead], u), m);
    CongTrans(Mul([k], g), Mul([lead], u), Mul([k], Mul([l], u)), m);
    CancelCoprime(k, g, Mul([l], u), m);
  }

  // ---- blocks of blocks ----

  lemma PickTwice(pool: seq<seq<int>>, t: seq<int>, s: seq<int>) returns (r: seq<int>)
    requires IndexSubset(t, |pool|) && IndexSubset(s, |t|)
    ensures IndexSubset(r, |pool|) && |r| == |s| && Pick(pool, r) == Pick(Pick(pool, t), s)
  {
    r := seq(|s|, k requires 0 <= k < |s| => t[s[k]]);
  }

  lemma BlockWithin(g: seq<int>, pool: seq<seq<int>>, t: seq<int>, s: seq<int>, m: int) returns (r: seq<int>)
    requires m > 0 && IndexSubset(t, |pool|) && Block(g, Pick(pool, t), s, m)
    ensures Block(g, pool, r, m) && |r| == |s|
  {
    r := PickTwice(pool, t, s);
  }

  // ---- factors are primitive ----

  lemma FactorPrimitive(g: seq<int>, a: seq<int>, b: seq<int>)
    requires PositivePrimitive(g) && Trimmed(a) && a != [] && Mul(a, b) == g && Lead(a) > 0
    ensures PositivePrimitive(a)
  {
    forall d: int | d > 1 ensures !Multiple(a, d) {
      if Multiple(a, d) { MultipleMulAny(a, b, d); }
    }
  }

  lemma Negated(a: seq<int>, b: seq<int>)
    ensures Mul(Scale(-1, a), Scale(-1, b)) == Mul(a, b)
  {
    forall x: int ensures Eval(Mul(Scale(-1, a), Scale(-1, b)), x) == Eval(Mul(a, b), x) {
      hide *;
      EvalMul(Scale(-1, a), Scale(-1, b), x);
      EvalScale(-1, a, x);
      EvalScale(-1, b, x);
      EvalMul(a, b, x);
      NegatedTimes(Eval(a, x), Eval(b, x));
    }
    Canonical(Mul(Scale(-1, a), Scale(-1, b)), Mul(a, b));
  }

  lemma NegatedTimes(a: int, b: int)
    ensures (-1 * a) * (-1 * b) == a * b
  {}

  lemma SignsAgree(a: int, b: int)
    requires a * b > 0 && a > 0
    ensures b > 0
  {
    if b <= 0 { MulMonotone(b, 0, a); }
  }

  /** Two factors of a primitive polynomial, with their signs chosen so that both are primitive with positive lead. */
  lemma PositiveFactors(g: seq<int>, a: seq<int>, b: seq<int>) returns (a': seq<int>, b': seq<int>)
    requires PositivePrimitive(g) && Trimmed(a) && Trimmed(b) && Mul(a, b) == g
    ensures Trimmed(a') && Trimmed(b') && Mul(a', b') == g && |a'| == |a| && |b'| == |b|
    ensures PositivePrimitive(a') && PositivePrimitive(b')
  {
    assert Mul([], b) == [] && Mul(a, []) == [];
    a', b' := a, b;
    if Lead(a) < 0 {
      a', b' := Scale(-1, a), Scale(-1, b);
      Negated(a, b);
    }
    MulLead(a', b');
    SignsAgree(Lead(a'), Lead(b'));
    hide Mul, IsPrimitive, Multiple;
    MulCommutes(a', b');
    PositiveShape(g);
    FactorPrimitive(g, a', b');
    FactorPrimitive(g, b', a');
  }

  lemma PositiveShape(g: seq<int>)
    requires PositivePrimitive(g)
    ensures g != [] && Trimmed(g) && Lead(g) > 0
  {}

  lemma DividesThrough(a: seq<int>, b: seq<int>, g: seq<int>, f: seq<int>)
    requires Mul(a, b) == g && DividesPoly(g, f)
    ensures DividesPoly(a, f)
  {
    var q :| Mul(q, g) == f;
    hide Mul;
    MulCommutes(a, b);
    MulAssociates(q, b, a);
    QuotientDivides(Mul(q, b), a, f);
  }

  lemma DividesItself(f: seq<int>)
    requires Trimmed(f)
    ensures DividesPoly(f, f)
  {
    MulOne(f);
    QuotientDivides([1], f, f);
  }

  /** The factors of a polynomial are blocks, one of each pair taking the positions the other leaves. */
  lemma TwoBlocks(g: seq<int>, a: seq<int>, b: seq<int>, pool: seq<seq<int>>, p: int, steps: nat) returns (s: seq<int>)
    requires Prime(p) && Target(p, steps) > 1 && Factored(g, pool, p, Target(p, steps))
    requires Trimmed(a) && Trimmed(b) && Mul(a, b) == g && |b| >= 2
    ensures Block(a, pool, s, Target(p, steps)) && |s| < |pool|
    ensures IndexSubset(Left(|pool|, s), |pool|) && |Left(|pool|, s)| + |s| == |pool|
    ensures Block(b, pool, Left(|pool|, s), Target(p, steps))
  {
    hide Cong, Mul, Product, Target, PrimePool, Prime, Left;
    s := Blocks(g, a, b, pool, p, steps);
    LeftExactly(|pool|, s);
    LeftCount(|pool|, s);
    if |s| == |pool| {
      assert Others(pool, s) == [];
      ProductEmpty();
    }
  }

  /** At the smallest size that has a hit, the factor found is irreducible. */
  lemma FoundIrreducible(rest: seq<int>, pool: seq<seq<int>>, s: seq<int>, g: seq<int>, p: int, steps: nat)
    requires Prime(p) && Target(p, steps) > 1 && PrimePool(pool, p) && Large(rest, pool, |s|, Target(p, steps))
    requires PositivePrimitive(g) && DividesPoly(g, rest) && Block(g, pool, s, Target(p, steps)) && |g| >= 2
    requires Lead(g) % p != 0
    ensures Irreducible(g)
  {
    var m := Target(p, steps);
    PickPrime(pool, s, p);
    hide Cong, Mul, Product, Target, PrimePool, IsPrimitive, Prime, Left, Pick;
    PositiveShape(g);
    forall a0: seq<int>, b0: seq<int> | Trimmed(a0) && Trimmed(b0) && Mul(a0, b0) == g ensures |a0| == 1 || |b0| == 1 {
      var a, b := PositiveFactors(g, a0, b0);
      PositiveShape(a);
      PositiveShape(b);
      if |a| >= 2 && |b| >= 2 {
        var t := TwoBlocks(g, a, b, Pick(pool, s), p, steps);
        var r := BlockWithin(a, pool, s, t, m);
        DividesThrough(a, b, g, rest);
      }
    }
  }

  /** When no factor is a block of at most half the pool, what is left is irreducible. */
  lemma RestIrreducible(rest: seq<int>, pool: seq<seq<int>>, size: nat, p: int, steps: nat)
    requires Prime(p) && Target(p, steps) > 1 && Factored(rest, pool, p, Target(p, steps)) && 2 * size > |pool|
    requires PositivePrimitive(rest) && |rest| >= 2 && Large(rest, pool, size, Target(p, steps))
    ensures Irreducible(rest)
  {
    hide Cong, Mul, Product, Target, PrimePool, IsPrimitive, Prime, Left, Pick;
    PositiveShape(rest);
    DividesItself(rest);
    forall a0: seq<int>, b0: seq<int> | Trimmed(a0) && Trimmed(b0) && Mul(a0, b0) == rest ensures |a0| == 1 || |b0| == 1 {
      var a, b := PositiveFactors(rest, a0, b0);
      PositiveShape(a);
      PositiveShape(b);
      if |a| >= 2 && |b| >= 2 {
        var s := TwoBlocks(rest, a, b, pool, p, steps);
        DividesThrough(a, b, rest, rest);
        MulCommutes(a, b);
        DividesThrough(b, a, rest, rest);
      }
    }
  }

  // ---- the whole search ----

  lemma PrimitiveOne()
    ensures PositivePrimitive([1])
  {
    forall d: int | d > 1 ensures !Multiple([1], d) {
      SmallMod(1, d);
      assert Coef([1], 0) % d != 0;
    }
  }

  lemma RoomAt(f: seq<int>, m: int, g: seq<int>, i: int)
    requires f != [] && Room(f, m) && PositivePrimitive(g) && |g| < |f| && DividesPoly(g, f)
    ensures 2 * (Lead(f) * Abs(Coef(g, i))) < m
  {
    hide IsPrimitive, DividesPoly;
  }

  /** The room is above twice the leading coefficient itself. */
  lemma RoomForLead(f: seq<int>, m: int)
    requires PositivePrimitive(f) && |f| >= 2 && Room(f, m)
    ensures 2 * Lead(f) < m
  {
    PositiveShape(f);
    assert Coef([1], 0) == 1 && Abs(1) == 1;
    assert Trimmed(f);
    hide *;
    PrimitiveOne();
    MulOne(f);
    QuotientDivides(f, [1], f);
    RoomAt(f, m, [1], 0);
  }

  lemma RoomForRest(rest: seq<int>, g: seq<int>, q: seq<int>, m: int)
    requires PositivePrimitive(rest) && PositivePrimitive(g) && Trimmed(q) && Mul(q, g) == rest && Room(rest, m)
    ensures q != [] && Lead(q) <= Lead(rest) && PositivePrimitive(q) && |q| <= |rest| && Room(q, m)
  {
    DivideOut(rest, g, q);
    MulLead(q, g);
    hide Mul, IsPrimitive, DividesPoly;
    forall d: seq<int>, i: int | PositivePrimitive(d) && |d| < |q| && DividesPoly(d, q)
      ensures 2 * (Lead(q) * Abs(Coef(d, i))) < m
    {
      DividesRest(d, q, g, rest);
      assert 2 * (Lead(rest) * Abs(Coef(d, i))) < m;
      MulMonotone(Lead(q), Lead(rest), Abs(Coef(d, i)));
    }
  }

  lemma DividesRest(d: seq<int>, q: seq<int>, g: seq<int>, rest: seq<int>)
    requires DividesPoly(d, q) && Mul(q, g) == rest
    ensures DividesPoly(d, rest)
  {
    var k :| Mul(k, d) == q;
    hide Mul;
    MulCommutes(k, d);
    MulCommutes(q, g);
    QuotientDivides(g, q, rest);
    DividesThrough(d, k, q, rest);
  }

  lemma NextIdentity(q: seq<int>, g: seq<int>, l: seq<int>, k: seq<int>, u: seq<int>, v: seq<int>)
    ensures Mul(u, Mul(l, q)) == Mul(q, Mul(l, u)) && Mul(Mul(k, Mul(u, v)), l) == Mul(u, Mul(l, Mul(k, v)))
  {
    MulAssociates(u, l, q);
    MulCommutes(u, l);
    MulCommutes(Mul(l, u), q);
    MulCommutes(u, v);
    MulAssociates(k, v, u);
    MulCommutes(Mul(Mul(k, v), u), l);
    MulAssociates(l, Mul(k, v), u);
    MulCommutes(Mul(l, Mul(k, v)), u);
  }

  /** What is left after a hit is the product of the factors not used. */
  lemma NextFactored(rest: seq<int>, pool: seq<seq<int>>, s: seq<int>, g: seq<int>, q: seq<int>, p: int, steps: nat)
    requires Prime(p) && Target(p, steps) > 1 && Factored(rest, pool, p, Target(p, steps))
    requires Block(g, pool, s, Target(p, steps)) && Trimmed(g) && Trimmed(q) && Mul(q, g) == rest
    ensures Factored(q, Others(pool, s), p, Target(p, steps))
  {
    var m := Target(p, steps);
    LeadsOfFactors(q, g, rest, p);
    LeftExactly(|pool|, s);
    PickPrime(pool, s, p);
    PickPrime(pool, Left(|pool|, s), p);
    PickSplit(pool, s);
    MonicProduct(Pick(pool, s));
    UnitPower(Lead(g), p, steps);
    hide Cong, Mul, Product, Target, PrimePool, Pick, Left, Coprime, Prime, Monic;
    var u, v := Product(Pick(pool, s)), Product(Others(pool, s));
    NextCong(rest, g, q, u, v, m);
  }

  lemma NextCong(rest: seq<int>, g: seq<int>, q: seq<int>, u: seq<int>, v: seq<int>, m: int)
    requires m > 1 && g != [] && q != [] && rest != [] && Mul(q, g) == rest && Lead(q) * Lead(g) == Lead(rest)
    requires Monic(u) && Coprime(Lead(g), m)
    requires Cong(g, Mul([Lead(g)], u), m) && Cong(rest, Mul([Lead(rest)], Mul(u, v)), m)
    ensures Cong(q, Mul([Lead(q)], v), m)
  {
    var l, k := [Lead(g)], [Lead(q)];
    var w := Mul(u, v);
    ConstantMul(Lead(q), Lead(g), w);
    hide Cong, Mul, Coprime, Monic;
    CongRefl(q, m);
    CongMul(q, g, q, Mul(l, u), m);
    CongSym(Mul(q, g), Mul(q, Mul(l, u)), m);
    CongTrans(Mul(q, Mul(l, u)), rest, Mul([Lead(rest)], w), m);
    NextIdentity(q, g, l, k, u, v);
    CancelMonic(u, Mul(l, q), Mul(l, Mul(k, v)), m);
    CancelCoprime(Lead(g), q, Mul(k, v), m);
  }

  lemma ConstantMul(a: int, b: int, w: seq<int>)
    ensures Mul([a * b], w) == Mul(Mul([a], w), [b])
  {
    forall x: int ensures Eval(Mul([a * b], w), x) == Eval(Mul([a], Mul([b], w)), x) { CancelEval(b, a, w, x); }
    Canonical(Mul([a * b], w), Mul([a], Mul([b], w)));
    MulCommutes([b], w);
    MulAssociates([a], w, [b]);
  }

  lemma NextLarge(rest: seq<int>, pool: seq<seq<int>>, s: seq<int>, g: seq<int>, q: seq<int>, size: nat, m: int)
    requires m > 0 && IndexSubset(s, |pool|) && Mul(q, g) == rest && Large(rest, pool, size, m)
    ensures Large(q, Others(pool, s), size, m)
  {
    LeftExactly(|pool|, s);
    hide Mul, Block, Left, IsPrimitive, DividesPoly, Pick;
    forall d: seq<int>, t: seq<int> | PositivePrimitive(d) && |d| >= 2 && DividesPoly(d, q) && Block(d, Others(pool, s), t, m)
      ensures |t| >= size
    {
      DividesRest(d, q, g, rest);
      var r := BlockOfOthers(d, pool, s, t, m);
    }
  }

  lemma BlockOfOthers(d: seq<int>, pool: seq<seq<int>>, s: seq<int>, t: seq<int>, m: int) returns (r: seq<int>)
    requires m > 0 && IndexSubset(s, |pool|) && Block(d, Others(pool, s), t, m)
    ensures Block(d, pool, r, m) && |r| == |t|
  {
    LeftExactly(|pool|, s);
    r := BlockWithin(d, pool, Left(|pool|, s), t, m);
  }

  /** No hit at a size: no factor is a block of that size. */
  lemma NoHitLarge(rest: seq<int>, pool: seq<seq<int>>, size: nat, p: int, steps: nat)
    requires Prime(p) && Target(p, steps) > 1 && Factored(rest, pool, p, Target(p, steps))
    requires PositivePrimitive(rest) && |rest| >= 2 && Room(rest, Target(p, steps)) && 1 <= size && 2 * size <= |pool|
    requires Large(rest, pool, size, Target(p, steps)) && NoHit(rest, pool, size, Target(p, steps))
    ensures Large(rest, pool, size + 1, Target(p, steps))
  {
    var m := Target(p, steps);
    RoomForLead(rest, m);
    PoolIsMonic(pool, p);
    hide Mul, Product, Target, PrimePool, IsPrimitive, Prime, Left, Pick, Hit, Cong, DividesPoly;
    forall g: seq<int>, s: seq<int> | PositivePrimitive(g) && |g| >= 2 && DividesPoly(g, rest) && Block(g, pool, s, m)
      ensures |s| >= size + 1
    {
      if |s| == size {
        ShorterBlock(rest, pool, g, s, p, steps);
        BlockHits(rest, pool, g, s, m);
      }
    }
  }

  lemma PoolIsMonic(pool: seq<seq<int>>, p: int)
    requires p > 0 && PrimePool(pool, p)
    ensures MonicPool(pool) && MonicList(pool)
  {}

  /** A block of at most half the pool has smaller degree. */
  lemma ShorterBlock(rest: seq<int>, pool: seq<seq<int>>, g: seq<int>, s: seq<int>, p: int, steps: nat)
    requires Prime(p) && Target(p, steps) > 1 && Factored(rest, pool, p, Target(p, steps))
    requires PositivePrimitive(g) && DividesPoly(g, rest) && Block(g, pool, s, Target(p, steps)) && |s| < |pool|
    ensures |g| < |rest|
  {
    var m := Target(p, steps);
    var q := TrimmedQuotient(g, rest);
    NextFactored(rest, pool, s, g, q, p, steps);
    LeadsOfFactors(q, g, rest, p);
    MulLead(q, g);
    LeftExactly(|pool|, s);
    LeftCount(|pool|, s);
    LongEnough(q, Others(pool, s), p, steps);
  }

  lemma LongEnough(q: seq<int>, pool: seq<seq<int>>, p: int, steps: nat)
    requires Prime(p) && Target(p, steps) > 1 && Factored(q, pool, p, Target(p, steps))
    ensures |q| >= 1 + |pool|
  {
    TargetFacts(p, steps);
    hide Mul, Product, Target, IrreducibleMod, CoprimePoly, Prime, Cong;
    CongWeaken(q, Mul([Lead(q)], Product(pool)), Target(p, steps), p);
    DegreeOf(q, Lead(q), pool, p);
    ProductLength(pool);
  }

  lemma {:induction false} ProductLength(fs: seq<seq<int>>)
    requires forall i :: 0 <= i < |fs| ==> Monic(fs[i]) && |fs[i]| >= 2
    ensures |Product(fs)| >= 1 + |fs|
  {
    if fs != [] {
      ProductLength(fs[1..]);
      MonicProduct(fs[1..]);
      MonicMul(fs[0], Product(fs[1..]));
    }
  }

  lemma StartLarge(f: seq<int>, pool: seq<seq<int>>, p: int, steps: nat)
    requires Prime(p) && Target(p, steps) > 1 && Factored(f, pool, p, Target(p, steps))
    ensures Large(f, pool, 1, Target(p, steps))
  {
    var m := Target(p, steps);
    TargetFacts(p, steps);
    PoolIsMonic(pool, p);
    hide Mul, Target, PrimePool, IsPrimitive, Prime, Cong;
    forall g: seq<int>, s: seq<int> | PositivePrimitive(g) && |g| >= 2 && DividesPoly(g, f) && Block(g, pool, s, m)
      ensures |s| >= 1
    {
      if s == [] {
        var q := TrimmedQuotient(g, f);
        PositiveShape(g);
        LeadsOfFactors(q, g, f, p);
        assert Pick(pool, s) == [];
        CongWeaken(g, Mul([Lead(g)], Product([])), m, p);
        DegreeOf(g, Lead(g), [], p);
      }
    }
  }

  /** Everything the search needs of its state. */
  ghost predicate Searching(rest: seq<int>, pool: seq<seq<int>>, size: nat, p: int, steps: nat) {
    && Prime(p) && Target(p, steps) > 1 && size >= 1 && PositivePrimitive(rest)
    && Factored(rest, pool, p, Target(p, steps)) && Room(rest, Target(p, steps))
    && Large(rest, pool, size, Target(p, steps))
  }

  /** A hit yields an irreducible factor and a state to search on from. */
  lemma HitStep(rest: seq<int>, pool: seq<seq<int>>, size: nat, p: int, steps: nat, s: seq<int>, g: seq<int>, q: seq<int>)
    requires Searching(rest, pool, size, p, steps) && 2 * size <= |pool|
    requires FirstHit(rest, pool, size, Target(p, steps), s, g, q)
    ensures Irreducible(g) && q != [] && Searching(q, Without(pool, s, 0), size, p, steps)
  {
    var m := Target(p, steps);
    LongEnough(rest, pool, p, steps);
    RoomForLead(rest, m);
    PoolIsMonic(pool, p);
    HitFacts(rest, pool, size, m, s, g, q);
    HitIsBlock(rest, pool, s, g, q, p, steps);
    RoomForRest(rest, g, q, m);
    NextFactored(rest, pool, s, g, q, p, steps);
    NextLarge(rest, pool, s, g, q, size, m);
    WithoutPicks(pool, s);
    QuotientDivides(q, g, rest);
    LeadsOfFactors(q, g, rest, p);
    PickPrime(pool, s, p);
    BlockFactored(g, pool, s, p, m);
    LongEnough(g, Pick(pool, s), p, steps);
    hide Cong, Mul, Product, Target, PrimePool, Pick, Left, IsPrimitive, Prime, Room, Large;
    FoundIrreducible(rest, pool, s, g, p, steps);
  }

  lemma BlockFactored(g: seq<int>, pool: seq<seq<int>>, s: seq<int>, p: int, m: int)
    requires p > 0 && m > 0 && Block(g, pool, s, m) && Trimmed(g) && Lead(g) % p != 0 && PrimePool(pool, p)
    ensures Factored(g, Pick(pool, s), p, m)
  {
    PickPrime(pool, s, p);
  }

  /** The three ways the search goes on. */
  lemma SearchCases(rest: seq<int>, pool: seq<seq<int>>, size: nat, m: int, out: seq<seq<int>>)
    returns (next: bool, s: seq<int>, q: seq<int>)
    requires m > 0 && Recombined(rest, pool, size, m, out)
    ensures rest != []
    ensures 2 * size > |pool| ==> out == if |rest| > 1 then [rest] else []
    ensures 2 * size <= |pool| && next ==> NoHit(rest, pool, size, m) && Recombined(rest, pool, size + 1, m, out)
    ensures 2 * size <= |pool| && !next ==>
      out != [] && FirstHit(rest, pool, size, m, s, out[0], q) && Recombined(q, Without(pool, s, 0), size, m, out[1..])
  {
    hide NoHit, FirstHit, Without;
    next, s, q := true, [], [];
    if 2 * size <= |pool| && !(NoHit(rest, pool, size, m) && Recombined(rest, pool, size + 1, m, out)) {
      next := false;
      s, q :| FirstHit(rest, pool, size, m, s, out[0], q) && Recombined(q, Without(pool, s, 0), size, m, out[1..]);
    }
  }

  lemma SearchingModulus(rest: seq<int>, pool: seq<seq<int>>, size: nat, p: int, steps: nat)
    requires Searching(rest, pool, size, p, steps)
    ensures Target(p, steps) > 0
  {}

  ghost predicate AllIrreducible(out: seq<seq<int>>) { forall i :: 0 <= i < |out| ==> Irreducible(out[i]) }

  lemma AllFromRest(out: seq<seq<int>>)
    requires out != [] && Irreducible(out[0]) && AllIrreducible(out[1..])
    ensures AllIrreducible(out)
  {
    hide Irreducible;
    forall i | 0 <= i < |out| ensures Irreducible(out[i]) {
      if i > 0 { assert Irreducible(out[1..][i - 1]); }
    }
  }

  /** Every factor the search returns is irreducible over ℤ. */
  lemma {:induction false} SearchIrreducible(rest: seq<int>, pool: seq<seq<int>>, size: nat, p: int, steps: nat, out: seq<seq<int>>)
    requires Searching(rest, pool, size, p, steps) && Recombined(rest, pool, size, Target(p, steps), out)
    ensures AllIrreducible(out)
    decreases |out|, 2 * |pool| + 1 - size
  {
    SearchingModulus(rest, pool, size, p, steps);
    hide *;
    var next, s, q := SearchCases(rest, pool, size, Target(p, steps), out);
    if 2 * size > |pool| {
      SearchEndIrreducible(rest, pool, size, p, steps, out);
    } else if next {
      SearchOn(rest, pool, size, p, steps);
      SearchIrreducible(rest, pool, size + 1, p, steps, out);
    } else {
      HitStep(rest, pool, size, p, steps, s, out[0], q);
      SearchIrreducible(q, Without(pool, s, 0), size, p, steps, out[1..]);
      AllFromRest(out);
    }
  }

  lemma SearchEndIrreducible(rest: seq<int>, pool: seq<seq<int>>, size: nat, p: int, steps: nat, out: seq<seq<int>>)
    requires Searching(rest, pool, size, p, steps) && 2 * size > |pool| && out == if |rest| > 1 then [rest] else []
    ensures AllIrreducible(out)
  {
    hide Irreducible;
    if |rest| > 1 { RestIrreducible(rest, pool, size, p, steps); }
  }

  lemma SearchOn(rest: seq<int>, pool: seq<seq<int>>, size: nat, p: int, steps: nat)
    requires rest != [] && Searching(rest, pool, size, p, steps) && 2 * size <= |pool| && NoHit(rest, pool, size, Target(p, steps))
    ensures Searching(rest, pool, size + 1, p, steps)
  {
    LongEnough(rest, pool, p, steps);
    NoHitLarge(rest, pool, size, p, steps);
  }

  /** `recombine` on lifted irreducible factors returns irreducible factors. */
  lemma RecombinedIrreducible(f: seq<int>, pool: seq<seq<int>>, p: int, steps: nat, out: seq<seq<int>>)
    requires Prime(p) && Target(p, steps) > 1 && PositivePrimitive(f) && Factored(f, pool, p, Target(p, steps))
    requires Room(f, Target(p, steps)) && Recombined(f, pool, 1, Target(p, steps), out)
    ensures AllIrreducible(out)
  {
    StartLarge(f, pool, p, steps);
    SearchIrreducible(f, pool, 1, p, steps, out);
  }
}
