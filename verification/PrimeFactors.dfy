/** Irreducible polynomials modulo a prime p: they divide a product only through one of its factors, so a
    product of irreducible factors is shared out between any two polynomials with that product. */
module PrimeFactors {
  import opened Arith
  import opened DensePoly
  import opened Hensel
  import opened Bezout
  import opened Lifting
  import opened LiftTree
  import opened Subsets

  /** f is a multiple of d modulo m. */
  ghost predicate DividesMod(d: seq<int>, f: seq<int>, m: int)
    requires m > 0
  {
    exists k: seq<int> :: Cong(f, Mul(d, k), m)
  }

  /** A polynomial of positive degree that modulo p is no product of two such polynomials. */
  ghost predicate IrreducibleMod(u: seq<int>, p: int)
    requires p > 0
  {
    && |Mod(u, p)| >= 2
    && forall a: seq<int>, b: seq<int> :: Cong(u, Mul(a, b), p) ==> |Mod(a, p)| == 1 || |Mod(b, p)| == 1
  }

  // ---- congruences as integer equations at every x ----

  lemma CongWitness(f: seq<int>, g: seq<int>, m: int) returns (k: seq<int>)
    requires m > 0 && Cong(f, g, m)
    ensures forall x: int :: Eval(f, x) == Eval(g, x) + Times(m, Eval(k, x))
  {
    hide Cong, Multiple, Sub;
    CongDifference(f, g, m);
    k := MultipleEval(Sub(f, g), m);
    forall x: int ensures Eval(f, x) == Eval(g, x) + Times(m, Eval(k, x)) {
      EvalSub(f, g, x);
      assert Eval(Sub(f, g), x) == m * Eval(k, x);
    }
  }

  lemma CongFrom(f: seq<int>, g: seq<int>, k: seq<int>, m: int)
    requires m > 0 && forall x: int :: Eval(f, x) == Eval(g, x) + Times(m, Eval(k, x))
    ensures Cong(f, g, m)
  {
    hide Cong, Multiple, Sub;
    forall x: int ensures Eval(Sub(f, g), x) == m * Eval(k, x) {
      EvalSub(f, g, x);
      assert Eval(f, x) == Eval(g, x) + Times(m, Eval(k, x));
    }
    MultipleFromEval(Sub(f, g), k, m);
    CongDifference(f, g, m);
  }

  // ---- division by a polynomial modulo p ----

  lemma ShorterWithout(f: seq<int>, n: nat, p: int)
    requires p > 0 && |f| <= n + 1 && Coef(f, n) % p == 0
    ensures |Mod(f, p)| <= n
  {
    ModCoef(f, p, n);
    assert Coef(Mod(f, p), n) == 0;
  }

  lemma TopRemoved(a: seq<int>, b: seq<int>, c: int, p: int)
    requires p > 0 && b != [] && |b| <= |a| && (c * Lead(b) - Lead(a)) % p == 0
    ensures |Mod(Sub(a, Shift(Scale(c, b), |a| - |b|)), p)| < |a|
  {
    var row := Shift(Scale(c, b), |a| - |b|);
    var n := |a| - 1;
    ShiftCoef(b, c, |a| - |b|, n);
    SumCoef(a, row, n);
    ModSum(0, c * Lead(b) - Lead(a), p);
    assert |Sub(a, row)| <= |a|;
    assert Coef(Sub(a, row), n) == 0 - (c * Lead(b) - Lead(a));
    hide Mod, Sub, Shift, Scale, Lead;
    ShorterWithout(Sub(a, row), n, p);
  }

  lemma UnitOf(c: int, m: int) returns (u: int)
    requires m > 0 && Coprime(c, m)
    ensures (u * c - 1) % m == 0
  {
    var s, t :| Combination(c, m, s, t) == 1;
    MultipleIs(s * c - 1, m, -t);
    u := s;
  }

  lemma ScaledUnit(u: int, b: int, a: int, p: int)
    requires p > 0 && (u * b - 1) % p == 0
    ensures ((a * u) * b - a) % p == 0
  {
    ModScale(u * b - 1, a, p);
    assert (u * b - 1) * a == (a * u) * b - a;
  }

  lemma RowAt(b: seq<int>, c: int, i: nat, x: int)
    ensures Eval(Shift(Scale(c, b), i), x) == Times(Eval(Shift([c], i), x), Eval(b, x))
  {
    EvalConstant(c, x);
    hide Eval, Shift, Scale;
    EvalShift([c], i, x);
    EvalShift(Scale(c, b), i, x);
    EvalScale(c, b, x);
    Associate(Pow(x, i), c, Eval(b, x));
  }

  lemma QuotientIdentity(a: int, t: int, b: int, q: int, r: int, rest: int, p: int, k1: int, k2: int, sum: int, k: int)
    requires rest == a - Times(t, b) + Times(p, k1) && rest == Times(q, b) + r + Times(p, k2)
    requires sum == q + t && k == k2 - k1
    ensures a == Times(sum, b) + r + Times(p, k)
  {
    assert sum * b == q * b + t * b;
    assert p * k == p * k2 - p * k1;
  }

  lemma QuotientAt(a: seq<int>, b: seq<int>, c: int, i: nat, q: seq<int>, r: seq<int>, p: int, rest: seq<int>,
                   k1: seq<int>, k2: seq<int>, x: int)
    requires Eval(rest, x) == Eval(Sub(a, Shift(Scale(c, b), i)), x) + Times(p, Eval(k1, x))
    requires Eval(rest, x) == Eval(Add(Mul(q, b), r), x) + Times(p, Eval(k2, x))
    ensures Eval(a, x) == Eval(Add(Mul(Add(q, Shift([c], i)), b), r), x) + Times(p, Eval(Sub(k2, k1), x))
  {
    hide *;
    var row, sum := Shift(Scale(c, b), i), Add(q, Shift([c], i));
    EvalSub(a, row, x);
    RowAt(b, c, i, x);
    EvalSub(k2, k1, x);
    EvalAdd(Mul(q, b), r, x);
    EvalTimes(q, b, x);
    EvalAdd(Mul(sum, b), r, x);
    EvalTimes(sum, b, x);
    EvalAdd(q, Shift([c], i), x);
    QuotientIdentity(Eval(a, x), Eval(Shift([c], i), x), Eval(b, x), Eval(q, x), Eval(r, x), Eval(rest, x), p,
                     Eval(k1, x), Eval(k2, x), Eval(sum, x), Eval(Sub(k2, k1), x));
  }

  lemma QuotientStep(a: seq<int>, b: seq<int>, c: int, i: nat, q: seq<int>, r: seq<int>, p: int)
    requires p > 0 && Cong(Mod(Sub(a, Shift(Scale(c, b), i)), p), Add(Mul(q, b), r), p)
    ensures Cong(a, Add(Mul(Add(q, Shift([c], i)), b), r), p)
  {
    var row, sum := Shift(Scale(c, b), i), Add(q, Shift([c], i));
    var rest := Mod(Sub(a, row), p);
    hide Cong, Mod, Mul, Add, Sub, Shift, Scale;
    ModCong(Sub(a, row), p);
    var k1 := CongWitness(rest, Sub(a, row), p);
    var k2 := CongWitness(rest, Add(Mul(q, b), r), p);
    forall x: int ensures Eval(a, x) == Eval(Add(Mul(sum, b), r), x) + Times(p, Eval(Sub(k2, k1), x)) {
      assert Eval(rest, x) == Eval(Sub(a, row), x) + Times(p, Eval(k1, x));
      assert Eval(rest, x) == Eval(Add(Mul(q, b), r), x) + Times(p, Eval(k2, x));
      QuotientAt(a, b, c, i, q, r, p, rest, k1, k2, x);
    }
    CongFrom(a, Add(Mul(sum, b), r), Sub(k2, k1), p);
  }

  lemma QuotientZero(a: seq<int>, b: seq<int>, p: int)
    requires p > 0
    ensures Cong(a, Add(Mul([], b), a), p)
  {
    assert Mul([], b) == [];
    forall x: int ensures Eval(a, x) == Eval(Add(Mul([], b), a), x) { EvalAdd([], a, x); }
    CongSame(a, Add(Mul([], b), a), p);
  }

  /** Division with a shorter remainder by any polynomial whose leading coefficient p does not divide. */
  lemma {:induction false} DivideMod(a: seq<int>, b: seq<int>, p: int) returns (q: seq<int>, r: seq<int>)
    requires Prime(p) && b != [] && Lead(b) % p != 0 && Residues(a, p)
    ensures Residues(r, p) && |r| < |b| && Cong(a, Add(Mul(q, b), r), p)
    decreases |a|
  {
    hide Cong, Mul, Add, Sub, Shift, Scale, Coprime;
    if |a| < |b| {
      QuotientZero(a, b, p);
      return [], a;
    }
    PrimeCoprime(Lead(b), p);
    var u := UnitOf(Lead(b), p);
    var c, i := Lead(a) * u, |a| - |b|;
    ScaledUnit(u, Lead(b), Lead(a), p);
    TopRemoved(a, b, c, p);
    var q', r' := DivideMod(Mod(Sub(a, Shift(Scale(c, b), i)), p), b, p);
    QuotientStep(a, b, c, i, q', r', p);
    return Add(q', Shift([c], i)), r';
  }

  // ---- coprimality ----

  lemma ThroughIdentity(s: int, u: int, t: int, r: int, c: int, d: int, a: int, m: int, k1: int, k2: int, v: int, td: int, k: int)
    requires Times(s, u) + Times(t, r) == 1 + Times(m, k1) && r == Times(c, u) + Times(d, a) + Times(m, k2)
    requires v == s + Times(t, c) && td == Times(t, d) && k == k1 - Times(t, k2)
    ensures Times(v, u) + Times(td, a) == 1 + Times(m, k)
  {
    assert t * r == t * (c * u) + t * (d * a) + t * (m * k2);
    assert t * (c * u) == (t * c) * u && t * (d * a) == (t * d) * a && t * (m * k2) == m * (t * k2);
    assert v * u == s * u + (t * c) * u;
    assert m * k == m * k1 - m * (t * k2);
  }

  lemma ThroughAt(u: seq<int>, r: seq<int>, c: seq<int>, d: seq<int>, a: seq<int>, m: int, s: seq<int>, t: seq<int>,
                  k1: seq<int>, k2: seq<int>, x: int)
    requires Eval(Combine(s, u, t, r), x) == Eval([1], x) + Times(m, Eval(k1, x))
    requires Eval(r, x) == Eval(Combine(c, u, d, a), x) + Times(m, Eval(k2, x))
    ensures Eval(Combine(Add(s, Mul(t, c)), u, Mul(t, d), a), x) == Eval([1], x) + Times(m, Eval(Sub(k1, Mul(t, k2)), x))
  {
    hide *;
    EvalOne(x);
    var v := Add(s, Mul(t, c));
    EvalCombineTimes(s, u, t, r, x);
    EvalCombineTimes(c, u, d, a, x);
    EvalCombineTimes(v, u, Mul(t, d), a, x);
    EvalAdd(s, Mul(t, c), x);
    EvalTimes(t, c, x);
    EvalTimes(t, d, x);
    EvalTimes(t, k2, x);
    EvalSub(k1, Mul(t, k2), x);
    ThroughIdentity(Eval(s, x), Eval(u, x), Eval(t, x), Eval(r, x), Eval(c, x), Eval(d, x), Eval(a, x), m,
                    Eval(k1, x), Eval(k2, x), Eval(v, x), Eval(Mul(t, d), x), Eval(Sub(k1, Mul(t, k2)), x));
  }

  /** u is coprime to a when it is coprime to a combination of u and a. */
  lemma CoprimeThrough(u: seq<int>, r: seq<int>, c: seq<int>, d: seq<int>, a: seq<int>, m: int)
    requires m > 0 && CoprimePoly(u, r, m) && Cong(r, Combine(c, u, d, a), m)
    ensures CoprimePoly(u, a, m)
  {
    var s, t :| BezoutFor(u, r, s, t, m);
    var v := Add(s, Mul(t, c));
    hide Cong, Combine, Mul, Add, Sub, BezoutFor;
    CombineIsBezout(u, r, s, t, m);
    var k1 := CongWitness(Combine(s, u, t, r), [1], m);
    var k2 := CongWitness(r, Combine(c, u, d, a), m);
    var k := Sub(k1, Mul(t, k2));
    forall x: int ensures Eval(Combine(v, u, Mul(t, d), a), x) == Eval([1], x) + Times(m, Eval(k, x)) {
      assert Eval(Combine(s, u, t, r), x) == Eval([1], x) + Times(m, Eval(k1, x));
      assert Eval(r, x) == Eval(Combine(c, u, d, a), x) + Times(m, Eval(k2, x));
      ThroughAt(u, r, c, d, a, m, s, t, k1, k2, x);
    }
    CongFrom(Combine(v, u, Mul(t, d), a), [1], k, m);
    CombineIsBezout(u, a, v, Mul(t, d), m);
    assert BezoutFor(u, a, v, Mul(t, d), m);
  }

  lemma CancelIdentity(s: int, u: int, t: int, a: int, b: int, k: int, m: int, k1: int, k2: int, v: int, w: int)
    requires Times(s, u) + Times(t, a) == 1 + Times(m, k1) && Times(a, b) == Times(u, k) + Times(m, k2)
    requires v == Times(s, b) + Times(t, k) && w == Times(t, k2) - Times(b, k1)
    ensures b == Times(u, v) + Times(m, w)
  {
    assert (s * u + t * a) * b == b + m * (b * k1);
    assert (s * u + t * a) * b == u * (s * b) + t * (a * b);
    assert t * (a * b) == u * (t * k) + m * (t * k2);
    assert u * v == u * (s * b) + u * (t * k);
    assert m * w == m * (t * k2) - m * (b * k1);
  }

  lemma CancelsAt(u: seq<int>, a: seq<int>, b: seq<int>, k: seq<int>, m: int, s: seq<int>, t: seq<int>,
                  k1: seq<int>, k2: seq<int>, x: int)
    requires Eval(Combine(s, u, t, a), x) == Eval([1], x) + Times(m, Eval(k1, x))
    requires Eval(Mul(a, b), x) == Eval(Mul(u, k), x) + Times(m, Eval(k2, x))
    ensures Eval(b, x) == Eval(Mul(u, Combine(s, b, t, k)), x) + Times(m, Eval(Sub(Mul(t, k2), Mul(b, k1)), x))
  {
    hide *;
    EvalOne(x);
    var v, w := Combine(s, b, t, k), Sub(Mul(t, k2), Mul(b, k1));
    EvalCombineTimes(s, u, t, a, x);
    EvalCombineTimes(s, b, t, k, x);
    EvalTimes(a, b, x);
    EvalTimes(u, k, x);
    EvalTimes(u, v, x);
    EvalTimes(t, k2, x);
    EvalTimes(b, k1, x);
    EvalSub(Mul(t, k2), Mul(b, k1), x);
    CancelIdentity(Eval(s, x), Eval(u, x), Eval(t, x), Eval(a, x), Eval(b, x), Eval(k, x), m,
                   Eval(k1, x), Eval(k2, x), Eval(v, x), Eval(w, x));
  }

  /** A divisor of a product that is coprime to one factor divides the other. */
  lemma CoprimeCancels(u: seq<int>, a: seq<int>, b: seq<int>, k: seq<int>, m: int) returns (v: seq<int>)
    requires m > 0 && CoprimePoly(u, a, m) && Cong(Mul(a, b), Mul(u, k), m)
    ensures Cong(b, Mul(u, v), m)
  {
    var s, t :| BezoutFor(u, a, s, t, m);
    hide Cong, Combine, Mul, Add, Sub, BezoutFor;
    CombineIsBezout(u, a, s, t, m);
    v := Combine(s, b, t, k);
    var k1 := CongWitness(Combine(s, u, t, a), [1], m);
    var k2 := CongWitness(Mul(a, b), Mul(u, k), m);
    var w := Sub(Mul(t, k2), Mul(b, k1));
    forall x: int ensures Eval(b, x) == Eval(Mul(u, v), x) + Times(m, Eval(w, x)) {
      assert Eval(Combine(s, u, t, a), x) == Eval([1], x) + Times(m, Eval(k1, x));
      assert Eval(Mul(a, b), x) == Eval(Mul(u, k), x) + Times(m, Eval(k2, x));
      CancelsAt(u, a, b, k, m, s, t, k1, k2, x);
    }
    CongFrom(b, Mul(u, v), w, m);
  }

  /** A nonzero remainder of an irreducible polynomial is coprime to it. */
  lemma {:induction false} CoprimeRemainder(u: seq<int>, r: seq<int>, p: int)
    requires Prime(p) && IrreducibleMod(u, p) && Residues(u, p) && Residues(r, p) && 0 < |r| < |u|
    ensures CoprimePoly(u, r, p)
    decreases |r|
  {
    hide Cong, CoprimePoly, Mul, Add, Combine, IrreducibleMod;
    NonzeroResidue(Lead(r), p);
    var q, r2 := DivideMod(u, r, p);
    if r2 == [] {
      ExactRemainder(u, r, q, p);
      PrimeCoprime(r[0], p);
      assert r == [r[0]];
      CoprimeUnit(r[0], u, p);
      CoprimeSym(r, u, p);
    } else {
      CoprimeRemainder(u, r2, p);
      RemainderIs(u, r, q, r2, p);
      CoprimeThrough(u, r2, [1], Sub([], q), r, p);
    }
  }

  lemma ExactRemainder(u: seq<int>, r: seq<int>, q: seq<int>, p: int)
    requires Prime(p) && IrreducibleMod(u, p) && Residues(u, p) && Residues(r, p) && 0 < |r| < |u|
    requires Cong(u, Add(Mul(q, r), []), p)
    ensures |r| == 1
  {
    hide Cong, Mul, Add;
    forall x: int ensures Eval(Add(Mul(q, r), []), x) == Eval(Mul(q, r), x) { EvalAdd(Mul(q, r), [], x); }
    CongSame(Add(Mul(q, r), []), Mul(q, r), p);
    CongTrans(u, Add(Mul(q, r), []), Mul(q, r), p);
    CongRefl(r, p);
    ModUnique(r, r, p);
    if |Mod(q, p)| == 1 {
      ConstantTimes(u, q, r, p);
    }
  }

  /** A product with a constant modulo p is no longer than its other factor. */
  lemma ConstantTimes(u: seq<int>, q: seq<int>, r: seq<int>, p: int)
    requires p > 0 && Residues(u, p) && |Mod(q, p)| == 1 && Cong(u, Mul(q, r), p)
    ensures |u| <= |r|
  {
    assert |Mul(Mod(q, p), r)| <= |r| by { MulLength(Mod(q, p), r); }
    hide Cong, Mul, Mod;
    ModCong(q, p);
    CongRefl(r, p);
    CongMul(Mod(q, p), r, q, r, p);
    CongSym(Mul(Mod(q, p), r), Mul(q, r), p);
    CongTrans(u, Mul(q, r), Mul(Mod(q, p), r), p);
    ModUnique(u, Mul(Mod(q, p), r), p);
  }

  lemma RemainderIdentity(u: int, q: int, r: int, r2: int, m: int, k: int, q': int, k': int)
    requires u == Times(q, r) + r2 + Times(m, k) && q' == -q && k' == -k
    ensures r2 == Times(1, u) + Times(q', r) + Times(m, k')
  {
    assert q' * r == -(q * r) && m * k' == -(m * k);
  }

  lemma RemainderIs(u: seq<int>, r: seq<int>, q: seq<int>, r2: seq<int>, m: int)
    requires m > 0 && Cong(u, Add(Mul(q, r), r2), m)
    ensures Cong(r2, Combine([1], u, Sub([], q), r), m)
  {
    hide Cong, Combine, Mul, Add, Sub;
    var k := CongWitness(u, Add(Mul(q, r), r2), m);
    forall x: int ensures Eval(r2, x) == Eval(Combine([1], u, Sub([], q), r), x) + Times(m, Eval(Sub([], k), x)) {
      assert Eval(u, x) == Eval(Add(Mul(q, r), r2), x) + Times(m, Eval(k, x));
      EvalOne(x);
      assert Eval([], x) == 0;
      hide *;
      EvalCombineTimes([1], u, Sub([], q), r, x);
      EvalSub([], q, x);
      EvalSub([], k, x);
      EvalAdd(Mul(q, r), r2, x);
      EvalTimes(q, r, x);
      RemainderIdentity(Eval(u, x), Eval(q, x), Eval(r, x), Eval(r2, x), m, Eval(k, x), Eval(Sub([], q), x), Eval(Sub([], k), x));
    }
    CongFrom(r2, Combine([1], u, Sub([], q), r), Sub([], k), m);
  }

  /** An irreducible monic polynomial that divides a product modulo p divides one of its factors. */
  lemma PrimeElement(u: seq<int>, a: seq<int>, b: seq<int>, k: seq<int>, p: int)
    requires Prime(p) && IrreducibleMod(u, p) && Monic(u) && Residues(u, p) && Cong(Mul(a, b), Mul(u, k), p)
    ensures DividesMod(u, a, p) || DividesMod(u, b, p)
  {
    hide Cong, Mul, Add, Combine, CoprimePoly, Mod, IrreducibleMod;
    NonzeroResidue(1, p);
    var q, r := DivideMod(Mod(a, p), u, p);
    ModCong(a, p);
    CongSym(Mod(a, p), a, p);
    CongTrans(a, Mod(a, p), Add(Mul(q, u), r), p);
    if r == [] {
      forall x: int ensures Eval(Add(Mul(q, u), []), x) == Eval(Mul(u, q), x) {
        EvalAdd(Mul(q, u), [], x);
        EvalMul(q, u, x);
        EvalMul(u, q, x);
      }
      CongSame(Add(Mul(q, u), []), Mul(u, q), p);
      CongTrans(a, Add(Mul(q, u), []), Mul(u, q), p);
      assert DividesMod(u, a, p);
    } else {
      CoprimeRemainder(u, r, p);
      DivisorCombination(u, a, q, r, p);
      CoprimeThrough(u, r, Sub([], q), [1], a, p);
      var v := CoprimeCancels(u, a, b, k, p);
      assert DividesMod(u, b, p);
    }
  }

  lemma IrreducibleCong(u: seq<int>, v: seq<int>, p: int)
    requires p > 0 && IrreducibleMod(u, p) && Cong(u, v, p)
    ensures IrreducibleMod(v, p)
  {
    hide Cong, Mul, Mod;
    ModCong(u, p);
    CongTrans(Mod(u, p), u, v, p);
    ModUnique(Mod(u, p), v, p);
    forall a: seq<int>, b: seq<int> | Cong(v, Mul(a, b), p) ensures |Mod(a, p)| == 1 || |Mod(b, p)| == 1 {
      CongTrans(u, v, Mul(a, b), p);
    }
  }

  lemma DividesCong(u: seq<int>, v: seq<int>, f: seq<int>, m: int)
    requires m > 0 && Cong(u, v, m) && DividesMod(u, f, m)
    ensures DividesMod(v, f, m)
  {
    hide Cong, Mul;
    var k :| Cong(f, Mul(u, k), m);
    CongRefl(k, m);
    CongMul(u, k, v, k, m);
    CongTrans(f, Mul(u, k), Mul(v, k), m);
  }

  /** The same for a monic polynomial that need not be reduced. */
  lemma PrimeDivisorOf(u: seq<int>, a: seq<int>, b: seq<int>, k: seq<int>, p: int)
    requires Prime(p) && IrreducibleMod(u, p) && Monic(u) && Cong(Mul(a, b), Mul(u, k), p)
    ensures DividesMod(u, a, p) || DividesMod(u, b, p)
  {
    var v := Mod(u, p);
    MonicMod(u, p);
    hide Cong, Mul, Mod, IrreducibleMod, DividesMod;
    ModCong(u, p);
    CongSym(v, u, p);
    IrreducibleCong(u, v, p);
    CongRefl(k, p);
    CongMul(u, k, v, k, p);
    CongTrans(Mul(a, b), Mul(u, k), Mul(v, k), p);
    PrimeElement(v, a, b, k, p);
    if DividesMod(v, a, p) { DividesCong(v, u, a, p); } else { DividesCong(v, u, b, p); }
  }

  lemma DivisorCombination(u: seq<int>, a: seq<int>, q: seq<int>, r: seq<int>, m: int)
    requires m > 0 && Cong(a, Add(Mul(q, u), r), m)
    ensures Cong(r, Combine(Sub([], q), u, [1], a), m)
  {
    hide Cong, Combine, Mul, Add, Sub;
    RemainderIs(a, u, q, r, m);
    forall x: int ensures Eval(Combine([1], a, Sub([], q), u), x) == Eval(Combine(Sub([], q), u, [1], a), x) {
      EvalCombine([1], a, Sub([], q), u, x);
      EvalCombine(Sub([], q), u, [1], a, x);
    }
    CongSame(Combine([1], a, Sub([], q), u), Combine(Sub([], q), u, [1], a), m);
    CongTrans(r, Combine([1], a, Sub([], q), u), Combine(Sub([], q), u, [1], a), m);
  }

  lemma DifferenceIdentity(u: int, a: int, b: int, d: int)
    requires d == a - b
    ensures Times(d, u) == Times(u, a) - Times(u, b)
  {}

  /** A monic factor can be cancelled modulo m. */
  lemma CancelMonic(u: seq<int>, a: seq<int>, b: seq<int>, m: int)
    requires m > 0 && Monic(u) && Cong(Mul(u, a), Mul(u, b), m)
    ensures Cong(a, b, m)
  {
    var k := CongWitness(Mul(u, a), Mul(u, b), m);
    var d := Sub(a, b);
    forall x: int ensures Eval(Add(Mul(d, u), []), x) == m * Eval(k, x) {
      assert Eval(Mul(u, a), x) == Eval(Mul(u, b), x) + m * Eval(k, x);
      assert Eval([], x) == 0;
      hide *;
      EvalAdd(Mul(d, u), [], x);
      EvalTimes(d, u, x);
      EvalSub(a, b, x);
      EvalTimes(u, a, x);
      EvalTimes(u, b, x);
      DifferenceIdentity(Eval(u, x), Eval(a, x), Eval(b, x), Eval(d, x));
    }
    hide Cong, Multiple, Mul, Add, Sub;
    MultipleFromEval(Add(Mul(d, u), []), k, m);
    MonicDivision(d, u, [], m);
    CongDifference(a, b, m);
  }

  /** A constant coprime to m can be cancelled modulo m. */
  lemma CancelCoprime(c: int, a: seq<int>, b: seq<int>, m: int)
    requires m > 1 && Coprime(c, m) && Cong(Mul([c], a), Mul([c], b), m)
    ensures Cong(a, b, m)
  {
    hide Cong, Mul;
    var u := UnitOf(c, m);
    CancelUnit(c, u, a, b, m);
  }

  // ---- sharing out a product of irreducible factors ----

  /** The entries at the given positions. */
  function Pick(pool: seq<seq<int>>, s: seq<int>): (r: seq<seq<int>>)
    requires IndexSubset(s, |pool|)
    ensures |r| == |s| && forall k :: 0 <= k < |s| ==> r[k] == pool[s[k]]
  {
    seq(|s|, k requires 0 <= k < |s| => pool[s[k]])
  }

  /** The entries left when those at the given positions are taken out. */
  function Others(pool: seq<seq<int>>, s: seq<int>): (r: seq<seq<int>>)
    requires IndexSubset(s, |pool|)
  {
    LeftExactly(|pool|, s);
    Pick(pool, Left(|pool|, s))
  }

  /** Monic factors, irreducible modulo p and pairwise coprime modulo p. */
  ghost predicate PrimePool(pool: seq<seq<int>>, p: int)
    requires p > 0
  {
    && (forall i :: 0 <= i < |pool| ==> Monic(pool[i]) && |pool[i]| >= 2 && IrreducibleMod(pool[i], p))
    && PairwiseCoprime(pool, p)
  }

  lemma PickInit(pool: seq<seq<int>>, s: seq<int>)
    requires pool != [] && IndexSubset(s, |pool| - 1)
    ensures var n := |pool| - 1; IndexSubset(s + [n], n + 1) && IndexSubset(s, n + 1)
    ensures Pick(pool, s) == Pick(pool[..|pool| - 1], s)
    ensures Pick(pool, s + [|pool| - 1]) == Pick(pool[..|pool| - 1], s) + [pool[|pool| - 1]]
  {}

  lemma OthersInit(pool: seq<seq<int>>, s: seq<int>)
    requires pool != [] && IndexSubset(s, |pool| - 1)
    ensures var n := |pool| - 1; IndexSubset(s + [n], n + 1) && IndexSubset(s, n + 1)
    ensures Others(pool, s) == Others(pool[..|pool| - 1], s) + [pool[|pool| - 1]]
    ensures Others(pool, s + [|pool| - 1]) == Others(pool[..|pool| - 1], s)
  {
    var n := |pool| - 1;
    PickInit(pool, s);
    LeftExactly(n, s);
    LeftSame(n, s, s + [n]);
    PickInit(pool, Left(n, s));
  }

  /** A product splits into the chosen factors and the others. */
  lemma {:induction false} PickSplit(pool: seq<seq<int>>, s: seq<int>)
    requires IndexSubset(s, |pool|) && forall i :: 0 <= i < |pool| ==> Monic(pool[i])
    ensures Mul(Product(Pick(pool, s)), Product(Others(pool, s))) == Product(pool)
    decreases |pool|
  {
    hide Mul, Product, Left, Pick;
    if pool == [] {
      ProductEmpty();
      AtMostAll(s, 0);
      LeftCount(0, s);
      assert Pick(pool, s) == [] && Others(pool, s) == [];
    } else {
      var n := |pool| - 1;
      var init, u := pool[..n], pool[n];
      assert pool == init + [u];
      ProductSnoc(init, u);
      WithoutTop(s, |pool|);
      var s' := if n in s then s[..|s| - 1] else s;
      PickSplit(init, s');
      PickInit(pool, s');
      OthersInit(pool, s');
      var a, b := Product(Pick(init, s')), Product(Others(init, s'));
      if n in s {
        ProductSnoc(Pick(init, s'), u);
        SwapLast(a, u, b);
      } else {
        ProductSnoc(Others(init, s'), u);
        MulAssociates(a, b, u);
      }
    }
  }

  lemma ProductEmpty()
    ensures Product([]) == [1] && Mul(Product([]), Product([])) == Product([])
  {
    MulOne([1]);
  }

  lemma SwapLast(a: seq<int>, u: seq<int>, b: seq<int>)
    ensures Mul(Mul(a, u), b) == Mul(Mul(a, b), u)
  {
    MulAssociates(a, u, b);
    MulCommutes(u, b);
    MulAssociates(a, b, u);
  }

  /** A polynomial congruent to a constant times the product of the factors. */
  ghost predicate MultipleOf(f: seq<int>, c: int, fs: seq<seq<int>>, m: int)
    requires m > 0
  {
    Cong(f, Mul([c], Product(fs)), m)
  }

  lemma UnitProduct(a: seq<int>, b: seq<int>, c: int, p: int)
    requires Prime(p) && c % p != 0 && Cong(Mul(a, b), [c], p)
    ensures exists d: int :: Cong(a, [d], p)
  {
    hide Cong, Mul, Mod, Coprime;
    PrimeCoprime(c, p);
    var u := UnitOf(c, p);
    ModCong(a, p);
    assert Cong(Mul(Mul([u], b), Mod(a, p)), [1], p) by {
      CongRefl([u], p);
      CongMul([u], Mul(a, b), [u], [c], p);
      CancelOne(c, u, [1], p);
      assert c != 0;
      MulOne([c]);
      CongTrans(Mul([u], Mul(a, b)), Mul([u], [c]), [1], p);
      MulCommutes(a, b);
      MulAssociates([u], b, a);
      CongRefl(Mul([u], b), p);
      CongMul(Mul([u], b), Mod(a, p), Mul([u], b), a, p);
      CongTrans(Mul(Mul([u], b), Mod(a, p)), Mul(Mul([u], b), a), [1], p);
    }
    UnitIsConstant(Mul([u], b), Mod(a, p), p);
    CongSym(Mod(a, p), a, p);
    assert Mod(a, p) == [Mod(a, p)[0]];
    assert Cong(a, [Mod(a, p)[0]], p);
  }

  /** One irreducible factor taken out of the factor a of a product that it divides. */
  lemma TakeOut(u: seq<int>, a: seq<int>, a': seq<int>, b: seq<int>, k: seq<int>, m: int)
    requires m > 0 && Monic(u) && Cong(a, Mul(u, a'), m) && Cong(Mul(a, b), Mul(u, k), m)
    ensures Cong(Mul(a', b), k, m)
  {
    hide Cong, Mul;
    CongRefl(b, m);
    CongMul(a, b, Mul(u, a'), b, m);
    CongSym(Mul(a, b), Mul(Mul(u, a'), b), m);
    MulAssociates(u, a', b);
    CongTrans(Mul(u, Mul(a', b)), Mul(a, b), Mul(u, k), m);
    CancelMonic(u, Mul(a', b), k, m);
  }

  lemma PutBack(u: seq<int>, f: seq<int>, f': seq<int>, c: int, fs: seq<seq<int>>, m: int)
    requires m > 0 && Trimmed(u) && Cong(f, Mul(u, f'), m) && MultipleOf(f', c, fs, m)
    ensures MultipleOf(f, c, fs + [u], m)
  {
    hide Cong, Mul, Product;
    CongRefl(u, m);
    CongMul(u, f', u, Mul([c], Product(fs)), m);
    CongTrans(f, Mul(u, f'), Mul(u, Mul([c], Product(fs))), m);
    MulCommutes(u, Mul([c], Product(fs)));
    MulAssociates([c], Product(fs), u);
    ProductSnoc(fs, u);
  }

  lemma LastFactor(c: int, init: seq<seq<int>>, u: seq<int>)
    requires Trimmed(u)
    ensures Mul([c], Product(init + [u])) == Mul(u, Mul([c], Product(init)))
  {
    hide Mul, Product;
    ProductSnoc(init, u);
    MulAssociates([c], Product(init), u);
    MulCommutes(Mul([c], Product(init)), u);
  }

  /** a and b share out the factors of the pool: a has those at the positions s, b has the others. */
  ghost predicate SharedOut(a: seq<int>, b: seq<int>, pool: seq<seq<int>>, s: seq<int>, p: int)
    requires p > 0
  {
    && IndexSubset(s, |pool|)
    && (exists c: int :: MultipleOf(a, c, Pick(pool, s), p))
    && (exists c: int :: MultipleOf(b, c, Others(pool, s), p))
  }

  lemma SharedMore(u: seq<int>, a: seq<int>, a': seq<int>, b: seq<int>, pool: seq<seq<int>>, s: seq<int>, p: int)
    requires p > 0 && pool != [] && u == pool[|pool| - 1] && Trimmed(u) && Cong(a, Mul(u, a'), p)
    requires SharedOut(a', b, pool[..|pool| - 1], s, p)
    ensures SharedOut(a, b, pool, s + [|pool| - 1], p)
  {
    var n := |pool| - 1;
    var c: int :| MultipleOf(a', c, Pick(pool[..n], s), p);
    var d: int :| MultipleOf(b, d, Others(pool[..n], s), p);
    hide MultipleOf, Cong, Pick, Left;
    PutBack(u, a, a', c, Pick(pool[..n], s), p);
    PickInit(pool, s);
    OthersInit(pool, s);
    assert MultipleOf(a, c, Pick(pool, s + [n]), p);
    assert MultipleOf(b, d, Others(pool, s + [n]), p);
  }

  lemma SharedOther(u: seq<int>, a: seq<int>, b: seq<int>, b': seq<int>, pool: seq<seq<int>>, s: seq<int>, p: int)
    requires p > 0 && pool != [] && u == pool[|pool| - 1] && Trimmed(u) && Cong(b, Mul(u, b'), p)
    requires SharedOut(a, b', pool[..|pool| - 1], s, p)
    ensures SharedOut(a, b, pool, s, p)
  {
    var n := |pool| - 1;
    var c: int :| MultipleOf(a, c, Pick(pool[..n], s), p);
    var d: int :| MultipleOf(b', d, Others(pool[..n], s), p);
    hide MultipleOf, Cong, Pick, Left;
    PutBack(u, b, b', d, Others(pool[..n], s), p);
    PickInit(pool, s);
    OthersInit(pool, s);
    assert MultipleOf(a, c, Pick(pool, s), p);
    assert MultipleOf(b, d, Others(pool, s), p);
  }

  lemma SharedNone(a: seq<int>, b: seq<int>, c: int, p: int)
    requires Prime(p) && c % p != 0 && Cong(Mul(a, b), Mul([c], Product([])), p)
    ensures SharedOut(a, b, [], [], p)
  {
    hide Cong, Mul;
    MulOne([c]);
    UnitProduct(a, b, c, p);
    MulCommutes(a, b);
    UnitProduct(b, a, c, p);
    var d: int :| Cong(a, [d], p);
    var e: int :| Cong(b, [e], p);
    assert Pick([], []) == [] && Others([], []) == [];
    ConstantOf(a, d, p);
    ConstantOf(b, e, p);
  }

  lemma ConstantOf(a: seq<int>, d: int, p: int)
    requires p > 0 && Cong(a, [d], p)
    ensures MultipleOf(a, d, [], p)
  {
    forall x: int ensures Eval([d], x) == Eval(Mul([d], [1]), x) {
      EvalOne(x);
      hide *;
      EvalMul([d], [1], x);
    }
    hide Cong, Mul;
    CongSame([d], Mul([d], [1]), p);
    CongTrans(a, [d], Mul([d], [1]), p);
  }

  /** Two polynomials whose product is, modulo p, a unit times a product of irreducible factors share the
      factors out between them. */
  lemma {:induction false} ShareOut(a: seq<int>, b: seq<int>, c: int, pool: seq<seq<int>>, p: int) returns (s: seq<int>)
    requires Prime(p) && c % p != 0 && PrimePool(pool, p) && MultipleOf(Mul(a, b), c, pool, p)
    ensures SharedOut(a, b, pool, s, p)
    decreases |pool|
  {
    hide Cong, Mul, Product, IrreducibleMod, CoprimePoly, SharedOut, DividesMod;
    if pool == [] {
      SharedNone(a, b, c, p);
      return [];
    }
    var n := |pool| - 1;
    var init, u := pool[..n], pool[n];
    assert pool == init + [u];
    assert PrimePool(init, p);
    LastFactor(c, init, u);
    var k := Mul([c], Product(init));
    PrimeDivisorOf(u, a, b, k, p);
    if DividesMod(u, a, p) {
      var a' := QuotientMod(u, a, p);
      TakeOut(u, a, a', b, k, p);
      s := ShareOut(a', b, c, init, p);
      SharedMore(u, a, a', b, pool, s, p);
      s := s + [n];
    } else {
      var b' := QuotientMod(u, b, p);
      MulCommutes(a, b);
      TakeOut(u, b, b', a, k, p);
      MulCommutes(b', a);
      s := ShareOut(a, b', c, init, p);
      SharedOther(u, a, b, b', pool, s, p);
    }
  }

  lemma QuotientMod(d: seq<int>, f: seq<int>, m: int) returns (k: seq<int>)
    requires m > 0 && DividesMod(d, f, m)
    ensures Cong(f, Mul(d, k), m)
  {
    k :| Cong(f, Mul(d, k), m);
  }
}
