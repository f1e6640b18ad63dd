/** Bezout coefficients in ℤ/p[x] by the extended Euclidean algorithm
    (`fpBezout`, packages/cas/src/factor.ts). */
module Bezout {
  import opened Options
  import opened Arith
  import opened DensePoly
  import opened Hensel

  /** `fpSub`. */
  function FpSub(a: seq<int>, b: seq<int>, p: int): (r: seq<int>)
    requires p > 0
    ensures Residues(r, p) && |r| <= Max(|a|, |b|)
  { Mod(RawSub(a, b), p) }

  lemma FpSubCong(a: seq<int>, b: seq<int>, p: int)
    requires p > 0
    ensures Cong(FpSub(a, b, p), Sub(a, b), p)
  {
    ModCong(RawSub(a, b), p);
    CoefCong(RawSub(a, b), Sub(a, b), p);
    CongTrans(FpSub(a, b, p), RawSub(a, b), Sub(a, b), p);
  }

  // ---- ℤ/p[x] is a domain ----

  lemma NonzeroResidue(c: int, p: int)
    requires 0 < c < p
    ensures c % p != 0
  {
    if c % p == 0 { SmallMultiple(c, p); }
  }

  /** Modulo a prime, the leading coefficient of a product of residues does not vanish. */
  lemma ProductLeadMod(a: seq<int>, b: seq<int>, p: int)
    requires Prime(p) && a != [] && b != [] && Residues(a, p) && Residues(b, p)
    ensures Coef(Mul(a, b), |a| + |b| - 2) % p != 0
  {
    MulLead(a, b);
    NonzeroResidue(Lead(a), p);
    NonzeroResidue(Lead(b), p);
    if (Lead(a) * Lead(b)) % p == 0 { EuclidLemma(p, Lead(a), Lead(b)); }
  }

  /** A residue polynomial with an inverse modulo p is a non-zero constant. */
  lemma UnitIsConstant(k: seq<int>, r: seq<int>, p: int)
    requires Prime(p) && Residues(r, p) && Cong(Mul(k, r), [1], p)
    ensures |r| == 1
  {
    var k' := Mod(k, p);
    assert Cong(Mul(k', r), [1], p) by {
      hide Cong;
      ModCong(k, p);
      CongRefl(r, p);
      CongMul(k', r, k, r, p);
      CongTrans(Mul(k', r), Mul(k, r), [1], p);
    }
    assert (Coef(Mul(k', r), 0) - Coef([1], 0)) % p == 0;
    NonzeroResidue(1, p);
    if k' == [] || r == [] {
      assert Coef(Mul(k', r), 0) == 0;
      ModSum(0, -1, p);
    } else {
      ProductLeadMod(k', r, p);
      var top := |k'| + |r| - 2;
      assert (Coef(Mul(k', r), top) - Coef([1], top)) % p == 0;
    }
  }

  // ---- the loop ----

  /** s·a + t·b. */
  function Combine(s: seq<int>, a: seq<int>, t: seq<int>, b: seq<int>): seq<int> { Add(Mul(s, a), Mul(t, b)) }

  lemma EvalCombine(s: seq<int>, a: seq<int>, t: seq<int>, b: seq<int>, x: int)
    ensures Eval(Combine(s, a, t, b), x) == Eval(s, x) * Eval(a, x) + Eval(t, x) * Eval(b, x)
  {
    EvalAdd(Mul(s, a), Mul(t, b), x);
    EvalMul(s, a, x);
    EvalMul(t, b, x);
  }

  lemma CongCombine(s: seq<int>, a: seq<int>, t: seq<int>, b: seq<int>,
                    s': seq<int>, a': seq<int>, t': seq<int>, b': seq<int>, m: int)
    requires m > 0 && Cong(s, s', m) && Cong(a, a', m) && Cong(t, t', m) && Cong(b, b', m)
    ensures Cong(Combine(s, a, t, b), Combine(s', a', t', b'), m)
  {
    hide Cong, Mul, Add;
    CongMul(s, a, s', a', m);
    CongMul(t, b, t', b', m);
    CongAdd(Mul(s, a), Mul(t, b), Mul(s', a'), Mul(t', b'), m);
  }

  lemma SubtractExpanded(a: int, b: int, q: int, s0: int, s1: int, t0: int, t1: int)
    ensures (s0 - q * s1) * a + (t0 - q * t1) * b == (s0 * a + t0 * b) - q * (s1 * a + t1 * b)
  {}

  lemma SubtractIdentity(a: int, b: int, q: int, s0: int, s1: int, t0: int, t1: int, s2: int, t2: int, c0: int, c1: int)
    requires s2 == s0 - q * s1 && t2 == t0 - q * t1
    requires c0 == s0 * a + t0 * b && c1 == s1 * a + t1 * b
    ensures s2 * a + t2 * b == c0 - q * c1
  {
    SubtractExpanded(a, b, q, s0, s1, t0, t1);
  }

  lemma SubtractCombinations(a: seq<int>, b: seq<int>, q: seq<int>, s0: seq<int>, s1: seq<int>, t0: seq<int>, t1: seq<int>)
    ensures Same(Combine(Sub(s0, Mul(q, s1)), a, Sub(t0, Mul(q, t1)), b),
                 Sub(Combine(s0, a, t0, b), Mul(q, Combine(s1, a, t1, b))))
  {
    forall x: int
      ensures Eval(Combine(Sub(s0, Mul(q, s1)), a, Sub(t0, Mul(q, t1)), b), x)
           == Eval(Sub(Combine(s0, a, t0, b), Mul(q, Combine(s1, a, t1, b))), x)
    {
      hide *;
      EvalCombine(Sub(s0, Mul(q, s1)), a, Sub(t0, Mul(q, t1)), b, x);
      EvalSub(s0, Mul(q, s1), x);
      EvalSub(t0, Mul(q, t1), x);
      EvalMul(q, s1, x);
      EvalMul(q, t1, x);
      EvalSub(Combine(s0, a, t0, b), Mul(q, Combine(s1, a, t1, b)), x);
      EvalCombine(s0, a, t0, b, x);
      EvalCombine(s1, a, t1, b, x);
      EvalMul(q, Combine(s1, a, t1, b), x);
      SubtractIdentity(Eval(a, x), Eval(b, x), Eval(q, x), Eval(s0, x), Eval(s1, x), Eval(t0, x), Eval(t1, x),
                       Eval(Sub(s0, Mul(q, s1)), x), Eval(Sub(t0, Mul(q, t1)), x),
                       Eval(Combine(s0, a, t0, b), x), Eval(Combine(s1, a, t1, b), x));
    }
  }

  lemma RemainderSame(q: seq<int>, r1: seq<int>, r: seq<int>)
    ensures Same(Sub(Add(Mul(q, r1), r), Mul(q, r1)), r)
  {
    forall x: int ensures Eval(Sub(Add(Mul(q, r1), r), Mul(q, r1)), x) == Eval(r, x) {
      EvalSub(Add(Mul(q, r1), r), Mul(q, r1), x);
      EvalAdd(Mul(q, r1), r, x);
    }
  }

  /** The next remainder is the matching combination of a and b. */
  lemma CombinationStep(a: seq<int>, b: seq<int>, q: seq<int>, r0: seq<int>, r1: seq<int>, r: seq<int>,
                        s0: seq<int>, s1: seq<int>, s2: seq<int>, t0: seq<int>, t1: seq<int>, t2: seq<int>, p: int)
    requires p > 0 && Cong(Combine(s0, a, t0, b), r0, p) && Cong(Combine(s1, a, t1, b), r1, p)
    requires Cong(r0, Add(Mul(q, r1), r), p)
    requires Cong(s2, Sub(s0, Mul(q, s1)), p) && Cong(t2, Sub(t0, Mul(q, t1)), p)
    ensures Cong(Combine(s2, a, t2, b), r, p)
  {
    hide Cong, Combine, Mul, Add, Sub, Same;
    var c0, c1 := Combine(s0, a, t0, b), Combine(s1, a, t1, b);
    var next := Combine(Sub(s0, Mul(q, s1)), a, Sub(t0, Mul(q, t1)), b);
    CongRefl(a, p);
    CongRefl(b, p);
    CongRefl(q, p);
    CongCombine(s2, a, t2, b, Sub(s0, Mul(q, s1)), a, Sub(t0, Mul(q, t1)), b, p);
    SubtractCombinations(a, b, q, s0, s1, t0, t1);
    CongSame(next, Sub(c0, Mul(q, c1)), p);
    CongTrans(Combine(s2, a, t2, b), next, Sub(c0, Mul(q, c1)), p);
    CongMul(q, c1, q, r1, p);
    CongTrans(c0, r0, Add(Mul(q, r1), r), p);
    CongAdd(c0, Mul(q, c1), Add(Mul(q, r1), r), Mul(q, r1), p);
    CongTrans(Combine(s2, a, t2, b), Sub(c0, Mul(q, c1)), Sub(Add(Mul(q, r1), r), Mul(q, r1)), p);
    RemainderSame(q, r1, r);
    CongSame(Sub(Add(Mul(q, r1), r), Mul(q, r1)), r, p);
    CongTrans(Combine(s2, a, t2, b), Sub(Add(Mul(q, r1), r), Mul(q, r1)), r, p);
  }

  lemma Expanded(u0: int, u1: int, q: int, r1: int, r: int)
    ensures u0 * (q * r1 + r) + u1 * r1 == (u0 * q + u1) * r1 + u0 * r
  {}

  lemma ExpandIdentity(u0: int, u1: int, q: int, r1: int, r: int, r0: int, u: int)
    requires r0 == q * r1 + r && u == u0 * q + u1
    ensures u0 * r0 + u1 * r1 == u * r1 + u0 * r
  {
    Expanded(u0, u1, q, r1, r);
  }

  /** What the old pair of remainders generates, the new pair generates. */
  lemma GeneratorStep(f: seq<int>, q: seq<int>, r0: seq<int>, r1: seq<int>, r: seq<int>, u0: seq<int>, u1: seq<int>, p: int)
    requires p > 0 && Cong(f, Combine(u0, r0, u1, r1), p) && Cong(r0, Add(Mul(q, r1), r), p)
    ensures Cong(f, Combine(Add(Mul(u0, q), u1), r1, u0, r), p)
  {
    hide Cong, Combine, Mul, Add, Same;
    var mid := Combine(u0, Add(Mul(q, r1), r), u1, r1);
    CongRefl(u0, p);
    CongRefl(u1, p);
    CongRefl(r1, p);
    CongCombine(u0, r0, u1, r1, u0, Add(Mul(q, r1), r), u1, r1, p);
    CongTrans(f, Combine(u0, r0, u1, r1), mid, p);
    GeneratorSame(q, r1, r, u0, u1);
    CongSame(mid, Combine(Add(Mul(u0, q), u1), r1, u0, r), p);
    CongTrans(f, mid, Combine(Add(Mul(u0, q), u1), r1, u0, r), p);
  }

  lemma GeneratorSame(q: seq<int>, r1: seq<int>, r: seq<int>, u0: seq<int>, u1: seq<int>)
    ensures Same(Combine(u0, Add(Mul(q, r1), r), u1, r1), Combine(Add(Mul(u0, q), u1), r1, u0, r))
  {
    forall x: int
      ensures Eval(Combine(u0, Add(Mul(q, r1), r), u1, r1), x) == Eval(Combine(Add(Mul(u0, q), u1), r1, u0, r), x)
    {
      hide *;
      EvalCombine(u0, Add(Mul(q, r1), r), u1, r1, x);
      EvalAdd(Mul(q, r1), r, x);
      EvalMul(q, r1, x);
      EvalCombine(Add(Mul(u0, q), u1), r1, u0, r, x);
      EvalAdd(Mul(u0, q), u1, x);
      EvalMul(u0, q, x);
      ExpandIdentity(Eval(u0, x), Eval(u1, x), Eval(q, x), Eval(r1, x), Eval(r, x),
                     Eval(Add(Mul(q, r1), r), x), Eval(Add(Mul(u0, q), u1), x));
    }
  }

  /** Lengths along the loop, which bound the degrees of the cofactors. */
  ghost predicate Degrees(a: seq<int>, b: seq<int>, r0: seq<int>, r1: seq<int>,
                          s0: seq<int>, s1: seq<int>, t0: seq<int>, t1: seq<int>)
  {
    || (r0 == a && r1 == b && s0 == [1] && s1 == [] && t0 == [] && t1 == [1])
    || (&& |r1| < |r0| <= |b|
        && (a == [] ==> r0 == b && r1 == [])
        && (s1 == [] || |s1| + |r0| <= |b| + 1)
        && (t1 == [] || |t1| + |r0| <= |a| + 1)
        && (s0 == [] || |s0| + |r0| <= |b|)
        && (t0 == [] || |t0| + |r0| <= |a| || (|t0| == 1 && r0 == b && |a| <= |b| && |r1| <= |a|)))
  }

  lemma DegreesStep(a: seq<int>, b: seq<int>, q: seq<int>, r0: seq<int>, r1: seq<int>, r: seq<int>,
                    s0: seq<int>, s1: seq<int>, s2: seq<int>, t0: seq<int>, t1: seq<int>, t2: seq<int>)
    requires Degrees(a, b, r0, r1, s0, s1, t0, t1) && r1 != []
    requires |r| < |r1| && |r| <= |r0| && |q| <= Max(0, |r0| - |r1| + 1)
    requires |s2| <= Max(|s0|, |Mul(q, s1)|) && |t2| <= Max(|t0|, |Mul(q, t1)|)
    requires s1 == [] ==> s2 == s0
    ensures Degrees(a, b, r1, r, s1, s2, t1, t2)
  {
    MulLength(q, s1);
    MulLength(q, t1);
  }

  lemma MulLength(a: seq<int>, b: seq<int>)
    ensures |Mul(a, b)| <= if a == [] || b == [] then 0 else |a| + |b| - 1
  {}

  /** No cofactors of two constants have the documented degrees deg s < deg b and deg t < deg a. */
  lemma ConstantsBreakTheBound(a: seq<int>, b: seq<int>, s: seq<int>, t: seq<int>, p: int)
    requires p > 1 && |a| + |b| <= 2 && BezoutFor(a, b, s, t, p)
    ensures !(|s| < |b| && |t| < |a|)
  {
    SmallMod(1, p);
    assert Mul([], a) == [] && Mul([], b) == [];
    assert Coef(Add([], []), 0) == 0;
  }

  /** A pair of constants with cofactors, all of which break the documented bound. */
  lemma TwoOnes(p: int)
    requires p > 1
    ensures BezoutFor([1], [1], [1], [], p)
    ensures forall s, t :: BezoutFor([1], [1], s, t, p) ==> !(|s| < 1 && |t| < 1)
  {
    assert Mul([1], [1]) == [1] && Mul([], [1]) == [];
    assert Add([1], []) == [1];
    CongRefl([1], p);
    forall s, t | BezoutFor([1], [1], s, t, p) ensures !(|s| < 1 && |t| < 1) {
      ConstantsBreakTheBound([1], [1], s, t, p);
    }
  }

  /** `fpBezout`: Bezout coefficients exactly when a and b are coprime modulo the prime p;
      otherwise one of its two checks throws (None). */
  method FpBezout(a: seq<int>, b: seq<int>, p: int) returns (res: Option<(seq<int>, seq<int>)>)
    requires Prime(p) && Residues(a, p) && Residues(b, p)
    ensures res.Some? <==> CoprimePoly(a, b, p)
    ensures res.Some? ==> BezoutFor(a, b, res.value.0, res.value.1, p)
    ensures res.Some? ==> Residues(res.value.0, p) && Residues(res.value.1, p)
    ensures res.Some? ==> (|res.value.0| < |b| && |res.value.1| < |a| <==> |a| + |b| > 2)
  {
    hide Cong, Combine, BezoutFor, CoprimePoly, Coprime, Degrees, Trimmed, Reduced, Scale, RawMod;
    var r0, r1, s0, s1, t0, t1, u0, u1, v0, v1 := Loop(a, b, p);
    if r0 == [] {
      NotCoprime(a, b, r0, r1, u0, u1, v0, v1, p);
      return None;
    }
    var unit := Inverse(r0[0], p);
    if unit.None? || |r0| != 1 {
      Failure(a, b, r0, r1, u0, u1, v0, v1, p);
      return None;
    }
    var s, t := RawMod(Scale(unit.value, s0), p), RawMod(Scale(unit.value, t0), p);
    Normalized(a, b, r0, s0, t0, unit.value, p);
    DegreesEnd(a, b, r0, r1, s0, s1, t0, t1, unit.value, p);
    if |a| + |b| <= 2 { ConstantsBreakTheBound(a, b, s, t, p); }
    return Some((s, t));
  }

  /** The Euclidean loop. The ghost results express a and b in the last two remainders. */
  method Loop(a: seq<int>, b: seq<int>, p: int)
    returns (r0: seq<int>, r1: seq<int>, s0: seq<int>, s1: seq<int>, t0: seq<int>, t1: seq<int>,
             ghost u0: seq<int>, ghost u1: seq<int>, ghost v0: seq<int>, ghost v1: seq<int>)
    requires Prime(p) && Residues(a, p) && Residues(b, p)
    ensures r1 == [] && Residues(r0, p) && Residues(s0, p) && Residues(t0, p)
    ensures Cong(Combine(s0, a, t0, b), r0, p)
    ensures Cong(a, Combine(u0, r0, u1, r1), p) && Cong(b, Combine(v0, r0, v1, r1), p)
    ensures Degrees(a, b, r0, r1, s0, s1, t0, t1)
  {
    hide Cong, Combine, Mul, Add, Sub, Degrees, FpSub;
    r0, r1 := a, b;
    s0, s1, t0, t1 := [1], [], [], [1];
    u0, u1, v0, v1 := [1], [], [], [1];
    LoopStart(a, b, p);
    while r1 != []
      invariant Residues(r0, p) && Residues(r1, p) && Residues(s0, p) && Residues(s1, p) && Residues(t0, p) && Residues(t1, p)
      invariant Cong(Combine(s0, a, t0, b), r0, p) && Cong(Combine(s1, a, t1, b), r1, p)
      invariant Cong(a, Combine(u0, r0, u1, r1), p) && Cong(b, Combine(v0, r0, v1, r1), p)
      invariant Degrees(a, b, r0, r1, s0, s1, t0, t1)
      decreases |r1|
    {
      LeadInvertible(r1, p);
      var step := FpDivmod(r0, r1, p);
      var q, r := step.value.0, step.value.1;
      var qs := FpMul(q, s1, p);
      var qt := FpMul(q, t1, p);
      var s2, t2 := FpSub(s0, qs, p), FpSub(t0, qt, p);
      CofactorCong(q, s0, s1, p);
      CofactorCong(q, t0, t1, p);
      CombinationStep(a, b, q, r0, r1, r, s0, s1, s2, t0, t1, t2, p);
      GeneratorStep(a, q, r0, r1, r, u0, u1, p);
      GeneratorStep(b, q, r0, r1, r, v0, v1, p);
      CofactorEmpty(q, s0, s1, p);
      DegreesStep(a, b, q, r0, r1, r, s0, s1, s2, t0, t1, t2);
      r0, r1, s0, s1, t0, t1 := r1, r, s1, s2, t1, t2;
      u0, u1, v0, v1 := Add(Mul(u0, q), u1), u0, Add(Mul(v0, q), v1), v0;
    }
  }

  lemma LoopStart(a: seq<int>, b: seq<int>, p: int)
    requires p > 1
    ensures Cong(Combine([1], a, [], b), a, p) && Cong(Combine([], a, [1], b), b, p)
    ensures Cong(a, Combine([1], a, [], b), p) && Cong(b, Combine([], a, [1], b), p)
    ensures Degrees(a, b, a, b, [1], [], [], [1])
  {
    forall x: int
      ensures Eval(Combine([1], a, [], b), x) == Eval(a, x)
      ensures Eval(Combine([], a, [1], b), x) == Eval(b, x)
    {
      EvalCombine([1], a, [], b, x);
      EvalCombine([], a, [1], b, x);
      assert Eval([1], x) == 1;
    }
    CongSame(Combine([1], a, [], b), a, p);
    CongSame(Combine([], a, [1], b), b, p);
    CongSame(a, Combine([1], a, [], b), p);
    CongSame(b, Combine([], a, [1], b), p);
  }

  lemma LeadInvertible(r: seq<int>, p: int)
    requires Prime(p) && r != [] && Residues(r, p)
    ensures Coprime(Lead(r), p)
  {
    NonzeroResidue(Lead(r), p);
    PrimeCoprime(Lead(r), p);
  }

  lemma CofactorCong(q: seq<int>, s0: seq<int>, s1: seq<int>, p: int)
    requires p > 0
    ensures Cong(FpSub(s0, Mod(Mul(q, s1), p), p), Sub(s0, Mul(q, s1)), p)
    ensures |FpSub(s0, Mod(Mul(q, s1), p), p)| <= Max(|s0|, |Mul(q, s1)|)
  {
    var qs := Mod(Mul(q, s1), p);
    FpSubCong(s0, qs, p);
    ModCong(Mul(q, s1), p);
    hide Cong;
    CongRefl(s0, p);
    CongAdd(s0, qs, s0, Mul(q, s1), p);
    CongTrans(FpSub(s0, qs, p), Sub(s0, qs), Sub(s0, Mul(q, s1)), p);
  }

  lemma CofactorEmpty(q: seq<int>, s0: seq<int>, s1: seq<int>, p: int)
    requires p > 0 && Residues(s0, p)
    ensures s1 == [] ==> FpSub(s0, Mod(Mul(q, s1), p), p) == s0
  {
    if s1 == [] {
      assert Mul(q, s1) == [];
      CoefCong(s0, RawSub(s0, []), p);
      ModUnique(s0, RawSub(s0, []), p);
    }
  }

  /** A common generator of coprime polynomials is a unit. */
  lemma Generates(a: seq<int>, b: seq<int>, r: seq<int>, u: seq<int>, v: seq<int>, p: int)
    requires Prime(p) && Residues(r, p) && CoprimePoly(a, b, p)
    requires Cong(a, Mul(u, r), p) && Cong(b, Mul(v, r), p)
    ensures |r| == 1
  {
    var s, t :| BezoutFor(a, b, s, t, p);
    var k := Combine(s, u, t, v);
    forall x: int ensures Eval(Combine(s, Mul(u, r), t, Mul(v, r)), x) == Eval(Mul(k, r), x) {
      hide *;
      EvalCombine(s, Mul(u, r), t, Mul(v, r), x);
      EvalMul(u, r, x);
      EvalMul(v, r, x);
      EvalMul(k, r, x);
      EvalCombine(s, u, t, v, x);
      FactorOut(Eval(s, x), Eval(u, x), Eval(t, x), Eval(v, x), Eval(r, x),
                Eval(Mul(u, r), x), Eval(Mul(v, r), x), Eval(k, x));
    }
    assert Same(Combine(s, Mul(u, r), t, Mul(v, r)), Mul(k, r));
    hide Cong, Same, Mul, Add, Combine;
    CongRefl(s, p);
    CongRefl(t, p);
    CongSym(a, Mul(u, r), p);
    CongSym(b, Mul(v, r), p);
    CongCombine(s, Mul(u, r), t, Mul(v, r), s, a, t, b, p);
    CongSame(Combine(s, Mul(u, r), t, Mul(v, r)), Mul(k, r), p);
    CongSym(Combine(s, Mul(u, r), t, Mul(v, r)), Mul(k, r), p);
    CongTrans(Mul(k, r), Combine(s, Mul(u, r), t, Mul(v, r)), Combine(s, a, t, b), p);
    CombineIsBezout(a, b, s, t, p);
    CongTrans(Mul(k, r), Combine(s, a, t, b), [1], p);
    UnitIsConstant(k, r, p);
  }

  lemma CombineIsBezout(a: seq<int>, b: seq<int>, s: seq<int>, t: seq<int>, p: int)
    requires p > 0
    ensures BezoutFor(a, b, s, t, p) <==> Cong(Combine(s, a, t, b), [1], p)
  {}

  lemma FactoredOut(s: int, u: int, t: int, v: int, r: int)
    ensures s * (u * r) + t * (v * r) == (s * u + t * v) * r
  {}

  lemma FactorOut(s: int, u: int, t: int, v: int, r: int, ur: int, vr: int, k: int)
    requires ur == u * r && vr == v * r && k == s * u + t * v
    ensures s * ur + t * vr == k * r
  {
    FactoredOut(s, u, t, v, r);
  }

  lemma DropEmpty(f: seq<int>, u0: seq<int>, r0: seq<int>, u1: seq<int>, p: int)
    requires p > 0 && Cong(f, Combine(u0, r0, u1, []), p)
    ensures Cong(f, Mul(u0, r0), p)
  {
    forall x: int ensures Eval(Combine(u0, r0, u1, []), x) == Eval(Mul(u0, r0), x) {
      EvalCombine(u0, r0, u1, [], x);
      EvalMul(u0, r0, x);
    }
    CongSame(Combine(u0, r0, u1, []), Mul(u0, r0), p);
    CongTrans(f, Combine(u0, r0, u1, []), Mul(u0, r0), p);
  }

  lemma CoprimeEnd(a: seq<int>, b: seq<int>, r0: seq<int>, r1: seq<int>,
                   u0: seq<int>, u1: seq<int>, v0: seq<int>, v1: seq<int>, p: int)
    requires Prime(p) && Residues(r0, p) && r1 == [] && CoprimePoly(a, b, p)
    requires Cong(a, Combine(u0, r0, u1, r1), p) && Cong(b, Combine(v0, r0, v1, r1), p)
    ensures |r0| == 1
  {
    hide Cong, CoprimePoly, Combine, Mul;
    DropEmpty(a, u0, r0, u1, p);
    DropEmpty(b, v0, r0, v1, p);
    Generates(a, b, r0, u0, v0, p);
  }

  lemma NotCoprime(a: seq<int>, b: seq<int>, r0: seq<int>, r1: seq<int>,
                   u0: seq<int>, u1: seq<int>, v0: seq<int>, v1: seq<int>, p: int)
    requires Prime(p) && r0 == [] && r1 == []
    requires Cong(a, Combine(u0, r0, u1, r1), p) && Cong(b, Combine(v0, r0, v1, r1), p)
    ensures !CoprimePoly(a, b, p)
  {
    hide Cong, CoprimePoly, Combine;
    if CoprimePoly(a, b, p) { CoprimeEnd(a, b, r0, r1, u0, u1, v0, v1, p); }
  }

  lemma Failure(a: seq<int>, b: seq<int>, r0: seq<int>, r1: seq<int>,
                u0: seq<int>, u1: seq<int>, v0: seq<int>, v1: seq<int>, p: int)
    requires Prime(p) && Residues(r0, p) && r1 == [] && r0 != []
    requires Cong(a, Combine(u0, r0, u1, r1), p) && Cong(b, Combine(v0, r0, v1, r1), p)
    requires !Coprime(r0[0], p) || |r0| != 1
    ensures !CoprimePoly(a, b, p)
  {
    hide Cong, CoprimePoly, Combine, Coprime;
    if CoprimePoly(a, b, p) {
      CoprimeEnd(a, b, r0, r1, u0, u1, v0, v1, p);
      LeadInvertible(r0, p);
    }
  }

  lemma ScaleSame(c: int, s: seq<int>, a: seq<int>, t: seq<int>, b: seq<int>)
    ensures Same(Combine(Scale(c, s), a, Scale(c, t), b), Scale(c, Combine(s, a, t, b)))
  {
    forall x: int ensures Eval(Combine(Scale(c, s), a, Scale(c, t), b), x) == Eval(Scale(c, Combine(s, a, t, b)), x) {
      hide *;
      EvalCombine(Scale(c, s), a, Scale(c, t), b, x);
      EvalScale(c, s, x);
      EvalScale(c, t, x);
      EvalScale(c, Combine(s, a, t, b), x);
      EvalCombine(s, a, t, b, x);
      ScaleIdentity(c, Eval(s, x), Eval(a, x), Eval(t, x), Eval(b, x),
                    Eval(Scale(c, s), x), Eval(Scale(c, t), x), Eval(Combine(s, a, t, b), x));
    }
  }

  lemma ScaleExpanded(c: int, s: int, a: int, t: int, b: int)
    ensures (c * s) * a + (c * t) * b == c * (s * a + t * b)
  {}

  lemma ScaleIdentity(c: int, s: int, a: int, t: int, b: int, cs: int, ct: int, sum: int)
    requires cs == c * s && ct == c * t && sum == s * a + t * b
    ensures cs * a + ct * b == c * sum
  {
    ScaleExpanded(c, s, a, t, b);
  }

  lemma ScaleCong(c: int, f: seq<int>, g: seq<int>, m: int)
    requires m > 0 && Cong(f, g, m)
    ensures Cong(Scale(c, f), Scale(c, g), m)
  {
    forall i: int ensures (Coef(Scale(c, f), i) - Coef(Scale(c, g), i)) % m == 0 {
      assert (Coef(f, i) - Coef(g, i)) % m == 0;
      ModScale(Coef(f, i) - Coef(g, i), c, m);
      assert Coef(Scale(c, f), i) == c * Coef(f, i) && Coef(Scale(c, g), i) == c * Coef(g, i);
      assert c * Coef(f, i) - c * Coef(g, i) == c * (Coef(f, i) - Coef(g, i));
    }
  }

  /** Scaling by a unit keeps residues trimmed. */
  lemma ScaledResidues(c: int, s: seq<int>, p: int)
    requires Prime(p) && Residues(s, p) && c % p != 0
    ensures Residues(RawMod(Scale(c, s), p), p)
    ensures Cong(RawMod(Scale(c, s), p), Scale(c, s), p)
  {
    var r := RawMod(Scale(c, s), p);
    if s != [] {
      NonzeroResidue(Lead(s), p);
      if (c * Lead(s)) % p == 0 { EuclidLemma(p, c, Lead(s)); }
    }
    forall i: int ensures (Coef(r, i) - Coef(Scale(c, s), i)) % p == 0 {
      ResidueEntry(Coef(r, i), Coef(Scale(c, s), i), p);
    }
  }

  lemma UnitResidue(unit: int, c: int, p: int)
    requires p > 1 && (unit * c - 1) % p == 0
    ensures unit % p != 0
  {
    NonzeroResidue(1, p);
    if unit % p == 0 {
      ModScale(unit, c, p);
      ModSum(unit * c, unit * c - 1, p);
    }
  }

  lemma Normalized(a: seq<int>, b: seq<int>, r0: seq<int>, s0: seq<int>, t0: seq<int>, unit: int, p: int)
    requires Prime(p) && |r0| == 1 && Residues(s0, p) && Residues(t0, p)
    requires Cong(Combine(s0, a, t0, b), r0, p) && (unit * r0[0] - 1) % p == 0
    ensures var s, t := RawMod(Scale(unit, s0), p), RawMod(Scale(unit, t0), p);
            Residues(s, p) && Residues(t, p) && BezoutFor(a, b, s, t, p) && CoprimePoly(a, b, p)
  {
    var s, t := RawMod(Scale(unit, s0), p), RawMod(Scale(unit, t0), p);
    UnitResidue(unit, r0[0], p);
    ScaledResidues(unit, s0, p);
    ScaledResidues(unit, t0, p);
    assert Cong(Combine(s, a, t, b), [1], p) by {
      assert Cong(Scale(unit, r0), [1], p) by {
        assert Scale(unit, r0) == [unit * r0[0]];
        MultipleMod(p, 0);
      }
      hide Cong, Combine, Scale, RawMod, Same;
      CongRefl(a, p);
      CongRefl(b, p);
      CongCombine(s, a, t, b, Scale(unit, s0), a, Scale(unit, t0), b, p);
      ScaleSame(unit, s0, a, t0, b);
      CongSame(Combine(Scale(unit, s0), a, Scale(unit, t0), b), Scale(unit, Combine(s0, a, t0, b)), p);
      ScaleCong(unit, Combine(s0, a, t0, b), r0, p);
      CongTrans(Combine(s, a, t, b), Combine(Scale(unit, s0), a, Scale(unit, t0), b), Scale(unit, Combine(s0, a, t0, b)), p);
      CongTrans(Combine(s, a, t, b), Scale(unit, Combine(s0, a, t0, b)), Scale(unit, r0), p);
      CongTrans(Combine(s, a, t, b), Scale(unit, r0), [1], p);
    }
    CombineIsBezout(a, b, s, t, p);
  }

  lemma DegreesEnd(a: seq<int>, b: seq<int>, r0: seq<int>, r1: seq<int>, s0: seq<int>, s1: seq<int>, t0: seq<int>, t1: seq<int>,
                   unit: int, p: int)
    requires p > 0 && Degrees(a, b, r0, r1, s0, s1, t0, t1) && r1 == [] && |r0| == 1
    ensures |a| + |b| > 2 ==> |RawMod(Scale(unit, s0), p)| < |b| && |RawMod(Scale(unit, t0), p)| < |a|
  {}
}
