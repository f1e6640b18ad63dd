/** The irreducible factors of a square-free primitive polynomial (`irreducibleFactors`, packages/cas/src/factor.ts),
    from its factors modulo a prime. */
module Factoring {
  import opened Arith
  import opened DensePoly
  import opened Hensel
  import opened Bezout
  import opened LiftTree
  import opened ExactDivision
  import opened Recombination
  import opened PrimeFactors
  import opened Irreducibility
  import opened IntegerRoots

  // ---- binomial coefficients ----

  /** The number of k-element subsets of n elements, by Pascal's rule. */
  function Choose(n: nat, k: nat): nat {
    if k == 0 then 1 else if n == 0 then 0 else Choose(n - 1, k - 1) + Choose(n - 1, k)
  }

  lemma AbsorbSum(n: int, k: int, a: int, b: int, c: int, d: int)
    requires (k - 1) * a == (n - 1) * c && k * b == (n - 1) * d && c + d == a
    ensures k * (a + b) == n * a
  {
    assert k * (a + b) == a + (k - 1) * a + k * b;
    assert (n - 1) * c + (n - 1) * d == (n - 1) * (c + d);
  }

  /** k·C(n, k) = n·C(n − 1, k − 1). */
  lemma {:induction false} Absorption(n: nat, k: nat)
    requires n > 0 && k > 0
    ensures k * Choose(n, k) == n * Choose(n - 1, k - 1)
  {
    if n == 1 {
      assert Choose(0, k - 1) == if k == 1 then 1 else 0;
    } else if k == 1 {
      Absorption(n - 1, 1);
    } else {
      Absorption(n - 1, k);
      Absorption(n - 1, k - 1);
      AbsorbSum(n, k, Choose(n - 1, k - 1), Choose(n - 1, k), Choose(n - 2, k - 2), Choose(n - 2, k - 1));
    }
  }

  lemma {:induction false} ChoosePositive(n: nat, k: nat)
    requires k <= n
    ensures Choose(n, k) >= 1
  {
    if k > 0 { ChoosePositive(n - 1, k - 1); }
  }

  /** There is one subset of all n elements, and none of more. */
  lemma {:induction false} ChooseEnds(n: nat, k: nat)
    ensures Choose(n, n) == 1 && (k > n ==> Choose(n, k) == 0)
  {
    if n > 0 {
      ChooseEnds(n - 1, k - if k > 0 then 1 else 0);
      ChooseEnds(n - 1, k);
      ChooseEnds(n - 1, n);
    }
  }

  /** `binomial`: each division of the loop is exact. */
  method Binomial(n: nat, k: nat) returns (out: nat)
    requires k <= n
    ensures out == Choose(n, k)
  {
    out := 1;
    for i := 1 to k + 1
      invariant out == Choose(n - k + i - 1, i - 1)
    {
      Absorption(n - k + i, i);
      Exactly(out * (n - k + i), i, Choose(n - k + i, i));
      out := (out * (n - k + i)) / i;
    }
  }

  lemma Exactly(a: int, d: int, q: int)
    requires d > 0 && a == d * q
    ensures a / d == q
  {
    MultipleMod(d, q);
    assert a == d * (a / d);
    CancelLeft(d, a / d, q);
  }

  // ---- the modulus ----

  function SumSquares(f: seq<int>): nat { if f == [] then 0 else f[0] * f[0] + SumSquares(f[1..]) }

  /** One more than the integer square root of the sum of the squared coefficients. */
  method Norm(f: seq<int>) returns (norm: nat)
    ensures norm >= 1 && SumSquares(f) < norm * norm
  {
    var sum := 0;
    for k := 0 to |f|
      invariant sum + SumSquares(f[k..]) == SumSquares(f) && sum >= 0
    {
      assert f[k..][1..] == f[k + 1..];
      sum := sum + f[k] * f[k];
    }
    assert f[|f|..] == [];
    var root := Isqrt(sum);
    norm := root + 1;
  }

  /** The bound of Landau and Mignotte on the coefficients of the factors of smaller degree. */
  ghost predicate FactorBound(f: seq<int>)
    requires |f| >= 2
  {
    forall g: seq<int>, i: int :: PositivePrimitive(g) && |g| < |f| && DividesPoly(g, f) ==>
      Coef(g, i) * Coef(g, i) <= Square(Choose(|f| - 2, (|f| - 2) / 2)) * SumSquares(f)
  }

  function Square(x: int): int { x * x }

  lemma SquareGrows(c: nat, b: nat, norm: nat, sum: nat)
    requires c >= b * norm && sum < norm * norm && b >= 1
    ensures c * c > Square(b) * sum
  {
    MulMonotone(b * norm, c, c);
    MulMonotone(b * norm, c, b * norm);
    assert (b * norm) * (b * norm) == (b * b) * (norm * norm);
    MulMonotone(1, b, b);
    MulMonotone(sum + 1, norm * norm, b * b);
  }

  lemma SquareLess(c: nat, b: nat, norm: nat, sum: nat)
    requires c * c <= Square(b) * sum && sum < norm * norm && b >= 1
    ensures c < b * norm
  {
    if c >= b * norm { SquareGrows(c, b, norm, sum); }
  }

  /** A modulus above 2·lead·C(n − 1, ⌊(n − 1)/2⌋)·norm + 1 leaves room for every factor that meets the bound. */
  lemma RoomFromBound(f: seq<int>, norm: nat, m: int)
    requires PositivePrimitive(f) && |f| >= 2 && FactorBound(f) && SumSquares(f) < norm * norm && norm >= 1
    requires m > 2 * Lead(f) * Choose(|f| - 2, (|f| - 2) / 2) * norm + 1
    ensures Room(f, m)
  {
    var b := Choose(|f| - 2, (|f| - 2) / 2);
    ChoosePositive(|f| - 2, (|f| - 2) / 2);
    hide IsPrimitive, DividesPoly, Coef, Choose, SumSquares;
    forall g: seq<int>, i: int | PositivePrimitive(g) && |g| < |f| && DividesPoly(g, f)
      ensures 2 * (Lead(f) * Abs(Coef(g, i))) < m
    {
      SquareAbs(Coef(g, i));
      SquareLess(Abs(Coef(g, i)), b, norm, SumSquares(f));
      BoundTimes(Lead(f), Abs(Coef(g, i)), b, norm);
    }
  }

  lemma SquareAbs(c: int)
    ensures Abs(c) * Abs(c) == c * c
  {}

  lemma BoundTimes(lead: int, c: int, b: int, norm: int)
    requires lead > 0 && c < b * norm
    ensures 2 * (lead * c) <= 2 * lead * b * norm
  {
    MulMonotone(c, b * norm, lead);
    assert lead * (b * norm) == (lead * b) * norm;
    assert 2 * lead * b * norm == 2 * ((lead * b) * norm);
  }

  lemma LeadBelow(lead: int, b: int, norm: int)
    requires lead > 0 && b >= 1 && norm >= 1
    ensures 2 * lead * b * norm >= lead
  {
    MulMonotone(1, b, lead);
    MulMonotone(1, norm, lead * b);
    assert 2 * lead * b * norm == 2 * ((lead * b) * norm);
  }

  /** The loop that squares p until it is above the bound: the least such number of squarings. */
  method Squarings(p: int, bound: int) returns (steps: nat)
    requires p > 1
    ensures Target(p, steps) > bound
    ensures steps > 0 ==> Target(p, steps - 1) <= bound
  {
    hide Target;
    steps := 0;
    var m := p;
    TargetZero(p);
    while m <= bound
      invariant m == Target(p, steps) && m > 1
      invariant steps > 0 ==> Target(p, steps - 1) <= bound
      decreases bound - m
    {
      TargetNext(p, steps);
      MulMonotone(2, m, m);
      m := m * m;
      steps := steps + 1;
    }
  }

  // ---- the whole algorithm ----

  /** What the factorization modulo p supplies: the distinct monic irreducible factors of f. */
  ghost predicate ModularFactors(f: seq<int>, modular: seq<seq<int>>, p: int)
    requires p > 0
  {
    && Liftable(f, modular, p) && modular != []
    && forall i :: 0 <= i < |modular| ==> |modular[i]| >= 2 && IrreducibleMod(modular[i], p)
  }

  lemma LiftedPool(f: seq<int>, modular: seq<seq<int>>, lifted: seq<seq<int>>, p: int, m: int)
    requires p > 1 && m > 1 && f != [] && Trimmed(f) && ModularFactors(f, modular, p)
    requires Lifts(lifted, modular, p, m) && Factors(f, lifted, m)
    ensures Factored(f, lifted, p, m) && MonicPool(lifted)
  {
    hide Cong, IrreducibleMod, CoprimePoly, Factors, Prime;
    forall i | 0 <= i < |lifted| ensures Monic(lifted[i]) && |lifted[i]| >= 2 && IrreducibleMod(lifted[i], p) {
      CongSym(lifted[i], modular[i], p);
      IrreducibleCong(modular[i], lifted[i], p);
    }
    forall i, j | 0 <= i < j < |lifted| ensures CoprimePoly(lifted[i], lifted[j], p) {
      assert CoprimePoly(modular[i], modular[j], p);
      CongSym(lifted[i], modular[i], p);
      CongSym(lifted[j], modular[j], p);
      CoprimeCong(modular[i], lifted[i], modular[j], lifted[j], p);
    }
  }

  /** A linear polynomial is irreducible. */
  lemma LinearIrreducible(f: seq<int>)
    requires PositivePrimitive(f) && |f| == 2
    ensures Irreducible(f)
  {
    forall a: seq<int>, b: seq<int> | Trimmed(a) && Trimmed(b) && Mul(a, b) == f ensures |a| == 1 || |b| == 1 {
      assert Mul([], b) == [] && Mul(a, []) == [];
      MulLead(a, b);
    }
  }

  /** A polynomial with one factor modulo p is irreducible. */
  lemma OneFactor(f: seq<int>, modular: seq<seq<int>>, p: int)
    requires p > 1 && PositivePrimitive(f) && |f| >= 2 && ModularFactors(f, modular, p) && |modular| == 1
    ensures Irreducible(f)
  {
    TargetZero(p);
    hide Target, IrreducibleMod, CoprimePoly, IsPrimitive, Prime, Cong;
    PositiveShape(f);
    StartLarge(f, modular, p, 0);
    RestIrreducible(f, modular, 1, p, 0);
  }

  /** `irreducibleFactors`: primitive factors whose product is f, and each is irreducible when the factors of f
      meet the bound of Landau and Mignotte. */
  method IrreducibleFactors(f: seq<int>, p: int, modular: seq<seq<int>>) returns (found: seq<seq<int>>)
    requires PositivePrimitive(f) && |f| >= 2
    requires |f| > 2 ==> p > 1 && ModularFactors(f, modular, p)
    ensures Product(found) == f
    ensures forall i :: 0 <= i < |found| ==> PositivePrimitive(found[i])
    ensures FactorBound(f) ==> AllIrreducible(found)
  {
    hide IsPrimitive, Irreducible, Target, Product, Mul, Recombined, FactorBound, Room, Factored, IrreducibleMod, PairwiseCoprime;
    hide Choose, Lifts, Factors, SumSquares, Cong;
    PositiveShape(f);
    ProductOne(f);
    var n := |f| - 1;
    if n <= 1 {
      LinearIrreducible(f);
      return [f];
    }
    if |modular| == 1 {
      OneFactor(f, modular, p);
      return [f];
    }
    var lead := Abs(Lead(f));
    var norm := Norm(f);
    var choose := Binomial(n - 1, (n - 1) / 2);
    ChoosePositive(n - 1, (n - 1) / 2);
    var bound := 2 * lead * choose * norm + 1;
    var steps := Squarings(p, bound);
    var modulus := Pow(p, Pow2(steps));
    TargetIs(p, steps);
    LeadBelow(lead, choose, norm);
    var lifted := Lift(f, modular, p, steps);
    LiftedPool(f, modular, lifted, p, modulus);
    found := Recombine(f, lifted, modulus);
    if FactorBound(f) {
      RoomFromBound(f, norm, modulus);
      RecombinedIrreducible(f, lifted, p, steps, found);
    }
  }

  lemma TargetIs(p: int, steps: nat)
    requires p > 1
    ensures Pow(p, Pow2(steps)) == Target(p, steps) > 1
  {
    TargetFacts(p, steps);
  }
}
