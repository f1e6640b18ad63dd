/** Integer facts shared by the exact-algebra modules: divisibility, remainders that
    truncate toward zero, powers, primes and the extended Euclidean algorithm. */
module Arith {
  import opened Options

  function Abs(n: int): nat { if n < 0 then -n else n }

  function Max(a: int, b: int): int { if a < b then b else a }

  /** JavaScript's bigint `/`: truncation toward zero. */
  function TruncDiv(a: int, b: int): int
    requires b != 0
  {
    if a >= 0 then a / b else -((-a) / b)
  }

  /** JavaScript's `%`: the remainder has the sign of the dividend. */
  function TruncMod(a: int, b: int): int
    requires b != 0
  {
    a - b * TruncDiv(a, b)
  }

  function Pow(x: int, n: nat): int { if n == 0 then 1 else x * Pow(x, n - 1) }

  lemma PowAdd(x: int, a: nat, b: nat)
    ensures Pow(x, a + b) == Pow(x, a) * Pow(x, b)
  {
    if a > 0 {
      PowAdd(x, a - 1, b);
    }
  }

  lemma PowPositive(x: int, n: nat)
    requires x > 0
    ensures Pow(x, n) > 0
    ensures x > 1 && n > 0 ==> Pow(x, n) > 1
  {
    if n > 0 {
      PowPositive(x, n - 1);
      MulMonotone(1, Pow(x, n - 1), x);
    }
  }

  lemma MulMonotone(a: int, b: int, c: int)
    requires a <= b && 0 <= c
    ensures c * a <= c * b
  {}

  // ---- divisibility ----

  ghost predicate Divides(d: int, a: int)
    requires d != 0
  {
    a % d == 0
  }

  lemma DivisibleBy(a: int, m: int) returns (k: int)
    requires m != 0 && a % m == 0
    ensures a == m * k
  {
    k := a / m;
  }

  lemma MultipleMod(m: int, k: int)
    requires m != 0
    ensures (m * k) % m == 0
  {
    var q, r := (m * k) / m, (m * k) % m;
    assert m * k == m * q + r;
    assert r == m * (k - q);
    if k - q >= 1 {
      if m > 0 { MulMonotone(1, k - q, m); } else { MulMonotone(1, k - q, -m); }
    } else if k - q <= -1 {
      if m > 0 { MulMonotone(k - q, -1, m); } else { MulMonotone(k - q, -1, -m); }
    }
  }

  lemma MultipleIs(a: int, m: int, k: int)
    requires m != 0 && a == m * k
    ensures a % m == 0
  {
    MultipleMod(m, k);
  }

  lemma ModSum(a: int, b: int, m: int)
    requires m != 0 && a % m == 0 && b % m == 0
    ensures (a + b) % m == 0 && (a - b) % m == 0
  {
    var k := DivisibleBy(a, m);
    var l := DivisibleBy(b, m);
    MultipleIs(a + b, m, k + l);
    MultipleIs(a - b, m, k - l);
  }

  lemma ModScale(a: int, c: int, m: int)
    requires m != 0 && a % m == 0
    ensures (a * c) % m == 0 && (c * a) % m == 0
  {
    var k := DivisibleBy(a, m);
    assert a * c == m * (k * c);
    MultipleIs(a * c, m, k * c);
  }

  lemma ModTrans(a: int, m: int, d: int)
    requires m != 0 && d != 0 && a % m == 0 && m % d == 0
    ensures a % d == 0
  {
    var k := DivisibleBy(a, m);
    ModScale(m, k, d);
  }

  /** A number is congruent to its Euclidean remainder. */
  lemma ModResidue(a: int, m: int)
    requires m > 0
    ensures (a - a % m) % m == 0 && (a % m - a) % m == 0
  {
    MultipleIs(a - a % m, m, a / m);
    MultipleIs(a % m - a, m, -(a / m));
  }

  lemma ResidueEntry(v: int, e: int, m: int)
    requires m > 0 && (v == e || v == e % m)
    ensures (v - e) % m == 0
  {
    ModResidue(e, m);
    MultipleMod(m, 0);
  }

  /** Congruent residues in [0, m) are equal. */
  lemma ResidueUnique(a: int, b: int, m: int)
    requires m > 0 && 0 <= a < m && 0 <= b < m && (a - b) % m == 0
    ensures a == b
  {
    var k := DivisibleBy(a - b, m);
    if k >= 1 { MulMonotone(1, k, m); }
    if k <= -1 { MulMonotone(k, -1, m); }
  }

  lemma SmallMod(a: int, m: int)
    requires 0 <= a < m
    ensures a % m == a
  {}

  lemma SmallMultiple(a: int, m: int)
    requires m > 0 && a % m == 0 && -m < a < m
    ensures a == 0
  {
    var k := DivisibleBy(a, m);
    if k >= 1 { MulMonotone(1, k, m); }
    if k <= -1 { MulMonotone(k, -1, m); }
  }

  lemma TruncModCongruent(a: int, m: int)
    requires m > 0
    ensures (TruncMod(a, m) - a) % m == 0
    ensures -m < TruncMod(a, m) < m
    ensures a >= 0 ==> TruncMod(a, m) == a % m
    ensures a <= 0 ==> TruncMod(a, m) <= 0
    ensures TruncMod(a, m) == 0 <==> a % m == 0
  {
    MultipleIs(TruncMod(a, m) - a, m, -TruncDiv(a, m));
    if a < 0 {
      assert -a == m * ((-a) / m) + (-a) % m;
      assert TruncMod(a, m) == -((-a) % m);
    }
    if TruncMod(a, m) == 0 {
      MultipleIs(a, m, TruncDiv(a, m));
    }
    if a % m == 0 {
      var k := DivisibleBy(a, m);
      MultipleIs(TruncMod(a, m), m, k - TruncDiv(a, m));
      SmallMultiple(TruncMod(a, m), m);
    }
  }

  // ---- primes and the extended Euclidean algorithm ----

  ghost predicate Prime(p: int) {
    p > 1 && forall d: int :: 1 < d < p ==> p % d != 0
  }

  /** a and m generate 1. */
  ghost predicate Coprime(a: int, m: int) {
    exists u: int, v: int :: Combination(a, m, u, v) == 1
  }

  ghost function Combination(a: int, m: int, u: int, v: int): int { u * a + v * m }

  lemma SmallDivisor(g: int)
    requires g > 0
    ensures 1 % g == 0 ==> g == 1
  {
    if g > 1 { assert 1 % g == 1; }
  }

  /** A common divisor of coprime numbers is a unit. */
  lemma CoprimeDivisor(a: int, m: int, g: int)
    requires Coprime(a, m) && g > 0 && a % g == 0 && m % g == 0
    ensures g == 1
  {
    var u, v :| Combination(a, m, u, v) == 1;
    ModScale(a, u, g);
    ModScale(m, v, g);
    ModSum(u * a, v * m, g);
    SmallDivisor(g);
  }

  lemma ProductOfCombinations(a: int, p: int, q: int, u: int, v: int, w: int, z: int)
    requires u * a + v * p == 1 && w * a + z * q == 1
    ensures (u * w * a + u * z * q + v * p * w) * a + (v * z) * (p * q) == 1
  {
    assert (u * a + v * p) * (w * a + z * q) == (u * w * a + u * z * q + v * p * w) * a + (v * z) * (p * q);
  }

  /** Coprime to p means coprime to every power of p. */
  lemma CoprimePower(a: int, p: int, k: nat)
    requires Coprime(a, p)
    ensures Coprime(a, Pow(p, k))
  {
    if k == 0 {
      assert Combination(a, Pow(p, 0), 0, 1) == 1;
    } else {
      CoprimePower(a, p, k - 1);
      var u, v :| Combination(a, p, u, v) == 1;
      var w, z :| Combination(a, Pow(p, k - 1), w, z) == 1;
      var q := Pow(p, k - 1);
      ProductOfCombinations(a, p, q, u, v, w, z);
      assert Combination(a, Pow(p, k), u * w * a + u * z * q + v * p * w, v * z) == 1;
    }
  }

  /** The state of the extended Euclidean loop: every remainder is a combination of a and m,
      and the remainders keep exactly the common divisors of a and m. */
  ghost predicate EuclidState(a: int, m: int, r0: int, r1: int, s0: int, s1: int) {
    && m > 0 && r0 >= 0 && r1 >= 0 && (r0 > 0 || r1 > 0)
    && (s0 * a - r0) % m == 0
    && (s1 * a - r1) % m == 0
    && forall d: int :: d > 0 && r0 % d == 0 && r1 % d == 0 ==> a % d == 0 && m % d == 0
  }

  lemma EuclidStart(a: int, m: int)
    requires m > 0
    ensures EuclidState(a, m, a % m, m, 1, 0)
  {
    ModResidue(a, m);
    MultipleIs(0 * a - m, m, -1);
    forall d: int | d > 0 && (a % m) % d == 0 && m % d == 0
      ensures a % d == 0
    {
      ModTrans(a - a % m, m, d);
      ModSum(a - a % m, a % m, d);
    }
  }

  lemma EuclidIdentity(a: int, r0: int, r1: int, s0: int, s1: int, q: int)
    ensures (s0 * a - r0) - q * (s1 * a - r1) == (s0 - q * s1) * a - (r0 - q * r1)
  {}

  lemma EuclidDivisors(r0: int, r1: int, q: int, d: int)
    requires d > 0 && r1 % d == 0 && (r0 - q * r1) % d == 0
    ensures r0 % d == 0
  {
    ModScale(r1, q, d);
    ModSum(r0 - q * r1, q * r1, d);
  }

  lemma EuclidCombination(a: int, m: int, r0: int, r1: int, s0: int, s1: int, q: int)
    requires m > 0 && (s0 * a - r0) % m == 0 && (s1 * a - r1) % m == 0
    ensures ((s0 - q * s1) * a - (r0 - q * r1)) % m == 0
  {
    ModScale(s1 * a - r1, q, m);
    ModSum(s0 * a - r0, q * (s1 * a - r1), m);
    EuclidIdentity(a, r0, r1, s0, s1, q);
  }

  lemma EuclidNext(a: int, m: int, r0: int, r1: int, s0: int, s1: int)
    requires EuclidState(a, m, r0, r1, s0, s1) && r1 > 0
    ensures r0 - (r0 / r1) * r1 == r0 % r1
    ensures EuclidState(a, m, r1, r0 - (r0 / r1) * r1, s1, s0 - (r0 / r1) * s1)
  {
    var q := r0 / r1;
    EuclidCombination(a, m, r0, r1, s0, s1, q);
    forall d: int | d > 0 && r1 % d == 0 && (r0 - q * r1) % d == 0
      ensures a % d == 0 && m % d == 0
    {
      EuclidDivisors(r0, r1, q, d);
    }
  }

  /** The loop of `modInverseBig` and of `inverse`: s·a is congruent to the gcd of a and m. */
  method ExtendedGcd(a: int, m: int) returns (g: int, s: int)
    requires m > 0
    ensures g > 0 && a % g == 0 && m % g == 0
    ensures (s * a - g) % m == 0
  {
    var r0, r1, s0, s1 := a % m, m, 1, 0;
    EuclidStart(a, m);
    while r1 != 0
      invariant EuclidState(a, m, r0, r1, s0, s1)
      decreases r1
    {
      var q := r0 / r1;
      EuclidNext(a, m, r0, r1, s0, s1);
      r0, r1, s0, s1 := r1, r0 - q * r1, s1, s0 - q * s1;
    }
    g, s := r0, s0;
    MultipleIs(0, g, 0);
    MultipleIs(g, g, 1);
  }

  /** Packages/cas `modInverseBig`: a residue inverse to a modulo m whenever there is one. */
  method ModInverse(a: int, m: int) returns (r: int)
    requires m > 0
    ensures 0 <= r < m
    ensures Coprime(a, m) ==> (r * a - 1) % m == 0
  {
    var g, s := ExtendedGcd(a, m);
    r := s % m;
    if Coprime(a, m) {
      CoprimeDivisor(a, m, g);
      ModResidue(s, m);
      ModScale(s % m - s, a, m);
      ModSum((s % m - s) * a, s * a - 1, m);
      assert (s % m - s) * a + (s * a - 1) == r * a - 1;
    }
  }

  /** `inverse`: throws (None) exactly when a has a common factor with p. */
  method Inverse(a: int, p: int) returns (r: Option<int>)
    requires p > 0
    ensures r.Some? <==> Coprime(a, p)
    ensures r.Some? ==> 0 <= r.value < p && (r.value * a - 1) % p == 0
  {
    var g, s := ExtendedGcd(a, p);
    if g != 1 {
      if Coprime(a, p) { CoprimeDivisor(a, p, g); }
      return None;
    }
    var k := DivisibleBy(s * a - 1, p);
    assert Combination(a, p, s, -k) == 1;
    ModResidue(s, p);
    ModScale(s % p - s, a, p);
    ModSum((s % p - s) * a, s * a - 1, p);
    assert (s % p - s) * a + (s * a - 1) == (s % p) * a - 1;
    return Some(s % p);
  }

  /** The gcd as a combination, for proofs. */
  lemma Bezout(a: int, m: int) returns (g: int, s: int, t: int)
    requires m > 0
    ensures g > 0 && a % g == 0 && m % g == 0 && s * a + t * m == g
  {
    var r0, r1, s0, s1 := a % m, m, 1, 0;
    EuclidStart(a, m);
    while r1 != 0
      invariant EuclidState(a, m, r0, r1, s0, s1)
      decreases r1
    {
      var q := r0 / r1;
      EuclidNext(a, m, r0, r1, s0, s1);
      r0, r1, s0, s1 := r1, r0 - q * r1, s1, s0 - q * s1;
    }
    MultipleIs(0, r0, 0);
    MultipleIs(r0, r0, 1);
    var k := DivisibleBy(s0 * a - r0, m);
    g, s, t := r0, s0, -k;
  }

  lemma PrimeDivisor(p: int, g: int)
    requires Prime(p) && g > 0 && p % g == 0
    ensures g == 1 || g == p
  {
    if g > p {
      SmallMultiple(p, g);
    }
  }

  /** A number a prime does not divide is coprime to it. */
  lemma PrimeCoprime(a: int, p: int)
    requires Prime(p) && a % p != 0
    ensures Coprime(a, p)
  {
    var g, s, t := Bezout(a, p);
    PrimeDivisor(p, g);
    assert Combination(a, p, s, t) == 1;
  }

  /** A prime that divides a product divides a factor. */
  lemma EuclidLemma(p: int, a: int, b: int)
    requires Prime(p) && (a * b) % p == 0
    ensures a % p == 0 || b % p == 0
  {
    if a % p != 0 {
      PrimeCoprime(a, p);
      var u, v :| Combination(a, p, u, v) == 1;
      ModScale(a * b, u, p);
      MultipleMod(p, v * b);
      ModSum(u * (a * b), p * (v * b), p);
      assert u * (a * b) + p * (v * b) == (u * a + v * p) * b == b;
    }
  }
}
