/** Integer square roots and square parts (packages/cas/src/roots.ts). */
module IntegerRoots {
  import opened Arith

  /** The length of the binary numeral of n. */
  function BitLength(n: nat): nat { if n < 2 then 1 else 1 + BitLength(n / 2) }

  lemma {:induction false} BitLengthBound(n: nat)
    ensures n < Pow(2, BitLength(n))
  {
    if n < 2 {
      assert Pow(2, 1) == 2 * Pow(2, 0);
    } else {
      BitLengthBound(n / 2);
    }
  }

  /** x is at least the floor root of n. */
  ghost predicate AboveRoot(n: int, x: int) { x > 0 && (x + 1) * (x + 1) > n }

  lemma StartAboveRoot(n: nat)
    ensures AboveRoot(n, Pow(2, (BitLength(n) + 1) / 2))
  {
    var b, k := BitLength(n), (BitLength(n) + 1) / 2;
    BitLengthBound(n);
    PowAdd(2, k, k);
    PowPositive(2, k);
    if k + k > b { assert Pow(2, k + k) == 2 * Pow(2, k + k - 1); PowPositive(2, b); }
  }

  /** One Newton step never falls below the floor root. */
  lemma NewtonAbove(n: int, x: int)
    requires n >= 2 && x > 0
    ensures AboveRoot(n, (x + n / x) / 2)
  {
    var q := n / x;
    var y := (x + q) / 2;
    assert n < x * (q + 1) by {
      assert n == x * q + n % x;
    }
    PositiveStep(n, x);
    ArithmeticGeometric(x, q + 1);
    SquareMonotone(x + q + 1, 2 * (y + 1));
  }

  lemma ArithmeticGeometric(a: int, b: int)
    ensures (a + b) * (a + b) >= 4 * (a * b)
  {
    assert (a + b) * (a + b) - 4 * (a * b) == (a - b) * (a - b);
  }

  lemma SquareMonotone(a: int, b: int)
    requires 0 <= a <= b
    ensures a * a <= b * b
  {
    MulMonotone(a, b, a);
    MulMonotone(a, b, b);
  }

  lemma QuotientAtLeast(n: int, x: int)
    requires x > 0 && n / x >= x
    ensures x * x <= n
  {
    assert n == x * (n / x) + n % x;
    MulMonotone(x, n / x, x);
  }

  /** `isqrt`: the floor square root, by Newton's method. */
  method Isqrt(n: int) returns (x: int)
    requires n >= 0
    ensures x >= 0 && x * x <= n < (x + 1) * (x + 1)
  {
    if n < 2 { return n; }
    hide AboveRoot;
    x := Pow(2, (BitLength(n) + 1) / 2);
    StartAboveRoot(n);
    AbovePositive(n, x);
    var y := (x + n / x) / 2;
    while y < x
      invariant x > 0 && AboveRoot(n, x) && y == (x + n / x) / 2
      decreases x
    {
      NewtonAbove(n, x);
      AbovePositive(n, y);
      x := y;
      y := (x + n / x) / 2;
    }
    RootReached(n, x);
  }

  lemma AbovePositive(n: int, x: int)
    requires AboveRoot(n, x)
    ensures x > 0
  {}

  lemma RootReached(n: int, x: int)
    requires AboveRoot(n, x) && (x + n / x) / 2 >= x
    ensures x * x <= n < (x + 1) * (x + 1)
  {
    QuotientAtLeast(n, x);
  }

  lemma PositiveStep(n: int, x: int)
    requires n >= 2 && x > 0
    ensures (x + n / x) / 2 > 0
  {
    if x == 1 { assert n / x == n; }
  }

  // ---- square-free numbers ----

  ghost predicate SquareFree(r: int) { forall d: int :: d > 1 ==> r % (d * d) != 0 }

  ghost predicate IsSquare(r: int) { exists d: int :: d * d == r }

  /** Every number above 1 has a prime divisor. */
  lemma PrimeFactor(d: int) returns (p: int)
    requires d > 1
    ensures Prime(p) && d % p == 0
  {
    p := 2;
    while d % p != 0
      invariant 2 <= p <= d
      invariant forall k: int :: 1 < k < p ==> d % k != 0
      decreases d - p
    {
      if p == d { MultipleMod(d, 1); }
      p := p + 1;
    }
    forall k: int | 1 < k < p ensures p % k != 0 {
      if p % k == 0 { ModTrans(d, p, k); }
    }
  }

  /** If the square of a prime divides a·b and the prime does not divide b, its square divides a. */
  lemma PrimeSquareProduct(p: int, a: int, b: int)
    requires Prime(p) && p * p > 0 && (a * b) % (p * p) == 0 && b % p != 0
    ensures a % (p * p) == 0
  {
    var k := DivisibleBy(a * b, p * p);
    MultipleIs(a * b, p, p * k) by { assert a * b == p * (p * k); }
    EuclidLemma(p, a, b);
    var c := DivisibleBy(a, p);
    CancelPrime(p, c, b, k, a);
    MultipleIs(c * b, p, k);
    EuclidLemma(p, c, b);
    var e := DivisibleBy(c, p);
    assert a == (p * p) * e;
    MultipleIs(a, p * p, e);
  }

  lemma CancelPrime(p: int, c: int, b: int, k: int, a: int)
    requires p > 0 && a == p * c && a * b == (p * p) * k
    ensures c * b == p * k
  {
    assert p * (c * b - p * k) == 0;
  }

  lemma SquareDivisor(r: int, d: int, p: int)
    requires d > 1 && p > 1 && d % p == 0 && d * d > 0 && r % (d * d) == 0
    ensures p * p > 0 && r % (p * p) == 0
  {
    var e := DivisibleBy(d, p);
    assert d * d == (p * p) * (e * e);
    MultipleIs(d * d, p * p, e * e);
    ModTrans(r, d * d, p * p);
  }

  // ---- the trial-division loop ----

  const TRIAL_LIMIT := 10_000

  ghost predicate RoughBelow(r: int, p: int) { forall d: int :: 2 <= d < p ==> r % d != 0 }

  /** No square of a prime divides small, and its primes are below p. */
  ghost predicate SmallPart(small: int, p: int) {
    small > 0 && forall q: int :: Prime(q) ==> q * q > 0 && small % (q * q) != 0 && (small % q == 0 ==> q < p)
  }

  lemma PrimeTrial(r: int, p: int)
    requires p >= 2 && RoughBelow(r, p) && r % p == 0
    ensures Prime(p)
  {
    forall d: int | 1 < d < p ensures p % d != 0 {
      if p % d == 0 { ModTrans(r, p, d); }
    }
  }

  lemma RoughQuotient(r: int, c: int, k: int, p: int)
    requires RoughBelow(r, p) && r == c * k
    ensures RoughBelow(k, p)
  {
    forall d: int | 2 <= d < p ensures k % d != 0 {
      if k % d == 0 { ModScale(k, c, d); }
    }
  }

  lemma SmallStart()
    ensures SmallPart(1, 2)
  {
    forall q: int | Prime(q) ensures q * q > 0 && 1 % (q * q) != 0 && 1 % q != 0 {
      MulMonotone(2, q, q);
      SmallMod(1, q * q);
      SmallMod(1, q);
    }
  }

  lemma SmallTimes(small: int, p: int)
    requires Prime(p) && SmallPart(small, p)
    ensures SmallPart(small * p, p + 1)
  {
    MulMonotone(1, p, small);
    forall q: int | Prime(q)
      ensures q * q > 0 && (small * p) % (q * q) != 0 && ((small * p) % q == 0 ==> q < p + 1)
    {
      MulMonotone(2, q, q);
      if (small * p) % q == 0 {
        EuclidLemma(q, small, p);
        if p % q == 0 { PrimeDivisor(p, q); }
      }
      if (small * p) % (q * q) == 0 {
        if p % q == 0 {
          PrimeDivisor(p, q);
          var k := DivisibleBy(small * p, p * p);
          CancelPrime1(p, small, k);
          MultipleIs(small, p, k);
        } else {
          PrimeSquareProduct(q, small, p);
        }
      }
    }
  }

  lemma CancelPrime1(p: int, small: int, k: int)
    requires p > 0 && small * p == (p * p) * k
    ensures small == p * k
  {
    assert p * (small - p * k) == 0;
  }

  lemma SmallLater(small: int, p: int, q: int)
    requires SmallPart(small, p) && p <= q
    ensures SmallPart(small, q)
  {}

  /** What the loop leaves: a cofactor whose only divisor up to the limit can be itself. */
  ghost predicate Cofactor(r: int) {
    r > 0 && forall d: int :: 2 <= d <= TRIAL_LIMIT && r % d == 0 ==> d == r
  }

  lemma CofactorAtExit(r: int, p: int)
    requires r > 0 && p >= 2 && RoughBelow(r, p) && (p > TRIAL_LIMIT || p * p > r)
    ensures Cofactor(r)
  {
    forall d: int | 2 <= d <= TRIAL_LIMIT && r % d == 0 ensures d == r {
      if d != r && p <= TRIAL_LIMIT {
        var k := DivisibleBy(r, d);
        SmallCodivisor(r, d, k, p);
        MultipleIs(r, k, d);
      }
    }
  }

  lemma SmallCodivisor(r: int, d: int, k: int, p: int)
    requires r == d * k && r > 0 && d >= p >= 2 && d != r && p * p > r
    ensures 2 <= k < p
  {
    if k <= 0 { MulMonotone(k, 0, d); }
    if k >= p { MulMonotone(p, k, d); MulMonotone(p, d, p); }
  }

  /** A cofactor below 10¹² is a perfect square or square-free. */
  lemma SmallCofactor(r: int)
    requires Cofactor(r) && r < 1_000_000_000_000
    ensures IsSquare(r) || SquareFree(r)
  {
    if !SquareFree(r) {
      var d: int :| d > 1 && r % (d * d) == 0;
      var k := DivisibleBy(r, d * d);
      SquarePositive(r, d, k);
      MultipleIs(r, d, d * k) by { assert r == d * (d * k); }
      if d <= TRIAL_LIMIT {
        NoProperSquare(d, k);
      } else {
        BigSquare(r, d, k);
      }
    }
  }

  lemma BigSquare(r: int, d: int, k: int)
    requires Cofactor(r) && r < 1_000_000_000_000 && d > TRIAL_LIMIT && k > 0 && r == (d * d) * k
    ensures IsSquare(r)
  {
    MultipleIs(r, k, d * d);
    if k == 1 {
      assert d * d == r;
    } else {
      NoProperSquare2(d, k);
      hide Cofactor;
      if k > TRIAL_LIMIT { BigProduct(d, k); }
    }
  }

  lemma SquarePositive(r: int, d: int, k: int)
    requires r > 0 && d > 1 && r == (d * d) * k
    ensures k > 0
  {
    MulMonotone(2, d, d);
    if k <= 0 { MulMonotone(k, 0, d * d); }
  }

  lemma NoProperSquare(d: int, k: int)
    requires d > 1 && k > 0
    ensures d != (d * d) * k
  {
    MulMonotone(2, d, d);
    MulMonotone(1, k, d * d);
  }

  lemma NoProperSquare2(d: int, k: int)
    requires d > 1 && k > 0
    ensures k != (d * d) * k
  {
    MulMonotone(2, d, d);
    MulMonotone(4, d * d, k);
  }

  lemma BigProduct(d: int, k: int)
    requires d >= 10_001 && k >= 10_001
    ensures (d * d) * k > 1_000_000_000_000
  {
    MulMonotone(10_001, d, d);
    MulMonotone(10_001, k, d * d);
  }

  /** small·r is square-free exactly when r is, once their primes are separated by p. */
  lemma SquareFreeProduct(small: int, r: int, p: int)
    requires SmallPart(small, p) && RoughBelow(r, p) && r > 0
    ensures SquareFree(small * r) <==> SquareFree(r)
    ensures SquareFree(small)
  {
    forall d: int | d > 1 ensures small % (d * d) != 0 {
      if small % (d * d) == 0 {
        MulMonotone(2, d, d);
        var q := PrimeFactor(d);
        SquareDivisor(small, d, q);
      }
    }
    if SquareFree(r) {
      forall d: int | d > 1 ensures (small * r) % (d * d) != 0 {
        if (small * r) % (d * d) == 0 {
          MulMonotone(2, d, d);
          var q := PrimeFactor(d);
          SquareDivisor(small * r, d, q);
          if r % q != 0 {
            PrimeSquareProduct(q, small, r);
          } else {
            assert small % q != 0;
            assert small * r == r * small;
            PrimeSquareProduct(q, r, small);
          }
        }
      }
    }
    if SquareFree(small * r) {
      forall d: int | d > 1 ensures r % (d * d) != 0 {
        MulMonotone(2, d, d);
        if r % (d * d) == 0 { ModScale(r, small, d * d); }
      }
    }
  }

  /** The state of the trial-division loop. */
  ghost predicate Trial(n: int, s: int, small: int, r: int, p: int) {
    p >= 2 && s > 0 && r > 0 && (s * s) * (small * r) == n && RoughBelow(r, p) && SmallPart(small, p)
  }

  /** One trial divisor: the square divisions and the single one. */
  method TrialStep(ghost n: int, s0: int, small0: int, r0: int, p: int) returns (s: int, small: int, r: int)
    requires Trial(n, s0, small0, r0, p)
    ensures Trial(n, s, small, r, p + 1) && r <= r0
  {
    s, small, r := s0, small0, r0;
    MulMonotone(2, p, p);
    while r % (p * p) == 0
      invariant Trial(n, s, small, r, p) && r <= r0
      decreases r
    {
      var k := DivisibleByQuotient(r, p * p);
      TakeSquare(n, s, small, r, p, k);
      r := k;
      s := s * p;
    }
    if r % p == 0 {
      var k := DivisibleByQuotient(r, p);
      TakeOne(n, s, small, r, p, k);
      r := k;
      small := small * p;
    } else {
      SmallLater(small, p, p + 1);
    }
  }

  /** The bigint quotient r / c of a positive multiple. */
  method DivisibleByQuotient(r: int, c: int) returns (k: int)
    requires r > 0 && c > 1 && r % c == 0
    ensures r == c * k && 0 < k < r
  {
    k := r / c;
    assert r == c * k;
    if k >= r { MulMonotone(2, c, k); }
  }

  lemma TakeSquare(n: int, s: int, small: int, r: int, p: int, k: int)
    requires Trial(n, s, small, r, p) && k > 0 && r == (p * p) * k
    ensures Trial(n, s * p, small, k, p)
  {
    RoughQuotient(r, p * p, k, p);
    MulMonotone(1, p, s);
    assert ((s * p) * (s * p)) * (small * k) == (s * s) * (small * ((p * p) * k)) by { SquareRegroup(s, p, small, k); }
  }

  lemma SquareRegroup(s: int, p: int, small: int, k: int)
    ensures ((s * p) * (s * p)) * (small * k) == (s * s) * (small * ((p * p) * k))
  {
    assert (s * p) * (s * p) == (s * s) * (p * p);
    assert ((s * s) * (p * p)) * (small * k) == (s * s) * ((p * p) * (small * k));
    assert (p * p) * (small * k) == small * ((p * p) * k);
  }

  lemma TakeOne(n: int, s: int, small: int, r: int, p: int, k: int)
    requires Trial(n, s, small, r, p) && k > 0 && r == p * k && p * p > 0 && r % (p * p) != 0
    ensures Trial(n, s, small * p, k, p + 1)
  {
    MultipleIs(r, p, k);
    PrimeTrial(r, p);
    SmallTimes(small, p);
    RoughQuotient(r, p, k, p);
    if k % p == 0 {
      var j := DivisibleBy(k, p);
      assert r == (p * p) * j;
      MultipleIs(r, p * p, j);
    }
    assert (small * p) * k == small * r;
  }

  /** An odd trial divisor skips an even number, which cannot divide an odd cofactor. */
  lemma SkipEven(n: int, s: int, small: int, r: int, p: int)
    requires p > 2 && p % 2 == 1 && Trial(n, s, small, r, p + 1)
    ensures Trial(n, s, small, r, p + 2)
  {
    SmallLater(small, p + 1, p + 2);
    forall d: int | 2 <= d < p + 2 ensures r % d != 0 {
      if d == p + 1 && r % d == 0 { ModTrans(r, d, 2); }
    }
  }

  /** What trial division leaves of n: a square, distinct small primes and a cofactor apart from them. */
  ghost predicate Divided(n: int, s: int, small: int, r: int) {
    && s > 0 && small > 0 && r > 0 && small * r > 0 && (s * s) * (small * r) == n
    && Cofactor(r) && n % r == 0
    && SquareFree(small) && (SquareFree(small * r) <==> SquareFree(r))
  }

  lemma TrialStart(n: int)
    requires n > 0
    ensures Trial(n, 1, 1, n, 2)
  {
    SmallStart();
  }

  /** The trial-division loop of `squarePart`. */
  method TrialDivision(n: int) returns (s: int, small: int, rest: int)
    requires n > 0
    ensures Divided(n, s, small, rest)
  {
    s, small, rest := 1, 1, n;
    var p := 2;
    hide Trial, Divided;
    TrialStart(n);
    while p <= TRIAL_LIMIT && p * p <= rest
      invariant Trial(n, s, small, rest, p)
      invariant p == 2 || p % 2 == 1
      decreases TRIAL_LIMIT + 2 - p
    {
      s, small, rest := TrialStep(n, s, small, rest, p);
      if p == 2 {
        p := p + 1;
      } else {
        SkipEven(n, s, small, rest, p);
        p := p + 2;
      }
    }
    TrialEnd(n, s, small, rest, p);
  }

  /** `squarePart`: n = s²·r, where r is square-free unless the cofactor that trial division leaves is
      neither square-free nor a perfect square, which takes a cofactor of at least 10¹². */
  method SquarePart(n: int) returns (s: int, r: int, ghost cofactor: int)
    requires n > 0
    ensures s > 0 && r > 0 && (s * s) * r == n
    ensures Cofactor(cofactor) && n % cofactor == 0
    ensures SquareFree(r) <==> IsSquare(cofactor) || SquareFree(cofactor)
    ensures cofactor < 1_000_000_000_000 ==> SquareFree(r)
  {
    hide SquareFree, IsSquare, Cofactor;
    var t, small, rest := TrialDivision(n);
    cofactor := rest;
    if cofactor < 1_000_000_000_000 { SmallCofactor(cofactor); }
    s, r := TakeRoot(n, t, small, rest);
  }

  lemma TrialEnd(n: int, s: int, small: int, r: int, p: int)
    requires Trial(n, s, small, r, p) && (p > TRIAL_LIMIT || p * p > r)
    ensures Divided(n, s, small, r)
  {
    CofactorAtExit(r, p);
    SquareFreeProduct(small, r, p);
    DividesTotal(n, s, small, r);
    MulMonotone(1, r, small);
  }

  /** The final perfect-square check on the cofactor. */
  method TakeRoot(ghost n: int, s0: int, small: int, rest: int) returns (s: int, r: int)
    requires s0 > 0 && small > 0 && rest > 0 && (s0 * s0) * (small * rest) == n
    ensures s > 0 && r > 0 && (s * s) * r == n
    ensures r == if IsSquare(rest) then small else small * rest
  {
    hide IsSquare;
    var root := Isqrt(rest);
    if root * root == rest {
      RootPositive(root, rest);
      SquareTaken(s0, root, small, rest);
      PerfectSquare(root, rest);
      s, r := s0 * root, small;
    } else {
      NotSquare(root, rest);
      MulMonotone(1, rest, small);
      s, r := s0, small * rest;
    }
  }

  lemma PerfectSquare(root: int, r: int)
    requires root * root == r
    ensures IsSquare(r)
  {}

  lemma DividesTotal(n: int, s: int, small: int, r: int)
    requires r > 0 && (s * s) * (small * r) == n
    ensures n % r == 0
  {
    assert n == r * ((s * s) * small);
    MultipleIs(n, r, (s * s) * small);
  }

  lemma RootPositive(root: int, r: int)
    requires root >= 0 && r > 0 && root * root == r
    ensures root > 0
  {}

  lemma SquareTaken(s: int, root: int, small: int, r: int)
    requires s > 0 && root > 0 && root * root == r
    ensures s * root > 0 && ((s * root) * (s * root)) * small == (s * s) * (small * r)
  {
    MulMonotone(1, root, s);
    assert (s * root) * (s * root) == (s * s) * r;
    assert ((s * s) * r) * small == (s * s) * (small * r);
  }

  lemma NotSquare(root: int, r: int)
    requires root >= 0 && root * root < r < (root + 1) * (root + 1)
    ensures !IsSquare(r)
  {
    forall d: int ensures d * d != r {
      var e := Abs(d);
      assert d * d == e * e;
      if e <= root { SquareMonotone(e, root); } else { SquareMonotone(root + 1, e); }
    }
  }
}
