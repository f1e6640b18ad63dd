/** Dense polynomials with ascending integer coefficients. A polynomial means the function
    x ↦ Eval(f, x); two polynomials with the same meaning have the same coefficients
    (EvalInjective), so ring identities are proved as integer identities at every x. */
module DensePoly {
  import opened Arith

  /** The i-th coefficient, 0 outside the list (`a[i] ?? 0`). */
  function Coef(f: seq<int>, i: int): int { if 0 <= i < |f| then f[i] else 0 }

  function Eval(f: seq<int>, x: int): int { if f == [] then 0 else f[0] + x * Eval(f[1..], x) }

  predicate Trimmed(f: seq<int>) { f == [] || f[|f| - 1] != 0 }

  predicate Monic(f: seq<int>) { f != [] && f[|f| - 1] == 1 }

  predicate Reduced(f: seq<int>, m: int) { forall i :: 0 <= i < |f| ==> 0 <= f[i] < m }

  function Lead(f: seq<int>): int
    requires f != []
  { f[|f| - 1] }

  ghost predicate Same(f: seq<int>, g: seq<int>) { forall x: int :: Eval(f, x) == Eval(g, x) }

  // ---- the operations ----

  /** `trim`: drop the trailing zeros. */
  function Trim(f: seq<int>): (r: seq<int>)
    ensures Trimmed(r) && |r| <= |f| && r == f[..|r|]
    ensures forall i: int :: Coef(r, i) == Coef(f, i)
  {
    if f == [] || f[|f| - 1] != 0 then f else Trim(f[..|f| - 1])
  }

  function RawAdd(a: seq<int>, b: seq<int>): seq<int> {
    seq(Max(|a|, |b|), i => Coef(a, i) + Coef(b, i))
  }

  function RawSub(a: seq<int>, b: seq<int>): seq<int> {
    seq(Max(|a|, |b|), i => Coef(a, i) - Coef(b, i))
  }

  function Scale(c: int, a: seq<int>): seq<int> { seq(|a|, i requires 0 <= i < |a| => c * a[i]) }

  function Shift(a: seq<int>, n: nat): seq<int> { seq(n, _ => 0) + a }

  /** The schoolbook product, before trimming. */
  function RawMul(a: seq<int>, b: seq<int>): (r: seq<int>)
    ensures |r| == if a == [] || b == [] then 0 else |a| + |b| - 1
  {
    if a == [] || b == [] then [] else RawAdd(Scale(a[0], b), [0] + RawMul(a[1..], b))
  }

  /** `zAdd`. */
  function Add(a: seq<int>, b: seq<int>): seq<int> { Trim(RawAdd(a, b)) }

  /** `zSub`. */
  function Sub(a: seq<int>, b: seq<int>): seq<int> { Trim(RawSub(a, b)) }

  /** What `zMul` computes. */
  function Mul(a: seq<int>, b: seq<int>): seq<int> { Trim(RawMul(a, b)) }

  function RawMod(a: seq<int>, m: int): seq<int>
    requires m > 0
  { seq(|a|, i requires 0 <= i < |a| => a[i] % m) }

  /** `zMod` and `toFp`: least non-negative residues. */
  function Mod(a: seq<int>, m: int): (r: seq<int>)
    requires m > 0
    ensures Trimmed(r) && Reduced(r, m) && |r| <= |a|
  { Trim(RawMod(a, m)) }

  function Product(fs: seq<seq<int>>): seq<int> {
    if fs == [] then [1] else Mul(fs[0], Product(fs[1..]))
  }

  // ---- integer identities, stated apart from the polynomials they serve ----

  lemma Horner(a: int, x: int, e: int, f: int)
    ensures a * f + x * (e * f) == (a + x * e) * f
  {}

  lemma Associate(u: int, v: int, w: int)
    ensures (u * v) * w == u * (v * w)
  {}

  lemma Exchange(m: int, u: int, n: int, v: int)
    ensures (m * u) * (n * v) == (m * n) * (u * v)
  {}

  lemma Telescope(p: int, q: int, r: int, t: int)
    ensures (p - r) * q + r * (q - t) == p * q - r * t
  {}

  lemma SplitProduct(u: int, c: int, w: int, v: int)
    ensures (u + c * w) * v == u * v + w * (c * v)
  {}

  // ---- evaluation ----

  lemma {:induction false} EvalZeros(f: seq<int>, x: int)
    requires forall i :: 0 <= i < |f| ==> f[i] == 0
    ensures Eval(f, x) == 0
  {
    if f != [] { EvalZeros(f[1..], x); }
  }

  /** Padding with a trailing zero does not change the meaning. */
  lemma {:induction false} EvalDropLast(f: seq<int>, x: int)
    requires f != []
    ensures Eval(f, x) == Eval(f[..|f| - 1], x) + f[|f| - 1] * Pow(x, |f| - 1)
  {
    if |f| > 1 {
      EvalDropLast(f[1..], x);
      assert f[1..][..|f| - 2] == f[..|f| - 1][1..];
    } else {
      assert f[1..] == [] && f[..0] == [];
    }
  }

  /** The meaning depends only on the coefficients. */
  lemma EvalCoef(f: seq<int>, g: seq<int>, x: int)
    requires forall i: int :: Coef(f, i) == Coef(g, i)
    ensures Eval(f, x) == Eval(g, x)
    decreases |f| + |g|
  {
    if f == [] {
      forall i | 0 <= i < |g| ensures g[i] == 0 { assert Coef(f, i) == Coef(g, i); }
      EvalZeros(g, x);
    } else if g == [] {
      forall i | 0 <= i < |f| ensures f[i] == 0 { assert Coef(f, i) == Coef(g, i); }
      EvalZeros(f, x);
    } else {
      assert Coef(f, 0) == Coef(g, 0);
      forall i: int ensures Coef(f[1..], i) == Coef(g[1..], i) {
        assert Coef(f, i + 1) == Coef(g, i + 1);
        if i >= 0 {
          assert Coef(f[1..], i) == Coef(f, i + 1);
          assert Coef(g[1..], i) == Coef(g, i + 1);
        }
      }
      EvalCoef(f[1..], g[1..], x);
    }
  }

  lemma EvalTrim(f: seq<int>, x: int)
    ensures Eval(Trim(f), x) == Eval(f, x)
  {
    EvalCoef(Trim(f), f, x);
  }

  lemma EvalRawAdd(a: seq<int>, b: seq<int>, x: int)
    ensures Eval(RawAdd(a, b), x) == Eval(a, x) + Eval(b, x)
    decreases |a| + |b|
  {
    if a == [] {
      assert RawAdd(a, b) == b;
    } else if b == [] {
      assert RawAdd(a, b) == a;
    } else {
      assert RawAdd(a, b)[1..] == RawAdd(a[1..], b[1..]);
      EvalRawAdd(a[1..], b[1..], x);
      assert x * (Eval(a[1..], x) + Eval(b[1..], x)) == x * Eval(a[1..], x) + x * Eval(b[1..], x);
    }
  }

  lemma {:induction false} EvalScale(c: int, a: seq<int>, x: int)
    ensures Eval(Scale(c, a), x) == c * Eval(a, x)
  {
    if a != [] {
      assert Scale(c, a)[1..] == Scale(c, a[1..]);
      EvalScale(c, a[1..], x);
    }
  }

  lemma EvalRawSub(a: seq<int>, b: seq<int>, x: int)
    ensures Eval(RawSub(a, b), x) == Eval(a, x) - Eval(b, x)
  {
    assert RawSub(a, b) == RawAdd(a, Scale(-1, b));
    EvalRawAdd(a, Scale(-1, b), x);
    EvalScale(-1, b, x);
  }

  lemma EvalShift(a: seq<int>, n: nat, x: int)
    ensures Eval(Shift(a, n), x) == Pow(x, n) * Eval(a, x)
  {
    if n == 0 {
      assert Shift(a, 0) == a;
    } else {
      assert Shift(a, n)[1..] == Shift(a, n - 1);
      EvalShift(a, n - 1, x);
    }
  }

  lemma {:induction false} EvalRawMul(a: seq<int>, b: seq<int>, x: int)
    ensures Eval(RawMul(a, b), x) == Eval(a, x) * Eval(b, x)
  {
    if a != [] && b != [] {
      var tail := RawMul(a[1..], b);
      assert ([0] + tail)[1..] == tail;
      EvalRawAdd(Scale(a[0], b), [0] + tail, x);
      EvalScale(a[0], b, x);
      EvalRawMul(a[1..], b, x);
      Horner(a[0], x, Eval(a[1..], x), Eval(b, x));
    }
  }

  lemma EvalAdd(a: seq<int>, b: seq<int>, x: int)
    ensures Eval(Add(a, b), x) == Eval(a, x) + Eval(b, x)
  {
    EvalTrim(RawAdd(a, b), x);
    EvalRawAdd(a, b, x);
  }

  lemma EvalSub(a: seq<int>, b: seq<int>, x: int)
    ensures Eval(Sub(a, b), x) == Eval(a, x) - Eval(b, x)
  {
    EvalTrim(RawSub(a, b), x);
    EvalRawSub(a, b, x);
  }

  lemma EvalMul(a: seq<int>, b: seq<int>, x: int)
    ensures Eval(Mul(a, b), x) == Eval(a, x) * Eval(b, x)
  {
    EvalTrim(RawMul(a, b), x);
    EvalRawMul(a, b, x);
  }

  lemma EvalOne(x: int)
    ensures Eval([1], x) == 1
  {}

  /** The integer product under a name, so that a proof can keep products uninterpreted. */
  function Times(a: int, b: int): int { a * b }

  lemma EvalTimes(a: seq<int>, b: seq<int>, x: int)
    ensures Eval(Mul(a, b), x) == Times(Eval(a, x), Eval(b, x))
  {
    EvalMul(a, b, x);
  }

  // ---- equal meaning, equal coefficients ----

  function Norm1(f: seq<int>): nat { if f == [] then 0 else Abs(f[0]) + Norm1(f[1..]) }

  lemma VanishingTail(f: seq<int>, n: nat, x: int)
    requires f != [] && x >= n && x > Abs(f[0])
    requires Eval(f, x) == 0
    ensures f[0] == 0 && Eval(f[1..], x) == 0
  {
    var e := Eval(f[1..], x);
    assert f[0] == -(x * e);
    if e >= 1 { MulMonotone(1, e, x); }
    if e <= -1 { MulMonotone(e, -1, x); }
  }

  /** A polynomial that vanishes at every large integer is zero. */
  lemma Vanishing(f: seq<int>, n: nat)
    requires forall x: int :: x >= n ==> Eval(f, x) == 0
    ensures forall i: int :: Coef(f, i) == 0
  {
    if f != [] {
      var big := n + Abs(f[0]) + 1;
      forall x: int | x >= big ensures Eval(f[1..], x) == 0 {
        VanishingTail(f, n, x);
      }
      VanishingTail(f, n, big);
      Vanishing(f[1..], big);
      forall i: int ensures Coef(f, i) == 0 {
        if 0 < i < |f| { assert Coef(f[1..], i - 1) == f[i]; }
      }
    }
  }

  lemma EvalInjective(f: seq<int>, g: seq<int>)
    requires Same(f, g)
    ensures forall i: int :: Coef(f, i) == Coef(g, i)
  {
    forall x: int ensures Eval(RawSub(f, g), x) == 0 {
      EvalRawSub(f, g, x);
    }
    Vanishing(RawSub(f, g), 0);
    forall i: int ensures Coef(f, i) == Coef(g, i) {
      assert Coef(RawSub(f, g), i) == 0;
    }
  }

  lemma SameCoefTrimmed(f: seq<int>, g: seq<int>)
    requires Trimmed(f) && Trimmed(g)
    requires forall i: int :: Coef(f, i) == Coef(g, i)
    ensures f == g
  {
    assert Coef(f, |f| - 1) == Coef(g, |f| - 1);
    assert Coef(f, |g| - 1) == Coef(g, |g| - 1);
    forall i | 0 <= i < |f| && |f| == |g| ensures f[i] == g[i] { assert Coef(f, i) == Coef(g, i); }
  }

  /** Trimmed polynomials with the same meaning are equal lists. */
  lemma Canonical(f: seq<int>, g: seq<int>)
    requires Trimmed(f) && Trimmed(g) && Same(f, g)
    ensures f == g
  {
    EvalInjective(f, g);
    SameCoefTrimmed(f, g);
  }

  lemma MulCommutes(a: seq<int>, b: seq<int>)
    ensures Mul(a, b) == Mul(b, a)
  {
    forall x: int ensures Eval(Mul(a, b), x) == Eval(Mul(b, a), x) {
      EvalMul(a, b, x);
      EvalMul(b, a, x);
    }
    Canonical(Mul(a, b), Mul(b, a));
  }

  lemma MulAssociates(a: seq<int>, b: seq<int>, c: seq<int>)
    ensures Mul(Mul(a, b), c) == Mul(a, Mul(b, c))
  {
    forall x: int ensures Eval(Mul(Mul(a, b), c), x) == Eval(Mul(a, Mul(b, c)), x) {
      EvalMul(a, b, x);
      EvalMul(Mul(a, b), c, x);
      EvalMul(b, c, x);
      EvalMul(a, Mul(b, c), x);
      Associate(Eval(a, x), Eval(b, x), Eval(c, x));
    }
    Canonical(Mul(Mul(a, b), c), Mul(a, Mul(b, c)));
  }

  lemma MulOne(a: seq<int>)
    requires Trimmed(a)
    ensures Mul(a, [1]) == a == Mul([1], a)
  {
    forall x: int ensures Eval(Mul(a, [1]), x) == Eval(a, x) {
      EvalMul(a, [1], x);
      assert Eval([1], x) == 1;
    }
    Canonical(Mul(a, [1]), a);
    MulCommutes(a, [1]);
  }

  lemma ProductConcat(fs: seq<seq<int>>, gs: seq<seq<int>>)
    ensures Product(fs + gs) == Mul(Product(fs), Product(gs))
  {
    if fs == [] {
      assert fs + gs == gs;
      ProductTrimmed(gs);
      MulOne(Product(gs));
    } else {
      assert (fs + gs)[1..] == fs[1..] + gs;
      ProductConcat(fs[1..], gs);
      MulAssociates(fs[0], Product(fs[1..]), Product(gs));
    }
  }

  lemma ProductTrimmed(fs: seq<seq<int>>)
    ensures Trimmed(Product(fs))
  {}

  // ---- leading coefficients ----

  /** The top coefficient of a product is the product of the top coefficients. */
  lemma {:induction false} RawMulTop(a: seq<int>, b: seq<int>)
    requires a != [] && b != []
    ensures RawMul(a, b)[|a| + |b| - 2] == Lead(a) * Lead(b)
  {
    var k := |a| + |b| - 2;
    var row, rest := Scale(a[0], b), [0] + RawMul(a[1..], b);
    assert RawMul(a, b) == RawAdd(row, rest);
    if |a| > 1 {
      RawMulTop(a[1..], b);
      assert Lead(a[1..]) == Lead(a);
      hide RawMul, Scale;
      assert Coef(row, k) == 0 && Coef(rest, k) == Lead(a) * Lead(b);
    } else {
      assert RawMul(a[1..], b) == [];
    }
  }

  /** No zero divisors: degrees add and leading coefficients multiply. */
  lemma MulLead(a: seq<int>, b: seq<int>)
    requires a != [] && b != [] && Trimmed(a) && Trimmed(b)
    ensures Mul(a, b) == RawMul(a, b) && |Mul(a, b)| == |a| + |b| - 1
    ensures Lead(Mul(a, b)) == Lead(a) * Lead(b) != 0
  {
    RawMulTop(a, b);
  }

  // ---- congruence modulo m, coefficientwise ----

  ghost predicate Multiple(f: seq<int>, m: int)
    requires m > 0
  {
    forall i: int :: Coef(f, i) % m == 0
  }

  ghost predicate Cong(f: seq<int>, g: seq<int>, m: int)
    requires m > 0
  {
    forall i: int :: (Coef(f, i) - Coef(g, i)) % m == 0
  }

  lemma MultipleEval(f: seq<int>, m: int) returns (k: seq<int>)
    requires m > 0 && Multiple(f, m)
    ensures forall x: int :: Eval(f, x) == m * Eval(k, x)
  {
    k := seq(|f|, i requires 0 <= i < |f| => f[i] / m);
    forall i | 0 <= i < |f| ensures f[i] == m * k[i] { assert Coef(f, i) % m == 0; }
    assert f == Scale(m, k);
    forall x: int ensures Eval(f, x) == m * Eval(k, x) { EvalScale(m, k, x); }
  }

  lemma MultipleFromEval(f: seq<int>, k: seq<int>, m: int)
    requires m > 0 && forall x: int :: Eval(f, x) == m * Eval(k, x)
    ensures Multiple(f, m)
  {
    forall x: int ensures Eval(f, x) == Eval(Scale(m, k), x) { EvalScale(m, k, x); }
    EvalInjective(f, Scale(m, k));
    forall i: int ensures Coef(f, i) % m == 0 {
      assert Coef(f, i) == Coef(Scale(m, k), i) == m * Coef(k, i);
      MultipleMod(m, Coef(k, i));
    }
  }

  /** Congruent means: the difference is a multiple. */
  lemma CongDifference(f: seq<int>, g: seq<int>, m: int)
    requires m > 0
    ensures Cong(f, g, m) <==> Multiple(Sub(f, g), m)
  {
    forall i: int ensures Coef(Sub(f, g), i) == Coef(f, i) - Coef(g, i) {
      assert Coef(Sub(f, g), i) == Coef(RawSub(f, g), i);
    }
    if Cong(f, g, m) {
      forall i: int ensures Coef(Sub(f, g), i) % m == 0 {
        assert (Coef(f, i) - Coef(g, i)) % m == 0;
      }
    }
    if Multiple(Sub(f, g), m) {
      forall i: int ensures (Coef(f, i) - Coef(g, i)) % m == 0 {
        assert Coef(Sub(f, g), i) % m == 0;
      }
    }
  }

  lemma SumCoef(a: seq<int>, b: seq<int>, i: int)
    ensures Coef(Add(a, b), i) == Coef(a, i) + Coef(b, i)
    ensures Coef(Sub(a, b), i) == Coef(a, i) - Coef(b, i)
  {
    assert Coef(Trim(RawAdd(a, b)), i) == Coef(RawAdd(a, b), i);
    assert Coef(Trim(RawSub(a, b)), i) == Coef(RawSub(a, b), i);
  }

  /** Multiples are closed under sums. */
  lemma MultipleAdd(f: seq<int>, g: seq<int>, m: int)
    requires m > 0 && Multiple(f, m) && Multiple(g, m)
    ensures Multiple(Add(f, g), m) && Multiple(Sub(f, g), m)
  {
    hide Add, Sub;
    forall i: int ensures Coef(Add(f, g), i) % m == 0 && Coef(Sub(f, g), i) % m == 0 {
      assert Coef(f, i) % m == 0 && Coef(g, i) % m == 0;
      ModSum(Coef(f, i), Coef(g, i), m);
      SumCoef(f, g, i);
    }
  }

  /** A multiple of m times a multiple of n is a multiple of m·n. */
  lemma MultipleMul(f: seq<int>, g: seq<int>, m: int, n: int)
    requires m > 0 && n > 0 && Multiple(f, m) && Multiple(g, n)
    ensures m * n > 0 && Multiple(Mul(f, g), m * n)
  {
    var k := MultipleEval(f, m);
    var l := MultipleEval(g, n);
    MulMonotone(1, n, m);
    forall x: int ensures Eval(Mul(f, g), x) == (m * n) * Eval(Mul(k, l), x) {
      EvalMul(f, g, x);
      EvalMul(k, l, x);
      Exchange(m, Eval(k, x), n, Eval(l, x));
    }
    MultipleFromEval(Mul(f, g), Mul(k, l), m * n);
  }

  /** Multiples form an ideal. */
  lemma MultipleMulAny(f: seq<int>, g: seq<int>, m: int)
    requires m > 0 && Multiple(f, m)
    ensures Multiple(Mul(f, g), m) && Multiple(Mul(g, f), m)
  {
    MultipleMul(f, g, m, 1);
    MulCommutes(f, g);
  }

  lemma MultipleSame(f: seq<int>, g: seq<int>, m: int)
    requires m > 0 && Multiple(f, m) && Same(f, g)
    ensures Multiple(g, m)
  {
    EvalInjective(f, g);
    forall i: int ensures Coef(g, i) % m == 0 { assert Coef(f, i) % m == 0; }
  }

  lemma CongRefl(f: seq<int>, m: int)
    requires m > 0
    ensures Cong(f, f, m)
  {}

  lemma CongSym(f: seq<int>, g: seq<int>, m: int)
    requires m > 0 && Cong(f, g, m)
    ensures Cong(g, f, m)
  {
    forall i: int ensures (Coef(g, i) - Coef(f, i)) % m == 0 {
      assert (Coef(f, i) - Coef(g, i)) % m == 0;
      ModSum(0, Coef(f, i) - Coef(g, i), m);
    }
  }

  lemma CongTrans(f: seq<int>, g: seq<int>, h: seq<int>, m: int)
    requires m > 0 && Cong(f, g, m) && Cong(g, h, m)
    ensures Cong(f, h, m)
  {
    forall i: int ensures (Coef(f, i) - Coef(h, i)) % m == 0 {
      assert (Coef(f, i) - Coef(g, i)) % m == 0 && (Coef(g, i) - Coef(h, i)) % m == 0;
      ModSum(Coef(f, i) - Coef(g, i), Coef(g, i) - Coef(h, i), m);
      assert (Coef(f, i) - Coef(g, i)) + (Coef(g, i) - Coef(h, i)) == Coef(f, i) - Coef(h, i);
    }
  }

  lemma CongSame(f: seq<int>, g: seq<int>, m: int)
    requires m > 0 && Same(f, g)
    ensures Cong(f, g, m)
  {
    EvalInjective(f, g);
  }

  /** A congruence modulo m holds modulo every divisor of m. */
  lemma CongWeaken(f: seq<int>, g: seq<int>, m: int, d: int)
    requires m > 0 && d > 0 && m % d == 0 && Cong(f, g, m)
    ensures Cong(f, g, d)
  {
    forall i: int ensures (Coef(f, i) - Coef(g, i)) % d == 0 {
      assert (Coef(f, i) - Coef(g, i)) % m == 0;
      ModTrans(Coef(f, i) - Coef(g, i), m, d);
    }
  }

  lemma CongAdd(a: seq<int>, b: seq<int>, c: seq<int>, d: seq<int>, m: int)
    requires m > 0 && Cong(a, c, m) && Cong(b, d, m)
    ensures Cong(Add(a, b), Add(c, d), m) && Cong(Sub(a, b), Sub(c, d), m)
  {
    hide Add, Sub;
    forall i: int
      ensures (Coef(Add(a, b), i) - Coef(Add(c, d), i)) % m == 0
      ensures (Coef(Sub(a, b), i) - Coef(Sub(c, d), i)) % m == 0
    {
      var u, v := Coef(a, i) - Coef(c, i), Coef(b, i) - Coef(d, i);
      assert u % m == 0 && v % m == 0;
      ModSum(u, v, m);
      SumCoef(a, b, i);
      SumCoef(c, d, i);
    }
  }

  lemma TelescopeTimes(p: int, q: int, r: int, t: int, pr: int, qt: int)
    requires pr == p - r && qt == q - t
    ensures Times(pr, q) + Times(r, qt) == Times(p, q) - Times(r, t)
  {
    Telescope(p, q, r, t);
  }

  lemma MulDifferenceAt(a: seq<int>, b: seq<int>, c: seq<int>, d: seq<int>, x: int)
    ensures Eval(Add(Mul(Sub(a, c), b), Mul(c, Sub(b, d))), x) == Eval(Sub(Mul(a, b), Mul(c, d)), x)
  {
    hide *;
    EvalAdd(Mul(Sub(a, c), b), Mul(c, Sub(b, d)), x);
    EvalTimes(Sub(a, c), b, x);
    EvalTimes(c, Sub(b, d), x);
    EvalSub(a, c, x);
    EvalSub(b, d, x);
    EvalSub(Mul(a, b), Mul(c, d), x);
    EvalTimes(a, b, x);
    EvalTimes(c, d, x);
    TelescopeTimes(Eval(a, x), Eval(b, x), Eval(c, x), Eval(d, x), Eval(Sub(a, c), x), Eval(Sub(b, d), x));
  }

  lemma MulDifference(a: seq<int>, b: seq<int>, c: seq<int>, d: seq<int>)
    ensures Same(Add(Mul(Sub(a, c), b), Mul(c, Sub(b, d))), Sub(Mul(a, b), Mul(c, d)))
  {
    forall x: int
      ensures Eval(Add(Mul(Sub(a, c), b), Mul(c, Sub(b, d))), x) == Eval(Sub(Mul(a, b), Mul(c, d)), x)
    {
      hide *;
      MulDifferenceAt(a, b, c, d, x);
    }
  }

  lemma CongMul(a: seq<int>, b: seq<int>, c: seq<int>, d: seq<int>, m: int)
    requires m > 0 && Cong(a, c, m) && Cong(b, d, m)
    ensures Cong(Mul(a, b), Mul(c, d), m)
  {
    hide Cong, Multiple, Same;
    CongDifference(a, c, m);
    CongDifference(b, d, m);
    MultipleMulAny(Sub(a, c), b, m);
    MultipleMulAny(Sub(b, d), c, m);
    MultipleAdd(Mul(Sub(a, c), b), Mul(c, Sub(b, d)), m);
    MulDifference(a, b, c, d);
    MultipleSame(Add(Mul(Sub(a, c), b), Mul(c, Sub(b, d))), Sub(Mul(a, b), Mul(c, d)), m);
    CongDifference(Mul(a, b), Mul(c, d), m);
  }

  lemma ModCoef(a: seq<int>, m: int, i: int)
    requires m > 0
    ensures Coef(Mod(a, m), i) == if 0 <= i < |a| then a[i] % m else 0
  {
    var f := RawMod(a, m);
    assert Coef(Trim(f), i) == Coef(f, i);
  }

  lemma ModCong(a: seq<int>, m: int)
    requires m > 0
    ensures Cong(Mod(a, m), a, m)
  {
    hide Mod;
    forall i: int ensures (Coef(Mod(a, m), i) - Coef(a, i)) % m == 0 {
      ModCoef(a, m, i);
      if 0 <= i < |a| { ModResidue(a[i], m); }
    }
  }

  /** Reduced, trimmed residues are unique. */
  lemma CongReduced(f: seq<int>, g: seq<int>, m: int)
    requires m > 0 && Cong(f, g, m)
    requires Reduced(f, m) && Reduced(g, m) && Trimmed(f) && Trimmed(g)
    ensures f == g
  {
    forall i: int ensures Coef(f, i) == Coef(g, i) {
      assert (Coef(f, i) - Coef(g, i)) % m == 0;
      ResidueUnique(Coef(f, i), Coef(g, i), m);
    }
    SameCoefTrimmed(f, g);
  }

  // ---- division by a monic polynomial is unique modulo m ----

  /** Splitting off the top coefficient of a factor splits the product. */
  lemma MulSplitTop(q: seq<int>, b: seq<int>)
    requires q != []
    ensures Same(Mul(q, b), Add(Mul(q[..|q| - 1], b), Shift(Scale(Lead(q), b), |q| - 1)))
  {
    var n := |q| - 1;
    forall x: int
      ensures Eval(Mul(q, b), x) == Eval(Add(Mul(q[..n], b), Shift(Scale(Lead(q), b), n)), x)
    {
      EvalMul(q, b, x);
      EvalAdd(Mul(q[..n], b), Shift(Scale(Lead(q), b), n), x);
      EvalMul(q[..n], b, x);
      EvalShift(Scale(Lead(q), b), n, x);
      EvalScale(Lead(q), b, x);
      EvalDropLast(q, x);
      SplitProduct(Eval(q[..n], x), Lead(q), Pow(x, n), Eval(b, x));
    }
  }

  lemma QuotientTop(q: seq<int>, b: seq<int>, r: seq<int>)
    requires q != [] && Monic(b) && |r| < |b|
    ensures Coef(Add(Mul(q, b), r), |q| + |b| - 2) == Lead(q)
  {
    var k := |q| + |b| - 2;
    RawMulTop(q, b);
    assert Coef(Add(Mul(q, b), r), k) == Coef(RawAdd(Mul(q, b), r), k);
    assert Coef(Mul(q, b), k) == Coef(RawMul(q, b), k);
  }

  /** If q·b + r is a multiple of m, b monic and deg r < deg b, then q and r are multiples of m. */
  lemma {:induction false} MonicDivision(q: seq<int>, b: seq<int>, r: seq<int>, m: int)
    requires m > 0 && Monic(b) && |r| < |b|
    requires Multiple(Add(Mul(q, b), r), m)
    ensures Multiple(q, m) && Multiple(r, m)
    decreases |q|
  {
    if q == [] {
      assert Mul(q, b) == [];
      forall i: int ensures Coef(r, i) % m == 0 {
        assert Coef(Add([], r), i) == Coef(RawAdd([], r), i) == Coef(r, i);
        assert Coef(Add([], r), i) % m == 0;
      }
    } else {
      var n, c := |q| - 1, Lead(q);
      QuotientTop(q, b, r);
      assert Coef(Add(Mul(q, b), r), n + |b| - 1) % m == 0;
      MultipleShift(b, c, n, m);
      ModSplitRest(q, b, r, m);
      MonicDivision(q[..n], b, r, m);
      forall i: int ensures Coef(q, i) % m == 0 {
        if 0 <= i < n { assert Coef(q[..n], i) % m == 0; }
      }
    }
  }

  lemma ShiftCoef(b: seq<int>, c: int, n: nat, i: int)
    ensures Coef(Shift(Scale(c, b), n), i) == if n <= i < n + |b| then c * b[i - n] else 0
  {
    if n <= i < n + |b| { assert Shift(Scale(c, b), n)[i] == Scale(c, b)[i - n]; }
  }

  lemma MultipleShift(b: seq<int>, c: int, n: nat, m: int)
    requires m > 0 && c % m == 0
    ensures Multiple(Shift(Scale(c, b), n), m)
  {
    hide Shift, Scale;
    forall i: int ensures Coef(Shift(Scale(c, b), n), i) % m == 0 {
      ShiftCoef(b, c, n, i);
      if n <= i < n + |b| { ModScale(c, b[i - n], m); }
    }
  }

  lemma ModSplitRest(q: seq<int>, b: seq<int>, r: seq<int>, m: int)
    requires m > 0 && q != [] && Multiple(Add(Mul(q, b), r), m)
    requires Multiple(Shift(Scale(Lead(q), b), |q| - 1), m)
    ensures Multiple(Add(Mul(q[..|q| - 1], b), r), m)
  {
    var n := |q| - 1;
    var low, top := Mul(q[..n], b), Shift(Scale(Lead(q), b), n);
    MulSplitTop(q, b);
    MultipleAdd(Add(Mul(q, b), r), top, m);
    var d := Sub(Add(Mul(q, b), r), top);
    forall x: int ensures Eval(d, x) == Eval(Add(low, r), x) {
      EvalSub(Add(Mul(q, b), r), top, x);
      EvalAdd(Mul(q, b), r, x);
      EvalAdd(low, top, x);
      EvalAdd(low, r, x);
      assert Eval(Mul(q, b), x) == Eval(Add(low, top), x);
    }
    MultipleSame(d, Add(low, r), m);
  }
}
