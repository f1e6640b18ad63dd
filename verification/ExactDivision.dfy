/** Contents, primitive parts and exact division over ℤ (packages/cas/src/factor.ts). */
module ExactDivision {
  import opened Options
  import opened Arith
  import opened DensePoly
  import opened Hensel

  // ---- greatest common divisors ----

  /** g divides by exactly the common divisors of a and b (0 when both are 0). */
  ghost predicate IsGcd(g: int, a: int, b: int) {
    g >= 0 && forall d: int :: d > 0 ==> (g % d == 0 <==> a % d == 0 && b % d == 0)
  }

  lemma GcdStep(x: int, y: int, d: int)
    requires x >= 0 && y > 0 && d > 0 && y % d == 0
    ensures (x % y) % d == 0 <==> x % d == 0
  {
    var k := x / y;
    assert x == y * k + x % y;
    ModScale(y, k, d);
    if x % d == 0 { ModSum(x, y * k, d); }
    if (x % y) % d == 0 { ModSum(x % y, y * k, d); }
  }

  lemma AbsDivisible(a: int, d: int)
    requires d > 0
    ensures (Abs(a) as int) % d == 0 <==> a % d == 0
  {
    if a % d == 0 { ModSum(0, a, d); }
    if (Abs(a) as int) % d == 0 { ModSum(0, Abs(a), d); }
  }

  /** `gcdBig`. */
  method GcdBig(a: int, b: int) returns (g: int)
    ensures IsGcd(g, a, b)
  {
    var x: int, y: int := Abs(a), Abs(b);
    forall d: int | d > 0 ensures a % d == 0 && b % d == 0 <==> x % d == 0 && y % d == 0 {
      AbsDivisible(a, d);
      AbsDivisible(b, d);
    }
    while y != 0
      invariant x >= 0 && y >= 0
      invariant forall d: int :: d > 0 ==> (a % d == 0 && b % d == 0 <==> x % d == 0 && y % d == 0)
      decreases y
    {
      forall d: int | d > 0 ensures x % d == 0 && y % d == 0 <==> y % d == 0 && (x % y) % d == 0 {
        if y % d == 0 { GcdStep(x, y, d); }
      }
      x, y := y, x % y;
    }
    g := x;
    forall d: int | d > 0 ensures 0 % d == 0 { MultipleMod(d, 0); }
  }

  // ---- primitive parts ----

  /** The coefficients have no common divisor above 1. */
  ghost predicate IsPrimitive(f: seq<int>) {
    f != [] && Trimmed(f) && forall d: int :: d > 1 ==> !Multiple(f, d)
  }

  ghost predicate PositivePrimitive(f: seq<int>) { IsPrimitive(f) && Lead(f) > 0 }

  /** r is the primitive part of f: a primitive polynomial with positive leading coefficient,
      of which f is a non-zero constant multiple. */
  ghost predicate PrimitivePart(f: seq<int>, r: seq<int>) {
    PositivePrimitive(r) && exists c: int :: c != 0 && f == Scale(c, r)
  }

  /** g divides by exactly the common divisors of the coefficients. */
  ghost predicate IsContent(g: int, f: seq<int>) {
    g >= 0 && forall d: int :: d > 0 ==> (g % d == 0 <==> Multiple(f, d))
  }

  lemma MultipleSnoc(f: seq<int>, c: int, d: int)
    requires d > 0
    ensures Multiple(f + [c], d) <==> Multiple(f, d) && c % d == 0
  {
    if Multiple(f + [c], d) {
      assert Coef(f + [c], |f|) % d == 0;
      forall i: int ensures Coef(f, i) % d == 0 {
        assert Coef(f + [c], i) % d == 0;
        MultipleMod(d, 0);
      }
    }
    if Multiple(f, d) && c % d == 0 {
      forall i: int ensures Coef(f + [c], i) % d == 0 { assert Coef(f, i) % d == 0; }
    }
  }

  /** The reduction in `primitive`: the gcd of all coefficients. */
  method Content(f: seq<int>) returns (g: int)
    ensures IsContent(g, f)
  {
    g := 0;
    forall d: int | d > 0 ensures 0 % d == 0 && Multiple([], d) { MultipleMod(d, 0); }
    for k := 0 to |f|
      invariant IsContent(g, f[..k])
    {
      assert f[..k + 1] == f[..k] + [f[k]];
      var next := GcdBig(g, f[k]);
      forall d: int | d > 0 ensures next % d == 0 <==> Multiple(f[..k + 1], d) {
        MultipleSnoc(f[..k], f[k], d);
      }
      g := next;
    }
    assert f[..|f|] == f;
  }

  lemma ContentPositive(g: int, f: seq<int>)
    requires IsContent(g, f) && f != [] && Trimmed(f)
    ensures g > 0 && Multiple(f, g)
  {
    var big := Abs(Lead(f)) + 1;
    if g == 0 {
      MultipleMod(big, 0);
      assert g % big == 0 <==> Multiple(f, big);
      assert Coef(f, |f| - 1) % big == 0;
      SmallMultiple(Lead(f), big);
    }
    MultipleMod(g, 1);
  }

  lemma MultipleScale(f: seq<int>, c: int, r: seq<int>, d: int)
    requires c != 0 && d > 0 && f == Scale(c, r) && Multiple(r, d)
    ensures Abs(c) * d > 0 && Multiple(f, Abs(c) * d)
  {
    MulMonotone(1, d, Abs(c));
    forall i: int ensures Coef(f, i) % (Abs(c) * d) == 0 {
      assert Coef(r, i) % d == 0;
      var k := DivisibleBy(Coef(r, i), d);
      assert Coef(f, i) == c * Coef(r, i);
      MultipleIs(Coef(f, i), Abs(c) * d, if c < 0 then -k else k);
    }
  }

  lemma DividesSelfTimes(g: int, d: int)
    requires g > 0 && d > 0 && g * d > 0 && g % (g * d) == 0
    ensures d == 1
  {
    if d > 1 {
      MulMonotone(2, d, g);
      SmallMultiple(g, g * d);
    }
  }

  /** Dividing by the content leaves a primitive polynomial. */
  lemma PrimitiveQuotient(f: seq<int>, g: int, c: int, r: seq<int>)
    requires f != [] && Trimmed(f) && IsContent(g, f) && Abs(c) == g && c != 0 && f == Scale(c, r)
    ensures IsPrimitive(r)
  {
    assert Lead(f) == c * Lead(r);
    forall d: int | d > 1 ensures !Multiple(r, d) {
      if Multiple(r, d) {
        MultipleScale(f, c, r, d);
        DividesSelfTimes(g, d);
      }
    }
  }

  lemma NonzeroProduct(a: int, b: int)
    requires a != 0 && b != 0
    ensures a * b != 0
  {}

  lemma TruncExact(a: int, b: int)
    requires b != 0
    ensures TruncMod(a, b) == 0 <==> a % b == 0
    ensures a % b == 0 ==> a == b * TruncDiv(a, b)
  {
    if a >= 0 {
      assert TruncMod(a, b) == a % b;
    } else {
      assert -a == b * ((-a) / b) + (-a) % b;
      assert TruncMod(a, b) == -((-a) % b);
      if a % b == 0 { ModSum(0, a, b); }
      if (-a) % b == 0 { ModSum(0, -a, b); }
    }
  }

  /** `primitive`. */
  method Primitive(f: seq<int>) returns (r: seq<int>)
    requires Trimmed(f)
    ensures f == [] ==> r == []
    ensures f != [] ==> PrimitivePart(f, r)
  {
    var content := Content(f);
    var sign := if f != [] && Lead(f) < 0 then -1 else 1;
    if content == 0 {
      if f != [] { ContentPositive(content, f); }
      return f;
    }
    r := seq(|f|, i requires 0 <= i < |f| => TruncDiv(sign * f[i], content));
    if f != [] {
      ContentPositive(content, f);
      var c := sign * content;
      forall i | 0 <= i < |f| ensures f[i] == c * r[i] {
        assert Coef(f, i) % content == 0;
        ModScale(f[i], sign, content);
        TruncExact(sign * f[i], content);
        assert sign * f[i] == content * r[i];
      }
      assert f == Scale(c, r);
      PrimitiveQuotient(f, content, c, r);
    }
  }

  /** The primitive part is unique; a primitive polynomial with positive lead is its own. */
  lemma PrimitivePartUnique(f: seq<int>, r: seq<int>, s: seq<int>)
    requires PrimitivePart(f, r) && PrimitivePart(f, s)
    ensures r == s
  {
    var c: int :| c != 0 && f == Scale(c, r);
    var d: int :| d != 0 && f == Scale(d, s);
    forall i | 0 <= i < |f| ensures c * r[i] == d * s[i] { assert f[i] == c * r[i]; assert f[i] == d * s[i]; }
    ScalarDivides(c, r, d, s);
    ScalarDivides(d, s, c, r);
    assert c * Lead(r) == d * Lead(s);
    SameSign(c, d, Lead(r), Lead(s));
    forall i | 0 <= i < |r| ensures r[i] == s[i] { CancelLeft(c, r[i], s[i]); }
  }

  lemma CancelLeft(c: int, a: int, b: int)
    requires c != 0 && c * a == c * b
    ensures a == b
  {
    assert c * (a - b) == 0;
  }

  lemma SameSign(c: int, d: int, a: int, b: int)
    requires (c == d || c == -d) && d != 0 && a > 0 && b > 0 && c * a == d * b
    ensures c == d
  {
    assert c == -d ==> d * (a + b) == 0;
    NonzeroProduct(d, a + b);
  }

  /** If c·r = d·s with r and s primitive, then d divides c: the content of d·s is |d|. */
  lemma ScalarDivides(c: int, r: seq<int>, d: int, s: seq<int>)
    requires c != 0 && d != 0 && |r| == |s| && IsPrimitive(r) && IsPrimitive(s)
    requires forall i :: 0 <= i < |r| ==> c * r[i] == d * s[i]
    ensures c % Abs(d) == 0
  {
    var g, u, v := Bezout(c, Abs(d));
    var c' := DivisibleBy(c, g);
    var d' := DivisibleBy(Abs(d), g);
    if d' <= 0 { MulMonotone(d', 0, g); }
    var e := if d < 0 then -d' else d';
    assert d == g * e;
    forall i: int ensures Coef(r, i) % d' == 0 {
      if 0 <= i < |r| {
        assert c * r[i] == d * s[i];
        ReducedDivides(c', d', e, g, u, v, r[i], s[i], c, d);
      } else {
        MultipleMod(d', 0);
      }
    }
    if d' > 1 { assert Multiple(r, d'); }
    assert Abs(d) == g;
  }

  lemma ReducedDivides(c': int, d': int, e: int, g: int, u: int, v: int, r: int, s: int, c: int, d: int)
    requires g > 0 && d' > 0 && (e == d' || e == -d') && c == g * c' && d == g * e && c * r == d * s
    requires u * c' + v * d' == 1
    ensures r % d' == 0
  {
    assert g * (c' * r) == g * (e * s);
    CancelLeft(g, c' * r, e * s);
    ReducedExpanded(c', d', u, v, r);
    if e == d' {
      MultipleIs(c' * r, d', s);
    } else {
      MultipleIs(c' * r, d', -s);
    }
    ModScale(c' * r, u, d');
    MultipleMod(d', v * r);
    ModSum(u * (c' * r), d' * (v * r), d');
  }

  lemma ReducedExpanded(c': int, d': int, u: int, v: int, r: int)
    requires u * c' + v * d' == 1
    ensures u * (c' * r) + d' * (v * r) == r
  {
    assert u * (c' * r) + d' * (v * r) == (u * c' + v * d') * r;
  }

  // ---- exact division ----

  /** d divides f over ℤ. */
  ghost predicate DividesPoly(d: seq<int>, f: seq<int>) { exists q: seq<int> :: Mul(q, d) == f }

  /** If Q·d = q·d + r and r is cleared from index i + |d| on, then the coefficient of r at
      i + |d| − 1 is a multiple of the leading coefficient of d, and r vanishes when i < 0. */
  lemma ExactTop(Q: seq<int>, q: seq<int>, d: seq<int>, r: seq<int>, i: int)
    requires d != [] && Trimmed(d) && i >= -1
    requires Same(Mul(Q, d), Add(Mul(q, d), r))
    requires forall k: int :: k >= i + |d| ==> Coef(r, k) == 0
    ensures Coef(r, i + |d| - 1) % Lead(d) == 0
    ensures i == -1 ==> forall k: int :: Coef(r, k) == 0
  {
    var e := Sub(Q, q);
    forall x: int ensures Eval(Mul(e, d), x) == Eval(r, x) { ExactDifference(Q, q, d, r, x); }
    EvalInjective(Mul(e, d), r);
    var k := i + |d| - 1;
    assert Coef(r, k) == Coef(Mul(e, d), k);
    MultipleMod(Lead(d), 0);
    if e != [] {
      MulTop(e, d, r);
      if k == |e| + |d| - 2 { MultipleIs(Coef(r, k), Lead(d), Lead(e)); }
    }
  }

  lemma MulTop(e: seq<int>, d: seq<int>, r: seq<int>)
    requires e != [] && d != [] && Trimmed(e) && Trimmed(d)
    requires forall k: int :: Coef(r, k) == Coef(Mul(e, d), k)
    ensures Coef(r, |e| + |d| - 2) == Lead(d) * Lead(e) != 0
    ensures forall k: int :: k > |e| + |d| - 2 ==> Coef(r, k) == 0
  {
    MulLead(e, d);
    assert Coef(r, |e| + |d| - 2) == Coef(Mul(e, d), |e| + |d| - 2);
  }

  lemma ExactDifference(Q: seq<int>, q: seq<int>, d: seq<int>, r: seq<int>, x: int)
    requires Eval(Mul(Q, d), x) == Eval(Add(Mul(q, d), r), x)
    ensures Eval(Mul(Sub(Q, q), d), x) == Eval(r, x)
  {
    hide *;
    EvalMul(Sub(Q, q), d, x);
    EvalSub(Q, q, x);
    EvalMul(Q, d, x);
    EvalAdd(Mul(q, d), r, x);
    EvalMul(q, d, x);
  }

  /** The loop state: q·d + r means f, and the quotient and the remainder are filled from the top. */
  ghost predicate ExactState(f: seq<int>, q: seq<int>, d: seq<int>, r: seq<int>, i: int) {
    && |q| == Max(0, |r| - |d| + 1)
    && Same(f, Add(Mul(q, d), r))
    && (forall k :: 0 <= k < |q| && k <= i ==> q[k] == 0)
    && (forall k :: 0 <= k < |r| && i + |d| <= k ==> r[k] == 0)
  }

  lemma ExactStart(f: seq<int>, q: seq<int>, d: seq<int>)
    requires d != [] && |q| == Max(0, |f| - |d| + 1) && forall k :: 0 <= k < |q| ==> q[k] == 0
    ensures ExactState(f, q, d, f, |f| - |d|)
  {
    forall x: int ensures Eval(f, x) == Eval(Add(Mul(q, d), f), x) {
      EvalAdd(Mul(q, d), f, x);
      EvalMul(q, d, x);
      EvalZeros(q, x);
    }
  }

  lemma SubtractRow(r: seq<int>, r': seq<int>, d: seq<int>, i: nat, c: int)
    requires i + |d| <= |r| && |r'| == |r|
    requires forall k :: 0 <= k < |r| ==> r'[k] == r[k] + Coef(Shift(Scale(-c, d), i), k)
    ensures forall k: int :: Coef(r', k) == Coef(Sub(r, Shift(Scale(c, d), i)), k)
    ensures forall k :: i + |d| <= k < |r| ==> r'[k] == r[k]
    ensures d != [] ==> r'[i + |d| - 1] == r[i + |d| - 1] - c * Lead(d)
  {
    var row, neg := Shift(Scale(c, d), i), Shift(Scale(-c, d), i);
    forall k: int ensures Coef(neg, k) == -Coef(row, k) {
      if i <= k < i + |d| {
        NegatedProduct(c, d[k - i]);
      }
    }
    assert d != [] ==> Coef(row, i + |d| - 1) == c * Lead(d);
    forall k: int ensures Coef(r', k) == Coef(Sub(r, row), k) {
      assert Coef(Sub(r, row), k) == Coef(RawSub(r, row), k) == Coef(r, k) - Coef(row, k);
    }
  }

  lemma NegatedProduct(c: int, e: int)
    ensures (-c) * e == -(c * e)
  {}

  lemma ExactStep(f: seq<int>, q: seq<int>, d: seq<int>, r: seq<int>, r': seq<int>, i: nat, c: int)
    requires d != [] && i < |q| && ExactState(f, q, d, r, i)
    requires |r'| == |r| && r[i + |d| - 1] == Lead(d) * c
    requires forall k :: 0 <= k < |r| ==> r'[k] == r[k] + Coef(Shift(Scale(-c, d), i), k)
    ensures ExactState(f, q[i := c], d, r', i - 1)
  {
    var row := Shift(Scale(c, d), i);
    hide Mul, Shift, Scale, Coef, Add, Sub, Same, Lead;
    SubtractRow(r, r', d, i, c);
    DivisionStep(q, d, r, i, c);
    SameRemainder(f, q, q[i := c], d, r, r', row);
  }

  lemma SameRemainder(f: seq<int>, q: seq<int>, q': seq<int>, d: seq<int>, r: seq<int>, r': seq<int>, row: seq<int>)
    requires Same(f, Add(Mul(q, d), r)) && Same(Add(Mul(q', d), Sub(r, row)), Add(Mul(q, d), r))
    requires forall k: int :: Coef(r', k) == Coef(Sub(r, row), k)
    ensures Same(f, Add(Mul(q', d), r'))
  {
    forall x: int ensures Eval(f, x) == Eval(Add(Mul(q', d), r'), x) {
      hide Mul, Add, Sub, Coef;
      EvalCoef(r', Sub(r, row), x);
      EvalAdd(Mul(q', d), r', x);
      EvalAdd(Mul(q', d), Sub(r, row), x);
      assert Eval(Add(Mul(q', d), Sub(r, row)), x) == Eval(Add(Mul(q, d), r), x);
    }
  }

  lemma ExactFail(f: seq<int>, q: seq<int>, d: seq<int>, r: seq<int>, i: int)
    requires d != [] && Trimmed(d) && -1 <= i <= |r| - |d| && ExactState(f, q, d, r, i)
    requires (i >= 0 && r[i + |d| - 1] % Lead(d) != 0) || (i == -1 && exists k: int :: Coef(r, k) != 0)
    ensures !DividesPoly(d, f)
  {
    hide Mul, Add;
    if DividesPoly(d, f) {
      var Q :| Mul(Q, d) == f;
      ExactTop(Q, q, d, r, i);
    }
  }

  lemma ExactShort(f: seq<int>, q: seq<int>, d: seq<int>, r: seq<int>, i: int)
    requires d != [] && Trimmed(d) && i < -1 && i == |r| - |d| && ExactState(f, q, d, r, i) && exists k: int :: Coef(r, k) != 0
    ensures !DividesPoly(d, f)
  {
    hide Mul, Add;
    if DividesPoly(d, f) {
      var Q :| Mul(Q, d) == f;
      ExactTop(Q, q, d, r, -1);
    }
  }

  lemma ExactDone(f: seq<int>, q: seq<int>, d: seq<int>, r: seq<int>, i: int)
    requires Trimmed(f) && ExactState(f, q, d, r, i) && forall k: int :: Coef(r, k) == 0
    ensures Mul(Trim(q), d) == f
  {
    forall x: int ensures Eval(Mul(Trim(q), d), x) == Eval(f, x) {
      EvalMul(Trim(q), d, x);
      EvalTrim(q, x);
      EvalAdd(Mul(q, d), r, x);
      EvalMul(q, d, x);
      EvalCoef(r, [], x);
    }
    Canonical(Mul(Trim(q), d), f);
  }

  /** `exactQuotient`: the quotient exactly when d divides f over ℤ. */
  method ExactQuotient(f: seq<int>, d: seq<int>) returns (res: Option<seq<int>>)
    requires Trimmed(f) && d != [] && Trimmed(d)
    ensures res.Some? <==> DividesPoly(d, f)
    ensures res.Some? ==> Trimmed(res.value) && Mul(res.value, d) == f
  {
    hide Mul, Add, ExactState, DividesPoly, Shift, Scale;
    var rest := new int[|f|](i requires 0 <= i < |f| => f[i]);
    assert rest[..] == f;
    var lead := Lead(d);
    var n := Max(0, |f| - |d| + 1);
    var quot := new int[n](_ => 0);
    ExactStart(f, quot[..], d);
    var i := rest.Length - |d|;
    while i >= 0
      invariant -1 <= i < n || i == rest.Length - |d|
      invariant i <= rest.Length - |d|
      invariant ExactState(f, quot[..], d, rest[..], i)
    {
      var top := rest[i + |d| - 1];
      TruncExact(top, lead);
      if TruncMod(top, lead) != 0 {
        ExactFail(f, quot[..], d, rest[..], i);
        return None;
      }
      var c := TruncDiv(top, lead);
      ghost var r0, q0 := rest[..], quot[..];
      quot[i] := c;
      AddRow(rest, i, -c, d);
      assert quot[..] == q0[i := c];
      ExactStep(f, q0, d, r0, rest[..], i, c);
      i := i - 1;
    }
    var tail := Trim(rest[..]);
    if |tail| == 0 {
      forall k: int ensures Coef(rest[..], k) == 0 { assert Coef(tail, k) == 0; }
      ExactDone(f, quot[..], d, rest[..], i);
      res := Some(Trim(quot[..]));
      assert DividesPoly(d, f) by { QuotientDivides(res.value, d, f); }
    } else {
      assert Coef(rest[..], |tail| - 1) != 0;
      if i == -1 { ExactFail(f, quot[..], d, rest[..], i); } else { ExactShort(f, quot[..], d, rest[..], i); }
      res := None;
    }
  }

  lemma QuotientDivides(q: seq<int>, d: seq<int>, f: seq<int>)
    requires Mul(q, d) == f
    ensures DividesPoly(d, f)
  {}
}
