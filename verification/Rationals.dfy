/** Exact rationals in lowest terms, as the value of a literal. */
module Rationals {
  import opened Arith
  import opened Reals

  function Gcd(a: nat, b: nat): nat
    decreases b
  {
    if b == 0 then a else Gcd(b, a % b)
  }

  /** The gcd divides both numbers. */
  lemma {:induction false} GcdParts(a: nat, b: nat) returns (k: nat, l: nat)
    ensures a == Gcd(a, b) * k && b == Gcd(a, b) * l
    decreases b
  {
    if b == 0 {
      k, l := 1, 0;
    } else {
      var g := Gcd(a, b);
      var i, j := GcdParts(b, a % b);
      k, l := (a / b) * i + j, i;
      assert a == (a / b) * (g * i) + g * j;
      Factor(a / b, g, i, j);
    }
  }

  lemma Factor(q: int, g: int, i: int, j: int)
    ensures q * (g * i) + g * j == g * (q * i + j)
  {}

  datatype Fraction = Fraction(n: int, d: int)

  type Rational = f: Fraction | f.d > 0 witness Fraction(0, 1)

  function Val(q: Rational): real { q.n as real / q.d as real }

  /** n/d in lowest terms with a positive denominator. */
  function Make(n: int, d: int): Rational
    requires d != 0
  {
    var (m, e) := if d < 0 then (-n, -d) else (n, d);
    var a: nat := if m < 0 then -m else m;
    var g := Gcd(a, e);
    GcdFits(a, e);
    Fraction(if m < 0 then -(a / g) else a / g, e / g)
  }

  lemma GcdFits(a: nat, e: nat)
    requires e > 0
    ensures Gcd(a, e) > 0 && e / Gcd(a, e) > 0
    ensures a == Gcd(a, e) * (a / Gcd(a, e)) && e == Gcd(a, e) * (e / Gcd(a, e))
  {
    var k, l := GcdParts(a, e);
    var g := Gcd(a, e);
    assert g > 0 && l > 0;
    DivideBack(g, k);
    DivideBack(g, l);
  }

  lemma DivideBack(g: int, k: int)
    requires g > 0
    ensures g * k / g == k
  {
    var q := g * k / g;
    MultipleMod(g, k);
    assert g * k == g * q;
    assert g * (k - q) == 0;
    if k - q >= 1 { MulMonotone(1, k - q, g); }
    if k - q <= -1 { MulMonotone(k - q, -1, g); }
  }

  lemma SameRatio(a: real, b: real, c: real, d: real)
    requires b != 0.0 && d != 0.0 && Times(a, d) == Times(c, b)
    ensures a / b == c / d
  {
    assert a == Times(c, b) / d;
    assert a / b == (Times(c, b) / d) / b;
  }

  lemma MakeParts(n: int, d: int)
    requires d != 0
    ensures n * Make(n, d).d == Make(n, d).n * d
  {
    var (m, e) := if d < 0 then (-n, -d) else (n, d);
    var a: nat := if m < 0 then -m else m;
    GcdFits(a, e);
    var g := Gcd(a, e);
    var k, l := a / g, e / g;
    assert Make(n, d) == Fraction(if m < 0 then -k else k, l);
    hide Gcd, Make;
    Signed(a, e, g, k, l, n, d);
  }

  lemma Signed(a: int, e: int, g: int, k: int, l: int, n: int, d: int)
    requires a == g * k && e == g * l && (d == e || d == -e) && (n == a || n == -a)
    ensures a * l == k * e && -a * l == -k * e
    ensures a * l == -k * -e && -a * l == k * -e
  {
    CrossMultiply(g, k, l);
  }

  lemma MakeValue(n: int, d: int)
    requires d != 0
    ensures Val(Make(n, d)) == n as real / d as real
  {
    var q := Make(n, d);
    MakeParts(n, d);
    hide Make;
    Crossed(n, q.d, q.n, d);
    SameRatio(q.n as real, q.d as real, n as real, d as real);
  }

  lemma CrossMultiply(g: int, k: int, l: int)
    ensures g * k * l == k * (g * l)
  {}

  lemma Crossed(a: int, b: int, c: int, d: int)
    requires a * b == c * d
    ensures Times(a as real, b as real) == Times(c as real, d as real)
  {
    assert a as real * b as real == (a * b) as real;
    assert c as real * d as real == (c * d) as real;
  }

  // ---- arithmetic ----

  function Plus(a: Rational, b: Rational): Rational { Make(a.n * b.d + b.n * a.d, Denominator(a, b)) }

  function Denominator(a: Rational, b: Rational): (d: int)
    ensures d != 0
  {
    MulMonotone(1, b.d, a.d);
    a.d * b.d
  }

  function Negated(a: Rational): Rational { Fraction(-a.n, a.d) }

  function Minus(a: Rational, b: Rational): Rational { Plus(a, Negated(b)) }

  function Multiplied(a: Rational, b: Rational): Rational { Make(a.n * b.n, Denominator(a, b)) }

  function Divided(a: Rational, b: Rational): Rational
    requires b.n != 0
  {
    Cancel(a.d, b.n);
    Make(a.n * b.d, a.d * b.n)
  }

  lemma Cancel(x: int, y: int)
    requires x != 0 && y != 0
    ensures x * y != 0
  {}

  lemma NegatedValue(a: Rational)
    ensures Val(Negated(a)) == -Val(a)
  {
    var d := a.d as real;
    SameRatio(-(a.n as real), d, -Val(a), 1.0);
  }

  /** x/d for a value x = n/d. */
  lemma ValueTimes(a: Rational)
    ensures Times(Val(a), a.d as real) == a.n as real
  {}

  lemma WholeSum(m: int, e: int, n: int, d: int)
    ensures (m * e + n * d) as real == m as real * e as real + n as real * d as real
    ensures (d * e) as real == d as real * e as real
  {}

  lemma PlusValue(a: Rational, b: Rational)
    ensures Val(Plus(a, b)) == Val(a) + Val(b)
  {
    var x, y, d, e := Val(a), Val(b), a.d as real, b.d as real;
    ValueTimes(a);
    ValueTimes(b);
    MakeValue(a.n * b.d + b.n * a.d, Denominator(a, b));
    hide Val, Make, Times;
    WholeSum(a.n, b.d, b.n, a.d);
    SumRatio(x, y, d, e, a.n as real, b.n as real);
  }

  lemma SumRatio(x: real, y: real, d: real, e: real, m: real, n: real)
    requires d != 0.0 && e != 0.0 && Times(x, d) == m && Times(y, e) == n
    ensures d * e != 0.0 && (m * e + n * d) / (d * e) == x + y
  {
    NonzeroProduct(d, e);
    assert m * e + n * d == (x + y) * (d * e) by {
      assert x * d * e == x * (d * e);
      assert y * e * d == y * (d * e);
    }
    DivideOut(x + y, d * e);
  }

  lemma DivideOut(x: real, d: real)
    requires d != 0.0
    ensures x * d / d == x
  {}

  lemma MultipliedValue(a: Rational, b: Rational)
    ensures Val(Multiplied(a, b)) == Times(Val(a), Val(b))
  {
    var x, y, d, e := Val(a), Val(b), a.d as real, b.d as real;
    ValueTimes(a);
    ValueTimes(b);
    MakeValue(a.n * b.n, Denominator(a, b));
    assert (a.n * b.n) as real == a.n as real * b.n as real;
    assert (a.d * b.d) as real == d * e;
    NonzeroProduct(d, e);
    assert a.n as real * b.n as real == x * y * (d * e) by { TimesSwap(x, d, y, e); }
    DivideOut(x * y, d * e);
  }

  lemma DividedValue(a: Rational, b: Rational)
    requires b.n != 0
    ensures Val(b) != 0.0 && Val(Divided(a, b)) == Val(a) / Val(b)
  {
    var x, y, d, e := Val(a), Val(b), a.d as real, b.d as real;
    ValueTimes(a);
    ValueTimes(b);
    TimesUnit(e);
    Cancel(a.d, b.n);
    MakeValue(a.n * b.d, a.d * b.n);
    IntTimes(a.n, b.d);
    IntTimes(a.d, b.n);
    hide Times, Val, Make;
    QuotientRatio(x, y, d, e, a.n as real, b.n as real);
  }

  lemma IntTimes(a: int, b: int)
    ensures (a * b) as real == Times(a as real, b as real)
  {}

  lemma QuotientRatio(x: real, y: real, d: real, e: real, m: real, n: real)
    requires d != 0.0 && e != 0.0 && y != 0.0 && Times(x, d) == m && Times(y, e) == n
    ensures Times(d, n) != 0.0 && Times(m, e) / Times(d, n) == x / y
  {
    NonzeroProduct(y, e);
    NonzeroProduct(d, n);
    assert Times(m * e, y) == Times(x, d * n) by {
      assert m * e * y == x * d * (e * y);
      assert x * (d * n) == x * d * (y * e);
    }
    SameRatio(m * e, d * n, x, y);
  }
}
