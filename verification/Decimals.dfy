/** Terminating decimals (`decimalText`, packages/cas/src/emit.ts): the text of a rational, and when it has one. */
module Decimals {
  import opened Options
  import opened Arith
  import opened Rationals

  // ---- digits ----

  function Digit(d: nat): char
    requires d < 10
  {
    '0' + d as char
  }

  function DigitValue(c: char): nat { if '0' <= c <= '9' then (c - '0') as nat else 0 }

  /** `toString` of a natural number. */
  function TextOf(n: nat): (s: string)
    ensures |s| > 0
  {
    if n < 10 then [Digit(n)] else TextOf(n / 10) + [Digit(n % 10)]
  }

  /** The number that a run of digits reads as. */
  function Read(s: string): nat { if s == [] then 0 else 10 * Read(s[..|s| - 1]) + DigitValue(s[|s| - 1]) }

  lemma {:induction false} ReadText(n: nat)
    ensures Read(TextOf(n)) == n
  {
    if n < 10 {
      assert TextOf(n)[..0] == [];
    } else {
      ReadText(n / 10);
      assert TextOf(n)[..|TextOf(n)| - 1] == TextOf(n / 10);
    }
  }

  /** Leading zeros do not count. */
  lemma {:induction false} ReadZeros(s: string, k: nat)
    ensures Read(Zeros(k) + s) == Read(s)
    decreases |s|
  {
    if s == [] {
      assert Zeros(k) + s == Zeros(k);
      ZerosRead(k);
    } else {
      var front := s[..|s| - 1];
      ReadZeros(front, k);
      assert Zeros(k) + s == (Zeros(k) + front) + [s[|s| - 1]];
    }
  }

  function Zeros(k: nat): (s: string)
    ensures |s| == k && forall i :: 0 <= i < k ==> s[i] == '0'
  {
    seq(k, i => '0')
  }

  lemma {:induction false} ZerosRead(k: nat)
    ensures Read(Zeros(k)) == 0
  {
    if k > 0 {
      assert Zeros(k)[..k - 1] == Zeros(k - 1);
      ZerosRead(k - 1);
    }
  }

  /** `padStart(length, '0')`. */
  function PadStart(s: string, length: nat): (r: string)
    ensures |r| >= length && |r| >= |s|
  {
    if |s| >= length then s else Zeros(length - |s|) + s
  }

  /** The number of tenths, hundredths, ... that a text with k places after its point stands for. */
  function WithoutPoint(text: string, k: nat): string
    requires k < |text|
  {
    text[..|text| - k - 1] + text[|text| - k..]
  }

  // ---- removing factors of 2 and 5 ----

  function WithoutFactor(d: nat, f: nat): nat
    requires f == 2 || f == 5
    decreases d
  {
    if d > 0 && d % f == 0 then
      assert d / 2 < d && d / 5 < d;
      WithoutFactor(d / f, f)
    else d
  }

  /** Whether q = n/d terminates as a decimal: d has no prime factor but 2 and 5. */
  predicate Terminates(q: Rational) { WithoutFactor(WithoutFactor(q.d, 2), 5) == 1 }

  /** d without its factors f, and how many there were. */
  method StripFactor(d: nat, f: nat) returns (rest: nat, count: nat)
    requires d > 0 && (f == 2 || f == 5)
    ensures rest > 0 && rest % f != 0 && d == Pow(f, count) * rest && rest == WithoutFactor(d, f)
  {
    rest, count := d, 0;
    while rest % f == 0
      invariant rest > 0 && d == Pow(f, count) * rest && WithoutFactor(rest, f) == WithoutFactor(d, f)
      decreases rest
    {
      ghost var before := rest;
      rest := if f == 2 then rest / 2 else rest / 5;
      Regroup(Pow(f, count), f, rest);
      count := count + 1;
    }
  }

  lemma Regroup(p: int, f: int, r: int)
    ensures p * (f * r) == f * p * r
  {}

  /** 10^k is a multiple of 2^a and of 5^b for k at least a and b. */
  lemma {:induction false} TenPower(k: nat)
    ensures Pow(10, k) == Pow(2, k) * Pow(5, k)
  {
    if k > 0 {
      TenPower(k - 1);
      var p, q := Pow(2, k - 1), Pow(5, k - 1);
      assert 10 * (p * q) == (2 * p) * (5 * q);
    }
  }

  lemma TenCovers(a: nat, b: nat, k: nat) returns (x: int)
    requires a <= k && b <= k
    ensures Pow(10, k) == Pow(2, a) * Pow(5, b) * x
  {
    TenPower(k);
    PowAdd(2, a, k - a);
    PowAdd(5, b, k - b);
    x := Pow(2, k - a) * Pow(5, k - b);
    Shuffle(Pow(2, a), Pow(2, k - a), Pow(5, b), Pow(5, k - b));
  }

  lemma Shuffle(a: int, b: int, c: int, d: int)
    ensures (a * b) * (c * d) == a * c * (b * d)
  {}

  // ---- when a decimal terminates ----

  lemma CoprimeProduct(a: int, p: int, q: int)
    requires Coprime(a, p) && Coprime(a, q)
    ensures Coprime(a, p * q)
  {
    var u, v :| Combination(a, p, u, v) == 1;
    var w, z :| Combination(a, q, w, z) == 1;
    assert Combination(a, p * q, u * w * a + u * z * q + v * p * w, v * z) == 1;
  }

  /** A factor of a denominator is coprime to the numerator. */
  lemma CoprimeFactor(n: int, d: int, f: int, r: int)
    requires Coprime(n, d) && d == f * r
    ensures Coprime(r, n)
  {
    var u, v :| Combination(n, d, u, v) == 1;
    assert v * (f * r) == v * f * r;
    assert Combination(r, n, v * f, u) == 1;
  }

  /** A denominator with another prime factor divides no multiple of its numerator by a power of ten. */
  lemma NeverTerminates(n: int, d: int, f: int, r: int, k: nat)
    requires Coprime(n, d) && d == f * r && d > 0 && r > 1 && r % 2 != 0 && r % 5 != 0
    ensures (n * Pow(10, k)) % d != 0
  {
    assert Prime(2) && Prime(5);
    PrimeCoprime(r, 2);
    PrimeCoprime(r, 5);
    CoprimePower(r, 2, k);
    CoprimePower(r, 5, k);
    TenPower(k);
    CoprimeProduct(r, Pow(2, k), Pow(5, k));
    CoprimeFactor(n, d, f, r);
    CoprimeProduct(r, n, Pow(10, k));
    if (n * Pow(10, k)) % d == 0 {
      MultipleIs(d, r, f);
      ModTrans(n * Pow(10, k), d, r);
      MultipleIs(r, r, 1);
      CoprimeDivisor(r, n * Pow(10, k), r);
    }
  }

  // ---- decimalText ----

  /** The text stands for n/d: a whole number, or `places` digits after a point. */
  predicate Denotes(text: string, places: nat, n: int, d: int) {
    if places == 0 then Read(text) * d == n
    else places < |text| && text[|text| - places - 1] == '.' && Read(WithoutPoint(text, places)) * d == n * Pow(10, places)
  }

  /** `decimalText` of a non-negative rational in lowest terms: exact where it answers, and it answers exactly where some
      power of ten clears the denominator. */
  method DecimalText(q: Rational) returns (text: Option<string>, places: nat)
    requires q.n >= 0 && Coprime(q.n, q.d)
    ensures text.Some? ==> Denotes(text.value, places, q.n, q.d)
    ensures text.Some? <==> Terminates(q)
    ensures text.Some? <==> exists k: nat :: (q.n * Pow(10, k)) % q.d == 0
  {
    hide Read, WithoutPoint, Coprime, Pow;
    var d, twos := StripFactor(q.d, 2);
    var odd := d;
    var fives;
    d, fives := StripFactor(d, 5);
    ghost var f := Pow(2, twos) * Pow(5, fives);
    Regrouped(Pow(2, twos), Pow(5, fives), d);
    if d != 1 {
      StillOdd(odd, Pow(5, fives), d);
      forall k: nat ensures (q.n * Pow(10, k)) % q.d != 0 { NeverTerminates(q.n, q.d, f, d, k); }
      return None, 0;
    }
    places := if twos < fives then fives else twos;
    ghost var x := TenCovers(twos, fives, places);
    Exactly(q.n, q.d, x, Pow(10, places));
    PowPositive(10, places);
    var number := q.n * Pow(10, places) / q.d;
    var t := Render(number, places);
    assert (q.n * Pow(10, places)) % q.d == 0;
    PowZero(10);
    text := Some(t);
  }

  lemma PowZero(x: int)
    ensures Pow(x, 0) == 1
  {}

  /** The digits of a number with a point before the last `places` of them. */
  method Render(number: nat, places: nat) returns (text: string)
    ensures places == 0 ==> Read(text) == number
    ensures places > 0 ==>
              places < |text| && text[|text| - places - 1] == '.' && Read(WithoutPoint(text, places)) == number
  {
    hide Read;
    var digits := PadStart(TextOf(number), places + 1);
    PaddedRead(number, places + 1);
    if places == 0 { return digits; }
    var whole, fraction := digits[..|digits| - places], digits[|digits| - places..];
    text := whole + "." + fraction;
    assert text[..|text| - places - 1] == whole && text[|text| - places..] == fraction;
    assert whole + fraction == digits;
  }

  lemma Regrouped(a: int, b: int, c: int)
    ensures a * (b * c) == a * b * c
  {}

  /** A factor of an odd number is odd. */
  lemma StillOdd(odd: int, f: int, r: int)
    requires odd == f * r && odd % 2 != 0
    ensures r % 2 != 0
  {
    var h := r / 2;
    assert r % 2 == 0 ==> f * r == 2 * (f * h);
  }

  lemma Exactly(n: int, d: int, x: int, ten: int)
    requires d > 0 && ten == d * x && n >= 0
    ensures n * ten == (n * ten / d) * d && (n * ten) % d == 0 && (n >= 0 && ten >= 0 ==> n * ten / d >= 0)
  {
    assert n * (d * x) == d * (n * x);
    MultipleIs(n * ten, d, n * x);
    var q := n * ten / d;
    assert q * d == n * ten;
    if n * ten >= 0 && q < 0 { MulMonotone(q, -1, d); }
  }

  lemma PaddedRead(n: nat, length: nat)
    ensures Read(PadStart(TextOf(n), length)) == n
  {
    ReadText(n);
    if |TextOf(n)| < length { ReadZeros(TextOf(n), length - |TextOf(n)|); }
  }
}
