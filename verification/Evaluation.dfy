/** Evaluation at an integer and symmetric base-x digits (`evaluate` and `interpolate`,
    packages/cas/src/factor.ts). */
module Evaluation {
  import opened Arith
  import opened DensePoly

  /** `evaluate`: Horner's rule from the top coefficient down. */
  method Evaluate(f: seq<int>, x: int) returns (value: int)
    ensures value == Eval(f, x)
  {
    value := 0;
    var i := |f| - 1;
    while i >= 0
      invariant -1 <= i < |f|
      invariant value == Eval(f[i + 1..], x)
    {
      assert f[i..][1..] == f[i + 1..];
      value := value * x + f[i];
      i := i - 1;
    }
    assert f[0..] == f;
  }

  /** The symmetric digit of `interpolate`, computed from the truncated remainder. */
  function Digit(rest: int, x: int): int
    requires x >= 2
  {
    var d := TruncMod(rest, x);
    if d > TruncDiv(x, 2) then d - x else if d < TruncDiv(-x, 2) then d + x else d
  }

  lemma DigitFacts(rest: int, x: int)
    requires x >= 2
    ensures (rest - Digit(rest, x)) % x == 0
    ensures -x <= 2 * Digit(rest, x) <= x
    ensures rest != 0 ==> Abs(TruncDiv(rest - Digit(rest, x), x)) < Abs(rest)
    ensures rest - Digit(rest, x) == x * TruncDiv(rest - Digit(rest, x), x)
    ensures TruncDiv(rest - Digit(rest, x), x) == 0 && rest != 0 ==> Digit(rest, x) != 0
  {
    TruncModCongruent(rest, x);
    var t, d := TruncMod(rest, x), Digit(rest, x);
    ModSum(0, t - rest, x);
    MultipleMod(x, 1);
    ModSum(rest - t, x, x);
    var e := rest - d;
    assert e % x == 0;
    var k := DivisibleBy(e, x);
    ExactTrunc(k, x);
    assert TruncDiv(e, x) == k;
    hide Digit, TruncMod, TruncDiv;
    if rest != 0 { Shrinks(rest, d, x, k); }
  }

  lemma ExactTrunc(k: int, x: int)
    requires x > 0
    ensures TruncDiv(x * k, x) == k
  {
    ExactDiv(k, x);
    ExactDiv(-k, x);
    assert -(x * k) == x * (-k);
  }

  lemma ExactDiv(k: int, x: int)
    requires x > 0
    ensures (x * k) / x == k
  {
    MultipleMod(x, k);
    assert x * k == x * ((x * k) / x);
    assert x * (k - (x * k) / x) == 0;
  }

  lemma Shrinks(rest: int, d: int, x: int, k: int)
    requires x >= 2 && rest == x * k + d && rest != 0
    requires rest > 0 ==> -x < 2 * d <= x
    requires rest < 0 ==> -x <= 2 * d < x
    ensures Abs(k) < Abs(rest)
    ensures k == 0 ==> d != 0
  {
    if k >= 1 {
      ShrinksBound(x, k);
    } else if k <= -1 {
      ShrinksBound(x, -k);
    }
  }

  lemma ShrinksBound(x: int, k: int)
    requires x >= 2 && k >= 1
    ensures 2 * (x * k) - x >= 2 * k && x * k >= x
  {
    MulMonotone(1, k, x);
    assert 2 * (x * k) - x - 2 * k == (x - 2) * k + (x * k - x);
  }

  lemma EvalSnoc(out: seq<int>, d: int, x: int)
    ensures Eval(out + [d], x) == Eval(out, x) + d * Pow(x, |out|)
  {
    EvalDropLast(out + [d], x);
    assert (out + [d])[..|out|] == out;
  }

  /** Lists of symmetric base-x digits without trailing zeros. */
  ghost predicate SymmetricDigits(f: seq<int>, x: int) {
    Trimmed(f) && forall i :: 0 <= i < |f| ==> -x <= 2 * f[i] <= x
  }

  /** `interpolate`: symmetric digits of h, for every h and every base from 2 on. */
  method Interpolate(h: int, x: int) returns (out: seq<int>)
    requires x >= 2
    ensures Eval(out, x) == h
    ensures SymmetricDigits(out, x)
  {
    out := [];
    var rest := h;
    while rest != 0
      invariant Eval(out, x) + Pow(x, |out|) * rest == h
      invariant forall i :: 0 <= i < |out| ==> -x <= 2 * out[i] <= x
      invariant rest == 0 ==> Trimmed(out)
      decreases Abs(rest)
    {
      var digit := Digit(rest, x);
      DigitFacts(rest, x);
      var next := TruncDiv(rest - digit, x);
      EvalSnoc(out, digit, x);
      CarryDigit(Eval(out, x), Pow(x, |out|), digit, x, next, rest);
      out := out + [digit];
      rest := next;
    }
  }

  lemma CarryDigit(e: int, p: int, d: int, x: int, k: int, rest: int)
    requires rest - d == x * k
    ensures (e + d * p) + (x * p) * k == e + p * rest
  {
    assert (x * p) * k == p * (x * k);
    assert p * rest == p * (x * k) + p * d;
  }

  /** Symmetric digits are unique once one of the two lists stays strictly below half the base. */
  lemma {:induction false} DigitsUnique(f: seq<int>, g: seq<int>, x: int)
    requires x >= 2 && SymmetricDigits(f, x) && SymmetricDigits(g, x)
    requires forall i :: 0 <= i < |f| ==> -x < 2 * f[i] < x
    requires Eval(f, x) == Eval(g, x)
    ensures f == g
    decreases |f| + |g|
  {
    if f == [] && g == [] {
    } else {
      var f0, g0 := Coef(f, 0), Coef(g, 0);
      var ft, gt := if f == [] then [] else f[1..], if g == [] then [] else g[1..];
      FirstDigit(f0, g0, x, Eval(ft, x), Eval(gt, x));
      hide Eval;
      DigitsUnique(ft, gt, x);
    }
  }

  lemma FirstDigit(f0: int, g0: int, x: int, a: int, b: int)
    requires x >= 2 && -x < 2 * f0 < x && -x <= 2 * g0 <= x && f0 + x * a == g0 + x * b
    ensures f0 == g0 && a == b
  {
    assert f0 - g0 == x * (b - a);
    MultipleIs(f0 - g0, x, b - a);
    SmallMultiple(f0 - g0, x);
  }

  /** Reading back the value of a polynomial with small coefficients gives that polynomial. */
  method ReadBack(f: seq<int>, x: int) returns (g: seq<int>)
    requires x >= 2 && Trimmed(f) && forall i :: 0 <= i < |f| ==> 2 * Abs(f[i]) < x
    ensures g == f
  {
    var value := Evaluate(f, x);
    g := Interpolate(value, x);
    DigitsUnique(f, g, x);
  }
}
