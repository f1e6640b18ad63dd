/** Products of real numbers, which stand for exact rationals wherever only field laws are used. */
module Reals {

  /** A product by name: proofs that only move products around keep it folded. */
  function Times(x: real, y: real): real { x * y }

  lemma TimesAssoc(a: real, b: real, c: real)
    ensures Times(Times(a, b), c) == Times(a, Times(b, c))
  {}

  lemma TimesSwap(a: real, b: real, c: real, d: real)
    ensures Times(Times(a, b), Times(c, d)) == Times(Times(a, c), Times(b, d))
  {}

  lemma TimesAdd(a: real, b: real, x: real)
    ensures Times(a + b, x) == Times(a, x) + Times(b, x)
    ensures Times(x, a + b) == Times(x, a) + Times(x, b)
  {}

  lemma TimesUnit(x: real)
    ensures Times(1.0, x) == x && Times(x, 1.0) == x && Times(0.0, x) == 0.0 && Times(x, 0.0) == 0.0
  {}

  lemma TimesRegroup(a: real, c: real, x: real)
    ensures Times(Times(a, c), x) == Times(c, Times(a, x))
  {}

  lemma TimesTerms(a: real, b: real, x: real, y: real)
    ensures Times(Times(a, b), Times(x, y)) == Times(Times(a, x), Times(b, y))
  {
    TimesSwap(a, b, x, y);
  }

  lemma NonzeroProduct(a: real, b: real)
    requires a != 0.0 && b != 0.0
    ensures Times(a, b) != 0.0
  {}

  lemma TimesSymm(x: real, y: real)
    ensures Times(x, y) == Times(y, x)
  {}

  lemma TimesNegated(a: real, x: real)
    ensures Times(Times(a, -1.0), x) == -Times(a, x)
  {}

  lemma TimesRotate(x: real, t: real, p: real)
    ensures Times(x, Times(t, p)) == Times(t, Times(x, p))
  {}

  lemma TimesPower(a: real, y: real, p: real)
    ensures Times(a, Times(p, y)) == Times(Times(a, y), p)
  {}

  lemma NonNegative(x: real, y: real)
    requires x >= 0.0 && y >= 0.0
    ensures Times(x, y) >= 0.0
  {}

  lemma Inverted(c: real, x: real)
    requires c != 0.0
    ensures Times(Times(1.0 / c, x), c) == x
  {}
}
