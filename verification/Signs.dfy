/** Sets of signs as bits, and their arithmetic (packages/cas/src/sign.ts). */
module Signs {
  import opened Reals
  import opened SparsePoly

  type SignSet = bv3

  const NEGATIVE: SignSet := 1
  const ZERO: SignSet := 2
  const POSITIVE: SignSet := 4
  const UNKNOWN: SignSet := 7

  /** The sign of x is in the set. */
  predicate Covers(s: SignSet, x: real) {
    if x < 0.0 then s & NEGATIVE != 0 else if x == 0.0 then s & ZERO != 0 else s & POSITIVE != 0
  }

  datatype Claim = Positive | Nonnegative | Nonzero | Nonpositive | Negative

  function Allowed(claim: Claim): SignSet {
    match claim
    case Positive => POSITIVE
    case Nonnegative => ZERO | POSITIVE
    case Nonzero => NEGATIVE | POSITIVE
    case Nonpositive => NEGATIVE | ZERO
    case Negative => NEGATIVE
  }

  /** `holds`: an empty set proves nothing. */
  predicate Holds(s: SignSet, claim: Claim) { s != 0 && s & !Allowed(claim) == 0 }

  predicate Satisfies(x: real, claim: Claim) {
    match claim
    case Positive => x > 0.0
    case Nonnegative => x >= 0.0
    case Nonzero => x != 0.0
    case Nonpositive => x <= 0.0
    case Negative => x < 0.0
  }

  /** A claim is proved exactly when every number the set covers satisfies it. */
  lemma HoldsIsExact(s: SignSet, claim: Claim)
    ensures Holds(s, claim) <==> s != 0 && forall x: real :: Covers(s, x) ==> Satisfies(x, claim)
  {
    assert Covers(s, -1.0) <==> s & NEGATIVE != 0;
    assert Covers(s, 0.0) <==> s & ZERO != 0;
    assert Covers(s, 1.0) <==> s & POSITIVE != 0;
    if s != 0 && forall x: real :: Covers(s, x) ==> Satisfies(x, claim) {
      assert Covers(s, -1.0) ==> Satisfies(-1.0, claim);
      assert Covers(s, 0.0) ==> Satisfies(0.0, claim);
      assert Covers(s, 1.0) ==> Satisfies(1.0, claim);
    }
  }

  // ---- arithmetic ----

  function PairSign(x: SignSet, y: SignSet): SignSet {
    if x == ZERO || y == ZERO then ZERO else if x == y then POSITIVE else NEGATIVE
  }

  /** The signs a product can take. */
  function ProductSigns(a: SignSet, b: SignSet): SignSet {
    var negative := (a & NEGATIVE != 0 && b & POSITIVE != 0) || (a & POSITIVE != 0 && b & NEGATIVE != 0);
    var zero := (a != 0 && b & ZERO != 0) || (b != 0 && a & ZERO != 0);
    var positive := (a & NEGATIVE != 0 && b & NEGATIVE != 0) || (a & POSITIVE != 0 && b & POSITIVE != 0);
    (if negative then NEGATIVE else 0) | (if zero then ZERO else 0) | (if positive then POSITIVE else 0)
  }

  /** `times`: every pair of signs. */
  method TimesSigns(a: SignSet, b: SignSet) returns (out: SignSet)
    ensures out == ProductSigns(a, b)
  {
    out := 0;
    var x: SignSet := 1;
    var all: SignSet := 7;
    for i := 0 to 3
      invariant i == 0 ==> x == 1
      invariant i == 1 ==> x == 2
      invariant i == 2 ==> x == 4
      invariant out == ProductSigns(a & Seen(i), b)
    {
      if a & x != 0 {
        var y: SignSet := 1;
        ghost var before := out;
        for j := 0 to 3
          invariant j == 0 ==> y == 1
          invariant j == 1 ==> y == 2
          invariant j == 2 ==> y == 4
          invariant out == before | ProductSigns(x, b & Seen(j))
        {
          if b & y != 0 { out := out | PairSign(x, y); }
          y := y << 1;
        }
      }
      x := x << 1;
    }
  }

  /** The signs that a loop over negative, zero, positive has seen. */
  function Seen(n: nat): SignSet { if n == 0 then 0 else if n == 1 then 1 else if n == 2 then 3 else 7 }

  /** `plus`. */
  function PlusSigns(a: SignSet, b: SignSet): SignSet {
    if a == ZERO then b
    else if b == ZERO then a
    else
      var negative, positive := (a | b) & NEGATIVE != 0, (a | b) & POSITIVE != 0;
      if negative && positive then UNKNOWN
      else (if negative then NEGATIVE else POSITIVE) | (a & b & ZERO)
  }

  /** `toPower`. */
  function PowerSigns(s: SignSet, n: nat): SignSet {
    if n % 2 == 1 then s else (if s & (NEGATIVE | POSITIVE) == 0 then 0 else POSITIVE) | (s & ZERO)
  }

  lemma ProductCovers(a: SignSet, b: SignSet, x: real, y: real)
    requires Covers(a, x) && Covers(b, y)
    ensures Covers(ProductSigns(a, b), Times(x, y))
  {
    assert x > 0.0 && y > 0.0 ==> Times(x, y) > 0.0;
    assert x < 0.0 && y < 0.0 ==> Times(x, y) > 0.0;
    assert x > 0.0 && y < 0.0 ==> Times(x, y) < 0.0;
    assert x < 0.0 && y > 0.0 ==> Times(x, y) < 0.0;
    assert x == 0.0 || y == 0.0 ==> Times(x, y) == 0.0;
  }

  lemma PlusCovers(a: SignSet, b: SignSet, x: real, y: real)
    requires Covers(a, x) && Covers(b, y)
    ensures Covers(PlusSigns(a, b), x + y)
  {}

  lemma {:induction false} EvenPower(x: real, n: nat)
    ensures n % 2 == 0 ==> Power(x, n) >= 0.0
    ensures n % 2 == 1 ==> (x < 0.0 <==> Power(x, n) < 0.0)
    ensures n > 0 ==> (x == 0.0 <==> Power(x, n) == 0.0)
  {
    if n > 0 {
      EvenPower(x, n - 1);
      PowerStep(x, Power(x, n - 1));
    }
    if n == 1 { TimesUnit(x); }
  }

  lemma PowerStep(x: real, p: real)
    ensures x == 0.0 || p == 0.0 <==> Times(x, p) == 0.0
    ensures Times(x, p) < 0.0 <==> (x < 0.0 && p > 0.0) || (x > 0.0 && p < 0.0)
  {
    if x != 0.0 && p != 0.0 { NonzeroProduct(x, p); }
  }

  lemma PowerCovers(s: SignSet, x: real, n: nat)
    requires Covers(s, x) && n > 0
    ensures Covers(PowerSigns(s, n), Power(x, n))
  {
    EvenPower(x, n);
  }

  // ---- no smaller answer would be sound ----

  /** Every sound set for products holds the signs `times` gives. */
  lemma ProductIsLeast(a: SignSet, b: SignSet, c: SignSet)
    requires forall x: real, y: real :: Covers(a, x) && Covers(b, y) ==> Covers(c, Times(x, y))
    ensures ProductSigns(a, b) & !c == 0
  {
    forall x: real, y: real | (x == -1.0 || x == 0.0 || x == 1.0) && (y == -1.0 || y == 0.0 || y == 1.0)
      ensures Covers(a, x) && Covers(b, y) ==> if x == 0.0 || y == 0.0 then Covers(c, 0.0) else if x == y then Covers(c, 1.0) else Covers(c, -1.0)
    {}
    assert Covers(a, -1.0) <==> a & NEGATIVE != 0;
    assert Covers(a, 0.0) <==> a & ZERO != 0;
    assert Covers(a, 1.0) <==> a & POSITIVE != 0;
    assert Covers(b, -1.0) <==> b & NEGATIVE != 0;
    assert Covers(b, 0.0) <==> b & ZERO != 0;
    assert Covers(b, 1.0) <==> b & POSITIVE != 0;
  }

  lemma PlusBits(a: SignSet, b: SignSet, c: SignSet)
    requires a != 0 && b != 0
    requires (a & NEGATIVE != 0 && b & POSITIVE != 0) || (a & POSITIVE != 0 && b & NEGATIVE != 0) ==> c == UNKNOWN
    requires a & NEGATIVE != 0 && b & (NEGATIVE | ZERO) != 0 ==> c & NEGATIVE != 0
    requires b & NEGATIVE != 0 && a & (NEGATIVE | ZERO) != 0 ==> c & NEGATIVE != 0
    requires a & POSITIVE != 0 && b & (POSITIVE | ZERO) != 0 ==> c & POSITIVE != 0
    requires b & POSITIVE != 0 && a & (POSITIVE | ZERO) != 0 ==> c & POSITIVE != 0
    requires a & ZERO != 0 && b & ZERO != 0 ==> c & ZERO != 0
    ensures PlusSigns(a, b) & !c == 0
  {}

  /** c covers the sums of what a and b cover. */
  ghost predicate CoversSums(a: SignSet, b: SignSet, c: SignSet) {
    forall x: real, y: real :: Covers(a, x) && Covers(b, y) ==> Covers(c, x + y)
  }

  lemma SumCovered(a: SignSet, b: SignSet, c: SignSet, x: real, y: real)
    requires CoversSums(a, b, c) && Covers(a, x) && Covers(b, y)
    ensures Covers(c, x + y)
  {}

  /** A negative and a positive summand reach every sign. */
  lemma OppositeSums(a: SignSet, b: SignSet, c: SignSet)
    requires CoversSums(a, b, c)
    ensures a & NEGATIVE != 0 && b & POSITIVE != 0 ==> c == UNKNOWN
    ensures a & POSITIVE != 0 && b & NEGATIVE != 0 ==> c == UNKNOWN
  {
    if a & NEGATIVE != 0 && b & POSITIVE != 0 {
      SumCovered(a, b, c, -2.0, 1.0);
      SumCovered(a, b, c, -1.0, 1.0);
      SumCovered(a, b, c, -1.0, 2.0);
    }
    if a & POSITIVE != 0 && b & NEGATIVE != 0 {
      SumCovered(a, b, c, 1.0, -2.0);
      SumCovered(a, b, c, 1.0, -1.0);
      SumCovered(a, b, c, 2.0, -1.0);
    }
  }

  /** Every sound set for sums of two sets that are not empty holds the signs `plus` gives. */
  lemma PlusIsLeast(a: SignSet, b: SignSet, c: SignSet)
    requires a != 0 && b != 0 && CoversSums(a, b, c)
    ensures PlusSigns(a, b) & !c == 0
  {
    OppositeSums(a, b, c);
    hide CoversSums, PlusSigns;
    if a & NEGATIVE != 0 && b & NEGATIVE != 0 { SumCovered(a, b, c, -1.0, -1.0); }
    if a & NEGATIVE != 0 && b & ZERO != 0 { SumCovered(a, b, c, -1.0, 0.0); }
    if a & ZERO != 0 && b & NEGATIVE != 0 { SumCovered(a, b, c, 0.0, -1.0); }
    if a & POSITIVE != 0 && b & POSITIVE != 0 { SumCovered(a, b, c, 1.0, 1.0); }
    if a & POSITIVE != 0 && b & ZERO != 0 { SumCovered(a, b, c, 1.0, 0.0); }
    if a & ZERO != 0 && b & POSITIVE != 0 { SumCovered(a, b, c, 0.0, 1.0); }
    if a & ZERO != 0 && b & ZERO != 0 { SumCovered(a, b, c, 0.0, 0.0); }
    PlusBits(a, b, c);
  }

  /** Every sound set for powers holds the signs `toPower` gives. */
  lemma PowerIsLeast(s: SignSet, n: nat, c: SignSet)
    requires n > 0 && forall x: real :: Covers(s, x) ==> Covers(c, Power(x, n))
    ensures PowerSigns(s, n) & !c == 0
  {
    assert Covers(s, -1.0) ==> Covers(c, Power(-1.0, n));
    assert Covers(s, 0.0) ==> Covers(c, Power(0.0, n));
    assert Covers(s, 1.0) ==> Covers(c, Power(1.0, n));
    EvenPower(-1.0, n);
    EvenPower(0.0, n);
    EvenPower(1.0, n);
    OnePower(n);
  }

  lemma {:induction false} OnePower(n: nat)
    ensures Power(1.0, n) == 1.0
  {
    if n > 0 { OnePower(n - 1); }
  }
}
