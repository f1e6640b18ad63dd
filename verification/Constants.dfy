/** Signs of polynomials in pi and e by exact interval arithmetic (`constantSign`, packages/cas/src/constants.ts). */
module Constants {
  import opened Options
  import opened Reals
  import opened SparsePoly
  import opened SparseZeros
  import opened SparseDivision

  const START_SCALE: nat := 16

  /** 10^-scale. */
  function Eps(scale: nat): (r: real)
    ensures 0.0 < r <= 1.0
    ensures scale > 0 ==> r <= 0.1
  {
    if scale == 0 then 1.0 else Eps(scale - 1) / 10.0
  }

  /** A decimal expansion of x at any scale, off by at most one unit in the last place. */
  ghost predicate Expands(digits: nat -> real, x: real) {
    forall scale: nat :: digits(scale) - Eps(scale) <= x <= digits(scale) + Eps(scale)
  }

  // ---- intervals ----

  lemma {:induction false} PowerBetween(l: real, x: real, h: real, n: nat)
    requires 0.0 <= l <= x <= h
    ensures 0.0 <= Power(l, n) <= Power(x, n) <= Power(h, n)
  {
    if n > 0 {
      PowerBetween(l, x, h, n - 1);
      TimesBetween(l, x, Power(l, n - 1), Power(x, n - 1));
      TimesBetween(x, h, Power(x, n - 1), Power(h, n - 1));
    }
  }

  lemma TimesBetween(a: real, b: real, c: real, d: real)
    requires 0.0 <= a <= b && 0.0 <= c <= d
    ensures 0.0 <= Times(a, c) <= Times(b, d)
  {
    hide Times;
    NonNegative(b - a, d);
    NonNegative(a, d - c);
    NonNegative(a, c);
    TimesAdd(b - a, a, d);
    TimesAdd(d - c, c, a);
  }

  lemma TermBetween(c: real, low: real, x: real, high: real)
    requires low <= x <= high
    ensures c < 0.0 ==> Times(c, high) <= Times(c, x) <= Times(c, low)
    ensures c >= 0.0 ==> Times(c, low) <= Times(c, x) <= Times(c, high)
  {
    hide Times;
    TimesAdd(high - x, x, c);
    TimesAdd(x - low, low, c);
    if c < 0.0 {
      NonNegative(-c, high - x);
      NonNegative(-c, x - low);
      TimesAdd(-c, c, high - x);
      TimesAdd(-c, c, x - low);
      TimesUnit(high - x);
      TimesUnit(x - low);
    } else {
      NonNegative(c, high - x);
      NonNegative(c, x - low);
    }
  }

  /** The sum of the exponents of a monomial. */
  function DegreeSum(m: Monomial): nat { if m == [] then 0 else DegreeSum(m[..|m| - 1]) + m[|m| - 1] }

  /** The first n exponents' factors at a point. */
  lemma MonoBelowStep(m: Monomial, n: nat, at: Point)
    requires n < |m|
    ensures MonoBelow(m, n + 1, at) == Times(MonoBelow(m, n, at), Power(at(n), m[n]))
  {}

  /** Whether a generator is pi; the others of a constant are e. `truth` gives their values. */
  datatype Irrationals = Irrationals(pi: nat -> real, e: nat -> real, isPi: nat -> bool)

  function Center(ctx: Irrationals, scale: nat, g: nat): real { if ctx.isPi(g) then ctx.pi(scale) else ctx.e(scale) }

  /** The values of pi and e, at least 1, and the decimals that enclose them. */
  ghost predicate Encloses(ctx: Irrationals, at: Point) {
    exists pi: real, e: real ::
      pi >= 1.0 && e >= 1.0 && Expands(ctx.pi, pi) && Expands(ctx.e, e)
      && forall g: nat :: at(g) == if ctx.isPi(g) then pi else e
  }

  lemma Bounds(ctx: Irrationals, at: Point, scale: nat, g: nat)
    requires Encloses(ctx, at) && scale >= 1
    ensures 0.0 <= Center(ctx, scale, g) - Eps(scale) <= at(g) <= Center(ctx, scale, g) + Eps(scale)
  {}

  /** One end of a generator's interval. */
  function EndOf(ctx: Irrationals, scale: nat, g: nat, high: bool): real {
    Center(ctx, scale, g) + (if high then Eps(scale) else -Eps(scale))
  }

  /** One end of the factors of generators below n. */
  function MonoEnd(m: Monomial, n: nat, ctx: Irrationals, scale: nat, high: bool): real
    requires n <= |m|
  {
    if n == 0 then 1.0
    else if m[n - 1] == 0 then MonoEnd(m, n - 1, ctx, scale, high)
    else Times(MonoEnd(m, n - 1, ctx, scale, high), Power(EndOf(ctx, scale, n - 1, high), m[n - 1]))
  }

  /** One end of the first k terms: a negative coefficient takes the other end of its monomial. */
  function PolyEnd(p: Poly, k: nat, ctx: Irrationals, scale: nat, high: bool): real
    requires k <= |p|
  {
    if k == 0 then 0.0
    else
      var t := p[k - 1];
      PolyEnd(p, k - 1, ctx, scale, high) + Times(t.c, MonoEnd(t.m, |t.m|, ctx, scale, high != (t.c < 0.0)))
  }

  /** The low and the high end of a monomial. */
  method MonomialEnds(m: Monomial, ctx: Irrationals, scale: nat) returns (low: real, high: real)
    requires scale >= 1
    ensures low == MonoEnd(m, |m|, ctx, scale, false) && high == MonoEnd(m, |m|, ctx, scale, true)
    ensures forall at: Point :: Encloses(ctx, at) ==> 0.0 <= low <= Mono(m, at) <= high
  {
    low, high := 1.0, 1.0;
    for g := 0 to |m|
      invariant low == MonoEnd(m, g, ctx, scale, false) && high == MonoEnd(m, g, ctx, scale, true)
    {
      if m[g] != 0 {
        var c, eps := Center(ctx, scale, g), Eps(scale);
        low := Times(low, Power(c - eps, m[g]));
        high := Times(high, Power(c + eps, m[g]));
      }
    }
    forall at: Point | Encloses(ctx, at) ensures 0.0 <= low <= Mono(m, at) <= high {
      MonoBetween(m, |m|, ctx, scale, at);
    }
  }

  lemma {:induction false} MonoBetween(m: Monomial, n: nat, ctx: Irrationals, scale: nat, at: Point)
    requires n <= |m| && scale >= 1 && Encloses(ctx, at)
    ensures 0.0 <= MonoEnd(m, n, ctx, scale, false) <= MonoBelow(m, n, at) <= MonoEnd(m, n, ctx, scale, true)
  {
    hide Encloses;
    if n > 0 {
      MonoBetween(m, n - 1, ctx, scale, at);
      if m[n - 1] == 0 {
        MonoBelowStep(m, n - 1, at);
        TimesUnit(MonoBelow(m, n - 1, at));
      } else {
        FactorBetween(m, n - 1, ctx, scale, at, MonoEnd(m, n - 1, ctx, scale, false), MonoEnd(m, n - 1, ctx, scale, true));
      }
    }
  }

  lemma FactorBetween(m: Monomial, g: nat, ctx: Irrationals, scale: nat, at: Point, low: real, high: real)
    requires scale >= 1 && g < |m| && Encloses(ctx, at) && 0.0 <= low <= MonoBelow(m, g, at) <= high
    ensures var c, eps := Center(ctx, scale, g), Eps(scale);
            0.0 <= Times(low, Power(c - eps, m[g])) <= MonoBelow(m, g + 1, at) <= Times(high, Power(c + eps, m[g]))
  {
    hide Encloses, Power, Times, MonoBelow;
    var c, eps, x := Center(ctx, scale, g), Eps(scale), at(g);
    Bounds(ctx, at, scale, g);
    PowerBetween(c - eps, x, c + eps, m[g]);
    MonoBelowStep(m, g, at);
    TimesBetween(low, MonoBelow(m, g, at), Power(c - eps, m[g]), Power(x, m[g]));
    TimesBetween(MonoBelow(m, g, at), high, Power(x, m[g]), Power(c + eps, m[g]));
  }

  /** The low and the high end of a polynomial at one scale. */
  method PolynomialEnds(p: Poly, ctx: Irrationals, scale: nat) returns (lo: real, hi: real)
    requires scale >= 1
    ensures lo == PolyEnd(p, |p|, ctx, scale, false) && hi == PolyEnd(p, |p|, ctx, scale, true)
    ensures forall at: Point :: Encloses(ctx, at) ==> lo <= Eval(p, at) <= hi
  {
    lo, hi := 0.0, 0.0;
    for i := 0 to |p|
      invariant lo == PolyEnd(p, i, ctx, scale, false) && hi == PolyEnd(p, i, ctx, scale, true)
    {
      var low, high := MonomialEnds(p[i].m, ctx, scale);
      var a, b := Times(p[i].c, low), Times(p[i].c, high);
      lo := lo + if p[i].c < 0.0 then b else a;
      hi := hi + if p[i].c < 0.0 then a else b;
    }
    forall at: Point | Encloses(ctx, at) ensures lo <= Eval(p, at) <= hi { PolyBetween(p, |p|, ctx, scale, at); }
  }

  lemma {:induction false} PolyBetween(p: Poly, k: nat, ctx: Irrationals, scale: nat, at: Point)
    requires k <= |p| && scale >= 1 && Encloses(ctx, at)
    ensures PolyEnd(p, k, ctx, scale, false) + Eval(p[k..], at) <= Eval(p, at)
    ensures Eval(p, at) <= PolyEnd(p, k, ctx, scale, true) + Eval(p[k..], at)
  {
    hide Encloses, Times, MonoEnd, MonoBelow;
    if k == 0 {
      assert p[0..] == p;
    } else {
      var t := p[k - 1];
      PolyBetween(p, k - 1, ctx, scale, at);
      assert p[k - 1..][1..] == p[k..] && p[k - 1..][0] == t;
      MonoBetween(t.m, |t.m|, ctx, scale, at);
      TermBetween(t.c, MonoEnd(t.m, |t.m|, ctx, scale, false), Mono(t.m, at), MonoEnd(t.m, |t.m|, ctx, scale, true));
    }
  }

  function SignOf(x: real): int { if x < 0.0 then -1 else if x == 0.0 then 0 else 1 }

  /** The greatest degree of the first k terms, at least 1. */
  function TopDegree(p: Poly, k: nat): (degree: nat)
    requires k <= |p|
    ensures degree >= 1
  {
    if k == 0 then 1 else Max(TopDegree(p, k - 1), DegreeSum(p[k - 1].m))
  }

  method MaxDegree(p: Poly) returns (degree: nat)
    ensures degree == TopDegree(p, |p|)
  {
    degree := 1;
    for i := 0 to |p|
      invariant degree == TopDegree(p, i)
    {
      degree := Max(degree, DegreeSum(p[i].m));
    }
  }

  /** The scale of attempt k. */
  function ScaleOf(k: nat): (scale: nat)
    ensures scale >= START_SCALE && scale > k
  {
    if k == 0 then START_SCALE else 2 * ScaleOf(k - 1)
  }

  predicate Tried(p: Poly, digits: nat, k: nat) { ScaleOf(k) * TopDegree(p, |p|) <= digits }

  /** What attempt k decides: a sign when its interval excludes 0. */
  function Verdict(p: Poly, ctx: Irrationals, k: nat): Option<int> {
    if PolyEnd(p, |p|, ctx, ScaleOf(k), false) > 0.0 then Some(1)
    else if PolyEnd(p, |p|, ctx, ScaleOf(k), true) < 0.0 then Some(-1)
    else None
  }

  /** The first attempt that decides. */
  predicate FirstVerdict(p: Poly, ctx: Irrationals, k: nat) {
    Verdict(p, ctx, k).Some? && forall j: nat :: j < k ==> Verdict(p, ctx, j).None?
  }

  lemma DoubleProduct(scale: nat, degree: nat)
    ensures scale * degree <= (2 * scale) * degree
  {}

  /** Some attempt within the digits decides. */
  ghost predicate Decided(p: Poly, ctx: Irrationals, digits: nat) { exists k: nat :: Tried(p, digits, k) && Verdict(p, ctx, k).Some? }

  lemma {:induction false} TriedBefore(p: Poly, digits: nat, j: nat, k: nat)
    requires j <= k && Tried(p, digits, k)
    ensures Tried(p, digits, j)
    decreases k
  {
    if j < k {
      DoubleProduct(ScaleOf(k - 1), TopDegree(p, |p|));
      TriedBefore(p, digits, j, k - 1);
    }
  }

  /** What `constantSign` answers: a rational constant's own sign, else what the first attempt decides whose interval
      excludes 0. */
  ghost function ConstantAnswer(p: Poly, ctx: Irrationals, digits: nat): Option<int> {
    if ConstantOf(p).Some? then Some(SignOf(ConstantOf(p).value))
    else if k: nat :| Tried(p, digits, k) && FirstVerdict(p, ctx, k) then Verdict(p, ctx, k)
    else None
  }

  lemma AnswerHere(p: Poly, ctx: Irrationals, digits: nat, k: nat)
    requires ConstantOf(p).None? && Tried(p, digits, k) && FirstVerdict(p, ctx, k)
    ensures ConstantAnswer(p, ctx, digits) == Verdict(p, ctx, k)
  {
    hide Tried, Verdict;
    forall j: nat | FirstVerdict(p, ctx, j) ensures j == k {
      assert j < k ==> Verdict(p, ctx, j).None?;
      assert k < j ==> Verdict(p, ctx, k).None?;
    }
  }

  lemma DecidedHere(p: Poly, ctx: Irrationals, digits: nat, k: nat)
    requires Tried(p, digits, k) && Verdict(p, ctx, k).Some?
    ensures Decided(p, ctx, digits)
  {}

  lemma NoneDecided(p: Poly, ctx: Irrationals, digits: nat, k: nat)
    requires !Tried(p, digits, k) && forall j: nat :: j < k ==> Verdict(p, ctx, j).None?
    ensures !Decided(p, ctx, digits)
  {
    hide Tried, Verdict;
    forall j: nat | Tried(p, digits, j) ensures Verdict(p, ctx, j).None? {
      if j >= k { TriedBefore(p, digits, k, j); }
    }
  }

  lemma NoAnswer(p: Poly, ctx: Irrationals, digits: nat)
    requires ConstantOf(p).None? && !Decided(p, ctx, digits)
    ensures ConstantAnswer(p, ctx, digits) == None
  {
    hide Tried, Verdict;
  }

  /** `constantSign`: it answers unless no attempt within the digits excludes 0, and a decided sign is right whatever pi
      and e are, as long as their decimals enclose them. */
  method ConstantSign(p: Poly, ctx: Irrationals, digits: nat) returns (s: Option<int>)
    requires Valid(p)
    ensures s == ConstantAnswer(p, ctx, digits)
    ensures ConstantOf(p).None? ==> (s.Some? <==> Decided(p, ctx, digits))
    ensures s.Some? ==> forall at: Point :: Encloses(ctx, at) ==> s.value == SignOf(Eval(p, at))
  {
    hide PolyEnd, TopDegree, Encloses, Eval, Decided, ConstantAnswer;
    var exact := ConstantOf(p);
    if exact.Some? {
      forall at: Point ensures Eval(p, at) == exact.value { ConstantEverywhere(p, at); }
      RationalAnswer(p, ctx, digits);
      return Some(SignOf(exact.value));
    }
    var degree := MaxDegree(p);
    var scale := START_SCALE;
    ghost var k := 0;
    while scale * degree <= digits
      invariant scale == ScaleOf(k)
      invariant forall j: nat :: j < k ==> Verdict(p, ctx, j).None?
      decreases digits - scale * degree
    {
      var lo, hi := PolynomialEnds(p, ctx, scale);
      assert Tried(p, digits, k);
      if lo > 0.0 || hi < 0.0 {
        s := if lo > 0.0 then Some(1) else Some(-1);
        assert FirstVerdict(p, ctx, k);
        AnswerHere(p, ctx, digits, k);
        DecidedHere(p, ctx, digits, k);
        return s;
      }
      assert scale * 2 * degree >= scale * degree + 1;
      scale := scale * 2;
      k := k + 1;
    }
    NoneDecided(p, ctx, digits, k);
    NoAnswer(p, ctx, digits);
    s := None;
  }

  lemma RationalAnswer(p: Poly, ctx: Irrationals, digits: nat)
    requires ConstantOf(p).Some?
    ensures ConstantAnswer(p, ctx, digits) == Some(SignOf(ConstantOf(p).value))
  {}

  lemma ConstantEverywhere(p: Poly, at: Point)
    requires ConstantOf(p).Some?
    ensures Eval(p, at) == ConstantOf(p).value
  {
    if p != [] { ConstantValue(p, at); }
  }

  // ---- enough digits decide every value but zero ----

  /** Products of close factors are close: widths and bounds are multiples of eps. */
  lemma ProductWidth(l: real, h: real, lm: real, hm: real, width: real, bound: real, widthM: real, boundM: real, eps: real)
    requires 0.0 <= l <= h <= bound && 0.0 <= lm <= hm <= boundM && eps >= 0.0
    requires h - l <= Times(width, eps) && hm - lm <= Times(widthM, eps)
    ensures Times(hm, h) <= Times(boundM, bound)
    ensures Times(hm, h) - Times(lm, l) <= Times(Times(boundM, width) + Times(bound, widthM), eps)
  {
    hide Times;
    var a, b := h - l, hm - lm;
    TimesAdd(l, a, hm);
    TimesAdd(lm, b, l);
    TimesSymm(b, l);
    TimesBetween(hm, boundM, h, bound);
    TimesBetween(hm, boundM, a, Times(width, eps));
    TimesBetween(l, bound, b, Times(widthM, eps));
    TimesAssoc(boundM, width, eps);
    TimesAssoc(bound, widthM, eps);
    TimesAdd(Times(boundM, width), Times(bound, widthM), eps);
  }

  /** The ends of a power of x, taken eps away from c. */
  predicate PowerNarrow(x: real, n: nat, c: real, eps: real, width: real, bound: real) {
    0.0 <= eps <= 0.1 && c - eps <= x <= c + eps ==>
      Power(c + eps, n) <= bound && Power(c + eps, n) - Power(c - eps, n) <= Times(width, eps)
  }

  lemma PowerStep(x: real, n: nat, c: real, eps: real, width: real, bound: real)
    requires n > 0 && x >= 1.0 && width >= 0.0 && bound >= 1.0 && PowerNarrow(x, n - 1, c, eps, width, bound)
    ensures PowerNarrow(x, n, c, eps, Times(bound, 2.0) + Times(x + 1.0, width), Times(bound, x + 1.0))
  {
    if 0.0 <= eps <= 0.1 && c - eps <= x <= c + eps {
      PowerBetween(c - eps, x, c + eps, n - 1);
      var l, h, lm, hm := c - eps, c + eps, Power(c - eps, n - 1), Power(c + eps, n - 1);
      assert Power(h, n) == Times(h, hm) && Power(l, n) == Times(l, lm);
      hide Power, Times;
      Double(eps);
      TimesSymm(h, hm);
      TimesSymm(l, lm);
      ProductWidth(l, h, lm, hm, 2.0, x + 1.0, width, bound, eps);
    }
  }

  /** The interval of a power of x is narrow. */
  lemma {:induction false} PowerWidth(x: real, n: nat) returns (width: real, bound: real)
    requires x >= 1.0
    ensures width >= 0.0 && bound >= 1.0
    ensures forall c: real, eps: real :: PowerNarrow(x, n, c, eps, width, bound)
  {
    if n == 0 {
      width, bound := 0.0, 1.0;
      forall eps: real ensures Times(0.0, eps) == 0.0 { TimesUnit(eps); }
    } else {
      var w, b := PowerWidth(x, n - 1);
      width, bound := Times(b, 2.0) + Times(x + 1.0, w), Times(b, x + 1.0);
      NonNegative(x + 1.0, w);
      NonNegative(b, 2.0);
      TimesBetween(1.0, b, 1.0, x + 1.0);
      TimesUnit(1.0);
      hide Times, PowerNarrow;
      forall c: real, eps: real ensures PowerNarrow(x, n, c, eps, width, bound) { PowerStep(x, n, c, eps, w, b); }
    }
  }

  lemma Double(x: real)
    ensures Times(2.0, x) == x + x
  {}

  /** The ends of a monomial at one scale. */
  ghost predicate MonoNarrow(m: Monomial, n: nat, ctx: Irrationals, scale: nat, width: real, bound: real)
    requires n <= |m|
  {
    scale >= 1 ==>
      && MonoEnd(m, n, ctx, scale, true) <= bound
      && MonoEnd(m, n, ctx, scale, true) - MonoEnd(m, n, ctx, scale, false) <= Times(width, Eps(scale))
  }

  lemma MonoStep(m: Monomial, n: nat, ctx: Irrationals, at: Point, scale: nat, w: real, b: real, wp: real, bp: real)
    requires 0 < n <= |m| && m[n - 1] != 0 && Encloses(ctx, at)
    requires MonoNarrow(m, n - 1, ctx, scale, w, b) && w >= 0.0 && b >= 0.0 && wp >= 0.0 && bp >= 0.0
    requires PowerNarrow(at(n - 1), m[n - 1], Center(ctx, scale, n - 1), Eps(scale), wp, bp)
    ensures MonoNarrow(m, n, ctx, scale, Times(b, wp) + Times(bp, w), Times(b, bp))
  {
    if scale >= 1 {
      var c, eps := Center(ctx, scale, n - 1), Eps(scale);
      Bounds(ctx, at, scale, n - 1);
      PowerBetween(c - eps, at(n - 1), c + eps, m[n - 1]);
      MonoBetween(m, n - 1, ctx, scale, at);
      hide Times, Power, Encloses;
      ProductWidth(Power(c - eps, m[n - 1]), Power(c + eps, m[n - 1]), MonoEnd(m, n - 1, ctx, scale, false),
                   MonoEnd(m, n - 1, ctx, scale, true), wp, bp, w, b, eps);
    }
  }

  lemma {:induction false} MonoWidth(m: Monomial, n: nat, ctx: Irrationals, at: Point) returns (width: real, bound: real)
    requires n <= |m| && Encloses(ctx, at)
    ensures width >= 0.0 && bound >= 0.0
    ensures forall scale: nat :: MonoNarrow(m, n, ctx, scale, width, bound)
  {
    if n == 0 {
      width, bound := 0.0, 1.0;
      forall scale: nat ensures Times(0.0, Eps(scale)) == 0.0 { TimesUnit(Eps(scale)); }
    } else {
      var w, b := MonoWidth(m, n - 1, ctx, at);
      if m[n - 1] == 0 {
        width, bound := w, b;
        forall scale: nat ensures MonoNarrow(m, n, ctx, scale, w, b) { assert MonoNarrow(m, n - 1, ctx, scale, w, b); }
      } else {
        assert at(n - 1) >= 1.0;
        var wp, bp := PowerWidth(at(n - 1), m[n - 1]);
        width, bound := Times(b, wp) + Times(bp, w), Times(b, bp);
        NonNegative(b, wp);
        NonNegative(bp, w);
        NonNegative(b, bp);
        hide Times, Encloses, MonoNarrow, PowerNarrow;
        forall scale: nat ensures MonoNarrow(m, n, ctx, scale, width, bound) { MonoStep(m, n, ctx, at, scale, w, b, wp, bp); }
      }
    }
  }

  lemma {:induction false} PolyWidth(p: Poly, k: nat, ctx: Irrationals, at: Point) returns (width: real)
    requires k <= |p| && Encloses(ctx, at)
    ensures width >= 0.0
    ensures forall scale: nat :: scale >= 1 ==>
              PolyEnd(p, k, ctx, scale, true) - PolyEnd(p, k, ctx, scale, false) <= Times(width, Eps(scale))
  {
    if k == 0 {
      width := 0.0;
      forall scale: nat ensures Times(0.0, Eps(scale)) == 0.0 { TimesUnit(Eps(scale)); }
    } else {
      var w := PolyWidth(p, k - 1, ctx, at);
      var t := p[k - 1];
      var wm, bm := MonoWidth(t.m, |t.m|, ctx, at);
      var size := if t.c < 0.0 then -t.c else t.c;
      width := w + Times(size, wm);
      NonNegative(size, wm);
      hide Times, MonoEnd, Encloses;
      forall scale: nat | scale >= 1
        ensures PolyEnd(p, k, ctx, scale, true) - PolyEnd(p, k, ctx, scale, false) <= Times(width, Eps(scale))
      {
        var l, h := MonoEnd(t.m, |t.m|, ctx, scale, false), MonoEnd(t.m, |t.m|, ctx, scale, true);
        assert MonoNarrow(t.m, |t.m|, ctx, scale, wm, bm);
        MonoBetween(t.m, |t.m|, ctx, scale, at);
        TermWidth(t.c, size, l, h, Times(wm, Eps(scale)));
        TimesAssoc(size, wm, Eps(scale));
        TimesAdd(w, Times(size, wm), Eps(scale));
      }
    }
  }

  lemma TermWidth(c: real, size: real, l: real, h: real, width: real)
    requires size == (if c < 0.0 then -c else c) && l <= h && h - l <= width
    ensures (if c < 0.0 then Times(c, l) - Times(c, h) else Times(c, h) - Times(c, l)) <= Times(size, width)
  {
    NonNegative(size, width - (h - l));
  }

  lemma {:induction false} EpsSmall(scale: nat)
    ensures Times(Eps(scale), (scale + 1) as real) <= 1.0
  {
    if scale > 0 {
      EpsSmall(scale - 1);
      TenthLess(Eps(scale - 1), scale);
    }
  }

  lemma TenthLess(e: real, n: nat)
    requires n > 0 && e > 0.0 && Times(e, n as real) <= 1.0
    ensures Times(e / 10.0, (n + 1) as real) <= 1.0
  {
    assert Times(e / 10.0, (n + 1) as real) == (Times(e, n as real) + e) / 10.0;
    NonNegative(e, n as real - 1.0);
  }

  /** A multiple of eps falls below any positive number. */
  lemma Narrow(width: real, v: real) returns (k: nat)
    requires width >= 0.0 && v > 0.0
    ensures Times(width, Eps(ScaleOf(k))) < v
  {
    var q := Ratio(width, v);
    hide Times, Eps;
    k := q.Floor + 1;
    var e, n := Eps(ScaleOf(k)), ScaleOf(k);
    EpsSmall(n);
    assert q < k as real && k <= n;
    SmallProduct(q, v, e, n as real + 1.0);
  }

  lemma SmallProduct(q: real, v: real, e: real, n: real)
    requires 0.0 <= q < n && v > 0.0 && e > 0.0 && Times(e, n) <= 1.0
    ensures Times(Times(q, v), e) < v
  {
    hide Times;
    TimesAdd(n - q, q, e);
    TimesSymm(e, n);
    NonzeroProduct(n - q, e);
    NonNegative(n - q, e);
    assert Times(q, e) < 1.0;
    TimesRegroup(q, v, e);
    TimesAdd(1.0 - Times(q, e), Times(q, e), v);
    TimesUnit(v);
    NonzeroProduct(v, 1.0 - Times(q, e));
    NonNegative(v, 1.0 - Times(q, e));
  }

  lemma EndsBetween(p: Poly, ctx: Irrationals, at: Point, k: nat)
    requires Encloses(ctx, at)
    ensures PolyEnd(p, |p|, ctx, ScaleOf(k), false) <= Eval(p, at) <= PolyEnd(p, |p|, ctx, ScaleOf(k), true)
  {
    PolyBetween(p, |p|, ctx, ScaleOf(k), at);
    assert Eval(p[|p|..], at) == 0.0;
  }

  lemma NonzeroVerdict(p: Poly, ctx: Irrationals, at: Point) returns (k: nat)
    requires Encloses(ctx, at) && Eval(p, at) != 0.0
    ensures Verdict(p, ctx, k).Some?
  {
    hide PolyEnd, Encloses, Eval, ScaleOf;
    var width := PolyWidth(p, |p|, ctx, at);
    k := Narrow(width, if Eval(p, at) < 0.0 then -Eval(p, at) else Eval(p, at));
    EndsBetween(p, ctx, at, k);
  }

  /** With enough digits `constantSign` decides every value but zero. */
  lemma DecidedExactly(p: Poly, ctx: Irrationals, at: Point)
    requires Encloses(ctx, at)
    ensures Eval(p, at) != 0.0 <==> exists digits: nat :: Decided(p, ctx, digits)
  {
    if Eval(p, at) != 0.0 {
      var k := NonzeroVerdict(p, ctx, at);
      assert Tried(p, ScaleOf(k) * TopDegree(p, |p|), k);
      DecidedHere(p, ctx, ScaleOf(k) * TopDegree(p, |p|), k);
    } else if digits: nat :| Decided(p, ctx, digits) {
      var k: nat :| Tried(p, digits, k) && Verdict(p, ctx, k).Some?;
      hide PolyEnd, Encloses, Eval, ScaleOf, TopDegree;
      EndsBetween(p, ctx, at, k);
      assert false;
    }
  }
}
