/** Recombining lifted factors into true factors over ℤ (`recombine`, packages/cas/src/factor.ts). */
module Recombination {
  import opened Options
  import opened Arith
  import opened DensePoly
  import opened Hensel
  import opened ExactDivision
  import opened Subsets

  /** `symmetric`: the residue in (−m/2, m/2]. */
  function Symmetric(c: int, m: int): (r: int)
    requires m > 0
    ensures -m < 2 * r <= m
  {
    if c % m > m / 2 then c % m - m else c % m
  }

  /** The only number in (-m/2, m/2] that is congruent to c. */
  lemma SymmetricResidue(c: int, m: int, r: int)
    requires m > 0
    ensures (r - c) % m == 0 && -m < 2 * r <= m <==> r == Symmetric(c, m)
  {
    var s := Symmetric(c, m);
    ModResidue(c, m);
    MultipleMod(m, -1);
    ModSum(c % m - c, -m, m);
    assert (s - c) % m == 0;
    if (r - c) % m == 0 && -m < 2 * r <= m {
      ModScale(s - c, -1, m);
      ModSum(r - c, (s - c) * -1, m);
      assert (r - c) + (s - c) * -1 == r - s;
      SmallMultiple(r - s, m);
    }
  }

  /** lead times the chosen lifted factors, reduced after every product. */
  function SubsetProduct(lead: int, pool: seq<seq<int>>, subset: seq<int>, m: int): seq<int>
    requires m > 0 && forall i :: 0 <= i < |subset| ==> 0 <= subset[i] < |pool|
  {
    if subset == [] then [lead]
    else Mod(Mul(SubsetProduct(lead, pool, subset[..|subset| - 1], m), pool[Lead(subset)]), m)
  }

  /** The candidate factor of a subset, with symmetric coefficients. */
  function Candidate(lead: int, pool: seq<seq<int>>, subset: seq<int>, m: int): seq<int>
    requires m > 0 && forall i :: 0 <= i < |subset| ==> 0 <= subset[i] < |pool|
  {
    var p := SubsetProduct(lead, pool, subset, m);
    Trim(seq(|p|, i requires 0 <= i < |p| => Symmetric(p[i], m)))
  }

  /** The constant-term test: it rejects a candidate whose constant term does not divide lc·f(0). */
  predicate ConstantTest(rest: seq<int>, candidate: seq<int>)
    requires rest != []
  {
    Coef(candidate, 0) == 0 || (Lead(rest) * Coef(rest, 0)) % Coef(candidate, 0) == 0
  }

  ghost predicate MonicPool(pool: seq<seq<int>>) { forall i :: 0 <= i < |pool| ==> Monic(pool[i]) }

  /** The primitive part of the subset's candidate is `factor`, and `quotient` is what is left of rest. */
  ghost predicate Splits(rest: seq<int>, pool: seq<seq<int>>, subset: seq<int>, m: int, factor: seq<int>, quotient: seq<int>)
    requires m > 0 && rest != [] && IndexSubset(subset, |pool|)
  {
    && ConstantTest(rest, Candidate(Lead(rest), pool, subset, m))
    && PrimitivePart(Candidate(Lead(rest), pool, subset, m), factor)
    && Trimmed(quotient) && Mul(quotient, factor) == rest
  }

  ghost predicate Hit(rest: seq<int>, pool: seq<seq<int>>, subset: seq<int>, m: int)
    requires m > 0 && rest != [] && IndexSubset(subset, |pool|)
  {
    exists factor, quotient :: Splits(rest, pool, subset, m, factor, quotient)
  }

  // ---- the candidate is never zero ----

  lemma {:induction false} SubsetProductLead(lead: int, pool: seq<seq<int>>, subset: seq<int>, m: int)
    requires 0 < lead < m && MonicPool(pool) && forall i :: 0 <= i < |subset| ==> 0 <= subset[i] < |pool|
    ensures var p := SubsetProduct(lead, pool, subset, m); p != [] && Lead(p) == lead
  {
    if subset != [] {
      SubsetProductLead(lead, pool, subset[..|subset| - 1], m);
      var p, u := SubsetProduct(lead, pool, subset[..|subset| - 1], m), pool[Lead(subset)];
      MulLead(p, u);
      ModLead(Mul(p, u), m);
    }
  }

  lemma ModLead(f: seq<int>, m: int)
    requires f != [] && 0 < Lead(f) < m
    ensures Mod(f, m) != [] && Lead(Mod(f, m)) == Lead(f)
  {
    SmallMod(Lead(f), m);
    assert RawMod(f, m)[|f| - 1] == Lead(f);
  }

  lemma SymmetricNonzero(c: int, m: int)
    requires 0 < c < m
    ensures Symmetric(c, m) != 0
    ensures 2 * c <= m ==> Symmetric(c, m) == c
  {
    SmallMod(c, m);
  }

  lemma CandidateNonzero(lead: int, pool: seq<seq<int>>, subset: seq<int>, m: int)
    requires 0 < lead < m && MonicPool(pool) && forall i :: 0 <= i < |subset| ==> 0 <= subset[i] < |pool|
    ensures var c := Candidate(lead, pool, subset, m); c != [] && Lead(c) == Symmetric(lead, m)
  {
    SubsetProductLead(lead, pool, subset, m);
    SymmetricNonzero(lead, m);
    hide SubsetProduct, Symmetric;
    SymmetricList(SubsetProduct(lead, pool, subset, m), m);
  }

  lemma SymmetricList(p: seq<int>, m: int)
    requires m > 0 && p != [] && Symmetric(Lead(p), m) != 0
    ensures var c := Trim(seq(|p|, i requires 0 <= i < |p| => Symmetric(p[i], m)));
            |c| == |p| && Lead(c) == Symmetric(Lead(p), m)
  {
    hide Symmetric;
    var c := seq(|p|, i requires 0 <= i < |p| => Symmetric(p[i], m));
    assert c[|p| - 1] == Symmetric(Lead(p), m);
    assert Trim(c) == c;
  }

  /** With a modulus above twice the leading coefficient the constant-term test rejects no true factor. */
  lemma ConstantTestSound(rest: seq<int>, pool: seq<seq<int>>, subset: seq<int>, m: int, factor: seq<int>, quotient: seq<int>)
    requires rest != [] && 0 < 2 * Lead(rest) <= m && Lead(rest) < m && MonicPool(pool) && IndexSubset(subset, |pool|)
    requires PrimitivePart(Candidate(Lead(rest), pool, subset, m), factor) && Mul(quotient, factor) == rest
    ensures ConstantTest(rest, Candidate(Lead(rest), pool, subset, m))
  {
    var lead := Lead(rest);
    var candidate := Candidate(lead, pool, subset, m);
    CandidateNonzero(lead, pool, subset, m);
    SymmetricNonzero(lead, m);
    hide Candidate, Mul, PositivePrimitive;
    var k: int :| k != 0 && candidate == Scale(k, factor);
    assert Coef(candidate, 0) == k * factor[0];
    assert lead == k * Lead(factor);
    ConstantTerm(quotient, factor);
    if Coef(candidate, 0) != 0 {
      TestDivides(k, Lead(factor), factor[0], Coef(quotient, 0), lead, Coef(rest, 0), Coef(candidate, 0));
    }
  }

  lemma ExampleCandidate()
    ensures IndexSubset([0], 1) && Candidate(4, [[1, 1]], [0], 7) == [-3, -3]
  {
    assert [0][..0] == [];
    assert SubsetProduct(4, [[1, 1]], [], 7) == [4];
    assert RawMul([4], [1, 1]) == [4, 4];
    assert Mod([4, 4], 7) == [4, 4];
    assert SubsetProduct(4, [[1, 1]], [0], 7) == [4, 4];
    assert Symmetric(4, 7) == -3;
  }

  lemma ExamplePart()
    ensures PrimitivePart([-3, -3], [1, 1])
  {
    assert Scale(-3, [1, 1]) == [-3, -3];
    forall d: int | d > 1 ensures !Multiple([1, 1], d) {
      SmallMod(1, d);
      assert Coef([1, 1], 0) % d != 0;
    }
  }

  /** Below twice the leading coefficient the test can reject a true factor: (x + 1)(4x + 1) mod 7, where the candidate
      of x + 1 is -3x - 3 and 3 does not divide 4. */
  lemma ConstantTestNeedsRoom()
    returns (rest: seq<int>, pool: seq<seq<int>>, m: int, factor: seq<int>, quotient: seq<int>)
    ensures rest != [] && 0 < Lead(rest) < m && MonicPool(pool) && IndexSubset([0], |pool|)
    ensures PrimitivePart(Candidate(Lead(rest), pool, [0], m), factor) && Mul(quotient, factor) == rest
    ensures !ConstantTest(rest, Candidate(Lead(rest), pool, [0], m))
  {
    rest, pool, m, factor, quotient := [1, 5, 4], [[1, 1]], 7, [1, 1], [1, 4];
    ExampleCandidate();
    ExamplePart();
    assert RawMul([1, 4], [1, 1]) == [1, 5, 4];
    hide Candidate, PrimitivePart, Multiple, IndexSubset;
  }

  lemma ConstantTerm(q: seq<int>, f: seq<int>)
    ensures Coef(Mul(q, f), 0) == Coef(q, 0) * Coef(f, 0)
  {
    EvalMul(q, f, 0);
    EvalAtZero(Mul(q, f));
    EvalAtZero(q);
    EvalAtZero(f);
  }

  lemma EvalAtZero(f: seq<int>)
    ensures Eval(f, 0) == Coef(f, 0)
  {}

  lemma TestDivides(k: int, l: int, f0: int, q0: int, lead: int, r0: int, c0: int)
    requires c0 != 0 && c0 == k * f0 && lead == k * l && r0 == q0 * f0
    ensures (lead * r0) % c0 == 0
  {
    assert lead * r0 == (k * f0) * (l * q0);
    MultipleIs(lead * r0, c0, l * q0);
  }

  // ---- one attempt ----

  /** The body of the inner loop: one subset tried against what is left. */
  method TrySubset(rest: seq<int>, pool: seq<seq<int>>, subset: seq<int>, m: int) returns (res: Option<(seq<int>, seq<int>)>)
    requires PositivePrimitive(rest) && Lead(rest) < m && MonicPool(pool) && IndexSubset(subset, |pool|)
    ensures res.Some? <==> Hit(rest, pool, subset, m)
    ensures res.Some? ==> Splits(rest, pool, subset, m, res.value.0, res.value.1)
  {
    hide IsPrimitive, PrimitivePart, Mul, Mod;
    PrimitiveShape(rest);
    var lead := Lead(rest);
    var candidate := [lead];
    assert subset[..0] == [];
    for k := 0 to |subset|
      invariant candidate == SubsetProduct(lead, pool, subset[..k], m)
    {
      assert subset[..k + 1][..k] == subset[..k];
      var product := ZMul(candidate, pool[subset[k]]);
      candidate := Mod(product, m);
    }
    assert subset[..|subset|] == subset;
    candidate := Trim(seq(|candidate|, i requires 0 <= i < |candidate| => Symmetric(candidate[i], m)));
    CandidateNonzero(lead, pool, subset, m);
    var c0 := Coef(candidate, 0);
    if c0 != 0 {
      TruncExact(lead * Coef(rest, 0), c0);
      if TruncMod(lead * Coef(rest, 0), c0) != 0 { return None; }
    }
    var factor := Primitive(candidate);
    PrimitivePartShape(candidate, factor);
    var quotient := ExactQuotient(rest, factor);
    Attempt(rest, pool, subset, m, factor, quotient);
    if quotient.None? { return None; }
    return Some((factor, quotient.value));
  }

  lemma PrimitiveShape(f: seq<int>)
    requires PositivePrimitive(f)
    ensures f != [] && Trimmed(f) && Lead(f) > 0
  {}

  lemma PrimitivePartShape(f: seq<int>, r: seq<int>)
    requires PrimitivePart(f, r)
    ensures r != [] && Trimmed(r) && Lead(r) > 0
  {}

  lemma Attempt(rest: seq<int>, pool: seq<seq<int>>, subset: seq<int>, m: int, factor: seq<int>, quotient: Option<seq<int>>)
    requires rest != [] && m > 0 && IndexSubset(subset, |pool|)
    requires ConstantTest(rest, Candidate(Lead(rest), pool, subset, m))
    requires PrimitivePart(Candidate(Lead(rest), pool, subset, m), factor)
    requires quotient.Some? <==> DividesPoly(factor, rest)
    requires quotient.Some? ==> Trimmed(quotient.value) && Mul(quotient.value, factor) == rest
    ensures quotient.Some? <==> Hit(rest, pool, subset, m)
    ensures quotient.Some? ==> Splits(rest, pool, subset, m, factor, quotient.value)
  {
    hide PrimitivePart, Mul, Candidate;
    if quotient.Some? {
      assert Splits(rest, pool, subset, m, factor, quotient.value);
    }
    if Hit(rest, pool, subset, m) {
      var other, q :| Splits(rest, pool, subset, m, other, q);
      PrimitivePartUnique(Candidate(Lead(rest), pool, subset, m), factor, other);
      QuotientDivides(q, factor, rest);
    }
  }

  // ---- removing the factors used ----

  /** `pool.filter((_, i) => !subset.includes(i))`, from index i on. */
  function Without(pool: seq<seq<int>>, subset: seq<int>, i: nat): (r: seq<seq<int>>)
    requires i <= |pool|
    ensures |r| <= |pool| - i
    ensures forall k :: 0 <= k < |r| ==> r[k] in pool
    decreases |pool| - i
  {
    if i == |pool| then []
    else if i in subset then Without(pool, subset, i + 1)
    else [pool[i]] + Without(pool, subset, i + 1)
  }

  lemma WithoutShorter(pool: seq<seq<int>>, subset: seq<int>, i: nat, j: nat)
    requires i <= j < |pool| && j in subset
    ensures |Without(pool, subset, i)| < |pool| - i
    decreases j - i
  {
    if i < j {
      WithoutShorter(pool, subset, i + 1, j);
    }
  }

  // ---- the search ----

  /** `out` is what the search gives for `rest` from subset size `size` on: it takes the first hit in
      lexicographic order at the smallest size that has one, divides it out, and goes on at that size;
      the primitive rest ends the list unless it is constant. */
  ghost predicate Recombined(rest: seq<int>, pool: seq<seq<int>>, size: nat, m: int, out: seq<seq<int>>)
    requires m > 0
    decreases |out|, 2 * |pool| + 1 - size
  {
    rest != [] &&
    if 2 * size > |pool| then
      out == (if |rest| > 1 then [rest] else [])
    else
      || (NoHit(rest, pool, size, m) && Recombined(rest, pool, size + 1, m, out))
      || (out != [] && exists subset, quotient ::
            FirstHit(rest, pool, size, m, subset, out[0], quotient)
            && Recombined(quotient, Without(pool, subset, 0), size, m, out[1..]))
  }

  ghost predicate NoHit(rest: seq<int>, pool: seq<seq<int>>, size: nat, m: int)
    requires m > 0 && rest != []
  {
    forall s: seq<int> :: IndexSubset(s, |pool|) && |s| == size ==> !Hit(rest, pool, s, m)
  }

  ghost predicate NoHitBefore(rest: seq<int>, pool: seq<seq<int>>, m: int, subset: seq<int>)
    requires m > 0 && rest != []
  {
    forall s: seq<int> :: IndexSubset(s, |pool|) && LexLess(s, subset) ==> !Hit(rest, pool, s, m)
  }

  ghost predicate FirstHit(rest: seq<int>, pool: seq<seq<int>>, size: nat, m: int,
                           subset: seq<int>, factor: seq<int>, quotient: seq<int>)
    requires m > 0 && rest != []
  {
    && IndexSubset(subset, |pool|) && |subset| == size
    && Splits(rest, pool, subset, m, factor, quotient)
    && NoHitBefore(rest, pool, m, subset)
  }

  /** All subsets of one size, in order, until the first hit. */
  method SearchSize(rest: seq<int>, pool: seq<seq<int>>, size: nat, m: int)
    returns (res: Option<(seq<int>, seq<int>, seq<int>)>)
    requires PositivePrimitive(rest) && Lead(rest) < m && MonicPool(pool) && 1 <= size <= |pool|
    ensures res.None? ==> NoHit(rest, pool, size, m)
    ensures res.Some? ==> FirstHit(rest, pool, size, m, res.value.0, res.value.1, res.value.2)
  {
    hide Hit, Splits, PositivePrimitive, MonicPool;
    PrimitiveShape(rest);
    var index := new int[size](i => i);
    forall s: seq<int> | IndexSubset(s, |pool|) && |s| == size ensures !LexLess(s, index[..]) {
      FirstSubset(index[..], |pool|, s);
    }
    var more := true;
    while more
      invariant IndexSubset(index[..], |pool|)
      invariant more ==> NoHitBefore(rest, pool, m, index[..])
      invariant !more ==> NoHit(rest, pool, size, m)
      decreases if more then 1 else 0, Remaining(index[..], |pool|)
    {
      var attempt := TrySubset(rest, pool, index[..], m);
      if attempt.Some? {
        return Some((index[..], attempt.value.0, attempt.value.1));
      }
      ghost var tried := index[..];
      more := Advance(index, |pool|);
      Tried(rest, pool, size, m, tried, index[..], more);
      if more { RemainingDecreases(tried, index[..], |pool|); }
    }
    return None;
  }

  lemma Tried(rest: seq<int>, pool: seq<seq<int>>, size: nat, m: int, tried: seq<int>, next: seq<int>, more: bool)
    requires m > 0 && rest != [] && IndexSubset(tried, |pool|) && |tried| == |next| == size
    requires NoHitBefore(rest, pool, m, tried) && !Hit(rest, pool, tried, m)
    requires !more ==> forall s :: IndexSubset(s, |pool|) && |s| == size ==> !LexLess(tried, s)
    requires more ==> forall s :: IndexSubset(s, |pool|) && |s| == size && LexLess(tried, s) ==> s == next || LexLess(next, s)
    ensures !more ==> NoHit(rest, pool, size, m)
    ensures more ==> NoHitBefore(rest, pool, m, next)
  {
    hide Hit, IndexSubset;
    if more {
      forall s: seq<int> | IndexSubset(s, |pool|) && LexLess(s, next) ensures !Hit(rest, pool, s, m) {
        LexTotal(s, tried);
        if LexLess(next, s) { LexTrans(next, s, next); }
        LexIrreflexive(next);
      }
    } else {
      forall s: seq<int> | IndexSubset(s, |pool|) && |s| == size ensures !Hit(rest, pool, s, m) {
        LexTotal(s, tried);
      }
    }
  }

  /** The subsets from the current one on, counted through their value in base n. */
  ghost function Weight(a: seq<int>, n: int): int {
    if a == [] then 0 else Weight(a[..|a| - 1], n) * n + Lead(a)
  }

  ghost function Remaining(a: seq<int>, n: int): int { Pow(n, |a|) - Weight(a, n) }

  lemma WeightRoom(w: int, c: int, n: int, p: int)
    requires 0 <= w < p && 0 <= c < n
    ensures 0 <= w * n + c < p * n && p * n == n * p
  {
    MulMonotone(w + 1, p, n);
  }

  lemma {:induction false} WeightBound(a: seq<int>, n: int)
    requires n > 0 && forall i :: 0 <= i < |a| ==> 0 <= a[i] < n
    ensures 0 <= Weight(a, n) < Pow(n, |a|)
  {
    if a != [] {
      WeightBound(a[..|a| - 1], n);
      WeightRoom(Weight(a[..|a| - 1], n), Lead(a), n, Pow(n, |a| - 1));
    }
  }

  lemma WeightLess(a: seq<int>, b: seq<int>, n: int, j: int)
    requires n > 0 && |a| == |b| && FirstDifference(a, b, j)
    requires forall i :: 0 <= i < |a| ==> 0 <= a[i] < n && 0 <= b[i] < n
    ensures Weight(a, n) < Weight(b, n)
    decreases |a|
  {
    var k := |a| - 1;
    if j < k {
      assert a[..k][..j] == a[..j] && b[..k][..j] == b[..j];
      WeightLess(a[..k], b[..k], n, j);
      WeightStep(Weight(a[..k], n), Weight(b[..k], n), a[k], b[k], n);
    } else {
      assert a[..k] == b[..k];
    }
  }

  lemma WeightStep(u: int, v: int, c: int, d: int, n: int)
    requires u < v && 0 <= c < n && 0 <= d
    ensures u * n + c < v * n + d
  {
    MulMonotone(u + 1, v, n);
  }

  lemma RemainingDecreases(a: seq<int>, b: seq<int>, n: int)
    requires IndexSubset(a, n) && IndexSubset(b, n) && LexLess(a, b)
    ensures 0 <= Remaining(b, n) < Remaining(a, n)
  {
    var j :| FirstDifference(a, b, j);
    WeightLess(a, b, n, j);
    WeightBound(b, n);
  }

  // ---- the whole loop ----

  lemma DivideOut(rest: seq<int>, factor: seq<int>, quotient: seq<int>)
    requires PositivePrimitive(rest) && PositivePrimitive(factor) && Trimmed(quotient) && Mul(quotient, factor) == rest
    ensures quotient != [] && PositivePrimitive(quotient) && Lead(quotient) <= Lead(rest)
  {
    assert Mul([], factor) == [];
    MulLead(quotient, factor);
    forall d: int | d > 1 ensures !Multiple(quotient, d) {
      if Multiple(quotient, d) { MultipleMulAny(quotient, factor, d); }
    }
  }

  /** A primitive polynomial with positive leading coefficient is its own primitive part. */
  lemma OwnPrimitivePart(f: seq<int>, r: seq<int>)
    requires PositivePrimitive(f) && PrimitivePart(f, r)
    ensures r == f
  {
    assert f == Scale(1, f);
    PrimitivePartUnique(f, f, r);
  }

  lemma ConstantPrimitive(f: seq<int>)
    requires PositivePrimitive(f) && |f| == 1
    ensures f == [1]
  {
    var c := f[0];
    if c > 1 {
      forall i: int ensures Coef(f, i) % c == 0 { MultipleMod(c, 0); MultipleMod(c, 1); }
      assert Multiple(f, c);
    }
  }

  /** `recombine`. Whatever the lifted pool, the factors returned are primitive with positive leading
      coefficient and their product is exactly f; they are those of the lexicographic search. */
  method Recombine(f: seq<int>, lifted: seq<seq<int>>, m: int) returns (found: seq<seq<int>>)
    requires PositivePrimitive(f) && MonicPool(lifted) && Lead(f) < m
    ensures Product(found) == f
    ensures forall i :: 0 <= i < |found| ==> PositivePrimitive(found[i])
    ensures Recombined(f, lifted, 1, m, found)
  {
    hide Mul, PositivePrimitive, FirstHit, NoHit, Recombined;
    PrimitiveShape(f);
    found := [];
    var rest, pool, size := f, lifted, 1;
    MulOneLeft(f);
    forall tail: seq<seq<int>> ensures found + tail == tail {}
    while 2 * size <= |pool|
      invariant size >= 1 && m > 0
      invariant rest != [] && Trimmed(rest) && PositivePrimitive(rest) && Lead(rest) < m && MonicPool(pool)
      invariant forall i :: 0 <= i < |found| ==> PositivePrimitive(found[i])
      invariant Mul(Product(found), rest) == f
      invariant forall tail :: Recombined(rest, pool, size, m, tail) ==> Recombined(f, lifted, 1, m, found + tail)
      decreases |pool|, |pool| - size
    {
      var res := SearchSize(rest, pool, size, m);
      match res
      case None =>
        forall tail | Recombined(rest, pool, size + 1, m, tail) ensures Recombined(f, lifted, 1, m, found + tail) {
          SearchNext(rest, pool, size, m, tail);
        }
        size := size + 1;
      case Some((subset, factor, quotient)) =>
        HitFacts(rest, pool, size, m, subset, factor, quotient);
        DivideOut(rest, factor, quotient);
        PrimitiveShape(quotient);
        FoundOne(found, factor, quotient, rest);
        var smaller := Without(pool, subset, 0);
        WithoutShorter(pool, subset, 0, subset[0]);
        forall tail | Recombined(quotient, smaller, size, m, tail)
          ensures Recombined(f, lifted, 1, m, found + [factor] + tail)
        {
          SearchHit(rest, pool, size, m, subset, factor, quotient, tail);
          assert found + [factor] + tail == found + ([factor] + tail);
        }
        found, rest, pool := found + [factor], quotient, smaller;
    }
    SearchEnd(rest, pool, size, m);
    PrimitiveShape(rest);
    if |rest| > 1 {
      var last := Primitive(rest);
      OwnPrimitivePart(rest, last);
      ProductSnoc1(found, last);
      found := found + [last];
    } else {
      ConstantPrimitive(rest);
      ProductTrimmed(found);
      MulOne(Product(found));
      assert found + [] == found;
    }
  }

  lemma MulOneLeft(f: seq<int>)
    requires Trimmed(f)
    ensures Mul(Product([]), f) == f
  {
    MulOne(f);
  }

  lemma ProductSnoc1(fs: seq<seq<int>>, f: seq<int>)
    requires Trimmed(f)
    ensures Product(fs + [f]) == Mul(Product(fs), f)
  {
    ProductConcat(fs, [f]);
    assert [f][1..] == [];
    MulOne(f);
  }

  lemma FoundOne(found: seq<seq<int>>, factor: seq<int>, quotient: seq<int>, rest: seq<int>)
    requires Trimmed(factor) && Mul(quotient, factor) == rest
    ensures Mul(Product(found + [factor]), quotient) == Mul(Product(found), rest)
  {
    ProductSnoc1(found, factor);
    MulAssociates(Product(found), factor, quotient);
    MulCommutes(factor, quotient);
  }

  lemma HitFacts(rest: seq<int>, pool: seq<seq<int>>, size: nat, m: int, subset: seq<int>, factor: seq<int>, quotient: seq<int>)
    requires m > 0 && rest != [] && size >= 1 && FirstHit(rest, pool, size, m, subset, factor, quotient)
    ensures |subset| == size && 0 <= subset[0] < |pool|
    ensures PositivePrimitive(factor) && Trimmed(factor) && Trimmed(quotient) && Mul(quotient, factor) == rest
  {}

  lemma SearchNext(rest: seq<int>, pool: seq<seq<int>>, size: nat, m: int, tail: seq<seq<int>>)
    requires m > 0 && rest != [] && 2 * size <= |pool| && NoHit(rest, pool, size, m)
    requires Recombined(rest, pool, size + 1, m, tail)
    ensures Recombined(rest, pool, size, m, tail)
  {}

  lemma SearchHit(rest: seq<int>, pool: seq<seq<int>>, size: nat, m: int,
                  subset: seq<int>, factor: seq<int>, quotient: seq<int>, tail: seq<seq<int>>)
    requires m > 0 && rest != [] && 2 * size <= |pool| && FirstHit(rest, pool, size, m, subset, factor, quotient)
    requires Recombined(quotient, Without(pool, subset, 0), size, m, tail)
    ensures Recombined(rest, pool, size, m, [factor] + tail)
  {
    assert ([factor] + tail)[1..] == tail;
  }

  lemma SearchEnd(rest: seq<int>, pool: seq<seq<int>>, size: nat, m: int)
    requires m > 0 && PositivePrimitive(rest) && 2 * size > |pool|
    ensures Recombined(rest, pool, size, m, if |rest| > 1 then [rest] else [])
  {}
}
