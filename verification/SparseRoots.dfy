/** Square roots of sparse polynomials (`polySqrt`, packages/cas/src/poly.ts). */
module SparseRoots {
  import opened Options
  import opened Reals
  import opened SparsePoly
  import opened SparseDegrees
  import opened SparseZeros
  import opened SparseDivision
  import opened MonomialOrder

  // ---- polySqrt ----

  /** `fromTerm`. */
  function FromTerm(m: Monomial, c: real): Poly { if c == 0.0 then [] else [Term(Trim(m), c)] }

  lemma FromTermValid(m: Monomial, c: real)
    ensures Valid(FromTerm(m, c)) && |FromTerm(m, c)| <= 1
  {}

  /** p = root*root + rest, by values. */
  ghost predicate Leaves(p: Poly, root: Poly, rest: Poly) {
    forall at: Point :: Eval(p, at) == Times(Eval(root, at), Eval(root, at)) + Eval(rest, at)
  }

  function Correction(root: Poly, t: Poly): Poly { Sum(Product(Scale(root, 2.0), t), Product(t, t)) }

  lemma ScaleAt(p: Poly, c: real, at: Point)
    requires Valid(p)
    ensures Eval(Scale(p, c), at) == Times(c, Eval(p, at))
  {
    ScaleFacts(p, c);
  }

  lemma CorrectionAt(root: Poly, t: Poly, at: Point)
    requires Valid(root)
    ensures Eval(Correction(root, t), at)
         == Times(Times(2.0, Eval(root, at)), Eval(t, at)) + Times(Eval(t, at), Eval(t, at))
  {
    hide Eval, Times, Scale, Product, Sum, Valid;
    ScaleAt(root, 2.0, at);
    SumEval(Product(Scale(root, 2.0), t), Product(t, t), at);
    ProductEval(Scale(root, 2.0), t, at);
    ProductEval(t, t, at);
  }

  lemma {:induction false} LeavesAt(p: Poly, root: Poly, rest: Poly, t: Poly, at: Point)
    requires Valid(root) && Eval(p, at) == Times(Eval(root, at), Eval(root, at)) + Eval(rest, at)
    ensures var u, v := Sum(root, t), Difference(rest, Correction(root, t));
            Eval(p, at) == Times(Eval(u, at), Eval(u, at)) + Eval(v, at)
  {
    hide *;
    DifferenceEval(rest, Correction(root, t), at);
    CorrectionAt(root, t, at);
    SumEval(root, t, at);
    SquareOfSum(Eval(root, at), Eval(t, at));
  }

  lemma SquareOfSum(x: real, y: real)
    ensures Times(x + y, x + y) == Times(x, x) + Times(Times(2.0, x), y) + Times(y, y)
  {}

  lemma LeavesStep(p: Poly, root: Poly, rest: Poly, t: Poly)
    requires Valid(root) && Leaves(p, root, rest)
    ensures Leaves(p, Sum(root, t), Difference(rest, Correction(root, t)))
  {
    hide Times, Sum, Difference, Correction, Valid;
    forall at: Point
      ensures var u, v := Sum(root, t), Difference(rest, Correction(root, t));
              Eval(p, at) == Times(Eval(u, at), Eval(u, at)) + Eval(v, at)
    {
      LeavesAt(p, root, rest, t, at);
    }
  }

  lemma StartLeaves(p: Poly, root: Poly)
    ensures Leaves(p, root, Difference(p, Product(root, root)))
  {
    forall at: Point
      ensures Eval(p, at) == Times(Eval(root, at), Eval(root, at)) + Eval(Difference(p, Product(root, root)), at)
    {
      hide Times, Difference, Product;
      DifferenceEval(p, Product(root, root), at);
      ProductEval(root, root, at);
    }
  }

  lemma NothingLeft(p: Poly, root: Poly)
    requires Leaves(p, root, [])
    ensures IsProduct(p, root, root)
  {
    forall at: Point ensures Eval(p, at) == Times(Eval(root, at), Eval(root, at)) { assert Eval([], at) == 0.0; }
  }

  /** The differences of exponents; some may be negative. */
  function MonomialRatio(a: Monomial, b: Monomial): (m: seq<int>)
    ensures |m| == Max(|a|, |b|)
  {
    seq(Max(|a|, |b|), i requires 0 <= i => Exp(a, i) - Exp(b, i))
  }

  function Halved(m: Monomial): Monomial { seq(|m|, i requires 0 <= i < |m| => m[i] / 2) }

  /** Exponents none of which is negative. */
  function AsMonomial(ratio: seq<int>): (m: Monomial)
    requires forall i :: 0 <= i < |ratio| ==> ratio[i] >= 0
    ensures m == ratio
  {
    seq(|ratio|, i requires 0 <= i < |ratio| => ratio[i])
  }

  // ---- following a root ----

  /** How a root w is found: v is what `root` still lacks, its terms below `previous`, which is at most the leading
      monomial `half` of w, whose coefficient is c; each step so far found one term. */
  ghost predicate Follows(p: Poly, w: Poly, v: Poly, root: Poly, previous: Monomial, half: Monomial, c: real, steps: int) {
    && Valid(w) && IsProduct(p, w, w) && IsLead(w, Term(half, c))
    && Valid(v) && (forall t :: t in v ==> Compare(t.m, previous) < 0) && Compare(previous, half) <= 0
    && (forall at: Point :: Eval(root, at) + Eval(v, at) == Eval(w, at))
    && |v| + steps + 1 == |w|
  }

  /** The list without entry i. */
  function Dropped(p: Poly, i: nat): (r: Poly)
    requires i < |p|
    ensures |r| == |p| - 1
  {
    p[..i] + p[i + 1..]
  }

  lemma {:induction false} DroppedEval(p: Poly, i: nat, at: Point)
    requires i < |p|
    ensures Eval(p, at) == Eval([p[i]], at) + Eval(Dropped(p, i), at)
  {
    hide Mono, Times;
    assert Eval([p[i]], at) == Times(p[i].c, Mono(p[i].m, at)) + Eval([], at);
    if i == 0 {
      assert Dropped(p, 0) == p[1..];
    } else {
      DroppedEval(p[1..], i - 1, at);
      assert Dropped(p, i) == [p[0]] + Dropped(p[1..], i - 1);
      EvalCons(p[0], Dropped(p[1..], i - 1), at);
    }
  }

  lemma DroppedValid(p: Poly, i: nat)
    requires i < |p| && Valid(p)
    ensures Valid(Dropped(p, i)) && forall t :: t in Dropped(p, i) ==> t in p && t.m != p[i].m
  {
    var r := Dropped(p, i);
    forall t | t in r ensures t in p && t.m != p[i].m {
      var k :| 0 <= k < |r| && r[k] == t;
      assert r[k] == p[if k < i then k else k + 1];
    }
  }

  /** Squares of opposite polynomials are equal, and one of the two has the leading coefficient c. */
  lemma Oriented(p: Poly, w: Poly, x: Term, c: real) returns (u: Poly)
    requires Valid(w) && IsProduct(p, w, w) && IsLead(w, x) && Times(c, c) == Times(x.c, x.c)
    ensures Valid(u) && IsProduct(p, u, u) && IsLead(u, Term(x.m, c)) && |u| == |w|
  {
    if x.c == c {
      u := w;
    } else {
      SameSquares(c, x.c);
      u := Scaled(w, -1.0);
      ScaledValid(w, -1.0);
      forall at: Point ensures Eval(p, at) == Times(Eval(u, at), Eval(u, at)) {
        ScaledEval(w, -1.0, at);
        MinusSquare(Eval(w, at));
      }
      var i :| 0 <= i < |w| && w[i] == x;
      assert u[i] == Term(x.m, c);
      forall t | t in u ensures Compare(t.m, x.m) <= 0 {
        var k :| 0 <= k < |u| && u[k] == t;
        assert w[k] in w;
      }
    }
  }

  lemma SameSquares(x: real, y: real)
    requires Times(x, x) == Times(y, y) && y != x
    ensures x == Times(y, -1.0)
  {
    assert (x - y) * (x + y) == 0.0;
  }

  lemma MinusSquare(x: real)
    ensures Times(Times(-1.0, x), Times(-1.0, x)) == Times(x, x)
  {}

  /** The rest is v times (2w - v). */
  lemma RestIsProduct(p: Poly, w: Poly, v: Poly, root: Poly, rest: Poly)
    requires Leaves(p, root, rest) && IsProduct(p, w, w)
    requires forall at: Point :: Eval(root, at) + Eval(v, at) == Eval(w, at)
    ensures IsProduct(rest, v, Difference(Scaled(w, 2.0), v))
  {
    hide Times, Difference, Scaled;
    forall at: Point ensures Eval(rest, at) == Times(Eval(v, at), Eval(Difference(Scaled(w, 2.0), v), at)) {
      DifferenceEval(Scaled(w, 2.0), v, at);
      ScaledEval(w, 2.0, at);
      SquareGap(Eval(w, at), Eval(root, at), Eval(v, at));
    }
  }

  lemma SquareGap(w: real, r: real, v: real)
    requires r + v == w
    ensures Times(w, w) - Times(r, r) == Times(v, Times(2.0, w) - v)
  {}

  /** 2w - v leads with twice the leading term of w. */
  lemma {:induction false} DoubleLead(w: Poly, v: Poly, half: Monomial, c: real)
    requires Valid(w) && Valid(v) && IsLead(w, Term(half, c)) && forall t :: t in v ==> Compare(t.m, half) < 0
    ensures IsLead(Difference(Scaled(w, 2.0), v), Term(half, c * 2.0))
  {
    var d := Difference(Scaled(w, 2.0), v);
    ScaledValid(w, 2.0);
    DifferenceValid(Scaled(w, 2.0), v);
    CompareIsTotal(half, half, half);
    CoefTerm(w, Term(half, c));
    CoefScaled(w, 2.0, half);
    CoefNone(v, half);
    CoefDifference(Scaled(w, 2.0), v, half);
    CoefZero(w, Term(half, c));
    assert CoefAt(d, half) == c * 2.0;
    hide Difference, Valid, Compare, CoefAt, Times, Scaled;
    TermOfCoef(d, half);
    forall t | t in d ensures Compare(t.m, half) <= 0 { TermOfDifference(w, v, t); }
  }

  lemma {:induction false} TermOfDifference(w: Poly, v: Poly, t: Term)
    requires Valid(w) && Valid(v) && Valid(Difference(Scaled(w, 2.0), v)) && t in Difference(Scaled(w, 2.0), v)
    ensures Has(w, t.m) || Has(v, t.m)
  {
    hide Difference, Valid, CoefAt, Times, Scaled;
    var d := Difference(Scaled(w, 2.0), v);
    CoefDifference(Scaled(w, 2.0), v, t.m);
    CoefScaled(w, 2.0, t.m);
    TimesUnit(2.0);
    CoefTerm(d, t);
    CoefZero(d, t);
    if CoefAt(w, t.m) != 0.0 { TermOfCoef(w, t.m); } else { TermOfCoef(v, t.m); }
  }

  lemma CoefZero(p: Poly, t: Term)
    requires Valid(p) && t in p
    ensures t.c != 0.0
  {}

  lemma RestFacts(p: Poly, w: Poly, v: Poly, root: Poly, rest: Poly, previous: Monomial, half: Monomial, c: real, steps: int)
    requires Follows(p, w, v, root, previous, half, c, steps) && Leaves(p, root, rest)
    ensures var d := Difference(Scaled(w, 2.0), v);
            Valid(v) && Valid(d) && IsProduct(rest, v, d) && IsLead(d, Term(half, c * 2.0))
  {
    hide Valid, Compare, Leaves, IsProduct, IsLead, Difference, Scaled;
    forall t | t in v ensures Compare(t.m, half) < 0 { Below(t.m, previous, half); }
    ScaledValid(w, 2.0);
    DifferenceValid(Scaled(w, 2.0), v);
    DoubleLead(w, v, half, c);
    RestIsProduct(p, w, v, root, rest);
  }

  lemma NoProduct(rest: Poly, d: Poly)
    requires Valid(rest) && IsProduct(rest, [], d)
    ensures rest == []
  {
    forall at: Point ensures Eval(rest, at) == 0.0 { TimesUnit(Eval(d, at)); }
    assert SameValues(rest, []);
    ZeroEverywhere(rest);
  }

  /** The leading term of the rest gives the next term of the root. */
  lemma NextTerm(p: Poly, w: Poly, v: Poly, root: Poly, rest: Poly, previous: Monomial, half: Monomial, c: real, steps: int,
                 lt: Term)
    returns (x: Term)
    requires Follows(p, w, v, root, previous, half, c, steps) && Leaves(p, root, rest) && Valid(rest) && IsLead(rest, lt)
    ensures IsLead(v, x) && lt == Term(MulMonomials(x.m, half), Times(x.c, c * 2.0))
  {
    var d := Difference(Scaled(w, 2.0), v);
    RestFacts(p, w, v, root, rest, previous, half, c, steps);
    assert lt in rest;
    hide *;
    if v == [] { NoProduct(rest, d); }
    x := SomeLead(v);
    LeadProduct(rest, v, d, x, Term(half, c * 2.0));
    OneLead(rest, lt, Term(MulMonomials(x.m, half), Times(x.c, c * 2.0)));
  }

  lemma Below(a: Monomial, b: Monomial, c: Monomial)
    requires Compare(a, b) < 0 && Compare(b, c) <= 0
    ensures Compare(a, c) < 0
  {
    CompareIsTotal(a, b, c);
    CompareIsTotal(c, a, b);
    CompareIsTotal(b, c, a);
  }

  /** Monomials with the same exponents compare alike. */
  lemma {:induction false} CompareAlike(a: Monomial, b: Monomial, c: Monomial, n: nat)
    requires forall g: nat :: Exp(a, g) == Exp(b, g)
    ensures CompareBelow(a, c, n) == CompareBelow(b, c, n)
  {
    if n > 0 {
      CompareAlike(a, b, c, n - 1);
      assert Exp(a, n - 1) == Exp(b, n - 1);
    }
  }

  lemma SameCompare(a: Monomial, b: Monomial, c: Monomial)
    requires forall g: nat :: Exp(a, g) == Exp(b, g)
    ensures Compare(a, c) == Compare(b, c)
  {
    var n := |a| + |b| + |c|;
    CompareAlike(a, b, c, n);
    CompareEnough(a, c, n);
    CompareEnough(b, c, n);
  }

  /** The ratio of a product of monomials and one factor is the other factor. */
  lemma RatioIsFactor(m: Monomial, half: Monomial)
    requires Trimmed(m)
    ensures var ratio := MonomialRatio(MulMonomials(m, half), half);
            && (forall i :: 0 <= i < |ratio| ==> ratio[i] >= 0)
            && (var r := AsMonomial(ratio);
                Trim(r) == m && forall g: nat :: Exp(r, g) == Exp(m, g))
  {
    var k := MulMonomials(m, half);
    var ratio := MonomialRatio(k, half);
    forall i | 0 <= i < |ratio| ensures ratio[i] == Exp(m, i) {}
    var r := AsMonomial(ratio);
    forall g: nat ensures Exp(r, g) == Exp(m, g) {
      if g >= |ratio| { assert Exp(k, g) == 0; }
    }
    TrimmedUnique(Trim(r), m);
  }

  /** One step takes the leading term over from v to the root. */
  lemma FollowStep(p: Poly, w: Poly, v: Poly, root: Poly, previous: Monomial, half: Monomial, c: real, steps: int,
                   x: Term, m: Monomial)
    returns (rest: Poly)
    requires Follows(p, w, v, root, previous, half, c, steps) && IsLead(v, x) && forall g: nat :: Exp(m, g) == Exp(x.m, g)
    ensures Follows(p, w, rest, Sum(root, [x]), m, half, c, steps + 1)
  {
    var i :| 0 <= i < |v| && v[i] == x;
    rest := Dropped(v, i);
    DroppedValid(v, i);
    SameCompare(m, x.m, half);
    Below(x.m, previous, half);
    forall t | t in rest ensures Compare(t.m, m) < 0 {
      SameCompare(m, x.m, t.m);
      CompareIsTotal(t.m, x.m, t.m);
      CompareIsTotal(t.m, m, t.m);
    }
    hide Valid, Compare, IsProduct, IsLead, Dropped;
    forall at: Point ensures Eval(Sum(root, [x]), at) + Eval(rest, at) == Eval(w, at) {
      SumEval(root, [x], at);
      DroppedEval(v, i, at);
    }
  }

  /** p is the square of a polynomial of at most 4|p| + 18 terms. */
  ghost predicate HasShortRoot(p: Poly) { exists w :: Valid(w) && IsProduct(p, w, w) && |w| <= 4 * |p| + 18 }

  /** `rationalSqrt` finds a root of the leading coefficient. */
  ghost predicate LeadHasRoot(p: Poly, rootOf: real -> Option<real>) {
    forall t :: IsLead(p, t) ==> rootOf(t.c).Some?
  }

  /** The first term of a root is the root of the leading term. */
  lemma FirstTerm(p: Poly, w: Poly, lead: Term, c: real) returns (u: Poly, v: Poly, half: Monomial)
    requires Valid(p) && Valid(w) && IsProduct(p, w, w) && IsLead(p, lead) && Times(c, c) == lead.c
    ensures lead.m == MulMonomials(half, half) && Trimmed(half)
    ensures Follows(p, u, v, [Term(half, c)], half, half, c, 0) && |u| == |w|
  {
    if w == [] {
      forall at: Point ensures Eval(p, at) == 0.0 { TimesUnit(0.0); }
      assert SameValues(p, []);
      ZeroEverywhere(p);
      assert false;
    }
    var x := SomeLead(w);
    LeadProduct(p, w, w, x, x);
    OneLead(p, lead, Term(MulMonomials(x.m, x.m), Times(x.c, x.c)));
    half := x.m;
    u := Oriented(p, w, x, c);
    var i :| 0 <= i < |u| && u[i] == Term(half, c);
    v := Dropped(u, i);
    DroppedValid(u, i);
    CompareIsTotal(half, half, half);
    forall t | t in v ensures Compare(t.m, half) < 0 { CompareIsTotal(t.m, half, t.m); }
    forall at: Point ensures Eval([Term(half, c)], at) + Eval(v, at) == Eval(u, at) { DroppedEval(u, i, at); }
  }

  /** Halving the exponents of a square gives the monomial back. */
  lemma HalfIs(m: Monomial, h: Monomial)
    requires m == MulMonomials(h, h) && Trimmed(h)
    ensures forall i :: 0 <= i < |m| ==> m[i] % 2 == 0
    ensures h == Halved(m)
  {
    forall i | 0 <= i < |m| ensures m[i] == 2 * Exp(h, i) { assert Exp(m, i) == m[i]; }
    var half := Halved(m);
    forall g: nat ensures Exp(half, g) == Exp(h, g) { if g >= |m| { assert Exp(m, g) == 0; } }
    TrimmedUnique(half, h);
  }

  lemma {:induction false} PutLength(p: Poly, m: Monomial, c: real)
    ensures |Put(p, m, c)| <= |p| + 1
  {
    if p != [] { PutLength(p[1..], m, c); }
  }

  lemma SumOfTerm(root: Poly, m: Monomial, c: real)
    ensures |Sum(root, FromTerm(m, c))| <= |root| + 1
  {
    if c != 0.0 {
      var t := FromTerm(m, c);
      assert t[1..] == [];
      assert PutAll(root, t) == Put(root, t[0].m, t[0].c);
      PutLength(root, t[0].m, t[0].c);
    }
  }

  lemma NoTerms(p: Poly)
    requires p == []
    ensures HasShortRoot(p) && forall t :: !IsLead(p, t)
  {
    ZeroRoot();
  }

  lemma LeadDecides(p: Poly, lead: Term, rootOf: real -> Option<real>)
    requires Valid(p) && IsLead(p, lead)
    ensures LeadHasRoot(p, rootOf) <==> rootOf(lead.c).Some?
  {
    hide Valid, IsLead;
    forall t | IsLead(p, t) ensures t == lead { OneLead(p, t, lead); }
  }

  /** The code's first root is the one that `FirstTerm` follows. */
  lemma FirstRoot(lead: Term, h: Monomial, c: real)
    requires lead.m == MulMonomials(h, h) && Trimmed(h) && c != 0.0
    ensures FromTerm(h, c) == [Term(h, c)]
  {}

  /** What the step reads from the leading term of the rest is the next term of the root. */
  lemma StepReads(x: Term, half: Monomial, previous: Monomial, c: real, lt: Term)
    requires Trimmed(x.m) && x.c != 0.0 && c != 0.0 && Compare(x.m, previous) < 0
    requires lt == Term(MulMonomials(x.m, half), Times(x.c, c * 2.0))
    ensures var ratio := MonomialRatio(lt.m, half);
            && (forall i :: 0 <= i < |ratio| ==> ratio[i] >= 0)
            && Compare(ratio, previous) < 0
            && (var m := AsMonomial(ratio);
                FromTerm(m, lt.c / (c * 2.0)) == [x] && forall g: nat :: Exp(m, g) == Exp(x.m, g))
  {
    RatioIsFactor(x.m, half);
    var ratio := MonomialRatio(lt.m, half);
    var m := AsMonomial(ratio);
    SameCompare(m, x.m, previous);
    DividedOut(x.c, c * 2.0);
    assert x == Term(x.m, x.c);
  }

  lemma DividedOut(x: real, d: real)
    requires d != 0.0
    ensures Times(x, d) / d == x
  {}

  lemma NoLead(p: Poly, rootOf: real -> Option<real>)
    requires p == []
    ensures LeadHasRoot(p, rootOf)
  {}

  lemma NonzeroLead(p: Poly, lead: Term, c: real)
    requires Valid(p) && lead in p && Times(c, c) == lead.c
    ensures c != 0.0
  {}

  /** Before the loop: what there is to follow. */
  lemma Followed(p: Poly, lead: Term, c: real) returns (w: Poly, v: Poly)
    requires Valid(p) && IsLead(p, lead) && Times(c, c) == lead.c && HasShortRoot(p)
    ensures |w| <= 4 * |p| + 18 && forall i :: 0 <= i < |lead.m| ==> lead.m[i] % 2 == 0
    ensures var half := Halved(lead.m);
            Follows(p, w, v, FromTerm(half, c), half, half, c, 0)
  {
    var root :| Valid(root) && IsProduct(p, root, root) && |root| <= 4 * |p| + 18;
    NonzeroLead(p, lead, c);
    hide Valid, IsProduct, IsLead, Follows, Times;
    var half: Monomial;
    w, v, half := FirstTerm(p, root, lead, c);
    HalfIs(lead.m, half);
    FirstRoot(lead, half, c);
  }

  /** While something is left of p, something is left of the root. */
  lemma TermsLeft(p: Poly, w: Poly, v: Poly, root: Poly, rest: Poly, previous: Monomial, half: Monomial, c: real, steps: int)
    requires Follows(p, w, v, root, previous, half, c, steps) && Leaves(p, root, rest) && Valid(rest) && rest != []
    ensures steps + 2 <= |w|
  {
    var lt := SomeLead(rest);
    var x := NextTerm(p, w, v, root, rest, previous, half, c, steps, lt);
    assert x in v;
  }

  /** Inside the loop: the next term of the root, as the code reads it from the leading term of the rest. */
  lemma Reads(p: Poly, w: Poly, v: Poly, root: Poly, rest: Poly, previous: Monomial, half: Monomial, c: real, steps: int,
              lt: Term)
    returns (x: Term)
    requires Follows(p, w, v, root, previous, half, c, steps) && Leaves(p, root, rest) && Valid(rest) && IsLead(rest, lt)
    ensures IsLead(v, x)
    ensures var ratio := MonomialRatio(lt.m, half);
            && (forall i :: 0 <= i < |ratio| ==> ratio[i] >= 0)
            && Compare(ratio, previous) < 0 && c * 2.0 != 0.0
            && (var m := AsMonomial(ratio);
                FromTerm(m, lt.c / (c * 2.0)) == [x] && forall g: nat :: Exp(m, g) == Exp(x.m, g))
  {
    x := NextTerm(p, w, v, root, rest, previous, half, c, steps, lt);
    assert x in v && Term(half, c) in w;
    hide IsProduct, Leaves, Eval;
    StepReads(x, half, previous, c, lt);
  }

  /** `polySqrt`: any root it returns is one, and it returns one exactly when p has a root of at most 4|p| + 18 terms,
      whose leading coefficient `rationalSqrt` finds. `rootOf` stands for `rationalSqrt`. */
  method PolySqrt(p: Poly, rootOf: real -> Option<real>) returns (res: Option<Poly>)
    requires Valid(p)
    requires forall c :: rootOf(c).Some? ==> Times(rootOf(c).value, rootOf(c).value) == c
    ensures res.Some? ==> Valid(res.value) && IsProduct(p, res.value, res.value)
    ensures res.Some? <==> LeadHasRoot(p, rootOf) && HasShortRoot(p)
  {
    hide Eval, Valid, Times, Leaves, IsProduct, Sum, Difference, Product, Compare, Correction, Scale, FromTerm, Follows,
         LeadHasRoot, MonomialRatio, MulMonomials;
    var lead := LeadingTerm(p);
    if lead.None? {
      ZeroRoot();
      NoTerms(p);
      NoLead(p, rootOf);
      return Some(p);
    }
    LeadDecides(p, lead.value, rootOf);
    var c := rootOf(lead.value.c);
    if c.None? { return None; }
    ghost var w, v := [], [];
    if HasShortRoot(p) { w, v := Followed(p, lead.value, c.value); }
    if exists i :: 0 <= i < |lead.value.m| && lead.value.m[i] % 2 != 0 { return None; }
    var half := Halved(lead.value.m);
    var twice := c.value * 2.0;
    NonzeroRoot(p, lead.value, c.value);
    var root := FromTerm(half, c.value);
    FromTermValid(half, c.value);
    var square := Multiply(root, root);
    ProductValid(root, root);
    StartLeaves(p, root);
    DifferenceValid(p, square);
    var rest := Subtract(p, square);
    var previous: Monomial := half;
    var steps := 0;
    while |rest| > 0
      invariant 0 <= steps <= 4 * |p| + 17 && |root| <= steps + 1
      invariant Valid(root) && Valid(rest) && Leaves(p, root, rest)
      invariant HasShortRoot(p) ==> Follows(p, w, v, root, previous, half, c.value, steps) && |w| <= 4 * |p| + 18
      decreases 4 * |p| + 17 - steps
    {
      if HasShortRoot(p) { TermsLeft(p, w, v, root, rest, previous, half, c.value, steps); }
      if steps > 4 * |p| + 16 { return None; }
      var lt := LeadingTerm(rest);
      ghost var x := lt.value;
      if HasShortRoot(p) { x := Reads(p, w, v, root, rest, previous, half, c.value, steps, lt.value); }
      var ratio := MonomialRatio(lt.value.m, half);
      if (exists i :: 0 <= i < |ratio| && ratio[i] < 0) || Compare(ratio, previous) >= 0 { return None; }
      var m := AsMonomial(ratio);
      var t := FromTerm(m, lt.value.c / twice);
      FromTermValid(m, lt.value.c / twice);
      if HasShortRoot(p) { v := FollowStep(p, w, v, root, previous, half, c.value, steps, x, m); }
      LeavesStep(p, root, rest, t);
      var cross := Multiply(Scale(root, 2.0), t);
      var tt := Multiply(t, t);
      ProductValid(Scale(root, 2.0), t);
      ProductValid(t, t);
      var correction := Add(cross, tt);
      SumValid(cross, tt);
      DifferenceValid(rest, correction);
      SumValid(root, t);
      SumOfTerm(root, m, lt.value.c / twice);
      CorrectionIs(root, t);
      rest := Subtract(rest, correction);
      root := Add(root, t);
      previous := m;
      steps := steps + 1;
    }
    NothingLeft(p, root);
    res := Some(root);
  }

  lemma CorrectionIs(root: Poly, t: Poly)
    ensures Correction(root, t) == Sum(Product(Scale(root, 2.0), t), Product(t, t))
  {}

  lemma ZeroRoot()
    ensures Valid([]) && IsProduct([], [], [])
  {
    TimesUnit(0.0);
  }

  lemma NonzeroRoot(p: Poly, lead: Term, c: real)
    requires Valid(p) && lead in p && Times(c, c) == lead.c
    ensures c * 2.0 != 0.0
  {}
}
