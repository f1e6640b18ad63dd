/** The sign oracle (`SignOracle`, packages/cas/src/sign.ts): every fact it answers is sound in every world. */
module SignOracles {
  import opened Options
  import opened Reals
  import opened SparsePoly
  import opened SparseDegrees
  import opened SparseZeros
  import opened SparseDivision
  import opened SparseRoots
  import opened Signs
  import opened Constants
  import opened SignWorlds

  // ---- terms grouped by their part outside pi and e ----

  predicate IsIrrational(table: Generators, g: nat) { g < |table| && (table[g].PiGen? || table[g].EGen?) }

  function RestOf(table: Generators, m: Monomial): (r: Monomial)
    ensures Trimmed(r) && |r| <= |m|
    ensures forall g :: Exp(r, g) == if IsIrrational(table, g) then 0 else Exp(m, g)
  {
    Trim(seq(|m|, i requires 0 <= i < |m| => if IsIrrational(table, i) then 0 else m[i]))
  }

  function IrrationalOf(table: Generators, m: Monomial): (r: Monomial)
    ensures Trimmed(r) && |r| <= |m|
    ensures forall g :: Exp(r, g) == if IsIrrational(table, g) then Exp(m, g) else 0
  {
    Trim(seq(|m|, i requires 0 <= i < |m| => if IsIrrational(table, i) then m[i] else 0))
  }

  lemma MonomialParts(table: Generators, m: Monomial, at: Point)
    requires Trimmed(m)
    ensures Mono(m, at) == Times(Mono(IrrationalOf(table, m), at), Mono(RestOf(table, m), at))
  {
    hide Mono, Times;
    var a, b := IrrationalOf(table, m), RestOf(table, m);
    TrimmedUnique(MulMonomials(a, b), m);
    MonoProduct(a, b, at);
  }

  datatype TermGroup = TermGroup(m: Monomial, c: Poly)

  /** The value of the first k groups. */
  function GroupsValue(groups: seq<TermGroup>, k: nat, at: Point): real
    requires k <= |groups|
  {
    if k == 0 then 0.0
    else GroupsValue(groups, k - 1, at) + Times(Eval(groups[k - 1].c, at), Mono(groups[k - 1].m, at))
  }

  lemma {:induction false} GroupsPrefix(a: seq<TermGroup>, b: seq<TermGroup>, k: nat, at: Point)
    requires k <= |a| && k <= |b| && a[..k] == b[..k]
    ensures GroupsValue(a, k, at) == GroupsValue(b, k, at)
  {
    hide Mono, Eval, Times;
    if k > 0 {
      assert a[k - 1] == a[..k][k - 1] == b[..k][k - 1] == b[k - 1];
      assert a[..k - 1] == a[..k][..k - 1] && b[..k - 1] == b[..k][..k - 1];
      GroupsPrefix(a, b, k - 1, at);
    }
  }

  lemma {:induction false} GroupsUpdate(groups: seq<TermGroup>, i: nat, c: Poly, x: real, k: nat, at: Point)
    requires i < k <= |groups| && Eval(c, at) == Eval(groups[i].c, at) + x
    ensures GroupsValue(groups[i := TermGroup(groups[i].m, c)], k, at) == GroupsValue(groups, k, at) + Times(x, Mono(groups[i].m, at))
  {
    hide Mono, Eval, Times;
    var next := groups[i := TermGroup(groups[i].m, c)];
    if i == k - 1 {
      GroupsPrefix(next, groups, k - 1, at);
      TimesAdd(Eval(groups[i].c, at), x, Mono(groups[i].m, at));
    } else {
      GroupsUpdate(groups, i, c, x, k - 1, at);
    }
  }

  /** Polynomials in pi and e only. */
  ghost predicate ConstantOnly(table: Generators, c: Poly) {
    forall g: nat :: !IsIrrational(table, g) ==> DegreeAtMost(c, g, 0)
  }

  /** The part outside pi and e of some term of p. */
  ghost predicate RestIn(table: Generators, m: Monomial, p: Poly) { exists t :: t in p && m == RestOf(table, t.m) }

  /** What holds of every group collected from p. */
  ghost predicate GroupsOk(table: Generators, groups: seq<TermGroup>, p: Poly, n: nat) {
    forall i :: 0 <= i < |groups| ==>
      && Valid(groups[i].c) && GensBelow(groups[i].c, n) && ConstantOnly(table, groups[i].c)
      && RestIn(table, groups[i].m, p)
  }

  /** The group of a monomial, or the number of groups. */
  function FindGroup(groups: seq<TermGroup>, m: Monomial): (i: nat)
    ensures i <= |groups| && (i < |groups| ==> groups[i].m == m)
  {
    if groups == [] then 0 else if groups[0].m == m then 0 else 1 + FindGroup(groups[1..], m)
  }

  /** One term's part in pi and e. */
  function Share(table: Generators, t: Term): Poly { FromTerm(IrrationalOf(table, t.m), t.c) }

  lemma ShareValue(table: Generators, t: Term, at: Point)
    requires Trimmed(t.m) && t.c != 0.0
    ensures Times(t.c, Mono(t.m, at)) == Times(Eval(Share(table, t), at), Mono(RestOf(table, t.m), at))
  {
    hide Mono, Times;
    var i := IrrationalOf(table, t.m);
    var p := Share(table, t);
    assert p == [Term(i, t.c)] + [];
    EvalCons(Term(i, t.c), [], at);
    MonomialParts(table, t.m, at);
    TimesAssoc(t.c, Mono(i, at), Mono(RestOf(table, t.m), at));
  }

  lemma GrowsConstant(table: Generators, a: Poly, b: Poly)
    requires ConstantOnly(table, a) && ConstantOnly(table, b)
    ensures ConstantOnly(table, Sum(a, b))
  {
    forall g: nat | !IsIrrational(table, g) ensures DegreeAtMost(Sum(a, b), g, 0) { SumDegree(a, b, g, 0); }
  }

  /** One more term in its group. */
  function Grouped(table: Generators, groups: seq<TermGroup>, t: Term): seq<TermGroup> {
    var rest := RestOf(table, t.m);
    var k := FindGroup(groups, rest);
    var from := if k == |groups| then NewGroup(groups, rest) else groups;
    from[k := TermGroup(from[k].m, Sum(from[k].c, Share(table, t)))]
  }

  /** The groups of the first k terms, in the order they come up. */
  function GroupsOf(table: Generators, p: Poly, k: nat): seq<TermGroup>
    requires k <= |p|
  {
    if k == 0 then [] else Grouped(table, GroupsOf(table, p, k - 1), p[k - 1])
  }

  /** The groups of a polynomial add up to it. */
  method Collect(table: Generators, p: Poly, ghost n: nat) returns (groups: seq<TermGroup>)
    requires Valid(p) && GensBelow(p, n)
    ensures groups == GroupsOf(table, p, |p|) && GroupsOk(table, groups, p, n)
    ensures forall at: Point :: GroupsValue(groups, |groups|, at) == Eval(p, at)
  {
    groups := [];
    hide Valid, GensBelow, Grouped, Mono, Times;
    assert p[..] == p && p[0..] == p;
    for i := 0 to |p|
      invariant groups == GroupsOf(table, p, i) && GroupsOk(table, groups, p, n)
      invariant forall at: Point :: GroupsValue(groups, |groups|, at) + Eval(p[i..], at) == Eval(p, at)
    {
      ghost var before := groups;
      groups := Collected(table, groups, p, i, n);
      forall at: Point ensures GroupsValue(groups, |groups|, at) + Eval(p[i + 1..], at) == Eval(p, at) {
        EvalFrom(p, i, at);
        assert GroupsValue(before, |before|, at) + Eval(p[i..], at) == Eval(p, at);
      }
    }
  }

  lemma EvalFrom(p: Poly, i: nat, at: Point)
    requires i < |p|
    ensures Eval(p[i..], at) == Times(p[i].c, Mono(p[i].m, at)) + Eval(p[i + 1..], at)
  {
    assert p[i..] == [p[i]] + p[i + 1..];
    EvalCons(p[i], p[i + 1..], at);
  }

  function NewGroup(groups: seq<TermGroup>, rest: Monomial): seq<TermGroup> { groups + [TermGroup(rest, [])] }

  lemma NewGroupValue(groups: seq<TermGroup>, rest: Monomial, at: Point)
    ensures GroupsValue(NewGroup(groups, rest), |NewGroup(groups, rest)|, at) == GroupsValue(groups, |groups|, at)
  {
    hide Mono, Times;
    var next := NewGroup(groups, rest);
    GroupsPrefix(next, groups, |groups|, at);
    TimesUnit(Mono(rest, at));
  }

  lemma GroupSumOk(table: Generators, groups: seq<TermGroup>, k: nat, share: Poly, p: Poly, n: nat)
    requires k < |groups| && GroupsOk(table, groups, p, n)
    requires Valid(share) && GensBelow(share, n) && ConstantOnly(table, share)
    ensures Valid(groups[k].c)
    ensures GroupsOk(table, groups[k := TermGroup(groups[k].m, Sum(groups[k].c, share))], p, n)
  {
    hide Valid, GensBelow, ConstantOnly, Sum, RestOf;
    SumValid(groups[k].c, share);
    SumBelow(groups[k].c, share, n);
    GrowsConstant(table, groups[k].c, share);
  }

  lemma GroupSumValue(table: Generators, groups: seq<TermGroup>, k: nat, t: Term, at: Point)
    requires k < |groups| && groups[k].m == RestOf(table, t.m) && Trimmed(t.m) && t.c != 0.0
    ensures GroupsValue(groups[k := TermGroup(groups[k].m, Sum(groups[k].c, Share(table, t)))], |groups|, at)
         == GroupsValue(groups, |groups|, at) + Times(t.c, Mono(t.m, at))
  {
    hide *;
    var share := Share(table, t);
    SumEval(groups[k].c, share, at);
    GroupsUpdate(groups, k, Sum(groups[k].c, share), Eval(share, at), |groups|, at);
    ShareValue(table, t, at);
  }

  /** One term goes to its group. */
  method Collected(table: Generators, groups: seq<TermGroup>, p: Poly, i: nat, ghost n: nat) returns (next: seq<TermGroup>)
    requires Valid(p) && GensBelow(p, n) && i < |p| && GroupsOk(table, groups, p, n)
    ensures next == Grouped(table, groups, p[i]) && GroupsOk(table, next, p, n)
    ensures forall at: Point ::
              GroupsValue(next, |next|, at) == GroupsValue(groups, |groups|, at) + Times(p[i].c, Mono(p[i].m, at))
  {
    var t := p[i];
    assert t in p;
    var rest, share := RestOf(table, t.m), Share(table, t);
    hide GroupsOk, Mono, Times, Eval, RestOf, Share, Sum, GensBelow, ConstantOnly;
    var k := FindGroup(groups, rest);
    var from := groups;
    if k == |groups| {
      from := NewGroup(groups, rest);
    }
    GroupSumOk(table, from, k, share, p, n);
    var c := Add(from[k].c, share);
    next := from[k := TermGroup(from[k].m, c)];
    forall at: Point
      ensures GroupsValue(next, |next|, at) == GroupsValue(groups, |groups|, at) + Times(t.c, Mono(t.m, at))
    {
      GroupSumValue(table, from, k, t, at);
      NewGroupValue(groups, rest, at);
    }
  }

  // ---- facts about groups ----

  /** A world in which a fact about p with these names must hold. */
  ghost predicate Relevant(s: Setting, p: Poly, n: nat, names: set<nat>, w: World)
    requires TableOk(s.table) && GensBelow(p, n)
  {
    Real(s.pi, s.e, w) && Assumed(s.known, names, w) && TamePoly(s.table, p, n, w) && Defined(s.table, p, n, w)
  }

  /** The signs of the sum of the first k groups. */
  ghost predicate SumSound(s: Setting, p: Poly, n: nat, groups: seq<TermGroup>, k: nat, fact: Fact)
    requires TableOk(s.table) && GensBelow(p, n) && k <= |groups|
  {
    forall w: World :: Relevant(s, p, n, fact.names, w) ==> Covers(fact.signs, GroupsValue(groups, k, Values(s.table, n, w)))
  }

  /** The signs of a group's coefficient times its factors below generator g. */
  ghost predicate TermSound(s: Setting, p: Poly, n: nat, group: TermGroup, g: nat, fact: Fact)
    requires TableOk(s.table) && GensBelow(p, n)
  {
    forall w: World :: Relevant(s, p, n, fact.names, w) ==>
      Covers(fact.signs, Times(Eval(group.c, Values(s.table, n, w)), MonoBelow(group.m, g, Values(s.table, n, w))))
  }

  /** The decimals of pi and e by generator. */
  function IrrationalsOf(s: Setting): Irrationals {
    Irrationals(s.pi, s.e, (g: nat) => g < |s.table| && s.table[g].PiGen?)
  }

  function IrrationalPoint(s: Setting, w: World): Point {
    (g: nat) => if g < |s.table| && s.table[g].PiGen? then w.pi else w.e
  }

  lemma {:induction false} MonoAgree(m: Monomial, n: nat, at: Point, to: Point)
    requires forall g: nat :: g < n && Exp(m, g) != 0 ==> at(g) == to(g)
    ensures MonoBelow(m, n, at) == MonoBelow(m, n, to)
  {
    if n > 0 { MonoAgree(m, n - 1, at, to); }
  }

  lemma {:induction false} EvalAgree(p: Poly, at: Point, to: Point)
    requires forall t, g: nat :: t in p && Exp(t.m, g) != 0 ==> at(g) == to(g)
    ensures Eval(p, at) == Eval(p, to)
  {
    hide Times, Exp;
    if p != [] {
      assert p[0] in p;
      MonoAgree(p[0].m, |p[0].m|, at, to);
      EvalAgree(p[1..], at, to);
    }
  }

  /** A constant has the same value at every point that has pi and e right. */
  lemma ConstantEval(s: Setting, c: Poly, n: nat, w: World)
    requires TableOk(s.table) && GensBelow(c, n) && ConstantOnly(s.table, c)
    ensures Eval(c, Values(s.table, n, w)) == Eval(c, IrrationalPoint(s, w))
  {
    var at, to := Values(s.table, n, w), IrrationalPoint(s, w);
    forall t, g: nat | t in c && Exp(t.m, g) != 0 ensures at(g) == to(g) {
      assert IsIrrational(s.table, g) by { assert !DegreeAtMost(c, g, 0); }
      assert g < n;
      assert GenValue(s.table, g, w).Some?;
    }
    EvalAgree(c, at, to);
  }

  function SignFact(sign: Option<int>): SignSet {
    if sign.None? then UNKNOWN else if sign.value < 0 then NEGATIVE else if sign.value > 0 then POSITIVE else ZERO
  }

  lemma StartTerm(s: Setting, p: Poly, n: nat, group: TermGroup, sign: Option<int>, names: set<nat>)
    requires TableOk(s.table) && GensBelow(p, n) && GensBelow(group.c, n) && ConstantOnly(s.table, group.c)
    requires sign.Some? ==> forall at: Point :: Encloses(IrrationalsOf(s), at) ==> sign.value == SignOf(Eval(group.c, at))
    ensures TermSound(s, p, n, group, 0, Fact(SignFact(sign), names))
  {
    forall w: World | Relevant(s, p, n, names, w)
      ensures Covers(SignFact(sign), Times(Eval(group.c, Values(s.table, n, w)), MonoBelow(group.m, 0, Values(s.table, n, w))))
    {
      hide Values, Eval, Times, Encloses, Defined, ConstantOnly;
      ConstantEval(s, group.c, n, w);
      TimesUnit(Eval(group.c, Values(s.table, n, w)));
    }
  }

  lemma StepTerm(s: Setting, p: Poly, n: nat, group: TermGroup, g: nat, fact: Fact, factor: Fact)
    requires TableOk(s.table) && GensBelow(p, n) && TermSound(s, p, n, group, g, fact) && GenSound(s, g, factor)
    requires g < |group.m| && group.m[g] != 0 && RestIn(s.table, group.m, p)
    ensures TermSound(s, p, n, group, g + 1,
                      Fact(ProductSigns(fact.signs, PowerSigns(factor.signs, group.m[g])), fact.names + factor.names))
  {
    var signs := ProductSigns(fact.signs, PowerSigns(factor.signs, group.m[g]));
    forall w: World | Relevant(s, p, n, fact.names + factor.names, w)
      ensures Covers(signs, Times(Eval(group.c, Values(s.table, n, w)), MonoBelow(group.m, g + 1, Values(s.table, n, w))))
    {
      hide Values, Eval, Times, Defined, GenValue, Covers, ProductSigns, PowerSigns, Real, RestOf;
      var at := Values(s.table, n, w);
      var x, y := Eval(group.c, at), MonoBelow(group.m, g, at);
      MonoBelowStep(group.m, g, at);
      PowerCovers(factor.signs, at(g), group.m[g]);
      ProductCovers(fact.signs, PowerSigns(factor.signs, group.m[g]), Times(x, y), Power(at(g), group.m[g]));
      TimesAssoc(x, y, Power(at(g), group.m[g]));
    }
  }

  lemma SkipTerm(s: Setting, p: Poly, n: nat, group: TermGroup, g: nat, fact: Fact)
    requires TableOk(s.table) && GensBelow(p, n) && TermSound(s, p, n, group, g, fact)
    requires g < |group.m| && group.m[g] == 0
    ensures TermSound(s, p, n, group, g + 1, fact)
  {
    forall w: World | Relevant(s, p, n, fact.names, w)
      ensures Covers(fact.signs, Times(Eval(group.c, Values(s.table, n, w)), MonoBelow(group.m, g + 1, Values(s.table, n, w))))
    {
      hide Values, Eval, Times, Defined, Covers, Real;
      MonoBelowStep(group.m, g, Values(s.table, n, w));
      TimesUnit(MonoBelow(group.m, g, Values(s.table, n, w)));
    }
  }

  lemma StepSum(s: Setting, p: Poly, n: nat, groups: seq<TermGroup>, k: nat, signs: SignSet, term: SignSet,
                names: set<nat>, more: set<nat>)
    requires TableOk(s.table) && GensBelow(p, n) && k < |groups|
    requires SumSound(s, p, n, groups, k, Fact(signs, names))
    requires TermSound(s, p, n, groups[k], |groups[k].m|, Fact(term, names + more))
    ensures SumSound(s, p, n, groups, k + 1, Fact(PlusSigns(signs, term), names + more))
  {
    forall w: World | Relevant(s, p, n, names + more, w)
      ensures Covers(PlusSigns(signs, term), GroupsValue(groups, k + 1, Values(s.table, n, w)))
    {
      hide Values, Eval, Times, Defined, Covers, PlusSigns, Real;
      var at := Values(s.table, n, w);
      PlusCovers(signs, term, GroupsValue(groups, k, at), Times(Eval(groups[k].c, at), Mono(groups[k].m, at)));
    }
  }

  lemma EndSum(s: Setting, p: Poly, n: nat, groups: seq<TermGroup>, fact: Fact)
    requires TableOk(s.table) && GensBelow(p, n) && SumSound(s, p, n, groups, |groups|, fact)
    requires forall at: Point :: GroupsValue(groups, |groups|, at) == Eval(p, at)
    ensures PolySound(s, p, n, fact)
  {
    forall w: World | Relevant(s, p, n, fact.names, w) ensures Covers(fact.signs, PolyValue(s.table, p, n, w).value) {
      hide Values, Eval, GroupsValue, Real, Assumed, Defined, Covers;
      var at := Values(s.table, n, w);
      assert GroupsValue(groups, |groups|, at) == Eval(p, at);
    }
    hide Values, Eval, GroupsValue, Real, Assumed, Defined, Covers;
  }

  lemma UnknownPoly(s: Setting, p: Poly, n: nat)
    requires TableOk(s.table) && GensBelow(p, n)
    ensures PolySound(s, p, n, Fact(UNKNOWN, {}))
  {}

  /** A perfect square is not negative. */
  lemma SquareSound(s: Setting, p: Poly, n: nat, root: Poly)
    requires TableOk(s.table) && GensBelow(p, n) && IsProduct(p, root, root)
    ensures PolySound(s, p, n, Fact(ZERO | POSITIVE, {}))
  {
    forall w: World | PolyValue(s.table, p, n, w).Some? ensures Covers(ZERO | POSITIVE, PolyValue(s.table, p, n, w).value) {
      var at := Values(s.table, n, w);
      assert Eval(p, at) == Times(Eval(root, at), Eval(root, at));
    }
  }

  lemma ZeroSound(s: Setting, n: nat)
    requires TableOk(s.table)
    ensures PolySound(s, [], n, Fact(ZERO, {}))
  {}

  lemma StartSum(s: Setting, p: Poly, n: nat, groups: seq<TermGroup>)
    requires TableOk(s.table) && GensBelow(p, n)
    ensures SumSound(s, p, n, groups, 0, Fact(ZERO, {}))
  {
    hide Values;
  }

  /** The generators of a group come before the bound of p. */
  lemma RestBelow(table: Generators, m: Monomial, p: Poly, n: nat, g: nat)
    requires RestIn(table, m, p) && GensBelow(p, n) && g < |m|
    ensures g < n
  {}

  // ---- what the oracle answers, by structure ----

  /** What an oracle is made with: the setting, the digits to spend and exact square roots of coefficients. */
  datatype Inputs = Inputs(setting: Setting, digits: nat, rootOf: real -> Option<real>)

  const NOTHING: Fact := Fact(UNKNOWN, {})

  /** A generator's fact. */
  ghost function GenAnswer(o: Inputs, g: nat): Fact
    requires TableOk(o.setting.table)
    decreases g, 4
  {
    if g >= |o.setting.table| then NOTHING
    else
      match o.setting.table[g]
      case NameGen(x) => if x in o.setting.known then Fact(AssumedSigns(o.setting.known[x]), {x}) else NOTHING
      case PiGen => Fact(POSITIVE, {})
      case EGen => Fact(POSITIVE, {})
      case AtomGen(_) => NOTHING
      case KernelGen(fn, args) => if fn.Opaque? then NOTHING else KernelAnswer(o, fn, args[0], g)
  }

  ghost function KernelAnswer(o: Inputs, fn: Kernel, u: RatFun, n: nat): Fact
    requires TableOk(o.setting.table)
    decreases n, 3
  {
    match fn
    case Exponential => Fact(POSITIVE, {})
    case Cosh => Fact(POSITIVE, {})
    case Factorial => Fact(POSITIVE, {})
    case SameSign(_) => RatAnswer(o, u, n)
    case Abs => AtLeastZero(RatAnswer(o, u, n), Nonzero)
    case Sqrt => AtLeastZero(RatAnswer(o, u, n), Positive)
    case Logarithm(_) => RatAnswer(o, MinusOneOf(u), n)
    case Opaque(_) => NOTHING
  }

  ghost function RatAnswer(o: Inputs, r: RatFun, n: nat): Fact
    requires TableOk(o.setting.table)
    decreases n, 2
  {
    RatFact(PolyAnswer(o, r.num, n), PolyAnswer(o, r.den, n))
  }

  /** A polynomial over the first n generators: what its groups' signs add up to, else whether it is a perfect square. */
  ghost function PolyAnswer(o: Inputs, p: Poly, n: nat): Fact
    requires TableOk(o.setting.table)
    decreases n, 1
  {
    if p == [] then Fact(ZERO, {})
    else
      var groups := GroupsOf(o.setting.table, p, |p|);
      var sum := SumAnswer(o, groups, |groups|, n);
      if sum.signs != UNKNOWN then sum
      else if LeadHasRoot(p, o.rootOf) && HasShortRoot(p) then Fact(ZERO | POSITIVE, {})
      else NOTHING
  }

  /** The first k groups, until nothing is known. */
  ghost function SumAnswer(o: Inputs, groups: seq<TermGroup>, k: nat, n: nat): Fact
    requires TableOk(o.setting.table) && k <= |groups|
    decreases n, 0, 1, k
  {
    if k == 0 then Fact(ZERO, {})
    else
      var front := SumAnswer(o, groups, k - 1, n);
      if front.signs == UNKNOWN then front
      else
        var term := TermAnswer(o, groups[k - 1], |groups[k - 1].m|, n);
        Fact(PlusSigns(front.signs, term.signs), front.names + term.names)
  }

  /** A group's coefficient times its factors below generator g. */
  ghost function TermAnswer(o: Inputs, group: TermGroup, g: nat, n: nat): Fact
    requires TableOk(o.setting.table) && g <= |group.m|
    decreases n, 0, 0, g
  {
    if g == 0 then Fact(SignFact(ConstantAnswer(group.c, IrrationalsOf(o.setting), o.digits)), {})
    else
      var front := TermAnswer(o, group, g - 1, n);
      if group.m[g - 1] == 0 || g - 1 >= n then front
      else
        var factor := GenAnswer(o, g - 1);
        Fact(ProductSigns(front.signs, PowerSigns(factor.signs, group.m[g - 1])), front.names + factor.names)
  }

  /** Once nothing is known, nothing is. */
  lemma {:induction false} UnknownStays(o: Inputs, groups: seq<TermGroup>, j: nat, k: nat, n: nat)
    requires TableOk(o.setting.table) && j <= k <= |groups| && SumAnswer(o, groups, j, n).signs == UNKNOWN
    ensures SumAnswer(o, groups, k, n).signs == UNKNOWN
  {
    if j < k { UnknownStays(o, groups, j, k - 1, n); }
  }

  // ---- the oracle ----

  class SignOracle {
    const setting: Setting
    const digits: nat
    const rootOf: real -> Option<real>
    var memo: map<nat, Fact>

    /** Every memoised fact is sound. `rootOf` answers exact square roots or nothing. */
    ghost predicate Valid()
      reads this
    {
      && TableOk(setting.table)
      && (forall c :: rootOf(c).Some? ==> Times(rootOf(c).value, rootOf(c).value) == c)
      && (forall g :: g in memo ==> GenSound(setting, g, memo[g]) && memo[g] == GenAnswer(Made(), g))
    }

    function Made(): Inputs { Inputs(setting, digits, rootOf) }

    constructor (s: Setting, limit: nat, roots: real -> Option<real>)
      requires TableOk(s.table) && forall c :: roots(c).Some? ==> Times(roots(c).value, roots(c).value) == c
      ensures Valid() && setting == s && digits == limit
    {
      setting, digits, rootOf, memo := s, limit, roots, map[];
    }

    /** `value`: the signs of a quotient where it is defined. */
    method ValueFact(r: RatFun, ghost n: nat) returns (fact: Fact)
      requires Valid() && RatOk(r, n)
      modifies this
      ensures Valid() && RatSound(setting, r, n, fact) && fact == RatAnswer(Made(), r, n)
      decreases n, 2
    {
      hide GenSound, PolySound, TableOk;
      var num := PolyFact(r.num, n);
      var den := PolyFact(r.den, n);
      RatFactSound(setting, r, n, num, den);
      fact := num;
      var nonzero := den.signs & !ZERO;
      var signs := UNKNOWN;
      if nonzero != 0 { signs := TimesSigns(num.signs, nonzero); }
      fact := Fact(signs, num.names + den.names);
    }

    /** `poly`: the signs of a sum of groups, or of a perfect square. */
    method PolyFact(p: Poly, ghost n: nat) returns (fact: Fact)
      requires Valid() && SparsePoly.Valid(p) && GensBelow(p, n)
      modifies this
      ensures Valid() && PolySound(setting, p, n, fact) && fact == PolyAnswer(Made(), p, n)
      decreases n, 1
    {
      hide GenSound, PolySound, TableOk, SumSound, TermSound, GensBelow, GroupsOk, Eval, IsProduct, GenAnswer, TermAnswer, GroupsOf,
           GroupsValue, LeadHasRoot, HasShortRoot;
      if |p| == 0 {
        ZeroSound(setting, n);
        return Fact(ZERO, {});
      }
      var groups := Collect(setting.table, p, n);
      var signs, names: set<nat> := ZERO, {};
      StartSum(setting, p, n, groups);
      var k := 0;
      while k < |groups| && signs != UNKNOWN
        invariant k <= |groups| && Valid() && SumSound(setting, p, n, groups, k, Fact(signs, names))
        invariant Fact(signs, names) == SumAnswer(Made(), groups, k, n)
      {
        var more;
        signs, more := AddGroup(p, n, groups, k, signs, names);
        names := names + more;
        k := k + 1;
      }
      if k < |groups| { UnknownStays(Made(), groups, k, |groups|, n); }
      if signs != UNKNOWN {
        EndSum(setting, p, n, groups, Fact(signs, names));
        return Fact(signs, names);
      }
      var root := PolySqrt(p, rootOf);
      if root.None? {
        UnknownPoly(setting, p, n);
        return Fact(UNKNOWN, {});
      }
      SquareSound(setting, p, n, root.value);
      fact := Fact(ZERO | POSITIVE, {});
    }

    /** One group's signs, added to those before it. */
    method AddGroup(p: Poly, ghost n: nat, groups: seq<TermGroup>, k: nat, signs: SignSet, ghost names: set<nat>)
      returns (sum: SignSet, more: set<nat>)
      requires Valid() && GensBelow(p, n) && GroupsOk(setting.table, groups, p, n)
      requires k < |groups| && SumSound(setting, p, n, groups, k, Fact(signs, names))
      modifies this
      ensures Valid() && SumSound(setting, p, n, groups, k + 1, Fact(sum, names + more))
      ensures var term := TermAnswer(Made(), groups[k], |groups[k].m|, n);
              sum == PlusSigns(signs, term.signs) && more == term.names
      decreases n, 0
    {
      hide GenSound, TableOk, SumSound, TermSound, GensBelow, Eval, Encloses, RestIn;
      var group := groups[k];
      var sign := ConstantSign(group.c, IrrationalsOf(setting), digits);
      var term := SignFact(sign);
      more := {};
      StartTerm(setting, p, n, group, sign, names);
      assert names + more == names;
      for g := 0 to |group.m|
        invariant Valid() && TermSound(setting, p, n, group, g, Fact(term, names + more))
        invariant Fact(term, more) == TermAnswer(Made(), group, g, n)
      {
        if group.m[g] == 0 {
          SkipTerm(setting, p, n, group, g, Fact(term, names + more));
        } else {
          RestBelow(setting.table, group.m, p, n, g);
          var factor := GeneratorFact(g);
          StepTerm(setting, p, n, group, g, Fact(term, names + more), factor);
          term := TimesSigns(term, PowerSigns(factor.signs, group.m[g]));
          assert names + more + factor.names == names + (more + factor.names);
          more := more + factor.names;
        }
      }
      StepSum(setting, p, n, groups, k, signs, term, names, more);
      sum := PlusSigns(signs, term);
    }

    /** `generator`, with its memo. */
    method GeneratorFact(g: nat) returns (fact: Fact)
      requires Valid()
      modifies this
      ensures Valid() && GenSound(setting, g, fact) && fact == GenAnswer(Made(), g)
      decreases g, 5
    {
      hide GenSound, TableOk;
      if g in memo { return memo[g]; }
      fact := Compute(g);
      memo := memo[g := fact];
    }

    method Compute(g: nat) returns (fact: Fact)
      requires Valid()
      modifies this
      ensures Valid() && GenSound(setting, g, fact) && fact == GenAnswer(Made(), g)
      decreases g, 4
    {
      hide GenSound;
      if g >= |setting.table| {
        UnknownSound(setting, g);
        return Fact(UNKNOWN, {});
      }
      match setting.table[g]
      case NameGen(x) =>
        NameSound(setting, g);
        fact := if x in setting.known then Fact(AssumedSigns(setting.known[x]), {x}) else Fact(UNKNOWN, {});
      case PiGen =>
        IrrationalSound(setting, g);
        fact := Fact(POSITIVE, {});
      case EGen =>
        IrrationalSound(setting, g);
        fact := Fact(POSITIVE, {});
      case AtomGen(_) =>
        UnknownSound(setting, g);
        fact := Fact(UNKNOWN, {});
      case KernelGen(fn, args) =>
        if fn.Opaque? {
          UnknownSound(setting, g);
          fact := Fact(UNKNOWN, {});
        } else {
          fact := KernelFact(g);
        }
    }

    /** `kernel`, for a kernel of one argument. */
    method KernelFact(g: nat) returns (fact: Fact)
      requires Valid() && g < |setting.table| && setting.table[g].KernelGen? && !setting.table[g].fn.Opaque?
      modifies this
      ensures Valid() && GenSound(setting, g, fact)
      ensures fact == KernelAnswer(Made(), setting.table[g].fn, setting.table[g].args[0], g)
      decreases g, 3
    {
      var u := setting.table[g].args[0];
      assert RatOk(u, g) && |setting.table[g].args| == 1;
      hide GenSound, RatSound, TableOk, RatOk, RatAnswer, GenAnswer, MinusOneOf, AtLeastZero;
      match setting.table[g].fn
      case Exponential => PositiveKernel(setting, g); fact := Fact(POSITIVE, {});
      case Cosh => PositiveKernel(setting, g); fact := Fact(POSITIVE, {});
      case Factorial => PositiveKernel(setting, g); fact := Fact(POSITIVE, {});
      case SameSign(_) =>
        fact := ValueFact(u, g);
        SameSignKernel(setting, g, fact);
      case Abs =>
        var inner := ValueFact(u, g);
        AtLeastZeroKernel(setting, g, inner, Nonzero);
        fact := AtLeastZero(inner, Nonzero);
      case Sqrt =>
        var inner := ValueFact(u, g);
        AtLeastZeroKernel(setting, g, inner, Positive);
        fact := AtLeastZero(inner, Positive);
      case Logarithm(_) =>
        MinusOneOk(u, g);
        fact := ValueFact(MinusOneOf(u), g);
        LogarithmKernel(setting, g, fact);
    }
  }
}
