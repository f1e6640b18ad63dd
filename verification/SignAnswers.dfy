/** Every answer of the sign oracle is the strongest that its rule allows: it covers exactly the signs reachable from
    what is known of the parts (the table of packages/cas/src/sign.ts). */
module SignAnswers {
  import opened Options
  import opened Reals
  import opened SparsePoly
  import opened SparseRoots
  import opened Signs
  import opened Constants
  import opened SignWorlds
  import opened SignOracles

  // ---- sign arithmetic is exact ----

  lemma SomeCovered(s: SignSet) returns (x: real)
    requires s != 0
    ensures Covers(s, x)
  {
    x := if s & NEGATIVE != 0 then -1.0 else if s & ZERO != 0 then 0.0 else 1.0;
  }

  ghost predicate SumOf(a: SignSet, b: SignSet, v: real) {
    exists x: real, y: real :: Covers(a, x) && Covers(b, y) && x + y == v
  }

  lemma SumWitness(a: SignSet, b: SignSet, v: real, x: real)
    requires Covers(a, x) && Covers(b, v - x)
    ensures SumOf(a, b, v)
  {
    assert x + (v - x) == v;
  }

  /** `plus` gives exactly the signs of sums. */
  lemma PlusIsExact(a: SignSet, b: SignSet, v: real)
    requires a != 0 && b != 0
    ensures Covers(PlusSigns(a, b), v) <==> SumOf(a, b, v)
  {
    if SumOf(a, b, v) {
      var x: real, y: real :| Covers(a, x) && Covers(b, y) && x + y == v;
      PlusCovers(a, b, x, y);
    }
    if Covers(PlusSigns(a, b), v) { PlusReached(a, b, v); }
  }

  lemma PlusReached(a: SignSet, b: SignSet, v: real)
    requires a != 0 && b != 0 && Covers(PlusSigns(a, b), v)
    ensures SumOf(a, b, v)
  {
    if a & ZERO != 0 && Covers(b, v) { SumWitness(a, b, v, 0.0); }
    else if b & ZERO != 0 && Covers(a, v) { SumWitness(a, b, v, v); }
    else if a & NEGATIVE != 0 && b & POSITIVE != 0 { SumWitness(a, b, v, if v < 0.0 then v - 1.0 else -1.0); }
    else if a & POSITIVE != 0 && b & NEGATIVE != 0 { SumWitness(a, b, v, if v > 0.0 then v + 1.0 else 1.0); }
    else { SumWitness(a, b, v, v / 2.0); }
  }

  /** v has the sign of a product of numbers with the signs a and b. */
  ghost predicate ProductOf(a: SignSet, b: SignSet, v: real) {
    exists x: real, y: real :: Covers(a, x) && Covers(b, y) && SignOf(v) == SignOf(Times(x, y))
  }

  lemma ProductWitness(a: SignSet, b: SignSet, v: real, x: real, y: real)
    requires Covers(a, x) && Covers(b, y) && SignOf(v) == SignOf(Times(x, y))
    ensures ProductOf(a, b, v)
  {}

  /** `times` gives exactly the signs of products. */
  lemma ProductIsExact(a: SignSet, b: SignSet, v: real)
    ensures Covers(ProductSigns(a, b), v) <==> ProductOf(a, b, v)
  {
    if ProductOf(a, b, v) {
      var x: real, y: real :| Covers(a, x) && Covers(b, y) && SignOf(v) == SignOf(Times(x, y));
      ProductCovers(a, b, x, y);
    }
    if Covers(ProductSigns(a, b), v) { ProductReached(a, b, v); }
  }

  lemma ProductReached(a: SignSet, b: SignSet, v: real)
    requires Covers(ProductSigns(a, b), v)
    ensures ProductOf(a, b, v)
  {
    if v == 0.0 {
      if a & ZERO != 0 {
        var y := SomeCovered(b);
        ProductWitness(a, b, v, 0.0, y);
      } else {
        var x := SomeCovered(a);
        ProductWitness(a, b, v, x, 0.0);
      }
    } else if v > 0.0 {
      if a & NEGATIVE != 0 && b & NEGATIVE != 0 { ProductWitness(a, b, v, -1.0, -1.0); } else { ProductWitness(a, b, v, 1.0, 1.0); }
    } else {
      if a & NEGATIVE != 0 && b & POSITIVE != 0 { ProductWitness(a, b, v, -1.0, 1.0); } else { ProductWitness(a, b, v, 1.0, -1.0); }
    }
  }

  ghost predicate PowerOf(s: SignSet, n: nat, v: real) {
    exists x: real :: Covers(s, x) && SignOf(v) == SignOf(Power(x, n))
  }

  lemma PowerWitness(s: SignSet, n: nat, v: real, x: real)
    requires Covers(s, x) && SignOf(v) == SignOf(Power(x, n))
    ensures PowerOf(s, n, v)
  {}

  /** `toPower` gives exactly the signs of powers. */
  lemma PowerIsExact(s: SignSet, n: nat, v: real)
    requires n > 0
    ensures Covers(PowerSigns(s, n), v) <==> PowerOf(s, n, v)
  {
    if PowerOf(s, n, v) {
      var x: real :| Covers(s, x) && SignOf(v) == SignOf(Power(x, n));
      PowerCovers(s, x, n);
    }
    if Covers(PowerSigns(s, n), v) {
      EvenPower(-1.0, n);
      EvenPower(0.0, n);
      EvenPower(1.0, n);
      if v == 0.0 { PowerWitness(s, n, v, 0.0); }
      else if v < 0.0 || s & POSITIVE == 0 { PowerWitness(s, n, v, -1.0); }
      else { PowerWitness(s, n, v, 1.0); }
    }
  }

  // ---- what the answer about a generator says ----

  /** An answer is never empty, and names only assumed names among the generators below n. */
  ghost predicate Proper(o: Inputs, fact: Fact, n: nat) {
    && fact.signs != 0
    && forall x :: x in fact.names ==> x in o.setting.known && NameGen(x) in o.setting.table[..Least(n, |o.setting.table|)]
  }

  function Least(a: nat, b: nat): nat { if a < b then a else b }

  lemma ProperGrows(o: Inputs, fact: Fact, m: nat, n: nat)
    requires Proper(o, fact, m) && m <= n
    ensures Proper(o, fact, n)
  {
    var t := o.setting.table;
    assert t[..Least(m, |t|)] == t[..Least(n, |t|)][..Least(m, |t|)];
  }

  lemma SignsNotEmpty(a: SignSet, b: SignSet, n: nat)
    requires a != 0 && b != 0
    ensures PlusSigns(a, b) != 0 && ProductSigns(a, b) != 0 && PowerSigns(a, n) != 0
  {}

  lemma SignFactNotEmpty(sign: Option<int>)
    ensures SignFact(sign) != 0
  {}

  lemma {:induction false} ProperGen(o: Inputs, g: nat)
    requires TableOk(o.setting.table)
    ensures Proper(o, GenAnswer(o, g), g + 1)
    decreases g, 4
  {
    var t := o.setting.table;
    hide KernelAnswer, TableOk;
    if g < |t| {
      match t[g]
      case NameGen(x) =>
        assert t[..Least(g + 1, |t|)][g] == NameGen(x);
        AssumedNotEmpty(o.setting, x);
      case KernelGen(fn, args) =>
        if !fn.Opaque? {
          OneArgument(t, g);
          ProperKernel(o, fn, args[0], g);
          ProperGrows(o, KernelAnswer(o, fn, args[0], g), g, g + 1);
        }
      case _ =>
    }
  }

  lemma OneArgument(table: Generators, g: nat)
    requires TableOk(table) && g < |table| && table[g].KernelGen? && !table[g].fn.Opaque?
    ensures |table[g].args| == 1
  {}

  lemma AssumedNotEmpty(s: Setting, x: nat)
    ensures x in s.known ==> AssumedSigns(s.known[x]) != 0
  {}

  lemma {:induction false} ProperKernel(o: Inputs, fn: Kernel, u: RatFun, n: nat)
    requires TableOk(o.setting.table)
    ensures Proper(o, KernelAnswer(o, fn, u, n), n)
    decreases n, 3
  {
    hide RatAnswer, MinusOneOf, TableOk;
    ProperRat(o, u, n);
    ProperRat(o, MinusOneOf(u), n);
  }

  lemma {:induction false} ProperRat(o: Inputs, r: RatFun, n: nat)
    requires TableOk(o.setting.table)
    ensures Proper(o, RatAnswer(o, r, n), n)
    decreases n, 2
  {
    ProperPoly(o, r.num, n);
    ProperPoly(o, r.den, n);
    hide PolyAnswer, TableOk, PlusSigns, ProductSigns, PowerSigns;
    var x, y := PolyAnswer(o, r.num, n), PolyAnswer(o, r.den, n);
    var nonzero := y.signs & !ZERO;
    if nonzero != 0 { SignsNotEmpty(x.signs, nonzero, 1); }
  }

  lemma {:induction false} ProperPoly(o: Inputs, p: Poly, n: nat)
    requires TableOk(o.setting.table)
    ensures Proper(o, PolyAnswer(o, p, n), n)
    decreases n, 1
  {
    hide SumAnswer, TableOk, GroupsOf, LeadHasRoot, HasShortRoot;
    if p != [] {
      var groups := GroupsOf(o.setting.table, p, |p|);
      ProperSum(o, groups, |groups|, n);
    }
  }

  lemma {:induction false} ProperSum(o: Inputs, groups: seq<TermGroup>, k: nat, n: nat)
    requires TableOk(o.setting.table) && k <= |groups|
    ensures Proper(o, SumAnswer(o, groups, k, n), n)
    decreases n, 0, 1, k
  {
    hide TermAnswer, TableOk, PlusSigns;
    if k > 0 {
      ProperSum(o, groups, k - 1, n);
      ProperTerm(o, groups[k - 1], |groups[k - 1].m|, n);
      SignsNotEmpty(SumAnswer(o, groups, k - 1, n).signs, TermAnswer(o, groups[k - 1], |groups[k - 1].m|, n).signs, 1);
    }
  }

  lemma {:induction false} ProperTerm(o: Inputs, group: TermGroup, g: nat, n: nat)
    requires TableOk(o.setting.table) && g <= |group.m|
    ensures Proper(o, TermAnswer(o, group, g, n), n)
    decreases n, 0, 0, g
  {
    hide GenAnswer, TableOk, ProductSigns, PowerSigns, ConstantAnswer, SignFact;
    if g == 0 {
      SignFactNotEmpty(ConstantAnswer(group.c, IrrationalsOf(o.setting), o.digits));
    } else {
      ProperTerm(o, group, g - 1, n);
      if group.m[g - 1] != 0 && g - 1 < n {
        ProperGen(o, g - 1);
        ProperGrows(o, GenAnswer(o, g - 1), g, n);
        var front, factor := TermAnswer(o, group, g - 1, n), GenAnswer(o, g - 1);
        SignsNotEmpty(factor.signs, factor.signs, group.m[g - 1]);
        SignsNotEmpty(front.signs, PowerSigns(factor.signs, group.m[g - 1]), 1);
      }
    }
  }

  /** A name has exactly the signs its assumption allows, and names it; pi and e are positive; nothing is known of an
      atom or an opaque kernel. */
  lemma LeafIsExact(o: Inputs, g: nat, v: real)
    requires TableOk(o.setting.table) && g < |o.setting.table|
    requires o.setting.table[g].KernelGen? ==> o.setting.table[g].fn.Opaque?
    ensures var fact := GenAnswer(o, g);
            match o.setting.table[g]
            case NameGen(x) =>
              && (Covers(fact.signs, v) <==> (x in o.setting.known ==> Meets(o.setting.known[x], v)))
              && fact.names == if x in o.setting.known then {x} else {}
            case PiGen => (Covers(fact.signs, v) <==> v > 0.0) && fact.names == {}
            case EGen => (Covers(fact.signs, v) <==> v > 0.0) && fact.names == {}
            case _ => Covers(fact.signs, v) && fact.names == {}
  {
    hide TableOk;
    var t := o.setting.table;
    if t[g].NameGen? && t[g].name in o.setting.known { AssumedIsExact(o.setting.known[t[g].name], v); }
  }

  /** v is the value of the kernel at some number that the answer about its argument allows. For a logarithm the
      oracle asks about the argument less 1. */
  ghost predicate KernelOf(fn: Kernel, s: SignSet, v: real) {
    exists x: real :: Covers(s, x) && KernelLaw(fn, if fn.Logarithm? then x + 1.0 else x, v)
  }

  lemma KernelWitness(fn: Kernel, s: SignSet, v: real, x: real)
    requires Covers(s, x) && KernelLaw(fn, if fn.Logarithm? then x + 1.0 else x, v)
    ensures KernelOf(fn, s, v)
  {}

  /** The answer about a kernel covers exactly the signs of its values at arguments allowed by the answer about its
      argument; a factorial is answered as positive, whatever its argument. */
  lemma KernelIsExact(o: Inputs, fn: Kernel, u: RatFun, n: nat, v: real)
    requires TableOk(o.setting.table) && !fn.Opaque?
    ensures var asked := RatAnswer(o, if fn.Logarithm? then MinusOneOf(u) else u, n);
            Covers(KernelAnswer(o, fn, u, n).signs, v) <==> if fn.Factorial? then v > 0.0 else KernelOf(fn, asked.signs, v)
  {
    var r := if fn.Logarithm? then MinusOneOf(u) else u;
    ProperRat(o, r, n);
    hide RatAnswer, MinusOneOf, TableOk;
    var s := RatAnswer(o, r, n).signs;
    hide KernelOf, Covers, Holds;
    match fn
    case Abs => RootLike(s, Nonzero, fn, v);
    case Sqrt => RootLike(s, Positive, fn, v);
    case SameSign(_) => SignLike(s, fn, v);
    case Logarithm(_) => SignLike(s, fn, v);
    case _ => PositiveLike(s, fn, v);
  }

  /** The same of a generator that is a kernel. */
  lemma KernelGenIsExact(o: Inputs, g: nat, v: real)
    requires TableOk(o.setting.table) && g < |o.setting.table|
    requires o.setting.table[g].KernelGen? && !o.setting.table[g].fn.Opaque?
    ensures |o.setting.table[g].args| == 1
    ensures var fn, u := o.setting.table[g].fn, o.setting.table[g].args[0];
            var asked := RatAnswer(o, if fn.Logarithm? then MinusOneOf(u) else u, g);
            Covers(GenAnswer(o, g).signs, v) <==> if fn.Factorial? then v > 0.0 else KernelOf(fn, asked.signs, v)
    ensures Covers(GenAnswer(o, g).signs, 0.0) && (o.setting.table[g].fn.Abs? || o.setting.table[g].fn.Sqrt?) ==>
              GenAnswer(o, g).names == {}
  {
    var fn, u := o.setting.table[g].fn, o.setting.table[g].args[0];
    OneArgument(o.setting.table, g);
    assert GenAnswer(o, g) == KernelAnswer(o, fn, u, g);
    KernelIsExact(o, fn, u, g, v);
    KernelNames(o, fn, u, g);
  }

  /** What the oracle says of a kernel depends on names only through what it says of the argument. */
  lemma KernelNames(o: Inputs, fn: Kernel, u: RatFun, n: nat)
    requires TableOk(o.setting.table) && !fn.Opaque?
    ensures fn.Exponential? || fn.Cosh? || fn.Factorial? ==> KernelAnswer(o, fn, u, n).names == {}
    ensures (fn.Abs? || fn.Sqrt?) && Covers(KernelAnswer(o, fn, u, n).signs, 0.0) ==> KernelAnswer(o, fn, u, n).names == {}
  {
    hide RatAnswer, MinusOneOf, TableOk;
  }

  lemma SignLike(s: SignSet, fn: Kernel, v: real)
    requires fn.SameSign? || fn.Logarithm?
    ensures Covers(s, v) <==> KernelOf(fn, s, v)
  {
    if Covers(s, v) { KernelWitness(fn, s, v, v); }
  }

  lemma PositiveLike(s: SignSet, fn: Kernel, v: real)
    requires s != 0 && (fn.Exponential? || fn.Cosh? || fn.Factorial?)
    ensures Covers(POSITIVE, v) <==> v > 0.0
    ensures !fn.Factorial? ==> (v > 0.0 <==> KernelOf(fn, s, v))
  {
    var x := SomeCovered(s);
    if v > 0.0 && !fn.Factorial? { KernelWitness(fn, s, v, x); }
  }

  lemma RootLike(s: SignSet, claim: Claim, fn: Kernel, v: real)
    requires s != 0 && ((fn == Abs && claim == Nonzero) || (fn == Sqrt && claim == Positive))
    ensures Covers(if Holds(s, claim) then POSITIVE else ZERO | POSITIVE, v) <==> KernelOf(fn, s, v)
  {
    if v >= 0.0 {
      if s & ZERO != 0 { KernelWitness(fn, s, v, 0.0); }
      else if s & NEGATIVE != 0 && fn == Sqrt { KernelWitness(fn, s, v, -1.0); }
      else if v > 0.0 {
        var x := SomeCovered(s);
        KernelWitness(fn, s, v, x);
      }
    }
  }

  // ---- what the answer about an expression says ----

  ghost predicate QuotientOf(a: SignSet, b: SignSet, v: real) {
    exists x: real, y: real :: Covers(a, x) && Covers(b, y) && y != 0.0 && SignOf(v) == SignOf(x / y)
  }

  /** A quotient has exactly the signs of quotients with a denominator that is not zero; nothing is known of it when
      its denominator is zero. */
  lemma QuotientIsExact(o: Inputs, r: RatFun, n: nat, v: real)
    requires TableOk(o.setting.table)
    ensures var num, den := PolyAnswer(o, r.num, n), PolyAnswer(o, r.den, n);
            Covers(RatAnswer(o, r, n).signs, v) <==> den.signs == ZERO || QuotientOf(num.signs, den.signs, v)
  {
    ProperPoly(o, r.den, n);
    hide PolyAnswer, TableOk;
    var a, b := PolyAnswer(o, r.num, n).signs, PolyAnswer(o, r.den, n).signs;
    var nonzero := b & !ZERO;
    if nonzero == 0 {
      assert b == ZERO;
    } else {
      ProductIsExact(a, nonzero, v);
      if QuotientOf(a, b, v) {
        var x: real, y: real :| Covers(a, x) && Covers(b, y) && y != 0.0 && SignOf(v) == SignOf(x / y);
        QuotientSign(x, y);
        ProductWitness(a, nonzero, v, x, y);
      }
      if ProductOf(a, nonzero, v) {
        var x: real, y: real :| Covers(a, x) && Covers(nonzero, y) && SignOf(v) == SignOf(Times(x, y));
        QuotientSign(x, y);
        QuotientWitness(a, b, v, x, y);
      }
    }
  }

  lemma QuotientWitness(a: SignSet, b: SignSet, v: real, x: real, y: real)
    requires Covers(a, x) && Covers(b, y) && y != 0.0 && SignOf(v) == SignOf(x / y)
    ensures QuotientOf(a, b, v)
  {}

  lemma QuotientSign(x: real, y: real)
    requires y != 0.0
    ensures SignOf(x / y) == SignOf(Times(x, y))
  {
    QuotientCovers(SignSetOf(x), SignSetOf(y), x, y);
  }

  function SignSetOf(x: real): SignSet { if x < 0.0 then NEGATIVE else if x == 0.0 then ZERO else POSITIVE }

  predicate AddsTo(term: SignSet, x: real, y: real, v: real) { Covers(term, y) && x + y == v }

  /** A sum of one number for each of the first k groups, each with a sign that its group's answer allows. */
  ghost predicate SumReaches(o: Inputs, groups: seq<TermGroup>, k: nat, n: nat, v: real)
    requires TableOk(o.setting.table) && k <= |groups|
    decreases k
  {
    if k == 0 then v == 0.0
    else
      var term := TermAnswer(o, groups[k - 1], |groups[k - 1].m|, n).signs;
      exists x: real, y: real :: SumReaches(o, groups, k - 1, n, x) && AddsTo(term, x, y, v)
  }

  /** A sum has exactly the signs of sums of numbers with the signs of its groups. */
  lemma {:induction false} SumIsExact(o: Inputs, groups: seq<TermGroup>, k: nat, n: nat, v: real)
    requires TableOk(o.setting.table) && k <= |groups|
    ensures Covers(SumAnswer(o, groups, k, n).signs, v) <==> SumReaches(o, groups, k, n, v)
    decreases k
  {
    hide TermAnswer, TableOk, PlusSigns;
    if k > 0 {
      var front, term := SumAnswer(o, groups, k - 1, n), TermAnswer(o, groups[k - 1], |groups[k - 1].m|, n);
      ProperSum(o, groups, k - 1, n);
      ProperTerm(o, groups[k - 1], |groups[k - 1].m|, n);
      PlusIsExact(front.signs, term.signs, v);
      forall x: real ensures Covers(front.signs, x) <==> SumReaches(o, groups, k - 1, n, x) { SumIsExact(o, groups, k - 1, n, x); }
      if front.signs == UNKNOWN { UnknownPlus(term.signs); }
      SumUnfolds(o, groups, k, n, v, front.signs, term.signs);
    }
  }

  lemma UnknownPlus(s: SignSet)
    requires s != 0
    ensures PlusSigns(UNKNOWN, s) == UNKNOWN
  {}

  lemma SumUnfolds(o: Inputs, groups: seq<TermGroup>, k: nat, n: nat, v: real, front: SignSet, term: SignSet)
    requires TableOk(o.setting.table) && 0 < k <= |groups|
    requires term == TermAnswer(o, groups[k - 1], |groups[k - 1].m|, n).signs
    requires forall x: real :: Covers(front, x) <==> SumReaches(o, groups, k - 1, n, x)
    ensures SumReaches(o, groups, k, n, v) <==> SumOf(front, term, v)
  {
    hide TermAnswer, TableOk;
    if SumOf(front, term, v) {
      var x: real, y: real :| Covers(front, x) && Covers(term, y) && x + y == v;
      assert SumReaches(o, groups, k - 1, n, x) && AddsTo(term, x, y, v);
    }
    if SumReaches(o, groups, k, n, v) {
      var x: real, y: real :| SumReaches(o, groups, k - 1, n, x) && AddsTo(term, x, y, v);
      assert Covers(front, x);
    }
  }

  /** A number with the sign of the constant times powers of one number for each generator below g that the group
      uses, each with a sign that its answer allows. */
  ghost predicate TermReaches(o: Inputs, group: TermGroup, g: nat, n: nat, v: real)
    requires TableOk(o.setting.table) && g <= |group.m|
    decreases g
  {
    if g == 0 then
      var c := ConstantAnswer(group.c, IrrationalsOf(o.setting), o.digits);
      c.Some? ==> SignOf(v) == c.value
    else if group.m[g - 1] == 0 || g - 1 >= n then TermReaches(o, group, g - 1, n, v)
    else
      var factor, degree := GenAnswer(o, g - 1).signs, group.m[g - 1];
      exists x: real, y: real ::
        TermReaches(o, group, g - 1, n, x) && Covers(factor, y) && SignOf(v) == SignOf(Times(x, Power(y, degree)))
  }

  lemma SignCovered(sign: Option<int>, v: real)
    requires sign.Some? ==> sign.value == -1 || sign.value == 0 || sign.value == 1
    ensures Covers(SignFact(sign), v) <==> (sign.Some? ==> SignOf(v) == sign.value)
  {}

  lemma ConstantAnswerIsSign(p: Poly, ctx: Irrationals, digits: nat)
    ensures var c := ConstantAnswer(p, ctx, digits); c.Some? ==> c.value == -1 || c.value == 0 || c.value == 1
  {
    hide Tried, FirstVerdict;
  }

  /** A term has exactly the signs of products of its constant and powers of numbers with the signs of its generators. */
  lemma {:induction false} TermIsExact(o: Inputs, group: TermGroup, g: nat, n: nat, v: real)
    requires TableOk(o.setting.table) && g <= |group.m|
    ensures Covers(TermAnswer(o, group, g, n).signs, v) <==> TermReaches(o, group, g, n, v)
    decreases g
  {
    hide GenAnswer, TableOk, ProductSigns, PowerSigns, ConstantAnswer, SignFact, IrrationalsOf, Times, Power;
    if g == 0 {
      var c := ConstantAnswer(group.c, IrrationalsOf(o.setting), o.digits);
      ConstantAnswerIsSign(group.c, IrrationalsOf(o.setting), o.digits);
      SignCovered(c, v);
    } else if group.m[g - 1] == 0 || g - 1 >= n {
      TermIsExact(o, group, g - 1, n, v);
    } else {
      var front, factor, degree := TermAnswer(o, group, g - 1, n).signs, GenAnswer(o, g - 1).signs, group.m[g - 1];
      forall x: real ensures Covers(front, x) <==> TermReaches(o, group, g - 1, n, x) { TermIsExact(o, group, g - 1, n, x); }
      ProductIsExact(front, PowerSigns(factor, degree), v);
      TermUnfolds(o, group, g, n, v, front, factor, degree);
    }
  }

  ghost predicate ScaledPower(front: SignSet, factor: SignSet, degree: nat, v: real) {
    exists x: real, y: real :: Covers(front, x) && Covers(factor, y) && SignOf(v) == SignOf(Times(x, Power(y, degree)))
  }

  lemma SignTimes(x: real, y: real, z: real)
    requires SignOf(y) == SignOf(z)
    ensures SignOf(Times(x, y)) == SignOf(Times(x, z))
  {
    Signs.PowerStep(x, y);
    Signs.PowerStep(x, z);
  }

  lemma PowerScaled(front: SignSet, factor: SignSet, degree: nat, v: real)
    requires degree > 0
    ensures ProductOf(front, PowerSigns(factor, degree), v) <==> ScaledPower(front, factor, degree, v)
  {
    hide PowerSigns, Times, Power, SignOf;
    if ProductOf(front, PowerSigns(factor, degree), v) {
      var x: real, z: real :| Covers(front, x) && Covers(PowerSigns(factor, degree), z) && SignOf(v) == SignOf(Times(x, z));
      PowerIsExact(factor, degree, z);
      var y: real :| Covers(factor, y) && SignOf(z) == SignOf(Power(y, degree));
      SignTimes(x, z, Power(y, degree));
    }
    if ScaledPower(front, factor, degree, v) {
      var x: real, y: real :| Covers(front, x) && Covers(factor, y) && SignOf(v) == SignOf(Times(x, Power(y, degree)));
      PowerCovers(factor, y, degree);
      ProductWitness(front, PowerSigns(factor, degree), v, x, Power(y, degree));
    }
  }

  lemma TermUnfolds(o: Inputs, group: TermGroup, g: nat, n: nat, v: real, front: SignSet, factor: SignSet, degree: nat)
    requires TableOk(o.setting.table) && 0 < g <= |group.m| && degree == group.m[g - 1] != 0 && g - 1 < n
    requires factor == GenAnswer(o, g - 1).signs
    requires forall x: real :: Covers(front, x) <==> TermReaches(o, group, g - 1, n, x)
    ensures TermReaches(o, group, g, n, v) <==> ProductOf(front, PowerSigns(factor, degree), v)
  {
    hide GenAnswer, TableOk, Times, Power, SignOf, PowerSigns, ProductOf;
    PowerScaled(front, factor, degree, v);
    if ScaledPower(front, factor, degree, v) {
      var x: real, y: real :| Covers(front, x) && Covers(factor, y) && SignOf(v) == SignOf(Times(x, Power(y, degree)));
      assert TermReaches(o, group, g - 1, n, x);
    }
    if TermReaches(o, group, g, n, v) {
      var x: real, y: real :|
        TermReaches(o, group, g - 1, n, x) && Covers(factor, y) && SignOf(v) == SignOf(Times(x, Power(y, degree)));
      assert Covers(front, x);
    }
  }

  /** The groups leave some sign out. */
  ghost predicate Decided(o: Inputs, groups: seq<TermGroup>, n: nat)
    requires TableOk(o.setting.table)
  {
    exists w: real :: !SumReaches(o, groups, |groups|, n, w)
  }

  /** A polynomial: zero is zero; otherwise its groups decide, or, when they leave every sign open, it is at least zero
      if it has a square root that `polySqrt` finds. */
  lemma PolyIsExact(o: Inputs, p: Poly, n: nat, v: real)
    requires TableOk(o.setting.table)
    ensures var groups := GroupsOf(o.setting.table, p, |p|);
            var square := LeadHasRoot(p, o.rootOf) && HasShortRoot(p);
            Covers(PolyAnswer(o, p, n).signs, v) <==>
              if p == [] then v == 0.0
              else if Decided(o, groups, n) then SumReaches(o, groups, |groups|, n, v)
              else square ==> v >= 0.0
    ensures p != [] && !Decided(o, GroupsOf(o.setting.table, p, |p|), n) ==> PolyAnswer(o, p, n).names == {}
  {
    hide SumAnswer, TableOk, GroupsOf, LeadHasRoot, HasShortRoot, SumReaches;
    var groups := GroupsOf(o.setting.table, p, |p|);
    var s := SumAnswer(o, groups, |groups|, n).signs;
    forall w: real ensures Covers(s, w) <==> SumReaches(o, groups, |groups|, n, w) { SumIsExact(o, groups, |groups|, n, w); }
    UnknownIsAll(s);
    if s != UNKNOWN {
      var w: real :| !Covers(s, w);
      assert !SumReaches(o, groups, |groups|, n, w);
    }
  }

  lemma UnknownIsAll(s: SignSet)
    ensures s == UNKNOWN <==> forall w: real :: Covers(s, w)
  {
    assert Covers(s, -1.0) <==> s & NEGATIVE != 0;
    assert Covers(s, 0.0) <==> s & ZERO != 0;
    assert Covers(s, 1.0) <==> s & POSITIVE != 0;
  }

  // ---- terms with one part outside pi and e are decided together ----

  ghost predicate Apart(groups: seq<TermGroup>) {
    forall i, j :: 0 <= i < j < |groups| ==> groups[i].m != groups[j].m
  }

  lemma {:induction false} FindGroupFinds(groups: seq<TermGroup>, m: Monomial)
    ensures FindGroup(groups, m) == |groups| ==> forall i :: 0 <= i < |groups| ==> groups[i].m != m
  {
    if groups != [] && groups[0].m != m {
      FindGroupFinds(groups[1..], m);
      forall i | 0 < i < |groups| && FindGroup(groups, m) == |groups| ensures groups[i].m != m {
        assert groups[i] == groups[1..][i - 1];
      }
    }
  }

  lemma SameGroupsApart(groups: seq<TermGroup>, k: nat, c: Poly)
    requires k < |groups| && Apart(groups)
    ensures Apart(groups[k := TermGroup(groups[k].m, c)])
  {}

  lemma NewGroupApart(groups: seq<TermGroup>, rest: Monomial)
    requires Apart(groups) && forall i :: 0 <= i < |groups| ==> groups[i].m != rest
    ensures Apart(NewGroup(groups, rest))
  {}

  lemma GroupedApart(table: Generators, groups: seq<TermGroup>, t: Term)
    requires Apart(groups)
    ensures Apart(Grouped(table, groups, t))
  {
    var rest := RestOf(table, t.m);
    FindGroupFinds(groups, rest);
    var at := FindGroup(groups, rest);
    var from := if at == |groups| then NewGroup(groups, rest) else groups;
    if at == |groups| { NewGroupApart(groups, rest); }
    var c := Sum(from[at].c, Share(table, t));
    hide RestOf, Sum, Share, Apart;
    SameGroupsApart(from, at, c);
  }

  /** No two groups of a polynomial have the same part outside pi and e. */
  lemma {:induction false} GroupsApart(table: Generators, p: Poly, k: nat)
    requires k <= |p|
    ensures Apart(GroupsOf(table, p, k))
    decreases k
  {
    hide Grouped;
    if k > 0 {
      hide Apart;
      GroupsApart(table, p, k - 1);
      GroupedApart(table, GroupsOf(table, p, k - 1), p[k - 1]);
    }
  }
}
