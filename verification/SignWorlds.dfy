/** What a sign fact promises: generators, their values in a world, and soundness of facts (packages/cas/src/sign.ts,
    over the generator table of packages/cas/src/context.ts). */
module SignWorlds {
  import opened Options
  import opened Reals
  import opened SparsePoly
  import opened SparseDegrees
  import opened SparseZeros
  import opened Signs
  import opened Constants

  /** Kernels by what the oracle knows of them. `SameSign` stands for sign, cbrt, atan, asin, sinh, tanh, asinh and
      atanh, `Logarithm` for ln, log, log10 and log2 of one argument; the oracle knows nothing of an opaque one. */
  datatype Kernel = Exponential | Cosh | Factorial | SameSign(id: nat) | Abs | Sqrt | Logarithm(id: nat) | Opaque(id: nat)

  datatype RatFun = RatFun(num: Poly, den: Poly)

  datatype Generator = NameGen(name: nat) | PiGen | EGen | AtomGen(name: nat) | KernelGen(fn: Kernel, args: seq<RatFun>)

  type Generators = seq<Generator>

  /** Only generators below n. */
  predicate GensBelow(p: Poly, n: nat) { forall t :: t in p ==> |t.m| <= n }

  ghost predicate RatOk(r: RatFun, n: nat) { Valid(r.num) && Valid(r.den) && GensBelow(r.num, n) && GensBelow(r.den, n) }

  /** A kernel is interned after the generators of its arguments, and a known kernel has one argument. */
  ghost predicate TableOk(table: Generators) {
    forall g :: 0 <= g < |table| && table[g].KernelGen? ==>
      && (forall i :: 0 <= i < |table[g].args| ==> RatOk(table[g].args[i], g))
      && (table[g].fn.Opaque? || |table[g].args| == 1)
  }

  // ---- values ----

  /** Values of names and atoms, of pi and e, and of kernels where they are defined. */
  datatype World = World(name: nat -> real, atom: nat -> real, pi: real, e: real, fn: (Kernel, seq<real>) -> Option<real>)

  ghost function GenValue(table: Generators, g: nat, w: World): Option<real>
    requires TableOk(table)
    decreases g, 4
  {
    if g >= |table| then None
    else
      match table[g]
      case NameGen(x) => Some(w.name(x))
      case PiGen => Some(w.pi)
      case EGen => Some(w.e)
      case AtomGen(a) => Some(w.atom(a))
      case KernelGen(fn, args) =>
        var us := ArgValues(table, g, |args|, w);
        if us.None? then None else w.fn(fn, us.value)
  }

  ghost function ArgValues(table: Generators, g: nat, k: nat, w: World): (us: Option<seq<real>>)
    requires TableOk(table) && g < |table| && table[g].KernelGen? && k <= |table[g].args|
    ensures us.Some? ==> |us.value| == k
    decreases g, 3, k
  {
    if k == 0 then Some([])
    else
      var front, last := ArgValues(table, g, k - 1, w), RatValue(table, table[g].args[k - 1], g, w);
      if front.None? || last.None? then None else Some(front.value + [last.value])
  }

  /** The values of the generators below n; 0 where undefined. */
  ghost function Values(table: Generators, n: nat, w: World): Point
    requires TableOk(table)
    decreases n, 0
  {
    (g: nat) => if g < n && GenValue(table, g, w).Some? then GenValue(table, g, w).value else 0.0
  }

  /** Every generator a polynomial uses has a value. */
  ghost predicate Defined(table: Generators, p: Poly, n: nat, w: World)
    requires TableOk(table) && GensBelow(p, n)
    decreases n, 0
  {
    forall t, g: nat :: t in p && g < |t.m| && t.m[g] != 0 ==> GenValue(table, g, w).Some?
  }

  ghost function PolyValue(table: Generators, p: Poly, n: nat, w: World): Option<real>
    requires TableOk(table) && GensBelow(p, n)
    decreases n, 1
  {
    if Defined(table, p, n, w) then Some(Eval(p, Values(table, n, w))) else None
  }

  ghost function RatValue(table: Generators, r: RatFun, n: nat, w: World): Option<real>
    requires TableOk(table) && GensBelow(r.num, n) && GensBelow(r.den, n)
    decreases n, 2
  {
    var x, y := PolyValue(table, r.num, n, w), PolyValue(table, r.den, n, w);
    if x.None? || y.None? || y.value == 0.0 then None else Some(x.value / y.value)
  }

  // ---- facts ----

  datatype Fact = Fact(signs: SignSet, names: set<nat>)

  datatype Assumption = IsPositive | IsNonnegative | IsNegative | IsNonzero

  function AssumedSigns(a: Assumption): SignSet {
    match a
    case IsPositive => POSITIVE
    case IsNonnegative => ZERO | POSITIVE
    case IsNegative => NEGATIVE
    case IsNonzero => NEGATIVE | POSITIVE
  }

  /** What an assumption says of a number. */
  predicate Meets(a: Assumption, x: real) {
    match a
    case IsPositive => x > 0.0
    case IsNonnegative => x >= 0.0
    case IsNegative => x < 0.0
    case IsNonzero => x != 0.0
  }

  /** The signs of an assumption are exactly those of the numbers that meet it. */
  lemma AssumedIsExact(a: Assumption, x: real)
    ensures Covers(AssumedSigns(a), x) <==> Meets(a, x)
  {}

  /** The world meets the assumptions on these names. */
  ghost predicate Assumed(known: map<nat, Assumption>, names: set<nat>, w: World) {
    forall x :: x in names && x in known ==> Meets(known[x], w.name(x))
  }

  /** u! is gamma(u + 1). It has no value at the negative integers, and is never zero; left of -1 its sign changes at
      each integer, negative first. */
  predicate FactorialPositive(u: real) { u > -1.0 || u.Floor % 2 == 1 }

  predicate FactorialDefined(u: real) { u >= 0.0 || u != u.Floor as real }

  /** The decimals enclose pi and e, and each kernel has the sign its function has. */
  ghost predicate Real(pi: nat -> real, e: nat -> real, w: World) {
    && w.pi >= 1.0 && w.e >= 1.0 && Expands(pi, w.pi) && Expands(e, w.e)
    && forall fn: Kernel, u: real :: w.fn(fn, [u]).Some? ==> KernelLaw(fn, u, w.fn(fn, [u]).value)
  }

  predicate KernelLaw(fn: Kernel, u: real, v: real) {
    match fn
    case Exponential => v > 0.0
    case Cosh => v > 0.0
    case Factorial => FactorialDefined(u) && v != 0.0 && (v > 0.0 <==> FactorialPositive(u))
    case SameSign(_) => SignOf(v) == SignOf(u)
    case Abs => v >= 0.0 && (u != 0.0 ==> v > 0.0)
    case Sqrt => v >= 0.0 && (u > 0.0 ==> v > 0.0)
    case Logarithm(_) => SignOf(v) == SignOf(u - 1.0)
    case Opaque(_) => true
  }

  /** What the oracle is asked in: generators, assumptions and the decimals of pi and e. */
  datatype Setting = Setting(table: Generators, known: map<nat, Assumption>, pi: nat -> real, e: nat -> real)

  // ---- where the oracle is right ----

  /** No factorial that decides a fact about generator g is at an argument where it is negative. Facts about exp, cosh
      and opaque kernels do not look inside. */
  ghost predicate Tame(table: Generators, g: nat, w: World)
    requires TableOk(table)
    decreases g, 4
  {
    g < |table| && table[g].KernelGen? ==>
      match table[g].fn
      case Exponential => true
      case Cosh => true
      case Opaque(_) => true
      case Factorial => GenValue(table, g, w).Some? ==> FactorialPositive(ArgumentOf(table, g, w))
      case _ => TameRat(table, table[g].args[0], g, w)
  }

  ghost predicate TamePoly(table: Generators, p: Poly, n: nat, w: World)
    requires TableOk(table) && GensBelow(p, n)
    decreases n, 0
  {
    forall t, g: nat :: t in p && g < |t.m| && t.m[g] != 0 ==> Tame(table, g, w)
  }

  ghost predicate TameRat(table: Generators, r: RatFun, n: nat, w: World)
    requires TableOk(table) && GensBelow(r.num, n) && GensBelow(r.den, n)
    decreases n, 1
  {
    TamePoly(table, r.num, n, w) && TamePoly(table, r.den, n, w)
  }

  /** The value of the argument of a kernel that has a value. */
  ghost function ArgumentOf(table: Generators, g: nat, w: World): real
    requires TableOk(table) && g < |table| && table[g].KernelGen? && |table[g].args| == 1 && GenValue(table, g, w).Some?
  {
    KernelValue(table, g, w);
    RatValue(table, table[g].args[0], g, w).value
  }

  lemma AllTame(table: Generators, p: Poly, n: nat, w: World)
    requires TableOk(table) && GensBelow(p, n) && forall h: nat :: h < n ==> Tame(table, h, w)
    ensures TamePoly(table, p, n, w)
  {}

  /** Without factorials there is nothing to exclude. */
  lemma {:induction false} NoFactorials(table: Generators, g: nat, w: World)
    requires TableOk(table) && forall k :: 0 <= k < |table| && table[k].KernelGen? ==> table[k].fn != Factorial
    ensures Tame(table, g, w)
    decreases g
  {
    hide GenValue, RatValue;
    if g < |table| && table[g].KernelGen? && !table[g].fn.Opaque? {
      var r := table[g].args[0];
      assert RatOk(r, g);
      forall h: nat | h < g ensures Tame(table, h, w) { NoFactorials(table, h, w); }
      AllTame(table, r.num, g, w);
      AllTame(table, r.den, g, w);
    }
  }

  /** In every tame world where the assumptions on the fact's names hold and the value is defined, its sign is in the
      fact's set. */
  ghost predicate GenSound(s: Setting, g: nat, fact: Fact)
    requires TableOk(s.table)
  {
    forall w: World ::
      Real(s.pi, s.e, w) && Assumed(s.known, fact.names, w) && Tame(s.table, g, w) && GenValue(s.table, g, w).Some? ==>
        Covers(fact.signs, GenValue(s.table, g, w).value)
  }

  ghost predicate PolySound(s: Setting, p: Poly, n: nat, fact: Fact)
    requires TableOk(s.table) && GensBelow(p, n)
  {
    forall w: World ::
      Real(s.pi, s.e, w) && Assumed(s.known, fact.names, w) && TamePoly(s.table, p, n, w) && PolyValue(s.table, p, n, w).Some? ==>
        Covers(fact.signs, PolyValue(s.table, p, n, w).value)
  }

  ghost predicate RatSound(s: Setting, r: RatFun, n: nat, fact: Fact)
    requires TableOk(s.table) && GensBelow(r.num, n) && GensBelow(r.den, n)
  {
    forall w: World ::
      Real(s.pi, s.e, w) && Assumed(s.known, fact.names, w) && TameRat(s.table, r, n, w) && RatValue(s.table, r, n, w).Some? ==>
        Covers(fact.signs, RatValue(s.table, r, n, w).value)
  }

  // ---- leaves and kernels ----

  /** The fact of a name is sound, and with an assumption it proves exactly the claims the assumption implies. */
  lemma NameSound(s: Setting, g: nat)
    requires TableOk(s.table) && g < |s.table| && s.table[g].NameGen?
    ensures var x := s.table[g].name;
            GenSound(s, g, if x in s.known then Fact(AssumedSigns(s.known[x]), {x}) else Fact(UNKNOWN, {}))
    ensures var x := s.table[g].name;
            x in s.known ==> forall claim: Claim ::
              Holds(AssumedSigns(s.known[x]), claim) <==> forall v: real :: Meets(s.known[x], v) ==> Satisfies(v, claim)
  {
    var x := s.table[g].name;
    if x in s.known {
      forall v: real ensures Covers(AssumedSigns(s.known[x]), v) <==> Meets(s.known[x], v) { AssumedIsExact(s.known[x], v); }
      forall claim: Claim
        ensures Holds(AssumedSigns(s.known[x]), claim) <==> forall v: real :: Meets(s.known[x], v) ==> Satisfies(v, claim)
      {
        HoldsIsExact(AssumedSigns(s.known[x]), claim);
      }
    }
  }

  lemma IrrationalSound(s: Setting, g: nat)
    requires TableOk(s.table) && g < |s.table| && (s.table[g].PiGen? || s.table[g].EGen?)
    ensures GenSound(s, g, Fact(POSITIVE, {}))
  {}

  lemma UnknownSound(s: Setting, g: nat)
    requires TableOk(s.table)
    ensures GenSound(s, g, Fact(UNKNOWN, {}))
  {}

  /** The value of a kernel of one argument. */
  lemma KernelValue(table: Generators, g: nat, w: World)
    requires TableOk(table) && g < |table| && table[g].KernelGen? && |table[g].args| == 1
    requires GenValue(table, g, w).Some?
    ensures RatValue(table, table[g].args[0], g, w).Some?
    ensures GenValue(table, g, w) == w.fn(table[g].fn, [RatValue(table, table[g].args[0], g, w).value])
  {
    hide RatValue;
    assert ArgValues(table, g, 0, w) == Some([]);
    assert ArgValues(table, g, 1, w).Some?;
    var u := RatValue(table, table[g].args[0], g, w).value;
    assert [] + [u] == [u];
  }

  /** exp and cosh are positive, and a factorial is where the world is tame. */
  lemma PositiveKernel(s: Setting, g: nat)
    requires TableOk(s.table) && g < |s.table| && s.table[g].KernelGen?
    requires s.table[g].fn == Exponential || s.table[g].fn == Cosh || s.table[g].fn == Factorial
    ensures GenSound(s, g, Fact(POSITIVE, {}))
  {
    hide GenValue;
    forall w: World | Real(s.pi, s.e, w) && Tame(s.table, g, w) && GenValue(s.table, g, w).Some?
      ensures Covers(POSITIVE, GenValue(s.table, g, w).value)
    {
      KernelValue(s.table, g, w);
    }
  }

  /** The generator is positive in every world, tame or not. */
  ghost predicate AlwaysPositive(s: Setting, g: nat)
    requires TableOk(s.table)
  {
    forall w: World :: Real(s.pi, s.e, w) && GenValue(s.table, g, w).Some? ==> GenValue(s.table, g, w).value > 0.0
  }

  /** The answer "positive" for a factorial is right exactly when its argument never lies where gamma(u + 1) is negative:
      above -1, or between an odd integer and the next one. World by world it is right exactly in the tame ones. */
  lemma FactorialIsExact(s: Setting, g: nat)
    requires TableOk(s.table) && g < |s.table| && s.table[g].KernelGen? && s.table[g].fn == Factorial
    ensures AlwaysPositive(s, g) <==>
            forall w: World :: Real(s.pi, s.e, w) && GenValue(s.table, g, w).Some? ==>
              FactorialPositive(ArgumentOf(s.table, g, w))
    ensures forall w: World :: Real(s.pi, s.e, w) && GenValue(s.table, g, w).Some? ==>
              (GenValue(s.table, g, w).value > 0.0 <==> Tame(s.table, g, w))
  {
    hide GenValue, RatValue;
    forall w: World | Real(s.pi, s.e, w) && GenValue(s.table, g, w).Some?
      ensures GenValue(s.table, g, w).value > 0.0 <==> FactorialPositive(ArgumentOf(s.table, g, w))
    {
      KernelValue(s.table, g, w);
    }
  }

  // ---- a factorial that is negative ----

  /** x, and x!. */
  function FactorialTable(): Generators {
    [NameGen(0), KernelGen(Factorial, [RatFun([Term([1], 1.0)], [Term([], 1.0)])])]
  }

  /** x = -3/2, where x! = gamma(-1/2) lies between -4 and -3. */
  function FactorialWorld(): World {
    World(_ => -1.5, _ => 0.0, 3.0, 2.0, (fn: Kernel, us: seq<real>) => if fn == Factorial && us == [-1.5] then Some(-3.5) else None)
  }

  function FactorialSetting(): Setting { Setting(FactorialTable(), map[], _ => 3.0, _ => 2.0) }

  lemma FactorialTableOk()
    ensures TableOk(FactorialTable())
  {}

  lemma AtX(at: Point)
    ensures Eval([Term([1], 1.0)], at) == at(0) && Eval([Term([], 1.0)], at) == 1.0
  {
    TimesUnit(at(0));
    TimesUnit(1.0);
    assert Power(at(0), 1) == Times(at(0), Power(at(0), 0));
    assert Mono([1], at) == Times(MonoBelow([1], 0, at), Power(at(0), Exp([1], 0)));
    assert Eval([Term([1], 1.0)], at) == Times(1.0, Mono([1], at)) + Eval([], at);
    assert Eval([Term([], 1.0)], at) == Times(1.0, Mono([], at)) + Eval([], at);
  }

  lemma FactorialPoint()
    requires TableOk(FactorialTable())
    ensures GenValue(FactorialTable(), 0, FactorialWorld()) == Some(-1.5)
    ensures Values(FactorialTable(), 1, FactorialWorld())(0) == -1.5
  {}

  lemma FactorialSides()
    requires TableOk(FactorialTable())
    ensures PolyValue(FactorialTable(), [Term([1], 1.0)], 1, FactorialWorld()) == Some(-1.5)
    ensures PolyValue(FactorialTable(), [Term([], 1.0)], 1, FactorialWorld()) == Some(1.0)
  {
    FactorialPoint();
    AtX(Values(FactorialTable(), 1, FactorialWorld()));
    hide Eval, GenValue, Values, FactorialTable, FactorialWorld;
  }

  lemma FactorialArgument()
    requires TableOk(FactorialTable())
    ensures RatValue(FactorialTable(), FactorialTable()[1].args[0], 1, FactorialWorld()) == Some(-1.5)
  {
    FactorialSides();
    hide PolyValue, FactorialWorld;
  }

  /** A negative factorial: the oracle's answer "positive" is wrong in a world as the program evaluates it. */
  lemma NegativeFactorial()
    ensures TableOk(FactorialTable()) && !AlwaysPositive(FactorialSetting(), 1)
  {
    FactorialTableOk();
    RealFactorial();
    FactorialValue();
    hide FactorialTable, FactorialWorld, Real, GenValue;
    assert FactorialSetting().table == FactorialTable();
  }

  lemma RealFactorial()
    ensures Real(FactorialSetting().pi, FactorialSetting().e, FactorialWorld())
  {
    var s, w := FactorialSetting(), FactorialWorld();
    assert (-1.5).Floor == -2;
    forall fn: Kernel, u: real | w.fn(fn, [u]).Some? ensures KernelLaw(fn, u, w.fn(fn, [u]).value) {
      assert [u][0] == [-1.5][0];
    }
  }

  lemma FactorialValue()
    requires TableOk(FactorialTable())
    ensures GenValue(FactorialTable(), 1, FactorialWorld()) == Some(-3.5)
  {
    var table, w := FactorialTable(), FactorialWorld();
    FactorialArgument();
    hide RatValue;
    assert ArgValues(table, 1, 0, w) == Some([]);
    assert ArgValues(table, 1, 1, w) == Some([] + [-1.5]);
    assert [] + [-1.5] == [-1.5];
  }

  lemma SameSignKernel(s: Setting, g: nat, fact: Fact)
    requires TableOk(s.table) && g < |s.table| && s.table[g].KernelGen? && s.table[g].fn.SameSign?
    requires RatSound(s, s.table[g].args[0], g, fact)
    ensures GenSound(s, g, fact)
  {
    forall w: World | Real(s.pi, s.e, w) && Assumed(s.known, fact.names, w) && Tame(s.table, g, w) && GenValue(s.table, g, w).Some?
      ensures Covers(fact.signs, GenValue(s.table, g, w).value)
    {
      KernelValue(s.table, g, w);
    }
  }

  /** `atLeastZero`, for abs with a nonzero and sqrt with a positive argument. */
  function AtLeastZero(fact: Fact, claim: Claim): Fact {
    if Holds(fact.signs, claim) then Fact(POSITIVE, fact.names) else Fact(ZERO | POSITIVE, {})
  }

  lemma AtLeastZeroKernel(s: Setting, g: nat, fact: Fact, claim: Claim)
    requires TableOk(s.table) && g < |s.table| && s.table[g].KernelGen?
    requires (s.table[g].fn == Abs && claim == Nonzero) || (s.table[g].fn == Sqrt && claim == Positive)
    requires RatSound(s, s.table[g].args[0], g, fact)
    ensures GenSound(s, g, AtLeastZero(fact, claim))
  {
    HoldsIsExact(fact.signs, claim);
    var out := AtLeastZero(fact, claim);
    forall w: World | Real(s.pi, s.e, w) && Assumed(s.known, out.names, w) && Tame(s.table, g, w) && GenValue(s.table, g, w).Some?
      ensures Covers(out.signs, GenValue(s.table, g, w).value)
    {
      KernelValue(s.table, g, w);
    }
  }

  // ---- sums keep their monomials ----

  lemma {:induction false} PutAllMonomials(out: Poly, b: Poly, m: Monomial)
    requires Valid(out) && (forall t :: t in b ==> Trimmed(t.m)) && Has(PutAll(out, b), m)
    ensures Has(out, m) || Has(b, m)
    decreases |b|
  {
    if b != [] {
      PutValid(out, b[0].m, b[0].c);
      PutAllMonomials(Put(out, b[0].m, b[0].c), b[1..], m);
      assert b[0] in b;
    }
  }

  lemma SumMonomials(a: Poly, b: Poly, m: Monomial)
    requires Valid(a) && Valid(b) && Has(Sum(a, b), m)
    ensures Has(a, m) || Has(b, m)
  {
    if a != [] { PutAllMonomials(a, b, m); }
  }

  lemma SumBelow(a: Poly, b: Poly, n: nat)
    requires Valid(a) && Valid(b) && GensBelow(a, n) && GensBelow(b, n)
    ensures GensBelow(Sum(a, b), n)
  {
    forall t | t in Sum(a, b) ensures |t.m| <= n {
      assert Has(Sum(a, b), t.m);
      SumMonomials(a, b, t.m);
    }
  }

  // ---- logarithms: the sign of u - 1 = (num - den)/den ----

  function MinusOneOf(u: RatFun): RatFun { RatFun(Difference(u.num, u.den), u.den) }

  lemma DifferenceHas(a: Poly, b: Poly, m: Monomial)
    requires Valid(a) && Valid(b) && Has(Difference(a, b), m)
    ensures Has(a, m) || Has(b, m)
  {
    NegatedScaled(b);
    ScaledValid(b, -1.0);
    SumMonomials(a, Negated(b), m);
  }

  lemma MinusOneOk(u: RatFun, n: nat)
    requires RatOk(u, n)
    ensures RatOk(MinusOneOf(u), n)
  {
    DifferenceValid(u.num, u.den);
    forall t | t in Difference(u.num, u.den) ensures |t.m| <= n {
      assert Has(Difference(u.num, u.den), t.m);
      DifferenceHas(u.num, u.den, t.m);
    }
  }

  lemma MinusOneDefined(table: Generators, u: RatFun, n: nat, w: World)
    requires TableOk(table) && RatOk(u, n) && RatOk(MinusOneOf(u), n)
    requires Defined(table, u.num, n, w) && Defined(table, u.den, n, w)
    ensures Defined(table, MinusOneOf(u).num, n, w)
  {
    hide GenValue;
    var d := Difference(u.num, u.den);
    forall t, g: nat | t in d && g < |t.m| && t.m[g] != 0 ensures GenValue(table, g, w).Some? {
      DifferenceHas(u.num, u.den, t.m);
    }
  }

  lemma MinusOneTame(table: Generators, u: RatFun, n: nat, w: World)
    requires TableOk(table) && RatOk(u, n) && RatOk(MinusOneOf(u), n) && TameRat(table, u, n, w)
    ensures TameRat(table, MinusOneOf(u), n, w)
  {
    var d := Difference(u.num, u.den);
    forall t, g: nat | t in d && g < |t.m| && t.m[g] != 0 ensures Tame(table, g, w) {
      assert Has(d, t.m);
      DifferenceHas(u.num, u.den, t.m);
    }
  }

  lemma MinusOneValue(table: Generators, u: RatFun, n: nat, w: World)
    requires TableOk(table) && RatOk(u, n) && RatOk(MinusOneOf(u), n) && RatValue(table, u, n, w).Some?
    ensures RatValue(table, MinusOneOf(u), n, w) == Some(RatValue(table, u, n, w).value - 1.0)
  {
    MinusOneDefined(table, u, n, w);
    var at := Values(table, n, w);
    DifferenceEval(u.num, u.den, at);
    hide Values, Defined, Eval, Difference;
    OneLess(Eval(u.num, at), Eval(u.den, at));
  }

  lemma OneLess(x: real, y: real)
    requires y != 0.0
    ensures (x - y) / y == x / y - 1.0
  {
    var q, r := x / y, (x - y) / y;
    assert Times(q, y) == x && Times(r, y) == x - y;
    TimesAdd(r - q, 1.0, y);
    TimesAdd(r - q, q, y);
    TimesUnit(y);
    if r - q + 1.0 != 0.0 { NonzeroProduct(r - q + 1.0, y); }
  }

  lemma LogarithmKernel(s: Setting, g: nat, fact: Fact)
    requires TableOk(s.table) && g < |s.table| && s.table[g].KernelGen? && s.table[g].fn.Logarithm?
    requires RatOk(s.table[g].args[0], g) && RatOk(MinusOneOf(s.table[g].args[0]), g)
    requires RatSound(s, MinusOneOf(s.table[g].args[0]), g, fact)
    ensures GenSound(s, g, fact)
  {
    var u := s.table[g].args[0];
    forall w: World | Real(s.pi, s.e, w) && Assumed(s.known, fact.names, w) && Tame(s.table, g, w) && GenValue(s.table, g, w).Some?
      ensures Covers(fact.signs, GenValue(s.table, g, w).value)
    {
      KernelValue(s.table, g, w);
      MinusOneTame(s.table, u, g, w);
      MinusOneValue(s.table, u, g, w);
    }
  }

  // ---- quotients ----

  /** `value`: the denominator is not zero where the value is defined. */
  function RatFact(num: Fact, den: Fact): Fact {
    var nonzero := den.signs & !ZERO;
    Fact(if nonzero == 0 then UNKNOWN else ProductSigns(num.signs, nonzero), num.names + den.names)
  }

  lemma QuotientCovers(a: SignSet, b: SignSet, x: real, y: real)
    requires Covers(a, x) && Covers(b, y) && y != 0.0
    ensures b & !ZERO != 0 && Covers(ProductSigns(a, b & !ZERO), x / y)
  {
    assert Covers(b & !ZERO, y);
    ProductCovers(a, b & !ZERO, x, y);
    assert x / y > 0.0 <==> Times(x, y) > 0.0;
    assert x / y < 0.0 <==> Times(x, y) < 0.0;
  }

  lemma RatFactSound(s: Setting, r: RatFun, n: nat, num: Fact, den: Fact)
    requires TableOk(s.table) && RatOk(r, n) && PolySound(s, r.num, n, num) && PolySound(s, r.den, n, den)
    ensures RatSound(s, r, n, RatFact(num, den))
  {
    hide PolyValue, Covers, ProductSigns;
    var fact := RatFact(num, den);
    forall w: World |
      Real(s.pi, s.e, w) && Assumed(s.known, fact.names, w) && TameRat(s.table, r, n, w) && RatValue(s.table, r, n, w).Some?
      ensures Covers(fact.signs, RatValue(s.table, r, n, w).value)
    {
      assert Assumed(s.known, num.names, w) && Assumed(s.known, den.names, w);
      QuotientCovers(num.signs, den.signs, PolyValue(s.table, r.num, n, w).value, PolyValue(s.table, r.den, n, w).value);
    }
  }
}
