/** `node` and `generatorNode` (packages/cas/src/emit.ts) together: kernels print their arguments by the same functions,
    and the whole tree denotes the value. */
module EmittedValues {
  import opened Options
  import opened Reals
  import opened Rationals
  import opened Trees
  import opened Emitters
  import Sparse = SparsePoly

  datatype RatFun = RatFun(num: QPoly, den: QPoly)

  /** A generator: pi, e, a name or an atom; a power, a factorial or a call of values over earlier generators. */
  datatype Gen =
    | NameGen(name: nat)
    | PowerGen(base: RatFun, exponent: RatFun)
    | FactorialGen(arg: RatFun)
    | KernelGen(fn: Fn, args: seq<RatFun>)

  /** The product order, how sums are sorted, and decimals or fractions. */
  datatype Printer = Printer(order: seq<nat>, sort: QPoly -> QPoly, decimal: bool)

  // ---- values over a table of generators ----

  predicate Within(p: QPoly, n: nat) { forall t :: t in p ==> |t.m| <= n }

  /** `constantValue`. */
  predicate IsConstant(p: QPoly) { p == [] || (|p| == 1 && p[0].m == []) }

  /** A value in normal form over the first n generators: a constant denominator is 1. */
  predicate Normal(r: RatFun, n: nat) {
    Within(r.num, n) && Within(r.den, n) && (IsConstant(r.den) ==> r.den == [QTerm([], Fraction(1, 1))])
  }

  predicate GenOk(gen: Gen, n: nat) {
    match gen
    case NameGen(_) => true
    case PowerGen(base, exponent) => Normal(base, n) && Normal(exponent, n)
    case FactorialGen(arg) => Normal(arg, n)
    case KernelGen(_, args) => forall i :: 0 <= i < |args| ==> Normal(args[i], n)
  }

  predicate TableOk(table: seq<Gen>) { forall g: nat :: g < |table| ==> GenOk(table[g], g) }

  function ValueOf(r: RatFun, at: Sparse.Point): Option<real> {
    var y := SumValue(r.den, |r.den|, at);
    if y == 0.0 then None else Some(Ratio(SumValue(r.num, |r.num|, at), y))
  }

  /** The values of defined arguments. */
  function Values(args: seq<RatFun>, at: Sparse.Point): (vs: seq<real>)
    ensures |vs| == |args|
  {
    seq(|args|, i requires 0 <= i < |args| => if ValueOf(args[i], at).Some? then ValueOf(args[i], at).value else 0.0)
  }

  /** The value v of a generator is what its kernel gives. */
  ghost predicate GenMeans(gen: Gen, v: real, it: Meaning, at: Sparse.Point) {
    match gen
    case NameGen(name) => it.name(name) == v
    case PowerGen(base, exponent) =>
      var b, e := ValueOf(base, at), ValueOf(exponent, at);
      b.Some? && e.Some? && it.pow(b.value, e.value) == Some(v)
    case FactorialGen(arg) => ValueOf(arg, at).Some? && it.fact(ValueOf(arg, at).value) == Some(v)
    case KernelGen(fn, args) =>
      && (forall i :: 0 <= i < |args| ==> ValueOf(args[i], at).Some?)
      && it.fn(fn, Values(args, at)) == Some(v)
  }

  ghost predicate Means(table: seq<Gen>, it: Meaning, at: Sparse.Point) {
    && (forall g: nat :: g < |table| ==> GenMeans(table[g], at(g), it, at))
    && (forall u: real, n: nat :: it.pow(u, n as real) == Some(Sparse.Power(u, n)))
  }

  /** Sorting loses nothing, and the product order lists every generator once. */
  ghost predicate PrinterOk(pr: Printer, n: nat) {
    (forall p: QPoly :: Reordered(pr.sort(p), p)) && Distinct(pr.order) && forall g: nat :: g < n ==> g in pr.order
  }

  // ---- the trees ----

  /** `generatorNode`. */
  function GenNode(table: seq<Gen>, g: nat, pr: Printer): Node
    requires g < |table|
    decreases g, 3
  {
    match table[g]
    case NameGen(name) => Name(name)
    case PowerGen(base, exponent) => Binary(Pow, NodeOf(table, base, g, pr), NodeOf(table, exponent, g, pr))
    case FactorialGen(arg) => Factorial(NodeOf(table, arg, g, pr))
    case KernelGen(fn, args) => Call(fn, seq(|args|, i requires 0 <= i < |args| => NodeOf(table, args[i], g, pr)))
  }

  function StyleBelow(table: seq<Gen>, n: nat, pr: Printer): Style
    requires n <= |table|
    decreases n, 1
  {
    Style((g: nat) => if g < n then GenNode(table, g, pr) else IntNode(0), pr.order, pr.decimal)
  }

  /** `polyNode`. */
  function SumNode(p: QPoly, s: Style, pr: Printer): Node {
    var sorted := pr.sort(p);
    Joined(sorted, |sorted|, s)
  }

  /** `node`, for a value over the first n generators. */
  function NodeOf(table: seq<Gen>, r: RatFun, n: nat, pr: Printer): Node
    requires n <= |table|
    decreases n, 2
  {
    var s := StyleBelow(table, n, pr);
    if IsConstant(r.den) then SumNode(r.num, s, pr)
    else
      var lcm := LcmTo(r.num, |r.num|);
      FractionTree(pr.sort(ScaleBy(r.num, lcm)), pr.sort(ScaleBy(r.den, lcm)), s)
  }

  // ---- they denote the values ----

  lemma {:induction false} MonoSame(m: Sparse.Monomial, n: nat, at: Sparse.Point, other: Sparse.Point)
    requires forall g: nat :: g < n ==> at(g) == other(g)
    ensures Sparse.MonoBelow(m, n, at) == Sparse.MonoBelow(m, n, other)
  {
    if n > 0 { MonoSame(m, n - 1, at, other); }
  }

  /** A polynomial over the first n generators looks at no other. */
  lemma {:induction false} SumSame(p: QPoly, k: nat, n: nat, at: Sparse.Point, other: Sparse.Point)
    requires k <= |p| && Within(p, n) && forall g: nat :: g < n ==> at(g) == other(g)
    ensures SumValue(p, k, at) == SumValue(p, k, other)
  {
    if k > 0 {
      assert p[k - 1] in p;
      MonoSame(p[k - 1].m, |p[k - 1].m|, at, other);
      SumSame(p, k - 1, n, at, other);
    }
  }

  lemma WithinListed(p: QPoly, n: nat, pr: Printer)
    requires Within(p, n) && PrinterOk(pr, n)
    ensures AllListed(p, pr.order)
  {
    forall t | t in p ensures Lists(pr.order, t.m) {}
  }

  lemma ScaledWithin(p: QPoly, k: int, n: nat)
    requires Within(p, n)
    ensures Within(ScaleBy(p, k), n)
  {
    var r := ScaleBy(p, k);
    forall t | t in r ensures |t.m| <= n {
      var i :| 0 <= i < |r| && r[i] == t;
      assert p[i] in p;
    }
  }

  lemma OneIsOne(at: Sparse.Point)
    ensures SumValue([QTerm([], Fraction(1, 1))], 1, at) == 1.0
  {
    var p := [QTerm([], Fraction(1, 1))];
    WholeValue(1);
    TimesUnit(1.0);
    assert SumValue(p, 0, at) == 0.0 && TermValue(p[0], at) == 1.0;
  }

  lemma SumNodeDenotes(p: QPoly, s: Style, pr: Printer, n: nat, it: Meaning, at: Sparse.Point)
    requires Within(p, n) && PrinterOk(pr, n) && s.order == pr.order && Faithful(s, it, at)
    ensures Eval(SumNode(p, s, pr), it) == Some(SumValue(p, |p|, at))
  {
    WithinListed(p, n, pr);
    hide Joined, Eval, SumValue, AllListed, Faithful;
    SidesDenote(p, pr.sort(p), s, it, at);
  }

  lemma QuotientDenotes(r: RatFun, s: Style, pr: Printer, n: nat, it: Meaning, at: Sparse.Point)
    requires Within(r.num, n) && Within(r.den, n) && PrinterOk(pr, n) && s.order == pr.order && Faithful(s, it, at)
    requires ValueOf(r, at).Some?
    ensures var lcm := LcmTo(r.num, |r.num|);
            Eval(FractionTree(pr.sort(ScaleBy(r.num, lcm)), pr.sort(ScaleBy(r.den, lcm)), s), it) == ValueOf(r, at)
  {
    var lcm := LcmTo(r.num, |r.num|);
    var top, bottom := ScaleBy(r.num, lcm), ScaleBy(r.den, lcm);
    ScaledWithin(r.num, lcm, n);
    ScaledWithin(r.den, lcm, n);
    WithinListed(top, n, pr);
    WithinListed(bottom, n, pr);
    hide LcmTo, Eval, SumValue, AllListed, Faithful, Times, Within, FractionTree;
    ScaledValue(r.num, lcm, |r.num|, at);
    ScaledValue(r.den, lcm, |r.den|, at);
    FractionDenotes(r.num, r.den, top, bottom, pr.sort(top), pr.sort(bottom), lcm, s, it, at);
  }

  /** Wherever a value is defined, its tree has that value, through every kernel inside it. */
  lemma {:induction false} NodeDenotes(table: seq<Gen>, r: RatFun, n: nat, pr: Printer, it: Meaning, at: Sparse.Point)
    requires n <= |table| && TableOk(table) && Normal(r, n) && PrinterOk(pr, |table|) && Means(table, it, at)
    requires ValueOf(r, at).Some?
    ensures Eval(NodeOf(table, r, n, pr), it) == ValueOf(r, at)
    decreases n, 2
  {
    var s := StyleBelow(table, n, pr);
    var below: Sparse.Point := (g: nat) => if g < n then at(g) else 0.0;
    BelowFaithful(table, n, pr, it, at, below);
    SumSame(r.num, |r.num|, n, at, below);
    SumSame(r.den, |r.den|, n, at, below);
    assert PrinterOk(pr, n);
    hide Eval, SumValue, Faithful, Means, TableOk, PrinterOk, Within;
    if IsConstant(r.den) {
      SumNodeDenotes(r.num, s, pr, n, it, below);
      OneIsOne(at);
    } else {
      QuotientDenotes(r, s, pr, n, it, below);
    }
  }

  lemma {:induction false} BelowFaithful(table: seq<Gen>, n: nat, pr: Printer, it: Meaning, at: Sparse.Point, below: Sparse.Point)
    requires n <= |table| && TableOk(table) && PrinterOk(pr, |table|) && Means(table, it, at)
    requires forall g: nat :: below(g) == if g < n then at(g) else 0.0
    ensures Faithful(StyleBelow(table, n, pr), it, below)
    decreases n, 1
  {
    var s := StyleBelow(table, n, pr);
    forall g: nat ensures Eval(s.tree(g), it) == Some(below(g)) {
      if g < n { GenDenotes(table, g, pr, it, at); } else { IntNodeEval(0, it); }
    }
  }

  lemma {:induction false} GenDenotes(table: seq<Gen>, g: nat, pr: Printer, it: Meaning, at: Sparse.Point)
    requires g < |table| && TableOk(table) && PrinterOk(pr, |table|) && Means(table, it, at)
    ensures Eval(GenNode(table, g, pr), it) == Some(at(g))
    decreases g, 3
  {
    hide PrinterOk, NodeOf, Normal, ValueOf;
    assert GenOk(table[g], g) && GenMeans(table[g], at(g), it, at);
    match table[g]
    case NameGen(_) =>
    case PowerGen(base, exponent) =>
      NodeDenotes(table, base, g, pr, it, at);
      NodeDenotes(table, exponent, g, pr, it, at);
    case FactorialGen(arg) => NodeDenotes(table, arg, g, pr, it, at);
    case KernelGen(fn, args) =>
      var n := GenNode(table, g, pr);
      var vs := Values(args, at);
      forall i | 0 <= i < |args| ensures Eval(n.args[i], it) == Some(vs[i]) { NodeDenotes(table, args[i], g, pr, it, at); }
      ArgsEval(n, |args|, it, vs);
      assert vs[..|args|] == vs;
  }

  lemma {:induction false} ArgsEval(n: Node, k: nat, it: Meaning, vs: seq<real>)
    requires n.Call? && k <= |n.args| == |vs| && forall i :: 0 <= i < |vs| ==> Eval(n.args[i], it) == Some(vs[i])
    ensures EvalArgs(n, k, it) == Some(vs[..k])
  {
    if k > 0 {
      ArgsEval(n, k - 1, it, vs);
      assert vs[..k] == vs[..k - 1] + [vs[k - 1]];
    }
  }
}
