/** Emitted trees (`Emitter`, packages/cas/src/emit.ts) denote the values they were built from: signs folded into first
    factors, fractions, decimals, products and sums in any order. */
module Emitters {
  import opened Options
  import opened Arith
  import opened Reals
  import opened Rationals
  import opened Decimals
  import opened Trees
  import Sparse = SparsePoly

  /** A term with its exact coefficient. */
  datatype QTerm = QTerm(m: Sparse.Monomial, q: Rational)

  type QPoly = seq<QTerm>

  /** How generators print: the tree of each (`generatorNode`), the product order, and decimals or fractions. */
  datatype Style = Style(tree: nat -> Node, order: seq<nat>, decimal: bool)

  /** Each generator's tree has its value, and powers are powers. */
  ghost predicate Faithful(s: Style, it: Meaning, at: Sparse.Point) {
    && (forall g: nat :: Eval(s.tree(g), it) == Some(at(g)))
    && (forall u: real, n: nat :: it.pow(u, n as real) == Some(Sparse.Power(u, n)))
  }

  /** The product order lists every generator of the monomial once. */
  ghost predicate Lists(order: seq<nat>, m: Sparse.Monomial) {
    Distinct(order) && forall g: nat :: Sparse.Exp(m, g) != 0 ==> g in order
  }

  // ---- products ----

  /** `product`: a chain of `*` from the left. */
  function Product(factors: seq<Node>): Node {
    if factors == [] then Number(Fraction(1, 1), 0)
    else if |factors| == 1 then factors[0]
    else Binary(Mul, Product(factors[..|factors| - 1]), factors[|factors| - 1])
  }

  /** The trees have these values. */
  ghost predicate Worth(trees: seq<Node>, it: Meaning, vs: seq<real>) {
    |trees| == |vs| && forall i :: 0 <= i < |vs| ==> Eval(trees[i], it) == Some(vs[i])
  }

  function ProductOf(vs: seq<real>): real { if vs == [] then 1.0 else Times(ProductOf(vs[..|vs| - 1]), vs[|vs| - 1]) }

  lemma {:induction false} ProductEval(factors: seq<Node>, it: Meaning, vs: seq<real>)
    requires Worth(factors, it, vs)
    ensures Eval(Product(factors), it) == Some(ProductOf(vs))
  {
    hide Times;
    if |factors| == 0 {
      WholeValue(1);
    } else if |factors| == 1 {
      assert vs[..0] == [];
      TimesUnit(vs[0]);
    } else {
      ProductEval(factors[..|factors| - 1], it, vs[..|vs| - 1]);
    }
  }

  /** A first factor multiplies the rest. */
  lemma {:induction false} ProductCons(v: real, vs: seq<real>)
    ensures ProductOf([v] + vs) == Times(v, ProductOf(vs))
  {
    hide Times;
    TimesUnit(v);
    if vs == [] {
      assert [v] + vs == [v];
      assert [v][..0] == [];
    } else {
      var front := vs[..|vs| - 1];
      assert ([v] + vs)[..|vs|] == [v] + front;
      ProductCons(v, front);
      TimesAssoc(v, ProductOf(front), vs[|vs| - 1]);
    }
  }

  // ---- the factors of a monomial ----

  function FactorNode(s: Style, g: nat, e: nat): Node {
    if e == 1 then s.tree(g) else Binary(Pow, s.tree(g), Number(Fraction(e, 1), 0))
  }

  /** `monomialFactors`, over a part of the product order. */
  function Factors(s: Style, order: seq<nat>, m: Sparse.Monomial): seq<Node> {
    if order == [] then []
    else (if Sparse.Exp(m, order[0]) == 0 then [] else [FactorNode(s, order[0], Sparse.Exp(m, order[0]))])
         + Factors(s, order[1..], m)
  }

  function FactorValues(order: seq<nat>, m: Sparse.Monomial, at: Sparse.Point): seq<real> {
    if order == [] then []
    else (if Sparse.Exp(m, order[0]) == 0 then [] else [Sparse.Power(at(order[0]), Sparse.Exp(m, order[0]))])
         + FactorValues(order[1..], m, at)
  }

  lemma FactorEval(s: Style, g: nat, e: nat, it: Meaning, at: Sparse.Point)
    requires Faithful(s, it, at) && e != 0
    ensures Eval(FactorNode(s, g, e), it) == Some(Sparse.Power(at(g), e))
  {
    WholeValue(e);
    if e == 1 { TimesUnit(at(g)); }
  }

  lemma {:induction false} FactorsWorth(s: Style, order: seq<nat>, m: Sparse.Monomial, it: Meaning, at: Sparse.Point)
    requires Faithful(s, it, at)
    ensures Worth(Factors(s, order, m), it, FactorValues(order, m, at))
  {
    if order != [] {
      var g := order[0];
      FactorsWorth(s, order[1..], m, it, at);
      if Sparse.Exp(m, g) != 0 { FactorEval(s, g, Sparse.Exp(m, g), it, at); }
      hide Eval, Faithful, FactorNode;
    }
  }

  /** The product over a part of the order. */
  function OrderProduct(order: seq<nat>, m: Sparse.Monomial, at: Sparse.Point): real {
    if order == [] then 1.0
    else Times(Sparse.Power(at(order[0]), Sparse.Exp(m, order[0])), OrderProduct(order[1..], m, at))
  }

  lemma {:induction false} FactorProduct(order: seq<nat>, m: Sparse.Monomial, at: Sparse.Point)
    ensures ProductOf(FactorValues(order, m, at)) == OrderProduct(order, m, at)
  {
    hide Times;
    if order != [] {
      var v, rest := Sparse.Power(at(order[0]), Sparse.Exp(m, order[0])), FactorValues(order[1..], m, at);
      FactorProduct(order[1..], m, at);
      TimesUnit(ProductOf(rest));
      if Sparse.Exp(m, order[0]) == 0 { assert [] + rest == rest; } else { ProductCons(v, rest); }
    }
  }

  /** Taking one generator out of the order. */
  lemma {:induction false} TakeOut(order: seq<nat>, i: nat, m: Sparse.Monomial, at: Sparse.Point)
    requires i < |order|
    ensures OrderProduct(order, m, at)
         == Times(Sparse.Power(at(order[i]), Sparse.Exp(m, order[i])), OrderProduct(order[..i] + order[i + 1..], m, at))
  {
    hide Times, Sparse.Power, Sparse.Exp;
    if i == 0 {
      assert order[..0] + order[1..] == order[1..];
    } else {
      var rest := order[1..];
      TakeOut(rest, i - 1, m, at);
      var out := order[..i] + order[i + 1..];
      assert out[1..] == rest[..i - 1] + rest[i..];
      var a, b := Sparse.Power(at(order[0]), Sparse.Exp(m, order[0])), Sparse.Power(at(order[i]), Sparse.Exp(m, order[i]));
      var r := OrderProduct(out[1..], m, at);
      TimesRotate(a, b, r);
    }
  }

  predicate Distinct(order: seq<nat>) { forall i, j :: 0 <= i < j < |order| ==> order[i] != order[j] }

  /** The order lists the generators below n that occur in the monomial, and no other that occurs. */
  ghost predicate ListsBelow(order: seq<nat>, m: Sparse.Monomial, n: nat) {
    && Distinct(order)
    && (forall g: nat :: g < n && Sparse.Exp(m, g) != 0 ==> g in order)
    && (forall g: nat :: g in order && n <= g ==> Sparse.Exp(m, g) == 0)
  }

  /** An order without occurring generators multiplies to one. */
  lemma {:induction false} OrderOfNone(order: seq<nat>, m: Sparse.Monomial, at: Sparse.Point)
    requires forall i :: 0 <= i < |order| ==> Sparse.Exp(m, order[i]) == 0
    ensures OrderProduct(order, m, at) == 1.0
  {
    if order != [] {
      OrderOfNone(order[1..], m, at);
      TimesUnit(1.0);
    }
  }

  /** The product over any order of the generators is the monomial's value. */
  lemma {:induction false} OrderValue(order: seq<nat>, m: Sparse.Monomial, n: nat, at: Sparse.Point)
    requires ListsBelow(order, m, n)
    ensures OrderProduct(order, m, at) == Sparse.MonoBelow(m, n, at)
    decreases n
  {
    if n == 0 {
      OrderOfNone(order, m, at);
    } else {
      var g := n - 1;
      if Sparse.Exp(m, g) == 0 {
        OrderValue(order, m, g, at);
        TimesUnit(OrderProduct(order, m, at));
      } else {
        var i :| 0 <= i < |order| && order[i] == g;
        hide OrderProduct, Sparse.MonoBelow, Times, Sparse.Power, ListsBelow;
        TakeOut(order, i, m, at);
        OrderValue(order[..i] + order[i + 1..], m, g, at);
        TimesSymmetric(Sparse.MonoBelow(m, g, at), Sparse.Power(at(g), Sparse.Exp(m, g)));
      }
    }
  }

  lemma TimesSymmetric(x: real, y: real)
    ensures Times(x, y) == Times(y, x)
  {}

  /** The factors of a monomial multiply to its value. */
  lemma FactorsValue(order: seq<nat>, m: Sparse.Monomial, at: Sparse.Point)
    requires Lists(order, m)
    ensures ProductOf(FactorValues(order, m, at)) == Sparse.Mono(m, at)
  {
    FactorProduct(order, m, at);
    OrderValue(order, m, |m|, at);
  }

  // ---- coefficients and terms ----

  function Signed(n: Node, negative: bool): Node { if negative then Unary(true, n) else n }

  function SignedValue(x: real, negative: bool): real { if negative then -x else x }

  function IntNode(k: int): Node { Number(Fraction(k, 1), 0) }

  lemma IntNodeEval(k: int, it: Meaning)
    ensures Eval(IntNode(k), it) == Some(k as real)
  {
    WholeValue(k);
  }

  /** An integer, or a terminating decimal when decimals are asked for, as one literal. */
  predicate OneLiteral(c: Rational, s: Style) { c.d == 1 || (s.decimal && Terminates(c)) }

  /** `rationalNode`: the minus sign goes on the numerator. */
  function RationalNode(c: Rational, negative: bool, s: Style): Node {
    if OneLiteral(c, s) then Signed(Number(c, 0), negative)
    else Binary(Div, Signed(IntNode(c.n), negative), IntNode(c.d))
  }

  lemma RationalNodeEval(c: Rational, negative: bool, s: Style, it: Meaning)
    ensures Eval(RationalNode(c, negative, s), it) == Some(SignedValue(Val(c), negative))
  {
    if !OneLiteral(c, s) {
      IntNodeEval(c.n, it);
      IntNodeEval(c.d, it);
      ValueTimes(c);
      NegatedRatio(c.n as real, c.d as real);
    }
  }

  lemma NegatedRatio(x: real, d: real)
    requires d != 0.0
    ensures -x / d == -(x / d)
  {}

  /** `termNode`: the minus sign goes on the first factor. */
  function TermNode(c: Rational, m: Sparse.Monomial, negative: bool, s: Style): Node {
    var factors := Factors(s, s.order, m);
    if factors == [] then RationalNode(c, negative, s)
    else
      var signed := [Signed(factors[0], negative)] + factors[1..];
      if c.n == 1 && c.d == 1 then Product(signed)
      else if OneLiteral(c, s) then Product([Signed(Number(c, 0), negative)] + factors)
      else
        var top := if c.n == 1 then Product(signed) else Product([Signed(IntNode(c.n), negative)] + factors);
        Binary(Div, top, IntNode(c.d))
  }

  lemma SignedEval(n: Node, negative: bool, it: Meaning, x: real)
    requires Eval(n, it) == Some(x)
    ensures Eval(Signed(n, negative), it) == Some(SignedValue(x, negative))
  {}

  /** A leading factor, signed, times the rest. */
  lemma LeadEval(n: Node, negative: bool, rest: seq<Node>, it: Meaning, x: real, vs: seq<real>)
    requires Eval(n, it) == Some(x) && Worth(rest, it, vs)
    ensures Eval(Product([Signed(n, negative)] + rest), it) == Some(SignedValue(Times(x, ProductOf(vs)), negative))
  {
    hide Times, Product, ProductOf;
    SignedEval(n, negative, it, x);
    hide Eval, Signed;
    ProductEval([Signed(n, negative)] + rest, it, [SignedValue(x, negative)] + vs);
    ProductCons(SignedValue(x, negative), vs);
    TimesNegation(x, ProductOf(vs));
  }

  lemma TimesNegation(x: real, y: real)
    ensures Times(-x, y) == -Times(x, y)
  {}

  /** The first factor signed in place. */
  lemma SignedProductEval(factors: seq<Node>, negative: bool, it: Meaning, vs: seq<real>)
    requires factors != [] && Worth(factors, it, vs)
    ensures Eval(Product([Signed(factors[0], negative)] + factors[1..]), it) == Some(SignedValue(ProductOf(vs), negative))
  {
    hide Times, Product, ProductOf, Eval;
    LeadEval(factors[0], negative, factors[1..], it, vs[0], vs[1..]);
    ProductCons(vs[0], vs[1..]);
    assert vs == [vs[0]] + vs[1..];
  }

  /** (a*x)/d for a coefficient a/d. */
  lemma CoefficientOver(c: Rational, x: real, negative: bool)
    ensures SignedValue(Times(c.n as real, x), negative) / c.d as real == SignedValue(Times(Val(c), x), negative)
  {
    ValueTimes(c);
    var d, v := c.d as real, Val(c);
    assert Times(c.n as real, x) == Times(Times(v, x), d) by { assert v * d * x == v * x * d; }
    DivideOut(Times(v, x), d);
    DivideOut(-Times(v, x), d);
    assert -Times(Times(v, x), d) == -Times(v, x) * d;
  }

  lemma OverEval(top: Node, d: int, it: Meaning, x: real)
    requires Eval(top, it) == Some(x) && d != 0
    ensures Eval(Binary(Div, top, IntNode(d)), it) == Some(x / d as real)
  {
    IntNodeEval(d, it);
  }

  /** A term's tree denotes the term. */
  lemma TermNodeEval(c: Rational, m: Sparse.Monomial, negative: bool, s: Style, it: Meaning, at: Sparse.Point)
    requires Faithful(s, it, at) && Lists(s.order, m)
    ensures Eval(TermNode(c, m, negative, s), it) == Some(SignedValue(Times(Val(c), Sparse.Mono(m, at)), negative))
  {
    var factors, vs, x := Factors(s, s.order, m), FactorValues(s.order, m, at), Sparse.Mono(m, at);
    FactorsWorth(s, s.order, m, it, at);
    FactorsValue(s.order, m, at);
    WholeValue(1);
    IntNodeEval(c.n, it);
    assert OneLiteral(c, s) ==> Eval(Number(c, 0), it) == Some(Val(c));
    hide Times, Product, Factors, FactorValues, Lists, Faithful, Worth, Sparse.Mono, Val, Terminates, Eval, SignedValue;
    TimesUnit(Val(c));
    TimesUnit(x);
    if factors == [] {
      NoFactors(factors, it, vs);
      RationalNodeEval(c, negative, s, it);
    } else if c.n == 1 && c.d == 1 {
      SignedProductEval(factors, negative, it, vs);
    } else if OneLiteral(c, s) {
      LeadEval(Number(c, 0), negative, factors, it, Val(c), vs);
    } else {
      CoefficientOver(c, x, negative);
      if c.n == 1 {
        SignedProductEval(factors, negative, it, vs);
        OverEval(Product([Signed(factors[0], negative)] + factors[1..]), c.d, it, SignedValue(x, negative));
      } else {
        LeadEval(IntNode(c.n), negative, factors, it, c.n as real, vs);
        OverEval(Product([Signed(IntNode(c.n), negative)] + factors), c.d, it, SignedValue(Times(c.n as real, x), negative));
      }
    }
  }

  lemma NoFactors(factors: seq<Node>, it: Meaning, vs: seq<real>)
    requires Worth(factors, it, vs) && factors == []
    ensures ProductOf(vs) == 1.0
  {}

  // ---- sums in any order ----

  function AbsOf(q: Rational): Rational { if q.n < 0 then Negated(q) else q }

  /** A part of a sum: the term's tree with its minus sign inside or not. */
  function PartNode(t: QTerm, negative: bool, s: Style): Node { TermNode(AbsOf(t.q), t.m, negative, s) }

  /** The first k parts joined: the first one signed in place, the rest by `+` and `-`. */
  function Joined(terms: QPoly, k: nat, s: Style): Node
    requires k <= |terms|
  {
    if k == 0 then IntNode(0)
    else if k == 1 then PartNode(terms[0], terms[0].q.n < 0, s)
    else Binary(if terms[k - 1].q.n < 0 then Sub else Add, Joined(terms, k - 1, s), PartNode(terms[k - 1], false, s))
  }

  /** `join`. */
  method Join(terms: QPoly, s: Style) returns (node: Node)
    ensures node == Joined(terms, |terms|, s)
  {
    if |terms| == 0 { return IntNode(0); }
    node := PartNode(terms[0], terms[0].q.n < 0, s);
    for k := 1 to |terms|
      invariant node == Joined(terms, k, s)
    {
      node := Binary(if terms[k].q.n < 0 then Sub else Add, node, PartNode(terms[k], false, s));
    }
  }

  function TermValue(t: QTerm, at: Sparse.Point): real { Times(Val(t.q), Sparse.Mono(t.m, at)) }

  /** The value of the first k terms. */
  function SumValue(terms: QPoly, k: nat, at: Sparse.Point): real
    requires k <= |terms|
  {
    if k == 0 then 0.0 else SumValue(terms, k - 1, at) + TermValue(terms[k - 1], at)
  }

  ghost predicate AllListed(p: QPoly, order: seq<nat>) { forall t :: t in p ==> Lists(order, t.m) }

  lemma PartEval(t: QTerm, s: Style, it: Meaning, at: Sparse.Point)
    requires Faithful(s, it, at) && Lists(s.order, t.m)
    ensures var negative, v := t.q.n < 0, TermValue(t, at);
            && Eval(PartNode(t, negative, s), it) == Some(v)
            && Eval(PartNode(t, false, s), it) == Some(if negative then -v else v)
  {
    hide Times, TermNode, Sparse.Mono, Lists, Faithful, Val;
    var x := Sparse.Mono(t.m, at);
    TermNodeEval(AbsOf(t.q), t.m, t.q.n < 0, s, it, at);
    TermNodeEval(AbsOf(t.q), t.m, false, s, it, at);
    NegatedValue(t.q);
    TimesNegation(Val(t.q), x);
  }

  /** The joined tree denotes the sum of its terms. */
  lemma {:induction false} JoinedEval(terms: QPoly, k: nat, s: Style, it: Meaning, at: Sparse.Point)
    requires k <= |terms| && Faithful(s, it, at) && AllListed(terms, s.order)
    ensures Eval(Joined(terms, k, s), it) == Some(SumValue(terms, k, at))
  {
    hide Faithful, PartNode, TermValue, Lists;
    if k == 0 {
      IntNodeEval(0, it);
    } else {
      assert terms[k - 1] in terms;
      PartEval(terms[k - 1], s, it, at);
      if k == 1 {
        assert SumValue(terms, 0, at) == 0.0;
      } else {
        JoinedEval(terms, k - 1, s, it, at);
      }
    }
  }

  lemma {:induction false} SumPrefix(a: QPoly, b: QPoly, k: nat, at: Sparse.Point)
    requires k <= |a| && k <= |b| && a[..k] == b[..k]
    ensures SumValue(a, k, at) == SumValue(b, k, at)
  {
    hide TermValue;
    if k > 0 {
      assert a[k - 1] == a[..k][k - 1] == b[..k][k - 1] == b[k - 1];
      assert a[..k - 1] == a[..k][..k - 1] && b[..k - 1] == b[..k][..k - 1];
      SumPrefix(a, b, k - 1, at);
    }
  }

  /** Taking one term out of a sum. */
  lemma {:induction false} SumWithout(terms: QPoly, i: nat, at: Sparse.Point)
    requires i < |terms|
    ensures SumValue(terms, |terms|, at)
         == SumValue(terms[..i] + terms[i + 1..], |terms| - 1, at) + TermValue(terms[i], at)
  {
    hide TermValue;
    var n := |terms| - 1;
    var rest := terms[..i] + terms[i + 1..];
    if i == n {
      assert rest == terms[..n];
      SumPrefix(rest, terms, n, at);
    } else {
      var front := terms[..n];
      SumWithout(front, i, at);
      var less := front[..i] + front[i + 1..];
      SumPrefix(front, terms, n, at);
      assert rest == less + [terms[n]];
      SumPrefix(rest, less, n - 1, at);
    }
  }

  /** The same terms in another order. */
  ghost predicate Reordered(a: QPoly, b: QPoly) { multiset(a) == multiset(b) }

  /** The order of the terms does not change the sum. */
  lemma {:induction false} SumInAnyOrder(a: QPoly, b: QPoly, at: Sparse.Point)
    requires Reordered(a, b)
    ensures |a| == |b| && SumValue(a, |a|, at) == SumValue(b, |b|, at)
    decreases |a|
  {
    hide TermValue;
    assert |multiset(a)| == |a| && |multiset(b)| == |b|;
    if a != [] {
      var n := |a| - 1;
      assert a[n] in multiset(a);
      var i := FindTerm(b, a[n]);
      var rest := b[..i] + b[i + 1..];
      DropLast(a);
      DropAt(b, i);
      assert Reordered(a[..n], rest);
      SumInAnyOrder(a[..n], rest, at);
      SumWithout(b, i, at);
      SumPrefix(a, a[..n], n, at);
    }
  }

  lemma FindTerm(b: QPoly, t: QTerm) returns (i: nat)
    requires t in multiset(b)
    ensures i < |b| && b[i] == t
  {
    i :| 0 <= i < |b| && b[i] == t;
  }

  lemma DropAt(b: QPoly, i: nat)
    requires i < |b|
    ensures multiset(b[..i] + b[i + 1..]) == multiset(b) - multiset{b[i]}
  {
    assert b == b[..i] + [b[i]] + b[i + 1..];
  }

  lemma DropLast(a: QPoly)
    requires a != []
    ensures multiset(a[..|a| - 1]) == multiset(a) - multiset{a[|a| - 1]}
  {
    assert a == a[..|a| - 1] + [a[|a| - 1]];
  }

  /** A polynomial as the emitter's real-valued model of it. */
  function RealTerms(p: QPoly): (r: Sparse.Poly)
    ensures |r| == |p| && forall i :: 0 <= i < |p| ==> r[i] == Sparse.Term(p[i].m, Val(p[i].q))
  {
    seq(|p|, i requires 0 <= i < |p| => Sparse.Term(p[i].m, Val(p[i].q)))
  }

  lemma {:induction false} RealTermsEval(p: QPoly, k: nat, at: Sparse.Point)
    requires k <= |p|
    ensures SumValue(p, k, at) + Sparse.Eval(RealTerms(p)[k..], at) == Sparse.Eval(RealTerms(p), at)
  {
    hide Times, Sparse.Mono, Val;
    var r := RealTerms(p);
    if k == 0 {
      assert r[0..] == r;
    } else {
      RealTermsEval(p, k - 1, at);
      assert r[k - 1..][1..] == r[k..];
    }
  }

  /** Whatever the order of its terms, a polynomial's tree denotes the polynomial. */
  lemma PolyNodeDenotes(p: QPoly, sorted: QPoly, s: Style, it: Meaning, at: Sparse.Point)
    requires Reordered(sorted, p) && Faithful(s, it, at) && AllListed(p, s.order)
    ensures Eval(Joined(sorted, |sorted|, s), it) == Some(Sparse.Eval(RealTerms(p), at))
  {
    hide *;
    SidesDenote(p, sorted, s, it, at);
    RealTermsEval(p, |p|, at);
    Nothing(RealTerms(p)[|p|..], at);
  }

  lemma Nothing(p: Sparse.Poly, at: Sparse.Point)
    requires p == []
    ensures Sparse.Eval(p, at) == 0.0
  {}

  // ---- fractions ----

  predicate Whole(p: QPoly) { forall t :: t in p ==> t.q.d == 1 }

  /** `scale` by an integer. */
  function ScaleBy(p: QPoly, k: int): QPoly {
    if k == 1 then p
    else seq(|p|, i requires 0 <= i < |p| => QTerm(p[i].m, Multiplied(p[i].q, Fraction(k, 1))))
  }

  /** Some multiple k of every denominator makes the coefficients whole. */
  predicate Clears(k: int, p: QPoly) { forall t :: t in p ==> k % t.q.d == 0 }

  lemma WholeMultiple(q: Rational, k: int)
    requires k % q.d == 0
    ensures Multiplied(q, Fraction(k, 1)).d == 1
  {
    var j := DivisibleBy(k, q.d);
    var n := q.n * k;
    assert n == q.d * (q.n * j) by { assert q.n * (q.d * j) == q.d * (q.n * j); }
    var a: nat := if n < 0 then -n else n;
    assert a % q.d == 0 by {
      if n < 0 { assert -n == q.d * -(q.n * j); MultipleIs(a, q.d, -(q.n * j)); } else { MultipleIs(a, q.d, q.n * j); }
    }
    assert Gcd(a, q.d) == Gcd(q.d, 0) == q.d;
    assert q.d * 1 == q.d && Denominator(q, Fraction(k, 1)) == q.d;
    assert q.d / q.d == 1;
  }

  lemma ScaledWhole(p: QPoly, k: int)
    requires Clears(k, p)
    ensures Whole(ScaleBy(p, k))
  {
    var r := ScaleBy(p, k);
    forall t | t in r ensures t.q.d == 1 {
      var i :| 0 <= i < |r| && r[i] == t;
      assert p[i] in p;
      if k == 1 {
        assert 1 % p[i].q.d == 0;
        SmallDivisor(p[i].q.d);
      } else {
        WholeMultiple(p[i].q, k);
      }
    }
  }

  lemma {:induction false} ScaledValue(p: QPoly, k: int, n: nat, at: Sparse.Point)
    requires n <= |p|
    ensures SumValue(ScaleBy(p, k), n, at) == Times(k as real, SumValue(p, n, at))
  {
    hide Times, Val, Sparse.Mono, Multiplied;
    TimesUnit(k as real);
    TimesUnit(SumValue(p, n, at));
    if k != 1 && n > 0 {
      var q, x := p[n - 1].q, Sparse.Mono(p[n - 1].m, at);
      ScaledValue(p, k, n - 1, at);
      MultipliedValue(q, Fraction(k, 1));
      WholeValue(k);
      TimesRegroup(Val(q), k as real, x);
      TimesAdd(SumValue(p, n - 1, at), TermValue(p[n - 1], at), k as real);
    }
  }

  /** The least common multiple stays a multiple of what it was and of the next denominator. */
  lemma LcmStep(lcm: int, d: int, g: int)
    requires lcm > 0 && d > 0 && g > 0 && lcm % g == 0 && d % g == 0
    ensures (lcm / g) * d > 0 && ((lcm / g) * d) % d == 0 && ((lcm / g) * d) % lcm == 0
  {
    var a, b := lcm / g, d / g;
    assert lcm == g * a && d == g * b;
    assert a > 0;
    MulMonotone(1, a, d);
    MultipleIs(a * d, d, a);
    assert a * (g * b) == g * a * b;
    MultipleIs(a * d, lcm, b);
  }

  lemma GcdDivides(a: nat, b: nat)
    requires a > 0 && b > 0
    ensures Gcd(a, b) > 0 && a % Gcd(a, b) == 0 && b % Gcd(a, b) == 0
  {
    GcdFits(a, b);
    MultipleIs(a, Gcd(a, b), a / Gcd(a, b));
    MultipleIs(b, Gcd(a, b), b / Gcd(a, b));
  }

  /** The least common multiple of the first k denominators. */
  function LcmTo(p: QPoly, k: nat): (lcm: nat)
    requires k <= |p|
    ensures lcm > 0
  {
    if k == 0 then 1
    else
      var l, d: nat := LcmTo(p, k - 1), p[k - 1].q.d;
      GcdDivides(l, d);
      LcmStep(l, d, Gcd(l, d));
      (l / Gcd(l, d)) * d
  }

  /** `fractionParts`: integer coefficients on both sides, and both sides multiplied by one positive number. */
  method FractionParts(num: QPoly, den: QPoly) returns (top: QPoly, bottom: QPoly, ghost factor: int)
    requires Whole(den)
    ensures Whole(top) && Whole(bottom) && factor > 0
    ensures factor == LcmTo(num, |num|) && top == ScaleBy(num, factor) && bottom == ScaleBy(den, factor)
    ensures forall at: Sparse.Point :: SumValue(top, |top|, at) == Times(factor as real, SumValue(num, |num|, at))
    ensures forall at: Sparse.Point :: SumValue(bottom, |bottom|, at) == Times(factor as real, SumValue(den, |den|, at))
    ensures |top| == |num| && forall i :: 0 <= i < |top| ==> top[i].m == num[i].m
    ensures |bottom| == |den| && forall i :: 0 <= i < |bottom| ==> bottom[i].m == den[i].m
  {
    hide Gcd, Multiplied, SumValue, Times;
    var lcm: nat := 1;
    for i := 0 to |num|
      invariant lcm == LcmTo(num, i) && forall k :: 0 <= k < i ==> lcm % num[k].q.d == 0
    {
      var d: nat := num[i].q.d;
      var a: nat, b: nat := lcm, d;
      while b != 0
        invariant Gcd(a, b) == Gcd(lcm, d)
        decreases b
      {
        GcdNext(a, b);
        a, b := b, a % b;
      }
      GcdDone(a);
      GcdDivides(lcm, d);
      LcmStep(lcm, d, a);
      forall k | 0 <= k < i ensures ((lcm / a) * d) % num[k].q.d == 0 {
        ModTrans((lcm / a) * d, lcm, num[k].q.d);
      }
      lcm := (lcm / a) * d;
    }
    factor := lcm;
    top, bottom := ScaleBy(num, lcm), ScaleBy(den, lcm);
    ScaledWhole(num, lcm);
    forall t | t in den ensures lcm % t.q.d == 0 { assert lcm % 1 == 0; }
    ScaledWhole(den, lcm);
    forall at: Sparse.Point
      ensures SumValue(top, |top|, at) == Times(factor as real, SumValue(num, |num|, at))
      ensures SumValue(bottom, |bottom|, at) == Times(factor as real, SumValue(den, |den|, at))
    {
      ScaledValue(num, lcm, |num|, at);
      ScaledValue(den, lcm, |den|, at);
    }
  }

  lemma GcdNext(a: nat, b: nat)
    requires b != 0
    ensures Gcd(a, b) == Gcd(b, a % b)
  {}

  lemma GcdDone(a: nat)
    ensures Gcd(a, 0) == a
  {}

  function Ratio(x: real, y: real): real
    requires y != 0.0
  {
    x / y
  }

  lemma SameQuotient(k: real, x: real, y: real)
    requires k != 0.0 && y != 0.0
    ensures Times(k, y) != 0.0 && Times(k, x) / Times(k, y) == x / y
  {
    NonzeroProduct(k, y);
    assert Times(Times(k, x), y) == Times(x, Times(k, y));
    SameRatio(Times(k, x), Times(k, y), x, y);
  }

  /** `node` for a quotient: one fraction. */
  function FractionTree(upper: QPoly, lower: QPoly, s: Style): Node {
    Binary(Div, Joined(upper, |upper|, s), Joined(lower, |lower|, s))
  }

  lemma FractionTreeIs(upper: QPoly, lower: QPoly, s: Style)
    ensures FractionTree(upper, lower, s) == Binary(Div, Joined(upper, |upper|, s), Joined(lower, |lower|, s))
  {}

  /** A quotient's tree, each side's terms printed in any order, denotes the quotient. */
  lemma FractionDenotes(num: QPoly, den: QPoly, top: QPoly, bottom: QPoly, upper: QPoly, lower: QPoly, factor: int,
                        s: Style, it: Meaning, at: Sparse.Point)
    requires Faithful(s, it, at) && AllListed(top, s.order) && AllListed(bottom, s.order) && factor > 0
    requires Reordered(upper, top) && Reordered(lower, bottom)
    requires SumValue(top, |top|, at) == Times(factor as real, SumValue(num, |num|, at))
    requires SumValue(bottom, |bottom|, at) == Times(factor as real, SumValue(den, |den|, at))
    requires SumValue(den, |den|, at) != 0.0
    ensures Eval(FractionTree(upper, lower, s), it) == Some(Ratio(SumValue(num, |num|, at), SumValue(den, |den|, at)))
  {
    hide *;
    var k, x, y := factor as real, SumValue(num, |num|, at), SumValue(den, |den|, at);
    SideWorth(top, upper, s, it, at, Times(k, x));
    SideWorth(bottom, lower, s, it, at, Times(k, y));
    FractionTreeIs(upper, lower, s);
    DivideTrees(Joined(upper, |upper|, s), Joined(lower, |lower|, s), it, k, x, y);
  }

  lemma SideWorth(p: QPoly, sorted: QPoly, s: Style, it: Meaning, at: Sparse.Point, v: real)
    requires Reordered(sorted, p) && Faithful(s, it, at) && AllListed(p, s.order) && SumValue(p, |p|, at) == v
    ensures Eval(Joined(sorted, |sorted|, s), it) == Some(v)
  {
    hide *;
    SidesDenote(p, sorted, s, it, at);
  }

  lemma SidesDenote(p: QPoly, sorted: QPoly, s: Style, it: Meaning, at: Sparse.Point)
    requires Reordered(sorted, p) && Faithful(s, it, at) && AllListed(p, s.order)
    ensures Eval(Joined(sorted, |sorted|, s), it) == Some(SumValue(p, |p|, at))
  {
    hide *;
    SameTerms(sorted, p, s.order);
    SumInAnyOrder(sorted, p, at);
    JoinedEval(sorted, |sorted|, s, it, at);
  }

  lemma DivideTrees(a: Node, b: Node, it: Meaning, k: real, x: real, y: real)
    requires Eval(a, it) == Some(Times(k, x)) && Eval(b, it) == Some(Times(k, y)) && k != 0.0 && y != 0.0
    ensures Eval(Binary(Div, a, b), it) == Some(Ratio(x, y))
  {
    hide Eval, Times;
    SameQuotient(k, x, y);
    BinaryEval(Div, a, b, it, Times(k, x), Times(k, y));
  }

  lemma SameTerms(a: QPoly, b: QPoly, order: seq<nat>)
    requires Reordered(a, b) && AllListed(b, order)
    ensures AllListed(a, order)
  {
    hide Lists;
    forall t | t in a ensures Lists(order, t.m) {
      assert t in multiset(a);
      assert t in b;
    }
  }
}
