/** The form of emitted polynomials (packages/cas/src/emit.ts): besides having the right value, the tree says nothing
    superfluous and every literal in it can be written down. */
module EmittedForms {
  import opened Rationals
  import opened Decimals
  import opened Trees
  import opened Emitters
  import Sparse = SparsePoly

  predicate IsLiteral(n: Node, k: int) { n.Number? && n.q.d == 1 && n.q.n == k }

  /** Literals are whole numbers, or decimals where decimals are asked for, without a sign; no sum starts with 0, no
      product has a factor 1, nothing is divided by 1 or raised to the power 1. */
  predicate Tidy(n: Node, decimal: bool) {
    match n
    case Number(q, _) => q.n >= 0 && (q.d == 1 || (decimal && Terminates(q)))
    case Unary(_, a) => Tidy(a, decimal)
    case Binary(op, a, b) =>
      && Tidy(a, decimal) && Tidy(b, decimal)
      && (op == Add || op == Sub ==> !IsLiteral(a, 0))
      && (op == Mul ==> !IsLiteral(a, 1) && !IsLiteral(b, 1))
      && (op == Div || op == Pow ==> !IsLiteral(b, 1))
    case _ => true
  }

  /** The trees of generators are tidy and not numbers. */
  ghost predicate TidyStyle(s: Style) { forall g: nat :: Tidy(s.tree(g), s.decimal) && !s.tree(g).Number? }

  ghost predicate TidyFactors(factors: seq<Node>, decimal: bool) {
    forall i :: 0 <= i < |factors| ==> Tidy(factors[i], decimal) && !IsLiteral(factors[i], 0) && !IsLiteral(factors[i], 1)
  }

  lemma {:induction false} ProductTidy(factors: seq<Node>, decimal: bool)
    requires factors != [] && TidyFactors(factors, decimal)
    ensures Tidy(Product(factors), decimal) && !IsLiteral(Product(factors), 0) && !IsLiteral(Product(factors), 1)
  {
    if |factors| > 1 { ProductTidy(factors[..|factors| - 1], decimal); }
  }

  lemma {:induction false} FactorsTidy(s: Style, order: seq<nat>, m: Sparse.Monomial)
    requires TidyStyle(s)
    ensures TidyFactors(Factors(s, order, m), s.decimal)
  {
    if order != [] {
      FactorsTidy(s, order[1..], m);
      FactorTidy(s, order[0], Sparse.Exp(m, order[0]));
      hide FactorNode, Tidy;
    }
  }

  lemma FactorTidy(s: Style, g: nat, e: nat)
    requires TidyStyle(s)
    ensures Tidy(FactorNode(s, g, e), s.decimal) && !FactorNode(s, g, e).Number?
  {
    assert Tidy(s.tree(g), s.decimal);
  }

  lemma SignedTidy(factors: seq<Node>, negative: bool, decimal: bool)
    requires factors != [] && TidyFactors(factors, decimal)
    ensures TidyFactors([Emitters.Signed(factors[0], negative)] + factors[1..], decimal)
  {
    assert Tidy(factors[0], decimal);
  }

  lemma LedTidy(lead: Node, negative: bool, factors: seq<Node>, decimal: bool)
    requires Tidy(lead, decimal) && !IsLiteral(lead, 0) && !IsLiteral(lead, 1) && TidyFactors(factors, decimal)
    ensures TidyFactors([Emitters.Signed(lead, negative)] + factors, decimal)
  {
    assert TidyFactors([lead] + factors, decimal);
    SignedTidy([lead] + factors, negative, decimal);
    assert ([lead] + factors)[1..] == factors;
  }

  /** A term's tree is tidy, and is no literal 0. */
  lemma TermTidy(c: Rational, m: Sparse.Monomial, negative: bool, s: Style)
    requires TidyStyle(s) && c.n > 0
    ensures Tidy(TermNode(c, m, negative, s), s.decimal) && !IsLiteral(TermNode(c, m, negative, s), 0)
  {
    var factors := Factors(s, s.order, m);
    FactorsTidy(s, s.order, m);
    RationalForm(c, negative, s);
    hide Product, Factors, Terminates;
    if factors != [] {
      SignedTidy(factors, negative, s.decimal);
      ProductTidy([Emitters.Signed(factors[0], negative)] + factors[1..], s.decimal);
      if OneLiteral(c, s) && !(c.n == 1 && c.d == 1) {
        LedTidy(Number(c, 0), negative, factors, s.decimal);
        ProductTidy([Emitters.Signed(Number(c, 0), negative)] + factors, s.decimal);
      } else if c.n != 1 {
        LedTidy(IntNode(c.n), negative, factors, s.decimal);
        ProductTidy([Emitters.Signed(IntNode(c.n), negative)] + factors, s.decimal);
      }
    }
  }

  /** The joined tree is tidy, and 0 only for no terms. */
  lemma {:induction false} JoinedTidy(terms: QPoly, k: nat, s: Style)
    requires k <= |terms| && TidyStyle(s) && forall i :: 0 <= i < |terms| ==> terms[i].q.n != 0
    ensures Tidy(Joined(terms, k, s), s.decimal) && (IsLiteral(Joined(terms, k, s), 0) <==> k == 0)
    decreases k
  {
    if k > 0 {
      var t := terms[k - 1];
      TermTidy(AbsOf(t.q), t.m, t.q.n < 0, s);
      TermTidy(AbsOf(t.q), t.m, false, s);
      JoinedTidy(terms, k - 1, s);
      hide TermNode;
    }
  }

  /** A coefficient is one literal exactly when it is whole or a decimal that was asked for, else a fraction of two. */
  lemma RationalForm(c: Rational, negative: bool, s: Style)
    requires c.n >= 0
    ensures Tidy(RationalNode(c, negative, s), s.decimal)
    ensures Strip(RationalNode(c, false, s)).Number? <==> c.d == 1 || (s.decimal && Terminates(c))
  {
    hide Terminates;
    assert Tidy(IntNode(c.n), s.decimal) && Tidy(IntNode(c.d), s.decimal);
    assert Tidy(Emitters.Signed(IntNode(c.n), negative), s.decimal);
    if OneLiteral(c, s) { assert Tidy(Number(c, 0), s.decimal); }
  }
}
