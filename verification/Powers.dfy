/** The rules for powers and for calls (`power` and `call`, packages/cas/src/differentiate.ts) keep the meaning. */
module Powers {
  import opened Options
  import opened Reals
  import opened Rationals
  import opened Trees
  import opened DualNumbers
  import opened Rules
  import opened Calculus

  /** n is the power a^b, written with `^` or as `pow(a, b)`. */
  ghost predicate PowerNode(n: Node, a: Node, b: Node, x: nat) {
    forall it: Meaning :: Lawful(it) && Dual(n, x, it).Some? ==>
      && Dual(a, x, it).Some? && Dual(b, x, it).Some? && Eval(n, it).Some?
      && it.pow(Dual(a, x, it).value.v, Dual(b, x, it).value.v) == Eval(n, it)
      && PowerPart(a, b, Dual(a, x, it).value, Dual(b, x, it).value, Eval(n, it).value, x, it) == Some(Dual(n, x, it).value.e)
  }

  /** A call of two arguments. */
  lemma TwoArguments(n: Node, it: Meaning)
    requires n.Call? && |n.args| == 2 && Eval(n, it).Some?
    ensures Eval(n.args[0], it).Some? && Eval(n.args[1], it).Some?
    ensures Eval(n, it) == it.fn(n.fn, [Eval(n.args[0], it).value, Eval(n.args[1], it).value])
  {
    var u, v := Eval(n.args[0], it), Eval(n.args[1], it);
    assert EvalArgs(n, 0, it) == Some([]);
    assert EvalArgs(n, 1, it) == if u.None? then None else Some([] + [u.value]);
    assert EvalArgs(n, 2, it).Some?;
    assert EvalArgs(n, 2, it) == Some(EvalArgs(n, 1, it).value + [v.value]);
    assert [] + [u.value] == [u.value];
    assert [u.value] + [v.value] == [u.value, v.value];
  }

  lemma {:induction false} PowerCall(n: Node, x: nat)
    requires n.Call? && n.fn == PowFn && |n.args| == 2 && Varies(n, x)
    ensures PowerNode(n, n.args[0], n.args[1], x)
  {
    hide PowerPart;
    var a, b := n.args[0], n.args[1];
    forall it: Meaning | Lawful(it) && Dual(n, x, it).Some?
      ensures && Dual(a, x, it).Some? && Dual(b, x, it).Some? && Eval(n, it).Some?
              && it.pow(Dual(a, x, it).value.v, Dual(b, x, it).value.v) == Eval(n, it)
              && PowerPart(a, b, Dual(a, x, it).value, Dual(b, x, it).value, Eval(n, it).value, x, it)
                 == Some(Dual(n, x, it).value.e)
    {
      TwoArguments(n, it);
    }
  }

  // ---- a constant exponent ----

  function PowerOuter(a: Node, b: Node, decimal: bool): Node {
    FoldTimes(b, FoldPow(a, FoldMinus(b, ONE, decimal)), decimal)
  }

  lemma PowerOuterEval(a: Node, b: Node, decimal: bool, it: Meaning, u: real, c: real, p: real)
    requires Lawful(it) && Eval(a, it) == Some(u) && Eval(b, it) == Some(c) && it.pow(u, c - 1.0) == Some(p)
    ensures Eval(PowerOuter(a, b, decimal), it) == Some(Times(c, p))
  {
    hide Eval, FoldTimes, FoldPow, FoldMinus, Times;
    WholeEval(1, it);
    OneEval(it);
    MinusEval(b, ONE, decimal, it, c, 1.0);
    PowEval(a, FoldMinus(b, ONE, decimal), it, u, c - 1.0, p);
    TimesEval(b, FoldPow(a, FoldMinus(b, ONE, decimal)), decimal, it, c, p);
  }

  lemma OneEval(it: Meaning)
    ensures Eval(ONE, it) == Some(1.0)
  {
    WholeEval(1, it);
  }

  /** Literal 0 as the exponent folds the whole derivative to 0, whatever the base. */
  lemma ZeroExponent(a: Node, b: Node, decimal: bool, it: Meaning)
    requires IsInt(Literal(b), 0)
    ensures Eval(PowerOuter(a, b, decimal), it) == Some(0.0)
  {
    WholeEval(0, it);
    assert Eval(ZERO, it) == Some(0.0);
    var c := FoldMinus(b, ONE, decimal);
    MinusOne(b, decimal, it);
    hide Eval, FoldMinus, Strip, Value;
    assert Literal(FoldPow(a, c)) == None;
  }

  /** 0 - 1 folds to a literal that is neither 0 nor 1. */
  lemma MinusOne(b: Node, decimal: bool, it: Meaning)
    requires IsInt(Literal(b), 0)
    ensures var c := Literal(FoldMinus(b, ONE, decimal)); !IsInt(c, 0) && !IsInt(c, 1)
  {
    var c := FoldMinus(b, ONE, decimal);
    LiteralEval(b, it);
    IntValue(Literal(b).value, 0);
    OneEval(it);
    MinusEval(b, ONE, decimal, it, 0.0, 1.0);
    LiteralCases(c, it, -1.0);
  }

  lemma PowerOuterSound(n: Node, a: Node, b: Node, x: nat, decimal: bool)
    requires PowerNode(n, a, b, x) && !Varies(b, x)
    ensures OuterSound(n, a, PowerOuter(a, b, decimal), x)
  {
    hide PowerOuter, Lawful, Times, Varies, Literal;
    forall it: Meaning | Lawful(it) && Dual(n, x, it).Some?
      ensures Dual(a, x, it).Some? && Eval(PowerOuter(a, b, decimal), it).Some?
      ensures Dual(n, x, it).value.e == Times(Eval(PowerOuter(a, b, decimal), it).value, Dual(a, x, it).value.e)
    {
      var da, db := Dual(a, x, it).value, Dual(b, x, it).value;
      if IsInt(Literal(b), 0) {
        ZeroExponent(a, b, decimal, it);
        TimesUnit(da.e);
      } else {
        PowerOuterEval(a, b, decimal, it, da.v, db.v, it.pow(da.v, db.v - 1.0).value);
      }
    }
  }

  // ---- a constant base ----

  lemma NaturalSound(n: Node, a: Node, b: Node, x: nat)
    requires PowerNode(n, a, b, x) && Varies(b, x) && !Varies(a, x) && IsE(a)
    ensures OuterSound(n, b, n, x)
  {
    hide Lawful, Times, Varies, IsE;
  }

  lemma ExponentialSound(n: Node, a: Node, b: Node, x: nat, decimal: bool)
    requires PowerNode(n, a, b, x) && Varies(b, x) && !Varies(a, x) && !IsE(a)
    ensures OuterSound(n, b, FoldTimes(n, Of(Ln, a), decimal), x)
  {
    hide FoldTimes, Lawful, Times, Varies, IsE, Of;
    var outer := FoldTimes(n, Of(Ln, a), decimal);
    forall it: Meaning | Lawful(it) && Dual(n, x, it).Some?
      ensures Dual(b, x, it).Some? && Eval(outer, it).Some?
      ensures Dual(n, x, it).value.e == Times(Eval(outer, it).value, Dual(b, x, it).value.e)
    {
      var u := Dual(a, x, it).value.v;
      OfEval(Ln, a, it, u);
      BothEval(n, Of(Ln, a), decimal, it, Eval(n, it), At(it, Ln, u));
    }
  }

  // ---- a varying base and exponent ----

  function GeneralTree(n: Node, a: Node, b: Node, da: Node, db: Node, decimal: bool): Node {
    FoldTimes(n, FoldPlus(FoldTimes(db, Of(Ln, a), decimal), FoldOver(FoldTimes(b, da, decimal), a, decimal), decimal), decimal)
  }

  lemma GeneralEval(n: Node, a: Node, b: Node, da: Node, db: Node, decimal: bool, it: Meaning, p: Pair, q: Pair, w: real, l: real)
    requires Eval(n, it) == Some(w) && Eval(a, it) == Some(p.v) && Eval(b, it) == Some(q.v) && p.v != 0.0
    requires Eval(da, it) == Some(p.e) && Eval(db, it) == Some(q.e) && At(it, Ln, p.v) == Some(l)
    ensures Eval(GeneralTree(n, a, b, da, db, decimal), it) == Some(Times(w, Times(q.e, l) + Times(q.v, p.e) / p.v))
  {
    hide Eval, FoldTimes, FoldPlus, FoldOver, Times, At, Of;
    OfEval(Ln, a, it, p.v);
    var left, top := FoldTimes(db, Of(Ln, a), decimal), FoldTimes(b, da, decimal);
    TimesEval(db, Of(Ln, a), decimal, it, q.e, l);
    TimesEval(b, da, decimal, it, q.v, p.e);
    OverEval(top, a, decimal, it, Times(q.v, p.e), p.v);
    PlusEval(left, FoldOver(top, a, decimal), decimal, it, Times(q.e, l), Times(q.v, p.e) / p.v);
    TimesEval(n, FoldPlus(left, FoldOver(top, a, decimal), decimal), decimal, it, w, Times(q.e, l) + Times(q.v, p.e) / p.v);
  }

  lemma GeneralPart(a: Node, b: Node, da: Pair, db: Pair, w: real, x: nat, it: Meaning)
    requires Varies(b, x) && Varies(a, x) && PowerPart(a, b, da, db, w, x, it).Some?
    ensures At(it, Ln, da.v).Some? && da.v != 0.0
    ensures var l := At(it, Ln, da.v).value;
            PowerPart(a, b, da, db, w, x, it) == Some(Times(w, Times(db.e, l) + Times(db.v, da.e) / da.v))
  {
    hide Times;
  }

  lemma GeneralPowerSound(n: Node, a: Node, b: Node, da: Node, db: Node, x: nat, decimal: bool)
    requires PowerNode(n, a, b, x) && Varies(b, x) && Varies(a, x) && Sound(a, da, x) && Sound(b, db, x)
    ensures Sound(n, GeneralTree(n, a, b, da, db, decimal), x)
  {
    hide GeneralTree, Lawful, Times, Varies, PowerPart, At;
    forall it: Meaning | Lawful(it) && Dual(n, x, it).Some?
      ensures Eval(GeneralTree(n, a, b, da, db, decimal), it) == Some(Dual(n, x, it).value.e)
    {
      var p, q, w := Dual(a, x, it).value, Dual(b, x, it).value, Eval(n, it).value;
      GeneralPart(a, b, p, q, w, x, it);
      GeneralEval(n, a, b, da, db, decimal, it, p, q, w, At(it, Ln, p.v).value);
    }
  }

  // ---- calls ----

  lemma CallSound(n: Node, x: nat, decimal: bool)
    requires n.Call? && |n.args| == 1 && Varies(n, x) && OuterOf(n.fn, n, n.args[0], decimal).Some?
    ensures OuterSound(n, n.args[0], OuterOf(n.fn, n, n.args[0], decimal).value, x)
  {
    hide OuterOf, Times, SlopeAt, Lawful;
    var u, outer := n.args[0], OuterOf(n.fn, n, n.args[0], decimal).value;
    forall it: Meaning | Lawful(it) && Dual(n, x, it).Some?
      ensures Dual(u, x, it).Some? && Eval(outer, it).Some?
      ensures Dual(n, x, it).value.e == Times(Eval(outer, it).value, Dual(u, x, it).value.e)
    {
      OuterOfSound(n.fn, n, u, decimal, it, Dual(u, x, it).value.v, Eval(n, it).value);
    }
  }

  /** log(u, b) with a constant base. */
  lemma LogBaseSound(n: Node, x: nat, decimal: bool)
    requires n.Call? && n.fn == Log && |n.args| == 2 && Varies(n, x) && !Varies(n.args[1], x)
    ensures OuterSound(n, n.args[0], FoldOver(ONE, FoldTimes(n.args[0], Of(Ln, n.args[1]), decimal), decimal), x)
  {
    hide Times, Lawful, FoldOver, FoldTimes, Of, Inverse, Both;
    var u, b := n.args[0], n.args[1];
    var d := FoldTimes(u, Of(Ln, b), decimal);
    forall it: Meaning | Lawful(it) && Dual(n, x, it).Some?
      ensures Dual(u, x, it).Some? && Eval(FoldOver(ONE, d, decimal), it).Some?
      ensures Dual(n, x, it).value.e == Times(Eval(FoldOver(ONE, d, decimal), it).value, Dual(u, x, it).value.e)
    {
      var du, db := Dual(u, x, it).value, Dual(b, x, it).value;
      LogBaseEval(u, b, decimal, it, du.v, db.v);
    }
  }

  lemma LogBaseEval(u: Node, b: Node, decimal: bool, it: Meaning, p: real, q: real)
    requires Eval(u, it) == Some(p) && Eval(b, it) == Some(q) && Inverse(Both(Some(p), At(it, Ln, q))).Some?
    ensures Eval(FoldOver(ONE, FoldTimes(u, Of(Ln, b), decimal), decimal), it) == Inverse(Both(Some(p), At(it, Ln, q)))
  {
    hide Eval, FoldTimes, Of, At, Reciprocal, FoldOver;
    OfEval(Ln, b, it, q);
    var d := FoldTimes(u, Of(Ln, b), decimal);
    BothEval(u, Of(Ln, b), decimal, it, Some(p), At(it, Ln, q));
    ReciprocalIs(d, decimal);
    ReciprocalEval(d, decimal, it, Both(Some(p), At(it, Ln, q)));
  }

  /** nthRoot(u, k) with a constant degree. */
  lemma RootSound(n: Node, x: nat, decimal: bool)
    requires n.Call? && n.fn == NthRoot && |n.args| == 2 && Varies(n, x) && !Varies(n.args[1], x)
    ensures OuterSound(n, n.args[0], RootTree(n, n.args[1], decimal), x)
  {
    hide Times, Lawful, RootTree, Inverse, Both;
    var u, k := n.args[0], n.args[1];
    forall it: Meaning | Lawful(it) && Dual(n, x, it).Some?
      ensures Dual(u, x, it).Some? && Eval(RootTree(n, k, decimal), it).Some?
      ensures Dual(n, x, it).value.e == Times(Eval(RootTree(n, k, decimal), it).value, Dual(u, x, it).value.e)
    {
      var dk := Dual(k, x, it).value;
      RootEval(n, k, decimal, it, Eval(n, it).value, dk.v);
    }
  }

  function RootTree(n: Node, k: Node, decimal: bool): Node {
    FoldOver(ONE, FoldTimes(k, FoldPow(n, FoldMinus(k, ONE, decimal)), decimal), decimal)
  }

  lemma RootEval(n: Node, k: Node, decimal: bool, it: Meaning, w: real, q: real)
    requires Lawful(it) && Eval(n, it) == Some(w) && Eval(k, it) == Some(q) && Inverse(Both(Some(q), it.pow(w, q - 1.0))).Some?
    ensures Eval(RootTree(n, k, decimal), it) == Inverse(Both(Some(q), it.pow(w, q - 1.0)))
  {
    hide Eval, FoldTimes, FoldMinus, FoldPow, FoldOver, Reciprocal, Lawful, Times;
    OneEval(it);
    MinusEval(k, ONE, decimal, it, q, 1.0);
    var r := it.pow(w, q - 1.0);
    PowEval(n, FoldMinus(k, ONE, decimal), it, w, q - 1.0, r.value);
    var d := FoldTimes(k, FoldPow(n, FoldMinus(k, ONE, decimal)), decimal);
    BothEval(k, FoldPow(n, FoldMinus(k, ONE, decimal)), decimal, it, Some(q), r);
    ReciprocalIs(d, decimal);
    ReciprocalEval(d, decimal, it, Both(Some(q), r));
  }

  /** ln(u) as a dual number. */
  lemma LogDual(u: Node, x: nat, it: Meaning, d: Pair, l: real)
    requires Dual(u, x, it) == Some(d) && At(it, Ln, d.v) == Some(l) && d.v != 0.0
    ensures Dual(Of(Ln, u), x, it) == Some(Pair(l, Times(1.0 / d.v, d.e)))
  {
    var n := Of(Ln, u);
    OfEval(Ln, u, it, d.v);
    assert n.args[0] == u;
    assert Varies(n, x) == Varies(u, x);
    TimesUnit(1.0 / d.v);
    hide Times, Eval;
  }

  /** log(u, b) with a varying base is ln(u)/ln(b). */
  lemma LogVaryingSound(n: Node, after: Node, x: nat)
    requires n.Call? && n.fn == Log && |n.args| == 2 && Varies(n, x) && Varies(n.args[1], x)
    requires Sound(Binary(Div, Of(Ln, n.args[0]), Of(Ln, n.args[1])), after, x)
    ensures Sound(n, after, x)
  {
    hide Times, Lawful, QuotientPart;
    var u, v := n.args[0], n.args[1];
    var f, g := Of(Ln, u), Of(Ln, v);
    assert g.args[0] == v && Varies(g, x);
    forall it: Meaning | Lawful(it) && Dual(n, x, it).Some? ensures Eval(after, it) == Some(Dual(n, x, it).value.e) {
      LogQuotientDual(n, x, it);
    }
  }

  lemma LogQuotientDual(n: Node, x: nat, it: Meaning)
    requires n.Call? && n.fn == Log && |n.args| == 2 && Varies(n, x) && Varies(n.args[1], x)
    requires Dual(n, x, it).Some?
    ensures var q := Dual(Binary(Div, Of(Ln, n.args[0]), Of(Ln, n.args[1])), x, it);
            q.Some? && q.value.e == Dual(n, x, it).value.e
  {
    var u, v := n.args[0], n.args[1];
    var d, e := Dual(u, x, it).value, Dual(v, x, it).value;
    LogDual(u, x, it, d, At(it, Ln, d.v).value);
    LogDual(v, x, it, e, At(it, Ln, e.v).value);
    var f, g := Of(Ln, u), Of(Ln, v);
    assert g.args[0] == v && Varies(g, x);
    hide Times, Of;
    assert Eval(Binary(Div, f, g), it).Some?;
  }
}
