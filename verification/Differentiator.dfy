/** `Differentiator` (packages/cas/src/differentiate.ts): structural ids, and a derivative memoised per id. */
module Differentiators {
  import opened Rationals
  import opened Trees
  import opened DualNumbers
  import opened Rules
  import opened Calculus
  import opened Powers
  import opened Interning
  import opened Outcomes

  datatype Derived = Ok(after: Node) | NotDifferentiable | Unsupported

  /** A derivative exactly when nothing goes wrong, else the error of the first thing that does. */
  predicate Answers(r: Derived, o: Outcome) {
    match o
    case Fine => r.Ok?
    case Jumps => r.NotDifferentiable?
    case NoRule => r.Unsupported?
  }

  /** The ids handed out so far, of trees and of the keys of their erasures, and which of them vary. */
  ghost predicate Known(ids: map<Key, nat>, idOf: map<Node, nat>, varying: seq<bool>, keys: seq<Key>, trees: seq<Node>, x: nat) {
    && IdTable(ids, keys, trees)
    && |varying| == |trees|
    && (forall i :: 0 <= i < |trees| ==> varying[i] == Varies(trees[i], x))
    && (forall n :: n in idOf ==> idOf[n] < |trees| && trees[idOf[n]] == Erase(n))
  }

  /** The tree of a memoised derivative has one, and the arguments of its abs are recorded. */
  predicate Settled(n: Node, x: nat, guards: seq<Node>) { OutcomeOf(n, x) == Fine && Guarded(n, x, guards) }

  /** Each memoised derivative is sound for the tree of its id. */
  ghost predicate Remembered(memo: map<nat, Node>, trees: seq<Node>, x: nat, guards: seq<Node>) {
    forall i :: i in memo ==> i < |trees| && Sound(trees[i], memo[i], x) && Settled(trees[i], x, guards)
  }

  lemma KnownGrows(ids: map<Key, nat>, idOf: map<Node, nat>, varying: seq<bool>, keys: seq<Key>, trees: seq<Node>, x: nat,
                   k: Key, varies: bool)
    requires Known(ids, idOf, varying, keys, trees, x) && k !in ids && Below(k, |trees|)
    requires varies == Varies(TreeOf(k, trees), x)
    ensures Known(ids[k := |keys|], idOf, varying + [varies], keys + [k], trees + [TreeOf(k, trees)], x)
  {
    hide TreeOf, Varies, Erase;
    Grows(ids, keys, trees, k);
    hide IdTable;
  }

  lemma RememberedGrows(memo: map<nat, Node>, trees: seq<Node>, x: nat, guards: seq<Node>, t: Node)
    requires Remembered(memo, trees, x, guards)
    ensures Remembered(memo, trees + [t], x, guards)
  {
    hide Sound, Settled;
  }

  lemma RememberedGuards(memo: map<nat, Node>, trees: seq<Node>, x: nat, guards: seq<Node>, u: Node)
    requires Remembered(memo, trees, x, guards)
    ensures Remembered(memo, trees, x, guards + [u])
  {
    hide Sound, OutcomeOf, Guarded;
    forall i | i in memo ensures Guarded(trees[i], x, guards + [u]) { GuardedMore(trees[i], x, guards, guards + [u]); }
  }

  lemma Counted(ids: map<Key, nat>, idOf: map<Node, nat>, varying: seq<bool>, keys: seq<Key>, trees: seq<Node>, x: nat)
    requires Known(ids, idOf, varying, keys, trees, x)
    ensures |ids| == |keys| == |trees| == |varying|
  {
    hide Varies, Erase;
    IdCount(ids, keys, trees);
  }

  lemma Listed(ids: map<Key, nat>, idOf: map<Node, nat>, varying: seq<bool>, keys: seq<Key>, trees: seq<Node>, x: nat, k: Key)
    requires Known(ids, idOf, varying, keys, trees, x) && k in ids
    ensures ids[k] < |trees| && Below(k, |trees|) && trees[ids[k]] == TreeOf(k, trees)
  {
    hide Varies, Erase, TreeOf;
  }

  class Differentiator {
    const variable: nat
    const decimal: bool
    var ids: map<Key, nat>
    var idOf: map<Node, nat>
    var varying: seq<bool>
    var memo: map<nat, Node>
    var nonzero: seq<Node>
    ghost var keys: seq<Key>
    ghost var trees: seq<Node>

    ghost predicate Valid()
      reads this
    {
      Known(ids, idOf, varying, keys, trees, variable) && Remembered(memo, trees, variable, nonzero)
    }

    constructor (x: nat, decimals: bool)
      ensures Valid() && variable == x && decimal == decimals
    {
      variable, decimal := x, decimals;
      ids, idOf, varying, memo, nonzero, keys, trees := map[], map[], [], map[], [], [], [];
    }

    /** `intern`. */
    method Intern(key: Key, varies: bool) returns (id: nat)
      requires Valid() && Below(key, |trees|) && varies == Varies(TreeOf(key, trees), variable)
      modifies this
      ensures Valid() && old(trees) <= trees && idOf == old(idOf) && memo == old(memo) && nonzero == old(nonzero)
      ensures id < |trees| && trees[id] == TreeOf(key, old(trees))
    {
      hide TreeOf, IdTable, Remembered, Known;
      Counted(ids, idOf, varying, keys, trees, variable);
      if key in ids {
        Listed(ids, idOf, varying, keys, trees, variable, key);
        return ids[key];
      }
      id := |ids|;
      KnownGrows(ids, idOf, varying, keys, trees, variable, key, varies);
      RememberedGrows(memo, trees, variable, nonzero, TreeOf(key, trees));
      ids := ids[key := id];
      varying := varying + [varies];
      trees := trees + [TreeOf(key, trees)];
      keys := keys + [key];
    }

    /** The structural id of a tree; groups and unary `+` share their operand's id. */
    method Id(node: Node) returns (id: nat)
      requires Valid()
      modifies this
      ensures Valid() && old(trees) <= trees && memo == old(memo) && nonzero == old(nonzero)
      ensures id < |trees| && trees[id] == Erase(node)
      ensures node in idOf && idOf[node] == id
      decreases node, 2
    {
      hide Remembered, Varies, Erase, IdTable;
      if node in idOf { return idOf[node]; }
      id := ShapeId(node);
      idOf := idOf[node := id];
    }

    /** `shape` and the id it leads to. */
    method ShapeId(node: Node) returns (id: nat)
      requires Valid()
      modifies this
      ensures Valid() && old(trees) <= trees && memo == old(memo) && nonzero == old(nonzero)
      ensures id < |trees| && trees[id] == Erase(node)
      decreases node, 1
    {
      hide Remembered, IdTable;
      match node
      case Number(q, spelling) => id := Intern(NumberKey(q, spelling), false);
      case Name(x) => id := Intern(NameKey(x), x == variable);
      case Group(a) => id := Id(a);
      case Unary(negative, a) =>
        id := Id(a);
        if negative { id := Intern(NegationKey(id), varying[id]); }
      case Factorial(a) =>
        var arg := Id(a);
        id := Intern(FactorialKey(arg), varying[arg]);
      case Binary(op, a, b) =>
        var left := Id(a);
        var right := Id(b);
        id := Intern(BinaryKey(op, left, right), varying[left] || varying[right]);
      case Call(fn, args) =>
        id := CallId(node);
    }

    method CallId(node: Node) returns (id: nat)
      requires Valid() && node.Call?
      modifies this
      ensures Valid() && old(trees) <= trees && memo == old(memo) && nonzero == old(nonzero)
      ensures id < |trees| && trees[id] == Erase(node)
      decreases node, 0
    {
      hide Remembered, IdTable, Erase, Varies, TreeOf;
      var args: seq<nat> := [];
      for k := 0 to |node.args|
        invariant Valid() && old(trees) <= trees && memo == old(memo) && nonzero == old(nonzero)
        invariant |args| == k && forall i :: 0 <= i < k ==> args[i] < |trees| && trees[args[i]] == Erase(node.args[i])
      {
        var arg := Id(node.args[k]);
        args := args + [arg];
      }
      CallTree(node, args, trees);
      CallVaries(node.fn, args, trees, varying, variable);
      id := Intern(CallKey(node.fn, args), exists i :: 0 <= i < |args| && varying[args[i]]);
    }

    method VariesNow(node: Node) returns (yes: bool)
      requires Valid()
      modifies this
      ensures Valid() && old(trees) <= trees && memo == old(memo) && nonzero == old(nonzero)
      ensures yes == Varies(node, variable)
    {
      hide Remembered, IdTable, Erase, Varies;
      var id := Id(node);
      EraseVaries(node, variable);
      yes := varying[id];
    }

    // ---- derivatives ----

    /** The derivative of `node`: defined, and with the value of the e-part, wherever dual evaluation is defined. */
    method Derive(node: Node) returns (r: Derived)
      requires Valid()
      modifies this
      ensures Valid() && old(trees) <= trees && old(nonzero) <= nonzero
      ensures r.Ok? ==> Sound(node, r.after, variable)
      ensures Answers(r, OutcomeOf(node, variable)) && (r.Ok? ==> Guarded(node, variable, nonzero))
      decreases Size(node), 4
    {
      hide Known, Remembered, Sound, Erase, Varies, Size;
      var n := Strip(node);
      SoundAlike(node, variable);
      StripOutcome(node, variable);
      forall guards ensures Guarded(n, variable, guards) <==> Guarded(node, variable, guards) {
        StripGuarded(node, variable, guards);
      }
      var varies := VariesNow(n);
      if !varies {
        ConstantSound(n, variable);
        return Ok(ZERO);
      }
      if n.Name? {
        NameVaries(n, variable);
        return Ok(ONE);
      }
      var id := Id(n);
      SoundShared(n, variable);
      EraseOutcome(n, variable);
      if id in memo {
        Recall(memo, trees, variable, nonzero, id);
        EraseGuarded(n, variable, nonzero);
        return Ok(memo[id]);
      }
      r := Plan(n);
      if r.Ok? {
        EraseGuarded(n, variable, nonzero);
        RememberOne(memo, trees, variable, nonzero, id, r.after);
        memo := memo[id := r.after];
      }
    }

    /** `plan`, with the body of the plan it chooses. */
    method Plan(n: Node) returns (r: Derived)
      requires Valid() && Varies(n, variable) && !n.Name? && !n.Group? && (n.Unary? ==> n.negative)
      modifies this
      ensures Valid() && old(trees) <= trees && old(nonzero) <= nonzero
      ensures r.Ok? ==> Sound(n, r.after, variable)
      ensures Answers(r, OutcomeOf(n, variable)) && (r.Ok? ==> Guarded(n, variable, nonzero))
      decreases Size(n), 3
    {
      hide Known, Remembered, Sound, Erase;
      match n
      case Unary(_, f) =>
        r := Derive(f);
        if r.Ok? {
          NegationSound(f, r.after, variable, decimal);
          r := Ok(FoldTimes(Unary(true, ONE), r.after, decimal));
        }
      case Binary(op, f, g) =>
        match op {
          case Add => r := SumRule(n);
          case Sub => r := SumRule(n);
          case Mul => r := TimesRule(f, g);
          case Div => r := DivideRule(f, g);
          case Pow =>
            r := PowerRule(n, f, g);
        }
      case Call(_, _) => r := CallRule(n);
      case _ => r := Unsupported;
    }

    /** One step for a whole chain of `+` and `-`. */
    method SumRule(n: Node) returns (r: Derived)
      requires Valid() && n.Binary? && (n.op == Add || n.op == Sub)
      modifies this
      ensures Valid() && old(trees) <= trees && old(nonzero) <= nonzero
      ensures r.Ok? ==> Sound(n, r.after, variable)
      ensures Answers(r, OutcomeOf(n, variable)) && (r.Ok? ==> Guarded(n, variable, nonzero))
      decreases Size(n), 2
    {
      hide Known, Remembered, Sound, Erase, PartlySound, Size;
      var items := TermsOf(n);
      TermsSmaller(n);
      ChainOutcome(n, variable);
      var out := ZERO;
      StartSum(n, variable);
      for k := 0 to |items|
        invariant Valid() && old(trees) <= trees && PartlySound(n, k, out, variable)
        invariant FirstOf(items, k, variable) == Fine && old(nonzero) <= nonzero && AllGuarded(items, k, variable, nonzero)
      {
        ghost var guards := nonzero;
        var d := Derive(items[k].node);
        if !d.Ok? {
          FirstStays(items, k + 1, |items|, variable);
          return d;
        }
        AllGuardedMore(items, k, variable, guards, nonzero);
        StepSum(n, k, out, d.after, variable, decimal);
        out := if items[k].negative then FoldMinus(out, d.after, decimal) else FoldPlus(out, d.after, decimal);
      }
      EndSum(n, out, variable);
      ChainGuarded(n, variable, nonzero);
      r := Ok(out);
    }

    method TimesRule(f: Node, g: Node) returns (r: Derived)
      requires Valid() && (Varies(f, variable) || Varies(g, variable))
      modifies this
      ensures Valid() && old(trees) <= trees && old(nonzero) <= nonzero
      ensures r.Ok? ==> Sound(Binary(Mul, f, g), r.after, variable)
      ensures Answers(r, First(OutcomeOf(f, variable), OutcomeOf(g, variable)))
      ensures r.Ok? ==> Guarded(f, variable, nonzero) && Guarded(g, variable, nonzero)
      decreases if Size(f) < Size(g) then Size(g) else Size(f), 5
    {
      hide Known, Remembered, Sound, Erase, Varies, OutcomeOf, Guarded;
      var inF := VariesNow(f);
      if !inF {
        r := Derive(g);
        ConstantIsFine(f, variable, nonzero);
        if r.Ok? {
          ScaledLeft(f, g, r.after, variable, decimal);
          r := Ok(FoldTimes(f, r.after, decimal));
        }
        return;
      }
      var inG := VariesNow(g);
      if !inG {
        r := Derive(f);
        ConstantIsFine(g, variable, nonzero);
        if r.Ok? {
          ScaledRight(f, g, r.after, variable, decimal);
          r := Ok(FoldTimes(g, r.after, decimal));
        }
        return;
      }
      r := Derive(f);
      if !r.Ok? { return; }
      var df := r.after;
      ghost var guards := nonzero;
      r := Derive(g);
      if !r.Ok? { return; }
      GuardedMore(f, variable, guards, nonzero);
      ProductSound(f, g, df, r.after, variable, decimal);
      r := Ok(ProductTree(f, g, df, r.after, decimal));
    }

    method DivideRule(f: Node, g: Node) returns (r: Derived)
      requires Valid() && (Varies(f, variable) || Varies(g, variable))
      modifies this
      ensures Valid() && old(trees) <= trees && old(nonzero) <= nonzero
      ensures r.Ok? ==> Sound(Binary(Div, f, g), r.after, variable)
      ensures Answers(r, First(OutcomeOf(f, variable), OutcomeOf(g, variable)))
      ensures r.Ok? ==> Guarded(f, variable, nonzero) && Guarded(g, variable, nonzero)
      decreases if Size(f) < Size(g) then Size(g) else Size(f), 5
    {
      hide Known, Remembered, Sound, Erase, Varies, OutcomeOf, Guarded;
      var inG := VariesNow(g);
      r := Derive(f);
      if !r.Ok? { return; }
      var df := r.after;
      ghost var guards := nonzero;
      if !inG {
        ConstantIsFine(g, variable, nonzero);
        DivisorSound(f, g, df, variable, decimal);
        return Ok(FoldOver(df, g, decimal));
      }
      r := Derive(g);
      if !r.Ok? { return; }
      GuardedMore(f, variable, guards, nonzero);
      QuotientSound(f, g, df, r.after, variable, decimal);
      r := Ok(QuotientTree(f, g, df, r.after, decimal));
    }

    /** The chain rule, or the outer derivative alone at the variable itself. */
    method OuterRule(ghost n: Node, u: Node, outer: Node) returns (r: Derived)
      requires Valid() && OuterSound(n, u, outer, variable)
      modifies this
      ensures Valid() && old(trees) <= trees && old(nonzero) <= nonzero
      ensures r.Ok? ==> Sound(n, r.after, variable)
      ensures Answers(r, OutcomeOf(u, variable)) && (r.Ok? ==> Guarded(u, variable, nonzero))
      decreases Size(u), 5
    {
      hide Known, Remembered, Sound, Erase, OuterSound, Size;
      var inner := Strip(u);
      SoundAlike(u, variable);
      StripOutcome(u, variable);
      forall guards ensures Guarded(inner, variable, guards) <==> Guarded(u, variable, guards) {
        StripGuarded(u, variable, guards);
      }
      if inner.Name? && inner.name == variable {
        DirectSound(n, u, outer, variable);
        return Ok(outer);
      }
      r := Derive(inner);
      if r.Ok? {
        ChainSound(n, u, outer, r.after, variable, decimal);
        r := Ok(FoldTimes(outer, r.after, decimal));
      }
    }

    method PowerRule(n: Node, base: Node, exponent: Node) returns (r: Derived)
      requires Valid() && PowerNode(n, base, exponent, variable) && (Varies(base, variable) || Varies(exponent, variable))
      modifies this
      ensures Valid() && old(trees) <= trees && old(nonzero) <= nonzero
      ensures r.Ok? ==> Sound(n, r.after, variable)
      ensures Answers(r, First(OutcomeOf(base, variable), OutcomeOf(exponent, variable)))
      ensures r.Ok? ==> Guarded(base, variable, nonzero) && Guarded(exponent, variable, nonzero)
      decreases if Size(base) < Size(exponent) then Size(exponent) else Size(base), 6
    {
      hide Known, Remembered, Sound, Erase, OuterSound, PowerNode, Varies, OutcomeOf, Guarded;
      var inExponent := VariesNow(exponent);
      if !inExponent {
        PowerOuterSound(n, base, exponent, variable, decimal);
        r := OuterRule(n, base, PowerOuter(base, exponent, decimal));
        ConstantIsFine(exponent, variable, nonzero);
        return;
      }
      var inBase := VariesNow(base);
      if !inBase {
        if IsE(base) {
          NaturalSound(n, base, exponent, variable);
          r := OuterRule(n, exponent, n);
        } else {
          ExponentialSound(n, base, exponent, variable, decimal);
          r := OuterRule(n, exponent, FoldTimes(n, Of(Ln, base), decimal));
        }
        ConstantIsFine(base, variable, nonzero);
        return;
      }
      r := GeneralRule(n, base, exponent);
    }

    /** A power whose base and exponent both vary. */
    method GeneralRule(n: Node, base: Node, exponent: Node) returns (r: Derived)
      requires Valid() && PowerNode(n, base, exponent, variable) && Varies(base, variable) && Varies(exponent, variable)
      modifies this
      ensures Valid() && old(trees) <= trees && old(nonzero) <= nonzero
      ensures r.Ok? ==> Sound(n, r.after, variable)
      ensures Answers(r, First(OutcomeOf(base, variable), OutcomeOf(exponent, variable)))
      ensures r.Ok? ==> Guarded(base, variable, nonzero) && Guarded(exponent, variable, nonzero)
      decreases if Size(base) < Size(exponent) then Size(exponent) else Size(base), 5
    {
      hide Known, Remembered, Sound, Erase, PowerNode, Varies, OutcomeOf, Guarded;
      r := Derive(base);
      if !r.Ok? { return; }
      var da := r.after;
      ghost var guards := nonzero;
      r := Derive(exponent);
      if !r.Ok? { return; }
      GuardedMore(base, variable, guards, nonzero);
      GeneralPowerSound(n, base, exponent, da, r.after, variable, decimal);
      r := Ok(GeneralTree(n, base, exponent, da, r.after, decimal));
    }

    /** `call`; the language gives these functions at most two arguments. */
    method CallRule(n: Node) returns (r: Derived)
      requires Valid() && n.Call? && Varies(n, variable)
      modifies this
      ensures Valid() && old(trees) <= trees && old(nonzero) <= nonzero
      ensures r.Ok? ==> Sound(n, r.after, variable)
      ensures HasJumps(n.fn) ==> r == NotDifferentiable
      ensures Answers(r, OutcomeOf(n, variable)) && (r.Ok? ==> Guarded(n, variable, nonzero))
      decreases Size(n), 2
    {
      hide Known, Remembered, Sound, Erase, OuterSound, PowerNode, Varies;
      if HasJumps(n.fn) { return NotDifferentiable; }
      if |n.args| == 0 || |n.args| > 2 { return Unsupported; }
      var u := n.args[0];
      ArgumentSizes(n);
      if |n.args| == 1 {
        var outer := OuterOf(n.fn, n, u, decimal);
        RuleExists(n.fn, n, u, decimal);
        if outer.None? { return Unsupported; }
        CallSound(n, variable, decimal);
        if n.fn == Abs {
          RememberedGuards(memo, trees, variable, nonzero, u);
          nonzero := nonzero + [u];
          assert nonzero[|nonzero| - 1] == u;
          assert Recorded(u, nonzero);
        }
        ghost var guards := nonzero;
        r := OuterRule(n, u, outer.value);
        if n.fn == Abs { RecordedMore(u, guards, nonzero); }
        return;
      }
      var v := n.args[1];
      if n.fn == PowFn {
        PowerCall(n, variable);
        ArgumentVaries(n, variable);
        r := PowerRule(n, u, v);
        return;
      }
      var inV := VariesNow(v);
      if n.fn == Log && inV {
        LogQuotientVaries(v, variable);
        LogOutcome(u, variable);
        LogOutcome(v, variable);
        r := DivideRule(Of(Ln, u), Of(Ln, v));
        if r.Ok? { LogVaryingSound(n, r.after, variable); }
        LogGuarded(u, variable, nonzero);
        LogGuarded(v, variable, nonzero);
      } else if n.fn == Log {
        LogBaseSound(n, variable, decimal);
        r := OuterRule(n, u, FoldOver(ONE, FoldTimes(u, Of(Ln, v), decimal), decimal));
      } else if n.fn == NthRoot && !inV {
        RootSound(n, variable, decimal);
        r := OuterRule(n, u, RootTree(n, v, decimal));
      } else {
        r := Unsupported;
      }
    }

    /** Two subtrees share an id exactly when they are equal once groups and unary `+` are erased. */
    lemma SharedIds(a: Node, b: Node)
      requires Valid() && a in idOf && b in idOf
      ensures idOf[a] == idOf[b] <==> Erase(a) == Erase(b)
    {
      IdsAreExact(ids, keys, trees, idOf[a], idOf[b]);
    }
  }

  lemma Recall(memo: map<nat, Node>, trees: seq<Node>, x: nat, guards: seq<Node>, id: nat)
    requires Remembered(memo, trees, x, guards) && id in memo
    ensures id < |trees| && Sound(trees[id], memo[id], x) && OutcomeOf(trees[id], x) == Fine && Guarded(trees[id], x, guards)
  {
    hide Sound, OutcomeOf, Guarded;
  }

  lemma RememberOne(memo: map<nat, Node>, trees: seq<Node>, x: nat, guards: seq<Node>, id: nat, after: Node)
    requires Remembered(memo, trees, x, guards) && id < |trees| && Sound(trees[id], after, x)
    requires OutcomeOf(trees[id], x) == Fine && Guarded(trees[id], x, guards)
    ensures Remembered(memo[id := after], trees, x, guards)
  {
    hide Sound, OutcomeOf, Guarded;
  }

  /** A derivative of the stripped tree is one of the tree. */
  lemma SoundAlike(n: Node, x: nat)
    ensures forall after: Node :: Sound(Strip(n), after, x) <==> Sound(n, after, x)
  {
    forall after: Node ensures Sound(Strip(n), after, x) <==> Sound(n, after, x) { SoundStripped(n, after, x); }
  }

  /** A derivative of the erased tree is one of the tree. */
  lemma SoundShared(n: Node, x: nat)
    ensures forall after: Node :: Sound(Erase(n), after, x) <==> Sound(n, after, x)
  {
    forall after: Node ensures Sound(Erase(n), after, x) <==> Sound(n, after, x) { SoundErased(n, after, x); }
  }

  lemma NameVaries(n: Node, x: nat)
    requires n.Name? && Varies(n, x)
    ensures n.name == x && Sound(n, ONE, x)
  {
    VariableSound(x);
  }

  lemma ArgumentSizes(n: Node)
    requires n.Call? && 1 <= |n.args| <= 2
    ensures Size(n.args[0]) < Size(n)
    ensures |n.args| == 2 ==> Size(n.args[1]) < Size(n)
    ensures |n.args| == 2 ==> Size(Of(Ln, n.args[0])) < Size(n) && Size(Of(Ln, n.args[1])) < Size(n)
  {
    LogSize(n.args[0]);
    assert ArgsSize(n, 1) == ArgsSize(n, 0) + Size(n.args[0]);
    if |n.args| == 2 {
      LogSize(n.args[1]);
      assert ArgsSize(n, 2) == ArgsSize(n, 1) + Size(n.args[1]);
    }
  }

  lemma LogSize(u: Node)
    ensures Size(Of(Ln, u)) == 1 + Size(u)
  {
    var n := Of(Ln, u);
    assert ArgsSize(n, 1) == ArgsSize(n, 0) + Size(n.args[0]);
  }

  lemma ArgumentVaries(n: Node, x: nat)
    requires n.Call? && |n.args| == 2 && Varies(n, x)
    ensures Varies(n.args[0], x) || Varies(n.args[1], x)
  {}

  lemma LogQuotientVaries(v: Node, x: nat)
    requires Varies(v, x)
    ensures Varies(Of(Ln, v), x)
  {
    assert Of(Ln, v).args[0] == v;
  }

  lemma TermsSmaller(n: Node)
    requires n.Binary? && (n.op == Add || n.op == Sub)
    ensures forall k :: 0 <= k < |TermsOf(n)| ==> Size(TermsOf(n)[k].node) < Size(n)
  {}

  /** As many ids as keys. */
  lemma IdCount(ids: map<Key, nat>, keys: seq<Key>, trees: seq<Node>)
    requires IdTable(ids, keys, trees)
    ensures |ids| == |keys|
  {
    hide TreeOf;
    assert ids.Keys == set i | 0 <= i < |keys| :: keys[i];
    CountKeys(keys);
  }

  lemma {:induction false} CountKeys(keys: seq<Key>)
    requires forall i, j :: 0 <= i < j < |keys| ==> keys[i] != keys[j]
    ensures |set i | 0 <= i < |keys| :: keys[i]| == |keys|
  {
    if keys != [] {
      var n := |keys| - 1;
      CountKeys(keys[..n]);
      var front := set i | 0 <= i < n :: keys[i];
      assert front == set i | 0 <= i < |keys[..n]| :: keys[..n][i];
      assert (set i | 0 <= i < |keys| :: keys[i]) == front + {keys[n]};
    }
  }
}
