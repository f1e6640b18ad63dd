/** Which trees have a derivative, and which error the others end in (`plan`, `call` and `unsupported`,
    packages/cas/src/differentiate.ts). */
module Outcomes {
  import opened Options
  import opened Reals
  import opened Trees
  import opened DualNumbers
  import opened Rules
  import opened Calculus

  datatype Outcome = Fine | Jumps | NoRule

  /** Their derivative is 0 almost everywhere; 0 would hide the jumps. */
  predicate HasJumps(fn: Fn) {
    fn.Floor? || fn.Ceil? || fn.Round? || fn.Fix? || fn.Sign? || fn.Mod? || fn.MaxFn? || fn.MinFn?
  }

  /** The functions of one argument that have a rule. */
  predicate HasRule(fn: Fn) { !HasJumps(fn) && !fn.PowFn? && !fn.Other? }

  /** The functions of two arguments that have a rule. */
  predicate HasRuleOfTwo(fn: Fn, second: Node, x: nat) {
    fn.PowFn? || fn.Log? || (fn.NthRoot? && !Varies(second, x))
  }

  /** The first thing that goes wrong. */
  function First(a: Outcome, b: Outcome): Outcome { if a == Fine then b else a }

  /** What differentiating `n` ends in: parts without the variable are not looked at, a function is judged before
      its arguments, and operands go from left to right. */
  function OutcomeOf(n: Node, x: nat): Outcome
    decreases n
  {
    if !Varies(n, x) then Fine
    else
      match n
      case Name(_) => Fine
      case Group(a) => OutcomeOf(a, x)
      case Unary(_, a) => OutcomeOf(a, x)
      case Binary(_, a, b) => First(OutcomeOf(a, x), OutcomeOf(b, x))
      case Call(fn, args) =>
        if HasJumps(fn) then Jumps
        else if |args| == 1 && HasRule(fn) then OutcomeOf(args[0], x)
        else if |args| == 2 && HasRuleOfTwo(fn, args[1], x) then First(OutcomeOf(args[0], x), OutcomeOf(args[1], x))
        else NoRule
      case _ => NoRule
  }

  lemma SlopeHasRule(fn: Fn, u: real, w: real, it: Meaning)
    requires SlopeAt(fn, u, w, it).Some?
    ensures HasRule(fn)
  {
    hide Times, At, Neg, Both, Square, Inverse;
  }

  lemma CallHasRule(fn: Fn, a: Node, b: Node, da: Pair, db: Pair, w: real, x: nat, it: Meaning)
    requires CallPart(fn, a, b, da, db, w, x, it).Some?
    ensures !HasJumps(fn) && HasRuleOfTwo(fn, b, x)
  {
    hide Varies, PowerPart, QuotientPart, Times, At, Both, Inverse;
  }

  /** Wherever dual evaluation is defined, nothing goes wrong. */
  lemma {:induction false} DefinedIsFine(n: Node, x: nat, it: Meaning)
    requires Dual(n, x, it).Some?
    ensures OutcomeOf(n, x) == Fine
    decreases n, 1
  {
    if Varies(n, x) {
      hide Eval, Varies, PowerPart, QuotientPart, Times, SlopeAt, CallPart;
      match n
      case Group(a) => DefinedIsFine(a, x, it);
      case Unary(_, a) => DefinedIsFine(a, x, it);
      case Binary(_, a, b) =>
        DefinedIsFine(a, x, it);
        DefinedIsFine(b, x, it);
      case Call(_, _) => DefinedCall(n, x, it);
      case _ =>
    }
  }

  lemma {:induction false} DefinedCall(n: Node, x: nat, it: Meaning)
    requires n.Call? && Varies(n, x) && Dual(n, x, it).Some?
    ensures OutcomeOf(n, x) == Fine
    decreases n, 0
  {
    hide Eval, Varies, SlopeAt, CallPart, HasRule, HasRuleOfTwo, HasJumps, Times;
    var u := n.args[0];
    var w := Dual(n, x, it).value.v;
    DefinedIsFine(u, x, it);
    if |n.args| == 1 {
      SlopeHasRule(n.fn, Dual(u, x, it).value.v, w, it);
      RuleNoJumps(n.fn);
    } else {
      var v := n.args[1];
      DefinedIsFine(v, x, it);
      CallHasRule(n.fn, u, v, Dual(u, x, it).value, Dual(v, x, it).value, w, x, it);
    }
  }

  lemma RuleNoJumps(fn: Fn)
    ensures HasRule(fn) ==> !HasJumps(fn)
  {}

  lemma {:induction false} StripOutcome(n: Node, x: nat)
    ensures OutcomeOf(Strip(n), x) == OutcomeOf(n, x)
  {
    match n
    case Group(a) => StripOutcome(a, x);
    case Unary(negative, a) => if !negative { StripOutcome(a, x); }
    case _ =>
  }

  lemma {:induction false} EraseOutcome(n: Node, x: nat)
    ensures OutcomeOf(Erase(n), x) == OutcomeOf(n, x)
    decreases n
  {
    EraseVaries(n, x);
    match n
    case Group(a) => EraseOutcome(a, x);
    case Unary(_, a) => EraseOutcome(a, x);
    case Binary(_, a, b) =>
      EraseOutcome(a, x);
      EraseOutcome(b, x);
    case Call(fn, args) =>
      ErasedCall(n);
      hide Erase, Varies;
      if |args| == 1 { EraseOutcome(args[0], x); }
      if |args| == 2 {
        EraseOutcome(args[0], x);
        EraseOutcome(args[1], x);
        EraseVaries(args[1], x);
      }
    case _ =>
  }

  /** The functions whose rule is in the table. */
  predicate InTable(fn: Fn) {
    HasRule(fn) && !fn.Exp? && !fn.Ln? && !fn.Log? && !fn.Log10? && !fn.Log2? && !fn.Sqrt? && !fn.NthRoot?
    && !fn.Cbrt? && !fn.Abs?
  }

  lemma TableHolds(fn: Fn, u: Node, decimal: bool)
    ensures Table(fn, u, decimal).Some? <==> InTable(fn)
  {
    hide FoldOver, FoldTimes, FoldPow, FoldMinus, FoldPlus, Negate, Of, SquareOf, Reciprocal, Arcsecant;
    match fn
    case Sin => case Cos => case Tan => case Sec => case Csc => case Cot =>
    case Asin => case Acos => case Atan => case Asec => case Acsc => case Acot =>
    case Sinh => case Cosh => case Tanh => case Sech => case Csch => case Coth =>
    case Asinh => case Acosh => case Atanh => case Asech => case Acsch => case Acoth =>
    case _ =>
  }

  lemma RuleExists(fn: Fn, node: Node, u: Node, decimal: bool)
    ensures OuterOf(fn, node, u, decimal).Some? <==> HasRule(fn)
  {
    hide FoldOver, FoldTimes, FoldPow, Of, Table;
    TableHolds(fn, u, decimal);
  }

  lemma LogOutcome(u: Node, x: nat)
    ensures OutcomeOf(Of(Ln, u), x) == OutcomeOf(u, x)
  {
    assert Of(Ln, u).args[0] == u;
  }

  // ---- chains of sums ----

  function FirstOf(items: seq<Item>, k: nat, x: nat): Outcome
    requires k <= |items|
  {
    if k == 0 then Fine else First(FirstOf(items, k - 1, x), OutcomeOf(items[k - 1].node, x))
  }

  lemma {:induction false} FirstOfPrefix(items: seq<Item>, more: seq<Item>, k: nat, x: nat)
    requires k <= |items|
    ensures FirstOf(items + more, k, x) == FirstOf(items, k, x)
  {
    if k > 0 { FirstOfPrefix(items, more, k - 1, x); }
  }

  /** Once something went wrong, it stays the answer. */
  lemma {:induction false} FirstStays(items: seq<Item>, j: nat, k: nat, x: nat)
    requires j <= k <= |items| && FirstOf(items, j, x) != Fine
    ensures FirstOf(items, k, x) == FirstOf(items, j, x)
  {
    if j < k { FirstStays(items, j, k - 1, x); }
  }

  lemma SumOutcome(s: Node, x: nat)
    requires s.Binary?
    ensures OutcomeOf(s, x) == First(OutcomeOf(s.left, x), OutcomeOf(s.right, x))
  {}

  lemma FirstFine(o: Outcome)
    ensures First(Fine, o) == o
  {}

  /** A chain ends as its terms do, taken in order. */
  lemma {:induction false} ChainOutcome(n: Node, x: nat)
    ensures FirstOf(TermsOf(n), |TermsOf(n)|, x) == OutcomeOf(n, x)
    decreases Size(n)
  {
    var s := Strip(n);
    StripOutcome(n, x);
    if s.Binary? { SumOutcome(s, x); }
    hide Strip, OutcomeOf, First;
    if s.Binary? && (s.op == Add || s.op == Sub) {
      var front, last := TermsOf(s.left), Item(s.right, s.op == Sub);
      ChainOutcome(s.left, x);
      FirstOfPrefix(front, [last], |front|, x);
      var items := front + [last];
      assert items[|items| - 1] == last;
      assert FirstOf(items, |items|, x) == First(FirstOf(items, |front|, x), OutcomeOf(last.node, x));
    } else {
      var items := [Item(n, false)];
      assert FirstOf(items, 0, x) == Fine;
      FirstFine(OutcomeOf(n, x));
    }
  }

  // ---- the arguments of abs ----

  /** `guards` has a tree equal to u but for groups and unary `+`. */
  predicate Recorded(u: Node, guards: seq<Node>) { exists i :: 0 <= i < |guards| && Erase(guards[i]) == Erase(u) }

  /** The argument of every abs that differentiating n goes through is recorded. */
  predicate Guarded(n: Node, x: nat, guards: seq<Node>)
    decreases n
  {
    Varies(n, x) ==>
      match n
      case Group(a) => Guarded(a, x, guards)
      case Unary(_, a) => Guarded(a, x, guards)
      case Binary(_, a, b) => Guarded(a, x, guards) && Guarded(b, x, guards)
      case Call(fn, args) =>
        if |args| == 1 then Guarded(args[0], x, guards) && (fn.Abs? ==> Recorded(args[0], guards))
        else if |args| == 2 then Guarded(args[0], x, guards) && Guarded(args[1], x, guards)
        else true
      case _ => true
  }

  lemma ConstantIsFine(n: Node, x: nat, guards: seq<Node>)
    requires !Varies(n, x)
    ensures OutcomeOf(n, x) == Fine && Guarded(n, x, guards)
  {}

  lemma RecordedMore(u: Node, guards: seq<Node>, more: seq<Node>)
    requires Recorded(u, guards) && guards <= more
    ensures Recorded(u, more)
  {
    hide Erase;
    var i :| 0 <= i < |guards| && Erase(guards[i]) == Erase(u);
    assert more[i] == guards[i];
  }

  lemma {:induction false} GuardedMore(n: Node, x: nat, guards: seq<Node>, more: seq<Node>)
    requires Guarded(n, x, guards) && guards <= more
    ensures Guarded(n, x, more)
    decreases n
  {
    hide Varies, Recorded;
    if Varies(n, x) {
      match n
      case Group(a) => GuardedMore(a, x, guards, more);
      case Unary(_, a) => GuardedMore(a, x, guards, more);
      case Binary(_, a, b) =>
        GuardedMore(a, x, guards, more);
        GuardedMore(b, x, guards, more);
      case Call(fn, args) =>
        if |args| == 1 {
          GuardedMore(args[0], x, guards, more);
          if fn.Abs? { RecordedMore(args[0], guards, more); }
        }
        if |args| == 2 {
          GuardedMore(args[0], x, guards, more);
          GuardedMore(args[1], x, guards, more);
        }
      case _ =>
    }
  }

  lemma {:induction false} StripGuarded(n: Node, x: nat, guards: seq<Node>)
    ensures Guarded(Strip(n), x, guards) <==> Guarded(n, x, guards)
  {
    match n
    case Group(a) => StripGuarded(a, x, guards);
    case Unary(negative, a) => if !negative { StripGuarded(a, x, guards); }
    case _ =>
  }

  lemma {:induction false} EraseTwice(n: Node)
    ensures Erase(Erase(n)) == Erase(n)
    decreases n
  {
    match n
    case Group(a) => EraseTwice(a);
    case Unary(_, a) => EraseTwice(a);
    case Factorial(a) => EraseTwice(a);
    case Binary(_, a, b) =>
      EraseTwice(a);
      EraseTwice(b);
    case Call(fn, args) =>
      var m := Erase(n);
      forall i | 0 <= i < |args| ensures Erase(m.args[i]) == m.args[i] { EraseTwice(args[i]); }
      assert Erase(m).args == m.args;
    case _ =>
  }

  lemma {:induction false} EraseGuarded(n: Node, x: nat, guards: seq<Node>)
    ensures Guarded(Erase(n), x, guards) <==> Guarded(n, x, guards)
    decreases n
  {
    EraseVaries(n, x);
    match n
    case Group(a) => EraseGuarded(a, x, guards);
    case Unary(_, a) => EraseGuarded(a, x, guards);
    case Binary(_, a, b) =>
      EraseGuarded(a, x, guards);
      EraseGuarded(b, x, guards);
    case Call(fn, args) =>
      ErasedCall(n);
      hide Erase, Varies;
      if |args| == 1 {
        EraseGuarded(args[0], x, guards);
        EraseTwice(args[0]);
      }
      if |args| == 2 {
        EraseGuarded(args[0], x, guards);
        EraseGuarded(args[1], x, guards);
      }
    case _ =>
  }

  lemma LogGuarded(u: Node, x: nat, guards: seq<Node>)
    ensures Guarded(Of(Ln, u), x, guards) <==> Guarded(u, x, guards)
  {
    assert Of(Ln, u).args[0] == u;
  }

  predicate AllGuarded(items: seq<Item>, k: nat, x: nat, guards: seq<Node>)
    requires k <= |items|
  {
    forall i :: 0 <= i < k ==> Guarded(items[i].node, x, guards)
  }

  lemma AllGuardedMore(items: seq<Item>, k: nat, x: nat, guards: seq<Node>, more: seq<Node>)
    requires k <= |items| && AllGuarded(items, k, x, guards) && guards <= more
    ensures AllGuarded(items, k, x, more)
  {
    forall i | 0 <= i < k ensures Guarded(items[i].node, x, more) { GuardedMore(items[i].node, x, guards, more); }
  }

  lemma {:induction false} ChainGuarded(n: Node, x: nat, guards: seq<Node>)
    requires AllGuarded(TermsOf(n), |TermsOf(n)|, x, guards)
    ensures Guarded(n, x, guards)
    decreases Size(n)
  {
    var s := Strip(n);
    StripGuarded(n, x, guards);
    if s.Binary? { SumGuarded(s, x, guards); }
    hide Strip, Guarded;
    if s.Binary? && (s.op == Add || s.op == Sub) {
      var front, last := TermsOf(s.left), Item(s.right, s.op == Sub);
      var items := front + [last];
      assert items[|front|] == last;
      assert forall i :: 0 <= i < |front| ==> items[i] == front[i];
      ChainGuarded(s.left, x, guards);
    } else {
      assert TermsOf(n)[0].node == n;
    }
  }

  lemma SumGuarded(s: Node, x: nat, guards: seq<Node>)
    requires s.Binary?
    ensures Guarded(s.left, x, guards) && Guarded(s.right, x, guards) ==> Guarded(s, x, guards)
  {}
}
