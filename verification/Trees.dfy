/** Expression trees, their values, and the folding builder of the differentiator (`strip`, `literal` and `Fold`,
    packages/cas/src/differentiate.ts). */
module Trees {
  import opened Options
  import opened Reals
  import opened Rationals
  import opened Decimals

  datatype Op = Add | Sub | Mul | Div | Pow

  datatype Fn =
    | Exp | Ln | Log | Log10 | Log2 | Sqrt | NthRoot | Cbrt | Abs | PowFn
    | Floor | Ceil | Round | Fix | Sign | Mod | MaxFn | MinFn
    | Sin | Cos | Tan | Sec | Csc | Cot | Asin | Acos | Atan | Asec | Acsc | Acot
    | Sinh | Cosh | Tanh | Sech | Csch | Coth | Asinh | Acosh | Atanh | Asech | Acsch | Acoth
    | Other(id: nat)

  /** A number keeps its spelling beside its exact value: `1` and `1.0` are two texts of one value. */
  datatype Node =
    | Number(q: Rational, spelling: nat)
    | Name(name: nat)
    | Group(inner: Node)
    | Unary(negative: bool, arg: Node)
    | Factorial(arg: Node)
    | Binary(op: Op, left: Node, right: Node)
    | Call(fn: Fn, args: seq<Node>)

  /** The name of Euler's number. */
  const E_NAME: nat := 0

  function Arity(n: Node): nat { if n.Call? then |n.args| else 0 }

  function Size(n: Node): (s: nat)
    ensures s > 0
    decreases n, Arity(n) + 1
  {
    match n
    case Number(_, _) => 1
    case Name(_) => 1
    case Group(a) => 1 + Size(a)
    case Unary(_, a) => 1 + Size(a)
    case Factorial(a) => 1 + Size(a)
    case Binary(_, a, b) => 1 + Size(a) + Size(b)
    case Call(_, args) => 1 + ArgsSize(n, |args|)
  }

  function ArgsSize(n: Node, k: nat): (s: nat)
    requires n.Call? && k <= |n.args|
    ensures s >= k
    ensures forall i :: 0 <= i < k ==> Size(n.args[i]) <= s
    decreases n, k
  {
    if k == 0 then 0 else ArgsSize(n, k - 1) + Size(n.args[k - 1])
  }

  // ---- values ----

  /** A meaning for names, functions, powers and factorials; none where undefined. */
  datatype Meaning = Meaning(
    name: nat -> real,
    fn: (Fn, seq<real>) -> Option<real>,
    pow: (real, real) -> Option<real>,
    fact: real -> Option<real>)

  /** The laws of powers that folding uses, and that `pow(a, b)` is the power. */
  ghost predicate Lawful(it: Meaning) {
    && (forall a :: it.pow(a, 0.0) == Some(1.0) && it.pow(a, 1.0) == Some(a) && it.pow(a, 2.0) == Some(Times(a, a)))
    && (forall a, b :: it.fn(PowFn, [a, b]) == it.pow(a, b))
  }

  function Eval(n: Node, it: Meaning): Option<real>
    decreases n, Arity(n) + 1
  {
    match n
    case Number(q, _) => Some(Val(q))
    case Name(x) => Some(it.name(x))
    case Group(a) => Eval(a, it)
    case Unary(negative, a) =>
      var u := Eval(a, it);
      if u.None? then None else Some(if negative then -u.value else u.value)
    case Factorial(a) =>
      var u := Eval(a, it);
      if u.None? then None else it.fact(u.value)
    case Binary(op, a, b) =>
      var u, v := Eval(a, it), Eval(b, it);
      if u.None? || v.None? then None else Apply(op, u.value, v.value, it)
    case Call(fn, args) =>
      var us := EvalArgs(n, |args|, it);
      if us.None? then None else it.fn(fn, us.value)
  }

  function Apply(op: Op, u: real, v: real, it: Meaning): Option<real> {
    match op
    case Add => Some(u + v)
    case Sub => Some(u - v)
    case Mul => Some(Times(u, v))
    case Div => if v == 0.0 then None else Some(u / v)
    case Pow => it.pow(u, v)
  }

  function EvalArgs(n: Node, k: nat, it: Meaning): (us: Option<seq<real>>)
    requires n.Call? && k <= |n.args|
    ensures us.Some? ==> |us.value| == k
    decreases n, k
  {
    if k == 0 then Some([])
    else
      var front, last := EvalArgs(n, k - 1, it), Eval(n.args[k - 1], it);
      if front.None? || last.None? then None else Some(front.value + [last.value])
  }

  // ---- strip and literal ----

  /** Groups and unary `+` are transparent. */
  function Strip(n: Node): (r: Node)
    ensures Size(r) <= Size(n)
    ensures !r.Group? && (r.Unary? ==> r.negative)
  {
    match n
    case Group(a) => Strip(a)
    case Unary(negative, a) => if negative then n else Strip(a)
    case _ => n
  }

  /** The exact value of a literal tree. */
  function Literal(n: Node): Option<Rational> {
    match n
    case Number(q, _) => Some(q)
    case Group(a) => Literal(a)
    case Unary(negative, a) =>
      var q := Literal(a);
      if !negative || q.None? then q else Some(Negated(q.value))
    case Binary(op, a, b) =>
      if op != Div then None
      else
        var p, q := Literal(a), Literal(b);
        if p.None? || q.None? || q.value.n == 0 then None else Some(Divided(p.value, q.value))
    case _ => None
  }

  /** Groups and unary `+` erased everywhere. */
  function Erase(n: Node): Node
    decreases n
  {
    match n
    case Group(a) => Erase(a)
    case Unary(negative, a) => if negative then Unary(true, Erase(a)) else Erase(a)
    case Factorial(a) => Factorial(Erase(a))
    case Binary(op, a, b) => Binary(op, Erase(a), Erase(b))
    case Call(fn, args) => Call(fn, seq(|args|, i requires 0 <= i < |args| => Erase(args[i])))
    case _ => n
  }

  // ---- Fold ----

  const ZERO: Node := Number(Fraction(0, 1), 0)
  const ONE: Node := Number(Fraction(1, 1), 0)
  const TWO: Node := Number(Fraction(2, 1), 0)

  /** `value`: the literal tree of a rational. */
  function Value(q: Rational, decimal: bool): Node
    decreases q.n < 0
  {
    if q.n < 0 then Unary(true, Value(Negated(q), decimal))
    else if q.d == 1 || (decimal && Terminates(q)) then Number(q, 0)
    else Binary(Div, Number(Fraction(q.n, 1), 0), Number(Fraction(q.d, 1), 0))
  }

  predicate IsInt(q: Option<Rational>, k: int) { q.Some? && q.value.n == k * q.value.d }

  function Negate(a: Node, decimal: bool): Node {
    var n, la := Strip(a), Literal(a);
    if la.Some? then Value(Negated(la.value), decimal)
    else if n.Unary? then n.arg
    else Unary(true, a)
  }

  function FoldPlus(a: Node, b: Node, decimal: bool): Node {
    var la, lb, nb := Literal(a), Literal(b), Strip(b);
    if la.Some? && lb.Some? then Value(Plus(la.value, lb.value), decimal)
    else if IsInt(la, 0) then b
    else if IsInt(lb, 0) then a
    else if lb.Some? && lb.value.n < 0 then Binary(Sub, a, Value(Negated(lb.value), decimal))
    else if nb.Unary? then Binary(Sub, a, nb.arg)
    else Binary(Add, a, b)
  }

  function FoldMinus(a: Node, b: Node, decimal: bool): Node {
    var la, lb, nb := Literal(a), Literal(b), Strip(b);
    if la.Some? && lb.Some? then Value(Minus(la.value, lb.value), decimal)
    else if IsInt(lb, 0) then a
    else if IsInt(la, 0) then Negate(b, decimal)
    else if lb.Some? && lb.value.n < 0 then Binary(Add, a, Value(Negated(lb.value), decimal))
    else if nb.Unary? then Binary(Add, a, nb.arg)
    else Binary(Sub, a, b)
  }

  function FoldTimes(a: Node, b: Node, decimal: bool): Node
    decreases Size(a) + Size(b)
  {
    var la, lb, na, nb := Literal(a), Literal(b), Strip(a), Strip(b);
    if la.Some? && lb.Some? then Value(Multiplied(la.value, lb.value), decimal)
    else if IsInt(la, 0) || IsInt(lb, 0) then ZERO
    else if IsInt(la, 1) then b
    else if IsInt(lb, 1) then a
    else if IsInt(la, -1) then Negate(b, decimal)
    else if IsInt(lb, -1) then Negate(a, decimal)
    else if na.Unary? then Negate(FoldTimes(na.arg, b, decimal), decimal)
    else if nb.Unary? then Negate(FoldTimes(a, nb.arg, decimal), decimal)
    else if lb.None? then Binary(Mul, a, b)
    else Binary(Mul, b, a)
  }

  function FoldOver(a: Node, b: Node, decimal: bool): Node {
    var la, lb := Literal(a), Literal(b);
    if la.Some? && lb.Some? && lb.value.n != 0 then Value(Divided(la.value, lb.value), decimal)
    else if IsInt(lb, 1) then a
    else if IsInt(la, 0) && !IsInt(lb, 0) then ZERO
    else Binary(Div, a, b)
  }

  function FoldPow(a: Node, b: Node): Node {
    var lb := Literal(b);
    if IsInt(lb, 0) then ONE else if IsInt(lb, 1) then a else Binary(Pow, a, b)
  }

  // ---- folding keeps the value ----

  lemma {:induction false} StripEval(n: Node, it: Meaning)
    ensures Eval(Strip(n), it) == Eval(n, it)
  {
    match n
    case Group(a) => StripEval(a, it);
    case Unary(negative, a) => if !negative { StripEval(a, it); }
    case _ =>
  }

  lemma {:induction false} LiteralEval(n: Node, it: Meaning)
    requires Literal(n).Some?
    ensures Eval(n, it) == Some(Val(Literal(n).value))
  {
    hide Val, Divided;
    match n
    case Number(_, _) =>
    case Group(a) => LiteralEval(a, it);
    case Unary(negative, a) =>
      LiteralEval(a, it);
      NegatedValue(Literal(a).value);
    case Binary(_, a, b) =>
      LiteralEval(a, it);
      LiteralEval(b, it);
      DividedValue(Literal(a).value, Literal(b).value);
  }

  lemma IntValue(q: Rational, k: int)
    requires q.n == k * q.d
    ensures Val(q) == k as real
  {
    ValueTimes(q);
    IntTimes(k, q.d);
    SameRatio(q.n as real, q.d as real, k as real, 1.0);
  }

  lemma WholeValue(k: int)
    ensures Val(Fraction(k, 1)) == k as real
  {}

  lemma ValueEval(q: Rational, decimal: bool, it: Meaning)
    ensures Eval(Value(q, decimal), it) == Some(Val(q))
    decreases q.n < 0
  {
    if q.n < 0 {
      ValueEval(Negated(q), decimal, it);
      NegatedValue(q);
    } else if q.d != 1 && !(decimal && Terminates(q)) {
      WholeValue(q.n);
      WholeValue(q.d);
    }
  }

  lemma NegateEval(a: Node, decimal: bool, it: Meaning, u: real)
    requires Eval(a, it) == Some(u)
    ensures Eval(Negate(a, decimal), it) == Some(-u)
  {
    StripEval(a, it);
    if Literal(a).Some? {
      hide Val, Value;
      LiteralEval(a, it);
      NegatedValue(Literal(a).value);
      ValueEval(Negated(Literal(a).value), decimal, it);
    }
  }

  /** What a literal operand is worth, in each of the cases folding tells apart. */
  lemma LiteralCases(a: Node, it: Meaning, u: real)
    requires Eval(a, it) == Some(u)
    ensures Literal(a).Some? ==> Val(Literal(a).value) == u
    ensures IsInt(Literal(a), 0) ==> u == 0.0
    ensures IsInt(Literal(a), 1) ==> u == 1.0
    ensures IsInt(Literal(a), -1) ==> u == -1.0
  {
    if Literal(a).Some? {
      hide Val;
      LiteralEval(a, it);
      var q := Literal(a).value;
      if q.n == 0 * q.d { IntValue(q, 0); }
      if q.n == 1 * q.d { IntValue(q, 1); }
      if q.n == -1 * q.d { IntValue(q, -1); }
    }
  }

  /** A stripped minus sign. */
  lemma StripMinus(b: Node, it: Meaning, v: real)
    requires Eval(b, it) == Some(v) && Strip(b).Unary?
    ensures Eval(Strip(b).arg, it) == Some(-v)
  {
    StripEval(b, it);
  }

  lemma BinaryEval(op: Op, a: Node, b: Node, it: Meaning, u: real, v: real)
    requires Eval(a, it) == Some(u) && Eval(b, it) == Some(v)
    ensures Eval(Binary(op, a, b), it) == Apply(op, u, v, it)
  {}

  lemma PlusEval(a: Node, b: Node, decimal: bool, it: Meaning, u: real, v: real)
    requires Eval(a, it) == Some(u) && Eval(b, it) == Some(v)
    ensures Eval(FoldPlus(a, b, decimal), it) == Some(u + v)
  {
    hide Eval, Literal, Strip, Value, Val, IsInt, Plus, Apply;
    LiteralCases(a, it, u);
    LiteralCases(b, it, v);
    var la, lb := Literal(a), Literal(b);
    if la.Some? && lb.Some? {
      PlusValue(la.value, lb.value);
      ValueEval(Plus(la.value, lb.value), decimal, it);
    } else if IsInt(la, 0) || IsInt(lb, 0) {
    } else if lb.Some? && lb.value.n < 0 {
      NegatedValue(lb.value);
      ValueEval(Negated(lb.value), decimal, it);
      AddSubEval(a, Value(Negated(lb.value), decimal), it, u, -v);
    } else if Strip(b).Unary? {
      StripMinus(b, it, v);
      AddSubEval(a, Strip(b).arg, it, u, -v);
    } else {
      AddSubEval(a, b, it, u, v);
    }
  }

  lemma AddSubEval(a: Node, b: Node, it: Meaning, u: real, v: real)
    requires Eval(a, it) == Some(u) && Eval(b, it) == Some(v)
    ensures Eval(Binary(Add, a, b), it) == Some(u + v) && Eval(Binary(Sub, a, b), it) == Some(u - v)
  {
    BinaryEval(Add, a, b, it, u, v);
    BinaryEval(Sub, a, b, it, u, v);
  }

  lemma MinusEval(a: Node, b: Node, decimal: bool, it: Meaning, u: real, v: real)
    requires Eval(a, it) == Some(u) && Eval(b, it) == Some(v)
    ensures Eval(FoldMinus(a, b, decimal), it) == Some(u - v)
  {
    hide Eval, Literal, Strip, Value, Val, IsInt, Plus, Apply, Negate;
    LiteralCases(a, it, u);
    LiteralCases(b, it, v);
    NegateEval(b, decimal, it, v);
    var la, lb := Literal(a), Literal(b);
    if la.Some? && lb.Some? {
      NegatedValue(lb.value);
      PlusValue(la.value, Negated(lb.value));
      ValueEval(Minus(la.value, lb.value), decimal, it);
    } else if IsInt(lb, 0) || IsInt(la, 0) {
    } else if lb.Some? && lb.value.n < 0 {
      NegatedValue(lb.value);
      ValueEval(Negated(lb.value), decimal, it);
      AddSubEval(a, Value(Negated(lb.value), decimal), it, u, -v);
    } else if Strip(b).Unary? {
      StripMinus(b, it, v);
      AddSubEval(a, Strip(b).arg, it, u, -v);
    } else {
      AddSubEval(a, b, it, u, v);
    }
  }

  /** A product with a literal 0, 1 or -1. */
  predicate UnitFactor(q: Option<Rational>) { IsInt(q, 0) || IsInt(q, 1) || IsInt(q, -1) }

  lemma UnitTimesEval(a: Node, b: Node, decimal: bool, it: Meaning, u: real, v: real)
    requires Eval(a, it) == Some(u) && Eval(b, it) == Some(v)
    requires !(Literal(a).Some? && Literal(b).Some?) && (UnitFactor(Literal(a)) || UnitFactor(Literal(b)))
    ensures Eval(FoldTimes(a, b, decimal), it) == Some(Times(u, v))
  {
    WholeValue(0);
    assert Eval(ZERO, it) == Some(Val(Fraction(0, 1)));
    hide Eval, Literal, Strip, Value, Val, IsInt, Negate, Times, Multiplied;
    LiteralCases(a, it, u);
    LiteralCases(b, it, v);
    NegateEval(a, decimal, it, u);
    NegateEval(b, decimal, it, v);
    TimesUnit(u);
    TimesUnit(v);
    TimesMinus(u, v);
  }

  lemma MulEval(a: Node, b: Node, it: Meaning, u: real, v: real)
    requires Eval(a, it) == Some(u) && Eval(b, it) == Some(v)
    ensures Eval(Binary(Mul, a, b), it) == Some(Times(u, v)) && Eval(Binary(Mul, b, a), it) == Some(Times(u, v))
  {
    BinaryEval(Mul, a, b, it, u, v);
    BinaryEval(Mul, b, a, it, v, u);
    TimesMinus(u, v);
  }

  lemma {:induction false} TimesEval(a: Node, b: Node, decimal: bool, it: Meaning, u: real, v: real)
    requires Eval(a, it) == Some(u) && Eval(b, it) == Some(v)
    ensures Eval(FoldTimes(a, b, decimal), it) == Some(Times(u, v))
    decreases Size(a) + Size(b)
  {
    var la, lb, na, nb := Literal(a), Literal(b), Strip(a), Strip(b);
    assert na.Unary? ==> Size(na.arg) < Size(a);
    assert nb.Unary? ==> Size(nb.arg) < Size(b);
    hide Eval, Literal, Strip, Value, Val, IsInt, Negate, Times, Multiplied, Size;
    TimesMinus(u, v);
    if la.Some? && lb.Some? {
      LiteralCases(a, it, u);
      LiteralCases(b, it, v);
      MultipliedValue(la.value, lb.value);
      ValueEval(Multiplied(la.value, lb.value), decimal, it);
    } else if UnitFactor(la) || UnitFactor(lb) {
      UnitTimesEval(a, b, decimal, it, u, v);
    } else if na.Unary? {
      StripMinus(a, it, u);
      TimesEval(na.arg, b, decimal, it, -u, v);
      NegateEval(FoldTimes(na.arg, b, decimal), decimal, it, Times(-u, v));
    } else if nb.Unary? {
      StripMinus(b, it, v);
      TimesEval(a, nb.arg, decimal, it, u, -v);
      NegateEval(FoldTimes(a, nb.arg, decimal), decimal, it, Times(u, -v));
    } else {
      MulEval(a, b, it, u, v);
    }
  }

  lemma TimesMinus(u: real, v: real)
    ensures Times(-u, v) == -Times(u, v) && Times(u, -v) == -Times(u, v)
    ensures Times(-1.0, v) == -v && Times(u, -1.0) == -u && Times(u, v) == Times(v, u)
  {}

  lemma OverEval(a: Node, b: Node, decimal: bool, it: Meaning, u: real, v: real)
    requires Eval(a, it) == Some(u) && Eval(b, it) == Some(v) && v != 0.0
    ensures Eval(FoldOver(a, b, decimal), it) == Some(u / v)
  {
    WholeValue(0);
    assert Eval(ZERO, it) == Some(Val(Fraction(0, 1)));
    hide Eval, Literal, Value, Val, Divided;
    LiteralCases(a, it, u);
    LiteralCases(b, it, v);
    BinaryEval(Div, a, b, it, u, v);
    var la, lb := Literal(a), Literal(b);
    if la.Some? && lb.Some? && lb.value.n != 0 {
      DividedValue(la.value, lb.value);
      ValueEval(Divided(la.value, lb.value), decimal, it);
    }
  }

  lemma PowEval(a: Node, b: Node, it: Meaning, u: real, v: real, w: real)
    requires Lawful(it) && Eval(a, it) == Some(u) && Eval(b, it) == Some(v) && it.pow(u, v) == Some(w)
    ensures Eval(FoldPow(a, b), it) == Some(w)
  {
    WholeValue(1);
    assert Eval(ONE, it) == Some(Val(Fraction(1, 1)));
    hide Eval, Literal, Val;
    LiteralCases(b, it, v);
    BinaryEval(Pow, a, b, it, u, v);
  }
}
