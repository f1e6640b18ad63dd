/** What the derivative of a tree means: evaluation over dual numbers v + e*eps, with the textbook derivative of each
    power and function. The differentiator's rules (packages/cas/src/differentiate.ts) are proved against it. */
module DualNumbers {
  import opened Options
  import opened Reals
  import opened Rationals
  import opened Trees

  /** True when the tree contains the variable. */
  predicate Varies(n: Node, x: nat)
    decreases n
  {
    match n
    case Number(_, _) => false
    case Name(y) => y == x
    case Group(a) => Varies(a, x)
    case Unary(_, a) => Varies(a, x)
    case Factorial(a) => Varies(a, x)
    case Binary(_, a, b) => Varies(a, x) || Varies(b, x)
    case Call(_, args) => exists i :: 0 <= i < |args| && Varies(args[i], x)
  }

  datatype Pair = Pair(v: real, e: real)

  // ---- partial arithmetic ----

  function Neg(a: Option<real>): Option<real> { if a.None? then None else Some(-a.value) }

  function Both(a: Option<real>, b: Option<real>): Option<real> {
    if a.None? || b.None? then None else Some(Times(a.value, b.value))
  }

  function Square(a: Option<real>): Option<real> { Both(a, a) }

  function Inverse(a: Option<real>): Option<real> { if a.None? || a.value == 0.0 then None else Some(1.0 / a.value) }

  /** A function of one argument. */
  function At(it: Meaning, fn: Fn, u: real): Option<real> { it.fn(fn, [u]) }

  // ---- derivatives of functions of one argument ----

  /** f'(u) for the functions of the rule table. */
  function Slope(fn: Fn, u: real, it: Meaning): Option<real> {
    var uu := Times(u, u);
    match fn
    case Sin => At(it, Cos, u)
    case Cos => Neg(At(it, Sin, u))
    case Tan => Square(At(it, Sec, u))
    case Sec => Both(At(it, Sec, u), At(it, Tan, u))
    case Csc => Neg(Both(At(it, Csc, u), At(it, Cot, u)))
    case Cot => Neg(Square(At(it, Csc, u)))
    case Asin => Inverse(At(it, Sqrt, 1.0 - uu))
    case Acos => Neg(Inverse(At(it, Sqrt, 1.0 - uu)))
    case Atan => Inverse(Some(1.0 + uu))
    case Asec => Inverse(Both(At(it, Abs, u), At(it, Sqrt, uu - 1.0)))
    case Acsc => Neg(Inverse(Both(At(it, Abs, u), At(it, Sqrt, uu - 1.0))))
    case Acot => Neg(Inverse(Some(1.0 + uu)))
    case Sinh => At(it, Cosh, u)
    case Cosh => At(it, Sinh, u)
    case Tanh => Square(At(it, Sech, u))
    case Sech => Neg(Both(At(it, Sech, u), At(it, Tanh, u)))
    case Csch => Neg(Both(At(it, Csch, u), At(it, Coth, u)))
    case Coth => Neg(Square(At(it, Csch, u)))
    case Asinh => Inverse(At(it, Sqrt, uu + 1.0))
    case Acosh => Inverse(At(it, Sqrt, uu - 1.0))
    case Atanh => Inverse(Some(1.0 - uu))
    case Asech => Neg(Inverse(Both(Some(u), At(it, Sqrt, 1.0 - uu))))
    case Acsch => Neg(Inverse(Both(At(it, Abs, u), At(it, Sqrt, 1.0 + uu))))
    case Acoth => Inverse(Some(1.0 - uu))
    case _ => None
  }

  /** f'(u) when f(u) = w, for every function of one argument that has a rule. */
  function SlopeAt(fn: Fn, u: real, w: real, it: Meaning): Option<real> {
    match fn
    case Exp => Some(w)
    case Ln => Inverse(Some(u))
    case Log => Inverse(Some(u))
    case Log10 => Inverse(Both(Some(u), At(it, Ln, 10.0)))
    case Log2 => Inverse(Both(Some(u), At(it, Ln, 2.0)))
    case Sqrt => Inverse(Some(Times(2.0, w)))
    case NthRoot => Inverse(Some(Times(2.0, w)))
    case Cbrt => Inverse(Some(Times(3.0, Times(w, w))))
    case Abs => if u == 0.0 then None else At(it, Sign, u)
    case _ => Slope(fn, u, it)
  }

  // ---- dual evaluation ----

  predicate IsE(n: Node) { Strip(n).Name? && Strip(n).name == E_NAME }

  /** The e-part of a power with value w. */
  function PowerPart(a: Node, b: Node, da: Pair, db: Pair, w: real, x: nat, it: Meaning): Option<real> {
    var ln := At(it, Ln, da.v);
    if !Varies(b, x) then
      if IsInt(Literal(b), 0) then Some(0.0)
      else
        var p := it.pow(da.v, db.v - 1.0);
        if p.None? then None else Some(Times(Times(db.v, p.value), da.e))
    else if !Varies(a, x) then
      if IsE(a) then Some(Times(w, db.e))
      else if ln.None? then None else Some(Times(Times(w, ln.value), db.e))
    else if ln.None? || da.v == 0.0 then None
    else Some(Times(w, Times(db.e, ln.value) + Times(db.v, da.e) / da.v))
  }

  /** (a/b)' for values and e-parts. */
  function QuotientPart(a: Pair, b: Pair): Option<real> {
    if b.v == 0.0 then None
    else
      NonzeroProduct(b.v, b.v);
      Some((Times(a.e, b.v) - Times(a.v, b.e)) / Times(b.v, b.v))
  }

  /** The e-part of a call of two arguments with value w. */
  function CallPart(fn: Fn, a: Node, b: Node, da: Pair, db: Pair, w: real, x: nat, it: Meaning): Option<real> {
    if fn == PowFn then PowerPart(a, b, da, db, w, x, it)
    else if fn == Log && Varies(b, x) then
      var p, q := At(it, Ln, da.v), At(it, Ln, db.v);
      if p.None? || q.None? || da.v == 0.0 || db.v == 0.0 then None
      else QuotientPart(Pair(p.value, Times(1.0 / da.v, da.e)), Pair(q.value, Times(1.0 / db.v, db.e)))
    else if fn == Log then
      var slope := Inverse(Both(Some(da.v), At(it, Ln, db.v)));
      if slope.None? then None else Some(Times(slope.value, da.e))
    else if fn == NthRoot && !Varies(b, x) then
      var slope := Inverse(Both(Some(db.v), it.pow(w, db.v - 1.0)));
      if slope.None? then None else Some(Times(slope.value, da.e))
    else None
  }

  /** Value and derivative together. A tree without the variable has e-part 0. */
  function Dual(n: Node, x: nat, it: Meaning): (r: Option<Pair>)
    ensures r.Some? ==> Eval(n, it) == Some(r.value.v)
    decreases n
  {
    var w := Eval(n, it);
    if w.None? then None
    else if !Varies(n, x) then Some(Pair(w.value, 0.0))
    else
      match n
      case Name(_) => Some(Pair(w.value, 1.0))
      case Group(a) => Dual(a, x, it)
      case Unary(negative, a) =>
        var d := Dual(a, x, it);
        if d.None? then None else Some(if negative then Pair(-d.value.v, -d.value.e) else d.value)
      case Binary(op, a, b) =>
        var da, db := Dual(a, x, it), Dual(b, x, it);
        if da.None? || db.None? then None
        else
          var e :=
            match op
            case Add => Some(da.value.e + db.value.e)
            case Sub => Some(da.value.e - db.value.e)
            case Mul => Some(Times(da.value.e, db.value.v) + Times(da.value.v, db.value.e))
            case Div => QuotientPart(da.value, db.value)
            case Pow => PowerPart(a, b, da.value, db.value, w.value, x, it);
          if e.None? then None else Some(Pair(w.value, e.value))
      case Call(fn, args) =>
        if |args| == 1 then
          var d := Dual(args[0], x, it);
          if d.None? then None
          else
            var slope := SlopeAt(fn, d.value.v, w.value, it);
            if slope.None? then None else Some(Pair(w.value, Times(slope.value, d.value.e)))
        else if |args| == 2 then
          var da, db := Dual(args[0], x, it), Dual(args[1], x, it);
          if da.None? || db.None? then None
          else
            var e := CallPart(fn, args[0], args[1], da.value, db.value, w.value, x, it);
            if e.None? then None else Some(Pair(w.value, e.value))
        else None
      case _ => None
  }

  /** A tree that has the value of the derivative wherever dual evaluation is defined. */
  ghost predicate Sound(n: Node, after: Node, x: nat) {
    forall it: Meaning :: Lawful(it) && Dual(n, x, it).Some? ==> Eval(after, it) == Some(Dual(n, x, it).value.e)
  }
}
