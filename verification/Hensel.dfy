/** The loops for products and division modulo p and modulo m (packages/cas/src/factor.ts). */
module Hensel {
  import opened Options
  import opened Arith
  import opened DensePoly

  /** The invariant of the source's `Fp` lists: residues, no trailing zeros. */
  predicate Residues(f: seq<int>, p: int) { Reduced(f, p) && Trimmed(f) }

  /** a and b generate 1 modulo p. */
  ghost predicate CoprimePoly(a: seq<int>, b: seq<int>, p: int)
    requires p > 0
  {
    exists s: seq<int>, t: seq<int> :: BezoutFor(a, b, s, t, p)
  }

  ghost predicate BezoutFor(a: seq<int>, b: seq<int>, s: seq<int>, t: seq<int>, m: int)
    requires m > 0
  {
    Cong(Add(Mul(s, a), Mul(t, b)), [1], m)
  }

  // ---- rows of the schoolbook loops ----

  /** One row of `zMul`: out[i + j] += c·b[j]. */
  method AddRow(out: array<int>, i: nat, c: int, b: seq<int>)
    requires i + |b| <= out.Length
    modifies out
    ensures forall k :: 0 <= k < out.Length ==> out[k] == old(out[k]) + Coef(Shift(Scale(c, b), i), k)
  {
    for j := 0 to |b|
      invariant forall k :: 0 <= k < i + j ==> out[k] == old(out[k]) + Coef(Shift(Scale(c, b), i), k)
      invariant forall k :: i + j <= k < out.Length ==> out[k] == old(out[k])
    {
      assert Coef(Shift(Scale(c, b), i), i + j) == c * b[j];
      out[i + j] := out[i + j] + c * b[j];
    }
  }

  /** One elimination row of `zDivmodMonic`: r[i + j] = (r[i + j] - c·b[j]) % m, truncating. */
  method EliminateRow(r: array<int>, i: nat, c: int, b: seq<int>, m: int)
    requires i + |b| <= r.Length && m > 0
    modifies r
    ensures forall k :: 0 <= k < i || i + |b| <= k < r.Length ==> r[k] == old(r[k])
    ensures forall k :: i <= k < i + |b| ==> r[k] == TruncMod(old(r[k]) - c * b[k - i], m)
  {
    for j := 0 to |b|
      invariant forall k :: 0 <= k < i || i + j <= k < r.Length ==> r[k] == old(r[k])
      invariant forall k :: i <= k < i + j ==> r[k] == TruncMod(old(r[k]) - c * b[k - i], m)
    {
      r[i + j] := TruncMod(r[i + j] - c * b[j], m);
    }
  }

  /** One elimination row of `fpDivmod`, with least non-negative residues. */
  method EliminateResidues(r: array<int>, i: nat, c: int, b: seq<int>, p: int)
    requires i + |b| <= r.Length && p > 0
    modifies r
    ensures forall k :: 0 <= k < i || i + |b| <= k < r.Length ==> r[k] == old(r[k])
    ensures forall k :: i <= k < i + |b| ==> r[k] == (old(r[k]) - c * b[k - i]) % p
  {
    for j := 0 to |b|
      invariant forall k :: 0 <= k < i || i + j <= k < r.Length ==> r[k] == old(r[k])
      invariant forall k :: i <= k < i + j ==> r[k] == (old(r[k]) - c * b[k - i]) % p
    {
      r[i + j] := (r[i + j] - c * b[j]) % p;
    }
  }

  // ---- products ----

  /** Adding one more row extends the partial product by one coefficient. */
  lemma RowStep(out: seq<int>, next: seq<int>, a: seq<int>, b: seq<int>, i: nat)
    requires i < |a| && Same(out, Mul(a[..i], b)) && |next| == |out| >= i + |b|
    requires forall k :: 0 <= k < |out| ==> next[k] == out[k] + Coef(Shift(Scale(a[i], b), i), k)
    ensures Same(next, Mul(a[..i + 1], b))
  {
    var row := Shift(Scale(a[i], b), i);
    assert next == RawAdd(out, row);
    assert a[..i + 1][..i] == a[..i] && Lead(a[..i + 1]) == a[i];
    MulSplitTop(a[..i + 1], b);
    forall x: int ensures Eval(next, x) == Eval(Mul(a[..i + 1], b), x) {
      EvalRawAdd(out, row, x);
      EvalAdd(Mul(a[..i], b), row, x);
      assert Eval(out, x) == Eval(Mul(a[..i], b), x);
    }
  }

  /** `zMul`: the in-place schoolbook loop computes the product. */
  method ZMul(a: seq<int>, b: seq<int>) returns (r: seq<int>)
    ensures r == Mul(a, b)
  {
    if |a| == 0 || |b| == 0 { return []; }
    var out := new int[|a| + |b| - 1](_ => 0);
    forall x: int ensures Eval(out[..], x) == Eval(Mul(a[..0], b), x) { EvalZeros(out[..], x); }
    for i := 0 to |a|
      invariant Same(out[..], Mul(a[..i], b))
    {
      ghost var before := out[..];
      AddRow(out, i, a[i], b);
      RowStep(before, out[..], a, b, i);
    }
    assert a[..|a|] == a;
    r := Trim(out[..]);
    forall x: int ensures Eval(r, x) == Eval(Mul(a, b), x) { EvalTrim(out[..], x); }
    Canonical(r, Mul(a, b));
  }

  /** One row of `fpMul`: out[i + j] = (out[i + j] + c·b[j]) % p. */
  method AddRowMod(out: array<int>, i: nat, c: int, b: seq<int>, p: int)
    requires i + |b| <= out.Length && p > 0
    modifies out
    ensures forall k :: 0 <= k < i || i + |b| <= k < out.Length ==> out[k] == old(out[k])
    ensures forall k :: i <= k < i + |b| ==> out[k] == (old(out[k]) + c * b[k - i]) % p
  {
    for j := 0 to |b|
      invariant forall k :: 0 <= k < i || i + j <= k < out.Length ==> out[k] == old(out[k])
      invariant forall k :: i <= k < i + j ==> out[k] == (old(out[k]) + c * b[k - i]) % p
    {
      out[i + j] := (out[i + j] + c * b[j]) % p;
    }
  }

  /** Reducing every entry of a row keeps the partial product modulo p. */
  lemma RowStepMod(out: seq<int>, next: seq<int>, a: seq<int>, b: seq<int>, i: nat, p: int)
    requires p > 0 && i < |a| && |next| == |out| >= i + |b|
    requires Cong(out, Mul(a[..i], b), p)
    requires forall k :: 0 <= k < i || i + |b| <= k < |out| ==> next[k] == out[k]
    requires forall k :: i <= k < i + |b| ==> next[k] == (out[k] + a[i] * b[k - i]) % p
    ensures Cong(next, Mul(a[..i + 1], b), p)
  {
    var row := Shift(Scale(a[i], b), i);
    forall k: int ensures (Coef(next, k) - Coef(Add(out, row), k)) % p == 0 {
      assert Coef(Add(out, row), k) == Coef(RawAdd(out, row), k) == Coef(out, k) + Coef(row, k);
      if i <= k < i + |b| { assert Coef(row, k) == a[i] * b[k - i]; }
      ResidueEntry(Coef(next, k), Coef(out, k) + Coef(row, k), p);
    }
    RowStepCong(out, next, a, b, i, p);
  }

  lemma RowStepCong(out: seq<int>, next: seq<int>, a: seq<int>, b: seq<int>, i: nat, p: int)
    requires p > 0 && i < |a| && Cong(out, Mul(a[..i], b), p)
    requires Cong(next, Add(out, Shift(Scale(a[i], b), i)), p)
    ensures Cong(next, Mul(a[..i + 1], b), p)
  {
    hide Cong, Same, Mul, Add, Shift, Scale;
    var row := Shift(Scale(a[i], b), i);
    assert a[..i + 1][..i] == a[..i] && Lead(a[..i + 1]) == a[i];
    MulSplitTop(a[..i + 1], b);
    CongSame(Mul(a[..i + 1], b), Add(Mul(a[..i], b), row), p);
    CongSym(Mul(a[..i + 1], b), Add(Mul(a[..i], b), row), p);
    CongRefl(row, p);
    CongAdd(out, row, Mul(a[..i], b), row, p);
    CongTrans(next, Add(out, row), Add(Mul(a[..i], b), row), p);
    CongTrans(next, Add(Mul(a[..i], b), row), Mul(a[..i + 1], b), p);
  }

  lemma ModUnique(r: seq<int>, f: seq<int>, p: int)
    requires p > 0 && Residues(r, p) && Cong(r, f, p)
    ensures r == Mod(f, p)
  {
    hide Cong;
    ModCong(f, p);
    CongSym(Mod(f, p), f, p);
    CongTrans(r, f, Mod(f, p), p);
    CongReduced(r, Mod(f, p), p);
  }

  /** `fpMul`: the product of residues, reduced at every addition. */
  method FpMul(a: seq<int>, b: seq<int>, p: int) returns (r: seq<int>)
    requires p > 0
    ensures r == Mod(Mul(a, b), p)
  {
    if |a| == 0 || |b| == 0 {
      assert Mul(a, b) == [];
      return [];
    }
    var out := new int[|a| + |b| - 1](_ => 0);
    assert a[..0] == [] && Mul(a[..0], b) == [];
    assert Cong(out[..], Mul(a[..0], b), p);
    for i := 0 to |a|
      invariant Cong(out[..], Mul(a[..i], b), p)
      invariant Reduced(out[..], p)
    {
      hide Cong, Mul;
      ghost var before := out[..];
      AddRowMod(out, i, a[i], b, p);
      RowStepMod(before, out[..], a, b, i, p);
    }
    assert a[..|a|] == a;
    r := Trim(out[..]);
    hide Mul;
    CoefCong(r, out[..], p);
    CongTrans(r, out[..], Mul(a, b), p);
    ModUnique(r, Mul(a, b), p);
  }

  // ---- division ----

  lemma EvalUpdate(q: seq<int>, i: nat, c: int, x: int)
    requires i < |q| && q[i] == 0
    ensures Eval(q[i := c], x) == Eval(q, x) + c * Pow(x, i)
  {
    var unit := Shift([c], i);
    forall k: int ensures Coef(RawAdd(q, unit), k) == Coef(q[i := c], k) {}
    EvalCoef(RawAdd(q, unit), q[i := c], x);
    EvalRawAdd(q, unit, x);
    EvalShift([c], i, x);
    assert Eval([c], x) == c + x * Eval([], x);
  }

  /** Moving c·xⁱ from the remainder into the quotient keeps q·b + r. */
  lemma {:induction false} DivisionStep(q: seq<int>, b: seq<int>, r: seq<int>, i: nat, c: int)
    requires i < |q| && q[i] == 0
    ensures Same(Add(Mul(q[i := c], b), Sub(r, Shift(Scale(c, b), i))), Add(Mul(q, b), r))
  {
    var row := Shift(Scale(c, b), i);
    var q' := q[i := c];
    forall x: int ensures Eval(Add(Mul(q', b), Sub(r, row)), x) == Eval(Add(Mul(q, b), r), x) {
      hide *;
      EvalAdd(Mul(q', b), Sub(r, row), x);
      EvalMul(q', b, x);
      EvalSub(r, row, x);
      EvalShift(Scale(c, b), i, x);
      EvalScale(c, b, x);
      EvalUpdate(q, i, c, x);
      EvalAdd(Mul(q, b), r, x);
      EvalMul(q, b, x);
      DivisionIdentity(Eval(q', x), Eval(q, x), c, Pow(x, i), Eval(b, x), Eval(r, x));
    }
  }

  lemma DivisionIdentity(q1: int, q: int, c: int, w: int, b: int, r: int)
    requires q1 == q + c * w
    ensures q1 * b + (r - w * (c * b)) == q * b + r
  {
    SplitProduct(q, c, w, b);
  }

  /** The same step modulo m, for any remainder congruent to the eliminated one. */
  lemma DivisionStepMod(a: seq<int>, q: seq<int>, b: seq<int>, r: seq<int>, r': seq<int>, i: nat, c: int, m: int)
    requires m > 0 && i < |q| && q[i] == 0
    requires Cong(a, Add(Mul(q, b), r), m)
    requires Cong(r', Sub(r, Shift(Scale(c, b), i)), m)
    ensures Cong(a, Add(Mul(q[i := c], b), r'), m)
  {
    var row := Shift(Scale(c, b), i);
    var q' := q[i := c];
    DivisionStep(q, b, r, i, c);
    CongSame(Add(Mul(q', b), Sub(r, row)), Add(Mul(q, b), r), m);
    CongSym(Add(Mul(q', b), Sub(r, row)), Add(Mul(q, b), r), m);
    CongTrans(a, Add(Mul(q, b), r), Add(Mul(q', b), Sub(r, row)), m);
    CongSym(r', Sub(r, row), m);
    CongRefl(Mul(q', b), m);
    CongAdd(Mul(q', b), Sub(r, row), Mul(q', b), r', m);
    CongTrans(a, Add(Mul(q', b), Sub(r, row)), Add(Mul(q', b), r'), m);
  }

  /** The entries of r with a multiple of b taken away from place i on. */
  lemma RowCoef(r: seq<int>, b: seq<int>, i: nat, c: int, k: int)
    requires i + |b| <= |r|
    ensures Coef(Sub(r, Shift(Scale(c, b), i)), k) == if i <= k < i + |b| then r[k] - c * b[k - i] else Coef(r, k)
  {
    var row := Shift(Scale(c, b), i);
    TrimCoef(RawSub(r, row), k);
    assert |row| == i + |b|;
    if i <= k < i + |b| { assert row[k] == Scale(c, b)[k - i]; }
  }

  lemma TrimCoef(f: seq<int>, k: int)
    ensures Coef(Trim(f), k) == Coef(f, k)
  {}

  /** A row whose entries are reduced modulo m is congruent to the exact row. */
  lemma RowCong(r: seq<int>, r': seq<int>, b: seq<int>, i: nat, c: int, m: int)
    requires m > 0 && |r| == |r'| && i + |b| <= |r|
    requires forall k :: 0 <= k < i || i + |b| <= k < |r| ==> r'[k] == r[k]
    requires forall k :: i <= k < i + |b| ==> (r'[k] - (r[k] - c * b[k - i])) % m == 0
    ensures Cong(r', Sub(r, Shift(Scale(c, b), i)), m)
  {
    hide Sub, Shift, Scale;
    forall k: int ensures (Coef(r', k) - Coef(Sub(r, Shift(Scale(c, b), i)), k)) % m == 0 { RowCoef(r, b, i, c, k); }
  }

  lemma DivisionStart(a: seq<int>, r: seq<int>, q: seq<int>, b: seq<int>, m: int)
    requires m > 0 && Cong(a, r, m) && forall i :: 0 <= i < |q| ==> q[i] == 0
    ensures Cong(a, Add(Mul(q, b), r), m)
  {
    forall x: int ensures Eval(r, x) == Eval(Add(Mul(q, b), r), x) {
      EvalAdd(Mul(q, b), r, x);
      EvalMul(q, b, x);
      EvalZeros(q, x);
    }
    CongSame(r, Add(Mul(q, b), r), m);
    CongTrans(a, r, Add(Mul(q, b), r), m);
  }

  /** Reducing quotient and remainder keeps the congruence. */
  lemma DivisionEnd(a: seq<int>, q: seq<int>, b: seq<int>, r: seq<int>, q': seq<int>, r': seq<int>, m: int)
    requires m > 0 && Cong(a, Add(Mul(q, b), r), m) && Cong(q', q, m) && Cong(r', r, m)
    ensures Cong(a, Add(Mul(q', b), r'), m)
  {
    CongSym(q', q, m);
    CongSym(r', r, m);
    CongRefl(b, m);
    CongMul(q, b, q', b, m);
    CongAdd(Mul(q, b), r, Mul(q', b), r', m);
    CongTrans(a, Add(Mul(q, b), r), Add(Mul(q', b), r'), m);
  }

  lemma ModShort(r: seq<int>, n: nat, m: int)
    requires m > 0 && forall k :: n <= k < |r| ==> r[k] == 0
    ensures |Mod(r, m)| <= n
  {
    assert 0 % m == 0;
  }

  /** The division loop at index i: q·b + r is a modulo m, the quotient is still zero at and
      below i, and the remainder has been cleared from i + |b| on. */
  ghost predicate DivState(a: seq<int>, q: seq<int>, b: seq<int>, r: seq<int>, i: int, m: int)
    requires m > 0
  {
    && |q| == Max(0, |r| - |b| + 1)
    && Cong(a, Add(Mul(q, b), r), m)
    && (forall k :: 0 <= k < |q| && k <= i ==> q[k] == 0)
    && (forall k :: 0 <= k < |r| && i + |b| <= k ==> r[k] == 0)
  }

  lemma DivStateStart(a: seq<int>, q: seq<int>, b: seq<int>, r: seq<int>, m: int)
    requires m > 0 && Cong(a, r, m) && |q| == Max(0, |r| - |b| + 1)
    requires forall k :: 0 <= k < |q| ==> q[k] == 0
    ensures DivState(a, q, b, r, |r| - |b|, m)
  {
    hide Cong, Mul, Add;
    DivisionStart(a, r, q, b, m);
  }

  lemma DivStateStep(a: seq<int>, q: seq<int>, b: seq<int>, r: seq<int>, r': seq<int>, i: nat, c: int, m: int)
    requires m > 0 && b != [] && i < |q| && DivState(a, q, b, r, i, m)
    requires |r'| == |r| && r'[i + |b| - 1] == 0
    requires forall k :: i + |b| <= k < |r| ==> r'[k] == r[k]
    requires Cong(r', Sub(r, Shift(Scale(c, b), i)), m)
    ensures DivState(a, q[i := c], b, r', i - 1, m)
  {
    hide Cong, Mul, Add, Sub, Shift, Scale;
    DivisionStepMod(a, q, b, r, r', i, c, m);
  }

  lemma DivStateEnd(a: seq<int>, q: seq<int>, b: seq<int>, r: seq<int>, i: int, q': seq<int>, r': seq<int>, m: int)
    requires m > 0 && b != [] && i < 0 && DivState(a, q, b, r, i, m)
    requires Cong(q', q, m) && Cong(r', r, m)
    ensures Cong(a, Add(Mul(q', b), r'), m)
    ensures forall k :: |b| - 1 <= k < |r| ==> r[k] == 0
  {
    hide Cong, Mul, Add;
    DivisionEnd(a, q, b, r, q', r', m);
  }

  /** `zDivmodMonic`: division with remainder by a monic polynomial, modulo m. */
  method ZDivmodMonic(a: seq<int>, b: seq<int>, m: int) returns (q: seq<int>, r: seq<int>)
    requires m > 0 && Monic(b)
    ensures Cong(a, Add(Mul(q, b), r), m)
    ensures |r| < |b|
    ensures Residues(q, m) && Residues(r, m)
  {
    hide Cong, Mul, Add, Sub, Shift, Scale, DivState, TruncMod;
    var start := Mod(a, m);
    var rest := new int[|start|](i requires 0 <= i < |start| => start[i]);
    assert rest[..] == start;
    var n := Max(0, |start| - |b| + 1);
    var quot := new int[n](_ => 0);
    ModCong(a, m);
    CongSym(start, a, m);
    DivStateStart(a, quot[..], b, rest[..], m);
    var i := rest.Length - |b|;
    while i >= 0
      invariant i < n
      invariant DivState(a, quot[..], b, rest[..], i, m)
    {
      var c := rest[i + |b| - 1];
      ghost var r0, q0 := rest[..], quot[..];
      quot[i] := c;
      if c != 0 {
        EliminateRow(rest, i, c, b, m);
      }
      EliminatedTop(r0, rest[..], b, i, c, m);
      assert quot[..] == q0[i := c];
      DivStateStep(a, q0, b, r0, rest[..], i, c, m);
      i := i - 1;
    }
    q, r := Mod(quot[..], m), Mod(rest[..], m);
    ModCong(quot[..], m);
    ModCong(rest[..], m);
    DivStateEnd(a, quot[..], b, rest[..], i, q, r, m);
    ModShort(rest[..], |b| - 1, m);
  }

  lemma EliminatedTop(r: seq<int>, r': seq<int>, b: seq<int>, i: nat, c: int, m: int)
    requires m > 0 && Monic(b) && |r| == |r'| && i + |b| <= |r| && c == r[i + |b| - 1]
    requires c == 0 ==> r' == r
    requires c != 0 ==> forall k :: 0 <= k < i || i + |b| <= k < |r| ==> r'[k] == r[k]
    requires c != 0 ==> forall k :: i <= k < i + |b| ==> r'[k] == TruncMod(r[k] - c * b[k - i], m)
    ensures r'[i + |b| - 1] == 0
    ensures Cong(r', Sub(r, Shift(Scale(c, b), i)), m)
  {
    forall k | i <= k < i + |b| ensures (r'[k] - (r[k] - c * b[k - i])) % m == 0 {
      if c != 0 {
        TruncModCongruent(r[k] - c * b[k - i], m);
      } else {
        assert c * b[k - i] == 0;
        ResidueEntry(r'[k], r[k], m);
      }
    }
    RowCong(r, r', b, i, c, m);
    if c != 0 {
      assert r'[i + |b| - 1] == TruncMod(c - c * 1, m);
    }
  }

  /** `fpDivmod`: division modulo p. It throws (None) exactly when the leading coefficient of b has no inverse. */
  method FpDivmod(a: seq<int>, b: seq<int>, p: int) returns (res: Option<(seq<int>, seq<int>)>)
    requires p > 1 && Residues(a, p) && Residues(b, p)
    ensures res.Some? <==> b != [] && Coprime(Lead(b), p)
    ensures res.Some? ==> Cong(a, Add(Mul(res.value.0, b), res.value.1), p)
    ensures res.Some? ==> |res.value.1| < |b| && Residues(res.value.0, p) && Residues(res.value.1, p)
    ensures res.Some? ==> |res.value.0| <= Max(0, |a| - |b| + 1) && |res.value.1| <= |a|
  {
    if b == [] { return None; }   // inverse(0) throws for every p > 1
    hide Cong, Mul, Add, Coprime;
    var lead := Inverse(Lead(b), p);
    if lead.None? { return None; }
    var q, r := FpDivide(a, b, lead.value, p);
    return Some((q, r));
  }

  /** The elimination loop of `fpDivmod`, with the inverse of the leading coefficient at hand. */
  method FpDivide(a: seq<int>, b: seq<int>, inv: int, p: int) returns (q: seq<int>, r: seq<int>)
    requires p > 1 && Residues(a, p) && b != [] && Residues(b, p)
    requires (inv * Lead(b) - 1) % p == 0
    ensures Cong(a, Add(Mul(q, b), r), p)
    ensures |r| < |b| && Residues(q, p) && Residues(r, p)
    ensures |q| <= Max(0, |a| - |b| + 1) && |r| <= |a|
  {
    hide Cong, Mul, Add, Sub, Shift, Scale, DivState;
    var rest := new int[|a|](i requires 0 <= i < |a| => a[i]);
    assert rest[..] == a;
    var n := Max(0, |a| - |b| + 1);
    var quot := new int[n](_ => 0);
    CongRefl(a, p);
    DivStateStart(a, quot[..], b, rest[..], p);
    var i := rest.Length - |b|;
    while i >= 0
      invariant i < n
      invariant DivState(a, quot[..], b, rest[..], i, p)
      invariant forall k :: 0 <= k < n ==> 0 <= quot[k] < p
      invariant forall k :: 0 <= k < rest.Length ==> 0 <= rest[k] < p
    {
      var c := (rest[i + |b| - 1] * inv) % p;
      ghost var r0, q0 := rest[..], quot[..];
      quot[i] := c;
      if c != 0 {
        EliminateResidues(rest, i, c, b, p);
      }
      EliminatedTopFp(r0, rest[..], b, i, c, inv, p);
      assert quot[..] == q0[i := c];
      DivStateStep(a, q0, b, r0, rest[..], i, c, p);
      i := i - 1;
    }
    q, r := Trim(quot[..]), Trim(rest[..]);
    CoefCong(q, quot[..], p);
    CoefCong(r, rest[..], p);
    DivStateEnd(a, quot[..], b, rest[..], i, q, r, p);
  }

  lemma CoefCong(f: seq<int>, g: seq<int>, m: int)
    requires m > 0 && forall i: int :: Coef(f, i) == Coef(g, i)
    ensures Cong(f, g, m)
  {}

  lemma EliminatedTopFp(r: seq<int>, r': seq<int>, b: seq<int>, i: nat, c: int, inv: int, p: int)
    requires p > 0 && b != [] && |r| == |r'| && i + |b| <= |r| && c == (r[i + |b| - 1] * inv) % p
    requires (inv * Lead(b) - 1) % p == 0
    requires forall k :: 0 <= k < |r| ==> 0 <= r[k] < p
    requires c == 0 ==> r' == r
    requires c != 0 ==> forall k :: 0 <= k < i || i + |b| <= k < |r| ==> r'[k] == r[k]
    requires c != 0 ==> forall k :: i <= k < i + |b| ==> r'[k] == (r[k] - c * b[k - i]) % p
    ensures r'[i + |b| - 1] == 0
    ensures Cong(r', Sub(r, Shift(Scale(c, b), i)), p)
  {
    hide Cong, Sub, Shift, Scale;
    forall k | i <= k < i + |b| ensures (r'[k] - (r[k] - c * b[k - i])) % p == 0 {
      if c == 0 { assert c * b[k - i] == 0; }
      ResidueEntry(r'[k], r[k] - c * b[k - i], p);
    }
    RowCong(r, r', b, i, c, p);
    EliminatesTop(r[i + |b| - 1], inv, Lead(b), c, p);
    if c == 0 { SmallMultiple(r[i + |b| - 1], p); }
  }

  /** top − (top·inv mod p)·lead is a multiple of p when inv inverts lead. */
  lemma EliminatesTop(top: int, inv: int, lead: int, c: int, p: int)
    requires p > 0 && (inv * lead - 1) % p == 0 && c == (top * inv) % p
    ensures (top - c * lead) % p == 0
  {
    ModResidue(top * inv, p);
    ModScale(top * inv - c, lead, p);
    ModScale(inv * lead - 1, top, p);
    ModSum((top * inv - c) * lead, top * (inv * lead - 1), p);
    EliminateIdentity(top, inv, lead, c);
  }

  lemma EliminateIdentity(top: int, inv: int, lead: int, c: int)
    ensures (top * inv - c) * lead - top * (inv * lead - 1) == top - c * lead
  {}
}
