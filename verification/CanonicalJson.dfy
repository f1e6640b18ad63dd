/** Canonical JSON (`canonicalJson`, packages/admin/src/json.ts) as a complete invariant. Text is a sequence of UTF-16
    code units. A number is known by the token JSON.stringify gives it, so 0 and -0 are one number here. */
module CanonicalJson {

  type Unit = u: int | 0 <= u < 0x1_0000

  type Text = seq<Unit>

  /** An object's members in any order. */
  datatype Json =
    | Null
    | Bool(value: bool)
    | Number(token: Text)
    | String(text: Text)
    | Array(items: seq<Json>)
    | Object(members: seq<(Text, Json)>)

  // ---- strings (JSON.stringify) ----

  predicate High(u: Unit) { 0xD800 <= u <= 0xDBFF }

  predicate Low(u: Unit) { 0xDC00 <= u <= 0xDFFF }

  /** A lower-case hexadecimal digit. */
  function Hex(d: int): (u: Unit)
    requires 0 <= d < 16
  {
    if d < 10 then 48 + d else 87 + d
  }

  /** `\b`, `\t`, `\n`, `\f`, `\r`, `\"` and `\\`; other control characters and lone surrogates as `\u` and four digits. */
  function Escape(u: Unit): Text {
    if u == 8 then [92, 98]
    else if u == 9 then [92, 116]
    else if u == 10 then [92, 110]
    else if u == 12 then [92, 102]
    else if u == 13 then [92, 114]
    else if u == 34 then [92, 34]
    else if u == 92 then [92, 92]
    else if u < 32 || High(u) || Low(u) then [92, 117, Hex(u / 4096), Hex(u / 256 % 16), Hex(u / 16 % 16), Hex(u % 16)]
    else [u]
  }

  predicate Paired(s: Text) { |s| >= 2 && High(s[0]) && Low(s[1]) }

  /** The characters of a string and its closing quote. */
  function Body(s: Text): Text {
    if s == [] then [34]
    else if Paired(s) then [s[0], s[1]] + Body(s[2..])
    else Escape(s[0]) + Body(s[1..])
  }

  function Quote(s: Text): Text { [34] + Body(s) }

  /** No surrogate stands alone. */
  predicate WholeCharacters(t: Text) {
    if t == [] then true
    else if 0xD800 <= t[0] < 0xDC00 then |t| > 1 && 0xDC00 <= t[1] < 0xE000 && WholeCharacters(t[2..])
    else !(0xDC00 <= t[0] < 0xE000) && WholeCharacters(t[1..])
  }

  lemma {:induction false} PlainThen(t: Text, rest: Text)
    requires WholeCharacters(rest) && forall i :: 0 <= i < |t| ==> !(0xD800 <= t[i] < 0xE000)
    ensures WholeCharacters(t + rest)
  {
    if t == [] {
      assert t + rest == rest;
    } else {
      assert (t + rest)[1..] == t[1..] + rest;
      PlainThen(t[1..], rest);
    }
  }

  /** A quoted string is whole characters, whatever the string: a lone surrogate is escaped, a pair is kept. */
  lemma {:induction false} BodyHasWholeCharacters(s: Text)
    ensures WholeCharacters(Body(s))
    decreases |s|
  {
    if s == [] {
      PlainThen([34], []);
    } else if Paired(s) {
      BodyHasWholeCharacters(s[2..]);
      assert ([s[0], s[1]] + Body(s[2..]))[2..] == Body(s[2..]);
    } else {
      BodyHasWholeCharacters(s[1..]);
      PlainThen(Escape(s[0]), Body(s[1..]));
    }
  }

  /** A unit is escaped only where JSON needs it, as briefly as JSON allows, and a surrogate pair is written as it is. */
  lemma EscapeIsShort(u: Unit, high: Unit, low: Unit, s: Text)
    ensures |Escape(u)| == if u in {8, 9, 10, 12, 13, 34, 92} then 2 else if u < 32 || 0xD800 <= u < 0xE000 then 6 else 1
    ensures 0xD800 <= high < 0xDC00 <= low < 0xE000 ==> Body([high, low] + s) == [high, low] + Body(s)
  {
    assert ([high, low] + s)[2..] == s;
  }

  // ---- sorting keys by UTF-16 units ----

  predicate Less(a: Text, b: Text) {
    b != [] && (a == [] || a[0] < b[0] || (a[0] == b[0] && Less(a[1..], b[1..])))
  }

  function Insert(k: Text, keys: seq<Text>): seq<Text> {
    if keys == [] then [k]
    else if Less(keys[0], k) then [keys[0]] + Insert(k, keys[1..])
    else [k] + keys
  }

  /** `keys.sort()`. */
  function Sort(keys: seq<Text>): seq<Text> {
    if keys == [] then [] else Insert(keys[0], Sort(keys[1..]))
  }

  // ---- canonicalJson ----

  function Join(parts: seq<Text>): Text {
    if parts == [] then [] else if |parts| == 1 then parts[0] else parts[0] + [44] + Join(parts[1..])
  }

  function Keys(members: seq<(Text, Json)>): (keys: seq<Text>)
    ensures |keys| == |members| && forall i :: 0 <= i < |keys| ==> keys[i] == members[i].0
  {
    seq(|members|, i requires 0 <= i < |members| => members[i].0)
  }

  /** The position of a key. */
  function Find(members: seq<(Text, Json)>, key: Text): (i: nat)
    requires key in Keys(members)
    ensures i < |members| && members[i].0 == key
  {
    if members[0].0 == key then 0 else
      assert Keys(members)[1..] == Keys(members[1..]);
      1 + Find(members[1..], key)
  }

  lemma {:induction false} SortElements(keys: seq<Text>)
    ensures |Sort(keys)| == |keys|
    ensures forall k :: k in Sort(keys) <==> k in keys
  {
    if keys != [] {
      SortElements(keys[1..]);
      InsertElements(keys[0], Sort(keys[1..]));
    }
  }

  lemma {:induction false} InsertElements(k: Text, keys: seq<Text>)
    ensures |Insert(k, keys)| == |keys| + 1
    ensures forall x :: x in Insert(k, keys) <==> x == k || x in keys
  {
    if keys != [] && Less(keys[0], k) { InsertElements(k, keys[1..]); }
  }

  function Canonical(j: Json): Text
    decreases j
  {
    match j
    case Null => [110, 117, 108, 108]
    case Bool(b) => if b then [116, 114, 117, 101] else [102, 97, 108, 115, 101]
    case Number(token) => token
    case String(s) => Quote(s)
    case Array(items) => [91] + Join(seq(|items|, i requires 0 <= i < |items| => Canonical(items[i]))) + [93]
    case Object(members) =>
      var keys := Sort(Keys(members));
      SortElements(Keys(members));
      [123] + Join(seq(|keys|, i requires 0 <= i < |keys| =>
        assert keys[i] in Keys(members);
        Quote(keys[i]) + [58] + Canonical(members[Find(members, keys[i])].1))) + [125]
  }

  // ---- tokens end where they end ----

  predicate TokenUnit(u: Unit) { 48 <= u <= 57 || u == 43 || u == 45 || u == 46 || u == 69 || u == 101 }

  predicate Digit(u: Unit) { 48 <= u <= 57 }

  predicate Digits(t: Text) { t != [] && forall i :: 0 <= i < |t| ==> Digit(t[i]) }

  /** The integer part: 0, or digits without a leading zero. */
  predicate Whole(t: Text) { t == [48] || (Digits(t) && t[0] != 48) }

  /** A point and digits, or nothing. */
  predicate Fraction(t: Text) { t == [] || (t[0] == 46 && Digits(t[1..])) }

  /** `e` or `E`, a sign if any and digits, or nothing. */
  predicate Exponent(t: Text) {
    t == [] || ((t[0] == 101 || t[0] == 69) && |t| > 1 && Digits(if t[1] == 43 || t[1] == 45 then t[2..] else t[1..]))
  }

  /** The number grammar of section 6 of RFC 8259. */
  predicate NumberToken(t: Text) {
    var u := Unsigned(t);
    exists i: nat, j: nat :: i <= j <= |u| && Splits(u, i, j)
  }

  function Unsigned(t: Text): Text { if t != [] && t[0] == 45 then t[1..] else t }

  /** Integer part, fraction and exponent, split at i and j. */
  predicate Splits(u: Text, i: nat, j: nat)
    requires i <= j <= |u|
  {
    Whole(u[..i]) && Fraction(u[i..j]) && Exponent(u[j..])
  }

  /** The decimal digits of a number. */
  function Decimal(n: nat): (t: Text)
    ensures t != []
  {
    if n < 10 then [48 + n] else Decimal(n / 10) + [48 + n % 10]
  }

  lemma {:induction false} DecimalIsWhole(n: nat)
    ensures Whole(Decimal(n)) && (n > 0 ==> Decimal(n)[0] != 48)
  {
    if n >= 10 { DecimalIsWhole(n / 10); }
  }

  predicate DecimalDigits(t: Text) { forall i :: 0 <= i < |t| ==> t[i] in {48, 49, 50, 51, 52, 53, 54, 55, 56, 57} }

  lemma DigitsOfDecimals(t: Text)
    requires DecimalDigits(t) && t != []
    ensures Digits(t)
  {
    forall i | 0 <= i < |t| ensures Digit(t[i]) {}
  }

  /** The tokens JavaScript prints for finite numbers are in the grammar: a minus sign or none, the digits of a whole
      number, a point with digits or none, and `e` with a sign and digits or none. */
  lemma PrintedIsToken(negative: bool, whole: nat, fraction: Text, sign: Unit, exponent: Text)
    requires DecimalDigits(fraction) && DecimalDigits(exponent) && sign in {43, 45}
    ensures var u := Decimal(whole) + (if fraction == [] then [] else [46] + fraction)
                                    + (if exponent == [] then [] else [101, sign] + exponent);
            NumberToken((if negative then [45] else []) + u)
  {
    var d := Decimal(whole);
    var f := if fraction == [] then [] else [46] + fraction;
    var e := if exponent == [] then [] else [101, sign] + exponent;
    var u := d + f + e;
    var t := (if negative then [45] else []) + u;
    DecimalIsWhole(whole);
    assert d[0] != 45;
    assert Unsigned(t) == u;
    var i, j := |d|, |d| + |f|;
    assert u[..i] == d && u[i..j] == f && u[j..] == e;
    if fraction != [] {
      DigitsOfDecimals(fraction);
      assert f[1..] == fraction;
    }
    if exponent != [] {
      DigitsOfDecimals(exponent);
      assert e[2..] == exponent;
    }
    assert Splits(u, i, j);
  }

  /** A token that starts with 0 goes on with a point or an exponent, if at all. */
  lemma NoLeadingZero(t: Text)
    requires NumberToken(t) && t[0] == 48 && |t| > 1
    ensures t[1] in {46, 69, 101}
  {
    var i: nat, j: nat :| i <= j <= |t| && Splits(t, i, j);
    assert t[..i][0] == t[0];
    assert t[..i] == [48];
    if i < j { assert t[i..j][0] == t[1]; } else { assert t[j..][0] == t[1]; }
  }

  predicate AllUnits(t: Text) { forall i :: 0 <= i < |t| ==> TokenUnit(t[i]) }

  lemma {:induction false} WholeDigits(t: Text)
    requires Whole(t)
    ensures Digits(t)
  {}

  lemma {:induction false} ExponentUnits(t: Text)
    requires Exponent(t)
    ensures AllUnits(t)
  {
    if t != [] {
      var d := if t[1] == 43 || t[1] == 45 then t[2..] else t[1..];
      forall i | 0 <= i < |t| ensures TokenUnit(t[i]) {
        if i >= |t| - |d| { assert t[i] == d[i - (|t| - |d|)]; }
      }
    }
  }

  lemma {:induction false} FractionUnits(t: Text)
    requires Fraction(t)
    ensures AllUnits(t)
  {
    forall i | 0 <= i < |t| ensures TokenUnit(t[i]) {
      if i > 0 { assert t[i] == t[1..][i - 1]; }
    }
  }

  /** A number starts with a digit or a minus sign, and holds only digits, signs, points and e. */
  lemma {:induction false} NumberUnits(t: Text)
    requires NumberToken(t)
    ensures t != [] && (Digit(t[0]) || t[0] == 45) && AllUnits(t)
  {
    var u := Unsigned(t);
    var i: nat, j: nat :| i <= j <= |u| && Splits(u, i, j);
    SplitUnits(u, i, j);
    hide Splits, NumberToken;
    assert t == if u == t then u else [45] + u;
  }

  lemma {:induction false} SplitUnits(u: Text, i: nat, j: nat)
    requires i <= j <= |u| && Splits(u, i, j)
    ensures u != [] && Digit(u[0]) && AllUnits(u)
  {
    WholeDigits(u[..i]);
    FractionUnits(u[i..j]);
    ExponentUnits(u[j..]);
    hide Exponent, Whole, Fraction;
    Units3(u, u[..i], u[i..j], u[j..]);
  }

  lemma {:induction false} Units3(u: Text, a: Text, b: Text, c: Text)
    requires Digits(a) && AllUnits(b) && AllUnits(c) && u == a + b + c
    ensures u != [] && Digit(u[0]) && AllUnits(u)
  {}

  /** What can follow a value: a comma, a closing bracket or the end. */
  predicate Ends(x: Text) { x == [] || x[0] == 44 || x[0] == 93 || x[0] == 125 }

  lemma TokenNotLonger(s: Text, t: Text, x: Text, y: Text)
    requires NumberToken(t) && Ends(x) && s + x == t + y
    ensures |t| <= |s|
  {
    NumberUnits(t);
    hide NumberToken;
    var n := |s|;
    assert n < |t| ==> |s + x| == |t + y| && x != [] && (s + x)[n] == x[0] && (t + y)[n] == t[n];
    assert n < |t| ==> TokenUnit(t[n]);
  }

  lemma TokenPrefix(s: Text, t: Text, x: Text, y: Text)
    requires NumberToken(s) && NumberToken(t) && Ends(x) && Ends(y) && s + x == t + y
    ensures s == t && x == y
  {
    TokenNotLonger(s, t, x, y);
    TokenNotLonger(t, s, y, x);
    assert s == (s + x)[..|s|] && t == (t + y)[..|t|];
    assert x == (s + x)[|s|..] && y == (t + y)[|t|..];
  }

  lemma HexDigits(u: Unit, v: Unit)
    requires u / 4096 == v / 4096 && u / 256 % 16 == v / 256 % 16 && u / 16 % 16 == v / 16 % 16 && u % 16 == v % 16
    ensures u == v
  {
    DivideTwice(u);
    DivideTwice(v);
    assert u / 256 == v / 256;
    assert u / 16 == v / 16;
  }

  lemma DivideTwice(u: int)
    ensures u / 16 / 16 == u / 256 && u / 256 / 16 == u / 4096
  {}

  lemma EscapePrefix(u: Unit, v: Unit, x: Text, y: Text)
    requires Escape(u) + x == Escape(v) + y
    ensures u == v && x == y
  {
    var p, q := Escape(u), Escape(v);
    assert (p + x)[0] == p[0] && (q + y)[0] == q[0];
    if p[0] == 92 {
      assert (p + x)[1] == p[1] && (q + y)[1] == q[1];
      if p[1] == 117 {
        assert (p + x)[2..6] == p[2..6] && (q + y)[2..6] == q[2..6];
        assert p[2] == q[2] && p[3] == q[3] && p[4] == q[4] && p[5] == q[5];
        HexDigits(u, v);
      }
    }
    assert x == (p + x)[|p|..] && y == (q + y)[|q|..];
  }

  lemma BodyPair(s: Text, x: Text)
    requires Paired(s)
    ensures Body(s) + x == [s[0], s[1]] + (Body(s[2..]) + x)
  {
    hide Escape;
  }

  lemma BodySingle(s: Text, x: Text)
    requires s != [] && !Paired(s)
    ensures Body(s) + x == Escape(s[0]) + (Body(s[1..]) + x)
  {
    hide Escape;
  }

  /** A quoted string says where it ends. */
  lemma {:induction false} BodyPrefix(s: Text, t: Text, x: Text, y: Text)
    requires Body(s) + x == Body(t) + y
    ensures s == t && x == y
    decreases |s|
  {
    assert (Body(s) + x)[0] == Body(s)[0] && (Body(t) + y)[0] == Body(t)[0];
    if s == [] {
      assert x == (Body(s) + x)[1..] && y == (Body(t) + y)[1..];
    } else if Paired(s) {
      BodyPair(s, x);
      BodyPair(t, y);
      hide Body, Escape;
      var u, v := Body(s[2..]) + x, Body(t[2..]) + y;
      assert ([s[0], s[1]] + u)[1] == s[1] && ([t[0], t[1]] + v)[1] == t[1];
      assert u == ([s[0], s[1]] + u)[2..] && v == ([t[0], t[1]] + v)[2..];
      BodyPrefix(s[2..], t[2..], x, y);
      assert s == [s[0], s[1]] + s[2..] && t == [t[0], t[1]] + t[2..];
    } else {
      BodySingle(s, x);
      BodySingle(t, y);
      hide Body, Escape;
      EscapePrefix(s[0], t[0], Body(s[1..]) + x, Body(t[1..]) + y);
      BodyPrefix(s[1..], t[1..], x, y);
      assert s == [s[0]] + s[1..] && t == [t[0]] + t[1..];
    }
  }

  lemma QuotePrefix(s: Text, t: Text, x: Text, y: Text)
    requires Quote(s) + x == Quote(t) + y
    ensures s == t && x == y
  {
    hide Body;
    assert Body(s) + x == (Quote(s) + x)[1..] && Body(t) + y == (Quote(t) + y)[1..];
    BodyPrefix(s, t, x, y);
  }

  // ---- lists end where they end ----

  /** Of two texts, neither can be mistaken for the other before an end. */
  ghost predicate Determined(p: Text, q: Text) {
    forall x, y :: Ends(x) && Ends(y) && p + x == q + y ==> p == q
  }

  predicate Opens(p: Text, close: Unit) { p != [] && p[0] != close }

  lemma {:induction false} JoinPrefix(ps: seq<Text>, qs: seq<Text>, close: Unit, x: Text, y: Text)
    requires close == 93 || close == 125
    requires forall i :: 0 <= i < |ps| ==> Opens(ps[i], close)
    requires forall i :: 0 <= i < |qs| ==> Opens(qs[i], close)
    requires forall i :: 0 <= i < |ps| && i < |qs| ==> Determined(ps[i], qs[i])
    requires Join(ps) + [close] + x == Join(qs) + [close] + y
    ensures ps == qs && x == y
  {
    if ps == [] || qs == [] {
      JoinOpens(ps, close, x);
      JoinOpens(qs, close, y);
      assert x == (Join(ps) + [close] + x)[1..] && y == (Join(qs) + [close] + y)[1..];
    } else {
      var u := JoinTail(ps, close, x);
      var v := JoinTail(qs, close, y);
      assert Determined(ps[0], qs[0]);
      assert u == (ps[0] + u)[|ps[0]|..] && v == (qs[0] + v)[|qs[0]|..];
      assert u[0] == v[0];
      if |ps| > 1 {
        assert u[1..] == Join(ps[1..]) + [close] + x && v[1..] == Join(qs[1..]) + [close] + y;
        JoinPrefix(ps[1..], qs[1..], close, x, y);
        assert ps == [ps[0]] + ps[1..] && qs == [qs[0]] + qs[1..];
      } else {
        assert u[1..] == x && v[1..] == y;
      }
    }
  }

  lemma JoinOpens(ps: seq<Text>, close: Unit, x: Text)
    requires forall i :: 0 <= i < |ps| ==> Opens(ps[i], close)
    ensures (Join(ps) + [close] + x)[0] == close <==> ps == []
  {
    if ps != [] { assert Opens(ps[0], close); }
  }

  /** What follows the first part. */
  lemma JoinTail(ps: seq<Text>, close: Unit, x: Text) returns (u: Text)
    requires ps != [] && (close == 93 || close == 125)
    ensures Join(ps) + [close] + x == ps[0] + u && Ends(u) && u != []
    ensures |ps| == 1 ==> u == [close] + x
    ensures |ps| > 1 ==> u == [44] + (Join(ps[1..]) + [close] + x)
  {
    u := if |ps| == 1 then [close] + x else [44] + (Join(ps[1..]) + [close] + x);
    assert Join(ps) + [close] + x == ps[0] + u;
  }

  // ---- values ----

  /** Number tokens are tokens, and no object repeats a key. */
  predicate WellFormed(j: Json)
    decreases j
  {
    match j
    case Number(token) => NumberToken(token)
    case Array(items) => forall i :: 0 <= i < |items| ==> WellFormed(items[i])
    case Object(members) =>
      && (forall i, k :: 0 <= i < k < |members| ==> members[i].0 != members[k].0)
      && (forall i :: 0 <= i < |members| ==> WellFormed(members[i].1))
    case _ => true
  }

  /** Equal up to the order of object keys, at every level. */
  ghost predicate Same(a: Json, b: Json)
    decreases a
  {
    match (a, b)
    case (Array(xs), Array(ys)) => |xs| == |ys| && forall i :: 0 <= i < |xs| ==> Same(xs[i], ys[i])
    case (Object(ms), Object(ns)) =>
      && (forall k :: k in Keys(ms) <==> k in Keys(ns))
      && (forall i, k :: 0 <= i < |ms| && 0 <= k < |ns| && ms[i].0 == ns[k].0 ==> Same(ms[i].1, ns[k].1))
    case (Array(_), _) => false
    case (Object(_), _) => false
    case _ => a == b
  }

  function ItemParts(items: seq<Json>): (ps: seq<Text>)
    ensures |ps| == |items| && forall i :: 0 <= i < |ps| ==> ps[i] == Canonical(items[i])
  {
    seq(|items|, i requires 0 <= i < |items| => Canonical(items[i]))
  }

  function SortedKeys(members: seq<(Text, Json)>): (keys: seq<Text>)
    ensures |keys| == |members| && forall k :: k in keys <==> k in Keys(members)
  {
    SortElements(Keys(members));
    Sort(Keys(members))
  }

  function MemberPart(members: seq<(Text, Json)>, key: Text): Text
    requires key in Keys(members)
  {
    Quote(key) + [58] + Canonical(members[Find(members, key)].1)
  }

  function MemberParts(members: seq<(Text, Json)>): (ps: seq<Text>)
    ensures |ps| == |members|
    ensures forall i :: 0 <= i < |ps| ==> SortedKeys(members)[i] in Keys(members)
                                          && ps[i] == MemberPart(members, SortedKeys(members)[i])
  {
    var keys := SortedKeys(members);
    seq(|keys|, i requires 0 <= i < |keys| => assert keys[i] in Keys(members); MemberPart(members, keys[i]))
  }

  lemma CanonicalArray(items: seq<Json>)
    ensures Canonical(Array(items)) == [91] + Join(ItemParts(items)) + [93]
  {
    assert seq(|items|, i requires 0 <= i < |items| => Canonical(items[i])) == ItemParts(items);
  }

  lemma CanonicalObject(members: seq<(Text, Json)>)
    ensures Canonical(Object(members)) == [123] + Join(MemberParts(members)) + [125]
  {
    var keys := SortedKeys(members);
    SortElements(Keys(members));
    var parts := seq(|keys|, i requires 0 <= i < |keys| =>
      assert keys[i] in Keys(members);
      Quote(keys[i]) + [58] + Canonical(members[Find(members, keys[i])].1));
    assert parts == MemberParts(members);
  }

  /** The first unit of a text tells the kind of value. */
  lemma CanonicalHead(j: Json)
    requires WellFormed(j)
    ensures var t := Canonical(j);
            && t != [] && t[0] != 93 && t[0] != 125
            && (t[0] == 91 <==> j.Array?) && (t[0] == 123 <==> j.Object?) && (t[0] == 34 <==> j.String?)
            && (t[0] == 110 <==> j.Null?) && (t[0] == 116 || t[0] == 102 <==> j.Bool?) && (TokenUnit(t[0]) <==> j.Number?)
  {
    match j
    case Array(items) => CanonicalArray(items);
    case Object(members) => CanonicalObject(members);
    case Number(token) => NumberUnits(token);
    case _ =>
  }

  // ---- equal texts come from the same value ----

  lemma {:induction false} TextDetermines(a: Json, b: Json, x: Text, y: Text)
    requires WellFormed(a) && WellFormed(b) && Ends(x) && Ends(y)
    requires Canonical(a) + x == Canonical(b) + y
    ensures Same(a, b) && Canonical(a) == Canonical(b) && x == y
    decreases a, 3
  {
    CanonicalHead(a);
    CanonicalHead(b);
    assert (Canonical(a) + x)[0] == Canonical(a)[0] && (Canonical(b) + y)[0] == Canonical(b)[0];
    if a.Number? {
      TokenPrefix(a.token, b.token, x, y);
    } else if a.String? {
      QuotePrefix(a.text, b.text, x, y);
    } else if a.Array? {
      ArrayDetermines(a, b, x, y);
    } else if a.Object? {
      ObjectDetermines(a, b, x, y);
    } else {
      assert a == b;
      assert x == (Canonical(a) + x)[|Canonical(a)|..] && y == (Canonical(b) + y)[|Canonical(b)|..];
    }
  }

  lemma {:induction false} ItemDetermined(a: Json, b: Json)
    requires WellFormed(a) && WellFormed(b)
    ensures Determined(Canonical(a), Canonical(b))
    ensures Canonical(a) == Canonical(b) ==> Same(a, b)
    decreases a, 4
  {
    hide Canonical, Same, WellFormed;
    forall x, y | Ends(x) && Ends(y) && Canonical(a) + x == Canonical(b) + y ensures Canonical(a) == Canonical(b) {
      TextDetermines(a, b, x, y);
    }
    if Canonical(a) == Canonical(b) { TextDetermines(a, b, [], []); }
  }

  lemma {:induction false} BracketPrefix(ps: seq<Text>, qs: seq<Text>, open: Unit, close: Unit, x: Text, y: Text)
    requires close == 93 || close == 125
    requires forall i :: 0 <= i < |ps| ==> Opens(ps[i], close)
    requires forall i :: 0 <= i < |qs| ==> Opens(qs[i], close)
    requires forall i :: 0 <= i < |ps| && i < |qs| ==> Determined(ps[i], qs[i])
    requires [open] + Join(ps) + [close] + x == [open] + Join(qs) + [close] + y
    ensures ps == qs && x == y
  {
    hide Join, Determined, Opens, Ends;
    assert Join(ps) + [close] + x == ([open] + Join(ps) + [close] + x)[1..];
    assert Join(qs) + [close] + y == ([open] + Join(qs) + [close] + y)[1..];
    JoinPrefix(ps, qs, close, x, y);
  }

  lemma {:induction false} ItemsDetermined(a: Json, b: Json)
    requires a.Array? && b.Array? && WellFormed(a) && WellFormed(b)
    ensures var ps, qs := ItemParts(a.items), ItemParts(b.items);
            && (forall i :: 0 <= i < |ps| ==> Opens(ps[i], 93))
            && (forall i :: 0 <= i < |qs| ==> Opens(qs[i], 93))
            && (forall i :: 0 <= i < |ps| && i < |qs| ==> Determined(ps[i], qs[i]))
    ensures ItemParts(a.items) == ItemParts(b.items) ==> Same(a, b)
    decreases a, 1
  {
    var ps, qs := ItemParts(a.items), ItemParts(b.items);
    hide Canonical, Determined;
    forall i | 0 <= i < |ps| ensures Opens(ps[i], 93) { CanonicalHead(a.items[i]); }
    forall i | 0 <= i < |qs| ensures Opens(qs[i], 93) { CanonicalHead(b.items[i]); }
    forall i | 0 <= i < |ps| && i < |qs| ensures Determined(ps[i], qs[i]) && (ps[i] == qs[i] ==> Same(a.items[i], b.items[i])) {
      ItemDetermined(a.items[i], b.items[i]);
    }
  }

  lemma {:induction false} ArrayDetermines(a: Json, b: Json, x: Text, y: Text)
    requires a.Array? && b.Array? && WellFormed(a) && WellFormed(b) && Ends(x) && Ends(y)
    requires Canonical(a) + x == Canonical(b) + y
    ensures Same(a, b) && Canonical(a) == Canonical(b) && x == y
    decreases a, 2
  {
    hide Canonical, Determined, Opens, Same, WellFormed, Join, ItemParts;
    CanonicalArray(a.items);
    CanonicalArray(b.items);
    ItemsDetermined(a, b);
    BracketPrefix(ItemParts(a.items), ItemParts(b.items), 91, 93, x, y);
  }

  lemma PartPrefix(key: Text, other: Text, p: Text, q: Text, x: Text, y: Text)
    requires Quote(key) + [58] + p + x == Quote(other) + [58] + q + y
    ensures key == other && p + x == q + y
  {
    hide Quote;
    var u, z := [58] + p + x, [58] + q + y;
    assert Quote(key) + [58] + p + x == Quote(key) + u && Quote(other) + [58] + q + y == Quote(other) + z;
    QuotePrefix(key, other, u, z);
    assert p + x == u[1..] && q + y == z[1..];
  }

  lemma {:induction false} PartDetermined(v: Json, w: Json, key: Text, other: Text)
    requires WellFormed(v) && WellFormed(w)
    ensures var p, q := Quote(key) + [58] + Canonical(v), Quote(other) + [58] + Canonical(w);
            Determined(p, q) && (p == q ==> key == other && Same(v, w))
    decreases v, 5
  {
    var p, q := Quote(key) + [58] + Canonical(v), Quote(other) + [58] + Canonical(w);
    hide Canonical, Same, WellFormed, Quote;
    forall x, y | Ends(x) && Ends(y) && p + x == q + y ensures p == q && key == other && Same(v, w) {
      PartPrefix(key, other, Canonical(v), Canonical(w), x, y);
      TextDetermines(v, w, x, y);
    }
    if p == q { assert p + [] == q + []; }
  }

  lemma {:induction false} MembersDetermined(a: Json, b: Json)
    requires a.Object? && b.Object? && WellFormed(a) && WellFormed(b)
    ensures var ps, qs := MemberParts(a.members), MemberParts(b.members);
            var ks, ls := SortedKeys(a.members), SortedKeys(b.members);
            && (forall i :: 0 <= i < |ps| ==> Opens(ps[i], 125))
            && (forall i :: 0 <= i < |qs| ==> Opens(qs[i], 125))
            && (forall i :: 0 <= i < |ps| && i < |qs| ==> Determined(ps[i], qs[i]))
            && (forall i :: 0 <= i < |ps| && i < |qs| && ps[i] == qs[i] ==>
                  ks[i] == ls[i] && Same(a.members[Find(a.members, ks[i])].1, b.members[Find(b.members, ls[i])].1))
    decreases a, 1
  {
    var ps, qs := MemberParts(a.members), MemberParts(b.members);
    var ks, ls := SortedKeys(a.members), SortedKeys(b.members);
    forall i | 0 <= i < |ps| ensures Opens(ps[i], 125) { assert ps[i][0] == 34; }
    forall i | 0 <= i < |qs| ensures Opens(qs[i], 125) { assert qs[i][0] == 34; }
    hide Canonical, Determined, Same, Opens, Find, SortedKeys;
    forall i | 0 <= i < |ps| && i < |qs|
      ensures Determined(ps[i], qs[i])
      ensures ps[i] == qs[i] ==>
                ks[i] == ls[i] && Same(a.members[Find(a.members, ks[i])].1, b.members[Find(b.members, ls[i])].1)
    {
      PartDetermined(a.members[Find(a.members, ks[i])].1, b.members[Find(b.members, ls[i])].1, ks[i], ls[i]);
    }
  }

  lemma {:induction false} SameMembers(a: Json, b: Json)
    requires a.Object? && b.Object? && WellFormed(a) && WellFormed(b)
    requires SortedKeys(a.members) == SortedKeys(b.members)
    requires forall key :: key in SortedKeys(a.members) ==>
               Same(a.members[Find(a.members, key)].1, b.members[Find(b.members, key)].1)
    ensures Same(a, b)
  {
    forall i: nat, k: nat | i < |a.members| && k < |b.members| && a.members[i].0 == b.members[k].0
      ensures Same(a.members[i].1, b.members[k].1)
    {
      assert a.members[i].0 in SortedKeys(a.members);
    }
  }

  lemma {:induction false} ObjectDetermines(a: Json, b: Json, x: Text, y: Text)
    requires a.Object? && b.Object? && WellFormed(a) && WellFormed(b) && Ends(x) && Ends(y)
    requires Canonical(a) + x == Canonical(b) + y
    ensures Same(a, b) && Canonical(a) == Canonical(b) && x == y
    decreases a, 2
  {
    hide Canonical, Determined, Opens, Same, WellFormed, Join, MemberPart, Find, SortedKeys;
    var ks, ls := SortedKeys(a.members), SortedKeys(b.members);
    CanonicalObject(a.members);
    CanonicalObject(b.members);
    MembersDetermined(a, b);
    BracketPrefix(MemberParts(a.members), MemberParts(b.members), 123, 125, x, y);
    assert ks == ls;
    SameMembers(a, b);
  }

  // ---- one value has one text ----

  lemma {:induction false} LessOrder(a: Text, b: Text)
    ensures !(Less(a, b) && Less(b, a))
    ensures a == b || Less(a, b) || Less(b, a)
  {
    if a != [] && b != [] && a[0] == b[0] {
      LessOrder(a[1..], b[1..]);
      assert a == [a[0]] + a[1..] && b == [b[0]] + b[1..];
    }
  }

  lemma {:induction false} LessTrans(a: Text, b: Text, c: Text)
    requires Less(a, b) && Less(b, c)
    ensures Less(a, c)
  {
    if a != [] && a[0] == b[0] && b[0] == c[0] { LessTrans(a[1..], b[1..], c[1..]); }
  }

  ghost predicate Ascending(keys: seq<Text>) { forall i, j :: 0 <= i < j < |keys| ==> Less(keys[i], keys[j]) }

  lemma {:induction false} InsertAscends(k: Text, keys: seq<Text>)
    requires Ascending(keys) && k !in keys
    ensures Ascending(Insert(k, keys))
  {
    hide Less;
    if keys != [] {
      var head := keys[0];
      LessOrder(head, k);
      if Less(head, k) {
        var rest := Insert(k, keys[1..]);
        InsertAscends(k, keys[1..]);
        InsertElements(k, keys[1..]);
        forall x | x in rest ensures Less(head, x) {}
      } else {
        forall i | 0 <= i < |keys| ensures Less(k, keys[i]) {
          if i > 0 { LessTrans(k, head, keys[i]); }
        }
      }
    }
  }

  lemma {:induction false} SortAscends(keys: seq<Text>)
    requires forall i, j :: 0 <= i < j < |keys| ==> keys[i] != keys[j]
    ensures Ascending(Sort(keys))
  {
    if keys != [] {
      SortAscends(keys[1..]);
      SortElements(keys[1..]);
      InsertAscends(keys[0], Sort(keys[1..]));
    }
  }

  lemma {:induction false} AscendingUnique(a: seq<Text>, b: seq<Text>)
    requires Ascending(a) && Ascending(b) && forall k :: k in a <==> k in b
    ensures a == b
  {
    hide Less;
    assert b != [] ==> b[0] in a;
    assert a != [] ==> a[0] in b;
    if a != [] {
      LessOrder(a[0], b[0]);
      LessOrder(a[0], a[0]);
      assert a[0] == b[0];
      forall k ensures k in a[1..] <==> k in b[1..] {
        assert k in a <==> k == a[0] || k in a[1..];
        assert k in b <==> k == b[0] || k in b[1..];
      }
      AscendingUnique(a[1..], b[1..]);
    }
  }

  lemma {:induction false} SameText(a: Json, b: Json)
    requires WellFormed(a) && WellFormed(b) && Same(a, b)
    ensures Canonical(a) == Canonical(b)
    decreases a
  {
    if a.Array? {
      CanonicalArray(a.items);
      CanonicalArray(b.items);
      forall i | 0 <= i < |a.items| ensures ItemParts(a.items)[i] == ItemParts(b.items)[i] {
        SameText(a.items[i], b.items[i]);
      }
      assert ItemParts(a.items) == ItemParts(b.items);
    } else if a.Object? {
      var ms, ns := a.members, b.members;
      CanonicalObject(ms);
      CanonicalObject(ns);
      SortAscends(Keys(ms));
      SortAscends(Keys(ns));
      AscendingUnique(SortedKeys(ms), SortedKeys(ns));
      forall i | 0 <= i < |ms| ensures MemberParts(ms)[i] == MemberParts(ns)[i] {
        var key := SortedKeys(ms)[i];
        SameText(ms[Find(ms, key)].1, ns[Find(ns, key)].1);
      }
      assert MemberParts(ms) == MemberParts(ns);
    }
  }

  /** Two values have the same canonical text exactly when they are equal up to the order of object keys. */
  lemma CompleteInvariant(a: Json, b: Json)
    requires WellFormed(a) && WellFormed(b)
    ensures Canonical(a) == Canonical(b) <==> Same(a, b)
  {
    if Same(a, b) { SameText(a, b); }
    if Canonical(a) == Canonical(b) { TextDetermines(a, b, [], []); }
  }
}
