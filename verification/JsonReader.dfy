/** A reader of JSON text by the grammar of RFC 8259 (sections 2 to 7, without insignificant white space), and the proof
    that canonical text (packages/admin/src/json.ts) reads back to the value, with the keys of every object ascending. */
module JsonReader {
  import opened Options
  import opened CanonicalJson

  // ---- characters ----

  function Code(c: char): Unit
    requires c as int < 0x1_0000
  {
    c as int
  }

  function Word(s: string): (t: Text)
    requires forall i :: 0 <= i < |s| ==> s[i] as int < 0x1_0000
    ensures |t| == |s| && forall i :: 0 <= i < |t| ==> t[i] == s[i] as int
  {
    seq(|s|, i requires 0 <= i < |s| => Code(s[i]))
  }

  // ---- strings ----

  /** The character after a backslash, other than `u`. */
  function Unescaped(u: Unit): Option<Unit> {
    if u == Code('"') || u == Code('\\') || u == Code('/') then Some(u)
    else if u == Code('b') then Some(8)
    else if u == Code('f') then Some(12)
    else if u == Code('n') then Some(10)
    else if u == Code('r') then Some(13)
    else if u == Code('t') then Some(9)
    else None
  }

  /** The value of a hexadecimal digit of either case. */
  function HexValue(u: Unit): Option<nat> {
    if Code('0') <= u <= Code('9') then Some(u - Code('0'))
    else if Code('a') <= u <= Code('f') then Some(10 + u - Code('a'))
    else if Code('A') <= u <= Code('F') then Some(10 + u - Code('A'))
    else None
  }

  /** The code unit of four hexadecimal digits. */
  function FourDigits(t: Text): Option<Unit>
    requires |t| == 4
  {
    var a, b, c, d := HexValue(t[0]), HexValue(t[1]), HexValue(t[2]), HexValue(t[3]);
    if a.None? || b.None? || c.None? || d.None? || a.value >= 16 || b.value >= 16 || c.value >= 16 || d.value >= 16 then None
    else Some(4096 * a.value + 256 * b.value + 16 * c.value + d.value)
  }

  datatype Parsed<T> = Parsed(value: T, rest: Text)

  /** The characters up to the closing quote. */
  function ReadString(t: Text): (r: Option<Parsed<Text>>)
    ensures r.Some? ==> |r.value.rest| < |t|
  {
    if t == [] then None
    else if t[0] == Code('"') then Some(Parsed([], t[1..]))
    else if t[0] == Code('\\') then
      if |t| < 2 then None
      else if t[1] == Code('u') then
        if |t| < 6 || FourDigits(t[2..6]).None? then None else Prepend(FourDigits(t[2..6]).value, ReadString(t[6..]))
      else if Unescaped(t[1]).None? then None
      else Prepend(Unescaped(t[1]).value, ReadString(t[2..]))
    else if t[0] < 0x20 then None
    else Prepend(t[0], ReadString(t[1..]))
  }

  function Prepend(u: Unit, r: Option<Parsed<Text>>): (q: Option<Parsed<Text>>)
    ensures q.Some? <==> r.Some?
    ensures q.Some? ==> q.value.rest == r.value.rest && q.value.value == [u] + r.value.value
  {
    if r.None? then None else Some(Parsed([u] + r.value.value, r.value.rest))
  }

  // ---- numbers ----

  /** The length of the longest run of characters that numbers are made of. */
  function Run(t: Text): (n: nat)
    ensures n <= |t|
  {
    if t == [] || !TokenUnit(t[0]) then 0 else 1 + Run(t[1..])
  }

  function ReadNumber(t: Text): (r: Option<Parsed<Json>>)
    ensures r.Some? ==> |r.value.rest| < |t|
  {
    if NumberToken(t[..Run(t)]) then
      NumberUnits(t[..Run(t)]);
      Some(Parsed(Number(t[..Run(t)]), t[Run(t)..]))
    else None
  }

  // ---- values ----

  predicate Starts(t: Text, word: Text) { |word| <= |t| && t[..|word|] == word }

  function Read(t: Text): (r: Option<Parsed<Json>>)
    ensures r.Some? ==> |r.value.rest| < |t|
    decreases |t|, 0
  {
    if t == [] then None
    else if t[0] == Code('"') then
      var s := ReadString(t[1..]);
      if s.None? then None else Some(Parsed(String(s.value.value), s.value.rest))
    else if t[0] == Code('[') then
      if |t| > 1 && t[1] == Code(']') then Some(Parsed(Array([]), t[2..]))
      else
        var items := ReadItems(t[1..]);
        if items.None? then None else Some(Parsed(Array(items.value.value), items.value.rest))
    else if t[0] == Code('{') then
      if |t| > 1 && t[1] == Code('}') then Some(Parsed(Object([]), t[2..]))
      else
        var members := ReadMembers(t[1..]);
        if members.None? then None else Some(Parsed(Object(members.value.value), members.value.rest))
    else if Starts(t, Word("null")) then Some(Parsed(Null, t[4..]))
    else if Starts(t, Word("true")) then Some(Parsed(Bool(true), t[4..]))
    else if Starts(t, Word("false")) then Some(Parsed(Bool(false), t[5..]))
    else ReadNumber(t)
  }

  /** Values with commas between them, up to the closing bracket. */
  function ReadItems(t: Text): (r: Option<Parsed<seq<Json>>>)
    ensures r.Some? ==> |r.value.rest| < |t|
    decreases |t|, 1
  {
    var first := Read(t);
    if first.None? || first.value.rest == [] then None
    else if first.value.rest[0] == Code(']') then Some(Parsed([first.value.value], first.value.rest[1..]))
    else if first.value.rest[0] == Code(',') then
      var others := ReadItems(first.value.rest[1..]);
      if others.None? then None else Some(Parsed([first.value.value] + others.value.value, others.value.rest))
    else None
  }

  /** A key, a colon and a value. */
  function ReadMember(t: Text): (r: Option<Parsed<(Text, Json)>>)
    ensures r.Some? ==> |r.value.rest| < |t|
    decreases |t|, 1
  {
    if t == [] || t[0] != Code('"') then None
    else
      var key := ReadString(t[1..]);
      if key.None? || key.value.rest == [] || key.value.rest[0] != Code(':') then None
      else
        var value := Read(key.value.rest[1..]);
        if value.None? then None else Some(Parsed((key.value.value, value.value.value), value.value.rest))
  }

  function ReadMembers(t: Text): (r: Option<Parsed<seq<(Text, Json)>>>)
    ensures r.Some? ==> |r.value.rest| < |t|
    decreases |t|, 2
  {
    var first := ReadMember(t);
    if first.None? || first.value.rest == [] then None
    else if first.value.rest[0] == Code('}') then Some(Parsed([first.value.value], first.value.rest[1..]))
    else if first.value.rest[0] == Code(',') then
      var others := ReadMembers(first.value.rest[1..]);
      if others.None? then None else Some(Parsed([first.value.value] + others.value.value, others.value.rest))
    else None
  }

  // ---- canonical strings and numbers read back ----

  lemma {:induction false} HexBack(d: int)
    requires 0 <= d < 16
    ensures HexValue(Hex(d)) == Some(d)
  {}

  lemma {:induction false} FourBack(u: Unit)
    ensures FourDigits([Hex(u / 4096), Hex(u / 256 % 16), Hex(u / 16 % 16), Hex(u % 16)]) == Some(u)
  {
    HexBack(u / 4096);
    HexBack(u / 256 % 16);
    HexBack(u / 16 % 16);
    HexBack(u % 16);
    DivideTwice(u);
    hide Hex, HexValue;
    assert u == 16 * (u / 16) + u % 16 && u / 16 == 16 * (u / 256) + u / 16 % 16 && u / 256 == 16 * (u / 4096) + u / 256 % 16;
  }

  /** An escaped character reads back. */
  lemma {:induction false} EscapeBack(u: Unit, x: Text)
    ensures ReadString(Escape(u) + x) == Prepend(u, ReadString(x))
  {
    var e := Escape(u);
    var t := e + x;
    assert t[0] == e[0] && t[|e|..] == x;
    if |e| > 1 { assert t[1] == e[1]; }
    if |e| == 6 {
      assert t[2..6] == [Hex(u / 4096), Hex(u / 256 % 16), Hex(u / 16 % 16), Hex(u % 16)];
      FourBack(u);
    }
    hide FourDigits, Hex;
  }

  lemma {:induction false} PlainBack(u: Unit, x: Text)
    requires u >= 0x80
    ensures ReadString([u] + x) == Prepend(u, ReadString(x))
  {
    assert ([u] + x)[1..] == x;
  }

  lemma {:induction false} EndBack(x: Text)
    ensures ReadString(Body([]) + x) == Some(Parsed([], x))
  {
    assert ([34] + x)[1..] == x;
  }

  lemma {:induction false} PairBack(s: Text, x: Text)
    requires Paired(s)
    ensures ReadString([s[0], s[1]] + x) == Prepend(s[0], Prepend(s[1], ReadString(x)))
  {
    hide ReadString;
    PlainBack(s[0], [s[1]] + x);
    PlainBack(s[1], x);
    assert [s[0], s[1]] + x == [s[0]] + ([s[1]] + x);
  }

  lemma {:induction false} BodyBack(s: Text, x: Text)
    ensures ReadString(Body(s) + x) == Some(Parsed(s, x))
    decreases |s|
  {
    hide ReadString, Escape, Body;
    if s == [] {
      EndBack(x);
    } else if Paired(s) {
      BodyPair(s, x);
      BodyBack(s[2..], x);
      PairBack(s, Body(s[2..]) + x);
      assert s == [s[0]] + ([s[1]] + s[2..]);
    } else {
      BodySingle(s, x);
      BodyBack(s[1..], x);
      EscapeBack(s[0], Body(s[1..]) + x);
      assert s == [s[0]] + s[1..];
    }
  }

  lemma {:induction false} RunBack(t: Text, x: Text)
    requires AllUnits(t) && Ends(x)
    ensures Run(t + x) == |t|
  {
    if t != [] {
      assert (t + x)[1..] == t[1..] + x;
      RunBack(t[1..], x);
    } else {
      assert t + x == x;
    }
  }

  lemma {:induction false} NumberBack(token: Text, x: Text)
    requires NumberToken(token) && Ends(x)
    ensures Read(token + x) == Some(Parsed(Number(token), x))
  {
    NumberUnits(token);
    RunBack(token, x);
    var t := token + x;
    assert t[0] == token[0] && t[..|token|] == token && t[|token|..] == x;
    hide NumberToken, Run;
    Heads(t);
  }

  lemma {:induction false} OtherHead(t: Text, w: Text)
    requires t != [] && w != [] && t[0] != w[0]
    ensures !Starts(t, w)
  {
    assert |w| <= |t| ==> t[..|w|][0] == t[0];
  }

  /** A text that starts like a number starts no word. */
  lemma {:induction false} Heads(t: Text)
    requires t != [] && (Digit(t[0]) || t[0] == 45)
    ensures !Starts(t, Word("null")) && !Starts(t, Word("true")) && !Starts(t, Word("false"))
  {
    OtherHead(t, Word("null"));
    OtherHead(t, Word("true"));
    OtherHead(t, Word("false"));
  }

  lemma {:induction false} WordBack(j: Json, x: Text)
    requires j.Null? || j.Bool?
    ensures Read(Canonical(j) + x) == Some(Parsed(j, x))
  {
    var w := Canonical(j);
    var t := w + x;
    assert t[0] == w[0] && t[..|w|] == w && t[|w|..] == x;
    assert Word("null") == [110, 117, 108, 108];
    assert Word("true") == [116, 114, 117, 101];
    assert Word("false") == [102, 97, 108, 115, 101];
    if !j.Null? { OtherHead(t, Word("null")); }
    if j == Bool(false) { OtherHead(t, Word("true")); }
    hide Word;
  }

  // ---- what is read ----

  /** The keys of every object, at every level, strictly ascend by code units. */
  ghost predicate KeysAscend(j: Json)
    decreases j
  {
    match j
    case Array(items) => forall i :: 0 <= i < |items| ==> KeysAscend(items[i])
    case Object(members) => Ascending(Keys(members)) && forall i :: 0 <= i < |members| ==> KeysAscend(members[i].1)
    case _ => true
  }

  /** The value that canonical text reads back to. */
  ghost predicate ReadsAs(j: Json, r: Option<Parsed<Json>>, x: Text) {
    r.Some? && r.value.rest == x && Same(j, r.value.value) && KeysAscend(r.value.value)
  }

  lemma {:induction false} ReadsBack(j: Json, x: Text)
    requires WellFormed(j) && Ends(x)
    ensures ReadsAs(j, Read(Canonical(j) + x), x)
    decreases j, 1
  {
    match j
    case Null => WordBack(j, x);
    case Bool(_) => WordBack(j, x);
    case Number(token) => NumberBack(token, x);
    case String(s) => StringBack(s, x);
    case Array(_) => ArrayBack(j, x);
    case Object(_) => ObjectBack(j, x);
  }

  lemma {:induction false} StringBack(s: Text, x: Text)
    ensures Read(Canonical(String(s)) + x) == Some(Parsed(String(s), x))
  {
    BodyBack(s, x);
    var t := Canonical(String(s)) + x;
    hide Body, ReadString;
    assert t[0] == 34 && t[1..] == Body(s) + x;
  }

  /** Texts of items read back to the items. */
  ghost predicate ItemsAs(items: seq<Json>, r: Option<Parsed<seq<Json>>>, x: Text) {
    && r.Some? && r.value.rest == x && |r.value.value| == |items|
    && forall i :: 0 <= i < |items| ==> Same(items[i], r.value.value[i]) && KeysAscend(r.value.value[i])
  }

  lemma {:induction false} ItemsStep(t: Text, item: Json, u: Text)
    requires Read(t) == Some(Parsed(item, u)) && u != []
    ensures u[0] == 93 ==> ReadItems(t) == Some(Parsed([item], u[1..]))
    ensures u[0] == 44 ==>
              ReadItems(t) == if ReadItems(u[1..]).None? then None
                              else Some(Parsed([item] + ReadItems(u[1..]).value.value, ReadItems(u[1..]).value.rest))
  {
    hide Read;
  }

  lemma {:induction false} ItemsCons(items: seq<Json>, item: Json, others: seq<Json>, x: Text)
    requires items != [] && Same(items[0], item) && KeysAscend(item) && ItemsAs(items[1..], Some(Parsed(others, x)), x)
    ensures ItemsAs(items, Some(Parsed([item] + others, x)), x)
  {
    hide Same, KeysAscend;
    var all := [item] + others;
    forall i | 0 <= i < |items| ensures Same(items[i], all[i]) && KeysAscend(all[i]) {
      if i > 0 { assert all[i] == others[i - 1] && items[i] == items[1..][i - 1]; }
    }
  }

  lemma {:induction false} ItemsMore(items: seq<Json>, r: Option<Parsed<seq<Json>>>, x: Text)
    ensures ItemsAs(items, r, x) ==> r.Some? && r == Some(Parsed(r.value.value, x))
    ensures items == [] ==> ItemsAs(items, Some(Parsed([], x)), x)
  {}

  lemma {:induction false} ItemWellFormed(j: Json, k: nat)
    requires j.Array? && WellFormed(j) && k < |j.items|
    ensures WellFormed(j.items[k])
  {}

  lemma {:induction false} ItemsBack(j: Json, k: nat, x: Text)
    requires j.Array? && WellFormed(j) && k < |j.items|
    ensures ItemsAs(j.items[k..], ReadItems(Join(ItemParts(j.items)[k..]) + [93] + x), x)
    decreases j, 0, |j.items| - k
  {
    hide Read, ReadItems, Canonical, Same, KeysAscend, WellFormed, Join, ItemParts, ItemsAs;
    var items, ps := j.items, ItemParts(j.items);
    ItemWellFormed(j, k);
    var u := JoinTail(ps[k..], 93, x);
    var t := Join(ps[k..]) + [93] + x;
    assert t == Canonical(items[k]) + u;
    ReadsBack(items[k], u);
    var item := Read(t).value.value;
    ItemsStep(t, item, u);
    assert items[k..][1..] == items[k + 1..] && items[k..][0] == items[k] && ps[k..][1..] == ps[k + 1..];
    ItemsMore(items[k + 1..], ReadItems(u[1..]), x);
    if k + 1 < |items| {
      ItemsBack(j, k + 1, x);
      assert u[1..] == Join(ps[k + 1..]) + [93] + x;
      ItemsCons(items[k..], item, ReadItems(u[1..]).value.value, x);
    } else {
      assert u[1..] == x;
      ItemsCons(items[k..], item, [], x);
      assert [item] + [] == [item];
    }
  }

  lemma {:induction false} ArrayStep(u: Text)
    requires u != [] && u[0] != 93
    ensures Read([91] + u) == if ReadItems(u).None? then None
                              else Some(Parsed(Array(ReadItems(u).value.value), ReadItems(u).value.rest))
  {
    hide ReadItems;
    assert ([91] + u)[1..] == u;
  }

  lemma {:induction false} EmptyBack(x: Text)
    ensures Read([91, 93] + x) == Some(Parsed(Array([]), x)) && Read([123, 125] + x) == Some(Parsed(Object([]), x))
  {
    assert ([91, 93] + x)[2..] == x && ([123, 125] + x)[2..] == x;
  }

  lemma {:induction false} ItemsSame(items: seq<Json>, r: Option<Parsed<seq<Json>>>, x: Text)
    requires ItemsAs(items, r, x)
    ensures r.Some? && r.value.rest == x && Same(Array(items), Array(r.value.value)) && KeysAscend(Array(r.value.value))
  {}

  lemma {:induction false} ArrayBack(j: Json, x: Text)
    requires j.Array? && WellFormed(j) && Ends(x)
    ensures ReadsAs(j, Read(Canonical(j) + x), x)
    decreases j, 0
  {
    hide Canonical, Read, ReadItems, WellFormed, ItemParts, ItemsAs, Same, KeysAscend;
    CanonicalArray(j.items);
    var ps := ItemParts(j.items);
    if j.items == [] {
      assert Join(ps) == [] && Canonical(j) + x == [91, 93] + x;
      EmptyBack(x);
      EmptySame(j);
    } else {
      hide Join;
      var u := Join(ps) + [93] + x;
      ItemsBack(j, 0, x);
      FirstItem(j, x);
      assert j.items[0..] == j.items && ps[0..] == ps;
      assert Canonical(j) + x == [91] + u;
      ArrayStep(u);
      ItemsSame(j.items, ReadItems(u), x);
    }
  }

  lemma {:induction false} EmptySame(j: Json)
    requires j == Array([]) || j == Object([])
    ensures Same(j, j) && KeysAscend(j)
  {}

  lemma {:induction false} FirstItem(j: Json, x: Text)
    requires j.Array? && WellFormed(j) && j.items != []
    ensures var u := Join(ItemParts(j.items)) + [93] + x; u != [] && u[0] != 93
  {
    var u := JoinTail(ItemParts(j.items), 93, x);
    CanonicalHead(j.items[0]);
    hide Canonical;
    assert (Canonical(j.items[0]) + u)[0] == Canonical(j.items[0])[0];
  }

  /** Texts of members read back to members with the sorted keys. */
  ghost predicate MembersAs(members: seq<(Text, Json)>, keys: seq<Text>, r: Option<Parsed<seq<(Text, Json)>>>, x: Text)
    requires forall i :: 0 <= i < |keys| ==> keys[i] in Keys(members)
  {
    && r.Some? && r.value.rest == x && |r.value.value| == |keys|
    && forall i :: 0 <= i < |keys| ==>
         && r.value.value[i].0 == keys[i]
         && Same(members[Find(members, keys[i])].1, r.value.value[i].1) && KeysAscend(r.value.value[i].1)
  }

  lemma {:induction false} MemberStep(body: Text, key: Text, rest: Text)
    requires ReadString(body) == Some(Parsed(key, [58] + rest))
    ensures ReadMember([34] + body)
         == if Read(rest).None? then None else Some(Parsed((key, Read(rest).value.value), Read(rest).value.rest))
  {
    hide ReadString, Read;
    assert ([34] + body)[1..] == body && ([58] + rest)[1..] == rest;
  }

  lemma {:induction false} MemberBack(key: Text, v: Json, x: Text)
    requires WellFormed(v) && Ends(x)
    ensures var r := ReadMember(Quote(key) + [58] + Canonical(v) + x);
            r.Some? && r.value.rest == x && r.value.value.0 == key && Same(v, r.value.value.1) && KeysAscend(r.value.value.1)
    decreases v, 2
  {
    hide Read, ReadMember, Canonical, Same, KeysAscend, WellFormed, Body, ReadString;
    var c, q := Canonical(v), Body(key);
    var rest := c + x;
    var body := q + ([58] + rest);
    BodyBack(key, [58] + rest);
    ReadsBack(v, x);
    assert [34] + q + [58] + c + x == [34] + body;
    MemberStep(body, key, rest);
  }

  lemma {:induction false} MembersStep(t: Text, m: (Text, Json), u: Text)
    requires ReadMember(t) == Some(Parsed(m, u)) && u != []
    ensures u[0] == 125 ==> ReadMembers(t) == Some(Parsed([m], u[1..]))
    ensures u[0] == 44 ==>
              ReadMembers(t) == if ReadMembers(u[1..]).None? then None
                                else Some(Parsed([m] + ReadMembers(u[1..]).value.value, ReadMembers(u[1..]).value.rest))
  {
    hide ReadMember;
  }

  lemma {:induction false} MembersCons(ms: seq<(Text, Json)>, keys: seq<Text>, m: (Text, Json), others: seq<(Text, Json)>, x: Text)
    requires keys != [] && forall i :: 0 <= i < |keys| ==> keys[i] in Keys(ms)
    requires m.0 == keys[0] && Same(ms[Find(ms, keys[0])].1, m.1) && KeysAscend(m.1)
    requires MembersAs(ms, keys[1..], Some(Parsed(others, x)), x)
    ensures MembersAs(ms, keys, Some(Parsed([m] + others, x)), x)
  {
    hide Find, Same, KeysAscend;
    var ns := [m] + others;
    forall i | 0 <= i < |keys|
      ensures ns[i].0 == keys[i] && Same(ms[Find(ms, keys[i])].1, ns[i].1) && KeysAscend(ns[i].1)
    {
      if i > 0 { assert ns[i] == others[i - 1] && keys[i] == keys[1..][i - 1]; }
    }
  }

  lemma {:induction false} MemberWellFormed(j: Json, key: Text)
    requires j.Object? && WellFormed(j) && key in Keys(j.members)
    ensures var v := j.members[Find(j.members, key)].1; WellFormed(v) && v < j
  {}

  lemma {:induction false} MembersBack(j: Json, k: nat, x: Text)
    requires j.Object? && WellFormed(j) && k < |j.members|
    ensures MembersAs(j.members, SortedKeys(j.members)[k..], ReadMembers(Join(MemberParts(j.members)[k..]) + [125] + x), x)
    decreases j, 0, |j.members| - k
  {
    hide ReadMember, ReadMembers, Canonical, Same, KeysAscend, WellFormed, Join, MemberParts, SortedKeys, Find, Quote, MembersAs;
    var ms, ks, ps := j.members, SortedKeys(j.members), MemberParts(j.members);
    var u := JoinTail(ps[k..], 125, x);
    MemberWellFormed(j, ks[k]);
    var v := ms[Find(ms, ks[k])].1;
    var t := Join(ps[k..]) + [125] + x;
    assert t == Quote(ks[k]) + [58] + Canonical(v) + u;
    MemberBack(ks[k], v, u);
    var m := ReadMember(t).value.value;
    assert ReadMember(t) == Some(Parsed(m, u));
    MembersStep(t, m, u);
    assert ks[k..][1..] == ks[k + 1..] && ks[k..][0] == ks[k] && ps[k..][1..] == ps[k + 1..];
    if k + 1 < |ms| {
      MembersBack(j, k + 1, x);
      assert u[1..] == Join(ps[k + 1..]) + [125] + x;
      MembersMore(ms, ks[k + 1..], ReadMembers(u[1..]), x);
      MembersCons(ms, ks[k..], m, ReadMembers(u[1..]).value.value, x);
    } else {
      assert u[1..] == x;
      MembersNone(ms, ks[k + 1..], x);
      MembersCons(ms, ks[k..], m, [], x);
      assert [m] + [] == [m];
    }
  }

  lemma {:induction false} MembersMore(ms: seq<(Text, Json)>, keys: seq<Text>, r: Option<Parsed<seq<(Text, Json)>>>, x: Text)
    requires (forall i :: 0 <= i < |keys| ==> keys[i] in Keys(ms)) && MembersAs(ms, keys, r, x)
    ensures r.Some? && r == Some(Parsed(r.value.value, x))
  {}

  lemma {:induction false} MembersNone(ms: seq<(Text, Json)>, keys: seq<Text>, x: Text)
    requires keys == []
    ensures MembersAs(ms, keys, Some(Parsed([], x)), x)
  {}

  lemma {:induction false} ObjectStep(u: Text)
    requires u != [] && u[0] != 125
    ensures Read([123] + u) == if ReadMembers(u).None? then None
                               else Some(Parsed(Object(ReadMembers(u).value.value), ReadMembers(u).value.rest))
  {
    hide ReadMembers;
    assert ([123] + u)[1..] == u;
  }

  lemma {:induction false} DistinctKeys(ms: seq<(Text, Json)>)
    requires WellFormed(Object(ms))
    ensures forall i, k :: 0 <= i < k < |ms| ==> Keys(ms)[i] != Keys(ms)[k]
  {}

  lemma {:induction false} ObjectBack(j: Json, x: Text)
    requires j.Object? && WellFormed(j) && Ends(x)
    ensures ReadsAs(j, Read(Canonical(j) + x), x)
    decreases j, 0
  {
    hide Canonical, Read, ReadMembers, WellFormed, MemberParts, MembersAs, Same, KeysAscend, SortedKeys;
    var ms, ks, ps := j.members, SortedKeys(j.members), MemberParts(j.members);
    CanonicalObject(ms);
    if ms == [] {
      assert Join(ps) == [] && Canonical(j) + x == [123, 125] + x;
      EmptyBack(x);
      EmptySame(j);
    } else {
      hide Join;
      var u := Join(ps) + [125] + x;
      MembersBack(j, 0, x);
      FirstMember(j, x);
      DistinctKeys(ms);
      KeysSorted(ms);
      assert ks[0..] == ks && ps[0..] == ps;
      assert Canonical(j) + x == [123] + u;
      ObjectStep(u);
      MembersMore(ms, ks, ReadMembers(u), x);
      SortedMembers(ms, ks, ReadMembers(u), x);
    }
  }

  lemma {:induction false} KeysSorted(ms: seq<(Text, Json)>)
    requires forall i, k :: 0 <= i < k < |ms| ==> Keys(ms)[i] != Keys(ms)[k]
    ensures Ascending(SortedKeys(ms))
  {
    SortAscends(Keys(ms));
  }

  lemma {:induction false} FirstMember(j: Json, x: Text)
    requires j.Object? && j.members != []
    ensures var u := Join(MemberParts(j.members)) + [125] + x; u != [] && u[0] != 125
  {
    var ps := MemberParts(j.members);
    var u := JoinTail(ps, 125, x);
    assert ps[0][0] == 34;
    assert (ps[0] + u)[0] == 34;
  }

  /** Members read in the order of the sorted keys make the same object. */
  lemma {:induction false} SortedMembers(ms: seq<(Text, Json)>, ks: seq<Text>, r: Option<Parsed<seq<(Text, Json)>>>, x: Text)
    requires WellFormed(Object(ms)) && ks == SortedKeys(ms) && Ascending(ks) && MembersAs(ms, ks, r, x)
    ensures Same(Object(ms), Object(r.value.value)) && KeysAscend(Object(r.value.value))
  {
    var ns := r.value.value;
    hide Less;
    assert Keys(ns) == ks;
    forall i: nat, k: nat | i < |ms| && k < |ns| && ms[i].0 == ns[k].0 ensures Same(ms[i].1, ns[k].1) {
      assert Find(ms, ks[k]) == i;
    }
  }

  /** Canonical text is JSON text of the value: it reads back, to the end, to the value up to key order, with the keys of
      every object ascending. */
  lemma {:induction false} CanonicalIsJson(j: Json)
    requires WellFormed(j)
    ensures var r := Read(Canonical(j)); r.Some? && r.value.rest == [] && Same(j, r.value.value) && KeysAscend(r.value.value)
  {
    ReadsBack(j, []);
    assert Canonical(j) + [] == Canonical(j);
  }
}
