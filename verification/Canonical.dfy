/** The canonical printer of the definition module: JSON without spaces, with the members of every object in the
    order of their keys' code units. What it loses is the order of members and the sign of zero, nothing else. */
module Canonical {
  import opened Utf16
  import Utf8
  import opened Wrappers

  const QUOTE: unit := 0x22
  const BACKSLASH: unit := 0x5C
  const COMMA: unit := 0x2C
  const COLON: unit := 0x3A
  const MINUS: unit := 0x2D
  const OPEN_ARRAY: unit := 0x5B
  const CLOSE_ARRAY: unit := 0x5D
  const OPEN_OBJECT: unit := 0x7B
  const CLOSE_OBJECT: unit := 0x7D
  const NULL: text := [0x6E, 0x75, 0x6C, 0x6C]
  const TRUE: text := [0x74, 0x72, 0x75, 0x65]
  const FALSE: text := [0x66, 0x61, 0x6C, 0x73, 0x65]
  const ZERO: numeral := [0x30]

  // ---------------------------------------------------------------- numbers (RFC 8259, section 6)

  predicate IsDigit(u: unit) { 0x30 <= u <= 0x39 }

  /** The end of the digits that start at `i`. */
  function DigitsEnd(s: text, i: nat): (r: nat)
    requires i <= |s|
    ensures i <= r <= |s|
    decreases |s| - i
  {
    if i < |s| && IsDigit(s[i]) then DigitsEnd(s, i + 1) else i
  }

  function IntEnd(s: text): (r: Option<nat>)
    ensures r.Some? ==> 0 < r.value <= |s|
  {
    var i := if |s| > 0 && s[0] == MINUS then 1 else 0;
    if i >= |s| || !IsDigit(s[i]) then None else if s[i] == 0x30 then Some(i + 1) else Some(DigitsEnd(s, i + 1))
  }

  /** A mark at `i` with digits after it, which may be absent; `sign` lets a sign stand between. */
  function PartEnd(s: text, i: nat, marks: set<unit>, sign: bool): (r: Option<nat>)
    requires i <= |s|
    ensures r.Some? ==> i <= r.value <= |s|
  {
    if i == |s| || s[i] !in marks then Some(i)
    else
      var j := if sign && i + 1 < |s| && s[i + 1] in {0x2B, MINUS} then i + 2 else i + 1;
      if j >= |s| || !IsDigit(s[j]) then None else Some(DigitsEnd(s, j))
  }

  /** The end of the longest number at the front. */
  function NumberEnd(s: text): (r: Option<nat>)
    ensures r.Some? ==> 0 < r.value <= |s|
  {
    var i := IntEnd(s);
    if i.None? then None
    else
      var j := PartEnd(s, i.value, {0x2E}, false);
      if j.None? then None else PartEnd(s, j.value, {0x45, 0x65}, true)
  }

  type numeral = s: text | NumberEnd(s) == Some(|s|) witness [0x30]

  predicate Digits(s: text) { s != [] && forall u :: u in s ==> 0x30 <= u <= 0x39 }

  predicate IsWhole(s: text) { s == [0x30] || (Digits(s) && s[0] != 0x30) }

  /** Nothing, or one of the marks and then digits, with a sign before them where one may stand. */
  predicate IsPart(s: text, marks: set<unit>, sign: bool) {
    s == [] || (s[0] in marks && (Digits(s[1..]) || (sign && |s| > 1 && s[1] in {0x2B, 0x2D} && Digits(s[2..]))))
  }

  /** A number is a minus or none, a whole part without a leading zero, a fraction or none, an exponent or none. */
  predicate IsNumber(s: text, minus: text, whole: text, frac: text, exp: text) {
    && s == minus + whole + frac + exp && (minus == [] || minus == [0x2D]) && IsWhole(whole)
    && IsPart(frac, {0x2E}, false) && IsPart(exp, {0x45, 0x65}, true)
  }

  lemma {:induction false} DigitsRun(front: text, run: text, rest: text)
    requires (forall u :: u in run ==> IsDigit(u)) && (rest != [] ==> !IsDigit(rest[0]))
    ensures DigitsEnd(front + run + rest, |front|) == |front| + |run|
    decreases |run|
  {
    var s := front + run + rest;
    if run == [] {
      assert rest != [] ==> s[|front|] == rest[0];
    } else {
      DigitsRun(front + [run[0]], run[1..], rest);
      assert s == (front + [run[0]]) + run[1..] + rest;
      assert s[|front|] == run[0] && run[0] in run;
    }
  }

  lemma {:induction false} DigitsEndStops(s: text, i: nat)
    requires i <= |s|
    ensures var r := DigitsEnd(s, i);
      (r < |s| ==> !IsDigit(s[r])) && forall k :: i <= k < r ==> IsDigit(s[k])
    decreases |s| - i
  {
    if i < |s| && IsDigit(s[i]) {
      DigitsEndStops(s, i + 1);
    }
  }

  lemma WholeEnds(minus: text, whole: text, rest: text)
    requires (minus == [] || minus == [0x2D]) && IsWhole(whole) && (rest != [] ==> !IsDigit(rest[0]))
    ensures IntEnd(minus + whole + rest) == Some(|minus| + |whole|)
  {
    var s, i := minus + whole + rest, |minus|;
    assert s[i] == whole[0] && whole[0] in whole;
    if whole != [0x30] {
      assert forall u :: u in whole[1..] ==> u in whole;
      DigitsRun(minus + whole[..1], whole[1..], rest);
      assert s == (minus + whole[..1]) + whole[1..] + rest;
    }
  }

  lemma PartEnds(front: text, part: text, rest: text, marks: set<unit>, sign: bool)
    requires IsPart(part, marks, sign) && marks <= {0x2E, 0x45, 0x65}
    requires rest != [] ==> !IsDigit(rest[0]) && rest[0] !in marks
    ensures PartEnd(front + part + rest, |front|, marks, sign) == Some(|front| + |part|)
  {
    var s, i := front + part + rest, |front|;
    if part == [] {
      assert rest != [] ==> s[i] == rest[0];
    } else {
      assert s[i] == part[0] && (|part| > 1 ==> s[i + 1] == part[1]);
      assert Digits(part[1..]) ==> part[1..][0] == part[1] && part[1] in part[1..];
      var j := if sign && |part| > 1 && part[1] in {0x2B, 0x2D} then 2 else 1;
      assert part[j] in part[j..] && s[i + j] == part[j];
      DigitsRun(front + part[..j], part[j..], rest);
      assert s == (front + part[..j]) + part[j..] + rest;
    }
  }

  lemma NumberEnds(s: text, minus: text, whole: text, frac: text, exp: text)
    requires IsNumber(s, minus, whole, frac, exp)
    ensures NumberEnd(s) == Some(|s|)
  {
    hide IntEnd, PartEnd, IsWhole;
    var head := minus + whole;
    assert frac + exp != [] ==> (frac + exp)[0] in {0x2E, 0x45, 0x65};
    WholeEnds(minus, whole, frac + exp);
    assert s == head + (frac + exp) == head + frac + exp;
    PartEnds(head, frac, exp, {0x2E}, false);
    PartEnds(head + frac, exp, [], {0x45, 0x65}, true);
    assert s == (head + frac) + exp + [];
  }

  lemma WholeIs(s: text)
    requires IntEnd(s).Some?
    ensures var k := if s[0] == 0x2D then 1 else 0;
      k <= IntEnd(s).value && IsWhole(s[k..IntEnd(s).value])
  {
    var k := if s[0] == 0x2D then 1 else 0;
    if s[k] != 0x30 { DigitsEndStops(s, k + 1); }
  }

  lemma PartIs(s: text, i: nat, marks: set<unit>, sign: bool)
    requires i <= |s| && PartEnd(s, i, marks, sign).Some?
    ensures IsPart(s[i..PartEnd(s, i, marks, sign).value], marks, sign)
  {
    var r := PartEnd(s, i, marks, sign).value;
    if i < |s| && s[i] in marks {
      var j := if sign && i + 1 < |s| && s[i + 1] in {0x2B, MINUS} then i + 2 else i + 1;
      DigitsEndStops(s, j);
      assert DigitsEnd(s, j) > j;
      var part := s[i..r];
      assert part[j - i..] == s[j..r];
    }
  }

  lemma NumberIs(s: text) returns (minus: text, whole: text, frac: text, exp: text)
    requires NumberEnd(s) == Some(|s|)
    ensures IsNumber(s, minus, whole, frac, exp)
  {
    var k, i := if s[0] == 0x2D then 1 else 0, IntEnd(s).value;
    var j := PartEnd(s, i, {0x2E}, false).value;
    WholeIs(s);
    PartIs(s, i, {0x2E}, false);
    PartIs(s, j, {0x45, 0x65}, true);
    hide IntEnd, PartEnd, NumberEnd, IsWhole, IsPart;
    minus, whole, frac, exp := s[..k], s[k..i], s[i..j], s[j..|s|];
    assert s[..i] == minus + whole && s[..j] == s[..i] + frac && s == s[..j] + exp;
  }

  /** The numerals are the numbers of the grammar, all of them and nothing else. */
  lemma NumeralsExactly(s: text)
    ensures NumberEnd(s) == Some(|s|) <==>
      exists minus, whole, frac, exp :: IsNumber(s, minus, whole, frac, exp)
  {
    hide IsNumber, NumberEnd;
    if minus, whole, frac, exp :| IsNumber(s, minus, whole, frac, exp) { NumberEnds(s, minus, whole, frac, exp); }
    if NumberEnd(s) == Some(|s|) { var minus, whole, frac, exp := NumberIs(s); }
  }

  // ---------------------------------------------------------------- values

  /** A finite number is the text JavaScript prints for it; zero has a second, negative, form. */
  datatype Number = Finite(numeral: numeral) | NegativeZero | NotFinite

  /** A value handed to the printer. Whatever JSON has no form for is `Unsupported`. */
  datatype Json =
    | Null
    | Bool(b: bool)
    | Num(n: Number)
    | Str(s: text)
    | Arr(items: seq<Json>)
    | Obj(members: seq<Member>)
    | Unsupported

  datatype Member = Member(key: text, value: Json)

  /** Nothing in it that JSON has no form for. */
  predicate Printable(v: Json) {
    match v
    case Num(n) => !n.NotFinite?
    case Arr(items) => forall i :: 0 <= i < |items| ==> Printable(items[i])
    case Obj(members) => forall i :: 0 <= i < |members| ==> Printable(members[i].value)
    case Unsupported => false
    case _ => true
  }

  // ---------------------------------------------------------------- keys in order

  /** JavaScript's `<` on strings. */
  predicate Less(a: text, b: text) {
    b != [] && (a == [] || a[0] < b[0] || (a[0] == b[0] && Less(a[1..], b[1..])))
  }

  /** Text `a` comes before `b` at place `i`: they are alike up to there, and `a` ends or has the smaller unit. */
  predicate AheadAt(a: text, b: text, i: nat) {
    i <= |a| && i < |b| && a[..i] == b[..i] && (i == |a| || a[i] < b[i])
  }

  ghost predicate Ahead(a: text, b: text) { exists i: nat :: AheadAt(a, b, i) }

  lemma AheadRest(a: text, b: text, i: nat)
    requires a != [] && b != [] && a[0] == b[0]
    ensures AheadAt(a, b, i + 1) <==> AheadAt(a[1..], b[1..], i)
  {
    if i < |a| && i < |b| {
      assert a[..i + 1] == [a[0]] + a[1..][..i] && b[..i + 1] == [b[0]] + b[1..][..i];
      assert a[..i + 1][1..] == a[1..][..i] && b[..i + 1][1..] == b[1..][..i];
    }
  }

  /** The order is the dictionary's, by code units upwards. */
  lemma {:induction false} LessExactly(a: text, b: text)
    ensures Less(a, b) <==> Ahead(a, b)
  {
    if b != [] && a == [] {
      assert AheadAt(a, b, 0);
    } else if b != [] && a[0] == b[0] {
      LessExactly(a[1..], b[1..]);
      if i: nat :| AheadAt(a[1..], b[1..], i) { AheadRest(a, b, i); }
      if i: nat :| AheadAt(a, b, i) {
        assert i > 0;
        AheadRest(a, b, i - 1);
      }
    } else if b != [] {
      assert a[0] < b[0] ==> AheadAt(a, b, 0);
      assert forall i: nat :: 0 < i <= |a| && i < |b| ==> a[..i][0] != b[..i][0];
    }
  }

  lemma {:induction false} LessTotal(a: text, b: text)
    ensures a == b || Less(a, b) || Less(b, a)
    ensures !(Less(a, b) && Less(b, a)) && !Less(a, a)
  {
    if a != [] {
      LessTotal(a[1..], a[1..]);
      if b != [] {
        LessTotal(a[1..], b[1..]);
        if a[0] == b[0] && a[1..] == b[1..] { assert a == [a[0]] + a[1..] && b == [b[0]] + b[1..]; }
      }
    }
  }

  lemma {:induction false} LessChains(a: text, b: text, c: text)
    requires Less(a, b) && Less(b, c)
    ensures Less(a, c)
  {
    if a != [] && a[0] == b[0] == c[0] { LessChains(a[1..], b[1..], c[1..]); }
  }

  predicate InOrder(ms: seq<Member>) { forall i, j :: 0 <= i < j < |ms| ==> Less(ms[i].key, ms[j].key) }

  predicate DistinctKeys(ms: seq<Member>) {
    forall i, j :: 0 <= i < |ms| && 0 <= j < |ms| && ms[i].key == ms[j].key ==> i == j
  }

  function Insert(m: Member, ms: seq<Member>): (r: seq<Member>)
    ensures multiset(r) == multiset(ms) + multiset{m}
  {
    if ms == [] then [m]
    else if Less(ms[0].key, m.key) then
      assert ms == [ms[0]] + ms[1..];
      [ms[0]] + Insert(m, ms[1..])
    else [m] + ms
  }

  /** The stable sort by key. */
  function SortMembers(ms: seq<Member>): (r: seq<Member>)
    ensures multiset(r) == multiset(ms)
  {
    if ms == [] then []
    else
      assert ms == [ms[0]] + ms[1..];
      Insert(ms[0], SortMembers(ms[1..]))
  }

  lemma {:induction false} InsertOrders(m: Member, ms: seq<Member>)
    requires InOrder(ms) && forall i :: 0 <= i < |ms| ==> ms[i].key != m.key
    ensures InOrder(Insert(m, ms))
  {
    if ms != [] {
      if Less(ms[0].key, m.key) {
        InsertOrders(m, ms[1..]);
        var rest := Insert(m, ms[1..]);
        forall j | 0 <= j < |rest| ensures Less(ms[0].key, rest[j].key) {
          assert rest[j] in multiset(rest);
          if rest[j] != m {
            assert rest[j] in multiset(ms[1..]);
            var k :| 0 <= k < |ms[1..]| && ms[1..][k] == rest[j];
            assert ms[k + 1] == rest[j];
          }
        }
      } else {
        LessTotal(ms[0].key, m.key);
        forall j | 0 <= j < |ms| ensures Less(m.key, ms[j].key) {
          if j > 0 { LessChains(m.key, ms[0].key, ms[j].key); }
        }
      }
    }
  }

  lemma {:induction false} SortOrders(ms: seq<Member>)
    requires DistinctKeys(ms)
    ensures InOrder(SortMembers(ms))
  {
    if ms != [] {
      SortOrders(ms[1..]);
      var rest := SortMembers(ms[1..]);
      forall i | 0 <= i < |rest| ensures rest[i].key != ms[0].key {
        assert rest[i] in multiset(rest);
        assert rest[i] in multiset(ms[1..]);
        var k :| 0 <= k < |ms[1..]| && ms[1..][k] == rest[i];
        assert ms[k + 1] == rest[i];
      }
      InsertOrders(ms[0], rest);
    }
  }

  /** Members in order are fixed by which they are, so any sorting algorithm gives this order. */
  lemma {:induction false} OneOrder(a: seq<Member>, b: seq<Member>)
    requires InOrder(a) && InOrder(b)
    requires forall m :: m in a <==> m in b
    ensures a == b
  {
    assert a != [] ==> a[0] in b;
    assert b != [] ==> b[0] in a;
    if a != [] && b != [] {
      FirstIsLeast(a, b);
      assert a == [a[0]] + a[1..] && b == [b[0]] + b[1..];
      forall m ensures m in a[1..] <==> m in b[1..] {
        RestWithoutFirst(a, m);
        RestWithoutFirst(b, m);
      }
      OneOrder(a[1..], b[1..]);
    }
  }

  lemma RestWithoutFirst(a: seq<Member>, m: Member)
    requires a != [] && InOrder(a)
    ensures m in a[1..] <==> m in a && m != a[0]
  {
    if m in a[1..] {
      var k :| 0 <= k < |a[1..]| && a[1..][k] == m;
      assert Less(a[0].key, a[k + 1].key);
      LessTotal(a[0].key, m.key);
    }
    if m in a && m != a[0] {
      var k :| 0 <= k < |a| && a[k] == m;
      assert a[1..][k - 1] == m;
    }
  }

  lemma FirstIsLeast(a: seq<Member>, b: seq<Member>)
    requires a != [] && b != [] && InOrder(a) && InOrder(b)
    requires forall m :: m in a <==> m in b
    ensures a[0] == b[0]
  {
    assert a[0] in b && b[0] in a;
    var i :| 0 <= i < |b| && b[i] == a[0];
    var j :| 0 <= j < |a| && a[j] == b[0];
    if i > 0 && j > 0 {
      assert Less(b[0].key, b[i].key) && Less(a[0].key, a[j].key);
      LessTotal(a[0].key, b[0].key);
    }
  }

  // ---------------------------------------------------------------- strings (RFC 8259, section 7)

  function HexDigit(d: int): unit requires 0 <= d < 16 { if d < 10 then 0x30 + d else 0x61 + d - 10 }

  function HexEscape(u: unit): text {
    [BACKSLASH, 0x75, HexDigit(u / 16 / 16 / 16), HexDigit(u / 16 / 16 % 16), HexDigit(u / 16 % 16), HexDigit(u % 16)]
  }

  function Escape(u: unit): text {
    if u == 0x08 then [BACKSLASH, 0x62]
    else if u == 0x09 then [BACKSLASH, 0x74]
    else if u == 0x0A then [BACKSLASH, 0x6E]
    else if u == 0x0C then [BACKSLASH, 0x66]
    else if u == 0x0D then [BACKSLASH, 0x72]
    else if u == QUOTE || u == BACKSLASH then [BACKSLASH, u]
    else if u < 0x20 || IsHigh(u) || IsLow(u) then HexEscape(u)
    else [u]
  }

  /** What `JSON.stringify` puts between the quotes: surrogate pairs as they are, lone surrogates escaped. */
  function Escaped(s: text): text {
    if s == [] then []
    else if Utf8.PairFirst(s) then [s[0], s[1]] + Escaped(s[2..])
    else Escape(s[0]) + Escaped(s[1..])
  }

  function Quoted(s: text): text { [QUOTE] + Escaped(s) + [QUOTE] }

  // ---------------------------------------------------------------- the printer

  function NumberText(n: Number): text requires !n.NotFinite? { if n.NegativeZero? then ZERO else n.numeral }

  /** The source's recursion; `None` is its TypeError. */
  function CanonicalJson(v: Json): Option<text>
    decreases v, 1, 0
  {
    match v
    case Null => Some(NULL)
    case Bool(b) => Some(if b then TRUE else FALSE)
    case Num(n) => if n.NotFinite? then None else Some(NumberText(n))
    case Str(s) => Some(Quoted(s))
    case Arr(items) => Enclosed(OPEN_ARRAY, JoinItems(items, v), CLOSE_ARRAY)
    case Obj(members) =>
      SortKeepsParts(v);
      Enclosed(OPEN_OBJECT, JoinMembers(SortMembers(members), v), CLOSE_OBJECT)
    case Unsupported => None
  }

  function Enclosed(open: unit, inner: Option<text>, close: unit): Option<text> {
    if inner.None? then None else Some([open] + inner.value + [close])
  }

  lemma SortKeepsParts(v: Json)
    requires v.Obj?
    ensures forall m :: m in SortMembers(v.members) ==> m.value < v
  {
    forall m | m in SortMembers(v.members) ensures m.value < v {
      assert m in multiset(SortMembers(v.members));
      assert m in multiset(v.members);
      var k :| 0 <= k < |v.members| && v.members[k] == m;
      assert v.members[k].value < v;
    }
  }

  /** The items' texts with commas between them. */
  function JoinItems(items: seq<Json>, ghost v: Json): Option<text>
    requires forall i :: 0 <= i < |items| ==> items[i] < v
    decreases v, 0, |items|
  {
    if items == [] then Some([])
    else
      var first := CanonicalJson(items[0]);
      if |items| == 1 then first
      else
        var rest := JoinItems(items[1..], v);
        if first.None? || rest.None? then None else Some(first.value + [COMMA] + rest.value)
  }

  function JoinMembers(members: seq<Member>, ghost v: Json): Option<text>
    requires forall m :: m in members ==> m.value < v
    decreases v, 0, |members|
  {
    if members == [] then Some([])
    else
      var child := CanonicalJson(members[0].value);
      if child.None? then None
      else
        var first := Quoted(members[0].key) + [COLON] + child.value;
        if |members| == 1 then Some(first)
        else
          var rest := JoinMembers(members[1..], v);
          if rest.None? then None else Some(first + [COMMA] + rest.value)
  }

  // ---------------------------------------------------------------- sorted keys

  function NormalItems(items: seq<Json>): (r: seq<Json>)
    ensures |r| == |items| && forall i :: 0 <= i < |r| ==> r[i] == Normal(items[i])
  {
    seq(|items|, i requires 0 <= i < |items| => Normal(items[i]))
  }

  function NormalMember(m: Member): Member { Member(m.key, Normal(m.value)) }

  function NormalMembers(ms: seq<Member>): (r: seq<Member>)
    ensures |r| == |ms| && forall i :: 0 <= i < |r| ==> r[i] == NormalMember(ms[i])
  {
    seq(|ms|, i requires 0 <= i < |ms| => NormalMember(ms[i]))
  }

  /** The value with the keys of every object in order, and zero without a sign. */
  function Normal(v: Json): Json {
    match v
    case Num(n) => if n.NegativeZero? then Num(Finite(ZERO)) else v
    case Arr(items) => Arr(NormalItems(items))
    case Obj(members) => Obj(SortMembers(NormalMembers(members)))
    case _ => v
  }

  /** A value with no sign on its zeros that JSON has a form for. */
  predicate Plain(w: Json) {
    match w
    case Num(n) => n.Finite?
    case Arr(items) => forall i :: 0 <= i < |items| ==> Plain(items[i])
    case Obj(members) => forall i :: 0 <= i < |members| ==> Plain(members[i].value)
    case Unsupported => false
    case _ => true
  }

  /** The text of a value as it stands. */
  function Render(w: Json): text
    requires Plain(w)
    decreases w, 1
  {
    match w
    case Null => NULL
    case Bool(b) => if b then TRUE else FALSE
    case Num(n) => n.numeral
    case Str(s) => Quoted(s)
    case Arr(items) => [OPEN_ARRAY] + RenderItems(items) + [CLOSE_ARRAY]
    case Obj(members) => [OPEN_OBJECT] + RenderMembers(members) + [CLOSE_OBJECT]
  }

  function RenderItems(items: seq<Json>): text
    requires forall i :: 0 <= i < |items| ==> Plain(items[i])
    decreases items, 0
  {
    if items == [] then []
    else if |items| == 1 then Render(items[0])
    else Render(items[0]) + [COMMA] + RenderItems(items[1..])
  }

  function RenderMember(m: Member): text
    requires Plain(m.value)
    decreases m, 0
  {
    Quoted(m.key) + [COLON] + Render(m.value)
  }

  function RenderMembers(ms: seq<Member>): text
    requires forall i :: 0 <= i < |ms| ==> Plain(ms[i].value)
    decreases ms, 0
  {
    if ms == [] then []
    else if |ms| == 1 then RenderMember(ms[0])
    else RenderMember(ms[0]) + [COMMA] + RenderMembers(ms[1..])
  }

  lemma NormalCons(m: Member, ms: seq<Member>)
    ensures NormalMembers([m] + ms) == [NormalMember(m)] + NormalMembers(ms)
  {
  }

  lemma NormalRest(ms: seq<Member>)
    requires ms != []
    ensures NormalMembers(ms) == [NormalMember(ms[0])] + NormalMembers(ms[1..])
  {
    NormalCons(ms[0], ms[1..]);
    assert ms == [ms[0]] + ms[1..];
  }

  lemma {:induction false} InsertCommutes(m: Member, ms: seq<Member>)
    ensures NormalMembers(Insert(m, ms)) == Insert(NormalMember(m), NormalMembers(ms))
  {
    if ms == [] {
      NormalCons(m, ms);
    } else {
      NormalRest(ms);
      assert NormalMembers(ms)[1..] == NormalMembers(ms[1..]);
      InsertCommutes(m, ms[1..]);
      NormalCons(ms[0], Insert(m, ms[1..]));
      NormalCons(m, ms);
      hide NormalMembers, Normal;
    }
  }

  /** Sorting looks at keys alone. */
  lemma {:induction false} SortCommutes(ms: seq<Member>)
    ensures NormalMembers(SortMembers(ms)) == SortMembers(NormalMembers(ms))
  {
    if ms != [] {
      SortCommutes(ms[1..]);
      NormalRest(ms);
      assert NormalMembers(ms)[1..] == NormalMembers(ms[1..]);
      InsertCommutes(ms[0], SortMembers(ms[1..]));
    }
  }

  predicate AllPrintable(ms: seq<Member>) { forall m :: m in ms ==> Printable(m.value) }

  lemma SortKeepsPrintable(ms: seq<Member>)
    ensures AllPrintable(SortMembers(ms)) <==> AllPrintable(ms)
  {
    forall m ensures m in SortMembers(ms) <==> m in ms {
      assert m in multiset(SortMembers(ms)) <==> m in SortMembers(ms);
      assert m in multiset(ms) <==> m in ms;
    }
  }

  /** The printer throws exactly when something in the value has no JSON form, and otherwise writes the value
      with sorted keys. */
  lemma {:induction false} CanonicalRenders(v: Json)
    ensures Printable(v) <==> Plain(Normal(v))
    ensures CanonicalJson(v) == if Printable(v) then Some(Render(Normal(v))) else None
    decreases v, 1, 0
  {
    match v
    case Arr(items) =>
      JoinItemsRenders(items, v);
    case Obj(members) =>
      SortKeepsParts(v);
      var ss := SortMembers(members);
      JoinMembersRenders(ss, v);
      SortCommutes(members);
      SortKeepsPrintable(members);
      assert Printable(v) <==> AllPrintable(members);
      assert Normal(v) == Obj(NormalMembers(ss));
    case _ =>
  }

  lemma {:induction false} JoinItemsRenders(items: seq<Json>, v: Json)
    requires forall i :: 0 <= i < |items| ==> items[i] < v
    ensures (forall i :: 0 <= i < |items| ==> Printable(items[i])) <==> Plain(Arr(NormalItems(items)))
    ensures JoinItems(items, v)
      == if Plain(Arr(NormalItems(items))) then Some(RenderItems(NormalItems(items))) else None
    decreases v, 0, |items|
  {
    if items != [] {
      CanonicalRenders(items[0]);
      JoinItemsRenders(items[1..], v);
      assert NormalItems(items)[1..] == NormalItems(items[1..]);
      PlainSplits(NormalItems(items));
      assert (forall i :: 0 <= i < |items| ==> Printable(items[i]))
        <==> Printable(items[0]) && forall i :: 0 <= i < |items[1..]| ==> Printable(items[1..][i]);
    }
  }

  lemma PlainSplits(items: seq<Json>)
    requires items != []
    ensures Plain(Arr(items)) <==> Plain(items[0]) && Plain(Arr(items[1..]))
  {
    assert forall i :: 0 < i < |items| ==> items[i] == items[1..][i - 1];
  }

  lemma PlainMembersSplit(ms: seq<Member>)
    requires ms != []
    ensures Plain(Obj(ms)) <==> Plain(ms[0].value) && Plain(Obj(ms[1..]))
  {
    assert forall i :: 0 < i < |ms| ==> ms[i] == ms[1..][i - 1];
  }

  lemma {:induction false} JoinMembersRenders(ms: seq<Member>, v: Json)
    requires forall m :: m in ms ==> m.value < v
    ensures AllPrintable(ms) <==> Plain(Obj(NormalMembers(ms)))
    ensures JoinMembers(ms, v)
      == if Plain(Obj(NormalMembers(ms))) then Some(RenderMembers(NormalMembers(ms))) else None
    decreases v, 0, |ms|
  {
    if ms != [] {
      var ns := NormalMembers(ms);
      assert ns[0] == NormalMember(ms[0]);
      assert ns[1..] == NormalMembers(ms[1..]);
      assert ms == [ms[0]] + ms[1..];
      hide NormalMembers, Quoted;
      CanonicalRenders(ms[0].value);
      JoinMembersRenders(ms[1..], v);
      PlainMembersSplit(ns);
      hide Normal, Plain, Printable, CanonicalJson, Render;
      if Plain(Obj(ns)) {
        assert RenderMember(ns[0]) == Quoted(ms[0].key) + [COLON] + CanonicalJson(ms[0].value).value;
      }
    }
  }

  // ---------------------------------------------------------------- the order of keys

  /** The keys of every object are different, as those of a JavaScript object are. */
  predicate Distinct(v: Json) {
    match v
    case Arr(items) => forall i :: 0 <= i < |items| ==> Distinct(items[i])
    case Obj(ms) => DistinctKeys(ms) && forall i :: 0 <= i < |ms| ==> Distinct(ms[i].value)
    case _ => true
  }

  /** In every object each key comes before the next. */
  ghost predicate Ascending(v: Json) {
    match v
    case Arr(items) => forall i :: 0 <= i < |items| ==> Ascending(items[i])
    case Obj(ms) =>
      && (forall i :: 0 <= i < |ms| - 1 ==> Ahead(ms[i].key, ms[i + 1].key))
      && forall i :: 0 <= i < |ms| ==> Ascending(ms[i].value)
    case _ => true
  }

  /** The canonical text is that of the value with ascending keys, whatever order they came in. */
  lemma {:induction false} CanonicalAscends(v: Json)
    requires Distinct(v)
    ensures Ascending(Normal(v))
    ensures Printable(v) ==> Plain(Normal(v)) && CanonicalJson(v) == Some(Render(Normal(v)))
    decreases v
  {
    CanonicalRenders(v);
    hide CanonicalJson, Render, Plain, Printable, Ahead;
    match v
    case Arr(items) =>
      forall i | 0 <= i < |items| ensures Ascending(Normal(items[i])) { CanonicalAscends(items[i]); }
    case Obj(ms) =>
      forall i | 0 <= i < |ms| ensures Ascending(Normal(ms[i].value)) { CanonicalAscends(ms[i].value); }
      MembersAscend(ms);
    case _ =>
  }

  lemma MembersAscend(ms: seq<Member>)
    requires DistinctKeys(ms) && forall i :: 0 <= i < |ms| ==> Ascending(Normal(ms[i].value))
    ensures Ascending(Obj(SortMembers(NormalMembers(ms))))
  {
    var a := NormalMembers(ms);
    var s := SortMembers(a);
    SortOrders(a);
    forall i | 0 <= i < |s| ensures Ascending(s[i].value) {
      assert s[i] in multiset(s) && s[i] in multiset(a);
      var k :| 0 <= k < |a| && a[k] == s[i];
      assert a[k] == NormalMember(ms[k]);
    }
    forall i | 0 <= i < |s| - 1 ensures Ahead(s[i].key, s[i + 1].key) {
      assert Less(s[i].key, s[i + 1].key);
      LessExactly(s[i].key, s[i + 1].key);
    }
  }

  // ---------------------------------------------------------------- samples

  /** `JSON.stringify` of the units with a short escape. */
  lemma ShortEscapes()
    ensures Escape(0x08) == [0x5C, 0x62] && Escape(0x09) == [0x5C, 0x74] && Escape(0x0A) == [0x5C, 0x6E]
    ensures Escape(0x0C) == [0x5C, 0x66] && Escape(0x0D) == [0x5C, 0x72]
    ensures Escape(0x22) == [0x5C, 0x22] && Escape(0x5C) == [0x5C, 0x5C]
  {
  }

  /** Of another control character, of a lone surrogate, and of what stays as it is: every other unit. */
  lemma OtherEscapes(u: unit)
    ensures Escape(0x1F) == [0x5C, 0x75, 0x30, 0x30, 0x31, 0x66]
    ensures Escape(0xDABC) == [0x5C, 0x75, 0x64, 0x61, 0x62, 0x63]
    ensures Escape(u) == [u] <==> u >= 0x20 && u !in {0x22, 0x5C} && !(0xD800 <= u <= 0xDFFF)
  {
  }
}
