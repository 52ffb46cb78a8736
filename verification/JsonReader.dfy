/** A reader of the JSON grammar, sections 2 to 7 of RFC 8259, written from the grammar and knowing nothing of
    the printer; and what it shows about the printer: reading gives back the value with sorted keys. */
module JsonReader {
  import opened Utf16
  import opened Canonical
  import Utf8
  import opened Wrappers

  // ---------------------------------------------------------------- the grammar

  predicate IsWhitespace(u: unit) { u == 0x20 || u == 0x09 || u == 0x0A || u == 0x0D }

  function SkipWhitespace(s: text): (r: text)
    ensures |r| <= |s|
  {
    if s != [] && IsWhitespace(s[0]) then SkipWhitespace(s[1..]) else s
  }

  function HexValue(u: unit): Option<nat> {
    if IsDigit(u) then Some(u - 0x30)
    else if 0x61 <= u <= 0x66 then Some(u - 0x61 + 10)
    else if 0x41 <= u <= 0x46 then Some(u - 0x41 + 10)
    else None
  }

  function Hex4(s: text): Option<unit>
    requires |s| >= 4
  {
    var a, b, c, d := HexValue(s[0]), HexValue(s[1]), HexValue(s[2]), HexValue(s[3]);
    if a.None? || b.None? || c.None? || d.None? then None
    else
      var v := ((a.value * 16 + b.value) * 16 + c.value) * 16 + d.value;
      if v < 0x1_0000 then Some(v) else None
  }

  function SimpleEscape(u: unit): Option<unit> {
    if u == 0x22 || u == 0x5C || u == 0x2F then Some(u)
    else if u == 0x62 then Some(0x08)
    else if u == 0x66 then Some(0x0C)
    else if u == 0x6E then Some(0x0A)
    else if u == 0x72 then Some(0x0D)
    else if u == 0x74 then Some(0x09)
    else None
  }

  /** One character of a string and how many units it took. */
  function ReadChar(s: text): (r: Option<(unit, nat)>)
    requires s != []
    ensures r.Some? ==> 0 < r.value.1 <= |s|
  {
    if s[0] == 0x5C then
      if |s| >= 6 && s[1] == 0x75 then
        var u := Hex4(s[2..]);
        if u.None? then None else Some((u.value, 6))
      else if |s| >= 2 && SimpleEscape(s[1]).Some? then Some((SimpleEscape(s[1]).value, 2))
      else None
    else if s[0] < 0x20 || s[0] == 0x22 then None
    else Some((s[0], 1))
  }

  /** The characters up to the closing quote, and what follows it. */
  function ReadString(s: text): (r: Option<(text, text)>)
    ensures r.Some? ==> |r.value.1| < |s|
  {
    if s == [] then None
    else if s[0] == 0x22 then Some(([], s[1..]))
    else
      var c := ReadChar(s);
      if c.None? then None
      else
        var rest := ReadString(s[c.value.1..]);
        if rest.None? then None else Some(([c.value.0] + rest.value.0, rest.value.1))
  }

  /** A value at the front, and what follows it. */
  function Read(input: text): (r: Option<(Json, text)>)
    ensures r.Some? ==> |r.value.1| < |input|
    decreases |input|, 2
  {
    var s := SkipWhitespace(input);
    if s == [] then None
    else if s[0] == 0x5B then
      var inner := SkipWhitespace(s[1..]);
      if inner != [] && inner[0] == 0x5D then Some((Arr([]), inner[1..]))
      else
        var items := ReadItems(s[1..]);
        if items.None? then None else Some((Arr(items.value.0), items.value.1))
    else if s[0] == 0x7B then
      var inner := SkipWhitespace(s[1..]);
      if inner != [] && inner[0] == 0x7D then Some((Obj([]), inner[1..]))
      else
        var members := ReadMembers(s[1..]);
        if members.None? then None else Some((Obj(members.value.0), members.value.1))
    else if s[0] == 0x22 then
      var chars := ReadString(s[1..]);
      if chars.None? then None else Some((Str(chars.value.0), chars.value.1))
    else if [0x6E, 0x75, 0x6C, 0x6C] <= s then Some((Null, s[4..]))
    else if [0x74, 0x72, 0x75, 0x65] <= s then Some((Bool(true), s[4..]))
    else if [0x66, 0x61, 0x6C, 0x73, 0x65] <= s then Some((Bool(false), s[5..]))
    else
      var end := NumberEnd(s);
      if end.None? then None else Some((ReadNumber(s, end.value), s[end.value..]))
  }

  function ReadNumber(s: text, end: nat): Json
    requires NumberEnd(s) == Some(end)
  {
    NumberStops(s, end);
    Num(Finite(s[..end]))
  }

  /** Items separated by commas up to the closing bracket. */
  function ReadItems(s: text): (r: Option<(seq<Json>, text)>)
    ensures r.Some? ==> |r.value.1| < |s|
    decreases |s|, 3
  {
    var first := Read(s);
    if first.None? then None
    else
      var after := SkipWhitespace(first.value.1);
      if after == [] then None
      else if after[0] == 0x5D then Some(([first.value.0], after[1..]))
      else if after[0] == 0x2C then
        var rest := ReadItems(after[1..]);
        if rest.None? then None else Some(([first.value.0] + rest.value.0, rest.value.1))
      else None
  }

  /** One member: a string, a colon, a value. */
  function ReadMember(input: text): (r: Option<(Member, text)>)
    ensures r.Some? ==> |r.value.1| < |input|
    decreases |input|, 3
  {
    var s := SkipWhitespace(input);
    if s == [] || s[0] != 0x22 then None
    else
      var key := ReadString(s[1..]);
      if key.None? then None
      else
        var after := SkipWhitespace(key.value.1);
        if after == [] || after[0] != 0x3A then None
        else
          var value := Read(after[1..]);
          if value.None? then None else Some((Member(key.value.0, value.value.0), value.value.1))
  }

  function ReadMembers(s: text): (r: Option<(seq<Member>, text)>)
    ensures r.Some? ==> |r.value.1| < |s|
    decreases |s|, 4
  {
    var first := ReadMember(s);
    if first.None? then None
    else
      var after := SkipWhitespace(first.value.1);
      if after == [] then None
      else if after[0] == 0x7D then Some(([first.value.0], after[1..]))
      else if after[0] == 0x2C then
        var rest := ReadMembers(after[1..]);
        if rest.None? then None else Some(([first.value.0] + rest.value.0, rest.value.1))
      else None
  }

  /** A whole text. */
  function Parse(s: text): Option<Json> {
    var v := Read(s);
    if v.None? || SkipWhitespace(v.value.1) != [] then None else Some(v.value.0)
  }

  // ---------------------------------------------------------------- numbers end where the text around them begins

  /** No unit a number could go on with. */
  predicate Stops(rest: text) { rest == [] || rest[0] in {COMMA, CLOSE_ARRAY, CLOSE_OBJECT} }

  lemma {:induction false} DigitsStop(s: text, rest: text, i: nat)
    requires i <= |s| && Stops(rest)
    ensures DigitsEnd(s + rest, i) == DigitsEnd(s, i)
    decreases |s| - i
  {
    if i < |s| { DigitsStop(s, rest, i + 1); }
  }

  lemma IntStops(s: text, rest: text)
    requires Stops(rest) && IntEnd(s).Some?
    ensures IntEnd(s + rest) == IntEnd(s)
  {
    DigitsStop(s, rest, 1);
    if |s| >= 2 { DigitsStop(s, rest, 2); }
  }

  lemma PartStops(s: text, rest: text, i: nat, marks: set<unit>, sign: bool)
    requires Stops(rest) && marks <= {0x2E, 0x45, 0x65} && i <= |s| && PartEnd(s, i, marks, sign).Some?
    ensures PartEnd(s + rest, i, marks, sign) == PartEnd(s, i, marks, sign)
  {
    if i + 1 <= |s| { DigitsStop(s, rest, i + 1); }
    if i + 2 <= |s| { DigitsStop(s, rest, i + 2); }
  }

  lemma NumeralReads(t: numeral, rest: text)
    requires Stops(rest)
    ensures NumberEnd(t + rest) == Some(|t|)
  {
    hide IntEnd, PartEnd, Stops;
    IntStops(t, rest);
    var i := IntEnd(t).value;
    PartStops(t, rest, i, {0x2E}, false);
    PartStops(t, rest, PartEnd(t, i, {0x2E}, false).value, {0x45, 0x65}, true);
  }

  /** Cutting behind the digits leaves them as they are. */
  lemma {:induction false} DigitsCut(s: text, i: nat, end: nat)
    requires end <= |s|
    ensures i <= end && DigitsEnd(s, i) <= end ==> DigitsEnd(s[..end], i) == DigitsEnd(s, i)
    decreases |s| - i
  {
    if i < end && IsDigit(s[i]) { DigitsCut(s, i + 1, end); }
  }

  lemma IntCut(s: text, end: nat)
    requires IntEnd(s).Some? && IntEnd(s).value <= end <= |s|
    ensures IntEnd(s[..end]) == IntEnd(s)
  {
    DigitsCut(s, 1, end);
    DigitsCut(s, 2, end);
  }

  lemma PartCut(s: text, i: nat, marks: set<unit>, sign: bool, end: nat)
    requires i <= |s| && PartEnd(s, i, marks, sign).Some? && PartEnd(s, i, marks, sign).value <= end <= |s|
    ensures PartEnd(s[..end], i, marks, sign) == PartEnd(s, i, marks, sign)
  {
    DigitsCut(s, i + 1, end);
    DigitsCut(s, i + 2, end);
  }

  /** A number read in the middle of a text is a number by itself. */
  lemma NumberStops(s: text, end: nat)
    requires NumberEnd(s) == Some(end)
    ensures NumberEnd(s[..end]) == Some(end)
  {
    hide IntEnd, PartEnd;
    var i := IntEnd(s).value;
    var j := PartEnd(s, i, {0x2E}, false).value;
    IntCut(s, end);
    PartCut(s, i, {0x2E}, false, end);
    PartCut(s, j, {0x45, 0x65}, true, end);
  }

  // ---------------------------------------------------------------- reading what the printer writes

  lemma HexReads(u: unit, rest: text)
    ensures ReadChar(HexEscape(u) + rest) == Some((u, 6))
    ensures |HexEscape(u)| == 6 && HexEscape(u)[0] == BACKSLASH
  {
    var s := HexEscape(u) + rest;
    assert s[0] == BACKSLASH && s[1] == 0x75;
    assert s[2..][0] == HexDigit(u / 16 / 16 / 16) && s[2..][1] == HexDigit(u / 16 / 16 % 16);
    assert s[2..][2] == HexDigit(u / 16 % 16) && s[2..][3] == HexDigit(u % 16);
  }

  lemma EscapeReads(u: unit, rest: text)
    ensures Escape(u)[0] != QUOTE
    ensures ReadChar(Escape(u) + rest) == Some((u, |Escape(u)|))
  {
    HexReads(u, rest);
    hide HexEscape, Hex4;
    var s := Escape(u) + rest;
    assert s[0] == Escape(u)[0];
    if |Escape(u)| == 2 { assert s[1] == Escape(u)[1]; }
  }

  lemma ReadsNext(front: text, u: unit, tail: text)
    requires front != [] && front[0] != QUOTE && ReadChar(front + tail) == Some((u, |front|))
    requires ReadString(tail).Some?
    ensures ReadString(front + tail) == Some(([u] + ReadString(tail).value.0, ReadString(tail).value.1))
  {
    assert (front + tail)[|front|..] == tail;
  }

  lemma Regroup(a: text, b: text, c: text)
    ensures (a + b) + c == a + (b + c) && (a + b)[|a|..] == b
  {
  }

  lemma EscapedNext(s: text)
    requires s != []
    ensures Utf8.PairFirst(s) ==> Escaped(s) == [s[0]] + ([s[1]] + Escaped(s[2..]))
    ensures !Utf8.PairFirst(s) ==> Escaped(s) == Escape(s[0]) + Escaped(s[1..])
  {
  }

  lemma {:induction false} StringReads(s: text, rest: text)
    ensures ReadString(Escaped(s) + ([QUOTE] + rest)) == Some((s, rest))
  {
    var end := [QUOTE] + rest;
    if s == [] {
      assert Escaped(s) + end == end && end[1..] == rest;
    } else if Utf8.PairFirst(s) {
      var tail := Escaped(s[2..]) + end;
      StringReads(s[2..], rest);
      ReadsNext([s[1]], s[1], tail);
      ReadsNext([s[0]], s[0], [s[1]] + tail);
      EscapedNext(s);
      hide ReadString, Escaped, ReadChar;
      Regroup([s[1]], Escaped(s[2..]), end);
      Regroup([s[0]], [s[1]] + Escaped(s[2..]), end);
      assert s == [s[0]] + ([s[1]] + s[2..]);
    } else {
      var tail := Escaped(s[1..]) + end;
      StringReads(s[1..], rest);
      EscapeReads(s[0], tail);
      ReadsNext(Escape(s[0]), s[0], tail);
      EscapedNext(s);
      hide ReadString, Escaped, ReadChar, Escape;
      Regroup(Escape(s[0]), Escaped(s[1..]), end);
      assert s == [s[0]] + s[1..];
    }
  }

  lemma QuotedReads(s: text, rest: text)
    ensures Quoted(s) + rest == [QUOTE] + (Escaped(s) + ([QUOTE] + rest))
    ensures ReadString((Quoted(s) + rest)[1..]) == Some((s, rest))
  {
    StringReads(s, rest);
    hide ReadString, Escaped;
    Regroup([QUOTE], Escaped(s), [QUOTE]);
    Regroup([QUOTE], Escaped(s) + [QUOTE], rest);
    Regroup(Escaped(s), [QUOTE], rest);
    Regroup([QUOTE], Escaped(s) + ([QUOTE] + rest), []);
  }

  predicate Starts(s: text) { s != [] && !IsWhitespace(s[0]) && s[0] != CLOSE_ARRAY && s[0] != CLOSE_OBJECT }

  lemma RenderStarts(w: Json)
    requires Plain(w)
    ensures Starts(Render(w))
  {
    if w.Num? { assert IntEnd(w.n.numeral).Some?; }
  }

  lemma NumberReads(t: numeral, rest: text)
    requires Stops(rest)
    ensures Read(t + rest) == Some((Num(Finite(t)), rest))
  {
    NumeralReads(t, rest);
    assert IntEnd(t).Some?;
    assert (t + rest)[0] == t[0] && (t[0] == MINUS || IsDigit(t[0]));
    assert (t + rest)[..|t|] == t && (t + rest)[|t|..] == rest;
    hide NumberEnd, ReadString, ReadItems, ReadMembers;
  }

  /** Reading a rendered value gives it back, and stops where it ends. */
  lemma {:induction false} RenderReads(w: Json, rest: text)
    requires Plain(w) && Stops(rest)
    ensures Read(Render(w) + rest) == Some((w, rest))
    decreases w, 1
  {
    match w
    case Num(n) => NumberReads(n.numeral, rest);
    case Str(s) => QuotedReads(s, rest);
    case Arr(items) => ArrayReads(items, rest);
    case Obj(members) => ObjectReads(members, rest);
    case _ => WordReads(w, rest);
  }

  lemma WordReads(w: Json, rest: text)
    requires w.Null? || w.Bool?
    ensures Read(Render(w) + rest) == Some((w, rest))
  {
    var s := Render(w) + rest;
    assert s[|Render(w)|..] == rest;
    assert s[0] == Render(w)[0];
  }

  lemma {:induction false} ArrayReads(items: seq<Json>, rest: text)
    requires Plain(Arr(items))
    ensures Read(Render(Arr(items)) + rest) == Some((Arr(items), rest))
    decreases items, 3
  {
    var s := Render(Arr(items)) + rest;
    var tail := [CLOSE_ARRAY] + rest;
    assert s == [OPEN_ARRAY] + (RenderItems(items) + tail);
    assert s[1..] == RenderItems(items) + tail;
    if items == [] {
      assert s[1..] == tail && tail[1..] == rest;
    } else {
      ItemsRead(items, rest);
      RenderStarts(items[0]);
      assert s[1] == Render(items[0])[0];
    }
  }

  lemma ItemsText(items: seq<Json>)
    requires items != [] && Plain(Arr(items))
    ensures Plain(items[0]) && Plain(Arr(items[1..]))
    ensures RenderItems(items)
      == if |items| == 1 then Render(items[0]) else Render(items[0]) + [COMMA] + RenderItems(items[1..])
  {
    PlainSplits(items);
  }

  lemma ItemsStop(s: text, v: Json, after: text)
    requires Read(s) == Some((v, after)) && after != [] && after[0] == CLOSE_ARRAY
    ensures ReadItems(s) == Some(([v], after[1..]))
  {
  }

  lemma ItemsGoOn(s: text, v: Json, after: text, others: seq<Json>, rest: text)
    requires Read(s) == Some((v, after)) && after != [] && after[0] == COMMA
    requires ReadItems(after[1..]) == Some((others, rest))
    ensures ReadItems(s) == Some(([v] + others, rest))
  {
  }

  lemma Apart(first: text, others: text, tail: text)
    ensures (first + [COMMA] + others) + tail == first + ([COMMA] + (others + tail))
    ensures ([COMMA] + (others + tail))[1..] == others + tail
  {
  }

  lemma {:induction false} ItemsRead(items: seq<Json>, rest: text)
    requires items != [] && Plain(Arr(items))
    ensures ReadItems(RenderItems(items) + ([CLOSE_ARRAY] + rest)) == Some((items, rest))
    decreases items, 2
  {
    hide Render, RenderItems, Read, ReadItems, Plain;
    ItemsText(items);
    var tail := [CLOSE_ARRAY] + rest;
    var first := Render(items[0]);
    if |items| == 1 {
      RenderReads(items[0], tail);
      ItemsStop(first + tail, items[0], tail);
      assert tail[1..] == rest && items == [items[0]];
    } else {
      var others := RenderItems(items[1..]);
      var after := [COMMA] + (others + tail);
      RenderReads(items[0], after);
      ItemsRead(items[1..], rest);
      Apart(first, others, tail);
      ItemsGoOn(first + after, items[0], after, items[1..], rest);
      assert items == [items[0]] + items[1..];
    }
  }

  lemma {:induction false} MemberReads(m: Member, rest: text)
    requires Plain(m.value) && Stops(rest)
    ensures ReadMember(RenderMember(m) + rest) == Some((m, rest))
    decreases m, 2
  {
    var value := Render(m.value) + rest;
    var after := [COLON] + value;
    QuotedReads(m.key, after);
    RenderReads(m.value, rest);
    hide Render, ReadString, Escaped, Read, Plain, Stops;
    Regroup(Quoted(m.key), [COLON], Render(m.value));
    Regroup(Quoted(m.key), [COLON] + Render(m.value), rest);
    Regroup([COLON], Render(m.value), rest);
    Regroup([COLON], value, []);
    hide Quoted;
    assert RenderMember(m) + rest == Quoted(m.key) + after;
    assert after[1..] == value;
  }

  lemma {:induction false} ObjectReads(members: seq<Member>, rest: text)
    requires Plain(Obj(members))
    ensures Read(Render(Obj(members)) + rest) == Some((Obj(members), rest))
    decreases members, 3
  {
    var s := Render(Obj(members)) + rest;
    var tail := [CLOSE_OBJECT] + rest;
    assert s == [OPEN_OBJECT] + (RenderMembers(members) + tail);
    assert s[1..] == RenderMembers(members) + tail;
    if members == [] {
      assert s[1..] == tail && tail[1..] == rest;
    } else {
      MembersRead(members, rest);
      assert s[1] == QUOTE;
    }
  }

  lemma MembersStop(s: text, m: Member, after: text)
    requires ReadMember(s) == Some((m, after)) && after != [] && after[0] == CLOSE_OBJECT
    ensures ReadMembers(s) == Some(([m], after[1..]))
  {
  }

  lemma MembersGoOn(s: text, m: Member, after: text, others: seq<Member>, rest: text)
    requires ReadMember(s) == Some((m, after)) && after != [] && after[0] == COMMA
    requires ReadMembers(after[1..]) == Some((others, rest))
    ensures ReadMembers(s) == Some(([m] + others, rest))
  {
  }

  lemma MembersText(ms: seq<Member>)
    requires ms != [] && Plain(Obj(ms))
    ensures Plain(ms[0].value) && Plain(Obj(ms[1..]))
    ensures RenderMembers(ms)
      == if |ms| == 1 then RenderMember(ms[0]) else RenderMember(ms[0]) + [COMMA] + RenderMembers(ms[1..])
  {
    PlainMembersSplit(ms);
  }

  lemma {:induction false} MembersRead(ms: seq<Member>, rest: text)
    requires ms != [] && Plain(Obj(ms))
    ensures ReadMembers(RenderMembers(ms) + ([CLOSE_OBJECT] + rest)) == Some((ms, rest))
    decreases ms, 2
  {
    hide RenderMember, RenderMembers, ReadMember, ReadMembers, Plain;
    MembersText(ms);
    var tail := [CLOSE_OBJECT] + rest;
    var first := RenderMember(ms[0]);
    if |ms| == 1 {
      MemberReads(ms[0], tail);
      MembersStop(first + tail, ms[0], tail);
      assert tail[1..] == rest && ms == [ms[0]];
    } else {
      var others := RenderMembers(ms[1..]);
      var after := [COMMA] + (others + tail);
      MemberReads(ms[0], after);
      MembersRead(ms[1..], rest);
      Apart(first, others, tail);
      MembersGoOn(first + after, ms[0], after, ms[1..], rest);
      assert ms == [ms[0]] + ms[1..];
    }
  }

  /** Reading the canonical text gives back the value with sorted keys. */
  lemma CanonicalParses(v: Json)
    requires Printable(v)
    ensures CanonicalJson(v).Some? && Parse(CanonicalJson(v).value) == Some(Normal(v))
  {
    CanonicalRenders(v);
    var s := Render(Normal(v));
    RenderReads(Normal(v), []);
    assert s + [] == s;
  }

  // ---------------------------------------------------------------- equal up to the order of keys

  predicate SameNumber(x: Number, y: Number) {
    x == y || (x.NegativeZero? && y == Finite(ZERO)) || (x == Finite(ZERO) && y.NegativeZero?)
  }

  /** Equal as JavaScript values: the order of members and the sign of zero aside. */
  predicate Same(a: Json, b: Json)
    decreases a
  {
    match a
    case Num(x) => b.Num? && SameNumber(x, b.n)
    case Arr(items) => b.Arr? && |items| == |b.items| && forall i :: 0 <= i < |items| ==> Same(items[i], b.items[i])
    case Obj(ms) =>
      && b.Obj?
      && (forall i :: 0 <= i < |ms| ==> HasMatch(ms[i], b.members))
      && (forall j :: 0 <= j < |b.members| ==> HasKey(ms, b.members[j].key))
    case _ => a == b
  }

  predicate HasMatch(m: Member, ms: seq<Member>)
    decreases m
  {
    exists j :: 0 <= j < |ms| && m.key == ms[j].key && Same(m.value, ms[j].value)
  }

  predicate HasKey(ms: seq<Member>, key: text) { exists i :: 0 <= i < |ms| && ms[i].key == key }

  /** Two values have the same sorted form exactly when they are equal up to the order of keys. */
  lemma {:induction false} NormalSame(a: Json, b: Json)
    requires Distinct(a) && Distinct(b)
    ensures Normal(a) == Normal(b) <==> Same(a, b)
    decreases a
  {
    if a.Arr? && b.Arr? && |a.items| == |b.items| {
      forall i | 0 <= i < |a.items| ensures Normal(a.items[i]) == Normal(b.items[i]) <==> Same(a.items[i], b.items[i]) {
        NormalSame(a.items[i], b.items[i]);
      }
      assert Normal(a) == Normal(b) <==> NormalItems(a.items) == NormalItems(b.items);
    } else if a.Obj? && b.Obj? {
      forall i | 0 <= i < |a.members| ensures Agree(a.members[i], b.members) {
        forall j | 0 <= j < |b.members|
          ensures Normal(a.members[i].value) == Normal(b.members[j].value)
            <==> Same(a.members[i].value, b.members[j].value)
        {
          NormalSame(a.members[i].value, b.members[j].value);
        }
      }
      MembersSame(a.members, b.members);
    }
  }

  /** On these members the two notions agree. */
  ghost predicate Agree(m: Member, y: seq<Member>) {
    forall j :: 0 <= j < |y| ==> (Normal(m.value) == Normal(y[j].value) <==> Same(m.value, y[j].value))
  }

  lemma MatchIsMember(m: Member, y: seq<Member>)
    requires Agree(m, y)
    ensures HasMatch(m, y) <==> NormalMember(m) in NormalMembers(y)
  {
    var b := NormalMembers(y);
    hide Normal, Same;
    if HasMatch(m, y) {
      var j :| 0 <= j < |y| && m.key == y[j].key && Same(m.value, y[j].value);
      assert b[j] == NormalMember(m);
    }
    if NormalMember(m) in b {
      var j :| 0 <= j < |b| && b[j] == NormalMember(m);
      assert Same(m.value, y[j].value);
    }
  }

  ghost predicate SameMembers(a: seq<Member>, b: seq<Member>) { forall m :: m in a <==> m in b }

  ghost predicate Matched(x: seq<Member>, y: seq<Member>) {
    && (forall i :: 0 <= i < |x| ==> NormalMember(x[i]) in NormalMembers(y))
    && (forall j :: 0 <= j < |y| ==> HasKey(x, y[j].key))
  }

  lemma MatchedIsSame(x: seq<Member>, y: seq<Member>)
    requires forall i :: 0 <= i < |x| ==> Agree(x[i], y)
    ensures Matched(x, y) <==> Same(Obj(x), Obj(y))
  {
    forall i | 0 <= i < |x| ensures HasMatch(x[i], y) <==> NormalMember(x[i]) in NormalMembers(y) {
      MatchIsMember(x[i], y);
    }
    assert Same(Obj(x), Obj(y)) <==>
      (forall i :: 0 <= i < |x| ==> HasMatch(x[i], y)) && (forall j :: 0 <= j < |y| ==> HasKey(x, y[j].key));
    hide NormalMembers, NormalMember, HasMatch, HasKey, Agree, Same;
  }

  lemma MatchedExactly(x: seq<Member>, y: seq<Member>)
    requires DistinctKeys(y)
    ensures Matched(x, y) <==> SameMembers(NormalMembers(x), NormalMembers(y))
  {
    var a, b := NormalMembers(x), NormalMembers(y);
    hide Normal;
    if Matched(x, y) {
      forall j | 0 <= j < |y| ensures b[j] in a {
        var i :| 0 <= i < |x| && x[i].key == y[j].key;
        var k :| 0 <= k < |b| && b[k] == a[i];
        assert y[k].key == y[j].key;
      }
    }
    if SameMembers(a, b) {
      forall i | 0 <= i < |x| ensures NormalMember(x[i]) in b {
        assert a[i] in a;
      }
      forall j | 0 <= j < |y| ensures HasKey(x, y[j].key) {
        assert b[j] in a;
        var i :| 0 <= i < |a| && a[i] == b[j];
        assert x[i].key == y[j].key;
      }
    }
  }

  lemma MembersSame(x: seq<Member>, y: seq<Member>)
    requires DistinctKeys(x) && DistinctKeys(y) && forall i :: 0 <= i < |x| ==> Agree(x[i], y)
    ensures SortMembers(NormalMembers(x)) == SortMembers(NormalMembers(y)) <==> Same(Obj(x), Obj(y))
  {
    var a, b := NormalMembers(x), NormalMembers(y);
    SortHolds(a);
    SortHolds(b);
    SortOrders(a);
    SortOrders(b);
    MatchedIsSame(x, y);
    MatchedExactly(x, y);
    hide SortMembers, Normal, Same, NormalMembers, Agree, DistinctKeys, Matched;
    if SameMembers(a, b) { OneOrder(SortMembers(a), SortMembers(b)); }
  }

  lemma SortHolds(ms: seq<Member>)
    ensures forall m :: m in SortMembers(ms) <==> m in ms
  {
    forall m ensures m in SortMembers(ms) <==> m in ms {
      assert m in multiset(SortMembers(ms)) <==> m in SortMembers(ms);
      assert m in multiset(ms) <==> m in ms;
    }
  }

  /** Two JSON values print alike exactly when they are equal up to the order of keys. */
  lemma PrintsAlikeExactly(a: Json, b: Json)
    requires Printable(a) && Printable(b) && Distinct(a) && Distinct(b)
    ensures CanonicalJson(a) == CanonicalJson(b) <==> Same(a, b)
  {
    CanonicalParses(a);
    CanonicalParses(b);
    CanonicalRenders(a);
    CanonicalRenders(b);
    NormalSame(a, b);
  }
}
