/** The memo key of a definition: SHA-256 of the UTF-8 bytes of its canonical text. */
module MemoKey {
  import opened Utf16
  import opened Octets
  import opened Canonical
  import opened JsonReader
  import Sha256
  import Utf8
  import opened Wrappers

  // ---------------------------------------------------------------- canonical text is well-formed

  /** No surrogates at all. */
  predicate Unpaired(s: text) { forall i :: 0 <= i < |s| ==> !IsHigh(s[i]) && !IsLow(s[i]) }

  lemma {:induction false} DigitsUnpaired(s: text, i: nat)
    requires i <= |s|
    ensures forall k :: i <= k < DigitsEnd(s, i) ==> IsDigit(s[k])
    decreases |s| - i
  {
    if i < |s| && IsDigit(s[i]) { DigitsUnpaired(s, i + 1); }
  }

  lemma PartUnpaired(s: text, i: nat, marks: set<unit>, sign: bool)
    requires i <= |s| && PartEnd(s, i, marks, sign).Some? && marks <= {0x2E, 0x45, 0x65}
    ensures forall k :: i <= k < PartEnd(s, i, marks, sign).value ==> s[k] < 0x80
  {
    if i + 1 <= |s| { DigitsUnpaired(s, i + 1); }
    if i + 2 <= |s| { DigitsUnpaired(s, i + 2); }
  }

  lemma NumeralUnpaired(t: numeral)
    ensures Unpaired(t)
  {
    var i := IntEnd(t).value;
    DigitsUnpaired(t, 1);
    if |t| >= 2 { DigitsUnpaired(t, 2); }
    assert forall k :: 0 <= k < i ==> t[k] < 0x80;
    PartUnpaired(t, i, {0x2E}, false);
    PartUnpaired(t, PartEnd(t, i, {0x2E}, false).value, {0x45, 0x65}, true);
    hide IntEnd, PartEnd;
  }

  lemma UnpairedFormed(s: text)
    requires Unpaired(s)
    ensures WellFormed(s)
  {
  }

  lemma {:induction false} EscapedFormed(s: text)
    ensures WellFormed(Escaped(s))
  {
    if s == [] {
    } else if Utf8.PairFirst(s) {
      EscapedFormed(s[2..]);
      WellFormedConcat([s[0], s[1]], Escaped(s[2..]));
    } else {
      EscapedFormed(s[1..]);
      assert Unpaired(Escape(s[0]));
      WellFormedConcat(Escape(s[0]), Escaped(s[1..]));
    }
  }

  lemma EnclosedFormed(open: unit, s: text, close: unit)
    requires WellFormed(s) && open < 0x80 && close < 0x80
    ensures WellFormed([open] + s + [close])
  {
    WellFormedConcat([open], s);
    WellFormedConcat([open] + s, [close]);
  }

  lemma JoinedFormed(a: text, mark: unit, b: text)
    requires WellFormed(a) && WellFormed(b) && mark < 0x80
    ensures WellFormed(a + [mark] + b)
  {
    WellFormedConcat(a, [mark]);
    WellFormedConcat(a + [mark], b);
  }

  lemma QuotedFormed(s: text)
    ensures WellFormed(Quoted(s))
  {
    EscapedFormed(s);
    EnclosedFormed(QUOTE, Escaped(s), QUOTE);
  }

  lemma {:induction false} RenderFormed(w: Json)
    requires Plain(w)
    ensures WellFormed(Render(w))
    decreases w, 1
  {
    match w
    case Null =>
    case Bool(b) =>
    case Num(n) => NumeralUnpaired(n.numeral); UnpairedFormed(n.numeral);
    case Str(s) => QuotedFormed(s);
    case Arr(items) =>
      RenderItemsFormed(items);
      EnclosedFormed(OPEN_ARRAY, RenderItems(items), CLOSE_ARRAY);
    case Obj(members) =>
      RenderMembersFormed(members);
      EnclosedFormed(OPEN_OBJECT, RenderMembers(members), CLOSE_OBJECT);
  }

  lemma {:induction false} RenderItemsFormed(items: seq<Json>)
    requires Plain(Arr(items))
    ensures WellFormed(RenderItems(items))
    decreases items, 2
  {
    if items != [] {
      RenderFormed(items[0]);
      if |items| > 1 {
        RenderItemsFormed(items[1..]);
        JoinedFormed(Render(items[0]), COMMA, RenderItems(items[1..]));
      }
    }
  }

  lemma {:induction false} RenderMembersFormed(ms: seq<Member>)
    requires Plain(Obj(ms))
    ensures WellFormed(RenderMembers(ms))
    decreases ms, 2
  {
    if ms != [] {
      QuotedFormed(ms[0].key);
      RenderFormed(ms[0].value);
      JoinedFormed(Quoted(ms[0].key), COLON, Render(ms[0].value));
      if |ms| > 1 {
        RenderMembersFormed(ms[1..]);
        JoinedFormed(RenderMember(ms[0]), COMMA, RenderMembers(ms[1..]));
      }
    }
  }

  // ---------------------------------------------------------------- the key

  function Text(v: Json): text
    requires Printable(v)
  {
    CanonicalRenders(v);
    CanonicalJson(v).value
  }

  /** Canonical text is well-formed, so the encoder's bytes are its UTF-8. */
  lemma CanonicalFormed(v: Json)
    requires Printable(v)
    ensures WellFormed(Text(v))
    ensures Utf8.AllBytes(Utf8.CodePoints(Text(v))) == Utf8.TextBytes(Text(v))
  {
    CanonicalRenders(v);
    RenderFormed(Normal(v));
    Utf8.EncodesUtf8Exactly(Text(v));
  }

  /** The bytes that are hashed are equal exactly for values equal up to the order of keys: a memo hit for any
      other pair is a collision of SHA-256. */
  lemma HashedBytesExactly(a: Json, b: Json)
    requires Printable(a) && Printable(b) && Distinct(a) && Distinct(b)
    ensures Utf8.TextBytes(Text(a)) == Utf8.TextBytes(Text(b)) <==> Same(a, b)
  {
    CanonicalFormed(a);
    CanonicalFormed(b);
    Utf8.TextBytesInjective(Text(a), Text(b));
    PrintsAlikeExactly(a, b);
    CanonicalRenders(a);
    CanonicalRenders(b);
  }

  /** `sha256Hex`: SHA-256 of the encoder's bytes, for every text they are few enough of. */
  method Sha256Hex(input: text) returns (r: Option<string>)
    requires |Utf8.AllBytes(Utf8.CodePoints(input))| < Sha256.TWO53 / 8 - 8
    ensures
      var bytes := Utf8.AllBytes(Utf8.CodePoints(input));
      r == if |bytes| < Sha256.TWO31 - 72 then Some(Sha256.Digest(bytes)) else None
  {
    hide Sha256.Digest, Utf8.AllBytes, Utf8.CodePoints;
    var bytes := Utf8.Utf8Bytes(input);
    r := Sha256.Sha256HexBytes(bytes);
  }

  // ---------------------------------------------------------------- reparsing

  lemma InOrderDistinct(ms: seq<Member>)
    requires InOrder(ms)
    ensures DistinctKeys(ms)
  {
    forall i, j | 0 <= i < j < |ms| ensures ms[i].key != ms[j].key {
      LessTotal(ms[i].key, ms[j].key);
    }
  }

  lemma SortedTwice(ms: seq<Member>)
    requires DistinctKeys(ms)
    ensures SortMembers(SortMembers(ms)) == SortMembers(ms)
  {
    SortOrders(ms);
    InOrderDistinct(SortMembers(ms));
    SortOrders(SortMembers(ms));
    SortHolds(ms);
    SortHolds(SortMembers(ms));
    OneOrder(SortMembers(SortMembers(ms)), SortMembers(ms));
  }

  lemma {:induction false} NormalTwice(v: Json)
    requires Distinct(v)
    ensures Normal(Normal(v)) == Normal(v) && Distinct(Normal(v))
    decreases v
  {
    match v
    case Arr(items) =>
      forall i | 0 <= i < |items| ensures Normal(Normal(items[i])) == Normal(items[i]) && Distinct(Normal(items[i])) {
        NormalTwice(items[i]);
      }
      assert NormalItems(NormalItems(items)) == NormalItems(items);
    case Obj(ms) =>
      forall i | 0 <= i < |ms|
        ensures Normal(Normal(ms[i].value)) == Normal(ms[i].value) && Distinct(Normal(ms[i].value))
      {
        NormalTwice(ms[i].value);
      }
      MembersTwice(ms);
    case _ =>
  }

  lemma MembersTwice(ms: seq<Member>)
    requires DistinctKeys(ms)
    requires forall i :: 0 <= i < |ms| ==>
      Normal(Normal(ms[i].value)) == Normal(ms[i].value) && Distinct(Normal(ms[i].value))
    ensures Normal(Obj(SortMembers(NormalMembers(ms)))) == Obj(SortMembers(NormalMembers(ms)))
    ensures Distinct(Obj(SortMembers(NormalMembers(ms))))
  {
    var a := NormalMembers(ms);
    assert forall i :: 0 <= i < |a| ==> a[i] == NormalMember(ms[i]) == NormalMember(a[i]) && Distinct(a[i].value);
    hide Normal, Distinct, SortMembers;
    NormalSorted(a);
    SortedDistinct(a);
  }

  lemma NormalSorted(a: seq<Member>)
    requires DistinctKeys(a) && forall i :: 0 <= i < |a| ==> NormalMember(a[i]) == a[i]
    ensures Normal(Obj(SortMembers(a))) == Obj(SortMembers(a))
  {
    assert NormalMembers(a) == a;
    SortCommutes(a);
    SortedTwice(a);
  }

  lemma SortedDistinct(a: seq<Member>)
    requires DistinctKeys(a) && forall i :: 0 <= i < |a| ==> Distinct(a[i].value)
    ensures Distinct(Obj(SortMembers(a)))
  {
    var s := SortMembers(a);
    SortOrders(a);
    InOrderDistinct(s);
    SortHolds(a);
    forall i | 0 <= i < |s| ensures Distinct(s[i].value) {
      assert s[i] in a;
    }
  }

  /** The definition kept for a value is what its canonical text parses to: the same value up to the order of
      keys, with the same canonical text. */
  lemma ReparsedIsSame(v: Json)
    requires Printable(v) && Distinct(v)
    ensures Parse(Text(v)) == Some(Normal(v))
    ensures Same(v, Normal(v)) && CanonicalJson(Normal(v)) == CanonicalJson(v)
  {
    CanonicalParses(v);
    NormalTwice(v);
    NormalSame(v, Normal(v));
    CanonicalRenders(v);
    CanonicalRenders(Normal(v));
  }
}
