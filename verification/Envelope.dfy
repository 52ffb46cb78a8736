/** The envelope: one byte run that carries sections for many documents. A mark, a count, and per section its
    document's name and its bytes, each after its length. */
module Envelope {
  import opened Octets
  import opened Utf16
  import Utf8
  import opened Wrappers

  const MARK: byte := 0xEA
  const TWO32 := 0x1_0000_0000
  const BOM: Utf8.scalar := 0xFEFF

  datatype Reason =
    | TooShort(bytes: nat)
    | MissingMark
    | TruncatedAddressLength
    | TruncatedAddress
    | TruncatedSectionBytes
    | TrailingBytes(bytes: nat)

  datatype Result<+T> = Ok(value: T) | Malformed(reason: Reason)

  /** A section as the wire has it. */
  datatype Raw = Raw(name: seq<byte>, bytes: seq<byte>)

  datatype Section = Section(document: text, bytes: seq<byte>)

  // ---------------------------------------------------------------- the wire format

  /** Four bytes of a length; `setUint32` keeps it modulo 2^32. */
  function Length(n: nat): seq<byte> { Bytes32(n % TWO32) }

  function RawBytes(r: Raw): seq<byte> { Length(|r.name|) + r.name + Length(|r.bytes|) + r.bytes }

  function Body(raws: seq<Raw>): seq<byte> {
    if raws == [] then [] else RawBytes(raws[0]) + Body(raws[1..])
  }

  function Wire(raws: seq<Raw>): seq<byte> { [MARK] + Length(|raws|) + Body(raws) }

  /** An envelope of one section, `a` with the byte 7: the mark, the count, and each part after its length. */
  lemma WireSample()
    ensures Wire([Raw([0x61], [7])]) == [0xEA, 0, 0, 0, 1, 0, 0, 0, 1, 0x61, 0, 0, 0, 1, 7]
  {
    assert [Raw([0x61], [7])][1..] == [];
    assert Length(1) == [0, 0, 0, 1];
    assert RawBytes(Raw([0x61], [7])) == [0, 0, 0, 1, 0x61, 0, 0, 0, 1, 7];
  }

  predicate RawFits(r: Raw) { |r.name| < TWO32 && |r.bytes| < TWO32 }

  /** Every length and the count fit 32 bits. */
  predicate Fits(raws: seq<Raw>) { |raws| < TWO32 && forall i :: 0 <= i < |raws| ==> RawFits(raws[i]) }

  // ---------------------------------------------------------------- what the decoder computes

  /** One section at the front, checked in the decoder's order, and what follows it. */
  function ReadSection(b: seq<byte>): (r: Result<(Raw, seq<byte>)>)
    ensures r.Ok? ==> |r.value.1| < |b|
  {
    if |b| < 4 then Malformed(TruncatedAddressLength)
    else
      var n := GetUint32(b, 0);
      if 4 + n + 4 > |b| then Malformed(TruncatedAddress)
      else
        var m := GetUint32(b, 4 + n);
        if 8 + n + m > |b| then Malformed(TruncatedSectionBytes)
        else Ok((Raw(b[4..4 + n], b[8 + n..8 + n + m]), b[8 + n + m..]))
  }

  function ReadBody(b: seq<byte>, count: nat): Result<(seq<Raw>, seq<byte>)>
    decreases count
  {
    if count == 0 then Ok(([], b))
    else
      var first := ReadSection(b);
      if first.Malformed? then Malformed(first.reason)
      else
        var rest := ReadBody(first.value.1, count - 1);
        if rest.Malformed? then rest else Ok(([first.value.0] + rest.value.0, rest.value.1))
  }

  function Finish(body: Result<(seq<Raw>, seq<byte>)>): Result<seq<Raw>> {
    if body.Malformed? then Malformed(body.reason)
    else if body.value.1 != [] then Malformed(TrailingBytes(|body.value.1|))
    else Ok(body.value.0)
  }

  function Read(input: seq<byte>): Result<seq<Raw>> {
    if |input| < 5 then Malformed(TooShort(|input|))
    else if input[0] != MARK then Malformed(MissingMark)
    else Finish(ReadBody(input[5..], GetUint32(input, 1)))
  }

  // ---------------------------------------------------------------- the format is read exactly

  lemma LengthOfWord(w: word)
    ensures Length(w) == Bytes32(w)
  {
    hide Bytes32;
  }

  lemma LengthReads(n: nat, rest: seq<byte>)
    ensures GetUint32(Length(n) + rest, 0) == n % TWO32
    ensures |Length(n)| == 4 && (Length(n) + rest)[4..] == rest
  {
    var f := Length(n);
    var b := f + rest;
    WordOfBytes(n % TWO32);
    hide Word, Bytes32;
    assert |f| == 4 && b[0] == f[0] && b[1] == f[1] && b[2] == f[2] && b[3] == f[3];
  }

  lemma LengthIs(b: seq<byte>, at: nat)
    requires at + 4 <= |b|
    ensures Length(GetUint32(b, at)) == b[at..at + 4]
  {
    BytesOfWord(b[at], b[at + 1], b[at + 2], b[at + 3]);
    LengthOfWord(GetUint32(b, at));
    hide Word, Bytes32, Length;
  }

  lemma GetShifted(a: seq<byte>, b: seq<byte>)
    requires |b| >= 4
    ensures GetUint32(a + b, |a|) == GetUint32(b, 0)
  {
    hide Word;
  }

  lemma SectionReads(r: Raw, rest: seq<byte>)
    requires RawFits(r)
    ensures ReadSection(RawBytes(r) + rest) == Ok((r, rest))
  {
    hide Length, GetUint32;
    var n, m := |r.name|, |r.bytes|;
    LengthReads(n, r.name + (Length(m) + (r.bytes + rest)));
    LengthReads(m, r.bytes + rest);
    GetShifted(Length(n) + r.name, Length(m) + (r.bytes + rest));
    Pieces(Length(n), r.name, Length(m), r.bytes, rest);
  }

  lemma Pieces(a: seq<byte>, name: seq<byte>, c: seq<byte>, bytes: seq<byte>, rest: seq<byte>)
    requires |a| == 4 == |c|
    ensures var b, n, m := (a + name + c + bytes) + rest, |name|, |bytes|;
      && b == a + (name + (c + (bytes + rest))) == (a + name) + (c + (bytes + rest))
      && b[4..4 + n] == name && b[8 + n..8 + n + m] == bytes && b[8 + n + m..] == rest
  {
  }

  lemma SectionIs(b: seq<byte>)
    requires ReadSection(b).Ok?
    ensures RawFits(ReadSection(b).value.0)
    ensures b == RawBytes(ReadSection(b).value.0) + ReadSection(b).value.1
  {
    var n: int := GetUint32(b, 0);
    var m: int := GetUint32(b, 4 + n);
    hide Length, GetUint32;
    LengthIs(b, 0);
    LengthIs(b, 4 + n);
    Regions(b, n, m);
  }

  lemma Regions(b: seq<byte>, n: nat, m: nat)
    requires 8 + n + m <= |b|
    ensures b == (b[0..4] + b[4..4 + n] + b[4 + n..8 + n] + b[8 + n..8 + n + m]) + b[8 + n + m..]
  {
    assert b[..8 + n] == b[0..4] + b[4..4 + n] + b[4 + n..8 + n];
    assert b[..8 + n + m] == b[..8 + n] + b[8 + n..8 + n + m];
    assert b == b[..8 + n + m] + b[8 + n + m..];
  }

  lemma {:induction false} BodyReads(raws: seq<Raw>, rest: seq<byte>)
    requires forall i :: 0 <= i < |raws| ==> RawFits(raws[i])
    ensures ReadBody(Body(raws) + rest, |raws|) == Ok((raws, rest))
  {
    hide RawBytes, ReadSection;
    if raws == [] {
      assert Body(raws) + rest == rest;
    } else {
      var tail := Body(raws[1..]) + rest;
      assert Body(raws) + rest == RawBytes(raws[0]) + tail;
      SectionReads(raws[0], tail);
      BodyReads(raws[1..], rest);
      assert raws == [raws[0]] + raws[1..];
    }
  }

  lemma {:induction false} BodyIs(b: seq<byte>, count: nat)
    requires ReadBody(b, count).Ok?
    ensures var r := ReadBody(b, count).value;
      |r.0| == count && b == Body(r.0) + r.1 && forall i :: 0 <= i < |r.0| ==> RawFits(r.0[i])
    decreases count
  {
    hide RawBytes, ReadSection;
    var r := ReadBody(b, count).value;
    if count > 0 {
      var first := ReadSection(b).value;
      SectionIs(b);
      BodyIs(first.1, count - 1);
      assert r.0[1..] == ReadBody(first.1, count - 1).value.0;
      assert b == RawBytes(first.0) + (Body(r.0[1..]) + r.1);
    }
  }

  lemma WireParts(raws: seq<Raw>, x: seq<byte>)
    ensures var w := Wire(raws) + x;
      |w| >= 5 && w[0] == MARK && GetUint32(w, 1) == |raws| % TWO32 && w[5..] == Body(raws) + x
  {
    hide Length, GetUint32, Body;
    var w := Wire(raws) + x;
    var tail := Length(|raws|) + (Body(raws) + x);
    assert w == [MARK] + tail;
    LengthReads(|raws|, Body(raws) + x);
    GetShifted([MARK], tail);
    assert w[5..] == tail[4..];
  }

  /** The decoder accepts exactly the wire forms, and answers what they carry. */
  lemma AcceptsExactly(input: seq<byte>, raws: seq<Raw>)
    ensures Read(input) == Ok(raws) <==> Fits(raws) && input == Wire(raws)
  {
    hide Length, GetUint32, Body, ReadBody, RawFits;
    if Fits(raws) && input == Wire(raws) {
      WireParts(raws, []);
      assert Wire(raws) + [] == Wire(raws);
      assert Body(raws) + [] == Body(raws);
      BodyReads(raws, []);
    }
    if Read(input) == Ok(raws) {
      var count := GetUint32(input, 1);
      BodyIs(input[5..], count);
      LengthIs(input, 1);
      assert Body(raws) + [] == Body(raws);
      assert input == [input[0]] + input[1..5] + input[5..];
    }
  }

  /** Encoding and decoding give the sections back exactly when their count and lengths fit 32 bits. */
  lemma RoundTripsExactly(raws: seq<Raw>)
    ensures Read(Wire(raws)) == Ok(raws) <==> Fits(raws)
  {
    AcceptsExactly(Wire(raws), raws);
  }

  /** Whatever follows an envelope is counted and refused. */
  lemma TrailingIsCounted(raws: seq<Raw>, x: seq<byte>)
    requires Fits(raws) && x != []
    ensures Read(Wire(raws) + x) == Malformed(TrailingBytes(|x|))
  {
    hide Wire, GetUint32, Body, ReadBody, RawFits;
    WireParts(raws, x);
    BodyReads(raws, x);
  }

  predicate Truncated(r: Reason) { r.TruncatedAddressLength? || r.TruncatedAddress? || r.TruncatedSectionBytes? }

  lemma ReadsMore(b: seq<byte>, x: seq<byte>)
    requires ReadSection(b).Ok?
    ensures ReadSection(b + x) == Ok((ReadSection(b).value.0, ReadSection(b).value.1 + x))
  {
    var got := ReadSection(b).value;
    SectionIs(b);
    SectionReads(got.0, got.1 + x);
    hide RawBytes, ReadSection;
    assert b + x == RawBytes(got.0) + (got.1 + x);
  }

  lemma SectionCut(r: Raw, b: seq<byte>, x: seq<byte>)
    requires RawFits(r) && b + x == RawBytes(r) && x != []
    ensures ReadSection(b).Malformed? && Truncated(ReadSection(b).reason)
  {
    hide GetUint32, RawBytes;
    assert RawBytes(r) == RawBytes(r) + [];
    SectionReads(r, []);
    assert ReadSection(b + x) == Ok((r, []));
    if ReadSection(b).Ok? { ReadsMore(b, x); }
  }

  lemma {:induction false} BodyCut(raws: seq<Raw>, k: nat)
    requires (forall i :: 0 <= i < |raws| ==> RawFits(raws[i])) && k < |Body(raws)|
    ensures ReadBody(Body(raws)[..k], |raws|).Malformed? && Truncated(ReadBody(Body(raws)[..k], |raws|).reason)
  {
    hide RawBytes, ReadSection;
    var first, rest := RawBytes(raws[0]), Body(raws[1..]);
    if k < |first| {
      SectionCut(raws[0], first[..k], first[k..]);
      assert Body(raws)[..k] == first[..k];
    } else {
      assert Body(raws)[..k] == first + rest[..k - |first|];
      SectionReads(raws[0], rest[..k - |first|]);
      BodyCut(raws[1..], k - |first|);
    }
  }

  lemma GetPrefix(b: seq<byte>, at: nat, k: nat)
    requires at + 4 <= k <= |b|
    ensures GetUint32(b[..k], at) == GetUint32(b, at)
  {
    hide Word;
  }

  /** No proper prefix of an envelope is accepted: below five bytes it is too short, past that it is truncated. */
  lemma PrefixIsTruncated(raws: seq<Raw>, k: nat)
    requires Fits(raws) && k < |Wire(raws)|
    ensures k < 5 ==> Read(Wire(raws)[..k]) == Malformed(TooShort(k))
    ensures k >= 5 ==> Read(Wire(raws)[..k]).Malformed? && Truncated(Read(Wire(raws)[..k]).reason)
  {
    var w := Wire(raws);
    hide Wire, GetUint32, Body, ReadBody, RawFits;
    WireParts(raws, []);
    assert w + [] == w && Body(raws) + [] == Body(raws);
    if k >= 5 {
      GetPrefix(w, 1, k);
      assert w[..k][5..] == Body(raws)[..k - 5];
      BodyCut(raws, k - 5);
    }
  }

  // ---------------------------------------------------------------- why an input is refused

  /** What begins with no whole section, and where it breaks off: in the length of the name, in the name or the
      length that follows it, or in the bytes. */
  ghost predicate BreaksOff(b: seq<byte>, reason: Reason) {
    match reason
    case TruncatedAddressLength => |b| < 4
    case TruncatedAddress => exists n: nat :: n < TWO32 && Length(n) <= b && |b| < 8 + n
    case TruncatedSectionBytes =>
      exists name: seq<byte>, m: nat :: |name| < TWO32 && m < TWO32 && Opens(b, name, m) && |b| < 8 + |name| + m
    case _ => false
  }

  predicate Opens(b: seq<byte>, name: seq<byte>, m: nat) { Length(|name|) + name + Length(m) <= b }

  /** The input announces `count` sections, has fewer whole ones, and breaks off in the next. */
  ghost predicate Broken(input: seq<byte>, count: nat, raws: seq<Raw>, rest: seq<byte>, reason: Reason) {
    && |raws| < count < TWO32 && (forall i :: 0 <= i < |raws| ==> RawFits(raws[i]))
    && input == [0xEA] + Length(count) + (Body(raws) + rest) && BreaksOff(rest, reason)
  }

  ghost predicate Refused(input: seq<byte>, reason: Reason) {
    match reason
    case TooShort(n) => n == |input| < 5
    case MissingMark => |input| >= 5 && input[0] != 0xEA
    case TrailingBytes(n) => n > 0 && exists raws, x :: Fits(raws) && |x| == n && input == Wire(raws) + x
    case _ => exists count, raws, rest :: Broken(input, count, raws, rest, reason)
  }

  lemma OpensReads(b: seq<byte>, name: seq<byte>, m: nat)
    requires |name| < TWO32 && m < TWO32 && Opens(b, name, m)
    ensures |b| >= 8 + |name| && GetUint32(b, 0) == |name| && GetUint32(b, 4 + |name|) == m
  {
    hide Length, GetUint32;
    var front := Length(|name|) + name;
    var rest := b[|front + Length(m)|..];
    LengthReads(|name|, name + (Length(m) + rest));
    LengthReads(m, rest);
    GetShifted(front, Length(m) + rest);
    assert b == Length(|name|) + (name + (Length(m) + rest)) == front + (Length(m) + rest);
  }

  lemma PrefixReads(b: seq<byte>, n: nat)
    requires n < TWO32 && Length(n) <= b
    ensures |b| >= 4 && GetUint32(b, 0) == n
  {
    hide Length, GetUint32;
    LengthReads(n, b[|Length(n)|..]);
    assert b == Length(n) + b[|Length(n)|..];
  }

  /** The decoder finds no section exactly where none is whole, and names the part it broke off in. */
  lemma SectionBreaks(b: seq<byte>, reason: Reason)
    ensures ReadSection(b) == Malformed(reason) <==> BreaksOff(b, reason)
    ensures BreaksOff(b, reason) ==> Truncated(reason)
  {
    hide Length, GetUint32;
    if BreaksOff(b, reason) {
      match reason
      case TruncatedAddress =>
        var n: nat :| n < TWO32 && Length(n) <= b && |b| < 8 + n;
        PrefixReads(b, n);
      case TruncatedSectionBytes =>
        var name: seq<byte>, m: nat :| |name| < TWO32 && m < TWO32 && Opens(b, name, m) && |b| < 8 + |name| + m;
        OpensReads(b, name, m);
      case _ =>
    } else if |b| >= 4 {
      var n: int := GetUint32(b, 0);
      LengthIs(b, 0);
      assert Length(n) <= b;
      if 8 + n <= |b| {
        LengthIs(b, 4 + n);
        var name, m: int := b[4..4 + n], GetUint32(b, 4 + n);
        assert b == b[0..4] + name + b[4 + n..8 + n] + b[8 + n..];
        assert Opens(b, name, m);
      }
    }
  }

  lemma {:induction false} BodyBreaks(raws: seq<Raw>, rest: seq<byte>, count: nat, reason: Reason)
    requires |raws| < count && (forall i :: 0 <= i < |raws| ==> RawFits(raws[i])) && BreaksOff(rest, reason)
    ensures ReadBody(Body(raws) + rest, count) == Malformed(reason)
    decreases |raws|
  {
    hide RawBytes, ReadSection, BreaksOff;
    if raws == [] {
      assert Body(raws) + rest == rest;
      SectionBreaks(rest, reason);
    } else {
      var tail := Body(raws[1..]) + rest;
      assert Body(raws) + rest == RawBytes(raws[0]) + tail;
      SectionReads(raws[0], tail);
      BodyBreaks(raws[1..], rest, count - 1, reason);
    }
  }

  lemma {:induction false} BodyBroke(b: seq<byte>, count: nat) returns (raws: seq<Raw>, rest: seq<byte>)
    requires ReadBody(b, count).Malformed?
    ensures |raws| < count && (forall i :: 0 <= i < |raws| ==> RawFits(raws[i]))
    ensures b == Body(raws) + rest && BreaksOff(rest, ReadBody(b, count).reason)
    ensures Truncated(ReadBody(b, count).reason)
    decreases count
  {
    hide RawBytes, ReadSection, BreaksOff;
    var first := ReadSection(b);
    if first.Malformed? {
      raws, rest := [], b;
      SectionBreaks(b, first.reason);
    } else {
      SectionIs(b);
      var tail;
      tail, rest := BodyBroke(first.value.1, count - 1);
      raws := [first.value.0] + tail;
      assert raws[1..] == tail;
      assert b == RawBytes(raws[0]) + (Body(tail) + rest);
    }
  }

  /** The decoder refuses an input for a reason exactly when the bytes show it. */
  lemma RefusesExactly(input: seq<byte>, reason: Reason)
    ensures Read(input) == Malformed(reason) <==> Refused(input, reason)
  {
    hide Length, GetUint32, Body, ReadBody, RawFits, BreaksOff;
    if Refused(input, reason) { RefusedIsRead(input, reason); }
    if Read(input) == Malformed(reason) && |input| >= 5 && input[0] == MARK {
      var count: nat := GetUint32(input, 1);
      LengthIs(input, 1);
      var body := ReadBody(input[5..], count);
      assert input == [input[0]] + input[1..5] + input[5..];
      if body.Ok? {
        BodyIs(input[5..], count);
        var raws, x := body.value.0, body.value.1;
        assert input == Wire(raws) + x;
      } else {
        var raws, rest := BodyBroke(input[5..], count);
        assert Broken(input, count, raws, rest, reason);
      }
    }
  }

  lemma RefusedIsRead(input: seq<byte>, reason: Reason)
    requires Refused(input, reason)
    ensures Read(input) == Malformed(reason)
  {
    hide Length, GetUint32, Body, ReadBody, RawFits, BreaksOff;
    match reason
    case TooShort(n) =>
    case MissingMark =>
    case TrailingBytes(n) =>
      var raws, x :| Fits(raws) && |x| == n && input == Wire(raws) + x;
      TrailingIsCounted(raws, x);
    case _ =>
      var count, raws, rest :| Broken(input, count, raws, rest, reason);
      var tail := Length(count) + (Body(raws) + rest);
      assert input == [MARK] + tail;
      LengthReads(count, Body(raws) + rest);
      GetShifted([MARK], tail);
      assert input[5..] == tail[4..];
      BodyBreaks(raws, rest, count, reason);
  }

  // ---------------------------------------------------------------- names

  predicate LedByBom(cs: seq<Utf8.scalar>) { cs != [] && cs[0] == BOM }

  /** `TextDecoder`: a leading byte-order mark is dropped, and bytes that are no UTF-8 give some text, `lossy`. */
  function DecodeName(b: seq<byte>, lossy: seq<byte> -> text): text {
    var cs := Utf8.Decoded(b);
    if cs.None? then lossy(b) else Utf8.Units(if LedByBom(cs.value) then cs.value[1..] else cs.value)
  }

  /** Bytes EF BB BF at the front of a name are not part of it. */
  lemma MarkDropped(lossy: seq<byte> -> text)
    ensures DecodeName([0xEF, 0xBB, 0xBF, 0x61], lossy) == [0x61]
  {
    var b := [0xEF, 0xBB, 0xBF, 0x61];
    assert b[3..] == [0x61] && [0x61][1..] == [];
    assert Utf8.Encoded([0x61]) == [0x61] && [0xFEFF, 0x61][1..] == [0x61];
    assert Utf8.Encoded([0xFEFF, 0x61]) == [0xEF, 0xBB, 0xBF] + [0x61] == b;
    Utf8.DecodedEncoded([0xFEFF, 0x61]);
    assert Utf8.Units([0x61]) == [0x61];
  }

  predicate NameText(t: text) { WellFormed(t) && !LedByBom(Utf8.Scalars(t)) }

  predicate NameBytes(b: seq<byte>) { Utf8.Decoded(b).Some? && !LedByBom(Utf8.Decoded(b).value) }

  /** A name comes back exactly when it is well-formed and does not start with a byte-order mark. */
  lemma NameRoundTripsExactly(t: text, lossy: seq<byte> -> text)
    ensures DecodeName(Utf8.TextBytes(t), lossy) == t <==> NameText(t)
  {
    var cs := Utf8.Scalars(t);
    Utf8.DecodedEncoded(cs);
    Utf8.ScalarsLossless(t);
    if LedByBom(cs) {
      Utf8.UnitsWellFormed(cs[1..]);
      hide Utf8.Decoded, Utf8.Encoded, Utf8.Scalars;
      assert |Utf8.Units(cs)| == |Utf8.Units(cs[1..])| + 1;
    } else {
      hide Utf8.Units, Utf8.Encoded, Utf8.Decoded, Utf8.Scalars;
    }
  }

  /** A name's bytes come back exactly when they are UTF-8 without a byte-order mark in front. */
  lemma NameBytesRoundTripExactly(b: seq<byte>, lossy: seq<byte> -> text)
    ensures Utf8.TextBytes(DecodeName(b, lossy)) == b <==> NameBytes(b)
  {
    var cs := Utf8.Decoded(b);
    Utf8.DecodedEncoded(Utf8.Scalars(DecodeName(b, lossy)));
    if cs.Some? {
      var kept := if LedByBom(cs.value) then cs.value[1..] else cs.value;
      Utf8.ScalarsOfUnits(kept);
      Utf8.EncodedDecoded(b);
      hide Utf8.Units, Utf8.Decoded, Utf8.Scalars, Utf8.CodeBytes;
    } else {
      hide Utf8.Units, Utf8.Encoded, Utf8.Decoded, Utf8.Scalars;
    }
  }

  function RawOf(s: Section): Raw { Raw(Utf8.TextBytes(s.document), s.bytes) }

  function Raws(sections: seq<Section>): seq<Raw> {
    seq(|sections|, i requires 0 <= i < |sections| => RawOf(sections[i]))
  }

  function Named(r: Raw, lossy: seq<byte> -> text): Section { Section(DecodeName(r.name, lossy), r.bytes) }

  function AllNamed(raws: seq<Raw>, lossy: seq<byte> -> text): seq<Section> {
    seq(|raws|, i requires 0 <= i < |raws| => Named(raws[i], lossy))
  }

  /** What `encodeEnvelope` and `decodeEnvelope` compute. */
  function Encoded(sections: seq<Section>): seq<byte> { Wire(Raws(sections)) }

  function Decoded(input: seq<byte>, lossy: seq<byte> -> text): Result<seq<Section>> {
    var raws := Read(input);
    if raws.Malformed? then Malformed(raws.reason) else Ok(AllNamed(raws.value, lossy))
  }

  /** Decoding an encoding gives the sections back exactly when every name survives the text coders. */
  lemma EncodedDecodesExactly(sections: seq<Section>, lossy: seq<byte> -> text)
    requires Fits(Raws(sections))
    ensures Decoded(Encoded(sections), lossy) == Ok(sections)
      <==> forall i :: 0 <= i < |sections| ==> NameText(sections[i].document)
  {
    var raws := Raws(sections);
    RoundTripsExactly(raws);
    forall i | 0 <= i < |sections|
      ensures Named(raws[i], lossy) == sections[i] <==> NameText(sections[i].document)
    {
      NameRoundTripsExactly(sections[i].document, lossy);
    }
    hide NameText, DecodeName, RawOf, Named, Read, Wire, Fits;
    var back := AllNamed(raws, lossy);
    if back == sections {
      assert forall i :: 0 <= i < |sections| ==> Named(raws[i], lossy) == back[i] == sections[i];
    }
    if forall i :: 0 <= i < |sections| ==> NameText(sections[i].document) {
      assert forall i :: 0 <= i < |sections| ==> back[i] == sections[i];
    }
  }

  /** An accepted input is the encoding of what it was decoded to exactly when its names are UTF-8 without a
      byte-order mark in front; ASCII names are. */
  lemma AcceptedReencodesExactly(input: seq<byte>, raws: seq<Raw>, lossy: seq<byte> -> text)
    requires Read(input) == Ok(raws)
    requires Fits(Raws(AllNamed(raws, lossy)))
    ensures Encoded(AllNamed(raws, lossy)) == input
      <==> forall i :: 0 <= i < |raws| ==> NameBytes(raws[i].name)
  {
    var again := Raws(AllNamed(raws, lossy));
    AcceptsExactly(input, raws);
    AcceptsExactly(input, again);
    forall i | 0 <= i < |raws| ensures again[i] == raws[i] <==> NameBytes(raws[i].name) {
      NameBytesRoundTripExactly(raws[i].name, lossy);
    }
    hide NameBytes, Read, Wire, Fits, RawOf, Named;
    assert again == raws <==> forall i :: 0 <= i < |raws| ==> again[i] == raws[i];
  }

  lemma {:induction false} AsciiNames(b: seq<byte>)
    requires forall i :: 0 <= i < |b| ==> b[i] < 0x80
    ensures NameBytes(b)
  {
    AsciiDecodes(b);
  }

  lemma {:induction false} AsciiDecodes(b: seq<byte>)
    requires forall i :: 0 <= i < |b| ==> b[i] < 0x80
    ensures Utf8.Decoded(b) == Some(b)
  {
    if b != [] {
      AsciiDecodes(b[1..]);
      assert b == [b[0]] + b[1..];
    }
  }

  // ---------------------------------------------------------------- the encoder

  lemma {:induction false} BodyConcat(a: seq<Raw>, r: Raw)
    ensures Body(a + [r]) == Body(a) + RawBytes(r)
  {
    hide RawBytes;
    if a == [] {
      assert a + [r] == [r] && Body([r]) == RawBytes(r) + Body([]);
    } else {
      assert (a + [r])[1..] == a[1..] + [r];
      BodyConcat(a[1..], r);
      assert RawBytes(a[0]) + (Body(a[1..]) + RawBytes(r)) == (RawBytes(a[0]) + Body(a[1..])) + RawBytes(r);
    }
  }

  lemma BodyTo(raws: seq<Raw>, i: nat)
    requires i < |raws|
    ensures Body(raws[..i + 1]) == Body(raws[..i]) + RawBytes(raws[i])
  {
    BodyConcat(raws[..i], raws[i]);
    assert raws[..i + 1] == raws[..i] + [raws[i]];
  }

  lemma RawSize(r: Raw)
    ensures |RawBytes(r)| == 8 + |r.name| + |r.bytes|
  {
  }

  method SectionSizes(encoded: seq<Raw>) returns (total: nat)
    ensures total == 5 + |Body(encoded)|
  {
    total := 5;
    for i := 0 to |encoded|
      invariant total == 5 + |Body(encoded[..i])|
    {
      BodyTo(encoded, i);
      RawSize(encoded[i]);
      total := total + 8 + |encoded[i].name| + |encoded[i].bytes|;
    }
    assert encoded[..|encoded|] == encoded;
  }

  function Field(data: seq<byte>): seq<byte> { Length(|data|) + data }

  lemma RawIsFields(r: Raw)
    ensures RawBytes(r) == Field(r.name) + Field(r.bytes)
  {
    hide Length;
  }

  lemma FieldSize(data: seq<byte>)
    ensures |Field(data)| == 4 + |data|
  {
  }

  /** `v` with `data` written at `at`. */
  function Spliced(v: seq<byte>, at: nat, data: seq<byte>): seq<byte>
    requires at + |data| <= |v|
  {
    v[..at] + data + v[at + |data|..]
  }

  lemma SplicedTwice(v: seq<byte>, at: nat, a: seq<byte>, b: seq<byte>)
    requires at + |a| + |b| <= |v|
    ensures Spliced(Spliced(v, at, a), at + |a|, b) == Spliced(v, at, a + b)
  {
    var w := Spliced(v, at, a);
    assert w[..at + |a|] == v[..at] + a;
    assert w[at + |a| + |b|..] == v[at + |a| + |b|..];
  }

  /** Writing a length and then the bytes it counts; `at` is where the next write goes. */
  method WriteField(buffer: array<byte>, start: nat, data: seq<byte>) returns (at: nat)
    requires start + |Field(data)| <= buffer.Length
    modifies buffer
    ensures at == start + |Field(data)|
    ensures buffer[..] == Spliced(old(buffer[..]), start, Field(data))
  {
    FieldSize(data);
    LengthReads(|data|, []);
    SplicedTwice(buffer[..], start, Length(|data|), data);
    hide Length, Spliced;
    SetLength(buffer, start, |data|);
    SetBytes(buffer, start + 4, data);
    at := start + 4 + |data|;
  }

  method SetBytes(buffer: array<byte>, at: nat, data: seq<byte>)
    requires at + |data| <= buffer.Length
    modifies buffer
    ensures buffer[..] == Spliced(old(buffer[..]), at, data)
  {
    ghost var v := buffer[..];
    Set(buffer, data, at);
    assert v[..at] == old(buffer[..at]) && v[at + |data|..] == old(buffer[at + |data|..]);
  }

  method WriteSection(buffer: array<byte>, start: nat, r: Raw) returns (at: nat)
    requires start + |RawBytes(r)| <= buffer.Length
    modifies buffer
    ensures at == start + |RawBytes(r)|
    ensures buffer[..] == Spliced(old(buffer[..]), start, RawBytes(r))
  {
    RawIsFields(r);
    hide Field, RawBytes;
    SplicedTwice(buffer[..], start, Field(r.name), Field(r.bytes));
    hide Spliced;
    at := WriteField(buffer, start, r.name);
    at := WriteField(buffer, at, r.bytes);
  }

  method SetLength(buffer: array<byte>, at: nat, n: nat)
    requires at + 4 <= buffer.Length
    modifies buffer
    ensures |Length(n)| == 4 && buffer[..] == Spliced(old(buffer[..]), at, Length(n))
  {
    ghost var v := buffer[..];
    SetUint32(buffer, at, n % TWO32);
    assert v[..at] == old(buffer[..at]) && v[at + 4..] == old(buffer[at + 4..]);
    hide Bytes32;
  }

  method EncodeNames(sections: seq<Section>) returns (encoded: seq<Raw>)
    ensures encoded == Raws(sections)
  {
    encoded := [];
    for i := 0 to |sections|
      invariant encoded == Raws(sections)[..i]
    {
      encoded := encoded + [Raw(Utf8.TextBytes(sections[i].document), sections[i].bytes)];
    }
  }

  method WriteHead(buffer: array<byte>, count: nat)
    requires buffer.Length >= 5
    modifies buffer
    ensures buffer[..5] == [MARK] + Length(count)
  {
    LengthReads(count, []);
    hide Length;
    buffer[0] := MARK;
    SetLength(buffer, 1, count);
  }

  method WriteBody(buffer: array<byte>, encoded: seq<Raw>)
    requires buffer.Length == 5 + |Body(encoded)|
    modifies buffer
    ensures buffer[..] == old(buffer[..5]) + Body(encoded)
  {
    hide RawBytes;
    ghost var head := buffer[..5];
    assert Body(encoded[..0]) == [];
    var at: nat := 5;
    for i := 0 to |encoded|
      invariant at == 5 + |Body(encoded[..i])| && at <= buffer.Length
      invariant buffer[..at] == head + Body(encoded[..i])
    {
      BodyTo(encoded, i);
      BodyShorter(encoded, i + 1);
      hide Body;
      at := WriteSection(buffer, at, encoded[i]);
    }
    assert encoded[..|encoded|] == encoded;
  }

  method EncodeEnvelope(sections: seq<Section>) returns (buffer: array<byte>)
    ensures fresh(buffer) && buffer[..] == Encoded(sections)
  {
    hide Length, Raws, Body;
    var encoded := EncodeNames(sections);
    var total := SectionSizes(encoded);
    buffer := new byte[total](_ => 0);
    WriteHead(buffer, |encoded|);
    WriteBody(buffer, encoded);
  }

  lemma {:induction false} BodyShorter(raws: seq<Raw>, i: nat)
    requires i <= |raws|
    ensures |Body(raws[..i])| <= |Body(raws)|
    decreases |raws| - i
  {
    if i == |raws| {
      assert raws[..i] == raws;
    } else {
      BodyTo(raws, i);
      BodyShorter(raws, i + 1);
    }
  }

  // ---------------------------------------------------------------- the decoder

  function After(raws: seq<Raw>, body: Result<(seq<Raw>, seq<byte>)>): Result<(seq<Raw>, seq<byte>)> {
    if body.Malformed? then body else Ok((raws + body.value.0, body.value.1))
  }

  lemma AfterSection(raws: seq<Raw>, b: seq<byte>, count: nat)
    requires count > 0
    ensures var first := ReadSection(b);
      After(raws, ReadBody(b, count)) == if first.Malformed? then Malformed(first.reason)
        else After(raws + [first.value.0], ReadBody(first.value.1, count - 1))
  {
    hide ReadSection;
    var first := ReadSection(b);
    if first.Ok? {
      var rest := ReadBody(first.value.1, count - 1);
      if rest.Ok? {
        assert raws + ([first.value.0] + rest.value.0) == (raws + [first.value.0]) + rest.value.0;
      }
    }
  }

  lemma AfterNothing(body: Result<(seq<Raw>, seq<byte>)>)
    ensures After([], body) == body
  {
    if body.Ok? { assert [] + body.value.0 == body.value.0; }
  }

  lemma AfterAll(raws: seq<Raw>, b: seq<byte>)
    ensures After(raws, ReadBody(b, 0)) == Ok((raws, b))
  {
    assert raws + [] == raws;
  }

  lemma NoneNamed(lossy: seq<byte> -> text)
    ensures AllNamed([], lossy) == []
  {
  }

  lemma NextNamed(raws: seq<Raw>, r: Raw, lossy: seq<byte> -> text)
    ensures AllNamed(raws + [r], lossy) == AllNamed(raws, lossy) + [Named(r, lossy)]
  {
  }

  /** `r` is the section at `start`, with the next one at `at`, or why there is none. */
  predicate Took(input: seq<byte>, start: nat, r: Result<Raw>, at: nat)
    requires start <= |input| && at <= |input|
  {
    match ReadSection(input[start..])
    case Ok(v) => r == Ok(v.0) && input[at..] == v.1
    case Malformed(reason) => r == Malformed(reason)
  }

  /** `r` is what the count and the bytes after it hold, with the first unread byte at `at`. */
  predicate Answers(input: seq<byte>, count: nat, lossy: seq<byte> -> text, r: Result<seq<Section>>, at: nat)
    requires |input| >= 5 && at <= |input|
  {
    match ReadBody(input[5..], count)
    case Ok(v) => r == Ok(AllNamed(v.0, lossy)) && input[at..] == v.1
    case Malformed(reason) => r == Malformed(reason)
  }

  /** One turn of the loop: the section at `start`, or why there is none. */
  method DecodeSection(input: seq<byte>, start: nat) returns (r: Result<Raw>, at: nat)
    requires start <= |input|
    ensures at <= |input| && Took(input, start, r, at)
  {
    ghost var b := input[start..];
    at := start;
    if at + 4 > |input| { return Malformed(TruncatedAddressLength), at; }
    var addressLength: nat := GetUint32(input, at);
    assert addressLength == GetUint32(b, 0);
    hide GetUint32;
    at := at + 4;
    if at + addressLength + 4 > |input| { return Malformed(TruncatedAddress), start; }
    var name := input[at..at + addressLength];
    assert name == b[4..4 + addressLength];
    at := at + addressLength;
    var bytesLength: nat := GetUint32(input, at);
    GetFrom(input, start, 4 + addressLength);
    at := at + 4;
    if at + bytesLength > |input| { return Malformed(TruncatedSectionBytes), start; }
    r := Ok(Raw(name, input[at..at + bytesLength]));
    assert input[at..at + bytesLength] == b[8 + addressLength..8 + addressLength + bytesLength];
    at := at + bytesLength;
    assert input[at..] == b[8 + addressLength + bytesLength..];
  }

  lemma GetFrom(input: seq<byte>, start: nat, i: nat)
    requires start + i + 4 <= |input|
    ensures GetUint32(input[start..], i) == GetUint32(input, start + i)
  {
    hide Word;
  }

  /** What has been read, and the `left` sections still to be read from `rest`, make up the whole. */
  ghost predicate Reading(raws: seq<Raw>, rest: seq<byte>, left: nat, whole: seq<byte>, count: nat) {
    After(raws, ReadBody(rest, left)) == ReadBody(whole, count)
  }

  method DecodeSections(input: seq<byte>, count: nat, lossy: seq<byte> -> text)
      returns (r: Result<seq<Section>>, at: nat)
    requires |input| >= 5
    ensures at <= |input| && Answers(input, count, lossy, r, at)
  {
    hide ReadBody, ReadSection, AllNamed, Named;
    ghost var raws, whole := [], input[5..];
    var sections: seq<Section> := [];
    at := 5;
    var index: nat := 0;
    AfterNothing(ReadBody(whole, count));
    NoneNamed(lossy);
    while index < count
      invariant index <= count && at <= |input|
      invariant Reading(raws, input[at..], count - index, whole, count)
      invariant sections == AllNamed(raws, lossy)
    {
      AfterSection(raws, input[at..], count - index);
      var section;
      section, at := DecodeSection(input, at);
      if section.Malformed? { return Malformed(section.reason), at; }
      NextNamed(raws, section.value, lossy);
      sections := sections + [Named(section.value, lossy)];
      raws := raws + [section.value];
      index := index + 1;
    }
    AfterAll(raws, input[at..]);
    r := Ok(sections);
  }

  /** Total on every byte run, and never reads past it. */
  method DecodeEnvelope(input: seq<byte>, lossy: seq<byte> -> text) returns (r: Result<seq<Section>>)
    ensures r == Decoded(input, lossy)
  {
    hide ReadBody, AllNamed;
    if |input| < 5 { return Malformed(TooShort(|input|)); }
    if input[0] != MARK { return Malformed(MissingMark); }
    var count := GetUint32(input, 1);
    hide GetUint32;
    var sections, at := DecodeSections(input, count, lossy);
    if sections.Malformed? { return sections; }
    if at != |input| { return Malformed(TrailingBytes(|input| - at)); }
    r := sections;
  }
}
