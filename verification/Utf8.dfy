/** UTF-8 as RFC 3629 defines it, and the encoder of the definition module, which works on UTF-16 units and
    writes U+FFFD for every lone surrogate. */
module Utf8 {
  import opened Octets
  import opened Utf16
  import Sha256
  import opened Wrappers

  type codepoint = x: int | 0 <= x < 0x11_0000
  type scalar = x: int | 0 <= x < 0x11_0000 && !(0xD800 <= x <= 0xDFFF)

  const REPLACEMENT: scalar := 0xFFFD

  // ---------------------------------------------------------------- UTF-16 and scalar values

  predicate PairFirst(s: text) { |s| >= 2 && IsHigh(s[0]) && IsLow(s[1]) }

  /** How many units the first scalar value takes. */
  function Width(s: text): nat requires s != [] { if PairFirst(s) then 2 else 1 }

  function PairValue(high: unit, low: unit): scalar
    requires IsHigh(high) && IsLow(low)
  {
    0x1_0000 + (high - 0xD800) * 0x400 + (low - 0xDC00)
  }

  /** The first scalar value a string stands for; a lone surrogate stands for U+FFFD. */
  function FirstScalar(s: text): scalar
    requires s != []
  {
    if PairFirst(s) then PairValue(s[0], s[1]) else if IsHigh(s[0]) || IsLow(s[0]) then REPLACEMENT else s[0]
  }

  function Scalars(s: text): seq<scalar> {
    if s == [] then [] else [FirstScalar(s)] + Scalars(s[Width(s)..])
  }

  function UnitsOf(c: scalar): text {
    if c < 0x1_0000 then [c] else [0xD800 + (c - 0x1_0000) / 0x400, 0xDC00 + (c - 0x1_0000) % 0x400]
  }

  function Units(cs: seq<scalar>): text {
    if cs == [] then [] else UnitsOf(cs[0]) + Units(cs[1..])
  }

  lemma {:induction false} UnitsWellFormed(cs: seq<scalar>)
    ensures WellFormed(Units(cs))
  {
    if cs != [] {
      UnitsWellFormed(cs[1..]);
      WellFormedConcat(UnitsOf(cs[0]), Units(cs[1..]));
    }
  }

  lemma {:induction false} ScalarsOfUnits(cs: seq<scalar>)
    ensures Scalars(Units(cs)) == cs
  {
    if cs != [] {
      var u, rest := UnitsOf(cs[0]), Units(cs[1..]);
      ScalarsOfUnits(cs[1..]);
      assert (u + rest)[|u|..] == rest;
    }
  }

  lemma UnitsCons(c: scalar, cs: seq<scalar>)
    ensures Units([c] + cs) == UnitsOf(c) + Units(cs)
  {
    assert ([c] + cs)[1..] == cs;
  }

  lemma {:induction false} UnitsOfScalars(s: text)
    requires WellFormed(s)
    ensures Units(Scalars(s)) == s
    decreases |s|
  {
    hide WellFormed, FirstScalar, UnitsOf;
    if s != [] {
      var k := Width(s);
      FirstUnits(s);
      RestWellFormed(s, k);
      UnitsOfScalars(s[k..]);
      UnitsCons(FirstScalar(s), Scalars(s[k..]));
      hide Units;
      assert s == s[..k] + s[k..];
    }
  }

  lemma FirstUnits(s: text)
    requires WellFormed(s) && s != []
    ensures UnitsOf(FirstScalar(s)) == s[..Width(s)] && !IsHigh(s[Width(s) - 1])
  {
    assert IsHigh(s[0]) ==> PairFirst(s);
  }

  lemma RestWellFormed(s: text, k: nat)
    requires WellFormed(s) && k <= |s| && (0 < k < |s| ==> !IsHigh(s[k - 1]))
    ensures WellFormed(s[k..])
  {
    var t := s[k..];
    assert forall i :: 0 <= i < |t| ==> t[i] == s[k + i];
    assert 0 < k < |s| ==> (IsHigh(s[k - 1]) <==> IsLow(s[k]));
  }

  /** Decoding to scalar values loses nothing exactly when the text is well-formed. */
  lemma ScalarsLossless(s: text)
    ensures Units(Scalars(s)) == s <==> WellFormed(s)
  {
    UnitsWellFormed(Scalars(s));
    if WellFormed(s) { UnitsOfScalars(s); }
  }

  // ---------------------------------------------------------------- scalar values and bytes (RFC 3629)

  /** What is left above the low six bits. */
  function Rest(x: nat): nat { x / 64 }

  lemma RestBounds(c: codepoint)
    ensures c < 0x800 ==> Rest(c) < 32
    ensures c < 0x1_0000 ==> Rest(Rest(c)) < 16
    ensures Rest(Rest(Rest(c))) < 5
    ensures Rest(c) <= c && Rest(Rest(c)) <= c
  {
  }

  /** A continuation byte: the low six bits of `x`. */
  function Tail(x: nat): byte { 0x80 + x % 64 }

  /** The bytes of a code point; of a surrogate, too, which is no UTF-8. */
  function CodeBytes(c: codepoint): (r: seq<byte>)
    ensures 1 <= |r| <= 4
  {
    RestBounds(c);
    if c < 0x80 then [c]
    else if c < 0x800 then [0xC0 + Rest(c), Tail(c)]
    else if c < 0x1_0000 then [0xE0 + Rest(Rest(c)), Tail(Rest(c)), Tail(c)]
    else [0xF0 + Rest(Rest(Rest(c))), Tail(Rest(Rest(c))), Tail(Rest(c)), Tail(c)]
  }

  function Encoded(cs: seq<scalar>): seq<byte> {
    if cs == [] then [] else CodeBytes(cs[0]) + Encoded(cs[1..])
  }

  predicate IsTail(b: byte) { 0x80 <= b <= 0xBF }

  function Joined(head: nat, tail: byte): nat requires IsTail(tail) { head * 64 + (tail - 0x80) }

  /** The character at the front by the grammar of section 4, which refuses overlong forms and surrogates. */
  function DecodeOne(b: seq<byte>): Option<scalar> {
    if b == [] then None
    else if b[0] < 0x80 then Some(b[0])
    else if 0xC2 <= b[0] <= 0xDF && |b| >= 2 && IsTail(b[1]) then Some(Joined(b[0] - 0xC0, b[1]))
    else if 0xE0 <= b[0] <= 0xEF && |b| >= 3 && IsTail(b[1]) && IsTail(b[2])
      && (b[0] == 0xE0 ==> b[1] >= 0xA0) && (b[0] == 0xED ==> b[1] <= 0x9F)
    then Some(Joined(Joined(b[0] - 0xE0, b[1]), b[2]))
    else if 0xF0 <= b[0] <= 0xF4 && |b| >= 4 && IsTail(b[1]) && IsTail(b[2]) && IsTail(b[3])
      && (b[0] == 0xF0 ==> b[1] >= 0x90) && (b[0] == 0xF4 ==> b[1] <= 0x8F)
    then Some(Joined(Joined(Joined(b[0] - 0xF0, b[1]), b[2]), b[3]))
    else None
  }

  lemma SplitJoined(q: nat, r: nat)
    requires r < 64
    ensures (q * 64 + r) / 64 == q && (q * 64 + r) % 64 == r
  {
  }

  lemma CodeBytes2(h: nat, x: nat)
    requires 2 <= h < 32 && x < 64
    ensures CodeBytes(h * 64 + x) == [0xC0 + h, 0x80 + x]
  {
    SplitJoined(h, x);
  }

  lemma CodeBytes3(h: nat, x: nat, y: nat)
    requires h < 16 && x < 64 && y < 64 && (h == 0 ==> x >= 32)
    ensures CodeBytes((h * 64 + x) * 64 + y) == [0xE0 + h, 0x80 + x, 0x80 + y]
  {
    SplitJoined(h, x);
    SplitJoined(h * 64 + x, y);
  }

  lemma CodeBytes4(h: nat, x: nat, y: nat, z: nat)
    requires h < 5 && x < 64 && y < 64 && z < 64 && (h == 0 ==> x >= 16) && (h == 4 ==> x < 16)
    ensures CodeBytes(((h * 64 + x) * 64 + y) * 64 + z) == [0xF0 + h, 0x80 + x, 0x80 + y, 0x80 + z]
  {
    SplitJoined(h, x);
    SplitJoined(h * 64 + x, y);
    SplitJoined((h * 64 + x) * 64 + y, z);
  }

  lemma DecodesFront(c: scalar, rest: seq<byte>)
    ensures DecodeOne(CodeBytes(c) + rest) == Some(c)
  {
    var q, z := Rest(c), c % 64;
    var p, y := q / 64, q % 64;
    var h, x := p / 64, p % 64;
    if c < 0x80 {
    } else if c < 0x800 {
      Decodes2(q, z, rest);
    } else if c < 0x1_0000 {
      Decodes3(p, y, z, rest);
    } else {
      Decodes4(h, x, y, z, rest);
    }
  }

  lemma Decodes2(h: nat, x: nat, rest: seq<byte>)
    requires 2 <= h < 32 && x < 64
    ensures DecodeOne([0xC0 + h, 0x80 + x] + rest) == Some(h * 64 + x)
  {
  }

  lemma Decodes3(h: nat, x: nat, y: nat, rest: seq<byte>)
    requires h < 16 && x < 64 && y < 64 && (h == 0 ==> x >= 32) && (h == 13 ==> x < 32)
    ensures DecodeOne([0xE0 + h, 0x80 + x, 0x80 + y] + rest) == Some((h * 64 + x) * 64 + y)
  {
  }

  lemma Decodes4(h: nat, x: nat, y: nat, z: nat, rest: seq<byte>)
    requires h < 5 && x < 64 && y < 64 && z < 64 && (h == 0 ==> x >= 16) && (h == 4 ==> x < 16)
    ensures DecodeOne([0xF0 + h, 0x80 + x, 0x80 + y, 0x80 + z] + rest) == Some(((h * 64 + x) * 64 + y) * 64 + z)
  {
  }

  lemma FrontEncodes(b: seq<byte>)
    requires DecodeOne(b).Some?
    ensures CodeBytes(DecodeOne(b).value) <= b
  {
    hide CodeBytes;
    if b[0] < 0x80 {
      FrontAscii(b[0]);
    } else if b[0] <= 0xDF {
      CodeBytes2(b[0] - 0xC0, b[1] - 0x80);
    } else if b[0] <= 0xEF {
      CodeBytes3(b[0] - 0xE0, b[1] - 0x80, b[2] - 0x80);
    } else {
      CodeBytes4(b[0] - 0xF0, b[1] - 0x80, b[2] - 0x80, b[3] - 0x80);
    }
  }

  lemma FrontAscii(c: nat)
    requires c < 0x80
    ensures CodeBytes(c) == [c]
  {
  }

  function Decoded(b: seq<byte>): Option<seq<scalar>> {
    if b == [] then Some([])
    else
      var c := DecodeOne(b);
      if c.None? || |CodeBytes(c.value)| > |b| then None
      else
        var rest := Decoded(b[|CodeBytes(c.value)|..]);
        if rest.None? then None else Some([c.value] + rest.value)
  }

  lemma {:induction false} DecodedEncoded(cs: seq<scalar>)
    ensures Decoded(Encoded(cs)) == Some(cs)
  {
    if cs != [] {
      var front, rest := CodeBytes(cs[0]), Encoded(cs[1..]);
      DecodedEncoded(cs[1..]);
      DecodesFront(cs[0], rest);
      assert (front + rest)[|front|..] == rest;
      assert cs == [cs[0]] + cs[1..];
    }
  }

  lemma {:induction false} EncodedDecoded(b: seq<byte>)
    requires Decoded(b).Some?
    ensures Encoded(Decoded(b).value) == b
  {
    if b != [] {
      hide CodeBytes, DecodeOne;
      var c := DecodeOne(b).value;
      FrontEncodes(b);
      EncodedDecoded(b[|CodeBytes(c)|..]);
      assert b == CodeBytes(c) + b[|CodeBytes(c)|..];
    }
  }

  /** The bytes of a string. */
  function TextBytes(s: text): seq<byte> { Encoded(Scalars(s)) }

  /** Two well-formed strings have the same bytes only if they are the same string. */
  lemma TextBytesInjective(a: text, b: text)
    requires WellFormed(a) && WellFormed(b)
    ensures TextBytes(a) == TextBytes(b) <==> a == b
  {
    DecodedEncoded(Scalars(a));
    DecodedEncoded(Scalars(b));
    ScalarsLossless(a);
    ScalarsLossless(b);
  }

  // ---------------------------------------------------------------- the encoder's loop

  lemma {:induction false} OrNothing(n: nat, a: nat)
    requires a < Sha256.Pow2(n)
    ensures Sha256.OrBits(n, a, 0) == a
  {
    if n > 0 { OrNothing(n - 1, a / 2); }
  }

  lemma Doubled(a: nat, p: nat)
    ensures a * (2 * p) == 2 * (a * p)
  {
  }

  lemma OrDoubled(n: nat, x: nat, y: nat)
    requires n > 0
    ensures Sha256.OrBits(n, 2 * x, y) == 2 * Sha256.OrBits(n - 1, x, y / 2) + y % 2
  {
    OrStep(n, 2 * x, y);
    hide Sha256.OrBits;
    assert 2 * x / 2 == x && 2 * x % 2 == 0;
  }

  lemma OrStep(n: nat, x: nat, y: nat)
    requires n > 0
    ensures Sha256.OrBits(n, x, y)
      == 2 * Sha256.OrBits(n - 1, x / 2, y / 2) + (if x % 2 == 1 || y % 2 == 1 then 1 else 0)
  {
  }

  /** Or of a multiple of 2^k and something smaller adds them. */
  lemma {:induction false} OrAdds(n: nat, k: nat, a: nat, y: nat)
    requires k <= n && a < Sha256.Pow2(n - k) && y < Sha256.Pow2(k)
    ensures Sha256.OrBits(n, a * Sha256.Pow2(k), y) == a * Sha256.Pow2(k) + y
    decreases k
  {
    if k == 0 {
      OrNothing(n, a);
    } else {
      var p := Sha256.Pow2(k - 1);
      assert Sha256.Pow2(k) == 2 * p;
      OrAdds(n - 1, k - 1, a, y / 2);
      Doubled(a, p);
      OrDoubled(n, a * p, y);
      hide Sha256.OrBits, Sha256.Pow2;
    }
  }

  lemma Monotone(d: int, x: int, y: int)
    requires d > 0
    ensures x <= y ==> d * x <= d * y
  {
  }

  lemma DivisionIs(n: int, d: int, q: int)
    requires d > 0 && d * q <= n < d * q + d
    ensures n / d == q
  {
    Monotone(d, q + 1, n / d);
    Monotone(d, n / d + 1, q);
  }

  lemma ModHalf(x: nat, p: nat)
    requires p > 0
    ensures x % (2 * p) == 2 * (x / 2 % p) + x % 2
  {
    var q := x / 2 / p;
    var r := x / 2 % p;
    assert x / 2 == p * q + r;
    assert 2 * p * q == 2 * (p * q);
    DivisionIs(x, 2 * p, q);
  }

  lemma HalfMask(m: nat)
    requires m > 0
    ensures (2 * m - 1) / 2 == m - 1 && (2 * m - 1) % 2 == 1
  {
  }

  /** A mask of `k` ones keeps the low `k` bits. */
  lemma {:induction false} AndKeeps(n: nat, k: nat, x: nat)
    requires k <= n
    ensures Sha256.Pow2(k) >= 1 && Sha256.AndBits(n, x, Sha256.Pow2(k) - 1) == x % Sha256.Pow2(k)
  {
    if n > 0 && k > 0 {
      var m := Sha256.Pow2(k - 1);
      AndKeeps(n - 1, k - 1, x / 2);
      ModHalf(x, m);
      HalfMask(m);
      assert Sha256.AndBits(n, x, 2 * m - 1) == 2 * Sha256.AndBits(n - 1, x / 2, m - 1) + x % 2;
    } else if n > 0 {
      AndKeeps(n - 1, 0, x / 2);
    }
  }

  lemma Powers()
    ensures Sha256.Pow2(3) == 8 && Sha256.Pow2(4) == 16 && Sha256.Pow2(5) == 32 && Sha256.Pow2(6) == 64
    ensures Sha256.Pow2(26) > 255 && Sha256.Pow2(27) > 255 && Sha256.Pow2(28) > 255 && Sha256.Pow2(29) > 255
  {
    assert Sha256.Pow2(8) == 0x100 && Sha256.Pow2(16) == 0x1_0000 && Sha256.Pow2(24) == 0x100_0000;
    assert Sha256.Pow2(26) == 0x400_0000 && Sha256.Pow2(28) == 0x1000_0000;
  }

  lemma RoomAbove(k: nat)
    requires 3 <= k <= 6
    ensures Sha256.Pow2(32 - k) > 255
  {
    Powers();
    hide Sha256.Pow2;
  }

  lemma OrMark(mark: byte, k: nat, a: byte, y: nat)
    requires 3 <= k <= 6 && mark == a * Sha256.Pow2(k) && y < Sha256.Pow2(k) && mark + y < 256
    ensures Sha256.JsOr(mark, y) == mark + y
  {
    RoomAbove(k);
    assert Sha256.Or(mark, y) == mark + y by {
      OrAdds(32, k, a, y);
      hide Sha256.OrBits, Sha256.Pow2;
    }
    hide Sha256.Or, Sha256.Pow2;
    Sha256.UintInt(mark);
    Sha256.UintInt(y);
  }

  /** `x & 0x3f` is the low six bits. */
  lemma AndLowSix(x: word)
    ensures Sha256.JsAnd(x, 63) == x % 64
  {
    Powers();
    assert Sha256.And(x, 63) == x % 64 by {
      AndKeeps(32, 6, x);
      hide Sha256.AndBits, Sha256.Pow2;
    }
    hide Sha256.And, Sha256.Pow2;
    Sha256.UintInt(x);
  }

  /** Six shifts to the right divide by 64. */
  lemma ShrSix(x: word, n: nat)
    ensures Sha256.Shr(x, n + 6) == Sha256.Shr(x / 64, n) && Sha256.Shr(x, 0) == x
  {
    assert Sha256.Shr(x, n + 6) == Sha256.Shr(x / 2, n + 5) == Sha256.Shr(x / 4, n + 4);
    assert Sha256.Shr(x / 4, n + 4) == Sha256.Shr(x / 8, n + 3) == Sha256.Shr(x / 16, n + 2);
    assert Sha256.Shr(x / 16, n + 2) == Sha256.Shr(x / 32, n + 1) == Sha256.Shr(x / 64, n);
  }

  lemma ShiftsDivide(c: codepoint)
    ensures Sha256.JsShr(c, 6) == Rest(c)
    ensures Sha256.JsShr(c, 12) == Rest(Rest(c))
    ensures Sha256.JsShr(c, 18) == Rest(Rest(Rest(c)))
  {
    hide Sha256.Shr;
    ShrSix(Rest(Rest(Rest(c))), 0);
    ShrSix(c, 0); ShrSix(Rest(c), 0); ShrSix(Rest(Rest(c)), 0);
    ShrSix(c, 6); ShrSix(Rest(c), 6);
    ShrSix(c, 12);
    Sha256.UintInt(c);
  }

  function JsTail(c: codepoint): int { Sha256.JsOr(0x80, Sha256.JsAnd(c, 0x3f)) }

  lemma JsTailIs(c: codepoint)
    ensures JsTail(c) == Tail(c)
  {
    AndLowSix(c);
    Powers();
    OrMark(0x80, 6, 2, c % 64);
    hide Sha256.JsOr, Sha256.JsAnd;
  }

  lemma Marks(c: codepoint)
    ensures c < 0x800 ==> Sha256.JsOr(0xc0, Rest(c)) == 0xc0 + Rest(c)
    ensures c < 0x1_0000 ==> Sha256.JsOr(0xe0, Rest(Rest(c))) == 0xe0 + Rest(Rest(c))
    ensures Sha256.JsOr(0xf0, Rest(Rest(Rest(c)))) == 0xf0 + Rest(Rest(Rest(c)))
  {
    hide Sha256.JsOr;
    Powers();
    if c < 0x800 { OrMark(0xc0, 5, 6, Rest(c)); }
    if c < 0x1_0000 { OrMark(0xe0, 4, 14, Rest(Rest(c))); }
    OrMark(0xf0, 3, 30, Rest(Rest(Rest(c))));
  }

  lemma HeadsAre(c: codepoint)
    ensures c < 0x800 ==> Sha256.JsOr(0xc0, Sha256.JsShr(c, 6)) == 0xc0 + Rest(c)
    ensures c < 0x1_0000 ==> Sha256.JsOr(0xe0, Sha256.JsShr(c, 12)) == 0xe0 + Rest(Rest(c))
    ensures Sha256.JsOr(0xf0, Sha256.JsShr(c, 18)) == 0xf0 + Rest(Rest(Rest(c)))
  {
    hide Sha256.JsShr, Sha256.JsOr;
    ShiftsDivide(c);
    Marks(c);
  }

  lemma TwoBytes(c: codepoint)
    requires 0x80 <= c < 0x800
    ensures CodeBytes(c) == [0xC0 + Rest(c), Tail(c)]
  {
    hide Tail, Rest;
  }

  lemma ThreeBytes(c: codepoint)
    requires 0x800 <= c < 0x1_0000
    ensures CodeBytes(c) == [0xE0 + Rest(Rest(c)), Tail(Rest(c)), Tail(c)]
  {
    hide Tail, Rest;
  }

  lemma FourBytes(c: codepoint)
    requires c >= 0x1_0000
    ensures CodeBytes(c) == [0xF0 + Rest(Rest(Rest(c))), Tail(Rest(Rest(c))), Tail(Rest(c)), Tail(c)]
  {
    hide Tail, Rest;
  }

  method PushTwo(bytes: seq<byte>, c: codepoint) returns (r: seq<byte>)
    requires 0x80 <= c < 0x800
    ensures r == bytes + CodeBytes(c)
  {
    HeadsAre(c);
    ShiftsDivide(c);
    RestBounds(c);
    JsTailIs(c);
    TwoBytes(c);
    hide Sha256.JsShr, Sha256.JsOr, JsTail, Tail, Rest, CodeBytes;
    var head := Sha256.JsOr(0xc0, Sha256.JsShr(c, 6));
    r := bytes + [head, JsTail(c)];
  }

  method PushThree(bytes: seq<byte>, c: codepoint) returns (r: seq<byte>)
    requires 0x800 <= c < 0x1_0000
    ensures r == bytes + CodeBytes(c)
  {
    HeadsAre(c);
    ShiftsDivide(c);
    RestBounds(c);
    JsTailIs(c);
    JsTailIs(Rest(c));
    ThreeBytes(c);
    hide Sha256.JsShr, Sha256.JsOr, JsTail, Tail, Rest, CodeBytes;
    var head, middle := Sha256.JsOr(0xe0, Sha256.JsShr(c, 12)), JsTail(Sha256.JsShr(c, 6));
    r := bytes + [head, middle, JsTail(c)];
  }

  method PushFour(bytes: seq<byte>, c: codepoint) returns (r: seq<byte>)
    requires c >= 0x1_0000
    ensures r == bytes + CodeBytes(c)
  {
    HeadsAre(c);
    ShiftsDivide(c);
    RestBounds(c);
    JsTailIs(c);
    JsTailIs(Rest(c));
    JsTailIs(Rest(Rest(c)));
    FourBytes(c);
    hide Sha256.JsShr, Sha256.JsOr, JsTail, Tail, Rest, CodeBytes;
    var head := Sha256.JsOr(0xf0, Sha256.JsShr(c, 18));
    var upper, middle := JsTail(Sha256.JsShr(c, 12)), JsTail(Sha256.JsShr(c, 6));
    r := bytes + [head, upper, middle, JsTail(c)];
  }

  /** The bytes pushed for one code point, with the source's shifts and masks. */
  method PushBytes(bytes: seq<byte>, c: codepoint) returns (r: seq<byte>)
    ensures r == bytes + CodeBytes(c)
  {
    if c < 0x80 {
      r := bytes + [c];
    } else if c < 0x800 {
      r := PushTwo(bytes, c);
    } else if c < 0x1_0000 {
      r := PushThree(bytes, c);
    } else {
      r := PushFour(bytes, c);
    }
  }

  // ---------------------------------------------------------------- what the encoder computes

  /** The code points the loop reads: a lone surrogate is replaced, except a high one that ends the string. */
  function FirstPoint(s: text): codepoint
    requires s != []
  {
    if PairFirst(s) then PairValue(s[0], s[1])
    else if IsLow(s[0]) || (IsHigh(s[0]) && |s| > 1) then REPLACEMENT
    else s[0]
  }

  function CodePoints(s: text): seq<codepoint> {
    if s == [] then [] else [FirstPoint(s)] + CodePoints(s[Width(s)..])
  }

  function AllBytes(cs: seq<codepoint>): seq<byte> {
    if cs == [] then [] else CodeBytes(cs[0]) + AllBytes(cs[1..])
  }

  lemma ShlStep(x: word, n: nat)
    requires x < Sha256.TWO31
    ensures Sha256.Shl(x, n + 1) == Sha256.Shl(2 * x, n) && Sha256.Shl(x, 0) == x
  {
  }

  lemma PairShift(high: unit, low: unit)
    requires IsHigh(high) && IsLow(low)
    ensures 0x10000 + Sha256.JsShl(high - 0xd800, 10) + (low - 0xdc00) == PairValue(high, low)
  {
    hide Sha256.Shl;
    var h: word := high - 0xd800;
    ShlStep(h, 9); ShlStep(2 * h, 8); ShlStep(4 * h, 7); ShlStep(8 * h, 6); ShlStep(16 * h, 5);
    ShlStep(32 * h, 4); ShlStep(64 * h, 3); ShlStep(128 * h, 2); ShlStep(256 * h, 1); ShlStep(512 * h, 0);
    ShlStep(1024 * h, 0);
    Sha256.UintInt(h);
  }

  /** The loop, as it stands. */
  method Utf8Bytes(value: text) returns (bytes: seq<byte>)
    ensures bytes == AllBytes(CodePoints(value))
  {
    bytes := [];
    assert value[0..] == value;
    var index := 0;
    while index < |value|
      invariant 0 <= index <= |value|
      invariant bytes + AllBytes(CodePoints(value[index..])) == AllBytes(CodePoints(value))
    {
      ghost var rest, before := value[index..], bytes;
      var codePoint: int := value[index];
      if 0xd800 <= codePoint <= 0xdbff && index + 1 < |value| {
        var next := value[index + 1];
        if 0xdc00 <= next <= 0xdfff {
          PairShift(codePoint, next);
          codePoint := 0x10000 + Sha256.JsShl(codePoint - 0xd800, 10) + (next - 0xdc00);
          index := index + 1;
        } else {
          codePoint := 0xfffd;
        }
      } else if 0xdc00 <= codePoint <= 0xdfff {
        codePoint := 0xfffd;
      }
      bytes := PushBytes(bytes, codePoint);
      index := index + 1;
      assert rest[Width(rest)..] == value[index..];
      assert CodePoints(rest) == [codePoint] + CodePoints(value[index..]);
      Pushed(before, codePoint, CodePoints(value[index..]));
    }
  }

  lemma Pushed(before: seq<byte>, c: codepoint, rest: seq<codepoint>)
    ensures before + AllBytes([c] + rest) == before + CodeBytes(c) + AllBytes(rest)
  {
    assert ([c] + rest)[1..] == rest;
  }

  lemma {:induction false} SameBytes(s: text)
    requires !EndsHigh(s)
    ensures CodePoints(s) == Scalars(s)
  {
    if s != [] {
      var k := Width(s);
      assert s[k..] != [] ==> s[k..][|s| - k - 1] == s[|s| - 1];
      SameBytes(s[k..]);
    }
  }

  lemma {:induction false} LastHigh(t: text, h: unit)
    requires IsHigh(h)
    ensures CodePoints(t + [h]) == Scalars(t) + [h]
    ensures Scalars(t + [h]) == Scalars(t) + [REPLACEMENT]
  {
    var s := t + [h];
    if t != [] {
      var k := Width(t);
      assert s[0] == t[0] && Width(s) == k;
      assert s[k..] == t[k..] + [h];
      LastHigh(t[k..], h);
    }
  }

  lemma {:induction false} EncodedIsAll(cs: seq<scalar>)
    ensures AllBytes(cs) == Encoded(cs)
  {
    if cs != [] { EncodedIsAll(cs[1..]); }
  }

  lemma {:induction false} AllBytesLast(cs: seq<codepoint>, c: codepoint)
    ensures AllBytes(cs + [c]) == AllBytes(cs) + CodeBytes(c)
  {
    if cs != [] {
      assert (cs + [c])[1..] == cs[1..] + [c];
      AllBytesLast(cs[1..], c);
    }
  }

  /** The encoder writes the UTF-8 of the string, with lone surrogates replaced, exactly when the string does
      not end in a high surrogate: the loop looks at one only when a unit follows it, so the last one is
      written as three bytes that are no UTF-8. */
  lemma EncodesUtf8Exactly(s: text)
    ensures AllBytes(CodePoints(s)) == TextBytes(s) <==> !EndsHigh(s)
  {
    if EndsHigh(s) {
      var t, h := s[..|s| - 1], s[|s| - 1];
      assert s == t + [h];
      LastHigh(t, h);
      AllBytesLast(Scalars(t), h);
      AllBytesLast(Scalars(t), REPLACEMENT);
      EncodedIsAll(Scalars(s));
      LastDiffers(AllBytes(Scalars(t)), h);
    } else {
      SameBytes(s);
      EncodedIsAll(Scalars(s));
    }
  }

  /** A lone high surrogate: three bytes that encode it, where UTF-8 has the replacement character. */
  lemma LoneHighParts()
    ensures AllBytes(CodePoints([0xD800])) == [0xED, 0xA0, 0x80]
    ensures TextBytes([0xD800]) == [0xEF, 0xBF, 0xBD]
  {
  }

  lemma LastDiffers(front: seq<byte>, h: unit)
    requires IsHigh(h)
    ensures front + CodeBytes(h) != front + CodeBytes(REPLACEMENT)
  {
    assert (front + CodeBytes(h))[|front|] == CodeBytes(h)[0] == 0xED;
    assert (front + CodeBytes(REPLACEMENT))[|front|] == CodeBytes(REPLACEMENT)[0] == 0xEF;
  }
}
