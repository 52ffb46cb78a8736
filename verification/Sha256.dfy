/** SHA-256 as the definition module computes it, with JavaScript's numbers: bit operators take and give
    signed 32-bit integers, sums are exact only below 2^53, and `>>> 0` reduces modulo 2^32. The standard
    followed is FIPS 180-4; its functions and recursions are the specification. */
module Sha256 {
  import opened Octets
  import opened Wrappers

  const TWO31 := 0x8000_0000
  const TWO32 := 0x1_0000_0000
  const TWO53 := 0x20_0000_0000_0000

  // ---------------------------------------------------------------- words (FIPS 180-4, sections 2.2.2 and 3.2)

  function Pow2(n: nat): nat { if n == 0 then 1 else 2 * Pow2(n - 1) }

  function XorBits(n: nat, x: nat, y: nat): (r: nat)
    ensures r < Pow2(n)
  {
    if n == 0 then 0 else 2 * XorBits(n - 1, x / 2, y / 2) + (if x % 2 == y % 2 then 0 else 1)
  }

  function AndBits(n: nat, x: nat, y: nat): (r: nat)
    ensures r < Pow2(n)
  {
    if n == 0 then 0 else 2 * AndBits(n - 1, x / 2, y / 2) + (if x % 2 == 1 && y % 2 == 1 then 1 else 0)
  }

  function OrBits(n: nat, x: nat, y: nat): (r: nat)
    ensures r < Pow2(n)
  {
    if n == 0 then 0 else 2 * OrBits(n - 1, x / 2, y / 2) + (if x % 2 == 1 || y % 2 == 1 then 1 else 0)
  }

  lemma WordSize()
    ensures Pow2(32) == TWO32
  {
    assert Pow2(8) == 0x100 && Pow2(16) == 0x1_0000 && Pow2(24) == 0x100_0000;
  }

  function Xor(x: word, y: word): word { WordSize(); XorBits(32, x, y) }
  function And(x: word, y: word): word { WordSize(); AndBits(32, x, y) }
  function Or(x: word, y: word): word { WordSize(); OrBits(32, x, y) }
  function Not(x: word): word { TWO32 - 1 - x }
  function Shl(x: word, n: nat): word decreases n { if n == 0 then x else Shl(2 * x % TWO32, n - 1) }
  function Shr(x: word, n: nat): word decreases n { if n == 0 then x else Shr(x / 2, n - 1) }

  /** Bit `i` of a number, the lowest at 0. */
  function Bit(x: nat, i: nat): bool { if i == 0 then x % 2 == 1 else Bit(x / 2, i - 1) }

  /** The logical operators work bit by bit. */
  lemma {:induction false} BitsExactly(n: nat, x: nat, y: nat, i: nat)
    requires i < n
    ensures Bit(XorBits(n, x, y), i) <==> Bit(x, i) != Bit(y, i)
    ensures Bit(AndBits(n, x, y), i) <==> Bit(x, i) && Bit(y, i)
    ensures Bit(OrBits(n, x, y), i) <==> Bit(x, i) || Bit(y, i)
  {
    if i > 0 { BitsExactly(n - 1, x / 2, y / 2, i - 1); }
  }

  lemma WordBits(x: word, y: word, i: nat)
    requires i < 32
    ensures Bit(Xor(x, y), i) <==> Bit(x, i) != Bit(y, i)
    ensures Bit(And(x, y), i) <==> Bit(x, i) && Bit(y, i)
    ensures Bit(Or(x, y), i) <==> Bit(x, i) || Bit(y, i)
    ensures Bit(Not(x), i) <==> !Bit(x, i)
  {
    BitsExactly(32, x, y, i);
    WordSize();
    NotBits(32, x, i);
  }

  lemma {:induction false} NotBits(n: nat, x: nat, i: nat)
    requires i < n && x < Pow2(n)
    ensures Bit(Pow2(n) - 1 - x, i) <==> !Bit(x, i)
  {
    if i > 0 {
      assert (Pow2(n) - 1 - x) / 2 == Pow2(n - 1) - 1 - x / 2;
      NotBits(n - 1, x / 2, i - 1);
    }
  }

  /** Shifting moves bits: to the left, past the end, they are lost; to the right they are gone below 0. */
  lemma {:induction false} ShiftBits(x: word, n: nat, i: nat)
    requires i < 32
    ensures Bit(Shl(x, n), i) <==> i >= n && Bit(x, i - n)
    ensures Bit(Shr(x, n), i) <==> i + n < 32 && Bit(x, i + n)
    decreases n
  {
    if n > 0 {
      ShiftBits(2 * x % TWO32, n - 1, i);
      ShiftBits(x / 2, n - 1, i);
      if i >= n - 1 { LeftBit(x, i - (n - 1)); }
      if i + n - 1 < 32 { RightBit(x, i + n - 1); }
    } else {
      assert i < 32;
    }
  }

  lemma LeftBit(x: word, i: nat)
    requires i < 32
    ensures Bit(2 * x % TWO32, i) <==> i >= 1 && Bit(x, i - 1)
  {
    HalfWord();
    if i > 0 && x >= TWO31 { WithoutTop(31, x, i - 1); }
    assert 2 * x % TWO32 == if x < TWO31 then 2 * x else 2 * (x - TWO31);
  }

  lemma HalfWord()
    ensures Pow2(31) == TWO31
  {
    WordSize();
  }

  lemma {:induction false} WithoutTop(n: nat, x: nat, i: nat)
    requires i < n && x >= Pow2(n)
    ensures Bit(x - Pow2(n), i) <==> Bit(x, i)
  {
    if i > 0 { WithoutTop(n - 1, x / 2, i - 1); }
  }

  lemma RightBit(x: word, i: nat)
    requires i < 32
    ensures Bit(x / 2, i) <==> i < 31 && Bit(x, i + 1)
  {
    HalfWord();
    if i == 31 { TopBit(31, x / 2, 31); }
  }

  lemma {:induction false} TopBit(n: nat, x: nat, i: nat)
    requires x < Pow2(n) && i >= n
    ensures !Bit(x, i)
  {
    if n > 0 { TopBit(n - 1, x / 2, i - 1); } else if i > 0 { TopBit(0, 0, i - 1); }
  }

  /** Addition modulo 2^32. */
  function Plus(x: word, y: word): word { if x + y < TWO32 then x + y else x + y - TWO32 }

  function Rotr(n: nat, x: word): word requires 0 < n < 32 { Or(Shr(x, n), Shl(x, 32 - n)) }

  // ---------------------------------------------------------------- the functions of section 4.1.2

  function Ch(x: word, y: word, z: word): word { Xor(And(x, y), And(Not(x), z)) }
  function Maj(x: word, y: word, z: word): word { Xor(Xor(And(x, y), And(x, z)), And(y, z)) }
  function BigSigma0(x: word): word { Xor(Xor(Rotr(2, x), Rotr(13, x)), Rotr(22, x)) }
  function BigSigma1(x: word): word { Xor(Xor(Rotr(6, x), Rotr(11, x)), Rotr(25, x)) }
  function SmallSigma0(x: word): word { Xor(Xor(Rotr(7, x), Rotr(18, x)), Shr(x, 3)) }
  function SmallSigma1(x: word): word { Xor(Xor(Rotr(17, x), Rotr(19, x)), Shr(x, 10)) }

  // ---------------------------------------------------------------- constants (sections 4.2.2 and 5.3.3)

  const K: seq<seq<word>> := [
    [0x428a2f98, 0x71374491, 0xb5c0fbcf, 0xe9b5dba5, 0x3956c25b, 0x59f111f1, 0x923f82a4, 0xab1c5ed5],
    [0xd807aa98, 0x12835b01, 0x243185be, 0x550c7dc3, 0x72be5d74, 0x80deb1fe, 0x9bdc06a7, 0xc19bf174],
    [0xe49b69c1, 0xefbe4786, 0x0fc19dc6, 0x240ca1cc, 0x2de92c6f, 0x4a7484aa, 0x5cb0a9dc, 0x76f988da],
    [0x983e5152, 0xa831c66d, 0xb00327c8, 0xbf597fc7, 0xc6e00bf3, 0xd5a79147, 0x06ca6351, 0x14292967],
    [0x27b70a85, 0x2e1b2138, 0x4d2c6dfc, 0x53380d13, 0x650a7354, 0x766a0abb, 0x81c2c92e, 0x92722c85],
    [0xa2bfe8a1, 0xa81a664b, 0xc24b8b70, 0xc76c51a3, 0xd192e819, 0xd6990624, 0xf40e3585, 0x106aa070],
    [0x19a4c116, 0x1e376c08, 0x2748774c, 0x34b0bcb5, 0x391c0cb3, 0x4ed8aa4a, 0x5b9cca4f, 0x682e6ff3],
    [0x748f82ee, 0x78a5636f, 0x84c87814, 0x8cc70208, 0x90befffa, 0xa4506ceb, 0xbef9a3f7, 0xc67178f2]]

  function RoundConstant(t: nat): word requires t < 64 { K[t / 8][t % 8] }

  datatype Registers = Registers(a: word, b: word, c: word, d: word, e: word, f: word, g: word, h: word)

  const H0 := Registers(0x6a09e667, 0xbb67ae85, 0x3c6ef372, 0xa54ff53a, 0x510e527f, 0x9b05688c, 0x1f83d9ab, 0x5be0cd19)

  const PRIMES: seq<seq<int>> := [
    [2, 3, 5, 7, 11, 13, 17, 19],
    [23, 29, 31, 37, 41, 43, 47, 53],
    [59, 61, 67, 71, 73, 79, 83, 89],
    [97, 101, 103, 107, 109, 113, 127, 131],
    [137, 139, 149, 151, 157, 163, 167, 173],
    [179, 181, 191, 193, 197, 199, 211, 223],
    [227, 229, 233, 239, 241, 251, 257, 263],
    [269, 271, 277, 281, 283, 293, 307, 311]]

  /** `k` is the first 32 bits of the fractional part of the cube root of `p`, whose integer part is `root`. */
  predicate CubeRootBits(p: int, root: int, k: word) {
    var c := root * TWO32 + k;
    c * c * c <= p * TWO32 * TWO32 * TWO32 < (c + 1) * (c + 1) * (c + 1)
  }

  predicate SquareRootBits(p: int, root: int, k: word) {
    var c := root * TWO32 + k;
    c * c <= p * TWO32 * TWO32 < (c + 1) * (c + 1)
  }

  function CubeRoot(p: int): int {
    if p < 8 then 1 else if p < 27 then 2 else if p < 64 then 3 else if p < 125 then 4
    else if p < 216 then 5 else 6
  }

  predicate RowOk(primes: seq<int>, row: seq<word>) {
    && |primes| == 8 == |row|
    && CubeRootBits(primes[0], CubeRoot(primes[0]), row[0]) && CubeRootBits(primes[1], CubeRoot(primes[1]), row[1])
    && CubeRootBits(primes[2], CubeRoot(primes[2]), row[2]) && CubeRootBits(primes[3], CubeRoot(primes[3]), row[3])
    && CubeRootBits(primes[4], CubeRoot(primes[4]), row[4]) && CubeRootBits(primes[5], CubeRoot(primes[5]), row[5])
    && CubeRootBits(primes[6], CubeRoot(primes[6]), row[6]) && CubeRootBits(primes[7], CubeRoot(primes[7]), row[7])
  }

  /** The round constants are the standard's. */
  lemma ConstantsAreCubeRoots(i: nat)
    requires i < 8
    ensures |K| == 8 == |PRIMES| && RowOk(PRIMES[i], K[i])
  {
    match i
    case 0 => ConstantsRow0();
    case 1 => ConstantsRow1();
    case 2 => ConstantsRow2();
    case 3 => ConstantsRow3();
    case 4 => ConstantsRow4();
    case 5 => ConstantsRow5();
    case 6 => ConstantsRow6();
    case 7 => ConstantsRow7();
  }

  /** In the order the rounds take them: the 64 primes upwards. */
  lemma RoundConstantIs(t: nat)
    requires t < 64
    ensures
      var i, j := t / 8, t % 8;
      CubeRootBits(PRIMES[i][j], CubeRoot(PRIMES[i][j]), RoundConstant(t))
  {
    ConstantsAreCubeRoots(t / 8);
    hide CubeRootBits, CubeRoot;
  }

  lemma ConstantsRow0()
    ensures RowOk(PRIMES[0], K[0])
  {
  }

  lemma ConstantsRow1()
    ensures RowOk(PRIMES[1], K[1])
  {
  }

  lemma ConstantsRow2()
    ensures RowOk(PRIMES[2], K[2])
  {
  }

  lemma ConstantsRow3()
    ensures RowOk(PRIMES[3], K[3])
  {
  }

  lemma ConstantsRow4()
    ensures RowOk(PRIMES[4], K[4])
  {
  }

  lemma ConstantsRow5()
    ensures RowOk(PRIMES[5], K[5])
  {
  }

  lemma ConstantsRow6()
    ensures RowOk(PRIMES[6], K[6])
  {
  }

  lemma ConstantsRow7()
    ensures RowOk(PRIMES[7], K[7])
  {
  }

  /** So are the initial hash values. */
  lemma InitialValuesAreSquareRoots()
    ensures SquareRootBits(2, 1, H0.a) && SquareRootBits(3, 1, H0.b) && SquareRootBits(5, 2, H0.c)
    ensures SquareRootBits(7, 2, H0.d) && SquareRootBits(11, 3, H0.e) && SquareRootBits(13, 3, H0.f)
    ensures SquareRootBits(17, 4, H0.g) && SquareRootBits(19, 4, H0.h)
  {
  }

  // ---------------------------------------------------------------- the hash (sections 5.1.1, 5.2.1 and 6.2.2)

  /** `k` bytes holding `n`, most significant first. */
  function BigEndian(k: nat, n: nat): (r: seq<byte>)
    ensures |r| == k
  {
    if k == 0 then [] else BigEndian(k - 1, n / 256) + [n % 256]
  }

  /** The number of zero bytes: the least `k` with length + 1 + k congruent to 56 modulo 64. */
  function ZeroBytes(length: nat): nat { (55 - length) % 64 }

  function Zeros(n: nat): seq<byte> { seq(n, _ => 0) }

  function Padded(m: seq<byte>): seq<byte> { m + [0x80] + Zeros(ZeroBytes(|m|)) + BigEndian(8, 8 * |m|) }

  function Schedule(p: seq<byte>, offset: nat, t: nat): word
    requires offset + 64 <= |p|
  {
    if t < 16 then GetUint32(p, offset + 4 * t)
    else Plus(Plus(Plus(SmallSigma1(Schedule(p, offset, t - 2)), Schedule(p, offset, t - 7)),
                   SmallSigma0(Schedule(p, offset, t - 15))),
              Schedule(p, offset, t - 16))
  }

  function Round(r: Registers, k: word, w: word): Registers {
    var t1 := Plus(Plus(Plus(Plus(r.h, BigSigma1(r.e)), Ch(r.e, r.f, r.g)), k), w);
    var t2 := Plus(BigSigma0(r.a), Maj(r.a, r.b, r.c));
    Registers(Plus(t1, t2), r.a, r.b, r.c, Plus(r.d, t1), r.e, r.f, r.g)
  }

  function Rounds(r: Registers, p: seq<byte>, offset: nat, t: nat): Registers
    requires offset + 64 <= |p| && t <= 64
  {
    if t == 0 then r else Round(Rounds(r, p, offset, t - 1), RoundConstant(t - 1), Schedule(p, offset, t - 1))
  }

  function AddAll(x: Registers, y: Registers): Registers {
    Registers(Plus(x.a, y.a), Plus(x.b, y.b), Plus(x.c, y.c), Plus(x.d, y.d),
              Plus(x.e, y.e), Plus(x.f, y.f), Plus(x.g, y.g), Plus(x.h, y.h))
  }

  /** The hash value after `n` blocks. */
  function Hash(p: seq<byte>, n: nat): Registers
    requires 64 * n <= |p|
  {
    if n == 0 then H0 else AddAll(Hash(p, n - 1), Rounds(Hash(p, n - 1), p, 64 * (n - 1), 64))
  }

  function Digits(n: nat, x: nat): string {
    if n == 0 then "" else Digits(n - 1, x / 16) + [HexDigit(x % 16)]
  }

  function HexDigit(d: nat): char requires d < 16 { "0123456789abcdef"[d] }

  /** The digits are those of ASCII, the letters small. */
  lemma DigitIs(d: nat)
    requires d < 16
    ensures HexDigit(d) as int == if d < 10 then 0x30 + d else 0x61 + (d - 10)
  {
  }

  function HexOf(r: Registers): string {
    Digits(8, r.a) + Digits(8, r.b) + Digits(8, r.c) + Digits(8, r.d)
    + Digits(8, r.e) + Digits(8, r.f) + Digits(8, r.g) + Digits(8, r.h)
  }

  lemma ZeroBytesAre(n: nat)
    ensures ZeroBytes(n) == 64 * ((n + 8) / 64) + 55 - n
  {
    var q := (n + 8) / 64;
    assert 64 * q <= n + 8 < 64 * q + 64;
  }

  /** The standard's padded length is the least multiple of 64 with room for the mark and the bit count. */
  lemma PaddedIsLeast(m: seq<byte>)
    ensures |Padded(m)| == ((|m| + 8) / 64 + 1) * 64
  {
    ZeroBytesAre(|m|);
  }

  lemma PaddedBlocks(m: seq<byte>)
    ensures |Padded(m)| % 64 == 0 && |m| + 9 <= |Padded(m)| < |m| + 9 + 64
  {
    hide Padded;
    PaddedIsLeast(m);
  }

  function Digest(m: seq<byte>): string {
    PaddedBlocks(m);
    HexOf(Hash(Padded(m), |Padded(m)| / 64))
  }

  // ---------------------------------------------------------------- JavaScript's numbers

  /** A sum of integers this size is exact in a double. */
  predicate Exact(x: int) { -TWO53 <= x <= TWO53 }

  /** `x >>> 0`. */
  function Uint32(x: int): word requires Exact(x) { x % TWO32 }

  function Int32(x: word): int { if x >= TWO31 then x - TWO32 else x }

  /** A value a bit operator may be given: signed or unsigned 32 bits. */
  type jsint = x: int | -0x8000_0000 <= x < 0x1_0000_0000

  function JsXor(x: jsint, y: jsint): jsint { Int32(Xor(Uint32(x), Uint32(y))) }
  function JsAnd(x: jsint, y: jsint): jsint { Int32(And(Uint32(x), Uint32(y))) }
  function JsOr(x: jsint, y: jsint): jsint { Int32(Or(Uint32(x), Uint32(y))) }
  function JsNot(x: jsint): jsint { Int32(Not(Uint32(x))) }
  function JsShl(x: jsint, n: nat): jsint requires n < 32 { Int32(Shl(Uint32(x), n)) }
  function JsShr(x: jsint, n: nat): jsint requires n < 32 { Shr(Uint32(x), n) }

  function RotateRight(value: jsint, bits: nat): jsint requires 0 < bits < 32 {
    JsOr(JsShr(value, bits), JsShl(value, 32 - bits))
  }

  lemma UintInt(w: word)
    ensures Uint32(Int32(w)) == w && Uint32(w) == w
  {
  }

  lemma RotateRightIsRotr(v: jsint, n: nat)
    requires 0 < n < 32
    ensures Uint32(RotateRight(v, n)) == Rotr(n, Uint32(v))
  {
    var left, right := Shl(Uint32(v), 32 - n), Shr(Uint32(v), n);
    UintInt(left);
    UintInt(right);
    UintInt(Or(right, left));
  }

  lemma UintPlus(x: int, y: int)
    requires Exact(x) && Exact(y) && Exact(x + y)
    ensures Uint32(x + y) == Plus(Uint32(x), Uint32(y))
  {
  }

  /** `paddedLength` of the source, whose shifts are on signed 32-bit integers. */
  function PaddedLength(length: nat): int requires length < TWO53 - 8 {
    var blocks := Int32(Uint32(length + 8)) / 64 + 1;
    Int32(blocks * 64 % TWO32)
  }

  /** It is the padded length of the standard exactly for messages shorter than 2^31 - 72 bytes; any longer
      one makes it negative or too short for the message, and the typed array refuses. */
  lemma PaddedLengthExactly(m: seq<byte>)
    requires |m| < TWO53 - 8
    ensures PaddedLength(|m|) == |Padded(m)| <==> |m| < TWO31 - 72
    ensures |m| >= TWO31 - 72 ==> PaddedLength(|m|) < |m|
  {
    PaddedIsLeast(m);
    ShiftedLength(|m|);
  }

  /** At the bound the length wraps: the source asks for an array of -2147483648 bytes. */
  lemma PaddedLengthWraps()
    ensures PaddedLength(TWO31 - 72) == -TWO31
  {
    assert Int32(Uint32(TWO31 - 64)) / 64 + 1 == TWO31 / 64;
  }

  lemma ShiftedLength(n: nat)
    requires n < TWO53 - 8
    ensures n < TWO31 - 72 ==> PaddedLength(n) == ((n + 8) / 64 + 1) * 64
    ensures n >= TWO31 - 72 ==> PaddedLength(n) < n && PaddedLength(n) < ((n + 8) / 64 + 1) * 64
  {
    var blocks := Int32(Uint32(n + 8)) / 64 + 1;
    if n < TWO31 - 72 {
      assert blocks * 64 <= n + 8 + 64 < TWO31;
    } else if n + 8 < TWO31 {
      assert blocks == TWO31 / 64;
    } else if n + 8 < TWO32 {
      assert -TWO31 < blocks * 64 <= 0;
    } else {
      assert PaddedLength(n) < TWO31;
    }
  }

  // ---------------------------------------------------------------- the loops

  /** The schedule's sum as the source writes it, over signed and unsigned values, is the standard's. */
  lemma ScheduleSum(w16: word, s0: jsint, w7: word, s1: jsint)
    ensures Uint32(w16 + s0 + w7 + s1) == Plus(Plus(Plus(Uint32(s1), w7), Uint32(s0)), w16)
  {
    hide Plus, Uint32;
    UintInt(w16); UintInt(w7);
    UintPlus(s1, w7);
    UintPlus(s1 + w7, s0);
    UintPlus(s1 + w7 + s0, w16);
  }

  lemma FirstSum(h: word, s1: jsint, choice: jsint, k: word, w: word)
    ensures Uint32(h + s1 + choice + k + w) == Plus(Plus(Plus(Plus(h, Uint32(s1)), Uint32(choice)), k), w)
  {
    hide Plus, Uint32;
    UintInt(h); UintInt(k); UintInt(w);
    UintPlus(h, s1);
    UintPlus(h + s1, choice);
    UintPlus(h + s1 + choice, k);
    UintPlus(h + s1 + choice + k, w);
  }

  lemma SumIsPlus(x: word, y: word)
    ensures Uint32(x + y) == Plus(x, y)
  {
  }

  lemma JsXorIs(x: jsint, y: jsint)
    ensures Uint32(JsXor(x, y)) == Xor(Uint32(x), Uint32(y))
  {
    UintInt(Xor(Uint32(x), Uint32(y)));
  }

  function JsSmallSigma0(w: word): jsint { JsXor(JsXor(RotateRight(w, 7), RotateRight(w, 18)), JsShr(w, 3)) }
  function JsSmallSigma1(w: word): jsint { JsXor(JsXor(RotateRight(w, 17), RotateRight(w, 19)), JsShr(w, 10)) }
  function JsBigSigma0(a: word): jsint { JsXor(JsXor(RotateRight(a, 2), RotateRight(a, 13)), RotateRight(a, 22)) }
  function JsBigSigma1(e: word): jsint { JsXor(JsXor(RotateRight(e, 6), RotateRight(e, 11)), RotateRight(e, 25)) }
  function JsChoice(e: word, f: word, g: word): jsint { JsXor(JsAnd(e, f), JsAnd(JsNot(e), g)) }
  function JsMajority(a: word, b: word, c: word): jsint { JsXor(JsXor(JsAnd(a, b), JsAnd(a, c)), JsAnd(b, c)) }

  lemma XorOfRotations(w: word, i: nat, j: nat)
    requires 0 < i < 32 && 0 < j < 32
    ensures Uint32(JsXor(RotateRight(w, i), RotateRight(w, j))) == Xor(Rotr(i, w), Rotr(j, w))
  {
    UintInt(w);
    RotateRightIsRotr(w, i);
    RotateRightIsRotr(w, j);
    JsXorIs(RotateRight(w, i), RotateRight(w, j));
  }

  lemma BigSigmas(w: word)
    ensures Uint32(JsBigSigma0(w)) == BigSigma0(w) && Uint32(JsBigSigma1(w)) == BigSigma1(w)
  {
    UintInt(w);
    XorOfRotations(w, 2, 13);
    XorOfRotations(w, 6, 11);
    RotateRightIsRotr(w, 22);
    RotateRightIsRotr(w, 25);
    JsXorIs(JsXor(RotateRight(w, 2), RotateRight(w, 13)), RotateRight(w, 22));
    JsXorIs(JsXor(RotateRight(w, 6), RotateRight(w, 11)), RotateRight(w, 25));
  }

  lemma SmallSigmas(w: word)
    ensures Uint32(JsSmallSigma0(w)) == SmallSigma0(w) && Uint32(JsSmallSigma1(w)) == SmallSigma1(w)
  {
    UintInt(w);
    XorOfRotations(w, 7, 18);
    XorOfRotations(w, 17, 19);
    UintInt(Shr(w, 3));
    UintInt(Shr(w, 10));
    JsXorIs(JsXor(RotateRight(w, 7), RotateRight(w, 18)), JsShr(w, 3));
    JsXorIs(JsXor(RotateRight(w, 17), RotateRight(w, 19)), JsShr(w, 10));
  }

  lemma ChoiceIsCh(e: word, f: word, g: word)
    ensures Uint32(JsChoice(e, f, g)) == Ch(e, f, g)
  {
    UintInt(e); UintInt(f); UintInt(g);
    UintInt(And(e, f));
    UintInt(Not(e));
    UintInt(And(Not(e), g));
    JsXorIs(JsAnd(e, f), JsAnd(JsNot(e), g));
  }

  lemma MajorityIsMaj(a: word, b: word, c: word)
    ensures Uint32(JsMajority(a, b, c)) == Maj(a, b, c)
  {
    UintInt(a); UintInt(b); UintInt(c);
    UintInt(And(a, b)); UintInt(And(a, c)); UintInt(And(b, c));
    JsXorIs(JsAnd(a, b), JsAnd(a, c));
    JsXorIs(JsXor(JsAnd(a, b), JsAnd(a, c)), JsAnd(b, c));
  }

  lemma WordBytes(v: word)
    ensures BigEndian(4, v) == Bytes32(v)
  {
    var p := v / 256;
    assert BigEndian(1, v / 256 / 256 / 256) == [v / 256 / 256 / 256];
    assert BigEndian(2, v / 256 / 256) == [v / 256 / 256 / 256, v / 256 / 256 % 256];
    assert BigEndian(3, p) == [v / 256 / 256 / 256, v / 256 / 256 % 256, p % 256];
  }

  /** A 64-bit number is its high word and then its low one. */
  lemma LengthBytes(n: nat)
    requires n < 0x1_0000_0000_0000_0000
    ensures n / TWO32 < TWO32
    ensures BigEndian(8, n) == Bytes32(n / TWO32) + Bytes32(n % TWO32)
  {
    var q, lo := n / TWO32, n % TWO32;
    var a, b, c := n / 256, n / 256 / 256, n / 256 / 256 / 256;
    assert a == q * 0x100_0000 + lo / 256;
    assert b == q * 0x1_0000 + lo / 256 / 256;
    assert c == q * 0x100 + lo / 256 / 256 / 256;
    assert c / 256 == q && c % 256 == lo / 256 / 256 / 256;
    WordBytes(q);
    assert BigEndian(8, n) == BigEndian(7, a) + [n % 256];
    assert BigEndian(7, a) == BigEndian(6, b) + [a % 256];
    assert BigEndian(6, b) == BigEndian(5, c) + [b % 256];
    assert BigEndian(5, c) == BigEndian(4, q) + [c % 256];
  }

  method SetBitLength(view: array<byte>, bits: nat)
    requires 8 <= view.Length && bits < TWO53
    modifies view
    ensures view[..] == old(view[..view.Length - 8]) + BigEndian(8, bits)
  {
    LengthBytes(bits);
    SetUint32(view, view.Length - 8, bits / TWO32);
    SetUint32(view, view.Length - 4, Uint32(bits));
    assert view[..] == old(view[..view.Length - 8]) + (Bytes32(bits / TWO32) + Bytes32(bits % TWO32));
  }

  method Marked(message: seq<byte>, length: nat) returns (view: array<byte>)
    requires |message| < length
    ensures fresh(view) && view.Length == length
    ensures view[..] == message + [0x80] + Zeros(length - |message| - 1)
  {
    view := new byte[length](_ => 0);
    assert view[..] == Zeros(length);
    Set(view, message, 0);
    assert view[..] == message + Zeros(length)[|message|..];
    view[|message|] := 0x80;
  }

  /** Writing the bit count over the last eight bytes completes the padding. */
  lemma LengthAppended(m: seq<byte>, marked: seq<byte>)
    requires |marked| == |Padded(m)| && marked == m + [0x80] + Zeros(|marked| - |m| - 1)
    ensures marked[..|marked| - 8] + BigEndian(8, 8 * |m|) == Padded(m)
  {
    PaddedBlocks(m);
    assert marked[..|marked| - 8] == m + [0x80] + Zeros(ZeroBytes(|m|));
  }

  /** `None` is the RangeError of a message too long for the signed shifts. */
  method PadMessage(message: seq<byte>) returns (padded: Option<array<byte>>)
    requires |message| < TWO53 / 8 - 8
    ensures padded.Some? <==> |message| < TWO31 - 72
    ensures padded.Some? ==> fresh(padded.value) && padded.value[..] == Padded(message)
  {
    hide Padded, BigEndian, PaddedLength, Zeros, ZeroBytes;
    PaddedLengthExactly(message);
    PaddedBlocks(message);
    var bitLength := |message| * 8;
    var paddedLength := PaddedLength(|message|);
    if paddedLength < 0 || |message| > paddedLength { return None; }
    var view := Marked(message, paddedLength);
    LengthAppended(message, view[..]);
    SetBitLength(view, bitLength);
    padded := Some(view);
  }

  /** One word of the expanded schedule, as the loop computes it. */
  method Expand(w16: word, w15: word, w7: word, w2: word) returns (w: word)
    ensures w == Plus(Plus(Plus(SmallSigma1(w2), w7), SmallSigma0(w15)), w16)
  {
    hide Plus, SmallSigma0, SmallSigma1, JsSmallSigma0, JsSmallSigma1;
    var s0, s1 := JsSmallSigma0(w15), JsSmallSigma1(w2);
    SmallSigmas(w15);
    SmallSigmas(w2);
    ScheduleSum(w16, s0, w7, s1);
    w := Uint32(w16 + s0 + w7 + s1);
  }

  method ExpandBlock(view: array<byte>, offset: nat, words: array<word>)
    requires offset + 64 <= view.Length && words.Length == 64
    modifies words
    ensures forall t :: 0 <= t < 64 ==> words[t] == Schedule(view[..], offset, t)
  {
    hide Plus, SmallSigma0, SmallSigma1;
    ghost var p := view[..];
    for index := 0 to 16
      invariant forall t :: 0 <= t < index ==> words[t] == Schedule(p, offset, t)
    {
      var at := offset + index * 4;
      words[index] := Word(view[at], view[at + 1], view[at + 2], view[at + 3]);
    }
    for index := 16 to 64
      invariant forall t :: 0 <= t < index ==> words[t] == Schedule(p, offset, t)
    {
      words[index] := Expand(words[index - 16], words[index - 15], words[index - 7], words[index - 2]);
    }
  }

  method CompressBlock(r: Registers, words: array<word>, ghost p: seq<byte>, ghost offset: nat) returns (out: Registers)
    requires offset + 64 <= |p| && words.Length == 64
    requires forall t :: 0 <= t < 64 ==> words[t] == Schedule(p, offset, t)
    ensures out == Rounds(r, p, offset, 64)
  {
    hide Plus, BigSigma0, BigSigma1, Ch, Maj, JsBigSigma0, JsBigSigma1, JsChoice, JsMajority, Schedule, RoundConstant;
    var a: word, b: word, c: word, d: word, e: word, f: word, g: word, h: word :=
      r.a, r.b, r.c, r.d, r.e, r.f, r.g, r.h;
    for index := 0 to 64
      invariant Registers(a, b, c, d, e, f, g, h) == Rounds(r, p, offset, index)
    {
      var s1, choice := JsBigSigma1(e), JsChoice(e, f, g);
      var first: int := Uint32(h + s1 + choice + RoundConstant(index) + words[index]);
      var s0: int, majority: int := JsBigSigma0(a), JsMajority(a, b, c);
      var second: int := Uint32(s0 + majority);
      RoundSums(Registers(a, b, c, d, e, f, g, h), RoundConstant(index), words[index]);
      SumIsPlus(d, first);
      SumIsPlus(first, second);
      h := g;
      g := f;
      f := e;
      e := Uint32(d + first);
      d := c;
      c := b;
      b := a;
      a := Uint32(first + second);
    }
    out := Registers(a, b, c, d, e, f, g, h);
  }

  lemma RoundSums(r: Registers, k: word, w: word)
    ensures Uint32(r.h + JsBigSigma1(r.e) + JsChoice(r.e, r.f, r.g) + k + w)
         == Plus(Plus(Plus(Plus(r.h, BigSigma1(r.e)), Ch(r.e, r.f, r.g)), k), w)
    ensures Uint32(JsBigSigma0(r.a) + JsMajority(r.a, r.b, r.c)) == Plus(BigSigma0(r.a), Maj(r.a, r.b, r.c))
  {
    hide Plus, BigSigma0, BigSigma1, Ch, Maj, JsBigSigma0, JsBigSigma1, JsChoice, JsMajority, Uint32;
    BigSigmas(r.e);
    ChoiceIsCh(r.e, r.f, r.g);
    FirstSum(r.h, JsBigSigma1(r.e), JsChoice(r.e, r.f, r.g), k, w);
    BigSigmas(r.a);
    MajorityIsMaj(r.a, r.b, r.c);
    UintPlus(JsBigSigma0(r.a), JsMajority(r.a, r.b, r.c));
  }

  // ---------------------------------------------------------------- hexadecimal output

  /** `word.toString(16)`: no leading zeros. */
  function ToString16(x: nat): string {
    if x < 16 then [HexDigit(x)] else ToString16(x / 16) + [HexDigit(x % 16)]
  }

  function PadStart(s: string, n: nat): string { (if |s| < n then seq(n - |s|, _ => '0') else []) + s }

  function Pow16(n: nat): nat { if n == 0 then 1 else 16 * Pow16(n - 1) }

  lemma {:induction false} ZeroDigits(n: nat)
    ensures Digits(n, 0) == seq(n, _ => '0')
  {
    if n > 0 { ZeroDigits(n - 1); }
  }

  lemma {:induction false} PaddedHex(n: nat, x: nat)
    requires n > 0 && x < Pow16(n)
    ensures |ToString16(x)| <= n && PadStart(ToString16(x), n) == Digits(n, x)
  {
    if x < 16 {
      ZeroDigits(n - 1);
    } else {
      PaddedHex(n - 1, x / 16);
      assert PadStart(ToString16(x), n) == PadStart(ToString16(x / 16), n - 1) + [HexDigit(x % 16)];
    }
  }

  lemma WordFitsHex()
    ensures Pow16(8) == TWO32
  {
    assert Pow16(2) == 0x100 && Pow16(4) == 0x1_0000 && Pow16(6) == 0x100_0000;
  }

  lemma WordHex(x: word)
    ensures PadStart(ToString16(x), 8) == Digits(8, x)
  {
    WordFitsHex();
    PaddedHex(8, x);
  }

  method JoinHex(hash: Registers) returns (s: string)
    ensures s == HexOf(hash)
  {
    WordHex(hash.a); WordHex(hash.b); WordHex(hash.c); WordHex(hash.d);
    WordHex(hash.e); WordHex(hash.f); WordHex(hash.g); WordHex(hash.h);
    s := PadStart(ToString16(hash.a), 8) + PadStart(ToString16(hash.b), 8) + PadStart(ToString16(hash.c), 8)
         + PadStart(ToString16(hash.d), 8) + PadStart(ToString16(hash.e), 8) + PadStart(ToString16(hash.f), 8)
         + PadStart(ToString16(hash.g), 8) + PadStart(ToString16(hash.h), 8);
  }

  method AddRegisters(x: Registers, y: Registers) returns (r: Registers)
    ensures r == AddAll(x, y)
  {
    SumIsPlus(x.a, y.a); SumIsPlus(x.b, y.b); SumIsPlus(x.c, y.c); SumIsPlus(x.d, y.d);
    SumIsPlus(x.e, y.e); SumIsPlus(x.f, y.f); SumIsPlus(x.g, y.g); SumIsPlus(x.h, y.h);
    r := Registers(Uint32(x.a + y.a), Uint32(x.b + y.b), Uint32(x.c + y.c), Uint32(x.d + y.d),
                   Uint32(x.e + y.e), Uint32(x.f + y.f), Uint32(x.g + y.g), Uint32(x.h + y.h));
  }

  /** The whole computation: the digest of the standard for every message short enough to be padded, and the
      RangeError otherwise. */
  method Sha256HexBytes(message: seq<byte>) returns (r: Option<string>)
    requires |message| < TWO53 / 8 - 8
    ensures r == if |message| < TWO31 - 72 then Some(Digest(message)) else None
  {
    hide AddAll, Rounds, HexOf, Padded;
    var padded := PadMessage(message);
    if padded.None? { return None; }
    var view := padded.value;
    ghost var p := view[..];
    PaddedBlocks(message);
    var hash := H0;
    var words := new word[64](_ => 0);
    var offset, n := 0, 0;
    while offset < view.Length
      invariant offset == 64 * n <= view.Length && view[..] == p && words.Length == 64 && fresh(words)
      invariant hash == Hash(p, n)
    {
      ExpandBlock(view, offset, words);
      var out := CompressBlock(hash, words, p, offset);
      hash := AddRegisters(hash, out);
      offset, n := offset + 64, n + 1;
    }
    var hex := JoinHex(hash);
    r := Some(hex);
  }
}
