/** Bytes and the byte buffers of the source: `Uint8Array`, and `DataView` for big-endian 32-bit words. */
module Octets {
  type byte = x: int | 0 <= x < 256
  type word = x: int | 0 <= x < 0x1_0000_0000

  function Word(b0: byte, b1: byte, b2: byte, b3: byte): word { ((b0 * 256 + b1) * 256 + b2) * 256 + b3 }

  /** Reading four bytes, most significant first. */
  function GetUint32(b: seq<byte>, at: nat): word
    requires at + 4 <= |b|
  {
    Word(b[at], b[at + 1], b[at + 2], b[at + 3])
  }

  /** The four bytes of a word, most significant first. */
  function Bytes32(v: word): seq<byte> { [v / 256 / 256 / 256, v / 256 / 256 % 256, v / 256 % 256, v % 256] }

  lemma SplitByte(q: nat, r: byte)
    ensures (q * 256 + r) / 256 == q && (q * 256 + r) % 256 == r
  {
  }

  lemma WordOfBytes(v: word)
    ensures GetUint32(Bytes32(v), 0) == v
  {
    var q := v / 256;
    var p := q / 256;
    assert v == q * 256 + v % 256 && q == p * 256 + q % 256 && p == p / 256 * 256 + p % 256;
  }

  lemma BytesOfWord(b0: byte, b1: byte, b2: byte, b3: byte)
    ensures Bytes32(Word(b0, b1, b2, b3)) == [b0, b1, b2, b3]
  {
    SplitByte((b0 * 256 + b1) * 256 + b2, b3);
    SplitByte(b0 * 256 + b1, b2);
    SplitByte(b0, b1);
  }

  method SetUint32(view: array<byte>, at: nat, v: word)
    requires at + 4 <= view.Length
    modifies view
    ensures view[..] == old(view[..at]) + Bytes32(v) + old(view[at + 4..])
  {
    view[at], view[at + 1], view[at + 2], view[at + 3] :=
      v / 256 / 256 / 256, v / 256 / 256 % 256, v / 256 % 256, v % 256;
  }

  method Set(view: array<byte>, source: seq<byte>, at: nat)
    requires at + |source| <= view.Length
    modifies view
    ensures view[..] == old(view[..at]) + source + old(view[at + |source|..])
  {
    for i := 0 to |source|
      invariant view[..at] == old(view[..at])
      invariant view[at..at + i] == source[..i]
      invariant view[at + i..] == old(view[at + i..])
    {
      view[at + i] := source[i];
    }
  }
}
