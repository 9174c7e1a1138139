/** Bytes and 32-bit words. */
module Bytes {

  const TWO32: nat := 0x1_0000_0000

  type byte = x: int | 0 <= x < 256

  /** An unsigned word. */
  type word = x: int | 0 <= x < TWO32

  /** The bytes of a word, lowest first. */
  function WordBytes(w: word): (b: seq<byte>)
    ensures |b| == 4
  {
    [w % 256, (w / 0x100) % 256, (w / 0x1_0000) % 256, w / 0x100_0000]
  }

  function FromBytes(b: seq<byte>): word
    requires |b| == 4
  {
    Packed(b[0], b[1], b[2], b[3])
  }

  function Packed(b0: byte, b1: byte, b2: byte, b3: byte): word {
    (b0 as int) + (b1 as int) * 0x100 + (b2 as int) * 0x1_0000 + (b3 as int) * 0x100_0000
  }

  lemma LowByte(b: byte, q: nat)
    ensures (b as int + 0x100 * q) % 256 == b && (b as int + 0x100 * q) / 0x100 == q
  {
  }

  lemma TwoSteps(w: nat)
    ensures w / 0x1_0000 == (w / 0x100) / 0x100 && w / 0x100_0000 == ((w / 0x100) / 0x100) / 0x100
  {
  }

  lemma PackedDigits(b0: byte, b1: byte, b2: byte, b3: byte)
    ensures var w := Packed(b0, b1, b2, b3);
      w % 256 == b0 && (w / 0x100) % 256 == b1 && (w / 0x1_0000) % 256 == b2 && w / 0x100_0000 == b3
  {
    var w, t: nat := Packed(b0, b1, b2, b3), b3;
    var v: nat := b2 as int + 0x100 * t;
    var u: nat := b1 as int + 0x100 * v;
    assert w == b0 as int + 0x100 * u;
    LowByte(b0, u);
    LowByte(b1, v);
    LowByte(b2, t);
    TwoSteps(w);
    hide Packed;
  }

  lemma BytesOfWord(w: word)
    ensures FromBytes(WordBytes(w)) == w
  {
    var q1, q2, q3 := w / 0x100, w / 0x1_0000, w / 0x100_0000;
    assert q2 == q1 / 0x100 && q3 == q2 / 0x100;
  }

  lemma WordOfBytes(b: seq<byte>)
    requires |b| == 4
    ensures WordBytes(FromBytes(b)) == b
  {
    PackedDigits(b[0], b[1], b[2], b[3]);
    hide Packed;
  }

  function Reversed(b: seq<byte>): seq<byte>
    requires |b| == 4
  {
    [b[3], b[2], b[1], b[0]]
  }
}
