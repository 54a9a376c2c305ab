/** Bytes as small integers. */
module Bytes {
  type byte = x: int | 0 <= x < 256

  /** `b ^ 0x20`: bit five is flipped. */
  function Xor20(b: byte): (r: byte)
    ensures r != b
  {
    if b / 0x20 % 2 == 0 then b + 0x20 else b - 0x20
  }

  lemma Xor20Undone(b: byte)
    ensures Xor20(Xor20(b)) == b
  {
    if b / 0x20 % 2 == 0 {
      assert (b + 0x20) / 0x20 == b / 0x20 + 1;
    } else {
      assert (b - 0x20) / 0x20 == b / 0x20 - 1;
    }
  }

  /** The flip is the exclusive or of the eight-bit machine operation. */
  lemma Xor20IsXor(b: bv8)
    ensures Xor20(b as int) == (b ^ 0x20) as int
  {
    if b & 0x20 == 0 {
      assert b ^ 0x20 == b + 0x20;
    } else {
      assert b ^ 0x20 == b - 0x20;
    }
  }

  /** A little-endian 16-bit word. */
  function Le16(lo: byte, hi: byte): nat { lo as int + 0x100 * (hi as int) }

  /** The first byte is the low half, the second the high one. */
  lemma Le16Halves(lo: byte, hi: byte)
    ensures Le16(lo, hi) % 0x100 == lo as int && Le16(lo, hi) / 0x100 == hi as int
  {
  }
}
