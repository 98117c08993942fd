/** Words of 32 bits as four bytes, the first one highest. */
module Words {
  import opened Galois

  type Word32 = bv32

  function Pack(a: bv8, b: bv8, c: bv8, d: bv8): Word32 {
    (a as bv32 << 24) | (b as bv32 << 16) | (c as bv32 << 8) | d as bv32
  }

  function Byte0(w: Word32): bv8 {
    (w >> 24) as bv8
  }

  function Byte1(w: Word32): bv8 {
    ((w >> 16) & 255) as bv8
  }

  function Byte2(w: Word32): bv8 {
    ((w >> 8) & 255) as bv8
  }

  function Byte3(w: Word32): bv8 {
    (w & 255) as bv8
  }

  function Xor(v: Word32, w: Word32): Word32 {
    v ^ w
  }

  /** Eight bits to the right, round the end. */
  function TurnRight(w: Word32): Word32 {
    (w << 24) ^ (w >> 8)
  }

  function TurnLeft(w: Word32): Word32 {
    (w << 8) ^ (w >> 24)
  }

  lemma PackBytes(a: bv8, b: bv8, c: bv8, d: bv8)
    ensures Byte0(Pack(a, b, c, d)) == a && Byte1(Pack(a, b, c, d)) == b
    ensures Byte2(Pack(a, b, c, d)) == c && Byte3(Pack(a, b, c, d)) == d
  {
  }

  lemma BytesPack(w: Word32)
    ensures Pack(Byte0(w), Byte1(w), Byte2(w), Byte3(w)) == w
  {
  }

  lemma PackXor(a: bv8, b: bv8, c: bv8, d: bv8, e: bv8, f: bv8, g: bv8, h: bv8)
    ensures Xor(Pack(a, b, c, d), Pack(e, f, g, h)) == Pack(Add(a, e), Add(b, f), Add(c, g), Add(d, h))
  {
  }

  lemma PackTurns(a: bv8, b: bv8, c: bv8, d: bv8)
    ensures TurnRight(Pack(a, b, c, d)) == Pack(d, a, b, c)
    ensures TurnLeft(Pack(a, b, c, d)) == Pack(b, c, d, a)
  {
  }

  /** Four bytes put together with exclusive ors. */
  function Shifted(a: bv8, b: bv8, c: bv8, d: bv8): Word32 {
    (a as bv32 << 24) ^ (b as bv32 << 16) ^ (c as bv32 << 8) ^ d as bv32
  }

  lemma PackShifts(a: bv8, b: bv8, c: bv8, d: bv8)
    ensures Shifted(a, b, c, d) == Pack(a, b, c, d)
  {
  }
}
