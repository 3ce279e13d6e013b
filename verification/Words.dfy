/** The number a 32-bit or 64-bit word stands for, by its bits, so that it can be stored. */
module Words {
  import opened Bytes

  function Flag(v: bv32, mask: bv32, place: nat): nat {
    if v & mask == mask then place else 0
  }

  /** The value of the low byte of a word. */
  function LowByte(v: bv32): (b: byte) {
    Flag(v, 0x01, 1) + Flag(v, 0x02, 2) + Flag(v, 0x04, 4) + Flag(v, 0x08, 8)
    + Flag(v, 0x10, 16) + Flag(v, 0x20, 32) + Flag(v, 0x40, 64) + Flag(v, 0x80, 128)
  }

  function Shr8(v: bv32): bv32 { v >> 8 }

  function Shr16(v: bv32): bv32 { v >> 16 }

  function Shr24(v: bv32): bv32 { v >> 24 }

  function ToU32(v: bv32): uint32 {
    LowByte(v) as int + 0x100 * LowByte(Shr8(v)) as int + 0x1_0000 * LowByte(Shr16(v)) as int + 0x100_0000 * LowByte(Shr24(v)) as int
  }

  function Low(c: bv32): bv32 { c & 0xFF }

  lemma LowByteInjective(v: bv32, w: bv32)
    requires LowByte(v) == LowByte(w)
    ensures Low(v) == Low(w)
  {}

  lemma SameBytes(v: bv32, w: bv32)
    requires ToU32(v) == ToU32(w)
    ensures LowByte(v) == LowByte(w) && LowByte(Shr8(v)) == LowByte(Shr8(w))
    ensures LowByte(Shr16(v)) == LowByte(Shr16(w)) && LowByte(Shr24(v)) == LowByte(Shr24(w))
  {
    hide LowByte, Shr8, Shr16, Shr24;
  }

  lemma FourBytes(v: bv32, w: bv32)
    requires Low(v) == Low(w) && Low(Shr8(v)) == Low(Shr8(w)) && Low(Shr16(v)) == Low(Shr16(w)) && Low(Shr24(v)) == Low(Shr24(w))
    ensures v == w
  {}

  lemma ToU32Injective(v: bv32, w: bv32)
    requires ToU32(v) == ToU32(w)
    ensures v == w
  {
    hide *;
    SameBytes(v, w);
    LowByteInjective(v, w);
    LowByteInjective(Shr8(v), Shr8(w));
    LowByteInjective(Shr16(v), Shr16(w));
    LowByteInjective(Shr24(v), Shr24(w));
    FourBytes(v, w);
  }

  function LowHalf(v: bv64): bv32 { (v & 0xFFFF_FFFF) as bv32 }

  function HighHalf(v: bv64): bv32 { (v >> 32) as bv32 }

  function ToU64(v: bv64): uint64 {
    ToU32(LowHalf(v)) as int + 0x1_0000_0000 * ToU32(HighHalf(v)) as int
  }

  lemma TwoHalves(v: bv64, w: bv64)
    requires LowHalf(v) == LowHalf(w) && HighHalf(v) == HighHalf(w)
    ensures v == w
  {}

  lemma ToU64Injective(v: bv64, w: bv64)
    requires ToU64(v) == ToU64(w)
    ensures v == w
  {
    hide ToU32, LowHalf, HighHalf;
    ToU32Injective(LowHalf(v), LowHalf(w));
    ToU32Injective(HighHalf(v), HighHalf(w));
    TwoHalves(v, w);
  }
}
