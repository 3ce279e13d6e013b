/** CRC-32C over byte strings: the table loop, incremental use, and the error bursts it catches
    (src/common/xq_crc32c.c:59-91). */
module Crc32c {
  import opened Bytes
  import opened Crc32cTable
  import opened Words

  // ----- register operations

  function Not(c: bv32): bv32 { !c }

  function Xor(c: bv32, d: bv32): bv32 { c ^ d }

  lemma NotNot(c: bv32)
    ensures Not(Not(c)) == c
  {}

  // ----- bytes and registers

  /** The number `n` below 16 as a register. */
  function Digit(n: nat): bv32 {
    if n == 0 then 0 else if n == 1 then 1 else if n == 2 then 2 else if n == 3 then 3
    else if n == 4 then 4 else if n == 5 then 5 else if n == 6 then 6 else if n == 7 then 7
    else if n == 8 then 8 else if n == 9 then 9 else if n == 10 then 10 else if n == 11 then 11
    else if n == 12 then 12 else if n == 13 then 13 else if n == 14 then 14 else 15
  }

  /** A byte as a register, by its two hexadecimal digits. */
  function ByteBv(b: byte): bv32 {
    (Digit(b as int / 16) << 4) | Digit(b as int % 16)
  }

  lemma DigitSmall(n: nat)
    ensures Digit(n) <= 15
  {}

  lemma DigitInjective(m: nat, n: nat)
    requires m < 16 && n < 16 && Digit(m) == Digit(n)
    ensures m == n
  {}

  lemma TwoDigits(a: bv32, b: bv32, c: bv32, d: bv32)
    requires a <= 15 && b <= 15 && c <= 15 && d <= 15
    ensures (a << 4) | b <= 0xFF
    ensures (a << 4) | b == (c << 4) | d ==> a == c && b == d
  {}

  lemma ByteBvSmall(b: byte)
    ensures ByteBv(b) <= 0xFF
  {
    hide Digit;
    var h, l := b as int / 16, b as int % 16;
    DigitSmall(h);
    DigitSmall(l);
    TwoDigits(Digit(h), Digit(l), 0, 0);
  }

  lemma ByteBvInjective(a: byte, b: byte)
    requires ByteBv(a) == ByteBv(b)
    ensures a == b
  {
    hide Digit;
    var h, l, h', l' := a as int / 16, a as int % 16, b as int / 16, b as int % 16;
    DigitSmall(h);
    DigitSmall(l);
    DigitSmall(h');
    DigitSmall(l');
    TwoDigits(Digit(h), Digit(l), Digit(h'), Digit(l'));
    DigitInjective(h, h');
    DigitInjective(l, l');
  }

  // ----- the register over a byte string

  /** The index of the table entry a step uses. */
  function Idx(c: bv32, b: byte): bv32 {
    Low(Xor(c, ByteBv(b)))
  }

  function Next(c: bv32, b: byte): bv32 {
    Xor(Tab(Idx(c, b)), Shr8(c))
  }

  function Run(c: bv32, data: seq<byte>): bv32
    decreases |data|
  {
    if data == [] then c else Run(Next(c, data[0]), data[1..])
  }

  /** `xq_crc32c_update`: carries a finished checksum on over more data. */
  function Update(crc: bv32, data: seq<byte>): bv32 {
    Not(Run(Not(crc), data))
  }

  function Crc(data: seq<byte>): uint32 {
    ToU32(Update(0, data))
  }

  lemma {:induction false} RunSplit(c: bv32, a: seq<byte>, b: seq<byte>)
    ensures Run(c, a + b) == Run(Run(c, a), b)
    decreases |a|
  {
    hide Next;
    if a == [] {
      assert a + b == b;
    } else {
      assert (a + b)[1..] == a[1..] + b;
      RunSplit(Next(c, a[0]), a[1..], b);
    }
  }

  /** Updating piece by piece gives the checksum of the whole. */
  lemma UpdateConcat(crc: bv32, a: seq<byte>, b: seq<byte>)
    ensures Update(Update(crc, a), b) == Update(crc, a + b)
  {
    hide Run, Not;
    RunSplit(Not(crc), a, b);
    NotNot(Run(Not(crc), a));
  }

  /** The portable loop. */
  method UpdateLoop(crc: bv32, data: seq<byte>) returns (r: bv32)
    ensures r == Update(crc, data)
  {
    hide Next;
    var c := Not(crc);
    var i := 0;
    while i < |data|
      invariant 0 <= i <= |data| && Run(c, data[i..]) == Run(Not(crc), data)
    {
      assert data[i..][1..] == data[i + 1..];
      c := Next(c, data[i]);
      i := i + 1;
    }
    r := Not(c);
  }

  // ----- error bursts

  /** What the shifted register and the table entry leave visible in a step's result. */
  lemma XorTop(u: bv32, c: bv32, v: bv32, d: bv32)
    ensures Shr24(Xor(u, Shr8(c))) == Shr24(Xor(v, Shr8(d))) ==> u >> 24 == v >> 24
  {}

  lemma TopOfMore(s: bv32, t: bv32)
    ensures Shr16(s) == Shr16(t) ==> Shr24(s) == Shr24(t)
    ensures Shr8(s) == Shr8(t) ==> Shr24(s) == Shr24(t)
  {}

  lemma XorRest(u: bv32, c: bv32, d: bv32)
    ensures Shr16(Xor(u, Shr8(c))) == Shr16(Xor(u, Shr8(d))) ==> Shr24(c) == Shr24(d)
    ensures Xor(u, Shr8(c)) == Xor(u, Shr8(d)) ==> Shr8(c) == Shr8(d)
  {}

  lemma XorRest2(u: bv32, c: bv32, d: bv32)
    ensures Shr8(Xor(u, Shr8(c))) == Shr8(Xor(u, Shr8(d))) ==> Shr16(c) == Shr16(d)
  {}

  lemma EntryGivesIndex(i: bv32, j: bv32)
    ensures Tab(Low(i)) >> 24 == Tab(Low(j)) >> 24 ==> Low(i) == Low(j)
  {
    hide Tab;
    if Tab(Low(i)) >> 24 == Tab(Low(j)) >> 24 {
      TopByteInjective(Low(i), Low(j));
    }
  }

  /** A step gives its table index away in its top byte; the more of its result is known, the more of
      the register before it is. */
  lemma NextBack(c: bv32, d: bv32, a: byte, b: byte)
    ensures Shr24(Next(c, a)) == Shr24(Next(d, b)) ==> Idx(c, a) == Idx(d, b)
    ensures Shr16(Next(c, a)) == Shr16(Next(d, b)) ==> Idx(c, a) == Idx(d, b) && Shr24(c) == Shr24(d)
    ensures Shr8(Next(c, a)) == Shr8(Next(d, b)) ==> Idx(c, a) == Idx(d, b) && Shr16(c) == Shr16(d)
    ensures Next(c, a) == Next(d, b) ==> Idx(c, a) == Idx(d, b) && Shr8(c) == Shr8(d)
  {
    hide Tab, ByteBv, Low, Xor, Shr8, Shr16, Shr24;
    XorTop(Tab(Idx(c, a)), c, Tab(Idx(d, b)), d);
    TopOfMore(Next(c, a), Next(d, b));
    XorRest(Tab(Idx(c, a)), c, d);
    XorRest2(Tab(Idx(c, a)), c, d);
    EntryGivesIndex(Xor(c, ByteBv(a)), Xor(d, ByteBv(b)));
  }

  lemma NextInjective(c: bv32, d: bv32, b: byte)
    requires Next(c, b) == Next(d, b)
    ensures c == d
  {
    NextBack(c, d, b, b);
    hide Next, ByteBv, Low, Xor, Shr8;
    LowAndHigh(c, d, ByteBv(b));
  }

  lemma LowAndHigh(c: bv32, d: bv32, x: bv32)
    requires Low(Xor(c, x)) == Low(Xor(d, x)) && Shr8(c) == Shr8(d)
    ensures c == d
  {}

  lemma {:induction false} RunInjective(c: bv32, d: bv32, data: seq<byte>)
    requires Run(c, data) == Run(d, data)
    ensures c == d
    decreases |data|
  {
    hide Next;
    if data != [] {
      RunInjective(Next(c, data[0]), Next(d, data[0]), data[1..]);
      NextInjective(c, d, data[0]);
    }
  }

  /** From one register, four bytes determine the register after them one to one. */
  lemma FourInjective(c: bv32, x: seq<byte>, y: seq<byte>)
    requires |x| == |y| == 4 && Run(c, x) == Run(c, y)
    ensures x == y
  {
    hide Run, Next, Idx;
    RunFour(c, x);
    RunFour(c, y);
    FourBack(c, x[0], x[1], x[2], x[3], y[0], y[1], y[2], y[3]);
  }

  lemma FourBack(c: bv32, a0: byte, a1: byte, a2: byte, a3: byte, b0: byte, b1: byte, b2: byte, b3: byte)
    requires Next(Next(Next(Next(c, a0), a1), a2), a3) == Next(Next(Next(Next(c, b0), b1), b2), b3)
    ensures a0 == b0 && a1 == b1 && a2 == b2 && a3 == b3
  {
    hide *;
    var s1, t1 := Next(c, a0), Next(c, b0);
    var s2, t2 := Next(s1, a1), Next(t1, b1);
    var s3, t3 := Next(s2, a2), Next(t2, b2);
    NextBack(s3, t3, a3, b3);
    NextBack(s2, t2, a2, b2);
    NextBack(s1, t1, a1, b1);
    NextBack(c, c, a0, b0);
    SameIndex(c, a0, b0);
    SameIndex(s1, a1, b1);
    SameIndex(s2, a2, b2);
    SameIndex(s3, a3, b3);
  }

  lemma SameIndex(c: bv32, a: byte, b: byte)
    requires Idx(c, a) == Idx(c, b)
    ensures a == b
  {
    hide ByteBv, Low, Xor;
    ByteBvSmall(a);
    ByteBvSmall(b);
    CancelXor(c, ByteBv(a), ByteBv(b));
    ByteBvInjective(a, b);
  }

  lemma CancelXor(c: bv32, x: bv32, y: bv32)
    requires x <= 0xFF && y <= 0xFF && Low(Xor(c, x)) == Low(Xor(c, y))
    ensures x == y
  {}

  lemma RunCons(c: bv32, b: byte, rest: seq<byte>)
    ensures Run(c, [b] + rest) == Run(Next(c, b), rest) && Run(Next(c, b), []) == Next(c, b)
  {
    hide Next;
    assert ([b] + rest)[1..] == rest;
  }

  lemma RunFour(c: bv32, x: seq<byte>)
    requires |x| == 4
    ensures Run(c, x) == Next(Next(Next(Next(c, x[0]), x[1]), x[2]), x[3])
  {
    hide Next, Run;
    RunCons(c, x[0], x[1..]);
    RunCons(Next(c, x[0]), x[1], x[2..]);
    RunCons(Next(Next(c, x[0]), x[1]), x[2], x[3..]);
    RunCons(Next(Next(Next(c, x[0]), x[1]), x[2]), x[3], []);
    assert x == [x[0]] + x[1..] && x[1..] == [x[1]] + x[2..] && x[2..] == [x[2]] + x[3..] && x[3..] == [x[3]] + [];
  }

  /** Shorter strings behave like ones padded to four bytes. */
  lemma UpToFourInjective(c: bv32, x: seq<byte>, y: seq<byte>)
    requires |x| == |y| <= 4 && Run(c, x) == Run(c, y)
    ensures x == y
  {
    var z: seq<byte> := seq(4 - |x|, i => 0);
    RunSplit(c, x, z);
    RunSplit(c, y, z);
    FourInjective(c, x + z, y + z);
    assert (x + z)[..|x|] == x && (y + z)[..|y|] == y;
  }

  /** Two buffers that differ only inside a window of at most four bytes, and do differ there, never
      share a CRC-32C. */
  lemma BurstDetected(pre: seq<byte>, x: seq<byte>, y: seq<byte>, post: seq<byte>)
    requires |x| == |y| <= 4 && x != y
    ensures Crc(pre + x + post) != Crc(pre + y + post)
  {
    hide Run, ToU32, Not;
    var c := Not(0);
    RunWindow(c, pre, x, post);
    RunWindow(c, pre, y, post);
    if Crc(pre + x + post) == Crc(pre + y + post) {
      ToU32Injective(Update(0, pre + x + post), Update(0, pre + y + post));
      NotNot(Run(c, pre + x + post));
      NotNot(Run(c, pre + y + post));
      RunInjective(Run(Run(c, pre), x), Run(Run(c, pre), y), post);
      UpToFourInjective(Run(c, pre), x, y);
    }
  }

  lemma RunWindow(c: bv32, pre: seq<byte>, x: seq<byte>, post: seq<byte>)
    ensures Run(c, pre + x + post) == Run(Run(Run(c, pre), x), post)
  {
    RunSplit(c, pre + x, post);
    RunSplit(c, pre, x);
  }

  // ----- published values

  lemma StepIs(c: bv32, b: byte, x: bv32, i: bv32, t: bv32, n: bv32)
    requires ByteBv(b) == x && Low(Xor(c, x)) == i && Tab(i) == t && Xor(t, Shr8(c)) == n
    ensures Next(c, b) == n
  {
    hide ByteBv, Low, Xor, Tab, Shr8;
  }

  lemma Digits1()
    ensures Next(0xFFFFFFFF, 0x31) == 0x6F0A661C
    ensures Next(0x6F0A661C, 0x32) == 0x8CAA3B9F
    ensures Next(0x8CAA3B9F, 0x33) == 0xEF84D04D
  {
    hide Next;
    StepIs(0xFFFFFFFF, 0x31, 0x31, 0xCE, 0x6FF599E3, 0x6F0A661C);
    StepIs(0x6F0A661C, 0x32, 0x32, 0x2E, 0x8CC531F9, 0x8CAA3B9F);
    StepIs(0x8CAA3B9F, 0x33, 0x33, 0xAC, 0xEF087A76, 0xEF84D04D);
  }

  lemma Digits2()
    ensures Next(0xEF84D04D, 0x34) == 0x09C50B11
    ensures Next(0x09C50B11, 0x35) == 0xE72EDCCA
    ensures Next(0xE72EDCCA, 0x36) == 0xBECA8E79
  {
    hide Next;
    StepIs(0xEF84D04D, 0x34, 0x34, 0x79, 0x092A8FC1, 0x09C50B11);
    StepIs(0x09C50B11, 0x35, 0x35, 0x24, 0xE72719C1, 0xE72EDCCA);
    StepIs(0xE72EDCCA, 0x36, 0x36, 0xFC, 0xBE2DA0A5, 0xBECA8E79);
  }

  lemma Digits3()
    ensures Next(0xBECA8E79, 0x37) == 0xEDBD6815
    ensures Next(0xEDBD6815, 0x38) == 0x9F787F65
    ensures Next(0x9F787F65, 0x39) == 0x1CF96D7C
  {
    hide Next;
    StepIs(0xBECA8E79, 0x37, 0x37, 0x4E, 0xED03A29B, 0xEDBD6815);
    StepIs(0xEDBD6815, 0x38, 0x38, 0x2D, 0x9F95C20D, 0x9F787F65);
    StepIs(0x9F787F65, 0x39, 0x39, 0x5C, 0x1C661503, 0x1CF96D7C);
  }

  lemma RunOfOne(c: bv32, b: byte)
    ensures Run(c, [b]) == Next(c, b)
  {
    hide Next;
    assert [b][1..] == [];
  }

  lemma RunOfThree(c: bv32, x: byte, y: byte, z: byte)
    ensures Run(c, [x, y, z]) == Next(Next(Next(c, x), y), z)
  {
    hide Next, Run;
    RunCons(c, x, [y, z]);
    RunCons(Next(c, x), y, [z]);
    RunOfOne(Next(Next(c, x), y), z);
    assert [x, y, z] == [x] + [y, z] && [y, z] == [y] + [z];
  }

  lemma RunOfDigits()
    ensures Run(0xFFFF_FFFF, [0x31, 0x32, 0x33, 0x34, 0x35, 0x36, 0x37, 0x38, 0x39]) == 0x1CF96D7C
  {
    hide Next, Run;
    Digits1();
    Digits2();
    Digits3();
    var a: seq<byte>, b: seq<byte>, c: seq<byte> := [0x31, 0x32, 0x33], [0x34, 0x35, 0x36], [0x37, 0x38, 0x39];
    assert [0x31, 0x32, 0x33, 0x34, 0x35, 0x36, 0x37, 0x38, 0x39] == a + b + c;
    RunSplit(0xFFFF_FFFF, a + b, c);
    RunSplit(0xFFFF_FFFF, a, b);
    RunOfThree(0xFFFF_FFFF, 0x31, 0x32, 0x33);
    RunOfThree(0xEF84D04D, 0x34, 0x35, 0x36);
    RunOfThree(0xBECA8E79, 0x37, 0x38, 0x39);
  }

  lemma StepOfA()
    ensures Next(0xFFFF_FFFF, 0x61) == 0x3E2FBCCF
  {
    hide Next;
    StepIs(0xFFFF_FFFF, 0x61, 0x61, 0x9E, 0x3ED04330, 0x3E2FBCCF);
  }

  lemma CrcIs(data: seq<byte>, c: bv32)
    requires Run(0xFFFF_FFFF, data) == c
    ensures Crc(data) == ToU32(Not(c))
  {
    hide Run, ToU32;
  }

  /** The values the tests name: of nothing, of "a" and of "123456789". */
  lemma PublishedCrcs()
    ensures Crc([]) == 0 && Crc([0x61]) == 0xC1D0_4330
    ensures Crc([0x31, 0x32, 0x33, 0x34, 0x35, 0x36, 0x37, 0x38, 0x39]) == 0xE306_9283
  {
    hide Run, Next, Crc;
    NothingRun();
    CrcIs([], 0xFFFF_FFFF);
    StepOfA();
    RunOfOne(0xFFFF_FFFF, 0x61);
    CrcIs([0x61], 0x3E2FBCCF);
    RunOfDigits();
    CrcIs([0x31, 0x32, 0x33, 0x34, 0x35, 0x36, 0x37, 0x38, 0x39], 0x1CF96D7C);
  }

  lemma NothingRun()
    ensures Run(0xFFFF_FFFF, []) == 0xFFFF_FFFF
  {}
}
