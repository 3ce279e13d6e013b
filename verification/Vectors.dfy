/** Values that published formats fix: base-128 integers, the canonical code of section 3.2.2 of RFC 1951, bits packed
    from the low end, the code table's nibbles, LZB's tokens, and the matcher's parameters
    (src/codec/xq_codec_lzb.c:29-79, 226-256, src/common/xq_huff.c:135-178). */
module Vectors {
  import opened Bytes
  import opened HuffCode
  import opened HuffStream
  import opened LzbStream
  import opened LzbParse
  import HuffTree
  import BitIO
  import Varint

  // ----- base-128 integers

  /** 300, the example everyone gives, and the edges of one byte and two. */
  lemma PublishedVarints()
    ensures Varint.Put(0) == [0x00] && Varint.Put(127) == [0x7F] && Varint.Put(128) == [0x80, 0x01]
    ensures Varint.Put(300) == [0xAC, 0x02] && Varint.Put(16383) == [0xFF, 0x7F] && Varint.Put(16384) == [0x80, 0x80, 0x01]
  {
    assert Varint.Put(1) == [0x01] && Varint.Put(2) == [0x02];
    assert Varint.Put(128 / 0x80) == [0x01];
  }

  lemma ReadOn(src: seq<byte>, pos: nat, v: nat, shift: nat)
    requires shift < 64 && pos < |src| && src[pos] >= 0x80
    ensures Varint.GetFrom(src, pos, v, shift)
            == if shift + 7 >= 64 then None
               else Varint.GetFrom(src, pos + 1, v + Varint.Part(src[pos] as int % 0x80, shift), shift + 7)
  {}

  /** Where nine bytes with the high bit set lead: to the tenth at bit 63. */
  lemma {:induction false} NineBytes(src: seq<byte>, k: nat, v: nat)
    requires k <= 9 <= |src| && (forall i :: 0 <= i < 9 ==> src[i] == 0xFF) && v == Pow2(7 * k) - 1
    ensures Varint.GetFrom(src, k, v, 7 * k) == Varint.GetFrom(src, 9, Pow2(63) - 1, 63)
    decreases 9 - k
  {
    hide Varint.GetFrom, Pow2;
    if k == 9 {
      assert 7 * k == 63;
    } else {
      ReadOn(src, k, v, 7 * k);
      Digits(7 * k);
      NineBytes(src, k + 1, v + Varint.Part(0x7F, 7 * k));
      assert 7 * (k + 1) == 7 * k + 7;
    }
  }

  lemma Digits(s: nat)
    requires s < 63
    ensures Varint.Part(0x7F, s) == Pow2(s + 7) - Pow2(s)
  {
    hide Pow2, Shl;
    ShlIsProduct(0x7F, s);
    Pow2Add(s, 7);
    Pow2Values();
  }

  /** The largest value takes ten bytes; an eleventh, and a string that breaks off, are refused. */
  lemma VarintEdges(src: seq<byte>)
    requires |src| >= 9 && forall i :: 0 <= i < 9 ==> src[i] == 0xFF
    ensures |src| == 9 ==> Varint.Get(src, 0) == None
    ensures |src| >= 10 && src[9] == 0x01 ==> Varint.Get(src, 0) == Some((0xFFFF_FFFF_FFFF_FFFF, 10))
    ensures |src| >= 10 && src[9] >= 0x80 ==> Varint.Get(src, 0) == None
    ensures Varint.Get([], 0) == None && Varint.Get([0x80], 0) == None
  {
    NineBytes(src, 0, 0);
    assert Pow2(0) == 1;
    Pow2Values();
    assert Varint.Part(1, 63) == Shl(1, 63);
    ShlOne(63);
    hide Pow2, Shl;
  }

  // ----- the example of RFC 1951

  /** The lengths of A to H. */
  const RFC_LENGTHS: seq<nat> := [3, 3, 3, 3, 3, 2, 4, 4]

  lemma CountNone(b: nat)
    ensures Count([], b) == 0
  {}

  lemma CountSnoc(l: seq<nat>, x: nat, b: nat)
    requires b > 0
    ensures Count(l + [x], b) == Count(l, b) + if x == b then 1 else 0
  {
    assert (l + [x])[..|l|] == l;
  }

  /** Symbols before symbol `i` with a code of `b` bits. */
  lemma RfcThrees(b: nat)
    requires b > 0
    ensures Count([3], b) == (if b == 3 then 1 else 0) && Count([3, 3], b) == if b == 3 then 2 else 0
    ensures Count([3, 3, 3], b) == (if b == 3 then 3 else 0) && Count([3, 3, 3, 3], b) == if b == 3 then 4 else 0
    ensures Count([3, 3, 3, 3, 3], b) == if b == 3 then 5 else 0
  {
    hide Count;
    CountNone(b);
    CountSnoc([], 3, b);
    CountSnoc([3], 3, b);
    CountSnoc([3, 3], 3, b);
    CountSnoc([3, 3, 3], 3, b);
    CountSnoc([3, 3, 3, 3], 3, b);
    assert [] + [3] == [3] && [3] + [3] == [3, 3] && [3, 3] + [3] == [3, 3, 3] && [3, 3, 3] + [3] == [3, 3, 3, 3];
    assert [3, 3, 3, 3] + [3] == [3, 3, 3, 3, 3];
  }

  lemma RfcCounts(b: nat)
    requires b > 0
    ensures Count([3, 3, 3, 3, 3, 2], b) == if b == 3 then 5 else if b == 2 then 1 else 0
    ensures Count([3, 3, 3, 3, 3, 2, 4], b) == if b == 3 then 5 else if b == 2 || b == 4 then 1 else 0
    ensures Count(RFC_LENGTHS, b) == if b == 3 then 5 else if b == 2 then 1 else if b == 4 then 2 else 0
  {
    hide Count;
    RfcThrees(b);
    CountSnoc([3, 3, 3, 3, 3], 2, b);
    CountSnoc([3, 3, 3, 3, 3, 2], 4, b);
    CountSnoc([3, 3, 3, 3, 3, 2, 4], 4, b);
    assert [3, 3, 3, 3, 3] + [2] == [3, 3, 3, 3, 3, 2];
    assert [3, 3, 3, 3, 3, 2] + [4] == [3, 3, 3, 3, 3, 2, 4] && [3, 3, 3, 3, 3, 2, 4] + [4] == RFC_LENGTHS;
  }

  lemma RfcFirsts()
    ensures First(RFC_LENGTHS, 2) == 0 && First(RFC_LENGTHS, 3) == 2 && First(RFC_LENGTHS, 4) == 14
  {
    hide Count;
    RfcCounts(1);
    RfcCounts(2);
    RfcCounts(3);
    assert Filled(RFC_LENGTHS, 0) == 0;
    assert Filled(RFC_LENGTHS, 1) == 0;
    assert Filled(RFC_LENGTHS, 2) == 1;
    assert Filled(RFC_LENGTHS, 3) == 7;
  }

  lemma RfcCode(i: nat, before: seq<nat>, k: nat, first: nat)
    requires i < 8 && RFC_LENGTHS[..i] == before && Count(before, RFC_LENGTHS[i]) == k && First(RFC_LENGTHS, RFC_LENGTHS[i]) == first
    ensures CodeBits(RFC_LENGTHS, i) == MsbBits(first + k, RFC_LENGTHS[i])
  {
    hide Count, First, MsbBits;
  }

  lemma RfcBits()
    ensures MsbBits(0, 2) == [false, false]
    ensures MsbBits(2, 3) == [false, true, false] && MsbBits(3, 3) == [false, true, true] && MsbBits(4, 3) == [true, false, false]
    ensures MsbBits(5, 3) == [true, false, true] && MsbBits(6, 3) == [true, true, false]
    ensures MsbBits(14, 4) == [true, true, true, false] && MsbBits(15, 4) == [true, true, true, true]
  {}

  /** The code of section 3.2.2 of RFC 1951: A to E are 010 to 110, F is 00, G is 1110 and H is 1111. */
  lemma RfcExample()
    ensures CodeBits(RFC_LENGTHS, 0) == [false, true, false] && CodeBits(RFC_LENGTHS, 1) == [false, true, true]
    ensures CodeBits(RFC_LENGTHS, 2) == [true, false, false] && CodeBits(RFC_LENGTHS, 3) == [true, false, true]
    ensures CodeBits(RFC_LENGTHS, 4) == [true, true, false] && CodeBits(RFC_LENGTHS, 5) == [false, false]
    ensures CodeBits(RFC_LENGTHS, 6) == [true, true, true, false] && CodeBits(RFC_LENGTHS, 7) == [true, true, true, true]
  {
    hide Count, First, MsbBits, CodeBits;
    CountNone(3);
    RfcThrees(2);
    RfcThrees(3);
    RfcThrees(4);
    RfcCounts(2);
    RfcCounts(3);
    RfcCounts(4);
    RfcFirsts();
    RfcBits();
    RfcCode(0, [], 0, 2);
    RfcCode(1, [3], 1, 2);
    RfcCode(2, [3, 3], 2, 2);
    RfcCode(3, [3, 3, 3], 3, 2);
    RfcCode(4, [3, 3, 3, 3], 4, 2);
    RfcCode(5, [3, 3, 3, 3, 3], 0, 0);
    RfcCode(6, [3, 3, 3, 3, 3, 2], 0, 14);
    RfcCode(7, [3, 3, 3, 3, 3, 2, 4], 1, 14);
  }

  // ----- bits and bytes

  /** The first bit of a stream is the lowest of its first byte. */
  lemma FirstBitIsLowest()
    ensures BitIO.Pack([true]) == [0x01] && BitIO.Pack([false, true]) == [0x02]
    ensures BitIO.Pack([false, false, false, false, false, false, false, true, true]) == [0x80, 0x01]
  {
    assert [true][1..] == [] && [false, true][1..] == [true];
    var b := [false, false, false, false, false, false, false, true, true];
    assert b[8..] == [true];
    assert b[..8] == [false, false, false, false, false, false, false, true];
    LastOfEight();
    hide Lsb;
    assert BitIO.ToByte(b[..8]) == 0x80;
  }

  lemma LastOfEight()
    ensures Lsb([false, false, false, false, false, false, false, true]) == 0x80
    ensures Lsb([true]) == 1 && Lsb([false, true]) == 2
  {
    assert [true][1..] == [];
    assert [false, true][1..] == [true];
    assert [false, false, true][1..] == [false, true];
    assert [false, false, false, true][1..] == [false, false, true];
    assert [false, false, false, false, true][1..] == [false, false, false, true];
    assert [false, false, false, false, false, true][1..] == [false, false, false, false, true];
    assert [false, false, false, false, false, false, true][1..] == [false, false, false, false, false, true];
    assert [false, false, false, false, false, false, false, true][1..] == [false, false, false, false, false, false, true];
  }

  /** Symbol `2 k` has the low half of the table's byte `k`, the next one the high half. */
  lemma TableNibbles(lens: seq<nat>, k: nat)
    requires |lens| == HuffTree.SYMBOLS && (forall i :: 0 <= i < HuffTree.SYMBOLS ==> lens[i] < 0x10) && k < TABLE_BYTES
    ensures StoreTable(lens)[k] as int % 0x10 == lens[2 * k] && StoreTable(lens)[k] as int / 0x10 == lens[2 * k + 1]
  {}

  // ----- LZB tokens

  /** Lengths that fit a token, the first that do not, and where the literals stand. */
  lemma Tokens(lits: seq<byte>)
    requires |lits| == 20
    ensures SeqBytes(Sequence([], 0, 0)) == [0x00]
    ensures SeqBytes(Sequence([], 7, 4)) == [0x01, 0x07] && SeqBytes(Sequence([], 7, 17)) == [0x0E, 0x07]
    ensures SeqBytes(Sequence([], 7, 18)) == [0x0F, 0x07, 0x00] && SeqBytes(Sequence([], 300, 20)) == [0x0F, 0xAC, 0x02, 0x02]
    ensures SeqBytes(Sequence([0xAA, 0xBB], 1, 5)) == [0x22, 0xAA, 0xBB, 0x01]
    ensures SeqBytes(Sequence(lits, 0, 0)) == [0xF0, 0x05] + lits
  {
    PublishedVarints();
    assert Varint.Put(7) == [0x07] && Varint.Put(2) == [0x02] && Varint.Put(1) == [0x01] && Varint.Put(5) == [0x05];
    hide Varint.Put;
  }

  /** What the decoder makes of a first token without a match, and with one. */
  lemma FirstToken(src: seq<byte>, dict: seq<byte>, cap: nat, n: nat, ip: nat)
    requires src != [] && ReadLits(src, 0) == Some((n, ip)) && n <= |src| - ip && n <= cap
    ensures var mcode := src[0] as int % 0x10;
            Decode(src, dict, cap)
            == if mcode == 0 then Success(src[ip..ip + n])
               else match ReadMatch(src, ip + n, mcode)
                    case None => Failure(ErrCorruptBlock)
                    case Some((dist, mlen, ip2)) =>
                      if dist > n + |dict| then Failure(ErrCorruptBlock)
                      else if mlen > cap - n then Failure(ErrDstTooSmall)
                      else DecodeFrom(src, ip2, dict, cap, Copy(dict, src[ip..ip + n], dist, mlen))
  {
    hide ReadLits, ReadMatch, Copy;
    assert [] + src[ip..ip + n] == src[ip..ip + n];
  }

  /** A distance of zero, one beyond the text, and one that breaks off are corrupt; so are literals that break off and
      a length that does. */
  lemma CorruptStreams(dict: seq<byte>)
    requires |dict| <= 4
    ensures Decode([0x01, 0x00], dict, 10) == Failure(ErrCorruptBlock) && Decode([0x01, 0x05], dict, 10) == Failure(ErrCorruptBlock)
    ensures Decode([0x01], dict, 10) == Failure(ErrCorruptBlock)
    ensures Decode([0x20, 0xAA], dict, 10) == Failure(ErrCorruptBlock) && Decode([0xF0], dict, 10) == Failure(ErrCorruptBlock)
  {
    assert Varint.Get([0x01, 0x00], 1) == Some((0, 2)) && Varint.Get([0x01, 0x05], 1) == Some((5, 2));
    assert Varint.Get([0x01], 1) == None && Varint.Get([0xF0], 1) == None;
    hide Varint.Get, DecodeFrom, Copy, Decode;
    FirstToken([0x01, 0x00], dict, 10, 0, 1);
    FirstToken([0x01, 0x05], dict, 10, 0, 1);
    FirstToken([0x01], dict, 10, 0, 1);
    BrokenLits(dict);
  }

  lemma BrokenLits(dict: seq<byte>)
    ensures Decode([0x20, 0xAA], dict, 10) == Failure(ErrCorruptBlock) && Decode([0xF0], dict, 10) == Failure(ErrCorruptBlock)
  {
    assert ReadLits([0x20, 0xAA], 0) == Some((2, 1));
    assert Varint.Get([0xF0], 1) == None;
    assert ReadLits([0xF0], 0) == None;
    hide ReadLits, ReadMatch, Copy;
  }

  /** Text that does not fit is too much, whether literals or a match run over; nothing decodes to nothing, and bytes
      behind the end are not looked at. */
  lemma OverfullStreams(dict: seq<byte>)
    ensures Decode([0x20, 0xAA, 0xBB], dict, 1) == Failure(ErrDstTooSmall) && Decode([0x11, 0xAA, 0x01], dict, 4) == Failure(ErrDstTooSmall)
    ensures Decode([], dict, 10) == Success([]) && Decode([0x00, 0xAA], dict, 10) == Success([])
  {
    assert Varint.Get([0x11, 0xAA, 0x01], 2) == Some((1, 3));
    LiteralsOverrun(dict);
    hide Varint.Get, Copy, DecodeFrom;
    FirstToken([0x11, 0xAA, 0x01], dict, 4, 1, 1);
    FirstToken([0x00, 0xAA], dict, 10, 0, 1);
    assert [0x00, 0xAA][1..1] == [];
  }

  lemma LiteralsOverrun(dict: seq<byte>)
    ensures Decode([0x20, 0xAA, 0xBB], dict, 1) == Failure(ErrDstTooSmall) && Decode([], dict, 10) == Success([])
  {
    assert ReadLits([0x20, 0xAA, 0xBB], 0) == Some((2, 1));
    hide ReadLits, ReadMatch, Copy;
  }

  // ----- the matcher's parameters

  /** How many cells a search looks at, level by level. */
  lemma Depths()
    ensures DepthFor(1) == 4 && DepthFor(2) == DepthFor(3) == 8 && DepthFor(4) == DepthFor(5) == 16
    ensures DepthFor(6) == DepthFor(7) == 32 && DepthFor(8) == DepthFor(9) == 64
    ensures DepthFor(10) == DepthFor(11) == DepthFor(12) == 128
  {}

  /** A table has the fewest slots that are at least as many as bytes, from 2^12 to 2^22. */
  lemma TableSize(n: nat)
    ensures var r := HlogFor(n); 12 <= r <= 22 && (r < 22 ==> n <= Pow2(r)) && (r > 12 ==> Pow2(r - 1) < n)
  {
    SizeFrom(12, n);
  }

  lemma {:induction false} SizeFrom(h: nat, n: nat)
    requires 12 <= h <= 22 && (h > 12 ==> Pow2(h - 1) < n)
    ensures var r := HlogFrom(h, n); h <= r <= 22 && (r < 22 ==> n <= Pow2(r)) && (r > 12 ==> Pow2(r - 1) < n)
    decreases 22 - h
  {
    hide Pow2;
    if h < 22 && Pow2(h) < n {
      SizeFrom(h + 1, n);
    }
  }

  /** Hashes multiply by 2654435761 and keep the top bits. */
  lemma Hashes()
    ensures Hash4(1, 32) == 2654435761 && Hash4(2, 32) == 1013904226 && Hash4(1, 16) == 40503 && Hash4(0xFFFF_FFFF, 12) == 1564
  {
    Pow2Values();
    assert Pow2(20) == 0x10_0000 by { Pow2Add(12, 8); }
    assert Pow2(0) == 1;
    assert HashMul(1) == 2654435761 && HashMul(2) == 1013904226 && HashMul(0xFFFF_FFFF) == 1640531535;
  }
}
