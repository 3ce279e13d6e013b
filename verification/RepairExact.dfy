/** Repairing an undamaged file of less than four gigabytes: whatever its checksums happen to be, nothing
    behind its blocks decodes as a block (src/core/xq_repair.c:118-158, 193-276). */
module RepairExact {
  import opened Bytes
  import opened Format
  import opened Codec
  import opened Container
  import opened ContainerProof
  import opened FileSpec
  import opened LzbStream
  import opened LzeStream
  import opened Repair
  import Crc32c
  import Varint

  const SMALL := 0x1_0000_0000
  const MANY := 0xF_FFF0

  // ----- what a payload can expand to

  ghost function Expanded(id: byte, p: seq<byte>, dict: seq<byte>, cap: nat): Result<seq<byte>> {
    if id == 1 then Decode(p, dict, cap) else if id == 2 then LzeDecode(p, dict, cap) else Failure(ErrUnsupportedCodec)
  }

  /** Some dictionary and capacity make `n` bytes of it. */
  ghost predicate Yields(id: byte, p: seq<byte>, n: nat) {
    exists dict: seq<byte>, cap: nat :: Expanded(id, p, dict, cap).Success? && |Expanded(id, p, dict, cap).value| == n
  }

  lemma EndsAtOnce(p: seq<byte>, dict: seq<byte>, cap: nat)
    requires p == [] || p[0] == 0
    ensures Decode(p, dict, cap) == Success([])
  {
    if p != [] {
      assert [] + p[1..1] == [];
    }
  }

  lemma LacksLiterals(p: seq<byte>, dict: seq<byte>, cap: nat)
    requires 0 < |p| <= 4 && p[0] == 0x58
    ensures Decode(p, dict, cap).Failure?
  {}

  /** Zeros in front end both kinds of stream at once, and so does a zero before the footer's magic. */
  lemma ZeroYieldsNothing(id: byte, p: seq<byte>, n: nat)
    requires Yields(id, p, n) && (p != [] ==> p[0] == 0)
    requires |p| > 1 ==> p[1] == 0 || (p[1] == 0x58 && |p| <= 5)
    ensures n == 0
  {
    hide Decode;
    var dict: seq<byte>, cap: nat :| Expanded(id, p, dict, cap).Success? && |Expanded(id, p, dict, cap).value| == n;
    EndsAtOnce(p, dict, cap);
    if p != [] {
      if |p| > 1 && p[1] == 0x58 {
        LacksLiterals(p[1..], dict, cap);
      } else {
        EndsAtOnce(p[1..], dict, cap);
      }
    }
  }

  /** One byte of a variable-length integer, when no more than one is left. */
  lemma LastByte(src: seq<byte>, pos: nat)
    requires pos + 1 >= |src|
    ensures var r := Varint.Get(src, pos); r.Some? ==> r.value.0 < 0x80 && r.value.1 == |src|
  {
    if pos < |src| {
      assert Varint.Part(src[pos] as int % 0x80, 0) == src[pos] as int % 0x80;
    }
  }

  lemma OneByteIsFew(src: seq<byte>, ip: nat, dict: seq<byte>, cap: nat, out: seq<byte>)
    requires ip + 1 >= |src| && |out| <= cap
    ensures var r := DecodeFrom(src, ip, dict, cap, out); r.Success? ==> r.value == out
  {
    if ip < |src| {
      assert out + src[ip + 1..ip + 1] == out;
    }
  }

  lemma MatchIsShort(src: seq<byte>, ip: nat, mcode: nat)
    requires 1 <= mcode < 0x10 && ip + 2 >= |src|
    ensures var r := ReadMatch(src, ip, mcode); r.Some? ==> r.value.1 <= 0x91 && (r.value.2 + 1 >= |src|)
  {
    hide Varint.Get;
    var d := Varint.Get(src, ip);
    if d.Some? {
      LastByte(src, d.value.1);
    }
  }

  lemma ThreeBytesAreFew(src: seq<byte>, dict: seq<byte>, cap: nat)
    requires |src| <= 3
    ensures var r := Decode(src, dict, cap); r.Success? ==> |r.value| <= 0xFF
  {
    if src != [] {
      var litlen, mcode := src[0] as int / 0x10, src[0] as int % 0x10;
      if litlen <= |src| - 1 && litlen <= cap && mcode != 0 {
        var out := [] + src[1..1 + litlen];
        MatchIsShort(src, 1 + litlen, mcode);
        var m := ReadMatch(src, 1 + litlen, mcode);
        hide ReadMatch;
        if m.Some? && 1 <= m.value.0 <= |out| + |dict| && m.value.1 <= cap - |out| {
          OneByteIsFew(src, m.value.2, dict, cap, Copy(dict, out, m.value.0, m.value.1));
        }
      }
    }
  }

  lemma FewYieldLittle(id: byte, p: seq<byte>, n: nat)
    requires Yields(id, p, n) && |p| <= 3
    ensures n <= 0xFF
  {
    hide Decode;
    var dict: seq<byte>, cap: nat :| Expanded(id, p, dict, cap).Success? && |Expanded(id, p, dict, cap).value| == n;
    ThreeBytesAreFew(p, dict, cap);
    if p != [] {
      ThreeBytesAreFew(p[1..], dict, cap);
    }
  }

  // ----- what would have to stand at a position for a block to be recovered there

  ghost predicate Good(c: Salvage, h: BlockHeader, payload: seq<byte>) {
    var r := BlockRaw(Ctx(c.codec, c.checksum, c.maxRaw, 0, c.dict, 0), h, payload);
    r.Success? && |r.value| == h.rawSize as int
  }

  /** The bytes at `q` are a plausible block header with enough bytes behind it, and what stands there is
      the block itself, or expands to it. The header's CRC is not looked at. */
  ghost predicate Alive(c: Salvage, f: seq<byte>, q: nat) {
    && q + BLOCK_HEADER_SIZE <= |f| && f[q] == 0x0C && f[q + 1] == 0xB1
    && var n, raw := Ld32(f, q + 4) as int, Ld32(f, q + 8) as int;
       && 0 < raw <= BLOCK_MAX && n <= raw + raw / 8 + 1024 && q + BLOCK_HEADER_SIZE + n + ChecksumSize(c.checksum) <= |f|
       && (n == raw || (f[q + 3] in {1, 2} && Yields(f[q + 3], f[q + BLOCK_HEADER_SIZE..q + BLOCK_HEADER_SIZE + n], raw)))
  }

  ghost predicate Recovers(c: Salvage, f: seq<byte>, q: nat) {
    HeaderAt(f, q).Success? && DecodeAt(c, f, q, HeaderAt(f, q).value).Success?
  }

  lemma PayloadYields(c: Salvage, h: BlockHeader, payload: seq<byte>)
    requires h.storedSize as int == |payload| && (StoredFlag(h.bflags) ==> h.storedSize == h.rawSize)
    requires Good(c, h, payload)
    ensures h.storedSize == h.rawSize || (h.codecId in {1, 2} && Yields(h.codecId, payload, h.rawSize as int))
  {
    hide Decode, LzeDecode;
    var dict := if DictFlag(h.bflags) && c.dict.Some? then c.dict.value else [];
    assert h.codecId == 1 || h.codecId == 2 ==> Expanded(h.codecId, payload, dict, c.maxRaw) == if h.codecId == 1 then Decode(payload, dict, c.maxRaw) else LzeDecode(payload, dict, c.maxRaw);
  }

  lemma HeaderShows(f: seq<byte>, q: nat)
    requires HeaderAt(f, q).Success?
    ensures q + BLOCK_HEADER_SIZE <= |f| && f[q] == 0x0C && f[q + 1] == 0xB1
    ensures var h := HeaderAt(f, q).value;
            && Plausible(h) && h.codecId == f[q + 3] && h.storedSize == Ld32(f, q + 4) && h.rawSize == Ld32(f, q + 8)
  {
    hide Crc32c.Crc;
    var s := f[q..q + BLOCK_HEADER_SIZE];
    assert s[0] == f[q] && s[1] == f[q + 1] && s[3] == f[q + 3];
    assert Ld32(s, 4) == Ld32(f, q + 4) && Ld32(s, 8) == Ld32(f, q + 8);
  }

  lemma TakeOfSlice(f: seq<byte>, a: nat, n: nat, k: nat)
    requires a + n + k <= |f|
    ensures f[a..a + (n + k)][..n] == f[a..a + n]
  {}

  lemma DecodedSlice(c: Salvage, f: seq<byte>, q: nat, h: BlockHeader)
    requires DecodeAt(c, f, q, h).Success?
    ensures q + Extent(c, h) <= |f|
    ensures Good(c, h, f[q + BLOCK_HEADER_SIZE..q + Extent(c, h)][..h.storedSize as int])
  {
    hide BlockRaw, ChecksumBytes, StagingCap;
  }

  lemma DecodedPayload(c: Salvage, f: seq<byte>, q: nat, h: BlockHeader)
    requires DecodeAt(c, f, q, h).Success?
    ensures var a, n := q + BLOCK_HEADER_SIZE, h.storedSize as int; a + n + ChecksumSize(c.checksum) <= |f| && Good(c, h, f[a..a + n])
  {
    hide Good, DecodeAt, ChecksumSize;
    DecodedSlice(c, f, q, h);
    TakeOfSlice(f, q + BLOCK_HEADER_SIZE, h.storedSize as int, ChecksumSize(c.checksum));
  }

  lemma RecoveredIsAlive(c: Salvage, f: seq<byte>, q: nat)
    requires Recovers(c, f, q)
    ensures Alive(c, f, q)
  {
    hide HeaderAt, DecodeAt, Good, Yields, Ld32;
    HeaderShows(f, q);
    var h := HeaderAt(f, q).value;
    DecodedPayload(c, f, q, h);
    var a := q + BLOCK_HEADER_SIZE;
    PayloadYields(c, h, f[a..a + h.storedSize as int]);
  }

  // ----- the bytes behind the blocks

  /** The high half of the 64-bit integer at `p` is zero. */
  predicate HighZero(f: seq<byte>, p: nat) {
    p + 8 <= |f| && f[p + 4] == 0 && f[p + 5] == 0 && f[p + 6] == 0 && f[p + 7] == 0
  }

  /** The integer number `j` of an index payload. */
  predicate FieldAt(f: seq<byte>, b: nat, j: nat) {
    HighZero(f, b + 28 + 8 * j)
  }

  /** End-of-blocks record, index record of `n > 0` blocks and footer from `b` on, as far as they do not
      depend on the file: the footer starts at `b + 68 + 16 * n`. */
  predicate Layout(f: seq<byte>, b: nat, n: nat, sum: bool) {
    var e := b + 68 + 16 * n;
    && 0 < n <= MANY && |f| == e + FOOTER_SIZE
    && f[b] == REC_END_OF_BLOCKS && f[b + 1] == 1 && (forall i {:trigger f[i]} :: b + 2 <= i < b + 10 ==> f[i] == 0)
    && f[b + 14] == REC_INDEX && f[b + 15] == 0
    && HighZero(f, b + 16) && f[b + 19] == 0 && f[b + 16] >= 8
    && HighZero(f, b + 28) && f[b + 31] == 0
    && (forall j: nat :: j < 5 + 2 * n ==> FieldAt(f, b, j))
    && HighZero(f, e + 4) && HighZero(f, e + 12) && f[e + 28] == 0x58
    && (sum || (forall i {:trigger f[i]} :: e + 20 <= i < e + 28 ==> f[i] == 0))
  }

  predicate Summed(c: Salvage) { c.checksum != NoChecksum }

  lemma DeadInFront(c: Salvage, f: seq<byte>, b: nat, n: nat, q: nat)
    requires Layout(f, b, n, Summed(c)) && b <= q < b + 16
    ensures !Alive(c, f, q)
  {
    hide Yields;
  }

  lemma EmptyIsDead(c: Salvage, f: seq<byte>, q: nat)
    requires q + 8 <= |f| && Ld32(f, q + 4) == 0
    ensures !Alive(c, f, q)
  {
    hide Ld32, Yields;
    if Alive(c, f, q) {
      var raw := Ld32(f, q + 8) as int;
      assert f[q + BLOCK_HEADER_SIZE..q + BLOCK_HEADER_SIZE + 0] == [];
      ZeroYieldsNothing(f[q + 3], [], raw);
    }
  }

  /** A payload that starts with zeros and is not as long as what it should hold. */
  lemma ZerosAreDead(c: Salvage, f: seq<byte>, q: nat)
    requires q + 26 <= |f| && f[q + 24] == 0 && f[q + 25] == 0 && Ld32(f, q + 4) != Ld32(f, q + 8)
    ensures !Alive(c, f, q)
  {
    hide Ld32, Yields;
    if Alive(c, f, q) {
      var m, raw := Ld32(f, q + 4) as int, Ld32(f, q + 8) as int;
      ZeroYieldsNothing(f[q + 3], f[q + BLOCK_HEADER_SIZE..q + BLOCK_HEADER_SIZE + m], raw);
    }
  }

  lemma DeadInIndexHead(c: Salvage, f: seq<byte>, b: nat, n: nat, q: nat)
    requires Layout(f, b, n, Summed(c)) && b + 16 <= q < b + 28
    ensures !Alive(c, f, q)
  {
    hide Yields;
    assert FieldAt(f, b, 2);
    if q == b + 16 || q == b + 27 {
      hide Alive;
      EmptyIsDead(c, f, q);
    } else if (q == b + 25 || q == b + 26) && Ld32(f, q + 8) != 0 {
      hide Alive;
      ZerosAreDead(c, f, q);
    }
  }

  /** No codec: the block would have to be stored as it is. */
  lemma NoCodecIsWhole(c: Salvage, f: seq<byte>, q: nat)
    requires Alive(c, f, q) && f[q + 3] == 0
    ensures Ld32(f, q + 4) == Ld32(f, q + 8) != 0 && q + BLOCK_HEADER_SIZE + Ld32(f, q + 4) as int <= |f|
  {
    hide Yields, Ld32;
  }

  /** Inside a row of integers whose high halves are zero. */
  lemma DeadInField(c: Salvage, f: seq<byte>, p: nat, q: nat)
    requires HighZero(f, p) && p <= q < p + 8
    requires HighZero(f, p + 8) || |f| == p + 8 + FOOTER_SIZE
    ensures !Alive(c, f, q)
  {
    if q == p {
      hide Alive;
      EmptyIsDead(c, f, q);
    } else if q >= p + 3 {
      hide Yields, Ld32;
    } else {
      AcrossFields(f, p, q);
      hide Ld32, HighZero, Yields;
      if Alive(c, f, q) {
        NoCodecIsWhole(c, f, q);
      }
    }
  }

  /** Across the border of two such integers, sizes that agree are zero; across the last one they are huge. */
  lemma AcrossFields(f: seq<byte>, p: nat, q: nat)
    requires HighZero(f, p) && p < q < p + 3 && q + 12 <= |f|
    ensures f[q + 3] == 0
    ensures Ld32(f, q + 4) == Ld32(f, q + 8) != 0 ==> Ld32(f, q + 4) >= 0x1_0000 && !HighZero(f, p + 8)
  {
    if q == p + 1 {
    } else {
    }
  }

  lemma DeadInFields(c: Salvage, f: seq<byte>, b: nat, n: nat, q: nat)
    requires Layout(f, b, n, Summed(c)) && b + 28 <= q < b + 68 + 16 * n
    ensures !Alive(c, f, q)
  {
    hide Alive;
    var j := (q - b - 28) / 8;
    assert FieldAt(f, b, j);
    if j + 1 < 5 + 2 * n {
      assert FieldAt(f, b, j + 1);
    }
    DeadInField(c, f, b + 28 + 8 * j, q);
  }

  /** A few bytes that are not as long as what they should hold. */
  lemma FewAreDead(c: Salvage, f: seq<byte>, q: nat)
    requires q + BLOCK_HEADER_SIZE <= |f| <= q + 31 && (Ld32(f, q + 8) == 0 || Ld32(f, q + 8) > 0xFF) && (Ld32(f, q + 8) > 0xFF ==> Ld32(f, q + 4) != Ld32(f, q + 8))
    requires Summed(c) || ZerosAt(f, q + BLOCK_HEADER_SIZE)
    ensures !Alive(c, f, q)
  {
    hide Ld32, Yields;
    if Alive(c, f, q) {
      var a, m, raw := q + BLOCK_HEADER_SIZE, Ld32(f, q + 4) as int, Ld32(f, q + 8) as int;
      if Summed(c) {
        FewYieldLittle(f[q + 3], f[a..a + m], raw);
      } else {
        ZeroYieldsNothing(f[q + 3], f[a..a + m], raw);
      }
    }
  }

  lemma FooterSizes(c: Salvage, f: seq<byte>, b: nat, n: nat, q: nat)
    requires Layout(f, b, n, Summed(c)) && b + 68 + 16 * n < q < b + 72 + 16 * n
    ensures Ld32(f, q + 8) > 0xFF ==> Ld32(f, q + 4) != Ld32(f, q + 8)
    ensures Ld32(f, q + 8) > 0xFF || Ld32(f, q + 8) == 0
    ensures Summed(c) || ZerosAt(f, q + BLOCK_HEADER_SIZE)
  {
    hide FieldAt;
  }

  /** Two zeros, or one in front of what ends a footer. */
  predicate ZerosAt(f: seq<byte>, a: nat) {
    a + 1 < |f| <= a + 7 && f[a] == 0 && (f[a + 1] == 0 || (f[a + 1] == 0x58 && |f| <= a + 5))
  }

  lemma DeadInFooter(c: Salvage, f: seq<byte>, b: nat, n: nat, q: nat)
    requires Layout(f, b, n, Summed(c)) && b + 68 + 16 * n <= q
    ensures !Alive(c, f, q)
  {
    hide FieldAt, Alive;
    var e := b + 68 + 16 * n;
    if e + 4 <= q < e + 12 {
      DeadInField(c, f, e + 4, q);
    } else if e < q < e + 4 {
      FooterSizes(c, f, b, n, q);
      hide Ld32, ZerosAt;
      FewAreDead(c, f, q);
    } else {
      NoSizeIsDead(c, f, q);
    }
  }

  lemma NoSizeIsDead(c: Salvage, f: seq<byte>, q: nat)
    requires q + BLOCK_HEADER_SIZE <= |f| ==> Ld32(f, q + 8) == 0
    ensures !Alive(c, f, q)
  {
    hide Yields, Ld32;
  }

  /** No position behind the blocks can be recovered from. */
  lemma DeadBehind(c: Salvage, f: seq<byte>, b: nat, n: nat, q: nat)
    requires Layout(f, b, n, Summed(c)) && b <= q
    ensures !Alive(c, f, q)
  {
    hide Alive, Layout;
    if q < b + 16 {
      DeadInFront(c, f, b, n, q);
    } else if q < b + 28 {
      DeadInIndexHead(c, f, b, n, q);
    } else if q < b + 68 + 16 * n {
      DeadInFields(c, f, b, n, q);
    } else {
      DeadInFooter(c, f, b, n, q);
    }
  }

  // ----- what an encoded file has behind its blocks

  predicate RowAt(s: seq<byte>, j: nat) {
    HighZero(s, 8 * j)
  }

  /** Nothing but 64-bit integers below 2^32. */
  predicate Rows(s: seq<byte>) {
    |s| % 8 == 0 && forall j: nat :: j < |s| / 8 ==> RowAt(s, j)
  }

  lemma LowIsRow(v: uint64)
    requires v < SMALL
    ensures Rows(Le64(v))
  {
    assert Le32(0) == [0, 0, 0, 0];
    hide Le32;
    forall j: nat | j < 1
      ensures RowAt(Le64(v), j)
    {}
  }

  lemma RowsJoin(a: seq<byte>, b: seq<byte>)
    requires Rows(a) && Rows(b)
    ensures Rows(a + b)
  {
    forall j: nat | j < |a + b| / 8
      ensures RowAt(a + b, j)
    {
      if j < |a| / 8 {
        assert RowAt(a, j);
      } else {
        assert RowAt(b, j - |a| / 8);
      }
    }
  }

  lemma {:induction false} EntriesRows(es: seq<Entry>)
    requires Fits(es) && forall i :: 0 <= i < |es| ==> es[i].fileOffset < SMALL && es[i].rawOffset < SMALL
    ensures Rows(EntriesBytes(es))
    decreases |es|
  {
    if es != [] {
      hide Rows, Le64;
      LowIsRow(es[0].fileOffset);
      LowIsRow(es[0].rawOffset);
      RowsJoin(Le64(es[0].fileOffset), Le64(es[0].rawOffset));
      EntriesRows(es[1..]);
      RowsJoin(EntryBytes(es[0]), EntriesBytes(es[1..]));
    }
  }

  lemma PreambleRows(n: uint64, raw: uint64, stored: uint64)
    requires n < SMALL && raw < SMALL && stored < SMALL
    ensures Rows(Preamble(n, raw, stored))
  {
    hide Rows, Le64;
    LowIsRow(n);
    LowIsRow(raw);
    LowIsRow(stored);
    RowsJoin(Le64(n), Le64(raw));
    RowsJoin(Le64(n) + Le64(raw), Le64(stored));
  }

  lemma EobShows(pre: seq<byte>, post: seq<byte>)
    ensures var f, b := pre + EobBytes() + post, |pre|;
            f[b] == REC_END_OF_BLOCKS && f[b + 1] == 1 && forall i {:trigger f[i]} :: b + 2 <= i < b + 10 ==> f[i] == 0
  {
    hide Crc32c.Crc;
    assert Le32(0) == [0, 0, 0, 0];
    assert Le64(0) == [0, 0, 0, 0] + [0, 0, 0, 0];
    hide Le32, Le64;
    assert EobBytes()[..10] == RecordHead(REC_END_OF_BLOCKS, 1, 0);
    var f, b := pre + EobBytes() + post, |pre|;
    forall i | 0 <= i < 10
      ensures f[b + i] == RecordHead(REC_END_OF_BLOCKS, 1, 0)[i]
    {
      assert f[b + i] == EobBytes()[i];
    }
    forall i {:trigger f[i]} | b + 2 <= i < b + 10
      ensures f[i] == 0
    {
      assert f[b + (i - b)] == RecordHead(REC_END_OF_BLOCKS, 1, 0)[i - b];
    }
  }

  /** Not above a million the fourth byte is zero, and the size of an index payload has a low byte not
      below eight. */
  lemma ByteShows(v: uint64)
    requires v <= 16 * MANY + 40
    ensures Le64(v)[3] == 0 && Le64(v)[0] as int == v as int % 0x100
  {
    var w: uint32 := v as int % SMALL;
    assert Le64(v)[0] == Le32(w)[0] && Le64(v)[3] == Le32(w)[3];
  }

  lemma LowByte(n: nat)
    ensures (40 + 16 * n) % 0x100 >= 8
  {}

  lemma RecordShows(pre: seq<byte>, rows: seq<byte>, post: seq<byte>, n: nat, b: nat)
    requires Rows(rows) && |rows| == 40 + 16 * n && rows[3] == 0 && n <= MANY && |pre| == b + RECORD_HEADER_SIZE
    ensures var f := pre + RecordBytes(REC_INDEX, 0, rows) + post;
            && f[b + 14] == REC_INDEX && f[b + 15] == 0 && HighZero(f, b + 16) && f[b + 19] == 0 && f[b + 16] >= 8 && f[b + 31] == 0
            && forall j: nat :: j < 5 + 2 * n ==> FieldAt(f, b, j)
  {
    hide Crc32c.Crc;
    ByteShows(|rows|);
    LowByte(n);
    LowIsRow(|rows|);
    assert RowAt(Le64(|rows|), 0);
    hide Le32, Le64;
    var head := RecordHead(REC_INDEX, 0, |rows|);
    var crc := Le32(Crc32c.Crc(head + rows));
    var f := pre + RecordBytes(REC_INDEX, 0, rows) + post;
    assert f == pre + (head + crc + rows) + post;
    assert HighZero(f, b + 16);
    forall j: nat | j < 5 + 2 * n
      ensures FieldAt(f, b, j)
    {
      assert RowAt(rows, j);
    }
  }

  /** Behind its CRC a footer is three integers and the magic. */
  lemma FooterByte(pre: seq<byte>, t: Footer, i: nat)
    requires 4 <= i < FOOTER_SIZE
    ensures (pre + StoreFooter(t))[|pre| + i] == FooterBody(t)[i - 4]
  {
    hide FooterBody, Crc32c.Crc, Le32;
  }

  lemma BodyByte(t: Footer, i: nat)
    requires i < 8
    ensures var w := FooterBody(t);
            w[i] == Le64(t.indexOffset)[i] && w[8 + i] == Le64(t.indexSize)[i] && w[16 + i] == Le64(t.streamChecksum)[i]
    ensures i < 4 ==> FooterBody(t)[24 + i] == Le32(FOOTER_MAGIC)[i]
  {
    hide Le32, Le64;
  }

  lemma FooterIs(pre: seq<byte>, t: Footer, i: nat)
    requires i < 8
    ensures var f, e := pre + StoreFooter(t), |pre|;
            f[e + 4 + i] == Le64(t.indexOffset)[i] && f[e + 12 + i] == Le64(t.indexSize)[i] && f[e + 20 + i] == Le64(t.streamChecksum)[i]
    ensures i < 4 ==> (pre + StoreFooter(t))[|pre| + 28 + i] == Le32(FOOTER_MAGIC)[i]
  {
    hide FooterBody, StoreFooter, Le32, Le64;
    BodyByte(t, i);
    FooterByte(pre, t, 4 + i);
    FooterByte(pre, t, 12 + i);
    FooterByte(pre, t, 20 + i);
    if i < 4 {
      FooterByte(pre, t, 28 + i);
    }
  }

  lemma ZeroBytes(i: nat)
    requires i < 8
    ensures Le64(0)[i] == 0
  {
    assert Le32(0) == [0, 0, 0, 0];
    hide Le32;
  }

  lemma ZeroSum(pre: seq<byte>, t: Footer)
    requires t.streamChecksum == 0
    ensures var f, e := pre + StoreFooter(t), |pre|; forall i {:trigger f[i]} :: e + 20 <= i < e + 28 ==> f[i] == 0
  {
    hide StoreFooter, Le64;
    var f, e := pre + StoreFooter(t), |pre|;
    forall i {:trigger f[i]} | e + 20 <= i < e + 28
      ensures f[i] == 0
    {
      FooterIs(pre, t, i - e - 20);
      ZeroBytes(i - e - 20);
    }
  }

  lemma HighBytes(v: uint64)
    requires v < SMALL
    ensures Le64(v)[4] == 0 && Le64(v)[5] == 0 && Le64(v)[6] == 0 && Le64(v)[7] == 0
  {
    LowIsRow(v);
    assert RowAt(Le64(v), 0);
    hide Le64;
  }

  lemma MagicByte()
    ensures Le32(FOOTER_MAGIC)[0] == 0x58
  {}

  lemma FooterShows(pre: seq<byte>, t: Footer)
    requires t.indexOffset < SMALL && t.indexSize < SMALL
    ensures var f, e := pre + StoreFooter(t), |pre|;
            && |f| == e + FOOTER_SIZE && HighZero(f, e + 4) && HighZero(f, e + 12) && f[e + 28] == 0x58
            && (t.streamChecksum == 0 ==> forall i {:trigger f[i]} :: e + 20 <= i < e + 28 ==> f[i] == 0)
  {
    hide StoreFooter, Le32, Le64;
    MagicByte();
    HighBytes(t.indexOffset);
    HighBytes(t.indexSize);
    FooterIs(pre, t, 0);
    FooterIs(pre, t, 4);
    FooterIs(pre, t, 5);
    FooterIs(pre, t, 6);
    FooterIs(pre, t, 7);
    if t.streamChecksum == 0 {
      ZeroSum(pre, t);
    }
  }

  lemma TailLayout(pre: seq<byte>, rows: seq<byte>, n: nat, t: Footer)
    requires Rows(rows) && |rows| == 40 + 16 * n && rows[3] == 0 && 0 < n <= MANY && t.indexOffset < SMALL && t.indexSize < SMALL
    ensures Layout(pre + EobBytes() + RecordBytes(REC_INDEX, 0, rows) + StoreFooter(t), |pre|, n, t.streamChecksum != 0)
  {
    hide EobBytes, RecordBytes, StoreFooter, Rows;
    var eob, rec, foot := EobBytes(), RecordBytes(REC_INDEX, 0, rows), StoreFooter(t);
    EobShows(pre, rec + foot);
    RecordShows(pre + eob, rows, foot, n, |pre|);
    FooterShows(pre + eob + rec, t);
    assert pre + eob + (rec + foot) == pre + eob + rec + foot;
    var f, b := pre + eob + rec + foot, |pre|;
    assert FieldAt(f, b, 0);
    hide HighZero;
  }

  /** The file of an input without blocks: every size in reach is zero. */
  lemma EmptyTailIsDead(c: Salvage, pre: seq<byte>, sum: uint64, q: nat)
    requires |pre| <= q
    ensures !Alive(c, pre + EobBytes() + StoreFooter(Footer(0, 0, sum)), q)
  {
    var t := Footer(0, 0, sum);
    hide EobBytes, StoreFooter, Alive;
    EobShows(pre, StoreFooter(t));
    FooterIsZero(pre + EobBytes(), sum);
    ZeroTailIsDead(c, pre + EobBytes() + StoreFooter(t), |pre|, q);
  }

  lemma ZeroTailIsDead(c: Salvage, f: seq<byte>, b: nat, q: nat)
    requires |f| == b + RECORD_HEADER_SIZE + FOOTER_SIZE && f[b] == REC_END_OF_BLOCKS && f[b + 1] == 1
    requires forall i {:trigger f[i]} :: b + 2 <= i < b + 10 ==> f[i] == 0
    requires forall i {:trigger f[i]} :: b + 18 <= i < b + 34 ==> f[i] == 0
    requires b <= q
    ensures !Alive(c, f, q)
  {
    hide Ld32, Alive;
    if q < b + 10 {
      NoMagicIsDead(c, f, q);
    } else if q + BLOCK_HEADER_SIZE <= |f| {
      ZerosLoad(f, q + 8);
      NoSizeIsDead(c, f, q);
    } else {
      NoSizeIsDead(c, f, q);
    }
  }

  lemma NoMagicIsDead(c: Salvage, f: seq<byte>, q: nat)
    requires q + 1 < |f| && !(f[q] == 0x0C && f[q + 1] == 0xB1)
    ensures !Alive(c, f, q)
  {}

  lemma ZerosLoad(f: seq<byte>, p: nat)
    requires p + 4 <= |f| && f[p] == f[p + 1] == f[p + 2] == f[p + 3] == 0
    ensures Ld32(f, p) == 0
  {}

  lemma FooterIsZero(pre: seq<byte>, sum: uint64)
    ensures var f, e := pre + StoreFooter(Footer(0, 0, sum)), |pre|;
            forall i {:trigger f[i]} :: e + 4 <= i < e + 20 ==> f[i] == 0
  {
    hide StoreFooter, Le64;
    var t := Footer(0, 0, sum);
    var f, e := pre + StoreFooter(t), |pre|;
    forall i {:trigger f[i]} | e + 4 <= i < e + 20
      ensures f[i] == 0
    {
      var k := if i < e + 12 then i - e - 4 else i - e - 12;
      FooterIs(pre, t, k);
      ZeroBytes(k);
    }
  }

  // ----- undamaged files

  /** Below 2^32 bytes, in and out, and not above a million blocks. */
  predicate Small(d: Doc) {
    FileFits(d) && |FileBytes(d)| < SMALL && |Total(d.blocks)| < SMALL && |d.blocks| <= MANY
  }

  lemma EntriesAreSmall(d: Doc)
    requires Small(d)
    ensures Fits(DocEntries(d)) && FILE_HEADER_SIZE <= |MainBytes(d)| < SMALL
    ensures var es := DocEntries(d); forall i :: 0 <= i < |es| ==> es[i].fileOffset < SMALL && es[i].rawOffset < SMALL
  {
    hide Entries, MainBytes, FrontLen, Body, ValidConfig, Total, TailBytes;
    EntriesFit(d);
    MainLen(d);
    EntriesLast(d.cfg, d.blocks, d.jobs, FrontLen(d), 0);
    var es := DocEntries(d);
    forall i | 0 <= i < |es|
      ensures es[i].fileOffset < SMALL && es[i].rawOffset < SMALL
    {
      EntriesBounded(d.cfg, d.blocks, d.jobs, FrontLen(d), 0, i);
    }
  }

  lemma IndexRows(n: uint64, raw: uint64, stored: uint64, es: seq<Entry>)
    requires n <= MANY && raw < SMALL && stored < SMALL
    requires Fits(es) && forall i :: 0 <= i < |es| ==> es[i].fileOffset < SMALL && es[i].rawOffset < SMALL
    ensures Rows(Preamble(n, raw, stored) + EntriesBytes(es)) && (Preamble(n, raw, stored) + EntriesBytes(es))[3] == 0
  {
    hide Rows, Le64, EntriesBytes;
    PreambleRows(n, raw, stored);
    ByteShows(n);
    EntriesRows(es);
    RowsJoin(Preamble(n, raw, stored), EntriesBytes(es));
  }

  ghost function IndexPayload(d: Doc): seq<byte>
    requires Small(d)
  {
    EntriesAreSmall(d);
    Preamble(|d.blocks|, |Total(d.blocks)|, |MainBytes(d)| - FILE_HEADER_SIZE) + EntriesBytes(DocEntries(d))
  }

  lemma PayloadRows(d: Doc)
    requires Small(d)
    ensures var rows := IndexPayload(d); |rows| == 40 + 16 * |d.blocks| && Rows(rows) && rows[3] == 0
  {
    hide Rows, Fits, Preamble, DocEntries, EntriesBytes, MainBytes, Sized, Total, FileBytes;
    EntriesAreSmall(d);
    IndexRows(|d.blocks|, |Total(d.blocks)|, |MainBytes(d)| - FILE_HEADER_SIZE, DocEntries(d));
  }

  lemma IndexIsRows(d: Doc)
    requires Small(d) && d.blocks != []
    ensures |IndexPayload(d)| == 40 + 16 * |d.blocks| && DocIndex(d) == RecordBytes(REC_INDEX, 0, IndexPayload(d))
  {
    hide RecordBytes, Fits, Preamble, DocEntries, EntriesBytes, MainBytes, Sized, Total, FileBytes, FileFits;
    EntriesAreSmall(d);
  }

  lemma LayoutAsks(f: seq<byte>, b: nat, n: nat, sum: bool, sum': bool)
    requires Layout(f, b, n, sum) && (sum ==> sum')
    ensures Layout(f, b, n, sum')
  {
    hide HighZero, FieldAt;
  }

  lemma SumNeedsChecksum(d: Doc, c: Salvage)
    requires Suits(c, d.cfg) && StreamSum(d.cfg, Total(d.blocks)) != 0
    ensures Summed(c)
  {
    hide BlockSize, Total;
  }

  /** No position behind an undamaged file's blocks can be recovered from, whatever its checksums are. */
  lemma NothingBehind(d: Doc, c: Salvage, q: nat)
    requires Small(d) && Suits(c, d.cfg) && Behind(d) <= q
    ensures !Recovers(c, FileBytes(d), q)
  {
    hide Recovers, Alive, Layout, Rows, EobBytes, RecordBytes, StoreFooter, StreamSum, IndexPayload, DocIndex, Front,
         Body, ValidConfig, Total, Suits;
    var n := |d.blocks|;
    var pre := Front(d.cfg, d.hint, d.kind, d.dj) + Body(d.cfg, d.blocks, d.jobs, 0);
    EntriesAreSmall(d);
    assert MainBytes(d) == pre + EobBytes();
    var t := DocFooter(d);
    if n == 0 {
      NoIndex(d);
      assert FileBytes(d) == pre + EobBytes() + StoreFooter(t);
      EmptyTailIsDead(c, pre, t.streamChecksum, q);
    } else {
      PayloadRows(d);
      IndexIsRows(d);
      assert FileBytes(d) == pre + EobBytes() + RecordBytes(REC_INDEX, 0, IndexPayload(d)) + StoreFooter(t);
      TailLayout(pre, IndexPayload(d), n, t);
      if t.streamChecksum != 0 {
        SumNeedsChecksum(d, c);
      }
      LayoutAsks(FileBytes(d), |pre|, n, t.streamChecksum != 0, Summed(c));
      DeadBehind(c, FileBytes(d), |pre|, n, q);
    }
    if Recovers(c, FileBytes(d), q) {
      RecoveredIsAlive(c, FileBytes(d), q);
    }
  }

  lemma NoIndex(d: Doc)
    requires Small(d) && d.blocks == []
    ensures DocIndex(d) == []
  {
    hide Fits, DocEntries, MainBytes, Sized, Total, FileBytes, FileFits;
    EntriesAreSmall(d);
  }

  lemma {:induction false} StopsAreBehind(c: Salvage, file: seq<byte>, p: nat, q: nat)
    requires q in Stops(c, file, p)
    ensures p <= q
    decreases |file| - p
  {
    hide HeaderAt, DecodeAt;
    if HeaderAt(file, p).Failure? {
      StopsAreBehind(c, file, p + 1, q);
    } else if q != p {
      var h := HeaderAt(file, p).value;
      StopsAreBehind(c, file, p + if DecodeAt(c, file, p, h).Success? then Extent(c, h) else BLOCK_HEADER_SIZE, q);
    }
  }

  lemma SmallFits(d: Doc)
    requires Small(d)
    ensures FileFits(d) && Sized(d)
  {
    hide FileBytes, MainBytes, Sized;
  }

  /** Where the end-of-blocks record starts. */
  ghost function Behind(d: Doc): (p: nat)
    requires Small(d)
    ensures p == |MainBytes(d)| - RECORD_HEADER_SIZE
  {
    EntriesAreSmall(d);
    |MainBytes(d)| - RECORD_HEADER_SIZE
  }

  lemma NoIntruder(d: Doc, c: Salvage, q: nat, end: nat)
    requires Small(d) && Suits(c, d.cfg) && q in Stops(c, FileBytes(d), Behind(d))
    ensures !Intrudes(c, FileBytes(d), q, end)
  {
    hide HeaderAt, DecodeAt, Stops, Suits, MainBytes, FileBytes, FileFits;
    StopsAreBehind(c, FileBytes(d), Behind(d), q);
    NothingBehind(d, c, q);
  }

  /** Repairing an undamaged file without a dictionary, below 2^32 bytes and not above a million blocks,
      gives back the original, no more and no less: what else looks like a block header does not decode. */
  lemma UndamagedIsExact(d: Doc, c: Salvage, fill: Option<byte>)
    requires DocOk(d) && Small(d) && d.cfg.dict == [] && Suits(c, d.cfg)
    ensures Scan(c, FileBytes(d), FILE_HEADER_SIZE, START, fill).out == Total(d.blocks)
  {
    hide *;
    SmallFits(d);
    UndamagedIsRestored(d, c, fill);
    forall q | q in Stops(c, FileBytes(d), Behind(d))
      ensures !Intrudes(c, FileBytes(d), q, |Total(d.blocks)|)
    {
      NoIntruder(d, c, q, |Total(d.blocks)|);
    }
  }
}
