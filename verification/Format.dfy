/** The fixed structures of the container, as bytes: file header, record header, block header, index
    and footer, stored and parsed (src/format/xq_format.c, src/common/xq_bits.h). */
module Format {
  import opened Bytes
  import opened Crc32c

  const FILE_HEADER_SIZE := 32
  const RECORD_HEADER_SIZE := 14
  const BLOCK_HEADER_SIZE := 24
  const FOOTER_SIZE := 32
  const INDEX_ENTRY_SIZE := 16
  const INDEX_PREAMBLE := 24

  const BLOCK_MAX := 0x1000_0000
  const BLOCK_MAGIC := 0xB10C
  const FOOTER_MAGIC := 0x54465158
  const FILE_MAGIC: seq<byte> := [0x89, 0x58, 0x51, 0x31, 0x0D, 0x0A, 0x1A, 0x0A]

  const REC_DICT: byte := 0x01
  const REC_USER_META: byte := 0x02
  const REC_END_OF_BLOCKS: byte := 0x10
  const REC_INDEX: byte := 0x11

  const SIZE_UNKNOWN: uint64 := 0xFFFF_FFFF_FFFF_FFFF

  type uint16 = x: int | 0 <= x < 0x1_0000

  // ----- little-endian integers

  function Le16(v: uint16): (b: seq<byte>)
    ensures |b| == 2
  {
    [v as int % 0x100, v as int / 0x100]
  }

  function Le32(v: uint32): (b: seq<byte>)
    ensures |b| == 4
  {
    [v as int % 0x100, v as int / 0x100 % 0x100, v as int / 0x1_0000 % 0x100, v as int / 0x100_0000]
  }

  function Le64(v: uint64): (b: seq<byte>)
    ensures |b| == 8
  {
    Le32(v as int % 0x1_0000_0000) + Le32(v as int / 0x1_0000_0000)
  }

  function Ld16(s: seq<byte>, i: nat): (v: uint16)
    requires i + 2 <= |s|
  {
    s[i] as int + 0x100 * s[i + 1] as int
  }

  lemma Load16(s: seq<byte>, i: nat, v: uint16)
    requires i + 2 <= |s|
    ensures s[i..i + 2] == Le16(v) <==> Ld16(s, i) == v
  {
    var p := s[i..i + 2];
    assert p[0] == s[i] && p[1] == s[i + 1];
    assert p == Le16(v) <==> p[0] == Le16(v)[0] && p[1] == Le16(v)[1];
  }

  lemma Bytes32(v: uint32)
    ensures v as int == v as int % 0x100 + 0x100 * (v as int / 0x100 % 0x100) + 0x1_0000 * (v as int / 0x1_0000 % 0x100) + 0x100_0000 * (v as int / 0x100_0000)
  {}

  lemma Digits32(a: byte, b: byte, c: byte, d: byte)
    ensures Le32(a as int + 0x100 * b as int + 0x1_0000 * c as int + 0x100_0000 * d as int) == [a, b, c, d]
  {
    var v := a as int + 0x100 * b as int + 0x1_0000 * c as int + 0x100_0000 * d as int;
    assert v / 0x100 == b as int + 0x100 * c as int + 0x1_0000 * d as int;
    assert v / 0x1_0000 == c as int + 0x100 * d as int;
  }

  lemma Le32Value(v: uint32, b: seq<byte>)
    requires |b| == 4
    ensures b == Le32(v) <==> Ld32(b, 0) == v
  {
    Bytes32(v);
    Digits32(b[0], b[1], b[2], b[3]);
    assert b == [b[0], b[1], b[2], b[3]];
    if b == Le32(v) {
      assert b[0] as int == v as int % 0x100 && b[1] as int == v as int / 0x100 % 0x100;
    }
  }

  lemma Load32(s: seq<byte>, i: nat, v: uint32)
    requires i + 4 <= |s|
    ensures s[i..i + 4] == Le32(v) <==> Ld32(s, i) == v
  {
    Le32Value(v, s[i..i + 4]);
    hide Le32;
  }

  lemma Load64(s: seq<byte>, i: nat, v: uint64)
    requires i + 8 <= |s|
    ensures s[i..i + 8] == Le64(v) <==> Ld64(s, i) == v
  {
    var lo, hi := v as int % 0x1_0000_0000, v as int / 0x1_0000_0000;
    Load32(s, i, lo);
    Load32(s, i + 4, hi);
    hide Le32, Ld32;
    assert s[i..i + 8] == s[i..i + 4] + s[i + 4..i + 8];
    if s[i..i + 8] == Le64(v) {
      assert s[i..i + 4] == Le64(v)[..4] == Le32(lo);
      assert s[i + 4..i + 8] == Le64(v)[4..] == Le32(hi);
    }
  }

  /** What stands behind a prefix of a concatenation. */
  lemma PartAt(pre: seq<byte>, part: seq<byte>, post: seq<byte>)
    ensures var s := pre + part + post; s[|pre|..|pre| + |part|] == part
  {}

  // ----- structures closed by their own CRC

  /** Four bytes of CRC behind the body they cover. */
  function Seal(body: seq<byte>): (s: seq<byte>)
    ensures |s| == |body| + 4
  {
    body + Le32(Crc(body))
  }

  predicate Sealed(s: seq<byte>)
    requires |s| >= 4
  {
    s[|s| - 4..] == Le32(Crc(s[..|s| - 4]))
  }

  lemma Le32Injective(v: uint32, w: uint32)
    requires Le32(v) == Le32(w)
    ensures v == w
  {
    Le32Value(v, Le32(w));
    Le32Value(w, Le32(w));
  }

  /** A sealed structure with one byte changed is not sealed: not when the byte is covered by the CRC,
      and not when it is part of the CRC itself. */
  lemma OneByteUnseals(s: seq<byte>, i: nat, b: byte)
    requires |s| >= 4 && Sealed(s) && i < |s| && b != s[i]
    ensures !Sealed(s[i := b])
  {
    hide Crc, Le32;
    var n := |s| - 4;
    var t := s[i := b];
    var body, tbody := s[..n], t[..n];
    if i < n {
      assert body == body[..i] + [s[i]] + body[i + 1..];
      assert tbody == body[..i] + [b] + body[i + 1..];
      BurstDetected(body[..i], [s[i]], [b], body[i + 1..]);
      assert t[n..] == s[n..];
      if Le32(Crc(body)) == Le32(Crc(tbody)) {
        Le32Injective(Crc(body), Crc(tbody));
      }
    } else {
      assert tbody == body;
      assert t[n..][i - n] != s[n..][i - n];
    }
  }

  // ----- block header

  datatype BlockHeader = BlockHeader(bflags: byte, codecId: byte, storedSize: uint32, rawSize: uint32, rawOffset: uint64)

  predicate StoredFlag(bflags: byte) { bflags as int % 2 == 1 }

  predicate DictFlag(bflags: byte) { bflags as int / 2 % 2 == 1 }

  function BlockBody(b: BlockHeader): (s: seq<byte>)
    ensures |s| == 20
  {
    Le16(BLOCK_MAGIC) + [b.bflags, b.codecId] + Le32(b.storedSize) + Le32(b.rawSize) + Le64(b.rawOffset)
  }

  function StoreBlock(b: BlockHeader): (s: seq<byte>)
    ensures |s| == BLOCK_HEADER_SIZE
  {
    Seal(BlockBody(b))
  }

  function ReadBlock(s: seq<byte>): BlockHeader
    requires |s| >= 20
  {
    BlockHeader(s[2], s[3], Ld32(s, 4), Ld32(s, 8), Ld64(s, 12))
  }

  /** The tests a header has to pass behind its CRC. */
  predicate Plausible(b: BlockHeader) {
    && (StoredFlag(b.bflags) ==> b.storedSize == b.rawSize)
    && 0 < b.rawSize <= BLOCK_MAX
    && b.storedSize <= b.rawSize as int + b.rawSize as int / 8 + 1024
    && b.rawOffset as int + b.rawSize as int < U64_LIMIT
  }

  function ParseBlock(s: seq<byte>): Result<BlockHeader> {
    if |s| < BLOCK_HEADER_SIZE then Failure(ErrTruncated)
    else if Ld16(s, 0) != BLOCK_MAGIC then Failure(ErrCorruptBlock)
    else if Ld32(s, 20) != Crc(s[..20]) then Failure(ErrCorruptBlock)
    else if !Plausible(ReadBlock(s)) then Failure(ErrCorruptBlock)
    else Success(ReadBlock(s))
  }

  lemma BlockParts(b: BlockHeader, s: seq<byte>)
    requires |s| >= 20 && s[..20] == BlockBody(b)
    ensures s[0..2] == Le16(BLOCK_MAGIC) && s[2] == b.bflags && s[3] == b.codecId
    ensures s[4..8] == Le32(b.storedSize) && s[8..12] == Le32(b.rawSize) && s[12..20] == Le64(b.rawOffset)
  {
    hide Le16, Le32, Le64;
    var w := BlockBody(b);
    assert s[0..2] == w[0..2];
    assert s[2] == w[2] && s[3] == w[3];
    assert s[4..8] == w[4..8] && s[8..12] == w[8..12] && s[12..20] == w[12..20];
  }

  lemma PartsBlock(b: BlockHeader, s: seq<byte>)
    requires |s| >= 20 && s[0..2] == Le16(BLOCK_MAGIC) && s[2] == b.bflags && s[3] == b.codecId
    requires s[4..8] == Le32(b.storedSize) && s[8..12] == Le32(b.rawSize) && s[12..20] == Le64(b.rawOffset)
    ensures s[..20] == BlockBody(b)
  {
    hide Le16, Le32, Le64;
    assert s[..20] == s[0..2] + [s[2], s[3]] + s[4..8] + s[8..12] + s[12..20];
  }

  /** The twenty bytes under a block header's CRC and its fields determine each other. */
  lemma BlockFields(b: BlockHeader, s: seq<byte>)
    requires |s| >= 20
    ensures s[..20] == BlockBody(b) <==> Ld16(s, 0) == BLOCK_MAGIC && ReadBlock(s) == b
  {
    Load16(s, 0, BLOCK_MAGIC);
    Load32(s, 4, b.storedSize);
    Load32(s, 8, b.rawSize);
    Load64(s, 12, b.rawOffset);
    hide Le16, Le32, Le64, Ld16, Ld32, Ld64, BlockBody;
    if s[..20] == BlockBody(b) {
      BlockParts(b, s);
    }
    if Ld16(s, 0) == BLOCK_MAGIC && ReadBlock(s) == b {
      PartsBlock(b, s);
    }
  }

  lemma SealAt(s: seq<byte>, n: nat, body: seq<byte>)
    requires n + 4 <= |s| && |body| == n
    ensures s[..n + 4] == Seal(body) <==> s[..n] == body && Ld32(s, n) == Crc(body)
  {
    Load32(s, n, Crc(body));
    hide Crc, Le32, Ld32;
    assert s[..n + 4] == s[..n] + s[n..n + 4];
    if s[..n + 4] == Seal(body) {
      assert s[..n] == Seal(body)[..n] == body;
      assert s[n..n + 4] == Seal(body)[n..];
    }
  }

  /** Parsing accepts exactly the stored forms of plausible headers: it inverts storing, and what it
      accepts is what storing its result would write. */
  lemma BlockRoundTrip(b: BlockHeader, s: seq<byte>)
    ensures ParseBlock(s) == Success(b) <==> |s| >= BLOCK_HEADER_SIZE && s[..BLOCK_HEADER_SIZE] == StoreBlock(b) && Plausible(b)
  {
    hide Crc, BlockBody, Ld16, Ld32, ReadBlock, Plausible, Seal;
    if |s| >= BLOCK_HEADER_SIZE {
      BlockFields(b, s);
      SealAt(s, 20, BlockBody(b));
      assert s[..24] == s[..20 + 4];
    }
  }

  // ----- file header

  datatype FileHeader = FileHeader(major: byte, minor: byte, headerSize: uint16, flags: uint32, codecId: byte, level: byte,
                                   checksumId: byte, blockSizeLog: byte, rawSize: uint64)

  const FLAG_INDEX_EXPECTED := 1
  const FLAG_DICT_PRESENT := 2
  const FLAG_UNIFORM_BLOCKS := 4
  const FLAG_STREAM_WRITTEN := 8

  predicate HasDictFlag(flags: uint32) { flags as int / 2 % 2 == 1 }

  predicate UniformFlag(flags: uint32) { flags as int / 4 % 2 == 1 }

  function HeaderBody(h: FileHeader): (s: seq<byte>)
    ensures |s| == 28
  {
    FILE_MAGIC + [h.major, h.minor] + Le16(h.headerSize) + Le32(h.flags)
    + [h.codecId, h.level, h.checksumId, h.blockSizeLog] + Le64(h.rawSize)
  }

  function StoreHeader(h: FileHeader): (s: seq<byte>)
    ensures |s| == FILE_HEADER_SIZE
  {
    Seal(HeaderBody(h))
  }

  function ReadHeader(s: seq<byte>): FileHeader
    requires |s| >= 28
  {
    FileHeader(s[8], s[9], Ld16(s, 10), Ld32(s, 12), s[16], s[17], s[18], s[19], Ld64(s, 20))
  }

  function CheckHeader(h: FileHeader): Status {
    if h.major != 1 then ErrUnsupportedVersion
    else if h.headerSize < FILE_HEADER_SIZE || h.headerSize > 4096 then ErrCorruptHeader
    else if h.checksumId > 2 then ErrUnsupportedFeature
    else if h.blockSizeLog != 0 && (h.blockSizeLog < 12 || h.blockSizeLog > 28) then ErrCorruptHeader
    else if h.flags > 0xF then ErrUnsupportedFeature
    else if UniformFlag(h.flags) && h.blockSizeLog == 0 then ErrCorruptHeader
    else XqOk
  }

  function ParseHeader(s: seq<byte>): Result<FileHeader> {
    if |s| < FILE_HEADER_SIZE then Failure(ErrTruncated)
    else if s[..8] != FILE_MAGIC then Failure(ErrBadMagic)
    else if Ld32(s, 28) != Crc(s[..28]) then Failure(ErrCorruptHeader)
    else if CheckHeader(ReadHeader(s)) != XqOk then Failure(CheckHeader(ReadHeader(s)))
    else Success(ReadHeader(s))
  }

  lemma HeaderParts(h: FileHeader, s: seq<byte>)
    requires |s| >= 28 && s[..28] == HeaderBody(h)
    ensures s[..8] == FILE_MAGIC && s[8] == h.major && s[9] == h.minor && s[10..12] == Le16(h.headerSize) && s[12..16] == Le32(h.flags)
    ensures s[16] == h.codecId && s[17] == h.level && s[18] == h.checksumId && s[19] == h.blockSizeLog && s[20..28] == Le64(h.rawSize)
  {
    hide Le16, Le32, Le64;
    var w := HeaderBody(h);
    assert s[..8] == w[..8];
    assert s[8] == w[8] && s[9] == w[9] && s[16] == w[16] && s[17] == w[17] && s[18] == w[18] && s[19] == w[19];
    assert s[10..12] == w[10..12] && s[12..16] == w[12..16] && s[20..28] == w[20..28];
  }

  lemma PartsHeader(h: FileHeader, s: seq<byte>)
    requires |s| >= 28
    requires s[..8] == FILE_MAGIC && s[8] == h.major && s[9] == h.minor && s[10..12] == Le16(h.headerSize) && s[12..16] == Le32(h.flags)
    requires s[16] == h.codecId && s[17] == h.level && s[18] == h.checksumId && s[19] == h.blockSizeLog && s[20..28] == Le64(h.rawSize)
    ensures s[..28] == HeaderBody(h)
  {
    hide Le16, Le32, Le64;
    assert s[..28] == s[..8] + [s[8], s[9]] + s[10..12] + s[12..16] + [s[16], s[17], s[18], s[19]] + s[20..28];
  }

  lemma HeaderFields(h: FileHeader, s: seq<byte>)
    requires |s| >= 28
    ensures s[..28] == HeaderBody(h) <==> s[..8] == FILE_MAGIC && ReadHeader(s) == h
  {
    Load16(s, 10, h.headerSize);
    Load32(s, 12, h.flags);
    Load64(s, 20, h.rawSize);
    hide Le16, Le32, Le64, Ld16, Ld32, Ld64, HeaderBody;
    if s[..28] == HeaderBody(h) {
      HeaderParts(h, s);
    }
    if s[..8] == FILE_MAGIC && ReadHeader(s) == h {
      PartsHeader(h, s);
    }
  }

  lemma HeaderRoundTrip(h: FileHeader, s: seq<byte>)
    ensures ParseHeader(s) == Success(h) <==>
              |s| >= FILE_HEADER_SIZE && s[..FILE_HEADER_SIZE] == StoreHeader(h) && CheckHeader(h) == XqOk
  {
    hide Crc, HeaderBody, Ld32, ReadHeader, CheckHeader, Seal;
    if |s| >= FILE_HEADER_SIZE {
      HeaderFields(h, s);
      SealAt(s, 28, HeaderBody(h));
      assert s[..32] == s[..28 + 4];
    }
  }

  // ----- footer

  datatype Footer = Footer(indexOffset: uint64, indexSize: uint64, streamChecksum: uint64)

  function FooterBody(f: Footer): (s: seq<byte>)
    ensures |s| == 28
  {
    Le64(f.indexOffset) + Le64(f.indexSize) + Le64(f.streamChecksum) + Le32(FOOTER_MAGIC)
  }

  /** The footer's CRC stands in front. */
  function StoreFooter(f: Footer): (s: seq<byte>)
    ensures |s| == FOOTER_SIZE
  {
    Le32(Crc(FooterBody(f))) + FooterBody(f)
  }

  function ReadFooter(s: seq<byte>): Footer
    requires |s| >= 28
  {
    Footer(Ld64(s, 4), Ld64(s, 12), Ld64(s, 20))
  }

  predicate FooterOk(f: Footer) {
    && (f.indexOffset == 0 ==> f.indexSize == 0)
    && (f.indexOffset != 0 ==> f.indexSize >= RECORD_HEADER_SIZE + INDEX_PREAMBLE && f.indexOffset >= FILE_HEADER_SIZE)
  }

  function ParseFooter(s: seq<byte>): Result<Footer> {
    if |s| < FOOTER_SIZE then Failure(ErrTruncated)
    else if Ld32(s, 28) != FOOTER_MAGIC then Failure(ErrCorruptFooter)
    else if Ld32(s, 0) != Crc(s[4..32]) then Failure(ErrCorruptFooter)
    else if !FooterOk(ReadFooter(s)) then Failure(ErrCorruptFooter)
    else Success(ReadFooter(s))
  }

  lemma FooterParts(f: Footer, s: seq<byte>)
    requires |s| >= 32
    ensures s[4..32] == FooterBody(f) <==> s[4..12] == Le64(f.indexOffset) && s[12..20] == Le64(f.indexSize)
                                           && s[20..28] == Le64(f.streamChecksum) && s[28..32] == Le32(FOOTER_MAGIC)
  {
    hide Le32, Le64;
    var w := FooterBody(f);
    assert s[4..32] == s[4..12] + s[12..20] + s[20..28] + s[28..32];
    if s[4..32] == w {
      assert s[4..12] == w[0..8] && s[12..20] == w[8..16] && s[20..28] == w[16..24] && s[28..32] == w[24..28];
    }
  }

  lemma FooterFields(f: Footer, s: seq<byte>)
    requires |s| >= 32
    ensures s[4..32] == FooterBody(f) <==> Ld32(s, 28) == FOOTER_MAGIC && ReadFooter(s) == f
  {
    FooterParts(f, s);
    Load64(s, 4, f.indexOffset);
    Load64(s, 12, f.indexSize);
    Load64(s, 20, f.streamChecksum);
    Load32(s, 28, FOOTER_MAGIC);
    hide FooterBody, Ld32, Ld64, Le32, Le64;
  }

  lemma FrontSeal(s: seq<byte>, body: seq<byte>)
    requires |s| >= 32 && |body| == 28
    ensures s[..32] == Le32(Crc(body)) + body <==> s[4..32] == body && Ld32(s, 0) == Crc(body)
  {
    hide Crc, Ld32, Le32;
    Load32(s, 0, Crc(body));
    assert s[..32] == s[0..4] + s[4..32];
    var w := Le32(Crc(body)) + body;
    if s[..32] == w {
      assert s[0..4] == w[..4] && s[4..32] == w[4..];
    }
  }

  lemma FooterRoundTrip(f: Footer, s: seq<byte>)
    ensures ParseFooter(s) == Success(f) <==> |s| >= FOOTER_SIZE && s[..FOOTER_SIZE] == StoreFooter(f) && FooterOk(f)
  {
    if |s| >= FOOTER_SIZE {
      FooterFields(f, s);
      FrontSeal(s, FooterBody(f));
      hide Crc, FooterBody, ReadFooter, Ld32, Le32, FooterOk;
    }
  }

  // ----- damage

  lemma SealedPrefix(s: seq<byte>, n: nat)
    requires n + 4 <= |s|
    ensures Sealed(s[..n + 4]) <==> Ld32(s, n) == Crc(s[..n])
  {
    Load32(s, n, Crc(s[..n]));
    hide Crc, Le32, Ld32;
    assert s[..n + 4][..n] == s[..n] && s[..n + 4][n..] == s[n..n + 4];
  }

  lemma UpdatePrefix(s: seq<byte>, i: nat, b: byte, n: nat)
    requires i < n <= |s|
    ensures s[i := b][..n] == s[..n][i := b]
  {}

  /** A block header that parses does not parse after any one of its bytes is changed. */
  lemma BlockDamage(s: seq<byte>, i: nat, b: byte)
    requires ParseBlock(s).Success? && i < BLOCK_HEADER_SIZE && b != s[i]
    ensures ParseBlock(s[i := b]).Failure?
  {
    hide Crc, ReadBlock, Plausible, Ld32, Ld16, Sealed;
    SealedPrefix(s, 20);
    SealedPrefix(s[i := b], 20);
    OneByteUnseals(s[..24], i, b);
    UpdatePrefix(s, i, b, 24);
  }

  lemma HeaderDamage(s: seq<byte>, i: nat, b: byte)
    requires ParseHeader(s).Success? && i < FILE_HEADER_SIZE && b != s[i]
    ensures ParseHeader(s[i := b]).Failure?
  {
    hide Crc, ReadHeader, CheckHeader, Ld32, Sealed;
    SealedPrefix(s, 28);
    SealedPrefix(s[i := b], 28);
    OneByteUnseals(s[..32], i, b);
    UpdatePrefix(s, i, b, 32);
  }

  /** The footer's four CRC bytes come first; turned round it is a sealed structure. */
  function Turned(s: seq<byte>): (t: seq<byte>)
    requires |s| >= 32
    ensures |t| == 32
  {
    s[4..32] + s[0..4]
  }

  lemma TurnedSealed(s: seq<byte>)
    requires |s| >= 32
    ensures Sealed(Turned(s)) <==> Ld32(s, 0) == Crc(s[4..32])
  {
    Load32(s, 0, Crc(s[4..32]));
    hide Crc, Ld32, Le32;
    assert Turned(s)[..28] == s[4..32] && Turned(s)[28..] == s[0..4];
  }

  lemma TurnedUpdate(s: seq<byte>, i: nat, b: byte)
    requires |s| >= 32 && i < 32
    ensures var j := if i < 4 then 28 + i else i - 4;
            Turned(s[i := b]) == Turned(s)[j := b] && Turned(s)[j] == s[i]
  {}

  lemma FooterDamage(s: seq<byte>, i: nat, b: byte)
    requires ParseFooter(s).Success? && i < FOOTER_SIZE && b != s[i]
    ensures ParseFooter(s[i := b]).Failure?
  {
    hide Crc, ReadFooter, FooterOk, Ld32, Sealed, Turned;
    TurnedSealed(s);
    TurnedSealed(s[i := b]);
    TurnedUpdate(s, i, b);
    OneByteUnseals(Turned(s), if i < 4 then 28 + i else i - 4, b);
  }
}
