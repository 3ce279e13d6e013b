/** Where everything stands in a file the encoder writes, byte by byte: the numbers of the format
    (src/core/xq_encoder.c:108-129, 181-214, 400-444, 558-645). */
module Layout {
  import opened Bytes
  import opened Format
  import opened Codec
  import opened Container
  import opened ContainerProof
  import opened FileSpec
  import opened Index
  import opened ReaderProof
  import opened Damage
  import Crc32c

  lemma HeaderBytesLayout(s: seq<byte>, h: FileHeader)
    requires ParseHeader(s) == Success(h)
    ensures |s| >= 32 && s[..8] == FILE_MAGIC && s[8] == h.major && s[9] == h.minor && Ld16(s, 10) == h.headerSize && Ld32(s, 12) == h.flags
    ensures s[16] == h.codecId && s[17] == h.level && s[18] == h.checksumId && s[19] == h.blockSizeLog && Ld64(s, 20) == h.rawSize
    ensures Ld32(s, 28) == Crc32c.Crc(s[..28])
  {
    hide Crc32c.Crc, CheckHeader, Ld16, Ld32, Ld64;
  }

  function CodecNumber(c: CodecId): nat {
    match c
    case Stored => 0
    case Lzb => 1
    case Lze => 2
  }

  function ChecksumNumber(k: Checksum): nat {
    match k
    case NoChecksum => 0
    case Crc32cSum => 1
    case Xxh64Sum => 2
  }

  lemma HeaderNumbers(cfg: Config, hint: uint64)
    requires ValidConfig(cfg)
    ensures var h := HeaderFor(cfg, hint);
            && h.major == 1 && h.minor == 0 && h.headerSize == 32 && h.codecId as int == CodecNumber(cfg.codec) && h.level as int == cfg.level
            && h.flags as int == 5 + (if cfg.dict != [] then 2 else 0) + (if hint == 0xFFFF_FFFF_FFFF_FFFF then 8 else 0)
            && h.checksumId as int == ChecksumNumber(cfg.checksum) && h.blockSizeLog as int == cfg.blockLog && h.rawSize == hint
  {}

  /** The first 32 bytes: magic, version 1.0, header size, flags, codec, level, checksum, block size, input size and
      the CRC-32C of all that. Bit 0 of the flags announces an index, bit 2 blocks of one size, bit 1 a dictionary and
      bit 3 that the input's size was not known. */
  lemma HeaderLayout(d: Doc)
    requires FileFits(d)
    ensures var s := FileBytes(d);
            && |s| >= 32 && s[..8] == [0x89, 0x58, 0x51, 0x31, 0x0D, 0x0A, 0x1A, 0x0A]
            && s[8] == 1 && s[9] == 0 && Ld16(s, 10) == 32
            && Ld32(s, 12) as int == 5 + (if d.cfg.dict != [] then 2 else 0) + (if d.hint == 0xFFFF_FFFF_FFFF_FFFF then 8 else 0)
            && s[16] as int == CodecNumber(d.cfg.codec) && s[17] as int == d.cfg.level && s[18] as int == ChecksumNumber(d.cfg.checksum)
            && s[19] as int == d.cfg.blockLog && Ld64(s, 20) == d.hint && Ld32(s, 28) == Crc32c.Crc(s[..28])
  {
    hide FileBytes, MainBytes, Crc32c.Crc, Ld16, Ld32, Ld64, HeaderFor, ParseHeader, CodecNumber, ChecksumNumber, Total, ValidConfig;
    FitsConfig(d);
    HeaderIsThere(d);
    HeaderBytesLayout(FileBytes(d), HeaderFor(d.cfg, d.hint));
    HeaderNumbers(d.cfg, d.hint);
  }

  lemma FitsConfig(d: Doc)
    requires FileFits(d)
    ensures ValidConfig(d.cfg)
  {
    hide MainBytes;
  }

  lemma BlockNumbers(cfg: Config, raw: seq<byte>, off: uint64, j: Job)
    requires |raw| <= BLOCK_MAX && |j.payload| <= BLOCK_MAX
    ensures var h := BlockHeaderFor(cfg, raw, off, j);
            && h.bflags == (if j.stored then 1 else if cfg.dict != [] then 2 else 0)
            && h.codecId as int == (if j.stored then 0 else CodecNumber(cfg.codec))
            && h.storedSize as int == |j.payload| && h.rawSize as int == |raw| && h.rawOffset == off
  {}

  /** A block's bytes at `a`: magic 0xB10C, flags (1 stored, 2 coded with the dictionary), codec, the sizes of payload
      and block, the block's place in the input, the CRC-32C of those twenty bytes, payload, checksum. */
  ghost predicate BlockStands(s: seq<byte>, a: nat, cfg: Config, raw: seq<byte>, off: nat, j: Job) {
    var e, k := a + 24 + |j.payload|, ChecksumSize(cfg.checksum);
    && e + k <= |s| && s[a] == 0x0C && s[a + 1] == 0xB1
    && s[a + 2] == (if j.stored then 1 else if cfg.dict != [] then 2 else 0)
    && s[a + 3] as int == (if j.stored then 0 else CodecNumber(cfg.codec))
    && Ld32(s, a + 4) as int == |j.payload| && Ld32(s, a + 8) as int == |raw| && Ld64(s, a + 12) as int == off
    && Ld32(s, a + 20) == Crc32c.Crc(s[a..a + 20])
    && s[a + 24..e] == j.payload && SumSays(cfg.checksum, j.payload, s[e..e + k])
  }

  lemma WrittenStands(pre: seq<byte>, cfg: Config, raw: seq<byte>, off: uint64, j: Job, post: seq<byte>)
    requires ValidConfig(cfg) && JobOk(cfg, raw, j) && off as int + |raw| < U64_LIMIT
    requires |raw| <= BLOCK_MAX && |j.payload| <= BLOCK_MAX
    ensures BlockStands(pre + BlockBytes(cfg, raw, off, j) + post, |pre|, cfg, raw, off as int, j)
  {
    hide BlockBytes, JobOk, ValidConfig, SumSays, Crc32c.Crc, Ld16, Ld32, Ld64, ParseBlock, BlockSize, BlockHeaderFor, CodecNumber;
    var b := BlockBytes(cfg, raw, off, j);
    BlockLength(cfg, raw, off, j);
    WrittenHeader(cfg, raw, off, j, post);
    WrittenSum(cfg, raw, off, j);
    BlockNumbers(cfg, raw, off, j);
    BlockBytesLayout(pre, b, post, BlockHeaderFor(cfg, raw, off, j), |j.payload|, ChecksumSize(cfg.checksum));
  }

  /** Every block stands where its entry says. */
  lemma BlockLayout(d: Doc, i: nat)
    requires DocOk(d) && FileFits(d) && i < |d.blocks|
    ensures BlockStands(FileBytes(d), DocEntries(d)[i].fileOffset, d.cfg, d.blocks[i], |Total(d.blocks[..i])|, d.jobs[i])
  {
    hide FileBytes, Leading, Trailing, BlockBytes, MainBytes, DocEntries, JobOk, JobsOk, DictOk, ValidConfig, Total, BlockStands, BlockSize;
    FileAround(d, i);
    BlockFacts(d, i, 0);
    WrittenStands(Leading(d, i), d.cfg, d.blocks[i], |Total(d.blocks[..i])|, d.jobs[i], Trailing(d, i));
  }

  lemma BlockBytesLayout(pre: seq<byte>, b: seq<byte>, post: seq<byte>, h: BlockHeader, n: nat, k: nat)
    requires |b| == 24 + n + k && ParseBlock(b + post) == Success(h)
    ensures var s, a := pre + b + post, |pre|;
            && s[a] == 0x0C && s[a + 1] == 0xB1 && s[a + 2] == h.bflags && s[a + 3] == h.codecId
            && Ld32(s, a + 4) == h.storedSize && Ld32(s, a + 8) == h.rawSize && Ld64(s, a + 12) == h.rawOffset
            && Ld32(s, a + 20) == Crc32c.Crc(s[a..a + 20])
            && s[a + 24..a + 24 + n] == b[24..24 + n] && s[a + 24 + n..a + 24 + n + k] == b[24 + n..]
  {
    hide Crc32c.Crc, Plausible, Ld16, Ld32, Ld64;
    var s, a, t := pre + b + post, |pre|, b + post;
    assert s == pre + t;
    MagicBytes(t);
    Moved32(pre, t, 4);
    Moved32(pre, t, 8);
    Moved64(pre, t, 12);
    Moved32(pre, t, 20);
    assert s[a..a + 20] == t[..20];
    assert s[a] == t[0] && s[a + 1] == t[1] && s[a + 2] == t[2] && s[a + 3] == t[3];
  }

  lemma Moved32(pre: seq<byte>, t: seq<byte>, i: nat)
    requires i + 4 <= |t|
    ensures Ld32(pre + t, |pre| + i) == Ld32(t, i)
  {}

  lemma Moved64(pre: seq<byte>, t: seq<byte>, i: nat)
    requires i + 8 <= |t|
    ensures Ld64(pre + t, |pre| + i) == Ld64(t, i)
  {
    hide Ld32;
    Moved32(pre, t, i);
    Moved32(pre, t, i + 4);
  }

  lemma MagicBytes(t: seq<byte>)
    requires |t| >= 2 && Ld16(t, 0) == BLOCK_MAGIC
    ensures t[0] == 0x0C && t[1] == 0xB1
  {}

  /** The last 32 bytes: their CRC-32C, where the index stands and how long it is (zeros when there is none), the
      stream checksum, and "XQFT". */
  lemma FooterLayout(d: Doc)
    requires FileFits(d)
    ensures var s, a := FileBytes(d), |FileBytes(d)| - 32;
            && a >= 0 && Ld32(s, a) == Crc32c.Crc(s[a + 4..])
            && Ld64(s, a + 4) as int == (if d.blocks == [] then 0 else |MainBytes(d)|)
            && Ld64(s, a + 12) as int == (if d.blocks == [] then 0 else 14 + 24 + 16 * (|d.blocks| + 1))
            && Ld64(s, a + 20) == StreamSum(d.cfg, Total(d.blocks)) && s[a + 28..] == [0x58, 0x51, 0x46, 0x54]
  {
    hide FileBytes, MainBytes, StoreHeader, HeaderFor, StreamSum, Total, ValidConfig, DocEntries, Crc32c.Crc, RecordBytes, Preamble,
         EntriesBytes, ParseFooter;
    FileParts(d);
    var s, f := FileBytes(d), DocFooter(d);
    var t := s[|s| - FOOTER_SIZE..];
    assert t[..FOOTER_SIZE] == t;
    FooterNumbers(d);
    hide DocFooter, FooterFor, DocIndex, StoreFooter;
    FooterRoundTrip(f, t);
    FooterBytesLayout(s, f);
  }

  lemma FooterNumbers(d: Doc)
    requires FileFits(d)
    ensures var f := DocFooter(d);
            && FooterOk(f) && f.indexOffset as int == (if d.blocks == [] then 0 else |MainBytes(d)|)
            && f.indexSize as int == (if d.blocks == [] then 0 else 14 + 24 + 16 * (|d.blocks| + 1))
            && f.streamChecksum == StreamSum(d.cfg, Total(d.blocks))
  {
    hide MainBytes, StreamSum, Total, ValidConfig, DocIndex;
    IndexLength(d);
    MainLen(d);
  }

  lemma FooterBytesLayout(s: seq<byte>, f: Footer)
    requires |s| >= 32 && ParseFooter(s[|s| - 32..]) == Success(f)
    ensures var a := |s| - 32;
            && Ld32(s, a) == Crc32c.Crc(s[a + 4..]) && Ld64(s, a + 4) == f.indexOffset && Ld64(s, a + 12) == f.indexSize
            && Ld64(s, a + 20) == f.streamChecksum && s[a + 28..] == [0x58, 0x51, 0x46, 0x54]
  {
    hide Crc32c.Crc, FooterOk, Ld32, Ld64;
    var a := |s| - 32;
    var t := s[a..];
    assert s == s[..a] + t;
    Moved32(s[..a], t, 0);
    Moved64(s[..a], t, 4);
    Moved64(s[..a], t, 12);
    Moved64(s[..a], t, 20);
    assert t[4..32] == s[a + 4..];
    Load32(t, 28, FOOTER_MAGIC);
    assert t[28..32] == s[a + 28..];
  }

  /** A record at `a`: tag, flags, payload size, the CRC-32C of those ten bytes and the payload, payload. */
  ghost predicate RecordStands(s: seq<byte>, a: nat, tag: byte, flags: byte, payload: seq<byte>) {
    && a + 14 + |payload| <= |s| && s[a] == tag && s[a + 1] == flags && Ld64(s, a + 2) as int == |payload|
    && Ld32(s, a + 10) == Crc32c.Crc(s[a..a + 10] + payload) && s[a + 14..a + 14 + |payload|] == payload
  }

  lemma WrittenRecordStands(pre: seq<byte>, tag: byte, flags: byte, payload: seq<byte>, post: seq<byte>)
    requires |payload| < U64_LIMIT
    ensures RecordStands(pre + RecordBytes(tag, flags, payload) + post, |pre|, tag, flags, payload)
  {
    hide Crc32c.Crc, Ld32, Ld64, RecordBytes;
    RecordCut(tag, flags, payload, post);
    var t := RecordBytes(tag, flags, payload) + post;
    assert pre + RecordBytes(tag, flags, payload) + post == pre + t;
    RecordMoves(pre, t, |payload|);
  }

  lemma RecordMoves(pre: seq<byte>, t: seq<byte>, n: nat)
    requires 14 + n <= |t|
    ensures var s, a := pre + t, |pre|;
            && s[a] == t[0] && s[a + 1] == t[1] && Ld64(s, a + 2) == Ld64(t, 2) && Ld32(s, a + 10) == Ld32(t, 10)
            && s[a..a + 10] == t[..10] && s[a + 14..a + 14 + n] == t[14..14 + n]
  {
    hide Ld32, Ld64;
    Moved64(pre, t, 2);
    Moved32(pre, t, 10);
  }

  /** Behind the blocks, the empty record that ends them. */
  lemma EndLayout(d: Doc)
    requires FileFits(d)
    ensures |MainBytes(d)| >= 46 && RecordStands(FileBytes(d), |MainBytes(d)| - 14, 0x10, 1, [])
  {
    hide Crc32c.Crc, Ld32, Ld64, RecordBytes, RecordStands, Front, Body, Total, TailBytes, ValidConfig;
    var pre := Front(d.cfg, d.hint, d.kind, d.dj) + Body(d.cfg, d.blocks, d.jobs, 0);
    MainLen(d);
    assert MainBytes(d) == pre + EobBytes();
    assert FileBytes(d) == pre + EobBytes() + TailBytes(d);
    WrittenRecordStands(pre, 0x10, 1, [], TailBytes(d));
  }

  /** Behind that, unless there are no blocks, the index: how many blocks, how many bytes of input, how many bytes of
      file between its header and the index, and the entries. */
  lemma IndexLayout(d: Doc)
    requires FileFits(d) && d.blocks != []
    ensures var m := |MainBytes(d)|;
            && m >= 32 && Fits(DocEntries(d))
            && RecordStands(FileBytes(d), m, 0x11, 0, Preamble(|d.blocks|, |Total(d.blocks)|, m - 32) + EntriesBytes(DocEntries(d)))
  {
    hide Crc32c.Crc, Ld32, Ld64, RecordBytes, RecordStands, MainBytes, StoreFooter, DocFooter, Total, DocEntries, EntriesBytes, Preamble, ValidConfig,
         DocIndex, Fits;
    DocIndexIs(d);
    assert FileBytes(d) == MainBytes(d) + DocIndex(d) + StoreFooter(DocFooter(d));
    WrittenRecordStands(MainBytes(d), 0x11, 0, Preamble(|d.blocks|, |Total(d.blocks)|, |MainBytes(d)| - 32) + EntriesBytes(DocEntries(d)),
                        StoreFooter(DocFooter(d)));
  }

  /** The dictionary's record, right behind the header: kind, codec (0 as it is), its number 1, its size, the size of
      its code, its XXH64, its code. */
  lemma DictLayout(d: Doc)
    requires DocOk(d) && FileFits(d) && d.cfg.dict != []
    ensures RecordStands(FileBytes(d), 32, 0x01, 1, DictPayload(d.cfg.dict, d.kind, if d.dj.stored then 0 else IdOf(d.cfg.codec), d.dj.payload))
  {
    hide Crc32c.Crc, Ld32, Ld64, RecordBytes, RecordStands, JobsOk, DictPayload, StoreHeader, HeaderFor, FileBytes, Total, FrontLen, MainBytes;
    var h, post := BehindDict(d);
    WrittenRecordStands(h, 0x01, 1, DictPayload(d.cfg.dict, d.kind, if d.dj.stored then 0 else IdOf(d.cfg.codec), d.dj.payload), post);
  }
}
