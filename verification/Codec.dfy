/** The codec table and one block's compression job: what is stored for a block, and that it decodes
    (src/codec/xq_codec.c, src/codec/xq_codec_stored.c, src/core/xq_encoder.c:150-179). */
module Codec {
  import opened Bytes
  import opened LzbStream
  import opened LzbParse
  import opened LzeStream
  import Crc32c
  import Xxh64
  import Format

  datatype CodecId = Stored | Lzb | Lze

  function IdOf(c: CodecId): byte {
    match c
    case Stored => 0
    case Lzb => 1
    case Lze => 2
  }

  /** `xq_codec_get` in a build without third-party codecs. */
  function CodecOf(id: byte): Option<CodecId> {
    if id == 0 then Some(Stored) else if id == 1 then Some(Lzb) else if id == 2 then Some(Lze) else None
  }

  predicate HasDict(c: CodecId) { c != Stored }

  function Bound(c: CodecId, n: nat): nat {
    match c
    case Stored => n
    case Lzb => LzbBound(n)
    case Lze => LzbBound(n) + 128 + 32
  }

  /** A codec's `compress`; `midCap` is the size of an LZE context's intermediate buffer, which the
      call grows to the block's need. */
  function Compress(c: CodecId, src: seq<byte>, dict: seq<byte>, level: int, midCap: nat, cap: nat): (r: Result<seq<byte>>)
    ensures r.Failure? ==> r.error == ErrDstTooSmall
  {
    match c
    case Stored => if |src| > cap then Failure(ErrDstTooSmall) else Success(src)
    case Lzb =>
      var bytes := LzbBytes(src, dict, level);
      if |bytes| <= cap then Success(bytes) else Failure(ErrDstTooSmall)
    case Lze => LzeBytes(src, dict, level, GrownMid(midCap, src), cap)
  }

  function GrownMid(midCap: nat, src: seq<byte>): nat {
    if src == [] then midCap else Max(midCap, MidNeed(|src|))
  }

  ghost function Decompress(c: CodecId, src: seq<byte>, dict: seq<byte>, cap: nat, expected: nat): Result<seq<byte>> {
    match c
    case Stored => if expected != |src| then Failure(ErrCorruptBlock) else if |src| > cap then Failure(ErrDstTooSmall) else Success(src)
    case Lzb => Decode(src, dict, cap)
    case Lze => LzeDecode(src, dict, cap)
  }

  /** A codec's `decompress` in the context a file's own codec `own` made. Only LZE makes one, and LZE's
      decoder refuses to work without. */
  ghost function DecompressIn(own: CodecId, c: CodecId, src: seq<byte>, dict: seq<byte>, cap: nat, expected: nat): Result<seq<byte>> {
    if c == Lze && own != Lze then Failure(ErrInternal) else Decompress(c, src, dict, cap, expected)
  }

  lemma CodecRoundTrip(c: CodecId, src: seq<byte>, dict: seq<byte>, level: int, midCap: nat, cap: nat, dstCap: nat)
    requires |src| <= BLOCK_SIZE_MAX && midCap <= MidNeed(BLOCK_SIZE_MAX)
    requires |src| <= dstCap && dstCap + |dict| < U64_LIMIT
    ensures var r := Compress(c, src, dict, level, midCap, cap);
            r.Success? ==> Decompress(c, r.value, dict, dstCap, |src|) == Success(src)
  {
    hide LzbBytes, LzeBytes, Decode, LzeDecode;
    match c
    case Stored =>
    case Lzb =>
      LzbRoundTrip(src, dict, level, dstCap, []);
      assert LzbBytes(src, dict, level) + [] == LzbBytes(src, dict, level);
    case Lze =>
      NeedMonotone(|src|, BLOCK_SIZE_MAX);
      LzeRoundTrip(src, dict, level, GrownMid(midCap, src), cap, dstCap);
  }

  lemma NeedMonotone(a: nat, b: nat)
    requires a <= b
    ensures MidNeed(a) <= MidNeed(b) && LzbBound(a) <= LzbBound(b)
  {}

  // ----- jobs

  datatype Checksum = NoChecksum | Crc32cSum | Xxh64Sum

  function ChecksumId(k: Checksum): byte {
    match k
    case NoChecksum => 0
    case Crc32cSum => 1
    case Xxh64Sum => 2
  }

  function ChecksumSize(k: Checksum): nat {
    match k
    case NoChecksum => 0
    case Crc32cSum => 4
    case Xxh64Sum => 8
  }

  function ChecksumBytes(k: Checksum, payload: seq<byte>): (b: seq<byte>)
    ensures |b| == ChecksumSize(k)
  {
    match k
    case NoChecksum => []
    case Crc32cSum => Format.Le32(Crc32c.Crc(payload))
    case Xxh64Sum => Format.Le64(Xxh64.Hash64(payload))
  }

  /** What all blocks of a file share. `dict == []` is no dictionary. */
  datatype Config = Config(codec: CodecId, level: nat, checksum: Checksum, blockLog: nat, dict: seq<byte>)

  predicate ValidConfig(cfg: Config) {
    && 1 <= cfg.level <= 12 && 12 <= cfg.blockLog <= 28
    && (cfg.dict != [] ==> HasDict(cfg.codec) && MIN_MATCH <= |cfg.dict| <= BLOCK_SIZE_MAX)
  }

  function BlockSize(cfg: Config): (bs: nat)
    ensures bs > 0
  {
    Pow2(cfg.blockLog)
  }

  lemma BlockSizeRange(cfg: Config)
    requires ValidConfig(cfg)
    ensures 0x1000 <= BlockSize(cfg) <= BLOCK_SIZE_MAX
  {
    Pow2Monotone(12, cfg.blockLog);
    Pow2Monotone(cfg.blockLog, 28);
    Pow2Values();
    Pow2Add(12, 16);
  }

  datatype Job = Job(stored: bool, payload: seq<byte>)

  /** A block that codes to no fewer bytes, or does not fit the buffer, is stored as it is. */
  function JobFor(raw: seq<byte>, r: Result<seq<byte>>): Job {
    if r.Failure? || |r.value| >= |raw| then Job(true, raw) else Job(false, r.value)
  }

  function CompressJob(cfg: Config, raw: seq<byte>, midCap: nat): Job {
    JobFor(raw, Compress(cfg.codec, raw, cfg.dict, cfg.level, midCap, Bound(cfg.codec, BlockSize(cfg))))
  }

  /** A job never needs more bytes than the block. */
  lemma JobShrinks(cfg: Config, raw: seq<byte>, midCap: nat)
    ensures var j := CompressJob(cfg, raw, midCap);
            |j.payload| <= |raw| && (j.stored ==> j.payload == raw) && (!j.stored ==> |j.payload| < |raw|)
  {
    hide Compress;
  }

  lemma JobDecodes(cfg: Config, raw: seq<byte>, midCap: nat, dstCap: nat)
    requires |raw| <= BLOCK_SIZE_MAX && |cfg.dict| <= BLOCK_SIZE_MAX && midCap <= MidNeed(BLOCK_SIZE_MAX)
    requires |raw| <= dstCap <= BLOCK_SIZE_MAX
    ensures var j := CompressJob(cfg, raw, midCap);
            !j.stored ==> Decompress(cfg.codec, j.payload, cfg.dict, dstCap, |raw|) == Success(raw)
  {
    CodecRoundTrip(cfg.codec, raw, cfg.dict, cfg.level, midCap, Bound(cfg.codec, BlockSize(cfg)), dstCap);
    hide Compress, Decompress;
  }

  // ----- when a job depends on the context's past

  /** The same job in every context whose buffer has `lo` to `hi` bytes. */
  ghost predicate Stable(cfg: Config, raw: seq<byte>, lo: nat, hi: nat) {
    forall m1: nat, m2: nat :: lo <= m1 <= hi && lo <= m2 <= hi ==> CompressJob(cfg, raw, m1) == CompressJob(cfg, raw, m2)
  }

  /** The exception: an LZB stream longer than the smallest of those buffers, as grown for the block, but
      not than the largest, whose Huffman form is shorter than the block. */
  predicate Unstable(cfg: Config, raw: seq<byte>, lo: nat, hi: nat) {
    && cfg.codec == Lze && raw != []
    && var lz := LzbBytes(raw, cfg.dict, cfg.level);
       Max(lo, MidNeed(|raw|)) < |lz| <= hi
       && var r := LzeForm(lz, Bound(Lze, BlockSize(cfg)));
          r.Success? && |r.value| < |raw|
  }

  /** STORED and LZB blocks never depend on the context; an LZE block does exactly in that case. */
  lemma StableIff(cfg: Config, raw: seq<byte>, lo: nat, hi: nat)
    requires lo <= hi
    ensures Stable(cfg, raw, lo, hi) <==> !Unstable(cfg, raw, lo, hi)
  {
    hide LzbBytes, LzeForm;
    if Unstable(cfg, raw, lo, hi) {
      UnstableShrinks(cfg, raw, lo, hi);
      hide Unstable, CompressJob;
      assert CompressJob(cfg, raw, lo) != CompressJob(cfg, raw, hi);
    } else {
      forall m1: nat, m2: nat | lo <= m1 <= hi && lo <= m2 <= hi
        ensures CompressJob(cfg, raw, m1) == CompressJob(cfg, raw, m2)
      {
        SameJob(cfg, raw, lo, hi, m1, m2);
      }
    }
  }

  lemma SameJob(cfg: Config, raw: seq<byte>, lo: nat, hi: nat, m1: nat, m2: nat)
    requires lo <= m1 <= hi && lo <= m2 <= hi && !Unstable(cfg, raw, lo, hi)
    ensures CompressJob(cfg, raw, m1) == CompressJob(cfg, raw, m2)
  {
    hide LzbBytes, LzeForm, MidNeed;
  }

  /** And then a buffer of `lo` bytes stores the block, one of `hi` bytes makes it shorter. */
  lemma UnstableShrinks(cfg: Config, raw: seq<byte>, lo: nat, hi: nat)
    requires Unstable(cfg, raw, lo, hi)
    ensures CompressJob(cfg, raw, lo) == Job(true, raw)
    ensures !CompressJob(cfg, raw, hi).stored && |CompressJob(cfg, raw, hi).payload| < |raw|
  {
    hide LzbBytes, LzeForm, MidNeed;
  }
}
