/** The size bound a caller of `xq_compress` is given, and that no file exceeds it
    (src/core/xq_api.c:53-83, src/core/xq_dict.c:20-31, src/format/xq_format.c:198-205). */
module Bound {
  import opened Bytes
  import opened Format
  import opened Codec
  import opened Container
  import opened ContainerProof
  import opened FileSpec

  const DICT_MIN := 0x1_0000

  datatype Params = Params(codec: CodecId, level: nat, checksum: Checksum, blockLog: nat, dictSize: uint32)

  predicate ValidParams(p: Params) {
    1 <= p.level <= 12 && 12 <= p.blockLog <= 28
  }

  /** `xq_dict_size_for`: at most a quarter of the input, and none rather than a small one. */
  function DictSizeFor(rawSize: uint64, requested: uint32): (r: uint32)
    ensures 4 * r as int <= rawSize && r <= DICT_MAX && r <= requested && (r == 0 || r >= DICT_MIN)
  {
    var capped := Min(Min(requested, DICT_MAX), rawSize as int / 4);
    if capped < DICT_MIN then 0 else capped
  }

  /** No larger dictionary keeps within those limits. */
  lemma DictSizeIsLargest(rawSize: uint64, requested: uint32, r: uint32)
    requires 4 * r as int <= rawSize && r <= DICT_MAX && r <= requested && (r == 0 || r >= DICT_MIN)
    ensures r <= DictSizeFor(rawSize, requested)
  {
    DivFloor(rawSize as int, r as int);
  }

  lemma DivFloor(n: nat, r: nat)
    requires 4 * r <= n
    ensures r <= n / 4
  {}

  /** The encoder's configuration for a one-shot compression: the dictionary is a prefix of the input. */
  function ConfigFor(p: Params, x: seq<byte>): Config
    requires |x| < U64_LIMIT
  {
    Config(p.codec, p.level, p.checksum, p.blockLog, if HasDict(p.codec) then x[..DictSizeFor(|x|, p.dictSize)] else [])
  }

  /** A checked sum: nothing once a sum has left 64 bits. */
  function Plus(a: Option<uint64>, b: nat): Option<uint64> {
    if a.Some? && a.value as int + b < U64_LIMIT then Some(a.value as int + b) else None
  }

  function IndexPayloadSize(n: uint64): uint64 {
    var size := INDEX_PREAMBLE + INDEX_ENTRY_SIZE * (n as int + 1);
    if size < U64_LIMIT then size else 0
  }

  function BlockCount(srcSize: uint64, bs: nat): nat
    requires bs > 0
  {
    Max(1, (srcSize as int + bs - 1) % U64_LIMIT / bs)
  }

  function DictRecordSize(p: Params, srcSize: uint64): nat {
    var n := DictSizeFor(srcSize, p.dictSize);
    if n != 0 && HasDict(p.codec) then RECORD_HEADER_SIZE + DICT_HEADER + n as int else 0
  }

  /** `xq_compress_bound`; 0 stands for "no bound". The block count is computed in 64 bits, with wrap-around. */
  function CompressBound(srcSize: uint64, p: Params): uint64 {
    var n := BlockCount(srcSize, Pow2(p.blockLog));
    var per := BLOCK_HEADER_SIZE + ChecksumSize(p.checksum);
    var blocks := Plus(Plus(Plus(Some(FILE_HEADER_SIZE), n * per), srcSize as int), RECORD_HEADER_SIZE);
    var idx := if n < U64_LIMIT then IndexPayloadSize(n) else 0;
    if idx == 0 then 0
    else
      var total := Plus(Plus(Plus(blocks, (idx as int + RECORD_HEADER_SIZE) % U64_LIMIT), FOOTER_SIZE), DictRecordSize(p, srcSize));
      if total.Some? then total.value else 0
  }

  /** What a file of `n` blocks takes, in unbounded arithmetic, when none of them codes to fewer bytes. */
  function SizeWith(n: nat, srcSize: uint64, p: Params): nat {
    FILE_HEADER_SIZE + n * (BLOCK_HEADER_SIZE + ChecksumSize(p.checksum)) + srcSize as int
    + 2 * RECORD_HEADER_SIZE + INDEX_PREAMBLE + INDEX_ENTRY_SIZE * (n + 1) + FOOTER_SIZE + DictRecordSize(p, srcSize)
  }

  lemma BoundIsSum(srcSize: uint64, p: Params)
    requires CompressBound(srcSize, p) != 0
    ensures CompressBound(srcSize, p) == SizeWith(BlockCount(srcSize, Pow2(p.blockLog)), srcSize, p)
  {
    hide Pow2, BlockCount, DictRecordSize;
    var n := BlockCount(srcSize, Pow2(p.blockLog));
    var per := BLOCK_HEADER_SIZE + ChecksumSize(p.checksum);
    MulMonotone(n, 24, per);
  }

  lemma MoreBlocksTakeMore(a: nat, b: nat, srcSize: uint64, p: Params)
    requires a <= b
    ensures SizeWith(a, srcSize, p) <= SizeWith(b, srcSize, p) && (a < b ==> SizeWith(a, srcSize, p) < SizeWith(b, srcSize, p))
  {
    hide DictRecordSize, ChecksumSize;
    var per := BLOCK_HEADER_SIZE + ChecksumSize(p.checksum);
    MulMonotone(per, a, b);
  }

  // ----- what a file takes

  lemma {:induction false} ChunksCount(x: seq<byte>, bs: nat)
    requires bs > 0
    ensures |Chunks(x, bs)| * bs <= |x| + bs - 1
    decreases |x|
  {
    if x == [] {
      assert |Chunks(x, bs)| * bs == 0;
    } else if |x| <= bs {
      assert |Chunks(x, bs)| * bs == bs;
    } else {
      ChunksCount(x[bs..], bs);
      var n := |Chunks(x[bs..], bs)|;
      assert |Chunks(x, bs)| == n + 1;
      assert (n + 1) * bs == n * bs + bs;
    }
  }

  lemma CountIsQuotient(n: nat, bs: nat, v: nat)
    requires bs > 0 && n * bs <= v
    ensures n <= v / bs
  {
    var q := v / bs;
    assert v == bs * q + v % bs;
    if n > q {
      MulStep(bs, q, n);
    }
  }

  lemma {:induction false} BodyBound(cfg: Config, blocks: seq<seq<byte>>, jobs: seq<Job>, off: nat)
    requires |blocks| == |jobs| && off + |Total(blocks)| < U64_LIMIT
    requires forall i :: 0 <= i < |blocks| ==> |blocks[i]| <= BLOCK_MAX && |jobs[i].payload| <= |blocks[i]|
    ensures |Body(cfg, blocks, jobs, off)| <= |blocks| * (BLOCK_HEADER_SIZE + ChecksumSize(cfg.checksum)) + |Total(blocks)|
    decreases |blocks|
  {
    hide BlockBytes;
    var per := BLOCK_HEADER_SIZE + ChecksumSize(cfg.checksum);
    if blocks == [] {
      assert 0 * per == 0;
    } else {
      BodyBound(cfg, blocks[1..], jobs[1..], off + |blocks[0]|);
      var n := |blocks| - 1;
      assert (n + 1) * per == n * per + per;
    }
  }

  lemma {:induction false} JobsShrink(cfg: Config, blocks: seq<seq<byte>>, midCap: nat)
    ensures forall i :: 0 <= i < |blocks| ==> |JobsFrom(cfg, blocks, midCap)[i].payload| <= |blocks[i]|
    decreases |blocks|
  {
    hide CompressJob, Grown;
    if blocks != [] {
      JobShrinks(cfg, blocks[0], midCap);
      JobsShrink(cfg, blocks[1..], Grown(cfg, midCap, blocks[0]));
      var jobs := JobsFrom(cfg, blocks, midCap);
      forall i | 0 <= i < |blocks|
        ensures |jobs[i].payload| <= |blocks[i]|
      {
        if i > 0 {
          assert blocks[i] == blocks[1..][i - 1] && jobs[i] == jobs[1..][i - 1];
        }
      }
    }
  }

  lemma FrontSize(d: Doc)
    requires Sized(d)
    ensures FrontLen(d) == FILE_HEADER_SIZE + if d.cfg.dict == [] then 0 else RECORD_HEADER_SIZE + DICT_HEADER + |d.dj.payload|
  {
    hide StoreHeader, HeaderFor, DictPayload, ValidConfig, Total;
  }

  lemma CountIsBounded(x: seq<byte>, bs: nat)
    requires bs > 0 && |x| + bs - 1 < U64_LIMIT
    ensures |Chunks(x, bs)| <= BlockCount(|x|, bs)
  {
    hide Chunks;
    var v := |x| + bs - 1;
    ChunksCount(x, bs);
    CountIsQuotient(|Chunks(x, bs)|, bs, v);
    assert v % U64_LIMIT == v;
  }

  /** No payload is longer than what it codes. Nothing else is asked of the jobs. */
  predicate Modest(d: Doc) {
    && Sized(d) && |d.dj.payload| <= |d.cfg.dict|
    && forall i :: 0 <= i < |d.blocks| ==> |d.jobs[i].payload| <= |d.blocks[i]|
  }

  lemma DocSize(d: Doc)
    requires Modest(d)
    ensures |MainBytes(d)| <= FILE_HEADER_SIZE + (if d.cfg.dict == [] then 0 else RECORD_HEADER_SIZE + DICT_HEADER + |d.cfg.dict|)
              + |d.blocks| * (BLOCK_HEADER_SIZE + ChecksumSize(d.cfg.checksum)) + |Total(d.blocks)| + RECORD_HEADER_SIZE
  {
    hide Body, MainBytes, FrontLen, Total, ValidConfig, BlockLen;
    MainLen(d);
    FrontSize(d);
    BodyBound(d.cfg, d.blocks, d.jobs, 0);
  }

  lemma SequentialIsModest(cfg: Config, hint: uint64, kind: byte, x: seq<byte>)
    requires ValidConfig(cfg) && |x| < U64_LIMIT
    ensures Modest(DocFor(cfg, hint, kind, x)) && DocFor(cfg, hint, kind, x).blocks == Chunks(x, BlockSize(cfg))
  {
    hide JobsFrom, FirstMid, Chunks, Total, DictJob, ValidConfig, BlockSize;
    DictJobSmall(cfg);
    JobsShrink(cfg, Chunks(x, BlockSize(cfg)), FirstMid(cfg));
  }

  lemma ConfigIsValid(p: Params, x: seq<byte>)
    requires ValidParams(p) && |x| < U64_LIMIT
    ensures ValidConfig(ConfigFor(p, x))
    ensures var n := |ConfigFor(p, x).dict|; DictRecordSize(p, |x|) == if n == 0 then 0 else RECORD_HEADER_SIZE + DICT_HEADER + n
  {}

  lemma ConfigFields(p: Params, x: seq<byte>)
    requires |x| < U64_LIMIT
    ensures ConfigFor(p, x).checksum == p.checksum && ConfigFor(p, x).blockLog == p.blockLog
  {}

  lemma MainSize(p: Params, x: seq<byte>, d: Doc)
    requires ValidParams(p) && |x| + Pow2(p.blockLog) - 1 < U64_LIMIT
    requires Modest(d) && d.cfg == ConfigFor(p, x) && d.blocks == Chunks(x, Pow2(p.blockLog))
    ensures var n := BlockCount(|x|, Pow2(p.blockLog));
            && |d.blocks| <= n
            && |MainBytes(d)| <= FILE_HEADER_SIZE + DictRecordSize(p, |x|) + n * (BLOCK_HEADER_SIZE + ChecksumSize(p.checksum)) + |x| + RECORD_HEADER_SIZE
  {
    hide MainBytes, Chunks, Total, Pow2, BlockCount, DictRecordSize, ValidConfig, DictSizeFor, ConfigFor, ChecksumSize;
    ConfigIsValid(p, x);
    ConfigFields(p, x);
    ChunksTotal(x, Pow2(p.blockLog));
    DocSize(d);
    CountIsBounded(x, Pow2(p.blockLog));
    var per, n := BLOCK_HEADER_SIZE + ChecksumSize(p.checksum), BlockCount(|x|, Pow2(p.blockLog));
    MulMonotone(per, |d.blocks|, n);
    assert |d.blocks| * per == per * |d.blocks| && n * per == per * n;
  }

  /** The bound is hard: whatever the codec makes of the blocks and of the dictionary, as long as nothing
      comes out longer than it went in, the file of a one-shot compression stays within it, and within
      64-bit offsets. */
  lemma AnyJobsWithinBound(p: Params, x: seq<byte>, d: Doc)
    requires ValidParams(p) && |x| + Pow2(p.blockLog) - 1 < U64_LIMIT && CompressBound(|x|, p) != 0
    requires Modest(d) && d.cfg == ConfigFor(p, x) && d.blocks == Chunks(x, Pow2(p.blockLog))
    ensures FileFits(d) && |FileBytes(d)| <= CompressBound(|x|, p)
  {
    hide CompressBound, ConfigFor, DictRecordSize, BlockCount, Pow2, MainBytes, ValidConfig, IndexRecord, StoreFooter,
         StreamSum, Total, DocEntries, Chunks, ChecksumSize, FooterFor;
    MainSize(p, x, d);
    BoundIsSum(|x|, p);
    ConfigFields(p, x);
    assert FileFits(d);
    assert |DocIndex(d)| <= RECORD_HEADER_SIZE + INDEX_PREAMBLE + INDEX_ENTRY_SIZE * (|d.blocks| + 1);
  }

  /** In particular the single-threaded encoder's file. */
  lemma BoundHolds(p: Params, x: seq<byte>)
    requires ValidParams(p) && |x| + Pow2(p.blockLog) - 1 < U64_LIMIT && CompressBound(|x|, p) != 0
    ensures Encodable(ConfigFor(p, x), |x|, 1, x)
    ensures |EncodedFile(ConfigFor(p, x), |x|, 1, x)| <= CompressBound(|x|, p)
  {
    hide CompressBound, ValidConfig, Modest, FileFits, Chunks, FileBytes, DocFor, Pow2;
    ConfigIsValid(p, x);
    SequentialIsModest(ConfigFor(p, x), |x|, 1, x);
    SequentialConfig(ConfigFor(p, x), |x|, 1, x);
    AnyJobsWithinBound(p, x, DocFor(ConfigFor(p, x), |x|, 1, x));
  }

  // ----- and it is reached

  lemma {:induction false} ChunksCover(x: seq<byte>, bs: nat)
    requires bs > 0
    ensures |x| <= |Chunks(x, bs)| * bs
    decreases |x|
  {
    if |x| > bs {
      ChunksCover(x[bs..], bs);
      var n := |Chunks(x[bs..], bs)|;
      assert |Chunks(x, bs)| == n + 1;
      assert (n + 1) * bs == n * bs + bs;
    }
  }

  lemma CountIsExact(x: seq<byte>, bs: nat)
    requires bs > 0 && x != [] && |x| + bs - 1 < U64_LIMIT
    ensures |Chunks(x, bs)| == BlockCount(|x|, bs)
  {
    hide Chunks;
    var n, v := |Chunks(x, bs)|, |x| + bs - 1;
    ChunksCount(x, bs);
    ChunksCover(x, bs);
    assert v % U64_LIMIT == v;
    DivUnique(v, bs, n, v - bs * n);
    NotNone(n, bs, |x|);
  }

  lemma NotNone(n: nat, bs: nat, v: nat)
    requires 0 < v <= n * bs
    ensures n > 0
  {}

  lemma {:induction false} BodyIsWhole(cfg: Config, blocks: seq<seq<byte>>, jobs: seq<Job>, off: nat)
    requires |blocks| == |jobs| && off + |Total(blocks)| < U64_LIMIT
    requires forall i :: 0 <= i < |blocks| ==> |blocks[i]| <= BLOCK_MAX && |jobs[i].payload| == |blocks[i]|
    ensures |Body(cfg, blocks, jobs, off)| == |blocks| * (BLOCK_HEADER_SIZE + ChecksumSize(cfg.checksum)) + |Total(blocks)|
    decreases |blocks|
  {
    hide BlockBytes;
    var per := BLOCK_HEADER_SIZE + ChecksumSize(cfg.checksum);
    if blocks == [] {
      assert 0 * per == 0;
    } else {
      BodyIsWhole(cfg, blocks[1..], jobs[1..], off + |blocks[0]|);
      var n := |blocks| - 1;
      assert (n + 1) * per == n * per + per;
    }
  }

  /** The bound is no larger than it has to be: when nothing comes out shorter than it went in, the file of a
      non-empty input takes exactly that much. */
  lemma BoundIsReached(p: Params, x: seq<byte>, d: Doc)
    requires ValidParams(p) && |x| + Pow2(p.blockLog) - 1 < U64_LIMIT && CompressBound(|x|, p) != 0 && x != []
    requires Modest(d) && d.cfg == ConfigFor(p, x) && d.blocks == Chunks(x, Pow2(p.blockLog))
    requires |d.dj.payload| == |d.cfg.dict| && forall i :: 0 <= i < |d.blocks| ==> |d.jobs[i].payload| == |d.blocks[i]|
    ensures FileFits(d) && |FileBytes(d)| == CompressBound(|x|, p)
  {
    hide CompressBound, ConfigFor, DictRecordSize, BlockCount, Pow2, MainBytes, ValidConfig, IndexRecord, StoreFooter,
         StreamSum, Total, DocEntries, Chunks, FooterFor, Body, BlockLen, FrontLen;
    AnyJobsWithinBound(p, x, d);
    ConfigIsValid(p, x);
    ConfigFields(p, x);
    ChunksTotal(x, Pow2(p.blockLog));
    MainLen(d);
    FrontSize(d);
    BodyIsWhole(d.cfg, d.blocks, d.jobs, 0);
    CountIsExact(x, Pow2(p.blockLog));
    ChunksSized(x, Pow2(p.blockLog));
    BoundIsSum(|x|, p);
    IndexLength(d);
  }

  /** So does every file of the STORED codec. */
  lemma StoredReachesBound(p: Params, x: seq<byte>)
    requires ValidParams(p) && |x| + Pow2(p.blockLog) - 1 < U64_LIMIT && CompressBound(|x|, p) != 0 && x != [] && p.codec == Stored
    ensures Encodable(ConfigFor(p, x), |x|, 1, x)
    ensures |EncodedFile(ConfigFor(p, x), |x|, 1, x)| == CompressBound(|x|, p)
  {
    hide CompressBound, ValidConfig, FileFits, Chunks, FileBytes, Pow2, CompressJob, FirstMid;
    BoundHolds(p, x);
    var cfg := ConfigFor(p, x);
    SequentialIsModest(cfg, |x|, 1, x);
    SequentialConfig(cfg, |x|, 1, x);
    assert cfg.dict == [];
    AllStored(cfg, Chunks(x, BlockSize(cfg)), FirstMid(cfg));
    DictJobSmall(cfg);
    BoundIsReached(p, x, DocFor(cfg, |x|, 1, x));
  }

  lemma {:induction false} AllStored(cfg: Config, blocks: seq<seq<byte>>, midCap: nat)
    requires cfg.codec == Stored
    ensures forall i :: 0 <= i < |blocks| ==> |JobsFrom(cfg, blocks, midCap)[i].payload| == |blocks[i]|
    decreases |blocks|
  {
    hide Grown;
    if blocks != [] {
      assert CompressJob(cfg, blocks[0], midCap) == Job(true, blocks[0]);
      AllStored(cfg, blocks[1..], Grown(cfg, midCap, blocks[0]));
      var jobs := JobsFrom(cfg, blocks, midCap);
      forall i | 0 <= i < |blocks|
        ensures |jobs[i].payload| == |blocks[i]|
      {
        if i > 0 {
          assert blocks[i] == blocks[1..][i - 1] && jobs[i] == jobs[1..][i - 1];
        }
      }
    }
  }

  lemma SequentialConfig(cfg: Config, hint: uint64, kind: byte, x: seq<byte>)
    requires ValidConfig(cfg) && |x| < U64_LIMIT
    ensures DocFor(cfg, hint, kind, x).cfg == cfg
  {}

  lemma LogRange(k: nat)
    requires 12 <= k <= 28
    ensures 0x1000 <= Pow2(k) <= 0x1000_0000
  {
    Pow2Monotone(12, k);
    Pow2Monotone(k, 28);
    Pow2Values();
    Pow2Add(12, 16);
  }

  function WholeBlocks(srcSize: uint64, bs: nat): nat
    requires bs > 0
  {
    (srcSize as int + bs - 1) / bs
  }

  /** A non-zero bound covers the worst case exactly when rounding the input up to whole blocks stays
      within 64 bits; past that the block count wraps round and the bound is too small. */
  lemma BoundIsRightIff(srcSize: uint64, p: Params)
    requires ValidParams(p) && CompressBound(srcSize, p) != 0
    ensures CompressBound(srcSize, p) >= SizeWith(WholeBlocks(srcSize, Pow2(p.blockLog)), srcSize, p)
            <==> srcSize as int + Pow2(p.blockLog) - 1 < U64_LIMIT
  {
    hide CompressBound, DictRecordSize, Pow2, SizeWith, BlockCount, WholeBlocks;
    LogRange(p.blockLog);
    var bs := Pow2(p.blockLog);
    var n, k := WholeBlocks(srcSize, bs), BlockCount(srcSize, bs);
    BoundIsSum(srcSize, p);
    CountsCompare(srcSize, bs);
    if n <= k {
      MoreBlocksTakeMore(n, k, srcSize, p);
    } else {
      MoreBlocksTakeMore(k, n, srcSize, p);
    }
  }

  /** An input 1000 bytes short of 2^64 with the smallest blocks: a bound is given, and it is far too small. */
  lemma BoundCanBeTooSmall()
    ensures var srcSize: uint64, p := 0xFFFF_FFFF_FFFF_FC18, Params(Stored, 1, NoChecksum, 12, 0);
            0 < CompressBound(srcSize, p) < SizeWith(WholeBlocks(srcSize, Pow2(p.blockLog)), srcSize, p)
  {
    var srcSize: uint64, p := 0xFFFF_FFFF_FFFF_FC18, Params(Stored, 1, NoChecksum, 12, 0);
    Pow2Values();
    assert Pow2(12) == 0x1000;
    WrapsToOne(srcSize as int + 0xFFF, 0x1000);
    hide Pow2;
    assert BlockCount(srcSize, 0x1000) == 1;
    assert CompressBound(srcSize, p) > 0;
    BoundIsRightIff(srcSize, p);
  }

  lemma CountsCompare(srcSize: uint64, bs: nat)
    requires 0 < bs <= BLOCK_MAX
    ensures WholeBlocks(srcSize, bs) <= BlockCount(srcSize, bs) <==> srcSize as int + bs - 1 < U64_LIMIT
  {
    var v := srcSize as int + bs - 1;
    if v >= U64_LIMIT {
      WrapsToOne(v, bs);
      CountIsQuotient(2, bs, v);
    }
  }

  lemma WrapsToOne(v: nat, bs: nat)
    requires 0 < bs <= U64_LIMIT <= v < U64_LIMIT + bs
    ensures Max(1, v % U64_LIMIT / bs) == 1
  {
    var r := v - U64_LIMIT;
    DivUnique(v, U64_LIMIT, 1, r);
    DivUnique(r, bs, 0, r);
  }
}
