/** When a block is coded and when it is stored as it is, for each codec, for the dictionary's own record and for
    every block of a file (src/core/xq_encoder.c:108-129, 150-179, src/codec/xq_codec_lze.c:96-140). */
module Coded {
  import opened Bytes
  import opened Format
  import opened Codec
  import opened Container
  import opened ContainerProof
  import opened FileSpec
  import opened Index
  import opened ReaderProof
  import opened LzbStream
  import opened LzbParse
  import opened LzbFinds
  import opened LzeStream
  import opened HuffStream
  import HuffLens
  import Varint

  /** A codec's result that is shorter than what it codes. */
  predicate Pays(r: Result<seq<byte>>, raw: seq<byte>) {
    r.Success? && |r.value| < |raw|
  }

  /** The smaller of a block and its code. */
  function Smaller(r: Result<seq<byte>>, raw: seq<byte>): nat {
    if r.Success? then Min(|raw|, |r.value|) else |raw|
  }

  /** The job holds the code when that is shorter and the block itself otherwise. */
  ghost predicate BestOf(j: Job, raw: seq<byte>, r: Result<seq<byte>>) {
    && (Pays(r, raw) ==> !j.stored && Success(j.payload) == r)
    && (!Pays(r, raw) ==> j.stored && j.payload == raw)
    && |j.payload| == Smaller(r, raw)
  }

  lemma CodedIff(cfg: Config, raw: seq<byte>, midCap: nat)
    ensures BestOf(CompressJob(cfg, raw, midCap), raw,
                   Compress(cfg.codec, raw, cfg.dict, cfg.level, midCap, Bound(cfg.codec, BlockSize(cfg))))
  {
    hide Compress;
  }

  lemma DictCodedIff(cfg: Config)
    ensures BestOf(DictJob(cfg), cfg.dict, Compress(cfg.codec, cfg.dict, [], cfg.level, 0, Bound(cfg.codec, |cfg.dict|)))
  {
    hide Compress;
  }

  // ----- codec by codec

  /** An LZB block is coded exactly when its stream is shorter than the block; the buffer always has room for
      such a stream. */
  lemma LzbCodedIff(cfg: Config, raw: seq<byte>, midCap: nat)
    requires cfg.codec == Lzb && |raw| <= BlockSize(cfg)
    ensures var bytes := LzbBytes(raw, cfg.dict, cfg.level);
            CompressJob(cfg, raw, midCap) == if |bytes| < |raw| then Job(false, bytes) else Job(true, raw)
  {
    hide LzbBytes, BlockSize;
  }

  /** With room for both forms LZE takes the shorter: the Huffman form is tried on streams of at least 64 bytes
      whose code fits fifteen bits, and taken only when it is shorter than the stream behind its mode byte. */
  lemma LzeTakesShorter(lz: seq<byte>, cap: nat)
    requires 1 + |lz| <= cap && 1 + 10 + TABLE_BYTES <= cap && |lz| < U64_LIMIT
    ensures var r, code := LzeForm(lz, cap), HuffLens.BuildLens(Histogram(lz));
            r.Success? && if |lz| >= 64 && code.Some? then
                            BuiltTableFits(code.value)
                            && var huff := HuffHeader(lz, code.value) + HuffBody(lz, code.value);
                               r.value == if |huff| < 1 + |lz| then huff else [MODE_RAW] + lz
                          else r.value == [MODE_RAW] + lz
  {
    hide Histogram, HuffLens.BuildLens, HuffBody, HuffHeader, LoadTable, HuffLens.Usable;
    var code := HuffLens.BuildLens(Histogram(lz));
    if |lz| >= 64 && code.Some? {
      BuiltTableLoads(Histogram(lz));
      HuffHeaderLength(lz, code.value);
    }
  }

  /** The parts of the Huffman form, read from the front. */
  lemma HuffFormLayout(lz: seq<byte>, lens: seq<nat>)
    requires BuiltTableFits(lens) && |lz| < U64_LIMIT
    ensures var s := HuffHeader(lz, lens) + HuffBody(lz, lens);
            && s[0] == 1 && Varint.Get(s, 1).Some?
            && var (n, ip) := Varint.Get(s, 1).value;
               n == |lz| && ip + 128 <= |s| && s[ip..ip + 128] == StoreTable(lens) && s[ip + 128..] == HuffBody(lz, lens)
  {
    hide HuffBody, StoreTable, Varint.Get, Varint.Put;
    LzeStream.HeaderParts(Varint.Put(|lz|), StoreTable(lens), HuffBody(lz, lens), |lz|);
  }

  lemma HuffHeaderLength(lz: seq<byte>, lens: seq<nat>)
    requires BuiltTableFits(lens) && |lz| < U64_LIMIT
    ensures |HuffHeader(lz, lens)| <= 1 + 10 + TABLE_BYTES
  {
    hide StoreTable, Varint.Put;
    Pow2Values();
    Pow2Monotone(64, 70);
    Varint.PutLength(|lz|, 10);
  }

  // ----- whole files

  lemma {:induction false} JobOfBlock(cfg: Config, blocks: seq<seq<byte>>, midCap: nat, i: nat)
    requires i < |blocks|
    ensures JobsFrom(cfg, blocks, midCap)[i] == CompressJob(cfg, blocks[i], MidAfter(cfg, blocks[..i], midCap))
    decreases |blocks|
  {
    hide CompressJob, Grown;
    if i > 0 {
      JobOfBlock(cfg, blocks[1..], Grown(cfg, midCap, blocks[0]), i - 1);
      assert blocks[..i][1..] == blocks[1..][..i - 1];
    }
  }

  /** In the file for `x` each block stands where its entry says, holding the smaller of the block and the code
      that a context with the blocks before it makes. */
  lemma FileHoldsSmaller(cfg: Config, hint: uint64, kind: byte, x: seq<byte>, i: nat)
    requires Encodable(cfg, hint, kind, x) && i < |DocFor(cfg, hint, kind, x).blocks|
    ensures var d, at := DocFor(cfg, hint, kind, x), DocEntries(DocFor(cfg, hint, kind, x))[i];
            && BestOf(d.jobs[i], d.blocks[i],
                      Compress(cfg.codec, d.blocks[i], cfg.dict, cfg.level, MidAfter(cfg, d.blocks[..i], FirstMid(cfg)),
                               Bound(cfg.codec, BlockSize(cfg))))
            && at.rawOffset < U64_LIMIT
            && StandsAt(EncodedFile(cfg, hint, kind, x), at.fileOffset, BlockBytes(cfg, d.blocks[i], at.rawOffset, d.jobs[i]))
  {
    hide BestOf, Compress, BlockBytes, BlockSize, FileFits, ValidConfig, Sized, DocEntries, MidAfter, FileBytes, DictJob,
         FirstMid, CompressJob, Chunks, JobsFrom;
    var d := DocFor(cfg, hint, kind, x);
    JobOfBlock(cfg, d.blocks, FirstMid(cfg), i);
    CodedIff(cfg, d.blocks[i], MidAfter(cfg, d.blocks[..i], FirstMid(cfg)));
    BlockInFile(d, i);
  }

  lemma {:induction false} BodyAtMost(cfg: Config, blocks: seq<seq<byte>>, jobs: seq<Job>, off: nat, m: nat)
    requires |blocks| == |jobs| && off + |Total(blocks)| < U64_LIMIT
    requires forall i :: 0 <= i < |blocks| ==> |blocks[i]| <= BLOCK_MAX && |jobs[i].payload| <= BLOCK_MAX && |jobs[i].payload| <= m
    ensures |Body(cfg, blocks, jobs, off)| <= |blocks| * (BLOCK_HEADER_SIZE + m + 8)
    decreases |blocks|
  {
    hide BlockBytes, Total, Body;
    if blocks == [] {
      NoBody(cfg, off);
    } else {
      BodyOfMore(cfg, blocks, jobs, off);
      BodyAtMost(cfg, blocks[1..], jobs[1..], off + |blocks[0]|, m);
      OneMore(|blocks| - 1, BLOCK_HEADER_SIZE + m + 8);
    }
  }

  lemma NoBody(cfg: Config, off: nat)
    requires off < U64_LIMIT
    ensures off + |Total([])| < U64_LIMIT && Body(cfg, [], [], off) == []
  {}

  lemma OneMore(n: nat, m: nat)
    ensures (n + 1) * m == n * m + m
  {}

  lemma ChunkIsRun(x: seq<byte>, bs: nat, i: nat)
    requires IsRun(x) && bs > 0 && i < |Chunks(x, bs)|
    ensures IsRun(Chunks(x, bs)[i])
    decreases |x|
  {
    if |x| > bs {
      assert IsRun(x[..bs]);
      if i > 0 {
        assert IsRun(x[bs..]) by {
          assert forall k :: 0 <= k < |x[bs..]| ==> x[bs..][k] == x[bs + k];
        }
        ChunkIsRun(x[bs..], bs, i - 1);
      }
    }
  }

  /** Compression compresses: one byte repeated, coded by LZB in blocks of at most 65535 k + 1 bytes, comes to at
      most 53 + 5 k bytes a block and 132 in all besides. */
  lemma RunFileIsSmall(cfg: Config, hint: uint64, kind: byte, x: seq<byte>, k: nat)
    requires Encodable(cfg, hint, kind, x) && cfg.codec == Lzb && cfg.dict == [] && IsRun(x)
    requires BlockSize(cfg) <= 65535 * k + 1
    ensures |EncodedFile(cfg, hint, kind, x)| <= 132 + |Chunks(x, BlockSize(cfg))| * (53 + 5 * k)
  {
    hide IsRun, Chunks, BlockSize, FileFits, ValidConfig, Total;
    var d := DocFor(cfg, hint, kind, x);
    ChunksSized(x, BlockSize(cfg));
    forall i | 0 <= i < |d.blocks|
      ensures |d.jobs[i].payload| <= 5 + 5 * k
    {
      RunJobIsSmall(cfg, d.blocks, i, x, k);
    }
    DocLength(d, 5 + 5 * k);
  }

  lemma RunJobIsSmall(cfg: Config, blocks: seq<seq<byte>>, i: nat, x: seq<byte>, k: nat)
    requires cfg.codec == Lzb && cfg.dict == [] && IsRun(x) && BlockSize(cfg) <= 65535 * k + 1
    requires blocks == Chunks(x, BlockSize(cfg)) && AllSized(blocks, BlockSize(cfg)) && i < |blocks|
    ensures |JobsFrom(cfg, blocks, FirstMid(cfg))[i].payload| <= 5 + 5 * k
  {
    hide IsRun, Chunks, BlockSize, CompressJob, LzbBytes, JobsFrom, MidAfter, FirstMid;
    JobOfBlock(cfg, blocks, FirstMid(cfg), i);
    ChunkIsRun(x, BlockSize(cfg), i);
    RunIsSmall(blocks[i], cfg.level, k);
    LzbCodedIff(cfg, blocks[i], MidAfter(cfg, blocks[..i], FirstMid(cfg)));
  }

  lemma DocLength(d: Doc, m: nat)
    requires FileFits(d) && d.cfg.dict == [] && forall i :: 0 <= i < |d.blocks| ==> |d.jobs[i].payload| <= m
    ensures |FileBytes(d)| <= 132 + |d.blocks| * (48 + m)
  {
    hide FileBytes, MainBytes, Body, StoreFooter, FooterFor, DocFooter, StoreHeader, HeaderFor, DocEntries, ValidConfig,
         RecordBytes, Preamble, EntriesBytes, Total;
    MainLen(d);
    FileParts(d);
    BodyAtMost(d.cfg, d.blocks, d.jobs, 0, m);
    FrontWithoutDict(d);
    IndexLength(d);
    var n := |d.blocks|;
    assert n * (BLOCK_HEADER_SIZE + m + 8) + 16 * n == n * (48 + m);
  }

  lemma FrontWithoutDict(d: Doc)
    requires Sized(d) && d.cfg.dict == []
    ensures FrontLen(d) == FILE_HEADER_SIZE
  {
    hide StoreHeader, HeaderFor;
  }
}
