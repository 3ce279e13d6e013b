/** Whole files: how the input is cut into blocks, which jobs a single-threaded encoder makes of them,
    and the index and footer behind the blocks (src/core/xq_encoder.c:131-148, 376-444, 535-645,
    src/format/xq_format.c:165-205). */
module FileSpec {
  import opened Bytes
  import opened Format
  import opened Codec
  import opened Container
  import opened ContainerProof
  import Xxh64
  import LzeStream

  // ----- blocks

  function Chunks(x: seq<byte>, bs: nat): seq<seq<byte>>
    requires bs > 0
    decreases |x|
  {
    if x == [] then [] else if |x| <= bs then [x] else [x[..bs]] + Chunks(x[bs..], bs)
  }

  lemma {:induction false} ChunksTotal(x: seq<byte>, bs: nat)
    requires bs > 0
    ensures Total(Chunks(x, bs)) == x
    decreases |x|
  {
    if 0 < |x| <= bs {
      assert Chunks(x, bs)[1..] == [];
      assert Total([]) == [];
    } else if |x| > bs {
      ChunksTotal(x[bs..], bs);
      assert Chunks(x, bs)[1..] == Chunks(x[bs..], bs);
    }
  }

  predicate AllFull(blocks: seq<seq<byte>>, bs: nat) {
    forall i :: 0 <= i < |blocks| ==> |blocks[i]| == bs
  }

  predicate AllSized(blocks: seq<seq<byte>>, bs: nat) {
    forall i :: 0 <= i < |blocks| ==> 0 < |blocks[i]| <= bs
  }

  lemma {:induction false} ChunksSized(x: seq<byte>, bs: nat)
    requires bs > 0
    ensures AllSized(Chunks(x, bs), bs)
    ensures Chunks(x, bs) == [] <==> x == []
    decreases |x|
  {
    if |x| > bs {
      ChunksSized(x[bs..], bs);
    }
  }

  lemma ChunksCons(b: seq<byte>, rest: seq<byte>, bs: nat)
    requires bs > 0 && |b| == bs
    ensures Chunks(b + rest, bs) == [b] + Chunks(rest, bs)
  {
    var x := b + rest;
    assert x[..bs] == b && x[bs..] == rest;
    if rest == [] {
      assert x == b;
    }
  }

  /** Any way of filling whole blocks in order, with a shorter last one, is this cutting. */
  lemma ChunksUnique(full: seq<seq<byte>>, last: seq<byte>, bs: nat)
    requires bs > 0 && AllFull(full, bs) && |last| <= bs
    ensures Chunks(Total(full) + last, bs) == full + if last == [] then [] else [last]
  {
    ChunksOfFull(full, last, bs);
  }

  lemma {:induction false} ChunksOfFull(full: seq<seq<byte>>, rest: seq<byte>, bs: nat)
    requires bs > 0 && AllFull(full, bs)
    ensures Chunks(Total(full) + rest, bs) == full + Chunks(rest, bs)
    decreases |full|
  {
    hide Chunks;
    if full == [] {
      assert Total(full) + rest == rest;
    } else {
      ChunksOfFull(full[1..], rest, bs);
      ChunksCons(full[0], Total(full[1..]) + rest, bs);
      assert Total(full) + rest == full[0] + (Total(full[1..]) + rest);
      assert full == [full[0]] + full[1..];
    }
  }

  lemma {:induction false} TotalSnoc(blocks: seq<seq<byte>>, b: seq<byte>)
    ensures Total(blocks + [b]) == Total(blocks) + b
  {
    if blocks == [] {
      assert ([] + [b])[1..] == [];
      assert Total([]) == [];
    } else {
      TotalSnoc(blocks[1..], b);
      assert (blocks + [b])[1..] == blocks[1..] + [b];
    }
  }

  // ----- jobs of one context, in order

  function Grown(cfg: Config, midCap: nat, raw: seq<byte>): nat {
    if cfg.codec == Lze then GrownMid(midCap, raw) else midCap
  }

  function JobsFrom(cfg: Config, blocks: seq<seq<byte>>, midCap: nat): (r: seq<Job>)
    ensures |r| == |blocks|
  {
    if blocks == [] then [] else [CompressJob(cfg, blocks[0], midCap)] + JobsFrom(cfg, blocks[1..], Grown(cfg, midCap, blocks[0]))
  }

  function MidAfter(cfg: Config, blocks: seq<seq<byte>>, midCap: nat): nat {
    if blocks == [] then midCap else MidAfter(cfg, blocks[1..], Grown(cfg, midCap, blocks[0]))
  }

  /** The context a single-threaded encoder starts its blocks with: it has coded the dictionary. */
  function FirstMid(cfg: Config): nat {
    if cfg.dict == [] then 0 else Grown(cfg, 0, cfg.dict)
  }

  lemma {:induction false} JobsSnoc(cfg: Config, blocks: seq<seq<byte>>, b: seq<byte>, midCap: nat)
    ensures JobsFrom(cfg, blocks + [b], midCap) == JobsFrom(cfg, blocks, midCap) + [CompressJob(cfg, b, MidAfter(cfg, blocks, midCap))]
    ensures MidAfter(cfg, blocks + [b], midCap) == Grown(cfg, MidAfter(cfg, blocks, midCap), b)
    decreases |blocks|
  {
    hide CompressJob, Grown;
    if blocks == [] {
      assert blocks + [b] == [b] && [b][1..] == [];
      assert JobsFrom(cfg, [], Grown(cfg, midCap, b)) == [];
    } else {
      JobsSnoc(cfg, blocks[1..], b, Grown(cfg, midCap, blocks[0]));
      assert (blocks + [b])[1..] == blocks[1..] + [b];
    }
  }

  lemma MidStaysSmall(cfg: Config, midCap: nat, raw: seq<byte>)
    requires midCap <= LzeMax() && |raw| <= BLOCK_MAX
    ensures Grown(cfg, midCap, raw) <= LzeMax()
  {}

  /** Blocks of a file never grow a context past a whole block's need. */
  lemma MidStaysBelow(cfg: Config, midCap: nat, raw: seq<byte>)
    requires midCap <= LzeStream.MidNeed(BlockSize(cfg)) && |raw| <= BlockSize(cfg)
    ensures Grown(cfg, midCap, raw) <= LzeStream.MidNeed(BlockSize(cfg))
  {
    NeedMonotone(|raw|, BlockSize(cfg));
  }

  lemma {:induction false} MidAfterSmall(cfg: Config, blocks: seq<seq<byte>>, midCap: nat)
    requires midCap <= LzeMax() && AllSized(blocks, BLOCK_MAX)
    ensures MidAfter(cfg, blocks, midCap) <= LzeMax()
    decreases |blocks|
  {
    if blocks != [] {
      MidStaysSmall(cfg, midCap, blocks[0]);
      hide Grown, LzeMax;
      MidAfterSmall(cfg, blocks[1..], Grown(cfg, midCap, blocks[0]));
    }
  }

  lemma {:induction false} JobsAreOk(cfg: Config, blocks: seq<seq<byte>>, midCap: nat)
    requires ValidConfig(cfg) && AllSized(blocks, BlockSize(cfg)) && midCap <= LzeMax()
    ensures JobsOk(cfg, blocks, JobsFrom(cfg, blocks, midCap))
    decreases |blocks|
  {
    hide Grown, LzeMax, JobOk, CompressJob, ValidConfig, BlockSize;
    if blocks != [] {
      BlockSizeRange(cfg);
      CompressedOk(cfg, blocks[0], midCap);
      MidStaysSmall(cfg, midCap, blocks[0]);
      JobsAreOk(cfg, blocks[1..], Grown(cfg, midCap, blocks[0]));
      var jobs := JobsFrom(cfg, blocks, midCap);
      forall i | 0 <= i < |blocks|
        ensures JobOk(cfg, blocks[i], jobs[i])
      {
        if i > 0 {
          assert blocks[i] == blocks[1..][i - 1] && jobs[i] == jobs[1..][i - 1];
        }
      }
    }
  }

  lemma DictIsOk(cfg: Config, kind: byte)
    requires ValidConfig(cfg) && cfg.dict != [] && kind <= 3
    ensures DictOk(cfg, kind, DictJob(cfg))
  {
    var cap := Bound(cfg.codec, |cfg.dict|);
    CodecRoundTrip(cfg.codec, cfg.dict, [], cfg.level, 0, cap, |cfg.dict|);
    NonEmptyCode(cfg, cap);
    hide Compress, Decompress, Bound;
  }

  /** A decoder makes nothing of nothing, so no dictionary codes to the empty string. */
  lemma NonEmptyCode(cfg: Config, cap: nat)
    requires ValidConfig(cfg) && cfg.dict != []
    ensures var r := Compress(cfg.codec, cfg.dict, [], cfg.level, 0, cap); r.Success? ==> r.value != []
  {
    CodecRoundTrip(cfg.codec, cfg.dict, [], cfg.level, 0, cap, |cfg.dict|);
    hide Compress;
  }

  // ----- a file's parts

  datatype Doc = Doc(cfg: Config, hint: uint64, kind: byte, dj: Job, blocks: seq<seq<byte>>, jobs: seq<Job>)

  predicate Sized(d: Doc) {
    && ValidConfig(d.cfg) && |d.dj.payload| <= DICT_MAX && |d.blocks| == |d.jobs| && |Total(d.blocks)| < U64_LIMIT
    && forall i :: 0 <= i < |d.blocks| ==> |d.blocks[i]| <= BLOCK_MAX && |d.jobs[i].payload| <= BLOCK_MAX
  }

  ghost predicate DocOk(d: Doc) {
    Sized(d) && JobsOk(d.cfg, d.blocks, d.jobs) && (d.cfg.dict != [] ==> DictOk(d.cfg, d.kind, d.dj))
  }

  function MainBytes(d: Doc): seq<byte>
    requires Sized(d)
  {
    Main(d.cfg, d.hint, d.kind, d.dj, d.blocks, d.jobs)
  }

  // ----- index and footer

  datatype Entry = Entry(fileOffset: nat, rawOffset: nat)

  /** One entry a block, and a last one at the end-of-blocks record. */
  function Entries(cfg: Config, blocks: seq<seq<byte>>, jobs: seq<Job>, fileOff: nat, off: nat): (r: seq<Entry>)
    requires |blocks| == |jobs|
    ensures |r| == |blocks| + 1
    decreases |blocks|
  {
    [Entry(fileOff, off)]
    + if blocks == [] then [] else Entries(cfg, blocks[1..], jobs[1..], fileOff + BlockLen(cfg, jobs[0]), off + |blocks[0]|)
  }

  function BlockLen(cfg: Config, j: Job): nat {
    BLOCK_HEADER_SIZE + |j.payload| + ChecksumSize(cfg.checksum)
  }

  predicate Fits(es: seq<Entry>) {
    forall i :: 0 <= i < |es| ==> es[i].fileOffset < U64_LIMIT && es[i].rawOffset < U64_LIMIT
  }

  function EntryBytes(e: Entry): (s: seq<byte>)
    requires e.fileOffset < U64_LIMIT && e.rawOffset < U64_LIMIT
    ensures |s| == INDEX_ENTRY_SIZE
  {
    Le64(e.fileOffset) + Le64(e.rawOffset)
  }

  function EntriesBytes(es: seq<Entry>): (s: seq<byte>)
    requires Fits(es)
    ensures |s| == INDEX_ENTRY_SIZE * |es|
  {
    if es == [] then [] else EntryBytes(es[0]) + EntriesBytes(es[1..])
  }

  function Preamble(blockCount: uint64, totalRaw: uint64, totalStored: uint64): (s: seq<byte>)
    ensures |s| == INDEX_PREAMBLE
  {
    Le64(blockCount) + Le64(totalRaw) + Le64(totalStored)
  }

  function FrontLen(d: Doc): nat
    requires Sized(d)
  {
    |Front(d.cfg, d.hint, d.kind, d.dj)|
  }

  function DocEntries(d: Doc): (es: seq<Entry>)
    requires Sized(d)
    ensures |es| == |d.blocks| + 1
  {
    Entries(d.cfg, d.blocks, d.jobs, FrontLen(d), 0)
  }

  /** The whole file stays within 64-bit offsets. */
  predicate FileFits(d: Doc) {
    Sized(d) && |MainBytes(d)| + RECORD_HEADER_SIZE + INDEX_PREAMBLE + INDEX_ENTRY_SIZE * (|d.blocks| + 1) + FOOTER_SIZE < U64_LIMIT
  }

  /** Consecutive entries are one block apart, in the file and in the input. */
  lemma {:induction false} EntriesStep(cfg: Config, blocks: seq<seq<byte>>, jobs: seq<Job>, fileOff: nat, off: nat, i: nat)
    requires |blocks| == |jobs| && i < |blocks|
    ensures var es := Entries(cfg, blocks, jobs, fileOff, off);
            && es[i + 1].fileOffset == es[i].fileOffset + BlockLen(cfg, jobs[i])
            && es[i + 1].rawOffset == es[i].rawOffset + |blocks[i]|
    decreases |blocks|
  {
    hide BlockLen;
    var rest := Entries(cfg, blocks[1..], jobs[1..], fileOff + BlockLen(cfg, jobs[0]), off + |blocks[0]|);
    if i > 0 {
      EntriesStep(cfg, blocks[1..], jobs[1..], fileOff + BlockLen(cfg, jobs[0]), off + |blocks[0]|, i - 1);
      assert Entries(cfg, blocks, jobs, fileOff, off)[i + 1] == rest[i];
    } else {
      assert rest[0] == Entry(fileOff + BlockLen(cfg, jobs[0]), off + |blocks[0]|);
    }
  }

  /** The last entry stands at the end of the blocks. */
  lemma {:induction false} EntriesLast(cfg: Config, blocks: seq<seq<byte>>, jobs: seq<Job>, fileOff: nat, off: nat)
    requires |blocks| == |jobs| && off + |Total(blocks)| < U64_LIMIT
    requires forall i :: 0 <= i < |blocks| ==> |blocks[i]| <= BLOCK_MAX && |jobs[i].payload| <= BLOCK_MAX
    ensures Entries(cfg, blocks, jobs, fileOff, off)[|blocks|]
            == Entry(fileOff + |Body(cfg, blocks, jobs, off)|, off + |Total(blocks)|)
    decreases |blocks|
  {
    hide BlockBytes;
    if blocks != [] {
      EntriesLast(cfg, blocks[1..], jobs[1..], fileOff + BlockLen(cfg, jobs[0]), off + |blocks[0]|);
    }
  }

  lemma {:induction false} EntriesBounded(cfg: Config, blocks: seq<seq<byte>>, jobs: seq<Job>, fileOff: nat, off: nat, i: nat)
    requires |blocks| == |jobs| && i <= |blocks|
    ensures var es := Entries(cfg, blocks, jobs, fileOff, off);
            es[i].fileOffset <= es[|blocks|].fileOffset && es[i].rawOffset <= es[|blocks|].rawOffset
    decreases |blocks| - i
  {
    hide Entries, BlockLen;
    if i < |blocks| {
      EntriesStep(cfg, blocks, jobs, fileOff, off, i);
      EntriesBounded(cfg, blocks, jobs, fileOff, off, i + 1);
    }
  }

  lemma MainLen(d: Doc)
    requires Sized(d)
    ensures |MainBytes(d)| == FrontLen(d) + |Body(d.cfg, d.blocks, d.jobs, 0)| + RECORD_HEADER_SIZE
    ensures FrontLen(d) >= FILE_HEADER_SIZE
  {
    hide DictRecord, StoreHeader, HeaderFor, EobBytes;
  }

  lemma EntriesFit(d: Doc)
    requires FileFits(d)
    ensures Fits(DocEntries(d))
    ensures forall i :: 0 <= i <= |d.blocks| ==> DocEntries(d)[i].fileOffset <= |MainBytes(d)| - RECORD_HEADER_SIZE
  {
    hide Entries, FrontLen, MainBytes, Body, ValidConfig, Total;
    MainLen(d);
    EntriesLast(d.cfg, d.blocks, d.jobs, FrontLen(d), 0);
    var es := DocEntries(d);
    forall i | 0 <= i < |es|
      ensures es[i].fileOffset < U64_LIMIT && es[i].rawOffset < U64_LIMIT && es[i].fileOffset <= |MainBytes(d)| - RECORD_HEADER_SIZE
    {
      EntriesBounded(d.cfg, d.blocks, d.jobs, FrontLen(d), 0, i);
    }
  }

  lemma {:induction false} BodySnoc(cfg: Config, blocks: seq<seq<byte>>, jobs: seq<Job>, b: seq<byte>, j: Job, off: nat)
    requires |blocks| == |jobs| && off + |Total(blocks + [b])| < U64_LIMIT && |b| <= BLOCK_MAX && |j.payload| <= BLOCK_MAX
    requires forall i :: 0 <= i < |blocks| ==> |blocks[i]| <= BLOCK_MAX && |jobs[i].payload| <= BLOCK_MAX
    ensures off + |Total(blocks)| < U64_LIMIT
    ensures Body(cfg, blocks + [b], jobs + [j], off) == Body(cfg, blocks, jobs, off) + BlockBytes(cfg, b, off + |Total(blocks)|, j)
    decreases |blocks|
  {
    hide BlockBytes;
    TotalSnoc(blocks, b);
    if blocks == [] {
      assert [] + [b] == [b] && [] + [j] == [j];
      assert [b][1..] == [] && [j][1..] == [];
      var first := BlockBytes(cfg, b, off, j);
      assert Body(cfg, [b], [j], off) == first + Body(cfg, [], [], off + |b|);
      assert first + [] == first && [] + first == first;
    } else {
      assert (blocks + [b])[1..] == blocks[1..] + [b] && (jobs + [j])[1..] == jobs[1..] + [j];
      BodySnoc(cfg, blocks[1..], jobs[1..], b, j, off + |blocks[0]|);
    }
  }

  lemma EntriesOfOne(cfg: Config, b: seq<byte>, j: Job, fileOff: nat, off: nat)
    ensures Entries(cfg, [b], [j], fileOff, off) == [Entry(fileOff, off), Entry(fileOff + BlockLen(cfg, j), off + |b|)]
    ensures Entries(cfg, [], [], fileOff, off) == [Entry(fileOff, off)]
  {
    hide BlockLen;
    assert [b][1..] == [] && [j][1..] == [];
  }

  lemma EntriesOfMore(cfg: Config, blocks: seq<seq<byte>>, jobs: seq<Job>, fileOff: nat, off: nat)
    requires |blocks| == |jobs| > 0
    ensures Entries(cfg, blocks, jobs, fileOff, off)
            == [Entry(fileOff, off)] + Entries(cfg, blocks[1..], jobs[1..], fileOff + BlockLen(cfg, jobs[0]), off + |blocks[0]|)
  {
    hide BlockLen;
  }

  lemma {:induction false} EntriesSnoc(cfg: Config, blocks: seq<seq<byte>>, jobs: seq<Job>, b: seq<byte>, j: Job, fileOff: nat, off: nat)
    requires |blocks| == |jobs|
    ensures var es := Entries(cfg, blocks, jobs, fileOff, off);
            var last := es[|blocks|];
            Entries(cfg, blocks + [b], jobs + [j], fileOff, off) == es + [Entry(last.fileOffset + BlockLen(cfg, j), last.rawOffset + |b|)]
    decreases |blocks|
  {
    hide BlockLen, Entries;
    if blocks == [] {
      assert [] + [b] == [b] && [] + [j] == [j];
      EntriesOfOne(cfg, b, j, fileOff, off);
    } else {
      assert (blocks + [b])[1..] == blocks[1..] + [b] && (jobs + [j])[1..] == jobs[1..] + [j];
      EntriesOfMore(cfg, blocks, jobs, fileOff, off);
      EntriesOfMore(cfg, blocks + [b], jobs + [j], fileOff, off);
      EntriesSnoc(cfg, blocks[1..], jobs[1..], b, j, fileOff + BlockLen(cfg, jobs[0]), off + |blocks[0]|);
    }
  }

  lemma {:induction false} TotalTake(blocks: seq<seq<byte>>, k: nat)
    requires k <= |blocks|
    ensures |Total(blocks[..k])| <= |Total(blocks)|
  {
    if k > 0 {
      TotalTake(blocks[1..], k - 1);
      assert blocks[..k][1..] == blocks[1..][..k - 1];
    }
  }

  /** Blocks and payloads within the format's limits. */
  predicate Small(blocks: seq<seq<byte>>, done: seq<Job>) {
    && |Total(blocks)| < U64_LIMIT && |blocks| == |done|
    && (forall i :: 0 <= i < |blocks| ==> |blocks[i]| <= BLOCK_MAX && |done[i].payload| <= BLOCK_MAX)
  }

  lemma IndexGrows(cfg: Config, blocks: seq<seq<byte>>, done: seq<Job>, fileOff: nat, b: seq<byte>, j: Job)
    requires Small(blocks, done)
    ensures Entries(cfg, blocks + [b], done + [j], fileOff, 0)[..|done| + 1]
            == Entries(cfg, blocks, done, fileOff, 0)[..|done|] + [Entry(fileOff + |Body(cfg, blocks, done, 0)|, |Total(blocks)|)]
  {
    hide Entries, Total, Body, BlockLen;
    EntriesSnoc(cfg, blocks, done, b, j, fileOff, 0);
    EntriesLast(cfg, blocks, done, fileOff, 0);
    var es := Entries(cfg, blocks, done, fileOff, 0);
    var es' := Entries(cfg, blocks + [b], done + [j], fileOff, 0);
    assert es'[..|done| + 1] == es == es[..|done|] + [es[|done|]];
  }

  lemma SmallGrows(blocks: seq<seq<byte>>, done: seq<Job>, b: seq<byte>, j: Job)
    requires Small(blocks, done) && |b| <= BLOCK_MAX && |j.payload| <= BLOCK_MAX && |Total(blocks + [b])| < U64_LIMIT
    ensures Small(blocks + [b], done + [j])
  {
    hide Total;
  }

  function StreamSum(cfg: Config, x: seq<byte>): uint64 {
    if cfg.checksum == NoChecksum then 0 else Xxh64.Hash64(x)
  }

  /** What stands between the end-of-blocks record and the footer: nothing when there is no block. */
  function IndexRecord(totalRaw: uint64, indexOffset: uint64, es: seq<Entry>): (s: seq<byte>)
    requires Fits(es) && es != [] && indexOffset >= FILE_HEADER_SIZE && INDEX_PREAMBLE + INDEX_ENTRY_SIZE * |es| < U64_LIMIT
    ensures |s| == if |es| == 1 then 0 else RECORD_HEADER_SIZE + INDEX_PREAMBLE + INDEX_ENTRY_SIZE * |es|
  {
    if |es| == 1 then [] else RecordBytes(REC_INDEX, 0, Preamble(|es| - 1, totalRaw, indexOffset as int - FILE_HEADER_SIZE) + EntriesBytes(es))
  }

  function FooterFor(indexOffset: uint64, indexSize: uint64, sum: uint64): Footer {
    Footer(if indexSize == 0 then 0 else indexOffset, indexSize, sum)
  }

  lemma IndexFits(d: Doc)
    requires FileFits(d)
    ensures Sized(d) && |Total(d.blocks)| < U64_LIMIT
    ensures var es, main := DocEntries(d), |MainBytes(d)|;
            && Fits(es) && es != [] && FILE_HEADER_SIZE <= main < U64_LIMIT && INDEX_PREAMBLE + INDEX_ENTRY_SIZE * |es| < U64_LIMIT
            && main + |IndexRecord(|Total(d.blocks)|, main, es)| + FOOTER_SIZE < U64_LIMIT
  {
    hide DocEntries, MainBytes, EntriesBytes, Total, RecordBytes, Preamble, ValidConfig, Fits;
    EntriesFit(d);
    MainLen(d);
  }

  function DocIndex(d: Doc): (s: seq<byte>)
    requires FileFits(d)
    ensures |MainBytes(d)| + |s| + FOOTER_SIZE < U64_LIMIT
  {
    hide *;
    IndexFits(d);
    IndexRecord(|Total(d.blocks)|, |MainBytes(d)|, DocEntries(d))
  }

  lemma IndexLength(d: Doc)
    requires FileFits(d)
    ensures |DocIndex(d)| == if d.blocks == [] then 0 else RECORD_HEADER_SIZE + INDEX_PREAMBLE + INDEX_ENTRY_SIZE * (|d.blocks| + 1)
  {
    hide DocEntries, MainBytes, EntriesBytes, Total, RecordBytes, Preamble, ValidConfig;
    EntriesFit(d);
    MainLen(d);
  }

  function DocFooter(d: Doc): Footer
    requires FileFits(d)
  {
    hide DocEntries, MainBytes, Total, DocIndex, ValidConfig;
    FooterFor(|MainBytes(d)|, |DocIndex(d)|, StreamSum(d.cfg, Total(d.blocks)))
  }

  function TailBytes(d: Doc): seq<byte>
    requires FileFits(d)
  {
    DocIndex(d) + StoreFooter(DocFooter(d))
  }

  function FileBytes(d: Doc): seq<byte>
    requires FileFits(d)
  {
    MainBytes(d) + TailBytes(d)
  }

  // ----- what a single-threaded encoder makes of an input

  function DocFor(cfg: Config, hint: uint64, kind: byte, x: seq<byte>): (d: Doc)
    requires ValidConfig(cfg) && |x| < U64_LIMIT
    ensures Sized(d) && Total(d.blocks) == x
  {
    var blocks := Chunks(x, BlockSize(cfg));
    SizedFor(cfg, hint, kind, x);
    Doc(cfg, hint, kind, DictJob(cfg), blocks, JobsFrom(cfg, blocks, FirstMid(cfg)))
  }

  lemma SizedFor(cfg: Config, hint: uint64, kind: byte, x: seq<byte>)
    requires ValidConfig(cfg) && |x| < U64_LIMIT
    ensures var blocks := Chunks(x, BlockSize(cfg));
            var d := Doc(cfg, hint, kind, DictJob(cfg), blocks, JobsFrom(cfg, blocks, FirstMid(cfg)));
            Sized(d) && Total(blocks) == x && JobsOk(cfg, d.blocks, d.jobs)
  {
    var blocks := Chunks(x, BlockSize(cfg));
    BlockSizeRange(cfg);
    ChunksTotal(x, BlockSize(cfg));
    ChunksSized(x, BlockSize(cfg));
    FirstMidSmall(cfg);
    JobsAreOk(cfg, blocks, FirstMid(cfg));
    SmallJobs(cfg, blocks, JobsFrom(cfg, blocks, FirstMid(cfg)));
    DictJobSmall(cfg);
    hide JobsOk, DictJob, JobsFrom, FirstMid, Chunks, Total, BlockSize;
  }

  lemma DocForOk(cfg: Config, hint: uint64, kind: byte, x: seq<byte>)
    requires ValidConfig(cfg) && |x| < U64_LIMIT && kind <= 3
    ensures DocOk(DocFor(cfg, hint, kind, x))
  {
    SizedFor(cfg, hint, kind, x);
    if cfg.dict != [] {
      DictIsOk(cfg, kind);
    }
    hide JobsOk, DictOk, DictJob, JobsFrom, FirstMid, Chunks, Total, BlockSize;
  }

  lemma FirstMidSmall(cfg: Config)
    requires ValidConfig(cfg)
    ensures FirstMid(cfg) <= LzeMax()
  {}

  lemma DictJobSmall(cfg: Config)
    requires ValidConfig(cfg)
    ensures |DictJob(cfg).payload| <= |cfg.dict| <= DICT_MAX
  {
    hide Compress;
  }

  /** Round trip with its exact prefix behaviour: a prefix of the file written for `x` decodes to `x`
      if it holds the whole end-of-blocks record, and is reported as truncated if not. */
  lemma EncodedPrefixDecodes(cfg: Config, hint: uint64, kind: byte, x: seq<byte>, tail: seq<byte>, k: nat)
    requires ValidConfig(cfg) && |x| < U64_LIMIT && kind <= 3
    requires k <= |MainBytes(DocFor(cfg, hint, kind, x)) + tail|
    ensures var main := MainBytes(DocFor(cfg, hint, kind, x));
            DecodeFile((main + tail)[..k]) == if k >= |main| then Success(x) else Failure(ErrTruncated)
  {
    hide DecodeFile, DictOk, JobsOk, JobsFrom, FirstMid, Chunks, Total, BlockSize, DictJob, Main, ValidConfig;
    var d := DocFor(cfg, hint, kind, x);
    DocForOk(cfg, hint, kind, x);
    PrefixDecodes(cfg, hint, kind, d.dj, d.blocks, d.jobs, tail, k);
  }

  /** The input and its file stay within 64-bit sizes. */
  predicate Encodable(cfg: Config, hint: uint64, kind: byte, x: seq<byte>) {
    ValidConfig(cfg) && kind <= 3 && |x| < U64_LIMIT && FileFits(DocFor(cfg, hint, kind, x))
  }

  /** The file a single-threaded encoder writes for `x`. */
  function EncodedFile(cfg: Config, hint: uint64, kind: byte, x: seq<byte>): seq<byte>
    requires Encodable(cfg, hint, kind, x)
  {
    FileBytes(DocFor(cfg, hint, kind, x))
  }
}
