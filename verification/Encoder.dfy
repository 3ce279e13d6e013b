/** The single-threaded encoder as an object: input arrives in any pieces, blocks are cut, coded and
    emitted to a memory sink (src/core/xq_encoder.c:99-148, 161-214, 376-444, 535-645,
    src/core/xq_api.c:11-24, 85-114). */
module Encoder {
  import opened Bytes
  import opened Format
  import opened Codec
  import opened Container
  import opened ContainerProof
  import opened FileSpec
  import Words
  import Xxh64

  /** `mem_sink`: a caller's buffer and how much of it is filled. */
  class MemSink {
    const dst: array<byte>
    var len: nat

    predicate Valid()
      reads this
    {
      len <= dst.Length
    }

    function Contents(): seq<byte>
      requires Valid()
      reads this, dst
    {
      dst[..len]
    }

    constructor (dst: array<byte>)
      ensures Valid() && this.dst == dst && len == 0
    {
      this.dst := dst;
      len := 0;
    }

    /** Takes all of `buf` or none of it. */
    method Write(buf: seq<byte>) returns (st: Status)
      requires Valid()
      modifies this, dst
      ensures Valid() && st == if old(len) + |buf| <= dst.Length then XqOk else ErrDstTooSmall
      ensures Contents() == if st == XqOk then old(Contents()) + buf else old(Contents())
    {
      if |buf| > dst.Length - len {
        return ErrDstTooSmall;
      }
      forall i | 0 <= i < |buf| {
        dst[len + i] := buf[i];
      }
      len := len + |buf|;
      st := XqOk;
    }
  }

  /** What a new encoder writes first. */
  function FrontBytes(cfg: Config, hint: uint64, kind: byte): seq<byte>
    requires ValidConfig(cfg)
  {
    DictJobSmall(cfg);
    Front(cfg, hint, kind, DictJob(cfg))
  }

  /** What has been emitted, for the blocks so far. */
  ghost predicate Emitted(cfg: Config, hint: uint64, kind: byte, blocks: seq<seq<byte>>, jobs: seq<Job>, want: seq<byte>, idx: seq<Entry>) {
    && ValidConfig(cfg) && Small(blocks, jobs)
    && var front := FrontBytes(cfg, hint, kind);
       && want == front + Body(cfg, blocks, jobs, 0)
       && idx == Entries(cfg, blocks, jobs, |front|, 0)[..|blocks|]
  }

  /** One context's jobs, in order. */
  predicate InOrder(cfg: Config, blocks: seq<seq<byte>>, jobs: seq<Job>, midCap: nat) {
    jobs == JobsFrom(cfg, blocks, FirstMid(cfg)) && midCap == MidAfter(cfg, blocks, FirstMid(cfg))
  }

  class Enc {
    const sink: MemSink
    const cfg: Config
    const hint: uint64
    const kind: byte
    const raw: array<byte>
    const streamCk: Xxh64.State
    var rawLen: nat
    var rawOffset: nat
    var fileOffset: nat
    var idx: seq<Entry>
    var midCap: nat
    var sticky: Status
    var finished: bool
    ghost var blocks: seq<seq<byte>>   // blocks handed to emit_job
    ghost var jobs: seq<Job>
    ghost var want: seq<byte>          // the bytes of all of them, had the sink room

    ghost predicate Apart()
    {
      raw != sink.dst && raw.Length == BlockSize(cfg)
    }

    ghost predicate Out()
      reads `sticky, `want, `fileOffset, sink, sink.dst
    {
      && sink.Valid()
      && if sticky == XqOk then sink.Contents() == want && fileOffset == |want| else sticky == ErrDstTooSmall && sink.dst.Length < |want|
    }

    ghost predicate Hashed()
      reads `sticky, `rawOffset, `blocks, streamCk
    {
      && streamCk.Valid() && streamCk.seed == 0
      && (sticky == XqOk ==> rawOffset == |Total(blocks)| && (cfg.checksum != NoChecksum ==> streamCk.data == Total(blocks)))
    }

    ghost predicate Coded()
      reads `blocks, `jobs, `want, `idx, `midCap
    {
      Emitted(cfg, hint, kind, blocks, jobs, want, idx) && InOrder(cfg, blocks, jobs, midCap)
    }

    ghost predicate Valid()
      reads this, sink, sink.dst, streamCk, raw
    {
      Apart() && Out() && Hashed() && Coded() && rawLen <= raw.Length && BlockSize(cfg) > 0
    }

    /** Everything taken in so far. */
    ghost function Written(): seq<byte>
      reads `blocks, `rawLen, raw
    {
      Total(blocks) + Buffered()
    }

    function Buffered(): seq<byte>
      reads `rawLen, raw
    {
      raw[..Min(rawLen, raw.Length)]
    }

    /** The blocks, with what is buffered as the last one. */
    ghost function Cut(): seq<seq<byte>>
      reads `blocks, `rawLen, raw
    {
      blocks + if rawLen == 0 then [] else [Buffered()]
    }

    /** `emit`: the first failure sticks. */
    method Emit(buf: seq<byte>)
      requires sink.Valid()
      modifies this`sticky, this`fileOffset, sink, sink.dst
      ensures sink.Valid()
      ensures old(sticky) == XqOk ==> sticky == if old(sink.len) + |buf| <= sink.dst.Length then XqOk else ErrDstTooSmall
      ensures old(sticky) != XqOk ==> sticky == old(sticky)
      ensures sticky == XqOk ==> sink.Contents() == old(sink.Contents()) + buf && fileOffset == old(fileOffset) + |buf|
      ensures sink.len <= old(sink.len) + |buf|
      ensures sticky == XqOk ==> sink.len == old(sink.len) + |buf|
      ensures sticky != XqOk ==> sink.len == old(sink.len)
    {
      if sticky != XqOk {
        return;
      }
      var st := sink.Write(buf);
      if st != XqOk {
        sticky := st;
        return;
      }
      fileOffset := fileOffset + |buf|;
    }

    /** Three emits one after the other: all of the bytes, or a failure for want of room. */
    method EmitThree(a: seq<byte>, b: seq<byte>, c: seq<byte>)
      requires sink.Valid() && sticky == XqOk
      modifies this`sticky, this`fileOffset, sink, sink.dst
      ensures sink.Valid()
      ensures sticky == if old(sink.len) + |a + b + c| <= sink.dst.Length then XqOk else ErrDstTooSmall
      ensures sticky == XqOk ==> sink.Contents() == old(sink.Contents()) + (a + b + c) && fileOffset == old(fileOffset) + |a + b + c|
    {
      ghost var s0 := sink.Contents();
      Emit(a);
      Emit(b);
      Emit(c);
      if sticky == XqOk {
        assert s0 + a + b + c == s0 + (a + b + c);
      }
    }

    constructor (sink: MemSink, cfg: Config, hint: uint64, kind: byte)
      requires ValidConfig(cfg)
      ensures Blank() && fresh(raw) && fresh(streamCk)
      ensures this.sink == sink && this.cfg == cfg && this.hint == hint && this.kind == kind
    {
      hide FirstMid, FrontBytes, ValidConfig, BlockSize, Body, Entries, Front;
      BlockSizeRange(cfg);
      this.sink, this.cfg, this.hint, this.kind := sink, cfg, hint, kind;
      raw := new byte[BlockSize(cfg)];
      streamCk := new Xxh64.State(0);
      rawLen, rawOffset, fileOffset, idx, midCap, sticky, finished := 0, 0, 0, [], FirstMid(cfg), XqOk, false;
      blocks, jobs, want := [], [], FrontBytes(cfg, hint, kind);
    }

    /** Nothing written yet, not even the header. */
    ghost predicate Blank()
      reads this, streamCk
    {
      && ValidConfig(cfg) && raw.Length == BlockSize(cfg) > 0 && streamCk.Valid() && streamCk.seed == 0 && streamCk.data == []
      && rawLen == 0 && rawOffset == 0 && fileOffset == 0 && idx == [] && midCap == FirstMid(cfg) && sticky == XqOk && !finished
      && blocks == [] && jobs == [] && want == FrontBytes(cfg, hint, kind)
    }

    /** The header and the dictionary record. */
    method Start()
      requires Blank() && sink.Valid() && sink.len == 0 && raw != sink.dst
      modifies this`sticky, this`fileOffset, sink, sink.dst
      ensures Writing() && Written() == []
    {
      hide FirstMid, FrontBytes, ValidConfig, BlockSize, Emitted, InOrder, Total;
      FrontIsEmitted(cfg, hint, kind);
      EmitFront();
    }

    method EmitFront()
      requires ValidConfig(cfg) && sink.Valid() && sink.len == 0 && sticky == XqOk && fileOffset == 0 && want == FrontBytes(cfg, hint, kind)
      modifies this`sticky, this`fileOffset, sink, sink.dst
      ensures Out()
    {
      hide StoreHeader, HeaderFor, DictRecord, DictJob, ValidConfig;
      DictJobSmall(cfg);
      var header := StoreHeader(HeaderFor(cfg, hint));
      var dict := if cfg.dict == [] then [] else DictRecord(cfg, kind, DictJob(cfg));
      assert sink.Contents() == [];
      assert header + dict + [] == want;
      EmitThree(header, dict, []);
    }

    /** Between calls of `Write`. */
    ghost predicate Writing()
      reads this, sink, sink.dst, streamCk, raw
    {
      Valid() && AllFull(blocks, BlockSize(cfg)) && rawLen < BlockSize(cfg)
    }

    /** `emit_job`: index entry, header, payload, checksum; then the stream checksum and the offset. */
    method EmitJob(b: seq<byte>, j: Job)
      requires Out() && Hashed() && sticky == XqOk
      requires Emitted(cfg, hint, kind, blocks, jobs, want, idx) && |Total(blocks + [b])| < U64_LIMIT
      requires |b| <= BLOCK_MAX && |j.payload| <= BLOCK_MAX
      modifies this`sticky, this`fileOffset, this`idx, this`rawOffset, this`blocks, this`jobs, this`want, sink, sink.dst, streamCk
      ensures Out() && Hashed() && Emitted(cfg, hint, kind, blocks, jobs, want, idx)
      ensures blocks == old(blocks) + [b] && jobs == old(jobs) + [j]
    {
      hide Emitted, StoreBlock, ChecksumBytes, Total, BlockHeaderFor;
      EmittedGrows(cfg, hint, kind, blocks, jobs, want, idx, b, j);
      idx := idx + [Entry(fileOffset, rawOffset)];
      var header := StoreBlock(BlockHeaderFor(cfg, b, rawOffset, j));
      var sum := ChecksumBytes(cfg.checksum, j.payload);
      want := want + BlockBytes(cfg, b, rawOffset, j);
      blocks, jobs := blocks + [b], jobs + [j];
      EmitThree(header, j.payload, sum);
      if sticky != XqOk {
        return;
      }
      if cfg.checksum != NoChecksum {
        streamCk.Update(b);
      }
      rawOffset := rawOffset + |b|;
    }

    /** `flush_block` without threads: the job of the buffered bytes, then its emission. */
    method FlushBlock()
      requires Valid() && sticky == XqOk && |Written()| < U64_LIMIT
      modifies this`sticky, this`fileOffset, this`idx, this`rawOffset, this`blocks, this`jobs, this`want, this`rawLen, this`midCap, sink, sink.dst, streamCk
      ensures Valid() && rawLen == 0 && blocks == old(Cut()) && Written() == old(Written())
    {
      hide Coded, BlockSize, Total, Hashed, Out;
      if rawLen == 0 {
        assert blocks + [] == blocks;
        return;
      }
      var b := Buffered();
      TotalSnoc(blocks, b);
      CodeBlock(b);
      rawLen := 0;
      NoRest(Total(blocks), raw[..]);
      assert Buffered() == raw[..][..0];
    }

    method CodeBlock(b: seq<byte>)
      requires Out() && Hashed() && Coded() && sticky == XqOk && |b| <= BlockSize(cfg) && |Total(blocks + [b])| < U64_LIMIT
      modifies this`sticky, this`fileOffset, this`idx, this`rawOffset, this`blocks, this`jobs, this`want, this`midCap, sink, sink.dst, streamCk
      ensures Out() && Hashed() && Coded() && blocks == old(blocks) + [b]
    {
      hide Emitted, InOrder, CompressJob, Grown, BlockSize, Total, Hashed, Out;
      var j := CompressJob(cfg, b, midCap);
      FlushFacts(cfg, hint, kind, blocks, jobs, want, idx, b, midCap);
      midCap := Grown(cfg, midCap, b);
      EmitJob(b, j);
    }

    /** `xq_encoder_write`: any number of bytes; every full block is flushed. */
    method Write(buf: seq<byte>)
      requires Writing() && !finished && sticky == XqOk && |Written()| + |buf| < U64_LIMIT
      modifies this`sticky, this`fileOffset, this`idx, this`rawOffset, this`blocks, this`jobs, this`want, this`rawLen, this`midCap, sink, sink.dst, streamCk, raw
      ensures Writing()
      ensures sticky == XqOk ==> Written() == old(Written()) + buf
      ensures Written() <= old(Written()) + buf
    {
      hide Out, Hashed, Coded, Total, BlockSize, Written;
      var p := 0;
      while p < |buf|
        invariant 0 <= p <= |buf| && Writing()
        invariant sticky == XqOk && Written() == old(Written()) + buf[..p]
      {
        var take := Min(|buf| - p, raw.Length - rawLen);
        Joined(old(Written()), buf, p, take);
        WriteStep(buf[p..p + take]);
        p := p + take;
        if sticky != XqOk {
          return;
        }
      }
      assert buf[..p] == buf;
    }

    /** One round: as much as the block has room for; a full block is flushed. */
    method WriteStep(piece: seq<byte>)
      requires Writing() && sticky == XqOk && |Written()| + |piece| < U64_LIMIT && rawLen + |piece| <= raw.Length
      modifies this`sticky, this`fileOffset, this`idx, this`rawOffset, this`blocks, this`jobs, this`want, this`rawLen, this`midCap, sink, sink.dst, streamCk, raw
      ensures Writing() && Written() == old(Written()) + piece
    {
      hide Out, Hashed, Coded, Total, BlockSize, Written;
      Append(piece);
      if rawLen == raw.Length {
        FlushBlock();
      }
    }

    /** `memcpy` behind what the buffer holds. */
    method Append(piece: seq<byte>)
      requires Valid() && sticky == XqOk && AllFull(blocks, BlockSize(cfg)) && rawLen + |piece| <= raw.Length
      modifies raw, this`rawLen
      ensures Valid() && Written() == old(Written()) + piece && rawLen == old(rawLen) + |piece|
    {
      hide Coded, Total, BlockSize, Out, Hashed;
      forall i | 0 <= i < |piece| {
        raw[rawLen + i] := piece[i];
      }
      rawLen := rawLen + |piece|;
      assert Buffered() == old(Buffered()) + piece;
      assert Total(blocks) + (old(Buffered()) + piece) == Total(blocks) + old(Buffered()) + piece;
    }

    static lemma EncodableFits(cfg: Config, hint: uint64, kind: byte, x: seq<byte>)
      requires Encodable(cfg, hint, kind, x)
      ensures |x| < U64_LIMIT
    {
      hide FileFits;
    }

    /** `xq_encoder_finish`: the last block, the end of blocks, index and footer. Succeeds exactly when the
        sink has room for the whole file. */
    method Finish() returns (st: Status)
      requires Writing() && !finished && sticky == XqOk && Encodable(cfg, hint, kind, Written())
      modifies this, sink, sink.dst, streamCk
      ensures st == XqOk <==> |EncodedFile(cfg, hint, kind, old(Written()))| <= sink.dst.Length
      ensures st == XqOk ==> sink.Valid() && sink.Contents() == EncodedFile(cfg, hint, kind, old(Written())) && finished
      ensures st == XqOk || st == ErrDstTooSmall
    {
      hide Out, Hashed, Emitted, InOrder, Encodable, EncodedFile, BlockSize, Total, Ending, CanEnd;
      EncodableFits(cfg, hint, kind, Written());
      ghost var x, full, last := Written(), blocks, Buffered();
      FlushBlock();
      CutIsFile(cfg, hint, kind, full, last, jobs, want, idx, midCap);
      st := EmitTail(EncodedFile(cfg, hint, kind, x));
    }

    /** Everything behind the blocks. */
    method EmitTail(ghost file: seq<byte>) returns (st: Status)
      requires Out() && Hashed() && CanEnd(want, idx, Total(blocks)) && file == want + Ending(cfg, want, idx, Total(blocks))
      modifies this, sink, sink.dst
      ensures (st == XqOk <==> |file| <= sink.dst.Length) && (st == XqOk || st == ErrDstTooSmall)
      ensures st == XqOk ==> sink.Valid() && sink.Contents() == file && finished
    {
      hide EobBytes, Total, IndexRecord, StoreFooter, StreamSum, Fits, Ending, CanEnd, FooterFor, Hashed;
      ghost var index, footer := EndingParts(cfg, want, idx, Total(blocks));
      if sticky != XqOk {
        return sticky;
      }
      var sum := StreamSumNow();
      RawOffsetNow();
      ghost var entries := idx + [Entry(|want|, |Total(blocks)|)];
      EmitEob();
      hide Out;
      if sticky != XqOk {
        return sticky;
      }
      assert idx == entries;
      st := EmitEnd(sum, file);
    }

    /** The index, when there is a block, and the footer. */
    method EmitEnd(sum: uint64, ghost file: seq<byte>) returns (st: Status)
      requires sink.Valid() && sticky == XqOk && Fits(idx) && idx != [] && rawOffset < U64_LIMIT && fileOffset >= FILE_HEADER_SIZE
      requires fileOffset + RECORD_HEADER_SIZE + INDEX_PREAMBLE + INDEX_ENTRY_SIZE * |idx| < U64_LIMIT
      requires var index := IndexRecord(rawOffset, fileOffset, idx);
               file == sink.Contents() + (index + StoreFooter(FooterFor(fileOffset, |index|, sum)))
      modifies this`sticky, this`fileOffset, this`finished, sink, sink.dst
      ensures (st == XqOk <==> |file| <= sink.dst.Length) && (st == XqOk || st == ErrDstTooSmall)
      ensures st == XqOk ==> sink.Valid() && sink.Contents() == file && finished
    {
      var index := IndexRecord(rawOffset, fileOffset, idx);
      hide IndexRecord, StoreFooter, Fits, FooterFor;
      var footer := StoreFooter(FooterFor(fileOffset, |index|, sum));
      EmitThree(index, footer, []);
      assert index + footer + [] == index + footer;
      st := sticky;
      finished := st == XqOk;
    }

    lemma RawOffsetNow()
      requires Hashed() && sticky == XqOk
      ensures rawOffset == |Total(blocks)|
    {}

    /** The end-of-blocks record, and the index entry that points at it. */
    method EmitEob()
      requires Out() && sticky == XqOk
      modifies this`sticky, this`fileOffset, this`idx, sink, sink.dst
      ensures sink.Valid()
      ensures sticky == if |want| + RECORD_HEADER_SIZE <= sink.dst.Length then XqOk else ErrDstTooSmall
      ensures sticky == XqOk ==> sink.Contents() == want + EobBytes() && fileOffset == |want| + RECORD_HEADER_SIZE
                                 && idx == old(idx) + [Entry(|want|, rawOffset)]
    {
      hide EobBytes;
      var indexOffset := fileOffset;
      Emit(EobBytes());
      if sticky == XqOk {
        idx := idx + [Entry(indexOffset, rawOffset)];
      }
    }

    method StreamSumNow() returns (v: uint64)
      requires Hashed() && sticky == XqOk
      ensures v == StreamSum(cfg, Total(blocks))
    {
      hide Total, Xxh64.Hash, Words.ToU64;
      if cfg.checksum == NoChecksum {
        return 0;
      }
      var h := streamCk.Final();
      v := Words.ToU64(h);
    }
  }

  ghost predicate CanEnd(want: seq<byte>, idx: seq<Entry>, x: seq<byte>) {
    && |x| < U64_LIMIT && Fits(idx + [Entry(|want|, |x|)]) && |want| >= FILE_HEADER_SIZE
    && |want| + 2 * RECORD_HEADER_SIZE + INDEX_PREAMBLE + INDEX_ENTRY_SIZE * (|idx| + 1) + FOOTER_SIZE < U64_LIMIT
  }

  /** The end-of-blocks record, the index and the footer behind what has been written. */
  ghost function Ending(cfg: Config, want: seq<byte>, idx: seq<Entry>, x: seq<byte>): seq<byte>
    requires CanEnd(want, idx, x)
  {
    var offset := |want| + RECORD_HEADER_SIZE;
    var index := IndexRecord(|x|, offset, idx + [Entry(|want|, |x|)]);
    EobBytes() + (index + StoreFooter(FooterFor(offset, |index|, StreamSum(cfg, x))))
  }

  lemma EndingParts(cfg: Config, want: seq<byte>, idx: seq<Entry>, x: seq<byte>) returns (index: seq<byte>, footer: seq<byte>)
    requires CanEnd(want, idx, x)
    ensures var offset := |want| + RECORD_HEADER_SIZE;
            && Fits(idx + [Entry(|want|, |x|)]) && |x| < U64_LIMIT && |want| >= FILE_HEADER_SIZE && offset + |index| < U64_LIMIT
            && offset + RECORD_HEADER_SIZE + INDEX_PREAMBLE + INDEX_ENTRY_SIZE * (|idx| + 1) < U64_LIMIT
            && index == IndexRecord(|x|, offset, idx + [Entry(|want|, |x|)])
            && footer == StoreFooter(FooterFor(offset, |index|, StreamSum(cfg, x)))
            && want + Ending(cfg, want, idx, x) == want + EobBytes() + (index + footer)
  {
    hide EobBytes, StoreFooter, StreamSum, Fits;
    index := IndexRecord(|x|, |want| + RECORD_HEADER_SIZE, idx + [Entry(|want|, |x|)]);
    hide IndexRecord;
    footer := StoreFooter(FooterFor(|want| + RECORD_HEADER_SIZE, |index|, StreamSum(cfg, x)));
    Assoc(want, EobBytes(), index + footer);
  }

  lemma CutIsDoc(cfg: Config, hint: uint64, kind: byte, full: seq<seq<byte>>, last: seq<byte>, jobs: seq<Job>, want: seq<byte>, idx: seq<Entry>, midCap: nat)
    requires BlockSize(cfg) > 0 && AllFull(full, BlockSize(cfg)) && |last| <= BlockSize(cfg)
    requires var cut := full + if last == [] then [] else [last];
             Emitted(cfg, hint, kind, cut, jobs, want, idx) && InOrder(cfg, cut, jobs, midCap)
    requires |Total(full) + last| < U64_LIMIT
    ensures var d := DocFor(cfg, hint, kind, Total(full) + last);
            && d.cfg == cfg && d.blocks == full + (if last == [] then [] else [last])
            && want + EobBytes() == MainBytes(d) && idx + [Entry(|want|, |Total(d.blocks)|)] == DocEntries(d)
  {
    hide ValidConfig, Body, Entries, EobBytes, Total, BlockSize, JobsFrom, FirstMid, DictJob, Front, Chunks;
    var x := Total(full) + last;
    ChunksUnique(full, last, BlockSize(cfg));
    var d := DocFor(cfg, hint, kind, x);
    EntriesLast(cfg, d.blocks, d.jobs, FrontLen(d), 0);
    var es := DocEntries(d);
    assert es == es[..|jobs|] + [es[|jobs|]];
    assert want + EobBytes() == FrontBytes(cfg, hint, kind) + (Body(cfg, d.blocks, jobs, 0) + EobBytes());
  }

  lemma CutIsFile(cfg: Config, hint: uint64, kind: byte, full: seq<seq<byte>>, last: seq<byte>, jobs: seq<Job>, want: seq<byte>, idx: seq<Entry>, midCap: nat)
    requires BlockSize(cfg) > 0 && AllFull(full, BlockSize(cfg)) && |last| <= BlockSize(cfg)
    requires var cut := full + if last == [] then [] else [last];
             Emitted(cfg, hint, kind, cut, jobs, want, idx) && InOrder(cfg, cut, jobs, midCap)
    requires Encodable(cfg, hint, kind, Total(full) + last)
    ensures var x := Total(full) + last;
            Total(full + if last == [] then [] else [last]) == x
            && CanEnd(want, idx, x) && EncodedFile(cfg, hint, kind, x) == want + Ending(cfg, want, idx, x)
  {
    hide ValidConfig, Emitted, InOrder, FileFits, DocFor, Total, EobBytes, BlockSize, MainBytes, DocEntries, Sized,
         Ending, CanEnd, FileBytes;
    var x := Total(full) + last;
    CutIsDoc(cfg, hint, kind, full, last, jobs, want, idx, midCap);
    var d := DocFor(cfg, hint, kind, x);
    DocEnds(d, want, idx);
  }

  lemma DocCanEnd(d: Doc, want: seq<byte>, idx: seq<Entry>)
    requires FileFits(d) && want + EobBytes() == MainBytes(d) && idx + [Entry(|want|, |Total(d.blocks)|)] == DocEntries(d)
    ensures CanEnd(want, idx, Total(d.blocks))
  {
    hide EobBytes, Total, MainBytes, DocEntries, Fits, ValidConfig, FrontLen, Body;
    EntriesFit(d);
    MainLen(d);
    assert |idx + [Entry(|want|, |Total(d.blocks)|)]| == |idx| + 1;
  }

  lemma DocEnds(d: Doc, want: seq<byte>, idx: seq<Entry>)
    requires FileFits(d) && want + EobBytes() == MainBytes(d) && idx + [Entry(|want|, |Total(d.blocks)|)] == DocEntries(d)
    ensures CanEnd(want, idx, Total(d.blocks)) && FileBytes(d) == want + Ending(d.cfg, want, idx, Total(d.blocks))
  {
    hide EobBytes, Total, IndexRecord, StoreFooter, MainBytes, DocEntries, Fits, ValidConfig, StreamSum, FrontLen,
         Body, FileFits;
    DocCanEnd(d, want, idx);
    hide CanEnd;
    Assoc(want, EobBytes(), TailBytes(d));
  }

  lemma Assoc(a: seq<byte>, b: seq<byte>, c: seq<byte>)
    ensures a + b + c == a + (b + c)
  {}

  lemma Joined(w: seq<byte>, buf: seq<byte>, p: nat, take: nat)
    requires p + take <= |buf|
    ensures w + buf[..p] + buf[p..p + take] == w + buf[..p + take] && w + buf[..p + take] <= w + buf
  {
    assert buf[..p] + buf[p..p + take] == buf[..p + take];
  }

  lemma NoRest(a: seq<byte>, b: seq<byte>)
    ensures a + b[..0] == a
  {}

  lemma FlushFacts(cfg: Config, hint: uint64, kind: byte, blocks: seq<seq<byte>>, jobs: seq<Job>, want: seq<byte>, idx: seq<Entry>, b: seq<byte>, midCap: nat)
    requires Emitted(cfg, hint, kind, blocks, jobs, want, idx) && InOrder(cfg, blocks, jobs, midCap) && |b| <= BlockSize(cfg)
    ensures var j := CompressJob(cfg, b, midCap);
            |b| <= BLOCK_MAX && |j.payload| <= BLOCK_MAX && InOrder(cfg, blocks + [b], jobs + [j], Grown(cfg, midCap, b))
  {
    BlockSizeRange(cfg);
    JobShrinks(cfg, b, midCap);
    JobsSnoc(cfg, blocks, b, FirstMid(cfg));
    hide CompressJob, Grown, JobsFrom, MidAfter, FirstMid, Small, FrontBytes, Body, Entries, ValidConfig;
  }

  lemma EmittedGrows(cfg: Config, hint: uint64, kind: byte, blocks: seq<seq<byte>>, jobs: seq<Job>, want: seq<byte>, idx: seq<Entry>, b: seq<byte>, j: Job)
    requires Emitted(cfg, hint, kind, blocks, jobs, want, idx)
    requires |b| <= BLOCK_MAX && |j.payload| <= BLOCK_MAX && |Total(blocks + [b])| < U64_LIMIT
    ensures |Total(blocks)| < U64_LIMIT && Total(blocks + [b]) == Total(blocks) + b
    ensures Emitted(cfg, hint, kind, blocks + [b], jobs + [j], want + BlockBytes(cfg, b, |Total(blocks)|, j), idx + [Entry(|want|, |Total(blocks)|)])
  {
    hide Entries, Total, Body, BlockBytes, BlockLen, ValidConfig, FrontBytes;
    var front := FrontBytes(cfg, hint, kind);
    BodySnoc(cfg, blocks, jobs, b, j, 0);
    TotalSnoc(blocks, b);
    SmallGrows(blocks, jobs, b, j);
    IndexGrows(cfg, blocks, jobs, |front|, b, j);
    hide Small;
    assert front + (Body(cfg, blocks, jobs, 0) + BlockBytes(cfg, b, |Total(blocks)|, j))
        == front + Body(cfg, blocks, jobs, 0) + BlockBytes(cfg, b, |Total(blocks)|, j);
  }

  lemma FrontIsEmitted(cfg: Config, hint: uint64, kind: byte)
    requires ValidConfig(cfg)
    ensures Emitted(cfg, hint, kind, [], [], FrontBytes(cfg, hint, kind), []) && InOrder(cfg, [], [], FirstMid(cfg)) && Total([]) == []
  {
    hide FrontBytes, ValidConfig, FirstMid;
    assert Total([]) == [];
    assert Body(cfg, [], [], 0) == [];
    assert FrontBytes(cfg, hint, kind) + [] == FrontBytes(cfg, hint, kind);
  }
}
