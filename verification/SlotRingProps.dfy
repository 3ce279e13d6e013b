/** What the slot ring's invariant gives: no buffer is shared, and a drained ring has written a good file. */
module SlotRingProps {
  import opened Bytes
  import opened Format
  import opened Codec
  import opened Container
  import opened ContainerProof
  import opened FileSpec
  import opened SlotRing
  import opened SlotRingSafe
  import Bound

  // ----- buffers

  predicate Busy(w: Worker) { w.Running? || w.Finished? }

  /** The slot the producer reads or writes outside the mutex. */
  function ProducerSlot(s: State): Option<nat>
    requires Formed(s)
  {
    if FillingPc(s.pc) then Some(Ix(s.fill, |s.slots|)) else if s.pc.Emitting? then Some(Ix(s.emit, |s.slots|)) else None
  }

  function WorkerSlot(s: State, i: nat): Option<nat>
    requires Formed(s) && i < |s.workers|
  {
    if Busy(s.workers[i]) then Some(Ix(s.workers[i].seqNo, |s.slots|)) else None
  }

  /** No two parties touch one slot at a time: not two workers, and not a worker and the producer. */
  lemma NoSharedSlot(s: State, i: nat, j: nat)
    requires Inv(s) && i < |s.workers| && j < |s.workers| && WorkerSlot(s, i).Some?
    ensures i != j ==> WorkerSlot(s, i) != WorkerSlot(s, j)
    ensures WorkerSlot(s, i) != ProducerSlot(s)
  {
    hide Holds, Output, JobOf;
    var q := BusyInWindow(s, i);
    if Busy(s.workers[j]) && i != j {
      var p := BusyInWindow(s, j);
      assert BusyOn(s.workers[i], q) && BusyOn(s.workers[j], p);
      hide Window, WorkersOk, Covered, Sleepers, ProducerOk, InputOk, Output, ValidConfig, Ix, Nth;
      IxDistinct(Min(p, q), Max(p, q), |s.slots|);
    }
    if FillingPc(s.pc) {
      hide Window, WorkersOk, Covered, Sleepers, InputOk, Output, ValidConfig, Ix, Nth;
      IxDistinct(q, s.fill, |s.slots|);
    }
    if s.pc.Emitting? {
      EmittedSlot(s);
      hide Window, WorkersOk, Covered, Sleepers, InputOk, Output, ValidConfig, Ix, Nth;
      if q > s.emit {
        IxDistinct(s.emit, q, |s.slots|);
      }
    }
  }

  /** A slot is free when it is submitted, and holds its own block until it is emitted. */
  lemma SubmittedWasFree(s: State)
    requires Inv(s) && FillingPc(s.pc)
    ensures At(s, s.fill).st == Free
  {
    hide WorkersOk, Covered, Sleepers, InputOk, Output, ValidConfig, Nth;
  }

  // ----- the bytes

  function DocOf(s: State, hint: uint64, kind: byte): Doc {
    Doc(s.cfg, hint, kind, DictJob(s.cfg), s.sub, s.done)
  }

  lemma TopSmall(cfg: Config, q: nat)
    requires ValidConfig(cfg)
    ensures Top(cfg, q) <= LzeMax()
  {
    BlockSizeRange(cfg);
    NeedMonotone(BlockSize(cfg), BLOCK_MAX);
    hide BlockSize, ValidConfig;
  }

  lemma JobOfIsOk(cfg: Config, raw: seq<byte>, q: nat, j: Job)
    requires ValidConfig(cfg) && 0 < |raw| <= BlockSize(cfg) && JobOf(cfg, raw, q, j)
    ensures JobOk(cfg, raw, j)
  {
    TopSmall(cfg, q);
    hide JobOk, CompressJob, LzeMax, Top;
    var m: nat :| m <= Top(cfg, q) && j == CompressJob(cfg, raw, m);
    CompressedOk(cfg, raw, m);
  }

  lemma DrainedState(s: State)
    requires Inv(s) && s.pc == Drained
    ensures ValidConfig(s.cfg) && BlockSize(s.cfg) > 0 && s.sub == Chunks(s.x, BlockSize(s.cfg)) && |s.done| == |s.sub|
    ensures AllSized(s.sub, BlockSize(s.cfg)) && |s.x| < U64_LIMIT
    ensures DoneOk(s.cfg, s.sub, s.done) && Wrote(s.cfg, s.front, s.sub, s.done, s.sink, s.idx, s.rawOffset, s.hashed, false)
  {
    hide Window, WorkersOk, Covered, Alone, Sleepers, JobOf, Wrote, BlockSize, Chunks, AllSized, FillingOk, Nth;
    assert s.sub[..|s.done|] == s.sub;
  }

  lemma DoneJobsOk(cfg: Config, blocks: seq<seq<byte>>, done: seq<Job>)
    requires ValidConfig(cfg) && AllSized(blocks, BlockSize(cfg)) && |done| == |blocks| && DoneOk(cfg, blocks, done)
    ensures JobsOk(cfg, blocks, done)
  {
    hide JobOk, JobOf, BlockSize;
    forall i | 0 <= i < |blocks|
      ensures JobOk(cfg, blocks[i], done[i])
    {
      JobOfIsOk(cfg, blocks[i], i, done[i]);
    }
  }

  lemma ResultIsOk(s: State, hint: uint64, kind: byte)
    requires Inv(s) && s.pc == Drained && kind <= 3
    ensures DocOk(DocOf(s, hint, kind)) && Total(s.sub) == s.x
  {
    hide Inv, JobsOk, DoneOk, Wrote, Chunks, Total, DictJob, DictOk, BlockSize;
    DrainedState(s);
    ChunksTotal(s.x, BlockSize(s.cfg));
    DictJobSmall(s.cfg);
    if s.cfg.dict != [] {
      DictIsOk(s.cfg, kind);
    }
    DoneJobsOk(s.cfg, s.sub, s.done);
    SmallJobs(s.cfg, s.sub, s.done);
  }

  /** When `xq_encoder_finish` has drained the ring, the output up to the end-of-blocks record, the index
      entries and the stream checksum's input are those of one good file for the whole input: for every
      interleaving, any number of threads and any codec. */
  lemma ParallelFileIsGood(s: State, hint: uint64, kind: byte)
    requires Inv(s) && s.pc == Drained && kind <= 3 && ValidConfig(s.cfg) && s.front == Front(s.cfg, hint, kind, DictJob(s.cfg))
    ensures var d := DocOf(s, hint, kind);
            && DocOk(d) && Total(d.blocks) == s.x && s.hashed == s.x
            && s.sink + EobBytes() == MainBytes(d) && s.idx + [Entry(|s.sink|, s.rawOffset)] == DocEntries(d)
  {
    hide Inv, JobsOk, DoneOk, Wrote, Chunks, Total, DictJob, DictOk, BlockSize, Front, EobBytes, MainBytes,
         DocEntries, ValidConfig;
    DrainedState(s);
    ResultIsOk(s, hint, kind);
    WroteIsDoc(s, DocOf(s, hint, kind));
  }

  lemma WroteIsDoc(s: State, d: Doc)
    requires Sized(d) && d.cfg == s.cfg && d.blocks == s.sub && d.jobs == s.done && |s.done| == |s.sub|
    requires s.front == Front(d.cfg, d.hint, d.kind, d.dj)
    requires Wrote(s.cfg, s.front, s.sub, s.done, s.sink, s.idx, s.rawOffset, s.hashed, false)
    ensures s.hashed == Total(d.blocks)
    ensures s.sink + EobBytes() == MainBytes(d) && s.idx + [Entry(|s.sink|, s.rawOffset)] == DocEntries(d)
  {
    hide Front, Body, EobBytes, Total, Entries, ValidConfig;
    var body := Body(s.cfg, s.sub, s.done, 0);
    assert s.front + (body + EobBytes()) == s.front + body + EobBytes();
    EntriesLast(s.cfg, s.sub, s.done, |s.front|, 0);
    var es := DocEntries(d);
    assert es == es[..|s.done|] + [es[|s.done|]];
  }

  /** So the parallel file decodes to the input, and exactly from the end-of-blocks record on. */
  lemma ParallelFileDecodes(s: State, hint: uint64, kind: byte, tail: seq<byte>, k: nat)
    requires Inv(s) && s.pc == Drained && kind <= 3 && ValidConfig(s.cfg) && s.front == Front(s.cfg, hint, kind, DictJob(s.cfg))
    requires k <= |s.sink + EobBytes() + tail|
    ensures DecodeFile((s.sink + EobBytes() + tail)[..k]) == if k >= |s.sink + EobBytes()| then Success(s.x) else Failure(ErrTruncated)
  {
    hide Inv, DecodeFile, DictOk, JobsOk, EobBytes, Total, DictJob, Front, ValidConfig;
    ParallelFileIsGood(s, hint, kind);
    var d := DocOf(s, hint, kind);
    PrefixDecodes(d.cfg, d.hint, d.kind, d.dj, d.blocks, d.jobs, tail, k);
  }

  /** The ring of a one-shot compression for which a bound has been given. */
  predicate OneShot(s: State, p: Bound.Params) {
    && |s.x| < U64_LIMIT && Bound.ValidParams(p) && |s.x| + Pow2(p.blockLog) - 1 < U64_LIMIT && Bound.CompressBound(|s.x|, p) != 0
    && s.cfg == Bound.ConfigFor(p, s.x) && ValidConfig(s.cfg) && |DictJob(s.cfg).payload| <= DICT_MAX
    && s.front == Front(s.cfg, |s.x|, 1, DictJob(s.cfg))
  }

  /** And it stays within the bound a caller of `xq_compress` was given, whatever the workers' contexts made
      of the blocks: a buffer of that size takes it. */
  lemma ParallelWithinBound(s: State, p: Bound.Params)
    requires Inv(s) && s.pc == Drained && OneShot(s, p)
    ensures var d := DocOf(s, |s.x|, 1);
            FileFits(d) && s.sink + EobBytes() <= FileBytes(d) && |FileBytes(d)| <= Bound.CompressBound(|s.x|, p)
  {
    hide Inv, JobsOk, DoneOk, Wrote, Chunks, Total, DictJob, DictOk, Front, EobBytes, MainBytes, DocEntries,
         ValidConfig, Bound.CompressBound, Bound.ConfigFor, FileFits, TailBytes, Pow2;
    ParallelFileIsGood(s, |s.x|, 1);
    DrainedState(s);
    var d := DocOf(s, |s.x|, 1);
    DictJobSmall(s.cfg);
    JobsModest(s.cfg, s.sub, s.done);
    ConfigLog(p, s.x);
    Bound.AnyJobsWithinBound(p, s.x, d);
  }

  /** So the threaded one-shot compression needs no more than the bound, and what it leaves decompresses to
      the input, whatever the threads did. */
  lemma ParallelOneShot(s: State, p: Bound.Params)
    requires Inv(s) && s.pc == Drained && OneShot(s, p)
    ensures var d := DocOf(s, |s.x|, 1);
            FileFits(d) && |FileBytes(d)| <= Bound.CompressBound(|s.x|, p) && DecodeFile(FileBytes(d)) == Success(s.x)
  {
    hide Inv, JobsOk, DictOk, DictJob, Front, Body, EobBytes, MainBytes, TailBytes, FileFits, DecodeFile, Total,
         ValidConfig, Bound.CompressBound, Bound.ConfigFor, Pow2;
    ParallelWithinBound(s, p);
    ParallelFileIsGood(s, |s.x|, 1);
    var d := DocOf(s, |s.x|, 1);
    var file := s.sink + EobBytes() + TailBytes(d);
    assert FileBytes(d) == file == file[..|file|];
    ParallelFileDecodes(s, |s.x|, 1, TailBytes(d), |file|);
  }

  lemma ConfigLog(p: Bound.Params, x: seq<byte>)
    requires |x| < U64_LIMIT
    ensures BlockSize(Bound.ConfigFor(p, x)) == Pow2(p.blockLog)
  {}

  lemma JobsModest(cfg: Config, blocks: seq<seq<byte>>, done: seq<Job>)
    requires DoneOk(cfg, blocks, done) && |done| == |blocks|
    ensures forall i :: 0 <= i < |blocks| ==> |done[i].payload| <= |blocks[i]|
  {
    hide JobOf;
    forall i | 0 <= i < |blocks|
      ensures |done[i].payload| <= |blocks[i]|
    {
      JobSmall(cfg, blocks[i], i, done[i]);
    }
  }
}
