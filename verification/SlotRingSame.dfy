/** When the parallel encoder writes the bytes of the single-threaded one, and when any two parallel runs
    agree: a context's past shows in a job only through the size of its intermediate buffer, and whole
    blocks grow every buffer alike. */
module SlotRingSame {
  import opened Bytes
  import opened Format
  import opened Codec
  import opened Container
  import opened ContainerProof
  import opened FileSpec
  import opened SlotRing
  import opened SlotRingSafe
  import opened SlotRingProps
  import LzeStream

  // ----- the last block

  /** All blocks but the last are whole; the last is what a division leaves over, if anything. */
  lemma {:induction false} ChunkParts(x: seq<byte>, bs: nat)
    requires bs > 0
    ensures var c := Chunks(x, bs);
            && (forall i :: 0 <= i < |c| - 1 ==> |c[i]| == bs)
            && (|x| % bs == 0 ==> AllFull(c, bs))
            && (|x| % bs != 0 ==> |c| > 0 && c[|c| - 1] == x[|x| - |x| % bs..] && |c[|c| - 1]| < bs)
            && (|c| > 1 <==> |x| > bs) && (x != [] ==> c != [])
    decreases |x|
  {
    ModOf(|x|, bs);
    if |x| > bs {
      var rest := x[bs..];
      ChunkParts(rest, bs);
      ModOf(|rest|, bs);
      assert x[|x| - |x| % bs..] == rest[|rest| - |rest| % bs..];
    } else if x != [] && |x| % bs != 0 {
      assert x[0..] == x;
    }
  }

  lemma ModOf(n: nat, bs: nat)
    requires bs > 0
    ensures n % bs <= n && n % bs < bs
    ensures n < bs ==> n % bs == n
    ensures n >= bs ==> n % bs == (n - bs) % bs
    ensures n == bs ==> n % bs == 0
  {
    if n < bs {
      DivUnique(n, bs, 0, n);
    } else {
      var q, r := (n - bs) / bs, (n - bs) % bs;
      assert n - bs == bs * q + r;
      assert bs * (q + 1) == bs * q + bs;
      DivUnique(n, bs, q + 1, r);
    }
    if n == bs {
      DivUnique(n, bs, 1, 0);
    }
  }

  // ----- the exact conditions

  /** Parallel runs over `x` need not agree: there are whole blocks before a shorter last one, whose LZB
      stream is longer than a new context's buffer but not than a used one's, and pays. */
  predicate RingUnstable(cfg: Config, x: seq<byte>) {
    var bs := BlockSize(cfg);
    |x| > bs && |x| % bs != 0 && Unstable(cfg, x[|x| - |x| % bs..], 0, LzeStream.MidNeed(bs))
  }

  /** The largest buffer block `q` can meet, in the ring or in the single-threaded encoder, which has
      coded the dictionary before. */
  function Reach(cfg: Config, q: nat): nat {
    Max(FirstMid(cfg), Top(cfg, q))
  }

  /** Parallel runs over `x` need not give the single-threaded encoder's bytes. */
  predicate SeqUnstable(cfg: Config, x: seq<byte>) {
    var blocks := Chunks(x, BlockSize(cfg));
    exists q :: 0 <= q < |blocks| && Unstable(cfg, blocks[q], 0, Reach(cfg, q))
  }

  lemma {:induction false} UnstableGrows(cfg: Config, raw: seq<byte>, hi: nat, hi': nat)
    requires Unstable(cfg, raw, 0, hi) && hi <= hi'
    ensures Unstable(cfg, raw, 0, hi')
  {}

  /** A whole block meets every buffer of the ring as if it were new. */
  lemma WholeBlockIsStable(cfg: Config, raw: seq<byte>, q: nat)
    requires |raw| == BlockSize(cfg)
    ensures !Unstable(cfg, raw, 0, Top(cfg, q))
  {
    hide LzeStream.LzeForm, LzeStream.MidNeed, BlockSize;
  }

  /** Without that condition no block of the ring depends on its context. */
  lemma RingBlocksStable(cfg: Config, x: seq<byte>, q: nat)
    requires !RingUnstable(cfg, x) && q < |Chunks(x, BlockSize(cfg))|
    ensures !Unstable(cfg, Chunks(x, BlockSize(cfg))[q], 0, Top(cfg, q))
  {
    hide Unstable, Chunks, BlockSize, LzeStream.MidNeed;
    var bs := BlockSize(cfg);
    var c := Chunks(x, bs);
    ChunkParts(x, bs);
    if |c[q]| == bs {
      WholeBlockIsStable(cfg, c[q], q);
    } else if q == 0 {
      NewIsStable(cfg, c[q]);
    }
  }

  lemma NewIsStable(cfg: Config, raw: seq<byte>)
    ensures !Unstable(cfg, raw, 0, 0)
  {
    hide LzeStream.LzeForm, BlockSize;
  }

  lemma RingUnstableIsLast(cfg: Config, x: seq<byte>)
    requires RingUnstable(cfg, x)
    ensures var c := Chunks(x, BlockSize(cfg));
            |c| > 1 && |c[|c| - 1]| < BlockSize(cfg) && Unstable(cfg, c[|c| - 1], 0, Top(cfg, |c| - 1))
  {
    hide Unstable, Chunks, BlockSize, LzeStream.MidNeed;
    ChunkParts(x, BlockSize(cfg));
  }

  // ----- jobs

  lemma RingJob(cfg: Config, raw: seq<byte>, q: nat, j: Job)
    requires JobOf(cfg, raw, q, j) && !Unstable(cfg, raw, 0, Top(cfg, q))
    ensures j == CompressJob(cfg, raw, 0)
  {
    StableIff(cfg, raw, 0, Top(cfg, q));
    hide Unstable, CompressJob, Top;
  }

  /** Two drained runs over the same input have the same jobs, unless the last block is unstable. */
  lemma SameJobs(s: State, t: State)
    requires Inv(s) && Inv(t) && s.pc == Drained && t.pc == Drained && s.cfg == t.cfg && s.x == t.x && !RingUnstable(s.cfg, s.x)
    ensures s.sub == t.sub && s.done == t.done
  {
    hide Inv, JobOf, Wrote, Chunks, RingUnstable, Unstable, ValidConfig, BlockSize, AllSized, CompressJob, Top;
    DrainedState(s);
    DrainedState(t);
    forall q | 0 <= q < |s.sub|
      ensures s.done[q] == t.done[q]
    {
      RingBlocksStable(s.cfg, s.x, q);
      RingJob(s.cfg, s.sub[q], q, s.done[q]);
      RingJob(s.cfg, s.sub[q], q, t.done[q]);
    }
  }

  /** The output of a drained run is a function of its jobs. */
  lemma SameOutput(s: State, t: State)
    requires Inv(s) && Inv(t) && s.pc == Drained && t.pc == Drained && s.cfg == t.cfg && s.front == t.front
    requires s.sub == t.sub && s.done == t.done
    ensures s.sink == t.sink && s.idx == t.idx && s.hashed == t.hashed && s.rawOffset == t.rawOffset
  {
    hide Inv, DoneOk, Chunks, ValidConfig, BlockSize, AllSized, Body, Entries, Total;
    DrainedState(s);
    DrainedState(t);
  }

  // ----- the single-threaded encoder's jobs

  lemma {:induction false} JobsFromAt(cfg: Config, blocks: seq<seq<byte>>, m: nat, q: nat)
    requires q < |blocks|
    ensures JobsFrom(cfg, blocks, m)[q] == CompressJob(cfg, blocks[q], MidAfter(cfg, blocks[..q], m))
    decreases |blocks|
  {
    hide CompressJob, Grown;
    if q == 0 {
      assert blocks[..0] == [];
    } else {
      JobsFromAt(cfg, blocks[1..], Grown(cfg, m, blocks[0]), q - 1);
      assert blocks[..q][1..] == blocks[1..][..q - 1] && blocks[..q][0] == blocks[0];
    }
  }

  /** Whole blocks grow a buffer to a whole block's need, and no further. */
  lemma {:induction false} MidOfWhole(cfg: Config, blocks: seq<seq<byte>>, m: nat)
    requires AllFull(blocks, BlockSize(cfg))
    ensures MidAfter(cfg, blocks, m) == if cfg.codec == Lze && blocks != [] then Max(m, LzeStream.MidNeed(BlockSize(cfg))) else m
    decreases |blocks|
  {
    hide LzeStream.MidNeed, BlockSize;
    if blocks != [] {
      assert blocks[0] != [];
      MidOfWhole(cfg, blocks[1..], Grown(cfg, m, blocks[0]));
    }
  }

  /** The buffer with which the single-threaded encoder meets block `q`. */
  lemma SeqMid(cfg: Config, x: seq<byte>, q: nat)
    requires q < |Chunks(x, BlockSize(cfg))|
    ensures var m := MidAfter(cfg, Chunks(x, BlockSize(cfg))[..q], FirstMid(cfg));
            m <= Reach(cfg, q) && (cfg.codec == Lze ==> m == Reach(cfg, q))
  {
    hide Chunks, BlockSize;
    var c := Chunks(x, BlockSize(cfg));
    ChunkParts(x, BlockSize(cfg));
    assert AllFull(c[..q], BlockSize(cfg));
    MidOfWhole(cfg, c[..q], FirstMid(cfg));
    hide FirstMid;
  }

  lemma DoneIsJobsFrom(s: State)
    requires Inv(s) && s.pc == Drained && !SeqUnstable(s.cfg, s.x)
    ensures s.done == JobsFrom(s.cfg, s.sub, FirstMid(s.cfg))
  {
    hide Inv, JobOf, Wrote, FirstMid, Chunks, Unstable, ValidConfig, BlockSize, AllSized, CompressJob, Top, MidAfter;
    DrainedState(s);
    var seqJobs := JobsFrom(s.cfg, s.sub, FirstMid(s.cfg));
    forall q | 0 <= q < |s.sub|
      ensures s.done[q] == seqJobs[q]
    {
      var b := s.sub[q];
      assert !Unstable(s.cfg, b, 0, Reach(s.cfg, q));
      if Unstable(s.cfg, b, 0, Top(s.cfg, q)) {
        UnstableGrows(s.cfg, b, Top(s.cfg, q), Reach(s.cfg, q));
      }
      RingJob(s.cfg, b, q, s.done[q]);
      JobsFromAt(s.cfg, s.sub, FirstMid(s.cfg), q);
      SeqMid(s.cfg, s.x, q);
      StableIff(s.cfg, b, 0, Reach(s.cfg, q));
    }
  }

  // ----- byte-identical output

  /** Unless a block is unstable over the buffers it can meet, the parallel encoder writes exactly the
      single-threaded encoder's bytes, index and checksum. */
  lemma ParallelIsSequential(s: State, hint: uint64, kind: byte)
    requires Inv(s) && s.pc == Drained && kind <= 3 && ValidConfig(s.cfg) && s.front == Front(s.cfg, hint, kind, DictJob(s.cfg))
    requires |s.x| < U64_LIMIT && !SeqUnstable(s.cfg, s.x)
    ensures var d := DocFor(s.cfg, hint, kind, s.x);
            && DocOf(s, hint, kind) == d && s.hashed == s.x
            && s.sink + EobBytes() == MainBytes(d) && s.idx + [Entry(|s.sink|, s.rawOffset)] == DocEntries(d)
  {
    hide Inv, SeqUnstable, DoneOk, Wrote, FirstMid, Chunks, Total, ValidConfig, Front, EobBytes, BlockSize, DictJob,
         MainBytes, DocEntries;
    ParallelFileIsGood(s, hint, kind);
    DoneIsJobsFrom(s);
    DrainedState(s);
    hide DocOk, JobsFrom;
  }

  /** Whole blocks only, and a dictionary no longer than one: no hypothesis is left, whatever the codec. */
  lemma WholeBlocksAreSequential(s: State, hint: uint64, kind: byte)
    requires Inv(s) && s.pc == Drained && kind <= 3 && ValidConfig(s.cfg) && s.front == Front(s.cfg, hint, kind, DictJob(s.cfg))
    requires |s.x| < U64_LIMIT && |s.cfg.dict| <= BlockSize(s.cfg) && |s.x| % BlockSize(s.cfg) == 0
    ensures s.sink + EobBytes() == MainBytes(DocFor(s.cfg, hint, kind, s.x))
  {
    hide Inv, ValidConfig, DictJob, Front, EobBytes, MainBytes, DocFor, BlockSize, Chunks, Unstable;
    ChunkParts(s.x, BlockSize(s.cfg));
    var c := Chunks(s.x, BlockSize(s.cfg));
    forall q | 0 <= q < |c|
      ensures !Unstable(s.cfg, c[q], 0, Reach(s.cfg, q))
    {
      WholeIsSeqStable(s.cfg, c[q], q);
    }
    ParallelIsSequential(s, hint, kind);
  }

  lemma WholeIsSeqStable(cfg: Config, raw: seq<byte>, q: nat)
    requires |raw| == BlockSize(cfg) && |cfg.dict| <= BlockSize(cfg)
    ensures !Unstable(cfg, raw, 0, Reach(cfg, q))
  {
    NeedMonotone(|cfg.dict|, BlockSize(cfg));
    hide LzeStream.LzeForm, LzeStream.MidNeed, BlockSize;
  }

  /** LZB needs no hypothesis at all. */
  lemma ParallelLzbIsSequential(s: State, hint: uint64, kind: byte)
    requires Inv(s) && s.pc == Drained && kind <= 3 && ValidConfig(s.cfg) && s.front == Front(s.cfg, hint, kind, DictJob(s.cfg))
    requires |s.x| < U64_LIMIT && s.cfg.codec == Lzb
    ensures s.sink + EobBytes() == MainBytes(DocFor(s.cfg, hint, kind, s.x))
  {
    hide Inv, ValidConfig, DictJob, Front, EobBytes, MainBytes, DocFor, BlockSize, Chunks;
    ParallelIsSequential(s, hint, kind);
  }

  // ----- any two runs

  /** A state in which some run over `x` has drained the ring. */
  ghost predicate Ends(cfg: Config, x: seq<byte>, front: seq<byte>, s: State) {
    && s.cfg == cfg && s.x == x && s.front == front && s.pc == Drained
    && exists run: seq<State>, events: seq<Event>, i: nat :: IsRun(run, events) && i < |run| && run[i] == s
  }

  lemma EndsSafe(cfg: Config, x: seq<byte>, front: seq<byte>, s: State)
    requires Ends(cfg, x, front, s)
    ensures Inv(s)
  {
    hide Inv, IsRun;
    var run: seq<State>, events: seq<Event>, i: nat :| IsRun(run, events) && i < |run| && run[i] == s;
    RunsAreSafe(run, events, i);
  }

  /** Two runs over the same input, with whatever numbers of threads and whatever interleavings and write
      splits, end with the same bytes, index entries and checksum input. */
  lemma AnyTwoRunsAgree(cfg: Config, x: seq<byte>, front: seq<byte>, s: State, t: State)
    requires Ends(cfg, x, front, s) && Ends(cfg, x, front, t) && !RingUnstable(cfg, x)
    ensures s.sink == t.sink && s.idx == t.idx && s.hashed == t.hashed && s.rawOffset == t.rawOffset
  {
    EndsSafe(cfg, x, front, s);
    EndsSafe(cfg, x, front, t);
    hide Inv, IsRun, RingUnstable;
    SameJobs(s, t);
    SameOutput(s, t);
  }
}
