/** Byte-identical output, exactly: for which inputs all parallel runs agree, and for which they agree with
    the single-threaded encoder. Where they need not, two runs that differ. */
module SlotRingExact {
  import opened Bytes
  import opened Format
  import opened Codec
  import opened Container
  import opened ContainerProof
  import opened FileSpec
  import opened SlotRing
  import opened SlotRingSafe
  import opened SlotRingProps
  import opened SlotRingSame
  import opened SlotRingScript
  import LzeStream

  // ----- two assignments

  /** Worker 0 takes every block. */
  function OneForAll(k: nat): seq<nat> { seq(k, _ => 0) }

  /** Worker 0 takes every block but the last, which goes to worker 1. */
  function NewForLast(k: nat): seq<nat> { seq(k, q => if q == k - 1 then 1 else 0) }

  /** The buffer of the one worker that took all blocks before. */
  lemma {:induction false} MidOfAll(cfg: Config, blocks: seq<seq<byte>>, own: seq<nat>, q: nat, i: nat)
    requires q <= |blocks| == |own| && AllFull(blocks[..q], BlockSize(cfg))
    requires forall p :: 0 <= p < q ==> own[p] == i
    ensures MidOf(cfg, blocks, own, q, i) == if cfg.codec == Lze then Top(cfg, q) else 0
    decreases q
  {
    hide LzeStream.MidNeed, BlockSize;
    if q > 0 {
      assert blocks[..q][q - 1] == blocks[q - 1];
      assert AllFull(blocks[..q - 1], BlockSize(cfg)) by {
        assert forall p :: 0 <= p < q - 1 ==> blocks[..q - 1][p] == blocks[..q][p];
      }
      MidOfAll(cfg, blocks, own, q - 1, i);
    }
  }

  lemma {:induction false} MidOfNone(cfg: Config, blocks: seq<seq<byte>>, own: seq<nat>, q: nat, i: nat)
    requires q <= |blocks| == |own| && forall p :: 0 <= p < q ==> own[p] != i
    ensures MidOf(cfg, blocks, own, q, i) == 0
    decreases q
  {
    hide Grown;
    if q > 0 {
      MidOfNone(cfg, blocks, own, q - 1, i);
    }
  }

  lemma WholeBefore(cfg: Config, x: seq<byte>, q: nat)
    requires q < |Chunks(x, BlockSize(cfg))|
    ensures AllFull(Chunks(x, BlockSize(cfg))[..q], BlockSize(cfg))
  {
    hide Chunks, BlockSize;
    ChunkParts(x, BlockSize(cfg));
  }

  /** One worker for all: every block meets the largest buffer it can. */
  lemma UsedJob(cfg: Config, x: seq<byte>, q: nat)
    requires cfg.codec == Lze && q < |Chunks(x, BlockSize(cfg))|
    ensures var c := Chunks(x, BlockSize(cfg)); JobBy(cfg, c, OneForAll(|c|), q) == CompressJob(cfg, c[q], Top(cfg, q))
  {
    hide Chunks, BlockSize, Top, CompressJob, MidOf;
    var c := Chunks(x, BlockSize(cfg));
    WholeBefore(cfg, x, q);
    MidOfAll(cfg, c, OneForAll(|c|), q, 0);
  }

  /** A new worker for the last: every block might as well have met a new context. */
  lemma NewJob(cfg: Config, x: seq<byte>, q: nat)
    requires q < |Chunks(x, BlockSize(cfg))|
    ensures var c := Chunks(x, BlockSize(cfg)); JobBy(cfg, c, NewForLast(|c|), q) == CompressJob(cfg, c[q], 0)
  {
    hide Chunks, BlockSize, Top, CompressJob, MidOf, Unstable;
    var c := Chunks(x, BlockSize(cfg));
    var own := NewForLast(|c|);
    if q == |c| - 1 {
      MidOfNone(cfg, c, own, q, 1);
    } else {
      ChunkParts(x, BlockSize(cfg));
      WholeBefore(cfg, x, q);
      MidOfAll(cfg, c, own, q, 0);
      WholeBlockIsStable(cfg, c[q], q);
      StableIff(cfg, c[q], 0, Top(cfg, q));
    }
  }

  /** A run in which every job is what a new context makes. */
  lemma NewRun(cfg: Config, x: seq<byte>, front: seq<byte>, n: nat) returns (s: State)
    requires ValidConfig(cfg) && |x| < U64_LIMIT && n > 1
    ensures Ends(cfg, x, front, s) && s.sub == Chunks(x, BlockSize(cfg)) && |s.done| == |s.sub| && |s.workers| == n
    ensures forall q :: 0 <= q < |s.done| ==> s.done[q] == CompressJob(cfg, s.sub[q], 0)
  {
    hide Chunks, BlockSize, ValidConfig, CompressJob, JobBy, IsRun, NewForLast;
    var c := Chunks(x, BlockSize(cfg));
    var own := NewForLast(|c|);
    NewAssigns(c, n);
    var run, events := EveryAssignmentRuns(cfg, x, front, n, own);
    RunLasts(run, events, |events|);
    s := run[|events|];
    assert Ends(cfg, x, front, s) by {
      assert IsRun(run, events) && |events| < |run| && run[|events|] == s;
    }
    forall q | 0 <= q < |s.done|
      ensures s.done[q] == CompressJob(cfg, s.sub[q], 0)
    {
      NewJob(cfg, x, q);
    }
  }

  lemma NewAssigns(c: seq<seq<byte>>, n: nat)
    requires n > 1
    ensures Assigns(NewForLast(|c|), c, n) && Assigns(OneForAll(|c|), c, n)
  {}

  lemma {:induction false} RunLasts(run: seq<State>, events: seq<Event>, i: nat)
    requires IsRun(run, events) && i <= |events|
    ensures |run| == |events| + 1 && |run[i].workers| == |run[0].workers|
  {
    hide Initial, Steps;
    if i > 0 {
      RunLasts(run, events, i - 1);
      StepIsFixed(run[i - 1], events[i - 1], run[i]);
    }
  }

  /** A run in which one worker makes every job. */
  lemma UsedRun(cfg: Config, x: seq<byte>, front: seq<byte>, n: nat) returns (s: State)
    requires ValidConfig(cfg) && |x| < U64_LIMIT && n > 1 && cfg.codec == Lze
    ensures Ends(cfg, x, front, s) && s.sub == Chunks(x, BlockSize(cfg)) && |s.done| == |s.sub| && |s.workers| == n
    ensures forall q :: 0 <= q < |s.done| ==> s.done[q] == CompressJob(cfg, s.sub[q], Top(cfg, q))
  {
    hide Chunks, BlockSize, ValidConfig, CompressJob, JobBy, IsRun, OneForAll, Top;
    var c := Chunks(x, BlockSize(cfg));
    var own := OneForAll(|c|);
    NewAssigns(c, n);
    var run, events := EveryAssignmentRuns(cfg, x, front, n, own);
    RunLasts(run, events, |events|);
    s := run[|events|];
    assert Ends(cfg, x, front, s) by {
      assert IsRun(run, events) && |events| < |run| && run[|events|] == s;
    }
    forall q | 0 <= q < |s.done|
      ensures s.done[q] == CompressJob(cfg, s.sub[q], Top(cfg, q))
    {
      UsedJob(cfg, x, q);
    }
  }

  // ----- longer and shorter files

  lemma UnstableIsLze(cfg: Config, raw: seq<byte>, hi: nat)
    requires Unstable(cfg, raw, 0, hi)
    ensures cfg.codec == Lze
  {
    hide LzeStream.LzeForm, BlockSize;
  }

  /** A larger buffer never makes a payload longer. */
  lemma MorePays(cfg: Config, raw: seq<byte>, m: nat)
    ensures |CompressJob(cfg, raw, m).payload| <= |CompressJob(cfg, raw, 0).payload|
    ensures Unstable(cfg, raw, 0, m) ==> |CompressJob(cfg, raw, m).payload| < |CompressJob(cfg, raw, 0).payload|
  {
    hide Unstable, CompressJob;
    if Unstable(cfg, raw, 0, m) {
      UnstableShrinks(cfg, raw, 0, m);
    } else {
      StableIff(cfg, raw, 0, m);
    }
  }

  lemma {:induction false} BodyCompare(cfg: Config, blocks: seq<seq<byte>>, ja: seq<Job>, jb: seq<Job>, off: nat, k: nat)
    requires |blocks| == |ja| == |jb| && off + |Total(blocks)| < U64_LIMIT
    requires forall i :: 0 <= i < |blocks| ==> |blocks[i]| <= BLOCK_MAX && |ja[i].payload| <= |jb[i].payload| <= BLOCK_MAX
    ensures |Body(cfg, blocks, ja, off)| <= |Body(cfg, blocks, jb, off)|
    ensures k < |blocks| && |ja[k].payload| < |jb[k].payload| ==> |Body(cfg, blocks, ja, off)| < |Body(cfg, blocks, jb, off)|
    decreases |blocks|
  {
    hide BlockBytes;
    if blocks != [] {
      BodyCompare(cfg, blocks[1..], ja[1..], jb[1..], off + |blocks[0]|, if k > 0 then k - 1 else |blocks|);
    }
  }

  lemma SinkLen(cfg: Config, x: seq<byte>, front: seq<byte>, s: State)
    requires Ends(cfg, x, front, s)
    ensures Small(s.sub, s.done) && |s.sink| == |front| + |Body(cfg, s.sub, s.done, 0)|
  {
    EndsSafe(cfg, x, front, s);
    hide Inv, IsRun, Chunks, BlockSize, AllSized, ValidConfig, DoneOk, Total, Body, Entries;
    DrainedState(s);
  }

  // ----- any two runs

  /** All drained runs over `x`, with whatever numbers of threads, have the same output. */
  ghost predicate RunsAgree(cfg: Config, x: seq<byte>, front: seq<byte>) {
    forall s: State, t: State {:trigger Ends(cfg, x, front, s), Ends(cfg, x, front, t)} ::
      Ends(cfg, x, front, s) && Ends(cfg, x, front, t) ==> s.sink == t.sink && s.idx == t.idx && s.hashed == t.hashed
  }

  /** With an unstable last block, two runs of any two or more threads end with different bytes. */
  lemma RunsDiffer(cfg: Config, x: seq<byte>, front: seq<byte>, n: nat) returns (s: State, t: State)
    requires ValidConfig(cfg) && |x| < U64_LIMIT && n > 1 && RingUnstable(cfg, x)
    ensures Ends(cfg, x, front, s) && Ends(cfg, x, front, t) && |s.workers| == |t.workers| == n && |t.sink| < |s.sink|
  {
    hide Chunks, BlockSize, ValidConfig, CompressJob, RingUnstable, Unstable, Ends, Top, Total, Body;
    RingUnstableIsLast(cfg, x);
    var c := Chunks(x, BlockSize(cfg));
    UnstableIsLze(cfg, c[|c| - 1], Top(cfg, |c| - 1));
    s := NewRun(cfg, x, front, n);
    t := UsedRun(cfg, x, front, n);
    SinkLen(cfg, x, front, s);
    SinkLen(cfg, x, front, t);
    forall q | 0 <= q < |s.sub|
      ensures |t.done[q].payload| <= |s.done[q].payload|
    {
      MorePays(cfg, s.sub[q], Top(cfg, q));
    }
    var k := |s.sub| - 1;
    MorePays(cfg, s.sub[k], Top(cfg, k));
    BodyCompare(cfg, s.sub, t.done, s.done, 0, k);
  }

  /** Parallel runs agree exactly when there is no shorter last block behind whole ones, or its LZB stream
      fits a new context's buffer, or not even a used one's, or does not pay. */
  lemma RunsAgreeIff(cfg: Config, x: seq<byte>, front: seq<byte>)
    requires ValidConfig(cfg) && |x| < U64_LIMIT
    ensures RunsAgree(cfg, x, front) <==> !RingUnstable(cfg, x)
  {
    hide RingUnstable, Ends, ValidConfig;
    if RingUnstable(cfg, x) {
      var s, t := RunsDiffer(cfg, x, front, 2);
    } else {
      forall s: State, t: State {:trigger Ends(cfg, x, front, s), Ends(cfg, x, front, t)} | Ends(cfg, x, front, s) && Ends(cfg, x, front, t)
        ensures s.sink == t.sink && s.idx == t.idx && s.hashed == t.hashed
      {
        AnyTwoRunsAgree(cfg, x, front, s, t);
      }
    }
  }

  // ----- the single-threaded encoder

  /** All drained runs over `x` give the single-threaded encoder's bytes. */
  ghost predicate RunsAreSequential(cfg: Config, hint: uint64, kind: byte, x: seq<byte>)
    requires ValidConfig(cfg) && |x| < U64_LIMIT && |DictJob(cfg).payload| <= DICT_MAX
  {
    forall s: State {:trigger Ends(cfg, x, Front(cfg, hint, kind, DictJob(cfg)), s)} ::
      Ends(cfg, x, Front(cfg, hint, kind, DictJob(cfg)), s) ==> s.sink + EobBytes() == MainBytes(DocFor(cfg, hint, kind, x))
  }

  lemma SequentialLen(cfg: Config, hint: uint64, kind: byte, x: seq<byte>)
    requires ValidConfig(cfg) && |x| < U64_LIMIT
    ensures |DictJob(cfg).payload| <= DICT_MAX
    ensures var c := Chunks(x, BlockSize(cfg));
            var jobs := JobsFrom(cfg, c, FirstMid(cfg));
            Small(c, jobs) && |MainBytes(DocFor(cfg, hint, kind, x))| == |Front(cfg, hint, kind, DictJob(cfg))| + |Body(cfg, c, jobs, 0)| + |EobBytes()|
  {
    DictJobSmall(cfg);
    SizedFor(cfg, hint, kind, x);
    hide Chunks, BlockSize, ValidConfig, JobsFrom, FirstMid, DictJob, Front, EobBytes, Body, Total, JobsOk;
  }

  /** With a block that is unstable over the buffers it can meet, some run's file is longer. */
  lemma RunIsLonger(cfg: Config, hint: uint64, kind: byte, x: seq<byte>) returns (s: State)
    requires ValidConfig(cfg) && |x| < U64_LIMIT && SeqUnstable(cfg, x)
    ensures |DictJob(cfg).payload| <= DICT_MAX
    ensures Ends(cfg, x, Front(cfg, hint, kind, DictJob(cfg)), s) && |MainBytes(DocFor(cfg, hint, kind, x))| < |s.sink + EobBytes()|
  {
    hide Chunks, BlockSize, ValidConfig, CompressJob, Unstable, Ends, Reach, Total, Body, JobsFrom, FirstMid, DictJob,
         Front, EobBytes, MainBytes, DocFor, MidAfter;
    SequentialLen(cfg, hint, kind, x);
    var c := Chunks(x, BlockSize(cfg));
    var k :| 0 <= k < |c| && Unstable(cfg, c[k], 0, Reach(cfg, k));
    UnstableIsLze(cfg, c[k], Reach(cfg, k));
    s := NewRun(cfg, x, Front(cfg, hint, kind, DictJob(cfg)), 2);
    SinkLen(cfg, x, Front(cfg, hint, kind, DictJob(cfg)), s);
    var jobs := JobsFrom(cfg, c, FirstMid(cfg));
    forall q | 0 <= q < |c|
      ensures |jobs[q].payload| <= |s.done[q].payload|
      ensures q == k ==> |jobs[q].payload| < |s.done[q].payload|
    {
      JobsFromAt(cfg, c, FirstMid(cfg), q);
      SeqMid(cfg, x, q);
      MorePays(cfg, c[q], Reach(cfg, q));
    }
    BodyCompare(cfg, c, jobs, s.done, 0, k);
  }

  /** Without an unstable block every drained run has the single-threaded encoder's bytes. */
  lemma EndIsSequential(cfg: Config, hint: uint64, kind: byte, x: seq<byte>, s: State)
    requires ValidConfig(cfg) && |x| < U64_LIMIT && kind <= 3 && !SeqUnstable(cfg, x)
    requires |DictJob(cfg).payload| <= DICT_MAX && Ends(cfg, x, Front(cfg, hint, kind, DictJob(cfg)), s)
    ensures s.sink + EobBytes() == MainBytes(DocFor(cfg, hint, kind, x))
  {
    hide Inv, IsRun, SeqUnstable, ValidConfig, DictJob, Front, EobBytes, MainBytes, DocFor;
    EndsSafe(cfg, x, Front(cfg, hint, kind, DictJob(cfg)), s);
    ParallelIsSequential(s, hint, kind);
  }

  /** The parallel encoder gives the single-threaded encoder's bytes in every run exactly when no block is
      unstable over the buffers it can meet. */
  lemma RunsAreSequentialIff(cfg: Config, hint: uint64, kind: byte, x: seq<byte>)
    requires ValidConfig(cfg) && |x| < U64_LIMIT && kind <= 3
    ensures |DictJob(cfg).payload| <= DICT_MAX
    ensures RunsAreSequential(cfg, hint, kind, x) <==> !SeqUnstable(cfg, x)
  {
    hide SeqUnstable, ValidConfig, DictJob, Front, EobBytes, MainBytes, DocFor, Ends;
    DictJobSmall(cfg);
    var front := Front(cfg, hint, kind, DictJob(cfg));
    if SeqUnstable(cfg, x) {
      var s := RunIsLonger(cfg, hint, kind, x);
    } else {
      forall s: State {:trigger Ends(cfg, x, front, s)} | Ends(cfg, x, front, s)
        ensures s.sink + EobBytes() == MainBytes(DocFor(cfg, hint, kind, x))
      {
        EndIsSequential(cfg, hint, kind, x, s);
      }
    }
  }
}
