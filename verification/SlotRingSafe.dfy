/** Safety of the slot ring: an invariant of every reachable state, for every interleaving. */
module SlotRingSafe {
  import opened Bytes
  import opened Format
  import opened Codec
  import opened Container
  import opened ContainerProof
  import opened FileSpec
  import opened SlotRing
  import LzeStream

  /** The largest buffer any context can have when it takes block `q`: the first block finds them all new. */
  function Top(cfg: Config, q: nat): nat {
    if q == 0 then 0 else LzeStream.MidNeed(BlockSize(cfg))
  }

  /** A job some context may have made of block `q`. */
  ghost predicate JobOf(cfg: Config, raw: seq<byte>, q: nat, j: Job) {
    exists m: nat :: m <= Top(cfg, q) && j == CompressJob(cfg, raw, m)
  }

  predicate MidOk(cfg: Config, mid: nat, work: nat, w: Worker) {
    mid <= LzeStream.MidNeed(BlockSize(cfg)) && (work == 0 || w == Running(0) ==> mid == 0)
  }

  predicate MidsOk(cfg: Config, mids: seq<nat>, work: nat, ws: seq<Worker>) {
    |mids| == |ws| && forall i :: 0 <= i < |mids| ==> MidOk(cfg, mids[i], work, ws[i])
  }

  predicate Shape(s: State) {
    Formed(s) && ValidConfig(s.cfg) && |s.x| < U64_LIMIT && MidsOk(s.cfg, s.mids, s.work, s.workers)
  }

  predicate Counters(s: State) {
    && s.emit <= s.work <= s.fill <= s.emit + |s.slots| && |s.sub| == s.fill
    && |s.done| == s.emit + (if s.pc.Release? then 1 else 0) && |s.done| <= |s.sub|
  }

  // ----- slots

  /** Slot `q` holds submitted block `q`. */
  ghost predicate Holds(cfg: Config, b: Slot, raw: seq<byte>, q: nat, taken: bool) {
    && b.rawLen <= |b.raw| && b.raw[..b.rawLen] == raw && (b.st == Ready || b.st == Done)
    && (b.st == Done ==> taken && JobOf(cfg, raw, q, b.job))
  }

  ghost predicate Window(cfg: Config, slots: seq<Slot>, emit: nat, work: nat, fill: nat, sub: seq<seq<byte>>)
    requires |slots| > 0 && fill == |sub|
  {
    && (forall q: nat {:trigger Nth(slots, q)} :: emit <= q < fill ==> Holds(cfg, Nth(slots, q), sub[q], q, q < work))
    && (forall q: nat {:trigger Nth(slots, q)} :: fill <= q < emit + |slots| ==> Nth(slots, q).st == Free)
  }

  // ----- workers

  predicate BusyOn(w: Worker, q: nat) {
    w == Running(q) || w == Finished(q)
  }

  ghost predicate WorkerOk(cfg: Config, slots: seq<Slot>, emit: nat, work: nat, sub: seq<seq<byte>>, w: Worker)
    requires |slots| > 0 && work <= |sub|
  {
    && (w.Running? ==> emit <= w.seqNo < work && Nth(slots, w.seqNo).st == Ready)
    && (w.Finished? ==> emit <= w.seqNo < work && Nth(slots, w.seqNo).st == Ready && JobOf(cfg, sub[w.seqNo], w.seqNo, Nth(slots, w.seqNo).job))
  }

  ghost predicate WorkersOk(cfg: Config, slots: seq<Slot>, emit: nat, work: nat, sub: seq<seq<byte>>, ws: seq<Worker>)
    requires |slots| > 0 && work <= |sub|
  {
    forall i :: 0 <= i < |ws| ==> WorkerOk(cfg, slots, emit, work, sub, ws[i])
  }

  /** No two workers on one slot. */
  ghost predicate Alone(ws: seq<Worker>) {
    forall i, j, q: nat :: 0 <= i < |ws| && 0 <= j < |ws| && BusyOn(ws[i], q) && BusyOn(ws[j], q) ==> i == j
  }

  predicate SomeoneOn(ws: seq<Worker>, q: nat) {
    exists i :: 0 <= i < |ws| && BusyOn(ws[i], q)
  }

  /** Every slot taken and not yet done has a worker on it. */
  ghost predicate Covered(slots: seq<Slot>, emit: nat, work: nat, ws: seq<Worker>)
    requires |slots| > 0
  {
    forall q: nat {:trigger SomeoneOn(ws, q)} {:trigger Nth(slots, q)} :: emit <= q < work && Nth(slots, q).st == Ready ==> SomeoneOn(ws, q)
  }

  predicate AnyAwake(ws: seq<Worker>) {
    exists i :: 0 <= i < |ws| && ws[i] != Asleep
  }

  predicate AnyExited(ws: seq<Worker>) {
    exists i :: 0 <= i < |ws| && ws[i] == Exited
  }

  /** No wake-up is lost: work that waits has a worker awake, and nobody sleeps through the end. */
  predicate Sleepers(work: nat, fill: nat, quit: bool, pc: Producer, ws: seq<Worker>) {
    && (work < fill ==> AnyAwake(ws))
    && (quit ==> !AnyAsleep(ws))
    && (AnyExited(ws) ==> quit && work == fill)
    && (quit <==> pc == Joining || pc == Joined)
    && (pc == Joined ==> AllExited(ws))
  }

  // ----- the producer

  predicate InEmit(pc: Producer) {
    pc.EmitCheck? || pc.AwaitDone? || pc.Emitting? || pc.Release?
  }

  predicate FillingPc(pc: Producer) {
    pc == Filling || pc.Publish?
  }

  /** Between two calls of `mt_submit`, or inside one that `xq_encoder_write` made. */
  predicate WritingPc(pc: Producer) {
    FillingPc(pc) || ((pc.CheckFull? || InEmit(pc)) && pc.from == Writing)
  }

  predicate OverPc(pc: Producer) {
    pc == Failed || pc == Joining || pc == Joined
  }

  ghost predicate ProducerOk(slots: seq<Slot>, emit: nat, fill: nat, pc: Producer, sticky: bool)
    requires |slots| > 0
  {
    && (FillingPc(pc) ==> fill < emit + |slots|)
    && (InEmit(pc) ==> emit < fill && (pc.draining ==> pc.from == Finishing))
    && (pc.AwaitDone? ==> Nth(slots, emit).st != Done)
    && (pc.Emitting? || pc.Release? ==> Nth(slots, emit).st == Done)
    && (pc == Drained ==> emit == fill)
    && (sticky ==> pc.Release? || OverPc(pc)) && (pc == Failed ==> sticky)
  }

  /** The part of a block already in its buffer. */
  function Partial(b: Slot, n: nat): seq<byte> {
    b.raw[..Min(n, |b.raw|)]
  }

  ghost predicate FillingOk(bs: nat, x: seq<byte>, inp: seq<byte>, rawLen: nat, b: Slot, sub: seq<seq<byte>>, pc: Producer) {
    && rawLen <= |b.raw| && rawLen <= bs && x == Total(sub) + Partial(b, rawLen) + inp && AllFull(sub, bs)
    && (pc == Filling ==> rawLen < bs)
    && (pc.Publish? ==> rawLen > 0 && (pc.from == Writing ==> rawLen == bs) && (pc.from == Finishing ==> inp == []))
  }

  ghost predicate BetweenOk(bs: nat, x: seq<byte>, inp: seq<byte>, rawLen: nat, sub: seq<seq<byte>>, pc: Producer)
    requires bs > 0
  {
    rawLen == 0 && if WritingPc(pc) then x == Total(sub) + inp && AllFull(sub, bs) else inp == [] && sub == Chunks(x, bs)
  }

  /** Nothing of the input is lost, and blocks are cut where the single-threaded encoder cuts them. */
  ghost predicate InputOk(bs: nat, x: seq<byte>, inp: seq<byte>, rawLen: nat, b: Slot, sub: seq<seq<byte>>, pc: Producer)
  {
    && bs > 0 && AllSized(sub, bs) && |Total(sub)| <= |x|
    && (FillingPc(pc) ==> FillingOk(bs, x, inp, rawLen, b, sub, pc))
    && (!FillingPc(pc) && !OverPc(pc) ==> BetweenOk(bs, x, inp, rawLen, sub, pc))
  }

  // ----- the output

  ghost predicate DoneOk(cfg: Config, sub: seq<seq<byte>>, done: seq<Job>) {
    && |done| <= |sub|
    && (forall i :: 0 <= i < |done| ==> JobOf(cfg, sub[i], i, done[i]))
  }

  /** The sink holds the front and the blocks emitted so far, in input order; a proper prefix of that
      when it failed. The index has an entry for each of them, the checksum has run over them. */
  ghost predicate Wrote(cfg: Config, front: seq<byte>, blocks: seq<seq<byte>>, done: seq<Job>,
                        sink: seq<byte>, idx: seq<Entry>, rawOffset: nat, hashed: seq<byte>, sticky: bool) {
    && Small(blocks, done)
    && var all := front + Body(cfg, blocks, done, 0);
       && (if sticky then sink <= all && sink != all else sink == all && rawOffset == |Total(blocks)| && hashed == Total(blocks))
       && idx == Entries(cfg, blocks, done, |front|, 0)[..|done|]
  }

  ghost predicate Output(cfg: Config, front: seq<byte>, sub: seq<seq<byte>>, done: seq<Job>,
                         sink: seq<byte>, idx: seq<Entry>, rawOffset: nat, hashed: seq<byte>, sticky: bool)
  {
    DoneOk(cfg, sub, done) && Wrote(cfg, front, sub[..|done|], done, sink, idx, rawOffset, hashed, sticky)
  }

  ghost predicate Inv(s: State) {
    && Shape(s) && Counters(s)
    && Window(s.cfg, s.slots, s.emit, s.work, s.fill, s.sub)
    && WorkersOk(s.cfg, s.slots, s.emit, s.work, s.sub, s.workers) && Alone(s.workers)
    && Covered(s.slots, s.emit, s.work, s.workers)
    && Sleepers(s.work, s.fill, s.quit, s.pc, s.workers)
    && ProducerOk(s.slots, s.emit, s.fill, s.pc, s.sticky)
    && InputOk(BlockCap(s), s.x, s.inp, s.rawLen, At(s, s.fill), s.sub, s.pc)
    && Output(s.cfg, s.front, s.sub, s.done, s.sink, s.idx, s.rawOffset, s.hashed, s.sticky)
  }

  // ----- slots of a window are different slots

  lemma ModDistinct(p: nat, q: nat, n: nat)
    requires n > 0 && p < q < p + n
    ensures p % n != q % n
  {
    var a, b := p / n, q / n;
    var d := b - a;
    if p % n == q % n {
      DivUnique(q, n, b, q % n);
      assert q - p == n * b - n * a;
      assert n * b - n * a == n * d;
      if d >= 1 {
        MulMonotone(n, 1, d);
      }
    }
  }

  lemma IxDistinct(p: nat, q: nat, n: nat)
    requires n > 0 && p < q < p + n
    ensures Ix(p, n) != Ix(q, n)
  {
    ModDistinct(p, q, n);
  }

  lemma PutKeeps(slots: seq<Slot>, q: nat, v: Slot, base: nat)
    requires |slots| > 0 && base <= q < base + |slots|
    ensures Nth(Put(slots, q, v), q) == v
    ensures forall p: nat {:trigger Nth(Put(slots, q, v), p)} :: base <= p < base + |slots| && p != q ==> Nth(Put(slots, q, v), p) == Nth(slots, p)
  {
    forall p: nat {:trigger Nth(Put(slots, q, v), p)} | base <= p < base + |slots| && p != q
      ensures Nth(Put(slots, q, v), p) == Nth(slots, p)
    {
      if p < q {
        IxDistinct(p, q, |slots|);
      } else {
        IxDistinct(q, p, |slots|);
      }
    }
  }

  // ----- events that move only the producer

  predicate MovesPc(e: Event) {
    e.FinishCall? || e.TestFull? || e.TestMore? || e.TestDone? || e.Join? || e.WakeProducer?
  }

  lemma OnlyPcMoves(s: State, e: Event, s': State)
    requires Steps(s, e, s') && MovesPc(e)
    ensures s' == s.(pc := s'.pc)
  {
    hide At, BlockCap, AllExited, DoFill, DoSubmit, DoEmit, DoFree, DoQuit, DoCheck, DoCompress, DoFinish, CanEmit;
  }

  lemma ProducerStaysOk(s: State, e: Event, s': State)
    requires Inv(s) && Steps(s, e, s') && MovesPc(e)
    ensures Counters(s') && |s'.slots| > 0
    ensures Sleepers(s'.work, s'.fill, s'.quit, s'.pc, s'.workers) && ProducerOk(s'.slots, s'.emit, s'.fill, s'.pc, s'.sticky)
  {
    hide Window, WorkersOk, Covered, Output, InputOk, ValidConfig, MidsOk, Nth, AnyAwake, AnyAsleep, AnyExited, Alone,
         BlockCap, DoFill, DoSubmit, DoEmit, DoFree, DoQuit, DoCheck, DoCompress, DoFinish, CanEmit;
  }

  lemma InputStaysOk(s: State, e: Event, s': State)
    requires Inv(s) && Steps(s, e, s') && MovesPc(e) && s' == s.(pc := s'.pc) && |s'.slots| > 0
    ensures InputOk(BlockCap(s'), s'.x, s'.inp, s'.rawLen, At(s', s'.fill), s'.sub, s'.pc)
  {
    hide Window, WorkersOk, Covered, Output, AllSized, AllFull, Total, ValidConfig, BlockSize, Chunks, MidsOk, Nth,
         Partial, Sleepers, Alone, DoFill, DoSubmit, DoEmit, DoFree, DoQuit, DoCheck, DoCompress, DoFinish, CanEmit;
    NothingYet(At(s, s.fill), s.sub, s.inp);
    if s.pc == Filling && s.inp == [] && s.rawLen == 0 {
      NothingBuffered(BlockCap(s), s.x, At(s, s.fill), s.sub);
    }
  }

  lemma ProducerMoves(s: State, e: Event, s': State)
    requires Inv(s) && Steps(s, e, s') && MovesPc(e)
    ensures Inv(s')
  {
    hide Steps, Window, WorkersOk, Covered, Output, InputOk, ProducerOk, Sleepers, ValidConfig, MidsOk, Alone, Counters;
    OnlyPcMoves(s, e, s');
    ProducerStaysOk(s, e, s');
    InputStaysOk(s, e, s');
  }

  lemma NothingYet(b: Slot, sub: seq<seq<byte>>, inp: seq<byte>)
    ensures Total(sub) + Partial(b, 0) + inp == Total(sub) + inp
  {
    hide Total;
    assert Partial(b, 0) == [];
  }

  lemma NothingBuffered(bs: nat, x: seq<byte>, b: Slot, sub: seq<seq<byte>>)
    requires bs > 0 && FillingOk(bs, x, [], 0, b, sub, Filling)
    ensures sub == Chunks(x, bs)
  {
    hide Chunks, Total, AllFull;
    ChunksUnique(sub, [], bs);
    assert sub + [] == sub;
    assert x == Total(sub) + [];
  }

  // ----- workers

  /** Nobody new runs the first block, and no buffer changes. */
  lemma MidsKept(cfg: Config, mids: seq<nat>, work: nat, ws: seq<Worker>, ws': seq<Worker>)
    requires MidsOk(cfg, mids, work, ws) && |ws'| == |ws|
    requires forall i :: 0 <= i < |ws| && ws'[i] == Running(0) ==> ws[i] == Running(0)
    ensures MidsOk(cfg, mids, work, ws')
  {
    hide LzeStream.MidNeed, BlockSize;
    forall i | 0 <= i < |mids|
      ensures MidOk(cfg, mids[i], work, ws'[i])
    {
      assert MidOk(cfg, mids[i], work, ws[i]);
    }
  }

  lemma MidsTake(cfg: Config, mids: seq<nat>, work: nat, ws: seq<Worker>, i: nat)
    requires MidsOk(cfg, mids, work, ws) && i < |ws|
    ensures MidsOk(cfg, mids, work + 1, ws[i := Running(work)])
  {
    hide LzeStream.MidNeed, BlockSize;
    forall k | 0 <= k < |mids|
      ensures MidOk(cfg, mids[k], work + 1, ws[i := Running(work)][k])
    {
      assert MidOk(cfg, mids[k], work, ws[k]);
    }
  }

  lemma StillCovered(ws: seq<Worker>, i: nat, w: Worker, q: nat)
    requires i < |ws| && SomeoneOn(ws, q) && !BusyOn(ws[i], q)
    ensures SomeoneOn(ws[i := w], q)
  {
    var j :| 0 <= j < |ws| && BusyOn(ws[j], q);
    assert BusyOn(ws[i := w][j], q);
  }

  lemma WorkerGoesOn(slots: seq<Slot>, emit: nat, work: nat, ws: seq<Worker>, i: nat, w: Worker)
    requires |slots| > 0 && i < |ws| && Covered(slots, emit, work, ws) && (ws[i] == Checking || ws[i] == Asleep)
    ensures Covered(slots, emit, work, ws[i := w])
    ensures w == Running(work) ==> Covered(slots, emit, work + 1, ws[i := w])
  {
    hide Nth, SomeoneOn;
    forall q: nat | emit <= q < work && Nth(slots, q).st == Ready
      ensures SomeoneOn(ws[i := w], q)
    {
      StillCovered(ws, i, w, q);
    }
    if w == Running(work) {
      assert BusyOn(ws[i := w][i], work);
      IsOn(ws[i := w], i, work);
    }
  }

  lemma IsOn(ws: seq<Worker>, i: nat, q: nat)
    requires i < |ws| && BusyOn(ws[i], q)
    ensures SomeoneOn(ws, q)
  {}

  lemma WindowTakes(cfg: Config, slots: seq<Slot>, emit: nat, work: nat, fill: nat, sub: seq<seq<byte>>)
    requires |slots| > 0 && fill == |sub| && emit <= work < fill && Window(cfg, slots, emit, work, fill, sub)
    ensures Window(cfg, slots, emit, work + 1, fill, sub) && Nth(slots, work).st == Ready
  {
    hide JobOf, Nth;
    assert Holds(cfg, Nth(slots, work), sub[work], work, work < work);
  }

  lemma WorkersTake(s: State, i: nat)
    requires Inv(s) && i < |s.workers| && s.workers[i] == Checking && s.work < s.fill
    ensures var ws' := s.workers[i := Running(s.work)];
            && s.work + 1 <= |s.sub| && WorkersOk(s.cfg, s.slots, s.emit, s.work + 1, s.sub, ws') && Alone(ws')
  {
    hide JobOf, Output, Covered, Sleepers, ProducerOk, InputOk, ValidConfig, MidsOk, Nth;
    var ws' := s.workers[i := Running(s.work)];
    assert Holds(s.cfg, Nth(s.slots, s.work), s.sub[s.work], s.work, false);
    forall k | 0 <= k < |ws'|
      ensures WorkerOk(s.cfg, s.slots, s.emit, s.work + 1, s.sub, ws'[k])
    {
      if k != i {
        assert WorkerOk(s.cfg, s.slots, s.emit, s.work, s.sub, s.workers[k]);
      }
    }
    forall k, q: nat | 0 <= k < |ws'| && k != i && BusyOn(ws'[k], q)
      ensures q < s.work
    {
      assert WorkerOk(s.cfg, s.slots, s.emit, s.work, s.sub, s.workers[k]);
    }
  }

  lemma CheckKeeps(s: State, i: nat, s': State)
    requires Inv(s) && Steps(s, Check(i), s')
    ensures Inv(s')
  {
    hide JobOf, Output, AllSized, AllFull, Total, ValidConfig, BlockSize, Chunks, MidsOk, Nth, Partial, ProducerOk,
         InputOk, Holds, Window, Covered, SomeoneOn, DoFill, DoFinishCall, DoSubmit, DoTestFull, DoTestMore,
         DoTestDone, DoEmit, DoFree, DoQuit, DoCompress, DoFinish, CanEmit;
    var ws, ws' := s.workers, s'.workers;
    assert ws[i] == Checking;
    WorkerGoesOn(s.slots, s.emit, s.work, ws, i, ws'[i]);
    if s.work < s.fill {
      MidsTake(s.cfg, s.mids, s.work, ws, i);
      WindowTakes(s.cfg, s.slots, s.emit, s.work, s.fill, s.sub);
      WorkersTake(s, i);
      assert ws'[i] == Running(s.work);
    } else {
      MidsKept(s.cfg, s.mids, s.work, ws, ws');
    }
  }

  lemma WakeKeeps(s: State, i: nat, s': State)
    requires Inv(s) && Steps(s, Wake(i), s')
    ensures Inv(s')
  {
    hide JobOf, Output, AllSized, AllFull, Total, ValidConfig, BlockSize, Chunks, MidsOk, Nth, Partial, ProducerOk,
         InputOk, Window, Covered, SomeoneOn;
    WorkerGoesOn(s.slots, s.emit, s.work, s.workers, i, Checking);
    MidsKept(s.cfg, s.mids, s.work, s.workers, s'.workers);
    assert s'.workers[i] == Checking;
  }

  lemma RousedKeeps(cfg: Config, slots: seq<Slot>, emit: nat, work: nat, sub: seq<seq<byte>>, ws: seq<Worker>)
    requires |slots| > 0 && work <= |sub| && WorkersOk(cfg, slots, emit, work, sub, ws) && Alone(ws) && Covered(slots, emit, work, ws)
    ensures var r := Roused(ws);
            WorkersOk(cfg, slots, emit, work, sub, r) && Alone(r) && Covered(slots, emit, work, r) && !AnyAsleep(r)
            && (AnyExited(r) ==> AnyExited(ws)) && (|ws| > 0 ==> AnyAwake(r))
  {
    hide Nth, JobOf;
    var r := Roused(ws);
    forall q: nat | emit <= q < work && Nth(slots, q).st == Ready
      ensures SomeoneOn(r, q)
    {
      assert SomeoneOn(ws, q);
      var j :| 0 <= j < |ws| && BusyOn(ws[j], q);
      assert BusyOn(r[j], q);
    }
    if |ws| > 0 {
      assert r[0] != Asleep;
    }
  }

  lemma MidsRoused(cfg: Config, mids: seq<nat>, work: nat, ws: seq<Worker>)
    requires MidsOk(cfg, mids, work, ws)
    ensures MidsOk(cfg, mids, work, Roused(ws))
  {
    MidsKept(cfg, mids, work, ws, Roused(ws));
  }

  lemma QuitKeeps(s: State, s': State)
    requires Inv(s) && Steps(s, Quit, s')
    ensures Inv(s')
  {
    hide JobOf, Output, AllSized, AllFull, Total, ValidConfig, BlockSize, Chunks, MidsOk, Nth, Partial, Window,
         Covered, WorkersOk, Alone, SomeoneOn, Roused, AnyAsleep, AnyAwake, AnyExited, AllExited, FillingOk,
         BetweenOk, CanEmit;
    RousedKeeps(s.cfg, s.slots, s.emit, s.work, s.sub, s.workers);
    MidsRoused(s.cfg, s.mids, s.work, s.workers);
    QuitSleepers(s);
    hide Sleepers;
  }

  lemma QuitSleepers(s: State)
    requires Inv(s) && (s.pc == Filling || s.pc == Drained || s.pc == Failed)
    ensures Sleepers(s.work, s.fill, true, Joining, Roused(s.workers))
  {
    hide JobOf, Output, Nth, Window, Covered, WorkersOk, Alone, SomeoneOn, ProducerOk, InputOk, Roused, AnyAsleep,
         AnyAwake, AnyExited, ValidConfig, MidsOk;
    RousedKeeps(s.cfg, s.slots, s.emit, s.work, s.sub, s.workers);
  }

  // ----- a worker's slot

  /** The slot of a busy worker changes; nothing anyone else has a claim on does. */
  lemma SlotWorked(cfg: Config, slots: seq<Slot>, emit: nat, work: nat, fill: nat, sub: seq<seq<byte>>, ws: seq<Worker>, i: nat, v: Slot, w: Worker)
    requires |slots| > 0 && fill == |sub| && work <= fill <= emit + |slots| && i < |ws|
    requires Window(cfg, slots, emit, work, fill, sub) && WorkersOk(cfg, slots, emit, work, sub, ws) && Alone(ws)
    requires ws[i].Running? || ws[i].Finished?
    requires var q := ws[i].seqNo;
             q < work ==> Holds(cfg, v, sub[q], q, true) && (w == Checking || (w == Finished(q) && v.st == Ready && JobOf(cfg, sub[q], q, v.job)))
    ensures var slots' := Put(slots, ws[i].seqNo, v);
            && Window(cfg, slots', emit, work, fill, sub) && WorkersOk(cfg, slots', emit, work, sub, ws[i := w]) && Alone(ws[i := w])
  {
    hide JobOf, Put, Nth;
    var q := ws[i].seqNo;
    assert WorkerOk(cfg, slots, emit, work, sub, ws[i]);
    PutKeeps(slots, q, v, emit);
    var slots' := Put(slots, q, v);
    var ws' := ws[i := w];
    forall j | 0 <= j < |ws|
      ensures WorkerOk(cfg, slots', emit, work, sub, ws'[j])
    {
      assert WorkerOk(cfg, slots, emit, work, sub, ws[j]);
      if j != i && (ws[j].Running? || ws[j].Finished?) {
        assert BusyOn(ws[i], q) && BusyOn(ws[j], ws[j].seqNo);
        hide Holds;
      }
    }
  }

  lemma CoveredWorked(slots: seq<Slot>, emit: nat, work: nat, ws: seq<Worker>, i: nat, v: Slot, w: Worker)
    requires |slots| > 0 && work <= emit + |slots| && i < |ws| && Covered(slots, emit, work, ws)
    requires ws[i].Running? || ws[i].Finished?
    requires var q := ws[i].seqNo; emit <= q < work && (v.st == Done || w == Finished(q))
    ensures Covered(Put(slots, ws[i].seqNo, v), emit, work, ws[i := w])
  {
    hide Put, Nth;
    var q := ws[i].seqNo;
    PutKeeps(slots, q, v, emit);
    var slots' := Put(slots, q, v);
    forall p: nat | emit <= p < work && Nth(slots', p).st == Ready
      ensures SomeoneOn(ws[i := w], p)
    {
      if p == q {
        assert BusyOn(ws[i := w][i], q);
      } else {
        StillCovered(ws, i, w, p);
      }
    }
  }

  lemma BusyInWindow(s: State, i: nat) returns (q: nat)
    requires Inv(s) && i < |s.workers| && (s.workers[i].Running? || s.workers[i].Finished?)
    ensures q == s.workers[i].seqNo && s.emit <= q < s.work && At(s, q).st == Ready && Holds(s.cfg, At(s, q), s.sub[q], q, true)
    ensures s.workers[i].Finished? ==> JobOf(s.cfg, s.sub[q], q, At(s, q).job)
  {
    hide JobOf, Output, Nth, Covered, Alone, Sleepers, ProducerOk, InputOk, ValidConfig, MidsOk;
    q := s.workers[i].seqNo;
    assert WorkerOk(s.cfg, s.slots, s.emit, s.work, s.sub, s.workers[i]);
    assert Holds(s.cfg, Nth(s.slots, q), s.sub[q], q, q < s.work);
  }

  /** What the producer relies on, when a worker's slot changes. */
  lemma ProducerUndisturbed(s: State, q: nat, v: Slot, pc': Producer)
    requires Formed(s) && Counters(s) && s.emit <= q < s.work && At(s, q).st == Ready
    requires ProducerOk(s.slots, s.emit, s.fill, s.pc, s.sticky) && InputOk(BlockCap(s), s.x, s.inp, s.rawLen, At(s, s.fill), s.sub, s.pc)
    requires pc' == s.pc || (s.pc.AwaitDone? && pc' == EmitCheck(s.pc.from, s.pc.draining))
    requires v.st == Done ==> !pc'.AwaitDone?
    ensures var slots' := Put(s.slots, q, v);
            && ProducerOk(slots', s.emit, s.fill, pc', s.sticky)
            && InputOk(BlockCap(s), s.x, s.inp, s.rawLen, Nth(slots', s.fill), s.sub, pc')
  {
    hide Put, Nth, AllSized, AllFull, Total, Chunks, BlockSize, FillingOk;
    PutKeeps(s.slots, q, v, s.emit);
  }


  lemma BlockIsSmall(s: State, q: nat)
    requires Inv(s) && q < |s.sub|
    ensures 0 < |s.sub[q]| <= BlockCap(s) <= BLOCK_MAX
  {
    BlockSizeRange(s.cfg);
    hide Window, WorkersOk, Covered, Alone, Sleepers, ProducerOk, Output, FillingOk, BetweenOk, Total, BlockSize,
         ValidConfig;
  }

  lemma MidsGrow(cfg: Config, mids: seq<nat>, work: nat, ws: seq<Worker>, i: nat, raw: seq<byte>)
    requires MidsOk(cfg, mids, work, ws) && i < |ws| && ws[i].Running? && ws[i].seqNo < work && |raw| <= BlockSize(cfg)
    ensures |mids| == |ws| && mids[i] <= Top(cfg, ws[i].seqNo)
    ensures MidsOk(cfg, mids[i := Grown(cfg, mids[i], raw)], work, ws[i := Finished(ws[i].seqNo)])
  {
    hide LzeStream.MidNeed, BlockSize, Grown;
    var mids', ws' := mids[i := Grown(cfg, mids[i], raw)], ws[i := Finished(ws[i].seqNo)];
    assert MidOk(cfg, mids[i], work, ws[i]);
    MidStaysBelow(cfg, mids[i], raw);
    forall k | 0 <= k < |mids|
      ensures MidOk(cfg, mids'[k], work, ws'[k])
    {
      assert MidOk(cfg, mids[k], work, ws[k]);
    }
  }

  lemma MadeJob(cfg: Config, raw: seq<byte>, q: nat, m: nat)
    requires m <= Top(cfg, q)
    ensures JobOf(cfg, raw, q, CompressJob(cfg, raw, m))
  {
    hide CompressJob, Top;
  }

  lemma HoldsJob(cfg: Config, b: Slot, raw: seq<byte>, q: nat, j: Job)
    requires Holds(cfg, b, raw, q, true) && b.st == Ready
    ensures Holds(cfg, b.(job := j), raw, q, true) && b.rawLen <= |b.raw| && b.raw[..b.rawLen] == raw
  {}

  lemma CodeIs(s: State, i: nat, s': State)
    requires Steps(s, Code(i), s')
    ensures Formed(s) && Enabled(s, Code(i)) && At(s, s.workers[i].seqNo).rawLen <= |At(s, s.workers[i].seqNo).raw| && s' == DoCompress(s, i)
  {
    hide DoCompress, CanEmit, Formed, Nth;
  }

  lemma Compressed(s: State, i: nat, s': State) returns (q: nat, v: Slot)
    requires Inv(s) && Steps(s, Code(i), s') && i < |s.workers| && s.workers[i].Running? && |s.slots| > 0 && |s.sub| == s.fill && s.work <= s.fill
    ensures q == s.workers[i].seqNo && s.emit <= q < s.work && At(s, q).st == Ready && v.st == Ready
    ensures Holds(s.cfg, v, s.sub[q], q, true) && JobOf(s.cfg, s.sub[q], q, v.job)
    ensures s' == s.(slots := Put(s.slots, q, v), mids := s'.mids, workers := s.workers[i := Finished(q)])
    ensures |s'.mids| == |s.mids| && MidsOk(s.cfg, s'.mids, s.work, s'.workers)
  {
    hide Window, WorkersOk, Covered, Alone, Sleepers, ProducerOk, InputOk, Output, Total, BlockSize, ValidConfig, Put,
         Nth, CompressJob, Grown, CanEmit, MidsOk, Top, JobOf, Steps, Holds;
    CodeIs(s, i, s');
    q := BusyInWindow(s, i);
    var b := At(s, q);
    v := b.(job := CompressJob(s.cfg, s.sub[q], s.mids[i]));
    HoldsJob(s.cfg, b, s.sub[q], q, v.job);
    BlockIsSmall(s, q);
    MidsGrow(s.cfg, s.mids, s.work, s.workers, i, s.sub[q]);
    MadeJob(s.cfg, s.sub[q], q, s.mids[i]);
  }

  lemma CompressKeeps(s: State, i: nat, s': State)
    requires Inv(s) && Steps(s, Code(i), s')
    ensures Inv(s')
  {
    hide JobOf, Holds, Output, Window, WorkersOk, Covered, Alone, ProducerOk, InputOk, ValidConfig, BlockSize, MidsOk,
         Put, Nth, DoCompress, CanEmit, AnyAwake, AnyAsleep, AnyExited, AllExited;
    var q, v := Compressed(s, i, s');
    SlotWorked(s.cfg, s.slots, s.emit, s.work, s.fill, s.sub, s.workers, i, v, Finished(q));
    CoveredWorked(s.slots, s.emit, s.work, s.workers, i, v, Finished(q));
    ProducerUndisturbed(s, q, v, s.pc);
    SleepersWorked(s.work, s.fill, s.quit, s.pc, s.pc, s.workers, i, Finished(q));
    hide Sleepers;
  }

  lemma SleepersWorked(work: nat, fill: nat, quit: bool, pc: Producer, pc': Producer, ws: seq<Worker>, i: nat, w: Worker)
    requires Sleepers(work, fill, quit, pc, ws) && i < |ws| && (ws[i].Running? || ws[i].Finished?) && w != Asleep && w != Exited
    requires pc' == pc || (pc.AwaitDone? && pc'.EmitCheck?)
    ensures Sleepers(work, fill, quit, pc', ws[i := w])
  {
    assert ws[i := w][i] == w;
  }

  lemma FinishKeeps(s: State, i: nat, s': State)
    requires Inv(s) && Steps(s, Finish(i), s')
    ensures Inv(s')
  {
    hide JobOf, Output, Window, WorkersOk, Covered, Alone, ProducerOk, InputOk, ValidConfig, BlockSize, MidsOk, Put,
         Nth, CanEmit, Sleepers;
    var q := BusyInWindow(s, i);
    var v := At(s, q).(st := Done);
    SlotWorked(s.cfg, s.slots, s.emit, s.work, s.fill, s.sub, s.workers, i, v, Checking);
    CoveredWorked(s.slots, s.emit, s.work, s.workers, i, v, Checking);
    MidsKept(s.cfg, s.mids, s.work, s.workers, s'.workers);
    ProducerUndisturbed(s, q, v, s'.pc);
    SleepersWorked(s.work, s.fill, s.quit, s.pc, s'.pc, s.workers, i, Checking);
  }

  // ----- the producer's own slot

  lemma FreeSlotWritten(cfg: Config, slots: seq<Slot>, emit: nat, work: nat, fill: nat, sub: seq<seq<byte>>, ws: seq<Worker>, v: Slot)
    requires |slots| > 0 && fill == |sub| && emit <= work <= fill < emit + |slots| && v.st == Free
    requires Window(cfg, slots, emit, work, fill, sub) && WorkersOk(cfg, slots, emit, work, sub, ws) && Covered(slots, emit, work, ws)
    ensures var slots' := Put(slots, fill, v);
            Window(cfg, slots', emit, work, fill, sub) && WorkersOk(cfg, slots', emit, work, sub, ws) && Covered(slots', emit, work, ws)
            && (emit < fill ==> Nth(slots', emit) == Nth(slots, emit)) && Nth(slots', fill) == v
  {
    hide Put, Nth, SomeoneOn, Holds, JobOf;
    PutKeeps(slots, fill, v, emit);
    var slots' := Put(slots, fill, v);
    forall j | 0 <= j < |ws|
      ensures WorkerOk(cfg, slots', emit, work, sub, ws[j])
    {
      assert WorkerOk(cfg, slots, emit, work, sub, ws[j]);
    }
  }

  lemma FillExtends(bs: nat, x: seq<byte>, inp: seq<byte>, rawLen: nat, b: Slot, sub: seq<seq<byte>>, k: nat, pc': Producer)
    requires FillingOk(bs, x, inp, rawLen, b, sub, Filling) && 0 < k <= |inp| && rawLen + k <= bs
    requires pc' == if rawLen + k == bs then Publish(Writing) else Filling
    ensures FillingOk(bs, x, inp[k..], rawLen + k, b.(raw := b.raw[..Min(rawLen, |b.raw|)] + inp[..k]), sub, pc')
  {
    hide Total, AllFull;
    var v := b.(raw := b.raw[..Min(rawLen, |b.raw|)] + inp[..k]);
    assert Partial(v, rawLen + k) == Partial(b, rawLen) + inp[..k];
    assert inp == inp[..k] + inp[k..];
    assert Total(sub) + Partial(b, rawLen) + inp == Total(sub) + Partial(v, rawLen + k) + inp[k..];
  }

  lemma FillKeeps(s: State, k: nat, s': State)
    requires Inv(s) && Steps(s, Fill(k), s')
    ensures Inv(s')
  {
    hide JobOf, Holds, Output, WorkersOk, Covered, Alone, ValidConfig, BlockSize, MidsOk, Put, Nth, Sleepers,
         FillingOk, Total, AllSized, CanEmit, Partial;
    var b := At(s, s.fill);
    var v := b.(raw := b.raw[..Min(s.rawLen, |b.raw|)] + s.inp[..k]);
    assert b.st == Free;
    FreeSlotWritten(s.cfg, s.slots, s.emit, s.work, s.fill, s.sub, s.workers, v);
    FillExtends(BlockCap(s), s.x, s.inp, s.rawLen, b, s.sub, k, s'.pc);
    hide Window;
    assert Sleepers(s'.work, s'.fill, s'.quit, s'.pc, s'.workers) by {
      FillSleepers(s, s'.pc);
    }
  }

  lemma FillSleepers(s: State, pc': Producer)
    requires Sleepers(s.work, s.fill, s.quit, s.pc, s.workers) && FillingPc(s.pc) && (FillingPc(pc') || pc'.CheckFull?)
    ensures Sleepers(s.work, s.fill, s.quit, pc', s.workers)
  {}

  lemma WindowGrows(cfg: Config, slots: seq<Slot>, emit: nat, work: nat, fill: nat, sub: seq<seq<byte>>, ws: seq<Worker>, v: Slot, raw: seq<byte>)
    requires |slots| > 0 && fill == |sub| && emit <= work <= fill < emit + |slots|
    requires Window(cfg, slots, emit, work, fill, sub) && WorkersOk(cfg, slots, emit, work, sub, ws) && Covered(slots, emit, work, ws)
    requires v.st == Ready && v.rawLen <= |v.raw| && v.raw[..v.rawLen] == raw
    ensures var slots' := Put(slots, fill, v);
            Window(cfg, slots', emit, work, fill + 1, sub + [raw]) && WorkersOk(cfg, slots', emit, work, sub + [raw], ws) && Covered(slots', emit, work, ws)
  {
    hide Put, Nth, SomeoneOn, JobOf;
    PutKeeps(slots, fill, v, emit);
    var slots' := Put(slots, fill, v);
    var sub' := sub + [raw];
    assert Holds(cfg, v, raw, fill, false);
    hide Holds;
    forall j | 0 <= j < |ws|
      ensures WorkerOk(cfg, slots', emit, work, sub', ws[j])
    {
      assert WorkerOk(cfg, slots, emit, work, sub, ws[j]);
    }
  }

  lemma SignalKeeps(cfg: Config, slots: seq<Slot>, emit: nat, work: nat, fill: nat, sub: seq<seq<byte>>, ws: seq<Worker>, w: Option<nat>, quit: bool, pc: Producer, pc': Producer)
    requires |slots| > 0 && work <= |sub| && work <= fill && |ws| > 0
    requires WorkersOk(cfg, slots, emit, work, sub, ws) && Covered(slots, emit, work, ws) && Alone(ws) && Sleepers(work, fill, quit, pc, ws)
    requires if AnyAsleep(ws) then w.Some? && w.value < |ws| && ws[w.value] == Asleep else w == None
    requires pc.Publish? && pc'.CheckFull?
    ensures var ws' := if w.Some? then ws[w.value := Checking] else ws;
            WorkersOk(cfg, slots, emit, work, sub, ws') && Covered(slots, emit, work, ws') && Alone(ws') && Sleepers(work, fill + 1, quit, pc', ws')
  {
    hide Nth, JobOf, SomeoneOn;
    if w.Some? {
      WorkerGoesOn(slots, emit, work, ws, w.value, Checking);
      var ws' := ws[w.value := Checking];
      assert ws'[w.value] == Checking;
    } else {
      assert ws[0] != Asleep;
    }
  }

  lemma SubmitInput(bs: nat, x: seq<byte>, inp: seq<byte>, rawLen: nat, b: Slot, sub: seq<seq<byte>>, pc: Producer, b': Slot)
    requires InputOk(bs, x, inp, rawLen, b, sub, pc) && pc.Publish?
    ensures InputOk(bs, x, inp, 0, b', sub + [Partial(b, rawLen)], CheckFull(pc.from))
    ensures |Partial(b, rawLen)| == rawLen
  {
    hide Total, Chunks;
    var raw := Partial(b, rawLen);
    TotalSnoc(sub, raw);
    if pc.from == Finishing {
      ChunksUnique(sub, raw, bs);
      assert x == Total(sub) + raw;
    }
  }

  lemma OutputSame(cfg: Config, front: seq<byte>, sub: seq<seq<byte>>, raw: seq<byte>, done: seq<Job>, sink: seq<byte>, idx: seq<Entry>, rawOffset: nat, hashed: seq<byte>, sticky: bool)
    requires Output(cfg, front, sub, done, sink, idx, rawOffset, hashed, sticky)
    ensures Output(cfg, front, sub + [raw], done, sink, idx, rawOffset, hashed, sticky)
  {
    hide Wrote, JobOf;
    assert (sub + [raw])[..|done|] == sub[..|done|];
  }

  lemma SubmitKeeps(s: State, w: Option<nat>, s': State)
    requires Inv(s) && Steps(s, Submit(w), s')
    ensures Inv(s')
  {
    hide JobOf, Holds, Output, Window, WorkersOk, Covered, Alone, ValidConfig, BlockSize, MidsOk, Put, Nth, Sleepers,
         AnyAsleep, CanEmit, InputOk;
    var b := At(s, s.fill);
    var raw := Partial(b, s.rawLen);
    var v := b.(rawLen := s.rawLen, st := Ready);
    SubmitInput(BlockCap(s), s.x, s.inp, s.rawLen, b, s.sub, s.pc, At(s', s'.fill));
    WindowGrows(s.cfg, s.slots, s.emit, s.work, s.fill, s.sub, s.workers, v, raw);
    SignalKeeps(s.cfg, s'.slots, s.emit, s.work, s.fill, s'.sub, s.workers, w, s.quit, s.pc, s'.pc);
    MidsKept(s.cfg, s.mids, s.work, s.workers, s'.workers);
    OutputSame(s.cfg, s.front, s.sub, raw, s.done, s.sink, s.idx, s.rawOffset, s.hashed, s.sticky);
  }

  // ----- emitting

  lemma CutIsPrefix(all: seq<byte>, bytes: seq<byte>, cut: Option<nat>)
    requires cut.Some? ==> cut.value < |bytes|
    ensures all + CutAt(bytes, cut) <= all + bytes
    ensures all + CutAt(bytes, cut) == all + bytes <==> cut == None
  {
    if cut.Some? {
      assert |CutAt(bytes, cut)| < |bytes|;
    }
  }

  lemma WroteGrows(cfg: Config, front: seq<byte>, blocks: seq<seq<byte>>, done: seq<Job>, sink: seq<byte>, idx: seq<Entry>, hashed: seq<byte>, b: seq<byte>, j: Job, cut: Option<nat>)
    requires Wrote(cfg, front, blocks, done, sink, idx, |Total(blocks)|, hashed, false)
    requires |b| <= BLOCK_MAX && |j.payload| <= BLOCK_MAX && |Total(blocks + [b])| < U64_LIMIT
    requires cut.Some? ==> cut.value < BlockLen(cfg, j)
    ensures var n := |Total(blocks)|;
            Wrote(cfg, front, blocks + [b], done + [j], sink + CutAt(BlockBytes(cfg, b, n, j), cut), idx + [Entry(|sink|, n)],
                  if cut.Some? then n else n + |b|, if cut.Some? then hashed else hashed + b, cut.Some?)
  {
    hide Entries, Total, Body, BlockBytes, CutAt;
    var n := |Total(blocks)|;
    var bytes := BlockBytes(cfg, b, n, j);
    assert |bytes| == BlockLen(cfg, j);
    hide BlockLen;
    BodySnoc(cfg, blocks, done, b, j, 0);
    TotalSnoc(blocks, b);
    SmallGrows(blocks, done, b, j);
    IndexGrows(cfg, blocks, done, |front|, b, j);
    hide Small;
    var body := Body(cfg, blocks, done, 0);
    CutIsPrefix(front + body, bytes, cut);
    assert front + (body + bytes) == front + body + bytes;
  }

  lemma OutputGrows(s: State, cut: Option<nat>)
    requires Inv(s) && s.pc.Emitting? && (cut.Some? ==> cut.value < BlockLen(s.cfg, At(s, s.emit).job))
    ensures CanEmit(s)
    ensures var s' := DoEmit(s, cut);
            Output(s.cfg, s.front, s.sub, s'.done, s'.sink, s'.idx, s'.rawOffset, s'.hashed, s'.sticky)
  {
    hide JobOf, Window, WorkersOk, Covered, Alone, ValidConfig, BlockSize, MidsOk, Nth, Sleepers, FillingOk,
         BetweenOk, Total, BlockLen, Wrote, BlockBytes, CutAt, CompressJob;
    var k := s.emit;
    var b := At(s, k);
    EmittedSlot(s);
    BlockIsSmall(s, k);
    JobSmall(s.cfg, s.sub[k], k, b.job);
    TotalTake(s.sub, k + 1);
    assert s.sub[..k + 1] == s.sub[..k] + [s.sub[k]];
    RawOffsetIs(s);
    WroteGrows(s.cfg, s.front, s.sub[..k], s.done, s.sink, s.idx, s.hashed, s.sub[k], b.job, cut);
  }

  lemma RawOffsetIs(s: State)
    requires Inv(s) && s.pc.Emitting?
    ensures s.rawOffset == |Total(s.sub[..|s.done|])| < U64_LIMIT && !s.sticky && |s.done| == s.emit
    ensures Wrote(s.cfg, s.front, s.sub[..s.emit], s.done, s.sink, s.idx, s.rawOffset, s.hashed, false)
  {
    hide JobOf, Window, WorkersOk, Covered, Alone, ValidConfig, BlockSize, MidsOk, Nth, Sleepers, InputOk, Total,
         Body, Entries;
  }

  lemma EmittedSlot(s: State)
    requires Inv(s) && (s.pc.Emitting? || s.pc.Release?)
    ensures var b := At(s, s.emit);
            b.st == Done && b.rawLen <= |b.raw| && b.raw[..b.rawLen] == s.sub[s.emit] && JobOf(s.cfg, s.sub[s.emit], s.emit, b.job)
    ensures s.emit < s.work
  {
    hide JobOf, WorkersOk, Covered, Alone, ValidConfig, BlockSize, MidsOk, Nth, Sleepers, InputOk, Output;
    assert Holds(s.cfg, Nth(s.slots, s.emit), s.sub[s.emit], s.emit, s.emit < s.work);
  }

  lemma JobSmall(cfg: Config, raw: seq<byte>, q: nat, j: Job)
    requires JobOf(cfg, raw, q, j)
    ensures |j.payload| <= |raw|
  {
    hide CompressJob, Top;
    var m: nat :| m <= Top(cfg, q) && j == CompressJob(cfg, raw, m);
    JobShrinks(cfg, raw, m);
  }

  lemma EmitKeeps(s: State, cut: Option<nat>, s': State)
    requires Inv(s) && Steps(s, Emit(cut), s')
    ensures Inv(s')
  {
    hide JobOf, Output, Window, WorkersOk, Covered, Alone, ValidConfig, BlockSize, MidsOk, Nth, FillingOk, Total,
         BlockBytes, Chunks, AllFull, AllSized, CutAt, AnyAwake, AnyAsleep, AnyExited;
    OutputGrows(s, cut);
  }

  lemma WindowSlides(cfg: Config, slots: seq<Slot>, emit: nat, work: nat, fill: nat, sub: seq<seq<byte>>, ws: seq<Worker>, v: Slot)
    requires |slots| > 0 && fill == |sub| && emit < work <= fill <= emit + |slots| && v.st == Free
    requires Window(cfg, slots, emit, work, fill, sub) && WorkersOk(cfg, slots, emit, work, sub, ws) && Covered(slots, emit, work, ws)
    requires Nth(slots, emit).st == Done
    ensures var slots' := Put(slots, emit, v);
            Window(cfg, slots', emit + 1, work, fill, sub) && WorkersOk(cfg, slots', emit + 1, work, sub, ws) && Covered(slots', emit + 1, work, ws)
  {
    hide Put, Nth, SomeoneOn, JobOf, Holds;
    var n := |slots|;
    PutKeeps(slots, emit, v, emit);
    var slots' := Put(slots, emit, v);
    SameIx(slots', emit);
    forall j | 0 <= j < |ws|
      ensures WorkerOk(cfg, slots', emit + 1, work, sub, ws[j])
    {
      assert WorkerOk(cfg, slots, emit, work, sub, ws[j]);
    }
  }

  lemma SameIx(slots: seq<Slot>, q: nat)
    requires |slots| > 0
    ensures Nth(slots, q + |slots|) == Nth(slots, q)
  {
    var n := |slots|;
    DivUnique(q + n, n, q / n + 1, q % n);
  }

  lemma FreeKeeps(s: State, s': State)
    requires Inv(s) && Steps(s, FreeSlot, s')
    ensures Inv(s')
  {
    hide JobOf, Output, Window, WorkersOk, Covered, Alone, ValidConfig, BlockSize, MidsOk, Put, Nth, FillingOk, Total,
         BlockBytes, Chunks, AllFull, AllSized, CanEmit, AnyAwake, AnyAsleep, AnyExited, Roused;
    EmittedSlot(s);
    RousedKeeps(s.cfg, s.slots, s.emit, s.work, s.sub, s.workers);
    MidsRoused(s.cfg, s.mids, s.work, s.workers);
    WindowSlides(s.cfg, s.slots, s.emit, s.work, s.fill, s.sub, Roused(s.workers), At(s, s.emit).(st := Free));
  }

  // ----- every run

  /** One event keeps the invariant. */
  lemma StepKeeps(s: State, e: Event, s': State)
    requires Inv(s) && Steps(s, e, s')
    ensures Inv(s')
  {
    hide Inv, Steps;
    match e
    case Fill(k) => FillKeeps(s, k, s');
    case Submit(w) => SubmitKeeps(s, w, s');
    case Emit(cut) => EmitKeeps(s, cut, s');
    case FreeSlot => FreeKeeps(s, s');
    case Quit => QuitKeeps(s, s');
    case Check(i) => CheckKeeps(s, i, s');
    case Code(i) => CompressKeeps(s, i, s');
    case Finish(i) => FinishKeeps(s, i, s');
    case Wake(i) => WakeKeeps(s, i, s');
    case _ => ProducerMoves(s, e, s');
  }

  lemma InitialHolds(s: State)
    requires Initial(s)
    ensures Inv(s)
  {
    BlockSizeRange(s.cfg);
    hide BlockSize, ValidConfig, JobOf;
    assert Nth(s.slots, 0).st == Free;
    assert s.workers[0] == Checking;
    assert Total([]) == [];
    assert Body(s.cfg, [], [], 0) == [];
    assert s.sub[..|s.done|] == [] && s.front + [] == s.front;
  }

  /** Every state of every run satisfies the invariant, whatever the interleaving. */
  lemma {:induction false} RunsAreSafe(run: seq<State>, events: seq<Event>, i: nat)
    requires IsRun(run, events) && i < |run|
    ensures Inv(run[i])
  {
    hide Inv, Steps, Initial;
    if i == 0 {
      InitialHolds(run[0]);
    } else {
      RunsAreSafe(run, events, i - 1);
      assert Steps(run[i - 1], events[i - 1], run[i - 1 + 1]);
      StepKeeps(run[i - 1], events[i - 1], run[i]);
    }
  }
}
