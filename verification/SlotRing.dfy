/** The parallel encoder's slot ring as a state machine: one producer, any number of workers, three
    sequence counters, two condition variables. One event is one region under the mutex, or the work
    done between two of them; events interleave freely
    (src/core/xq_encoder.c:181-310, 376-388, 535-570). */
module SlotRing {
  import opened Bytes
  import opened Format
  import opened Codec
  import opened Container
  import opened ContainerProof
  import opened FileSpec

  datatype SlotState = Free | Ready | Done

  /** `raw` is the buffer as far as it has ever been written; `rawLen` of it belong to the job. */
  datatype Slot = Slot(raw: seq<byte>, rawLen: nat, job: Job, st: SlotState)

  /** Where `flush_block` was called from. */
  datatype Caller = Writing | Finishing

  datatype Producer =
    | Filling
    | Publish(from: Caller)
    | CheckFull(from: Caller)
    | DrainCheck
    | EmitCheck(from: Caller, draining: bool)
    | AwaitDone(from: Caller, draining: bool)
    | Emitting(from: Caller, draining: bool)
    | Release(from: Caller, draining: bool)
    | Drained
    | Failed
    | Joining
    | Joined

  datatype Worker = Checking | Asleep | Running(seqNo: nat) | Finished(seqNo: nat) | Exited

  datatype State = State(
    cfg: Config, x: seq<byte>, inp: seq<byte>, rawLen: nat,
    slots: seq<Slot>, fill: nat, work: nat, emit: nat, quit: bool,
    pc: Producer, workers: seq<Worker>, mids: seq<nat>,
    front: seq<byte>, sink: seq<byte>, idx: seq<Entry>, rawOffset: nat, hashed: seq<byte>, sticky: bool,
    // history: the blocks submitted and the jobs emitted, in order
    sub: seq<seq<byte>>, done: seq<Job>)

  datatype Event =
    | Fill(k: nat)
    | FinishCall
    | Submit(wakes: Option<nat>)
    | TestFull
    | TestMore
    | TestDone
    | Emit(cut: Option<nat>)
    | FreeSlot
    | Quit
    | Join
    | Check(i: nat)
    | Code(i: nat)
    | Finish(i: nat)
    | Wake(i: nat)
    | WakeProducer

  /** A wake-up nothing asked for; condition variables may have them. */
  predicate Spurious(e: Event) { e.Wake? || e.WakeProducer? }

  function Ix(q: nat, n: nat): (i: nat)
    requires n > 0
    ensures i < n
  {
    q % n
  }

  function Nth(slots: seq<Slot>, q: nat): Slot
    requires |slots| > 0
  {
    slots[Ix(q, |slots|)]
  }

  function At(s: State, q: nat): Slot
    requires |s.slots| > 0
  {
    Nth(s.slots, q)
  }

  function Put(slots: seq<Slot>, q: nat, v: Slot): (r: seq<Slot>)
    requires |slots| > 0
    ensures |r| == |slots|
  {
    slots[Ix(q, |slots|) := v]
  }

  function SetSlot(s: State, q: nat, v: Slot): State
    requires |s.slots| > 0
  {
    s.(slots := Put(s.slots, q, v))
  }

  function BlockCap(s: State): nat {
    BlockSize(s.cfg)
  }

  function Roused(ws: seq<Worker>): (r: seq<Worker>)
    ensures |r| == |ws|
  {
    seq(|ws|, i requires 0 <= i < |ws| => if ws[i] == Asleep then Checking else ws[i])
  }

  predicate AnyAsleep(ws: seq<Worker>) {
    exists i :: 0 <= i < |ws| && ws[i] == Asleep
  }

  predicate AllExited(ws: seq<Worker>) {
    forall i :: 0 <= i < |ws| ==> ws[i] == Exited
  }

  predicate Formed(s: State) {
    |s.workers| > 0 && |s.slots| == 2 * |s.workers| && |s.mids| == |s.workers|
  }

  predicate Enabled(s: State, e: Event)
    requires Formed(s)
  {
    match e
    case Fill(k) => s.pc == Filling && 0 < k <= |s.inp| && s.rawLen + k <= BlockCap(s)
    case FinishCall => s.pc == Filling && s.inp == []
    case Submit(w) => s.pc.Publish? && if AnyAsleep(s.workers) then w.Some? && w.value < |s.workers| && s.workers[w.value] == Asleep else w == None
    case TestFull => s.pc.CheckFull?
    case TestMore => s.pc == DrainCheck
    case TestDone => s.pc.EmitCheck?
    case Emit(cut) => s.pc.Emitting? && (cut.Some? ==> cut.value < BlockLen(s.cfg, At(s, s.emit).job))
    case FreeSlot => s.pc.Release?
    case Quit => s.pc == Filling || s.pc == Drained || s.pc == Failed
    case Join => s.pc == Joining && AllExited(s.workers)
    case Check(i) => i < |s.workers| && s.workers[i] == Checking
    case Code(i) => i < |s.workers| && s.workers[i].Running?
    case Finish(i) => i < |s.workers| && s.workers[i].Finished?
    case Wake(i) => i < |s.workers| && s.workers[i] == Asleep
    case WakeProducer => s.pc.AwaitDone?
  }

  // ----- the producer

  /** `xq_encoder_write` copies up to the end of the block into the current slot's buffer. */
  function DoFill(s: State, k: nat): State
    requires Formed(s) && Enabled(s, Fill(k))
  {
    var b := At(s, s.fill);
    var raw := b.raw[..Min(s.rawLen, |b.raw|)] + s.inp[..k];
    SetSlot(s, s.fill, b.(raw := raw)).(inp := s.inp[k..], rawLen := s.rawLen + k,
                                        pc := if s.rawLen + k == BlockCap(s) then Publish(Writing) else Filling)
  }

  function DoFinishCall(s: State): State {
    s.(pc := if s.rawLen > 0 then Publish(Finishing) else DrainCheck)
  }

  /** First region of `mt_submit`. */
  function DoSubmit(s: State, w: Option<nat>): State
    requires Formed(s) && Enabled(s, Submit(w))
  {
    var b := At(s, s.fill);
    SetSlot(s, s.fill, b.(rawLen := s.rawLen, st := Ready))
    .(fill := s.fill + 1, rawLen := 0, pc := CheckFull(s.pc.from), sub := s.sub + [b.raw[..Min(s.rawLen, |b.raw|)]],
      workers := if w.Some? then s.workers[w.value := Checking] else s.workers)
  }

  function DoTestFull(s: State): State
    requires s.pc.CheckFull?
  {
    s.(pc := if s.fill - s.emit >= |s.slots| then EmitCheck(s.pc.from, false) else if s.pc.from == Writing then Filling else DrainCheck)
  }

  function DoTestMore(s: State): State {
    s.(pc := if s.emit < s.fill then EmitCheck(Finishing, true) else Drained)
  }

  function DoTestDone(s: State): State
    requires Formed(s) && s.pc.EmitCheck?
  {
    if s.emit >= s.fill then s.(pc := if s.pc.draining then DrainCheck else CheckFull(s.pc.from))
    else if At(s, s.emit).st == Done then s.(pc := Emitting(s.pc.from, s.pc.draining))
    else s.(pc := AwaitDone(s.pc.from, s.pc.draining))
  }

  function CutAt(b: seq<byte>, cut: Option<nat>): seq<byte> {
    if cut.Some? then b[..Min(cut.value, |b|)] else b
  }

  predicate CanEmit(s: State)
    requires Formed(s)
  {
    var b := At(s, s.emit);
    s.rawOffset < U64_LIMIT && b.rawLen <= |b.raw| && b.rawLen <= BLOCK_MAX && |b.job.payload| <= BLOCK_MAX
  }

  /** `emit_job`, outside the mutex. The sink may fail after any part of the block. */
  function DoEmit(s: State, cut: Option<nat>): State
    requires Formed(s) && s.pc.Emitting? && CanEmit(s)
  {
    var b := At(s, s.emit);
    var raw := b.raw[..b.rawLen];
    s.(pc := Release(s.pc.from, s.pc.draining), idx := s.idx + [Entry(|s.sink|, s.rawOffset)], done := s.done + [b.job],
       sink := s.sink + CutAt(BlockBytes(s.cfg, raw, s.rawOffset, b.job), cut),
       sticky := cut.Some?,
       hashed := if cut.Some? then s.hashed else s.hashed + raw,
       rawOffset := if cut.Some? then s.rawOffset else s.rawOffset + |raw|)
  }

  function DoFree(s: State): State
    requires Formed(s) && s.pc.Release?
  {
    SetSlot(s, s.emit, At(s, s.emit).(st := Free))
    .(emit := s.emit + 1, workers := Roused(s.workers),
      pc := if s.sticky then Failed else if s.pc.draining then DrainCheck else CheckFull(s.pc.from))
  }

  function DoQuit(s: State): State {
    s.(quit := true, pc := Joining, workers := Roused(s.workers))
  }

  // ----- a worker

  function DoCheck(s: State, i: nat): State
    requires i < |s.workers|
  {
    if s.work < s.fill then s.(work := s.work + 1, workers := s.workers[i := Running(s.work)])
    else s.(workers := s.workers[i := if s.quit then Exited else Asleep])
  }

  function DoCompress(s: State, i: nat): State
    requires Formed(s) && Enabled(s, Code(i)) && At(s, s.workers[i].seqNo).rawLen <= |At(s, s.workers[i].seqNo).raw|
  {
    var q := s.workers[i].seqNo;
    var b := At(s, q);
    var raw := b.raw[..b.rawLen];
    SetSlot(s, q, b.(job := CompressJob(s.cfg, raw, s.mids[i])))
    .(mids := s.mids[i := Grown(s.cfg, s.mids[i], raw)], workers := s.workers[i := Finished(q)])
  }

  function DoFinish(s: State, i: nat): State
    requires Formed(s) && Enabled(s, Finish(i))
  {
    var q := s.workers[i].seqNo;
    SetSlot(s, q, At(s, q).(st := Done))
    .(workers := s.workers[i := Checking],
      pc := if s.pc.AwaitDone? then EmitCheck(s.pc.from, s.pc.draining) else s.pc)
  }

  /** One event; where the C code would read outside what it was given, the predicate is false. */
  ghost predicate Steps(s: State, e: Event, s': State) {
    Formed(s) && Enabled(s, e)
    && match e
       case Fill(k) => s' == DoFill(s, k)
       case FinishCall => s' == DoFinishCall(s)
       case Submit(w) => s' == DoSubmit(s, w)
       case TestFull => s' == DoTestFull(s)
       case TestMore => s' == DoTestMore(s)
       case TestDone => s' == DoTestDone(s)
       case Emit(cut) => CanEmit(s) && s' == DoEmit(s, cut)
       case FreeSlot => s' == DoFree(s)
       case Quit => s' == DoQuit(s)
       case Join => s' == s.(pc := Joined)
       case Check(i) => s' == DoCheck(s, i)
       case Code(i) => At(s, s.workers[i].seqNo).rawLen <= |At(s, s.workers[i].seqNo).raw| && s' == DoCompress(s, i)
       case Finish(i) => s' == DoFinish(s, i)
       case Wake(i) => s' == s.(workers := s.workers[i := Checking])
       case WakeProducer => s' == s.(pc := EmitCheck(s.pc.from, s.pc.draining))
  }

  /** Fresh from `mt_create`, with the header and dictionary record already written. */
  predicate Initial(s: State) {
    && Formed(s) && ValidConfig(s.cfg) && |s.x| < U64_LIMIT && s.inp == s.x && s.rawLen == 0
    && s.fill == 0 && s.work == 0 && s.emit == 0 && !s.quit && s.pc == Filling && !s.sticky
    && (forall i :: 0 <= i < |s.workers| ==> s.workers[i] == Checking && s.mids[i] == 0)
    && (forall i :: 0 <= i < |s.slots| ==> s.slots[i].st == Free)
    && s.sink == s.front && s.idx == [] && s.rawOffset == 0 && s.hashed == [] && s.sub == [] && s.done == []
  }

  ghost predicate IsRun(run: seq<State>, events: seq<Event>) {
    && |run| == |events| + 1 && Initial(run[0])
    && forall i :: 0 <= i < |events| ==> Steps(run[i], events[i], run[i + 1])
  }
}
