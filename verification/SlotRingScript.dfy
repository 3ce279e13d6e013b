/** Every assignment of blocks to workers is what some run does: a schedule for it, and the jobs it ends
    with. */
module SlotRingScript {
  import opened Bytes
  import opened Format
  import opened Codec
  import opened Container
  import opened ContainerProof
  import opened FileSpec
  import opened SlotRing
  import opened SlotRingSafe
  import opened SlotRingLive

  // ----- assignments

  /** The buffer of worker `i` once the first `q` blocks have been taken, block `p` by worker `own[p]`. */
  function MidOf(cfg: Config, blocks: seq<seq<byte>>, own: seq<nat>, q: nat, i: nat): nat
    requires q <= |blocks| == |own|
  {
    if q == 0 then 0
    else
      var m := MidOf(cfg, blocks, own, q - 1, i);
      if own[q - 1] == i then Grown(cfg, m, blocks[q - 1]) else m
  }

  /** What that worker makes of block `q`. */
  function JobBy(cfg: Config, blocks: seq<seq<byte>>, own: seq<nat>, q: nat): Job
    requires q < |blocks| == |own|
  {
    CompressJob(cfg, blocks[q], MidOf(cfg, blocks, own, q, own[q]))
  }

  predicate Assigns(own: seq<nat>, blocks: seq<seq<byte>>, n: nat) {
    |own| == |blocks| && forall q :: 0 <= q < |own| ==> own[q] < n
  }

  // ----- a run that keeps to an assignment

  ghost predicate WorkerFollows(cfg: Config, blocks: seq<seq<byte>>, own: seq<nat>, work: nat, i: nat, w: Worker, mid: nat)
    requires work <= |blocks| == |own|
  {
    match w
    case Checking => mid == MidOf(cfg, blocks, own, work, i)
    case Running(q) => q < work && own[q] == i && mid == MidOf(cfg, blocks, own, q, i) && MidOf(cfg, blocks, own, work, i) == MidOf(cfg, blocks, own, q + 1, i)
    case Finished(q) => q < work && own[q] == i && mid == MidOf(cfg, blocks, own, work, i)
    case Asleep => false
    case Exited => false
  }

  ghost predicate WorkersFollow(cfg: Config, blocks: seq<seq<byte>>, own: seq<nat>, work: nat, ws: seq<Worker>, mids: seq<nat>)
    requires work <= |blocks| == |own|
  {
    |ws| == |mids| && forall i :: 0 <= i < |ws| ==> WorkerFollows(cfg, blocks, own, work, i, ws[i], mids[i])
  }

  /** The job of a block that has been taken, once it has been made. */
  function JobAt(slots: seq<Slot>, done: seq<Job>, q: nat): Job
    requires |slots| > 0
  {
    if q < |done| then done[q] else Nth(slots, q).job
  }

  ghost predicate JobsFollow(cfg: Config, blocks: seq<seq<byte>>, own: seq<nat>, work: nat, slots: seq<Slot>, done: seq<Job>, ws: seq<Worker>)
    requires work <= |blocks| && Assigns(own, blocks, |ws|) && |slots| > 0
  {
    forall q: nat {:trigger JobAt(slots, done, q)} :: q < work && ws[own[q]] != Running(q) ==> JobAt(slots, done, q) == JobBy(cfg, blocks, own, q)
  }

  function BlocksOf(s: State): seq<seq<byte>> {
    Chunks(s.x, BlockSize(s.cfg))
  }

  ghost predicate Follows(s: State, own: seq<nat>) {
    var blocks := BlocksOf(s);
    && Assigns(own, blocks, |s.workers|) && s.sub <= blocks && s.work <= |blocks| && |s.slots| > 0
    && WorkersFollow(s.cfg, blocks, own, s.work, s.workers, s.mids)
    && JobsFollow(s.cfg, blocks, own, s.work, s.slots, s.done, s.workers)
  }

  /** Submitted blocks are the first blocks of the input. */
  lemma SubIsPrefix(s: State)
    requires Inv(s) && !OverPc(s.pc)
    ensures s.sub <= BlocksOf(s)
  {
    hide Window, WorkersOk, Covered, Alone, Sleepers, ProducerOk, Output, ValidConfig, MidsOk, Nth, Total, Chunks,
         AllFull, AllSized, BlockSize, Partial;
    var bs := BlockCap(s);
    if FillingPc(s.pc) {
      var rest := Partial(At(s, s.fill), s.rawLen) + s.inp;
      assert s.x == Total(s.sub) + rest;
      ChunksOfFull(s.sub, rest, bs);
    } else if WritingPc(s.pc) {
      ChunksOfFull(s.sub, s.inp, bs);
    }
  }

  /** The next event that keeps to the assignment: only a block's own worker takes it. */
  ghost predicate Keeps(s: State, own: seq<nat>, e: Event) {
    Onward(e) && (e.Check? ==> s.work < s.fill && s.work < |own| && own[s.work] == e.i)
  }

  lemma NextEvent(s: State, own: seq<nat>) returns (e: Event)
    requires Inv(s) && UnderWay(s) && Follows(s, own)
    ensures Enabled(s, e) && Keeps(s, own, e)
  {
    hide Enabled, JobsFollow, MidOf, Onward;
    if !s.pc.AwaitDone? {
      hide Inv;
      e := ProducerGoesOn(s);
    } else {
      var i := AwaitedWorker(s, own);
      hide Inv;
      e := WorkerGoesOnward(s, i);
    }
  }

  lemma AwaitedWorker(s: State, own: seq<nat>) returns (i: nat)
    requires Inv(s) && s.pc.AwaitDone? && Follows(s, own)
    ensures i < |s.workers| && s.workers[i] != Asleep && s.workers[i] != Exited
    ensures s.workers[i] == Checking ==> s.work < s.fill && s.work < |own| && own[s.work] == i
  {
    hide JobOf, InputOk, Output, ValidConfig, Nth, WorkersOk, Alone, MidsOk, JobsFollow, MidOf, Sleepers;
    if s.emit < s.work {
      assert Holds(s.cfg, Nth(s.slots, s.emit), s.sub[s.emit], s.emit, s.emit < s.work);
      assert SomeoneOn(s.workers, s.emit);
      i :| 0 <= i < |s.workers| && BusyOn(s.workers[i], s.emit);
    } else {
      assert s.work < |BlocksOf(s)|;
      i := own[s.work];
      assert WorkerFollows(s.cfg, BlocksOf(s), own, s.work, i, s.workers[i], s.mids[i]);
    }
  }

  lemma NoneAsleep(cfg: Config, blocks: seq<seq<byte>>, own: seq<nat>, work: nat, ws: seq<Worker>, mids: seq<nat>)
    requires work <= |blocks| == |own| && WorkersFollow(cfg, blocks, own, work, ws, mids)
    ensures !AnyAsleep(ws) && Roused(ws) == ws
  {
    hide MidOf;
    forall i | 0 <= i < |ws|
      ensures ws[i] != Asleep
    {
      assert WorkerFollows(cfg, blocks, own, work, i, ws[i], mids[i]);
    }
  }

  // ----- each event keeps to it

  lemma TakeFollows(cfg: Config, blocks: seq<seq<byte>>, own: seq<nat>, work: nat, slots: seq<Slot>, done: seq<Job>, ws: seq<Worker>, mids: seq<nat>)
    requires work < |blocks| && Assigns(own, blocks, |ws|) && |slots| > 0 && ws[own[work]] == Checking
    requires WorkersFollow(cfg, blocks, own, work, ws, mids) && JobsFollow(cfg, blocks, own, work, slots, done, ws)
    ensures var ws' := ws[own[work] := Running(work)];
            WorkersFollow(cfg, blocks, own, work + 1, ws', mids) && JobsFollow(cfg, blocks, own, work + 1, slots, done, ws')
  {
    hide JobBy, JobAt;
    var ws' := ws[own[work] := Running(work)];
    forall i | 0 <= i < |ws|
      ensures WorkerFollows(cfg, blocks, own, work + 1, i, ws'[i], mids[i])
    {
      assert WorkerFollows(cfg, blocks, own, work, i, ws[i], mids[i]);
    }
  }

  /** The worker on block `q` makes its job. */
  lemma CodeFollows(cfg: Config, blocks: seq<seq<byte>>, own: seq<nat>, work: nat, ws: seq<Worker>, mids: seq<nat>, i: nat)
    requires work <= |blocks| && Assigns(own, blocks, |ws|) && i < |ws| && ws[i].Running?
    requires WorkersFollow(cfg, blocks, own, work, ws, mids)
    ensures var q := ws[i].seqNo;
            && |mids| == |ws| && q < work && own[q] == i && JobBy(cfg, blocks, own, q) == CompressJob(cfg, blocks[q], mids[i])
            && WorkersFollow(cfg, blocks, own, work, ws[i := Finished(q)], mids[i := Grown(cfg, mids[i], blocks[q])])
  {
    hide CompressJob, Grown;
    assert WorkerFollows(cfg, blocks, own, work, i, ws[i], mids[i]);
    var q := ws[i].seqNo;
    var ws', mids' := ws[i := Finished(q)], mids[i := Grown(cfg, mids[i], blocks[q])];
    forall k | 0 <= k < |ws|
      ensures WorkerFollows(cfg, blocks, own, work, k, ws'[k], mids'[k])
    {
      assert WorkerFollows(cfg, blocks, own, work, k, ws[k], mids[k]);
    }
  }

  lemma FinishFollows(cfg: Config, blocks: seq<seq<byte>>, own: seq<nat>, work: nat, ws: seq<Worker>, mids: seq<nat>, i: nat)
    requires work <= |blocks| == |own| && i < |ws| && ws[i].Finished?
    requires WorkersFollow(cfg, blocks, own, work, ws, mids)
    ensures WorkersFollow(cfg, blocks, own, work, ws[i := Checking], mids)
  {
    hide MidOf;
    var ws' := ws[i := Checking];
    forall k | 0 <= k < |ws|
      ensures WorkerFollows(cfg, blocks, own, work, k, ws'[k], mids[k])
    {
      assert WorkerFollows(cfg, blocks, own, work, k, ws[k], mids[k]);
    }
  }

  /** Jobs stay what they are while slots and the list of emitted jobs change, but for one just made. */
  lemma JobsStay(cfg: Config, blocks: seq<seq<byte>>, own: seq<nat>, work: nat, slots: seq<Slot>, done: seq<Job>, ws: seq<Worker>, slots': seq<Slot>, done': seq<Job>, ws': seq<Worker>)
    requires work <= |blocks| && Assigns(own, blocks, |ws|) && |ws'| == |ws| && |slots| > 0 && |slots'| > 0
    requires JobsFollow(cfg, blocks, own, work, slots, done, ws)
    requires forall q: nat {:trigger JobAt(slots', done', q)} :: q < work && ws'[own[q]] != Running(q) ==>
               JobAt(slots', done', q) == JobBy(cfg, blocks, own, q) || (ws[own[q]] != Running(q) && JobAt(slots', done', q) == JobAt(slots, done, q))
    ensures JobsFollow(cfg, blocks, own, work, slots', done', ws')
  {
    hide JobBy, JobAt;
  }

  /** A write to one slot of the window leaves the other blocks' jobs alone. */
  lemma JobsElsewhere(slots: seq<Slot>, done: seq<Job>, base: nat, q: nat, v: Slot, p: nat)
    requires |slots| > 0 && base <= q < base + |slots| && base <= |done| && p < base + |slots| && (p != q || v.job == Nth(slots, q).job)
    ensures JobAt(Put(slots, q, v), done, p) == JobAt(slots, done, p)
  {
    if p >= |done| {
      PutKeeps(slots, q, v, base);
      hide Put, Nth;
    }
  }

  lemma CheckStep(s: State, own: seq<nat>, i: nat, s': State)
    requires Inv(s) && Follows(s, own) && Steps(s, Check(i), s') && s.work < s.fill && s.work < |own| && own[s.work] == i
    ensures Follows(s', own)
  {
    hide Inv, WorkersFollow, JobsFollow, Chunks, BlockSize, CanEmit, Nth;
    FillIsSub(s);
    TakeFollows(s.cfg, BlocksOf(s), own, s.work, s.slots, s.done, s.workers, s.mids);
  }

  lemma FillIsSub(s: State)
    requires Inv(s)
    ensures s.fill == |s.sub| && s.emit <= s.work <= s.fill <= s.emit + |s.slots| && |s.done| >= s.emit && |s.slots| > 0
    ensures s.pc.Emitting? ==> |s.done| == s.emit < s.work
    ensures s.pc.Release? ==> |s.done| == s.emit + 1 && s.emit < s.work
    ensures FillingPc(s.pc) ==> s.fill < s.emit + |s.slots|
  {
    if s.pc.Emitting? || s.pc.Release? {
      EmittedSlot(s);
    }
    hide Window, WorkersOk, Covered, Alone, Sleepers, InputOk, Output, ValidConfig, MidsOk, Nth;
  }

  lemma CodeStep(s: State, own: seq<nat>, i: nat, s': State)
    requires Inv(s) && Follows(s, own) && Steps(s, Code(i), s')
    ensures Follows(s', own)
  {
    hide Inv, WorkersFollow, JobsFollow, Chunks, BlockSize, Steps, JobBy, CompressJob, JobAt, Put, Nth, DoCompress,
         Grown;
    FillIsSub(s);
    CodeIs(s, i, s');
    CodeMakes(s, i, s');
    var q := s.workers[i].seqNo;
    var blocks := BlocksOf(s);
    CodeFollows(s.cfg, blocks, own, s.work, s.workers, s.mids, i);
    var v := At(s, q).(job := CompressJob(s.cfg, s.sub[q], s.mids[i]));
    NewJobAt(s.slots, s.done, s.emit, q, v);
    forall p: nat {:trigger JobAt(s'.slots, s'.done, p)} | p < s.work && s'.workers[own[p]] != Running(p)
      ensures JobAt(s'.slots, s'.done, p) == JobBy(s.cfg, blocks, own, p) || (s.workers[own[p]] != Running(p) && JobAt(s'.slots, s'.done, p) == JobAt(s.slots, s.done, p))
    {
      if p != q {
        JobsElsewhere(s.slots, s.done, s.emit, q, v, p);
      }
    }
    JobsStay(s.cfg, blocks, own, s.work, s.slots, s.done, s.workers, s'.slots, s'.done, s'.workers);
  }

  lemma NewJobAt(slots: seq<Slot>, done: seq<Job>, base: nat, q: nat, v: Slot)
    requires |slots| > 0 && base <= q < base + |slots| && q >= |done|
    ensures JobAt(Put(slots, q, v), done, q) == v.job
  {
    PutKeeps(slots, q, v, base);
    hide Put, Nth;
  }

  lemma CodeMakes(s: State, i: nat, s': State)
    requires Inv(s) && Steps(s, Code(i), s') && i < |s.workers| && s.workers[i].Running? && |s.slots| > 0 && |s.sub| == s.fill && s.work <= s.fill
    ensures |s.mids| == |s.workers|
    ensures var q := s.workers[i].seqNo;
            && s.emit <= q < s.work && q >= |s.done| && At(s, q).rawLen <= |At(s, q).raw|
            && s' == s.(slots := Put(s.slots, q, At(s, q).(job := CompressJob(s.cfg, s.sub[q], s.mids[i]))),
                        mids := s.mids[i := Grown(s.cfg, s.mids[i], s.sub[q])], workers := s.workers[i := Finished(q)])
  {
    hide Window, WorkersOk, Covered, Alone, Sleepers, ProducerOk, InputOk, Output, Total, BlockSize, ValidConfig, Put,
         Nth, CompressJob, Grown, CanEmit, JobOf, Steps, Top;
    CodeIs(s, i, s');
    var q := BusyInWindow(s, i);
    if s.pc.Release? {
      EmittedSlot(s);
    }
  }

  lemma FinishIs(s: State, i: nat, s': State)
    requires Steps(s, Finish(i), s')
    ensures Formed(s) && i < |s.workers| && s.workers[i].Finished?
    ensures var q := s.workers[i].seqNo;
            s' == s.(slots := Put(s.slots, q, At(s, q).(st := Done)), workers := s.workers[i := Checking], pc := s'.pc)
  {
    hide Put, Nth, CanEmit;
  }

  lemma EmitIs(s: State, s': State)
    requires Steps(s, Emit(None), s')
    ensures Formed(s) && s.pc.Emitting?
    ensures s' == s.(pc := s'.pc, idx := s'.idx, done := s.done + [At(s, s.emit).job], sink := s'.sink, sticky := s'.sticky, hashed := s'.hashed, rawOffset := s'.rawOffset)
  {
    hide Nth, CanEmit, BlockBytes, CutAt, BlockLen;
    assert CanEmit(s) && s' == DoEmit(s, None);
  }

  lemma FreeIs(s: State, s': State)
    requires Steps(s, FreeSlot, s')
    ensures Formed(s) && s.pc.Release?
    ensures s' == s.(slots := Put(s.slots, s.emit, At(s, s.emit).(st := Free)), emit := s.emit + 1, workers := Roused(s.workers), pc := s'.pc)
  {
    hide Put, Nth, CanEmit, Roused;
  }

  lemma FinishStep(s: State, own: seq<nat>, i: nat, s': State)
    requires Inv(s) && Follows(s, own) && Steps(s, Finish(i), s')
    ensures Follows(s', own)
  {
    hide Inv, WorkersFollow, JobsFollow, Chunks, BlockSize, JobBy, JobAt, Put, Nth, Steps;
    FillIsSub(s);
    FinishIs(s, i, s');
    var q := BusyInWindow(s, i);
    var blocks := BlocksOf(s);
    FinishFollows(s.cfg, blocks, own, s.work, s.workers, s.mids, i);
    var v := At(s, q).(st := Done);
    forall p: nat {:trigger JobAt(s'.slots, s'.done, p)} | p < s.work && s'.workers[own[p]] != Running(p)
      ensures s.workers[own[p]] != Running(p) && JobAt(s'.slots, s'.done, p) == JobAt(s.slots, s.done, p)
    {
      JobsElsewhere(s.slots, s.done, s.emit, q, v, p);
    }
    JobsStay(s.cfg, blocks, own, s.work, s.slots, s.done, s.workers, s'.slots, s'.done, s'.workers);
  }

  lemma FillStep(s: State, own: seq<nat>, k: nat, s': State)
    requires Inv(s) && Follows(s, own) && Steps(s, Fill(k), s')
    ensures Follows(s', own)
  {
    hide Inv, WorkersFollow, JobsFollow, Chunks, BlockSize, JobBy, JobAt, Put, Nth, CanEmit;
    FillIsSub(s);
    OwnSlot(s, own, s', At(s', s.fill));
  }

  /** The producer writes its own slot. */
  lemma OwnSlot(s: State, own: seq<nat>, s': State, v: Slot)
    requires Inv(s) && Follows(s, own) && FillingPc(s.pc) && |s'.slots| > 0
    requires s'.cfg == s.cfg && s'.x == s.x && s'.workers == s.workers && s'.mids == s.mids && s'.work == s.work && s'.done == s.done
    requires exists w: Slot :: s'.slots == Put(s.slots, s.fill, w)
    requires s'.sub <= BlocksOf(s)
    ensures Follows(s', own)
  {
    hide Inv, WorkersFollow, JobsFollow, Chunks, BlockSize, JobBy, JobAt, Put, Nth;
    FillIsSub(s);
    var w: Slot :| s'.slots == Put(s.slots, s.fill, w);
    forall p: nat {:trigger JobAt(s'.slots, s'.done, p)} | p < s.work && s'.workers[own[p]] != Running(p)
      ensures s.workers[own[p]] != Running(p) && JobAt(s'.slots, s'.done, p) == JobAt(s.slots, s.done, p)
    {
      JobsElsewhere(s.slots, s.done, s.emit, s.fill, w, p);
    }
    JobsStay(s.cfg, BlocksOf(s), own, s.work, s.slots, s.done, s.workers, s'.slots, s'.done, s'.workers);
  }

  lemma SubmitStep(s: State, own: seq<nat>, w: Option<nat>, s': State)
    requires Inv(s) && Follows(s, own) && Steps(s, Submit(w), s')
    ensures Follows(s', own)
  {
    hide Inv, WorkersFollow, JobsFollow, Chunks, BlockSize, JobBy, JobAt, Put, Nth, CanEmit, AnyAsleep;
    StepKeeps(s, Submit(w), s');
    SubIsPrefix(s');
    NoneAsleep(s.cfg, BlocksOf(s), own, s.work, s.workers, s.mids);
    OwnSlot(s, own, s', At(s', s.fill));
  }

  lemma EmitStep(s: State, own: seq<nat>, s': State)
    requires Inv(s) && Follows(s, own) && Steps(s, Emit(None), s')
    ensures Follows(s', own)
  {
    hide Inv, WorkersFollow, JobsFollow, Chunks, BlockSize, JobBy, Nth, Steps;
    FillIsSub(s);
    EmitIs(s, s');
    forall p: nat {:trigger JobAt(s'.slots, s'.done, p)} | p < s.work && s'.workers[own[p]] != Running(p)
      ensures s.workers[own[p]] != Running(p) && JobAt(s'.slots, s'.done, p) == JobAt(s.slots, s.done, p)
    {
    }
    JobsStay(s.cfg, BlocksOf(s), own, s.work, s.slots, s.done, s.workers, s'.slots, s'.done, s'.workers);
  }

  lemma FreeStep(s: State, own: seq<nat>, s': State)
    requires Inv(s) && Follows(s, own) && Steps(s, FreeSlot, s')
    ensures Follows(s', own)
  {
    hide Inv, WorkersFollow, JobsFollow, Chunks, BlockSize, JobBy, JobAt, Put, Nth, Roused, Steps;
    FillIsSub(s);
    FreeIs(s, s');
    NoneAsleep(s.cfg, BlocksOf(s), own, s.work, s.workers, s.mids);
    forall p: nat {:trigger JobAt(s'.slots, s'.done, p)} | p < s.work && s'.workers[own[p]] != Running(p)
      ensures s.workers[own[p]] != Running(p) && JobAt(s'.slots, s'.done, p) == JobAt(s.slots, s.done, p)
    {
      JobsElsewhere(s.slots, s.done, s.emit, s.emit, At(s, s.emit).(st := Free), p);
    }
    JobsStay(s.cfg, BlocksOf(s), own, s.work, s.slots, s.done, s.workers, s'.slots, s'.done, s'.workers);
  }

  lemma QuietStep(s: State, own: seq<nat>, e: Event, s': State)
    requires Inv(s) && Follows(s, own) && Steps(s, e, s') && UnderWay(s)
    requires e.FinishCall? || e.TestFull? || e.TestMore? || e.TestDone? || e.Join?
    ensures Follows(s', own)
  {
    hide Inv, WorkersFollow, JobsFollow, Chunks, BlockSize, JobBy, JobAt, Put, Nth, CanEmit;
  }

  lemma KeptStep(s: State, own: seq<nat>, e: Event, s': State)
    requires Inv(s) && UnderWay(s) && Follows(s, own) && Steps(s, e, s') && Keeps(s, own, e)
    ensures Follows(s', own)
  {
    hide Inv, Follows, Steps, UnderWay;
    match e
    case Check(i) => CheckStep(s, own, i, s');
    case Code(i) => CodeStep(s, own, i, s');
    case Finish(i) => FinishStep(s, own, i, s');
    case Fill(k) => FillStep(s, own, k, s');
    case Submit(w) => SubmitStep(s, own, w, s');
    case Emit(_) => EmitStep(s, own, s');
    case FreeSlot => FreeStep(s, own, s');
    case _ => QuietStep(s, own, e, s');
  }

  // ----- whole runs

  ghost predicate Goes(run: seq<State>, events: seq<Event>) {
    |run| == |events| + 1 && forall i :: 0 <= i < |events| ==> Steps(run[i], events[i], run[i + 1])
  }

  lemma {:induction false} Scripted(s: State, own: seq<nat>) returns (run: seq<State>, events: seq<Event>)
    requires Inv(s) && !s.sticky && !OverPc(s.pc) && Follows(s, own)
    ensures Goes(run, events) && run[0] == s
    ensures var t := run[|events|]; t.pc == Drained && Inv(t) && Follows(t, own) && t.cfg == s.cfg && t.x == s.x && t.front == s.front
    decreases Ahead(s), Pending(s), Restless(s)
  {
    hide Inv, Steps, Ahead, Pending, Restless, Enabled, OverPc, Follows, Keeps;
    if s.pc == Drained {
      run, events := [s], [];
    } else {
      var e := NextEvent(s, own);
      var s' := EnabledSteps(s, e);
      KeepsOnward(s, own, e);
      OnwardStays(s, e, s');
      StepKeeps(s, e, s');
      EveryStepNearer(s, e, s');
      KeptStep(s, own, e, s');
      StepIsFixed(s, e, s');
      var rest, more := Scripted(s', own);
      run, events := [s] + rest, [e] + more;
      forall i | 0 <= i < |events|
        ensures Steps(run[i], events[i], run[i + 1])
      {
        if i > 0 {
          assert run[i] == rest[i - 1] && run[i + 1] == rest[i - 1 + 1] && events[i] == more[i - 1];
        }
      }
    }
  }

  lemma KeepsOnward(s: State, own: seq<nat>, e: Event)
    requires Keeps(s, own, e)
    ensures Onward(e)
  {}

  lemma FillIsFixed(s: State, e: Event, s': State)
    requires Steps(s, e, s') && (e.Fill? || e.FinishCall? || e.Submit? || e.TestFull? || e.TestMore? || e.TestDone?)
    ensures s'.cfg == s.cfg && s'.x == s.x && s'.front == s.front && |s'.workers| == |s.workers|
  {
    hide At, Put, BlockCap, AnyAsleep;
  }

  lemma EmitIsFixed(s: State, e: Event, s': State)
    requires Steps(s, e, s') && (e.Emit? || e.FreeSlot? || e.Quit? || e.Join? || e.WakeProducer?)
    ensures s'.cfg == s.cfg && s'.x == s.x && s'.front == s.front && |s'.workers| == |s.workers|
  {
    hide At, Put, CanEmit, CutAt, BlockBytes, BlockLen, AllExited;
  }

  lemma WorkIsFixed(s: State, e: Event, s': State)
    requires Steps(s, e, s') && (e.Check? || e.Code? || e.Finish? || e.Wake?)
    ensures s'.cfg == s.cfg && s'.x == s.x && s'.front == s.front && |s'.workers| == |s.workers|
  {
    hide At, Put, CompressJob, Grown;
  }

  /** Options, input and number of workers stay. */
  lemma StepIsFixed(s: State, e: Event, s': State)
    requires Steps(s, e, s')
    ensures s'.cfg == s.cfg && s'.x == s.x && s'.front == s.front && |s'.workers| == |s.workers|
  {
    hide Steps;
    if e.Emit? || e.FreeSlot? || e.Quit? || e.Join? || e.WakeProducer? {
      EmitIsFixed(s, e, s');
    } else if e.Check? || e.Code? || e.Finish? || e.Wake? {
      WorkIsFixed(s, e, s');
    } else {
      FillIsFixed(s, e, s');
    }
  }

  /** A drained run that kept to the assignment has its jobs. */
  lemma DrainedFollows(s: State, own: seq<nat>)
    requires Inv(s) && s.pc == Drained && Follows(s, own)
    ensures s.sub == BlocksOf(s) && |s.done| == |s.sub| == |own|
    ensures forall q :: 0 <= q < |s.done| ==> s.done[q] == JobBy(s.cfg, s.sub, own, q)
  {
    hide Inv, Chunks, BlockSize, JobBy;
    DrainedCounts(s);
    forall q: nat | q < |s.done|
      ensures s.done[q] == JobBy(s.cfg, s.sub, own, q)
    {
      if s.workers[own[q]] == Running(q) {
        var p := BusyInWindow(s, own[q]);
        assert false;
      }
      assert JobAt(s.slots, s.done, q) == s.done[q];
    }
  }

  lemma DrainedCounts(s: State)
    requires Inv(s) && s.pc == Drained
    ensures s.emit == s.work == s.fill == |s.sub| == |s.done| && s.sub == BlocksOf(s)
  {
    hide Window, WorkersOk, Covered, Alone, Sleepers, Output, ValidConfig, MidsOk, Nth, AllSized, Total, Chunks,
         BlockSize, FillingOk;
  }

  /** For every assignment of blocks to `n` workers there is a run that drains the ring with its jobs. */
  lemma EveryAssignmentRuns(cfg: Config, x: seq<byte>, front: seq<byte>, n: nat, own: seq<nat>)
    returns (run: seq<State>, events: seq<Event>)
    requires ValidConfig(cfg) && |x| < U64_LIMIT && n > 0 && Assigns(own, Chunks(x, BlockSize(cfg)), n)
    ensures IsRun(run, events)
    ensures var s := run[|events|];
            && s.cfg == cfg && s.x == x && s.front == front && s.pc == Drained && |run[0].workers| == n
            && s.sub == Chunks(x, BlockSize(cfg)) && |s.done| == |own| == |s.sub|
            && forall q :: 0 <= q < |own| ==> s.done[q] == JobBy(cfg, s.sub, own, q)
  {
    var s0 := Fresh(cfg, x, front, n);
    FreshIsInitial(cfg, x, front, n);
    InitialHolds(s0);
    FreshFollows(cfg, x, front, n, own);
    hide Inv, Follows, Initial, Chunks, BlockSize, JobBy, Steps;
    run, events := Scripted(s0, own);
    DrainedFollows(run[|events|], own);
  }

  function Fresh(cfg: Config, x: seq<byte>, front: seq<byte>, n: nat): State {
    State(cfg, x, x, 0, seq(2 * n, _ => Slot([], 0, Job(false, []), Free)), 0, 0, 0, false, Filling,
          seq(n, _ => Checking), seq(n, _ => 0), front, front, [], 0, [], false, [], [])
  }

  lemma FreshIsInitial(cfg: Config, x: seq<byte>, front: seq<byte>, n: nat)
    requires ValidConfig(cfg) && |x| < U64_LIMIT && n > 0
    ensures Initial(Fresh(cfg, x, front, n))
  {
    hide ValidConfig;
  }

  lemma FreshFollows(cfg: Config, x: seq<byte>, front: seq<byte>, n: nat, own: seq<nat>)
    requires n > 0 && Assigns(own, Chunks(x, BlockSize(cfg)), n)
    ensures var s := Fresh(cfg, x, front, n); Follows(s, own) && !s.sticky && !OverPc(s.pc)
  {
    hide Chunks, BlockSize, JobBy;
  }
}
