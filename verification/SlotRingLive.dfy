/** Progress of the slot ring: no lost wake-up, no deadlock, and every run comes to an end. */
module SlotRingLive {
  import opened Bytes
  import opened Format
  import opened Codec
  import opened Container
  import opened ContainerProof
  import opened FileSpec
  import opened SlotRing
  import opened SlotRingSafe
  import opened SlotRingProps

  /** Something other than a spurious wake-up can happen. */
  ghost predicate CanMove(s: State) {
    exists e: Event, s': State :: !Spurious(e) && Steps(s, e, s')
  }

  lemma EmitStep(s: State, cut: Option<nat>) returns (s': State)
    requires Inv(s) && Enabled(s, Emit(cut))
    ensures Steps(s, Emit(cut), s')
  {
    hide Inv, CanEmit, DoEmit, Output, BlockLen, At;
    InvIsFormed(s);
    OutputGrows(s, cut);
    s' := DoEmit(s, cut);
  }

  lemma CodeStep(s: State, i: nat) returns (s': State)
    requires Inv(s) && Enabled(s, Code(i))
    ensures Steps(s, Code(i), s')
  {
    hide Inv, DoCompress;
    InvIsFormed(s);
    var q := BusyInWindow(s, i);
    s' := DoCompress(s, i);
  }

  lemma InvIsFormed(s: State)
    requires Inv(s)
    ensures Formed(s)
  {
    hide MidsOk, Window, WorkersOk, Covered, Output, InputOk, ProducerOk, Sleepers;
  }

  /** An enabled event of a reachable state takes place: nothing is read outside what was written. */
  lemma EnabledSteps(s: State, e: Event) returns (s': State)
    requires Inv(s) && Enabled(s, e)
    ensures Steps(s, e, s')
  {
    hide Inv, Steps;
    InvIsFormed(s);
    match e
    case Emit(cut) => s' := EmitStep(s, cut);
    case Code(i) => s' := CodeStep(s, i);
    case _ => s' := OtherStep(s, e);
  }

  lemma OtherStep(s: State, e: Event) returns (s': State)
    requires Formed(s) && Enabled(s, e) && !e.Emit? && !e.Code?
    ensures Steps(s, e, s')
  {
    hide DoFill, DoFinishCall, DoSubmit, DoTestFull, DoTestMore, DoTestDone, DoFree, DoQuit, DoCheck, DoFinish;
    match e
    case Fill(k) => s' := DoFill(s, k);
    case FinishCall => s' := DoFinishCall(s);
    case Submit(w) => s' := DoSubmit(s, w);
    case TestFull => s' := DoTestFull(s);
    case TestMore => s' := DoTestMore(s);
    case TestDone => s' := DoTestDone(s);
    case FreeSlot => s' := DoFree(s);
    case Quit => s' := DoQuit(s);
    case Join => s' := s.(pc := Joined);
    case Check(i) => s' := DoCheck(s, i);
    case Finish(i) => s' := DoFinish(s, i);
    case Wake(i) => s' := s.(workers := s.workers[i := Checking]);
    case WakeProducer => s' := s.(pc := EmitCheck(s.pc.from, s.pc.draining));
  }

  lemma Moves(s: State, e: Event)
    requires Inv(s) && Enabled(s, e) && !Spurious(e)
    ensures CanMove(s)
  {
    hide Inv, Enabled, Steps;
    var s' := EnabledSteps(s, e);
  }

  /** An event that neither wakes anyone for nothing, nor gives up, nor fails. */
  predicate Onward(e: Event) {
    !Spurious(e) && !e.Quit? && (e.Emit? ==> e.cut == None)
  }

  /** Input, submission and emission have not come to their end, and the sink has not failed. */
  predicate UnderWay(s: State) {
    !s.sticky && s.pc != Drained && !OverPc(s.pc)
  }

  lemma ProducerGoesOn(s: State) returns (e: Event)
    requires Inv(s) && UnderWay(s) && !s.pc.AwaitDone?
    ensures Enabled(s, e) && Onward(e) && !e.Check?
  {
    hide Window, WorkersOk, Covered, Alone, Sleepers, Output, ValidConfig, BlockSize, Nth, Total, AllFull, AllSized,
         Chunks, Partial, BlockLen, MidsOk;
    match s.pc
    case Filling =>
      e := if s.inp == [] then FinishCall else Fill(Min(|s.inp|, BlockCap(s) - s.rawLen));
    case Publish(_) =>
      if AnyAsleep(s.workers) {
        var i :| 0 <= i < |s.workers| && s.workers[i] == Asleep;
        e := Submit(Some(i));
      } else {
        e := Submit(None);
      }
    case CheckFull(_) => e := TestFull;
    case DrainCheck => e := TestMore;
    case EmitCheck(_, _) => e := TestDone;
    case Emitting(_, _) => e := Emit(None);
    case Release(_, _) => e := FreeSlot;
  }

  lemma WorkerGoesOnward(s: State, i: nat) returns (e: Event)
    requires Inv(s) && i < |s.workers| && s.workers[i] != Asleep && s.workers[i] != Exited
    ensures Enabled(s, e) && Onward(e) && (e.Check? ==> s.workers[i] == Checking && e.i == i)
  {
    hide Window, WorkersOk, Covered, Alone, Sleepers, ProducerOk, InputOk, Output, ValidConfig, MidsOk;
    match s.workers[i]
    case Checking => e := Check(i);
    case Running(_) => e := Code(i);
    case Finished(_) => e := Finish(i);
  }

  lemma AwakeCanMove(s: State, i: nat)
    requires Inv(s) && i < |s.workers| && s.workers[i] != Asleep && s.workers[i] != Exited
    ensures CanMove(s)
  {
    hide Inv, CanMove, Enabled;
    var e := WorkerGoesOnward(s, i);
    Moves(s, e);
  }

  /** While the producer waits for its slot, a worker is on that slot or awake to take it. */
  lemma AwaitedComes(s: State) returns (e: Event)
    requires Inv(s) && s.pc.AwaitDone?
    ensures Enabled(s, e) && Onward(e)
  {
    hide JobOf, InputOk, Output, ValidConfig, Nth, WorkersOk, Alone, MidsOk, Enabled;
    if s.emit < s.work {
      assert Holds(s.cfg, Nth(s.slots, s.emit), s.sub[s.emit], s.emit, s.emit < s.work);
      assert SomeoneOn(s.workers, s.emit);
      var i :| 0 <= i < |s.workers| && BusyOn(s.workers[i], s.emit);
      e := WorkerGoesOnward(s, i);
    } else {
      var i :| 0 <= i < |s.workers| && s.workers[i] != Asleep;
      assert !AnyExited(s.workers);
      e := WorkerGoesOnward(s, i);
    }
  }

  /** As long as the sink has not failed, input and output go on until the ring is drained. */
  lemma GoesOn(s: State) returns (e: Event)
    requires Inv(s) && UnderWay(s)
    ensures Enabled(s, e) && Onward(e)
  {
    hide Inv, Enabled, Onward, UnderWay;
    if s.pc.AwaitDone? {
      e := AwaitedComes(s);
    } else {
      e := ProducerGoesOn(s);
    }
  }

  lemma JoinComes(s: State)
    requires Inv(s) && s.pc == Joining
    ensures CanMove(s)
  {
    hide JobOf, InputOk, Output, ValidConfig, Nth, WorkersOk, Alone, Window, Covered, ProducerOk, CanMove;
    if AllExited(s.workers) {
      Moves(s, Join);
    } else {
      var i :| 0 <= i < |s.workers| && s.workers[i] != Exited;
      AwakeCanMove(s, i);
    }
  }

  /** No deadlock: until the threads are joined, something other than a spurious wake-up can happen in
      every reachable state. */
  lemma NoDeadlock(s: State)
    requires Inv(s) && s.pc != Joined
    ensures CanMove(s)
  {
    hide CanMove, Enabled;
    if s.pc == Joining {
      hide Inv;
      JoinComes(s);
    } else if s.pc == Drained || s.pc == Failed || s.pc.Release? {
      hide Inv;
      var e := MayQuit(s);
      Moves(s, e);
    } else {
      if s.sticky {
        StickyIsOver(s);
      }
      hide Inv;
      var e := GoesOn(s);
      Moves(s, e);
    }
  }

  lemma MayQuit(s: State) returns (e: Event)
    requires Inv(s) && (s.pc == Drained || s.pc == Failed || s.pc.Release?)
    ensures Enabled(s, e) && !Spurious(e)
  {
    hide Window, WorkersOk, Covered, Alone, Sleepers, ProducerOk, InputOk, Output, ValidConfig, MidsOk;
    e := if s.pc.Release? then FreeSlot else Quit;
  }

  lemma StickyIsOver(s: State)
    requires Inv(s) && s.sticky
    ensures s.pc.Release? || OverPc(s.pc)
  {
    hide Window, WorkersOk, Covered, Alone, Sleepers, InputOk, Output, ValidConfig, Nth, MidsOk;
  }

  // ----- every run ends

  function Phase(pc: Producer): nat {
    match pc
    case Filling => 5
    case Publish(c) => if c == Writing then 5 else 4
    case CheckFull(c) => if c == Writing then 5 else 4
    case DrainCheck => 4
    case EmitCheck(c, _) => if c == Writing then 5 else 4
    case AwaitDone(c, _) => if c == Writing then 5 else 4
    case Emitting(c, _) => if c == Writing then 5 else 4
    case Release(c, _) => if c == Writing then 5 else 4
    case Drained => 3
    case Failed => 2
    case Joining => 1
    case Joined => 0
  }

  /** Input not yet submitted, and how far the call sequence has come. */
  function Ahead(s: State): nat {
    2 * |s.inp| + s.rawLen + Phase(s.pc)
  }

  function Stage(w: Worker): nat {
    if w.Running? then 2 else if w.Finished? then 1 else 0
  }

  function Stages(ws: seq<Worker>): nat {
    if ws == [] then 0 else Stage(ws[0]) + Stages(ws[1..])
  }

  function Part(pc: Producer): nat {
    if pc.Release? then 0 else if pc.Emitting? then 1 else 2
  }

  /** Slots on their way round the ring. */
  function Pending(s: State): int {
    3 * (s.fill - s.work) + Stages(s.workers) + 3 * (s.fill - s.emit) + Part(s.pc)
  }

  function Alert(w: Worker): nat { if w == Checking then 1 else 0 }

  function Alerts(ws: seq<Worker>): nat {
    if ws == [] then 0 else Alert(ws[0]) + Alerts(ws[1..])
  }

  function Glances(pc: Producer): nat {
    if pc.CheckFull? then 4 else if pc == DrainCheck then 3 else if pc.EmitCheck? then 2 else if pc.AwaitDone? then 1 else 0
  }

  /** Looking around before going to sleep. */
  function Restless(s: State): nat {
    Alerts(s.workers) + Glances(s.pc)
  }

  /** The lexicographic order on (Ahead, Pending, Restless). */
  predicate Nearer(s': State, s: State) {
    || Ahead(s') < Ahead(s)
    || (Ahead(s') == Ahead(s) && 0 <= Pending(s') < Pending(s))
    || (Ahead(s') == Ahead(s) && Pending(s') == Pending(s) && Restless(s') < Restless(s))
  }

  lemma {:induction false} StagesUpdate(ws: seq<Worker>, i: nat, w: Worker)
    requires i < |ws|
    ensures Stages(ws[i := w]) == Stages(ws) - Stage(ws[i]) + Stage(w)
    ensures Alerts(ws[i := w]) == Alerts(ws) - Alert(ws[i]) + Alert(w)
    decreases |ws|
  {
    var ws' := ws[i := w];
    if i == 0 {
      assert ws'[1..] == ws[1..];
    } else {
      StagesUpdate(ws[1..], i - 1, w);
      assert ws'[1..] == ws[1..][i - 1 := w];
    }
  }

  lemma {:induction false} StagesRoused(ws: seq<Worker>)
    ensures Stages(Roused(ws)) == Stages(ws)
  {
    if ws != [] {
      StagesRoused(ws[1..]);
      assert Roused(ws)[1..] == Roused(ws[1..]);
    }
  }

  lemma CheckMovesNearer(s: State, e: Event, s': State)
    requires Inv(s) && Steps(s, e, s') && e.Check?
    ensures Nearer(s', s)
  {
    hide Window, WorkersOk, Covered, Alone, Sleepers, Output, ValidConfig, BlockSize, Nth, Put, InputOk, ProducerOk,
         CanEmit, MidsOk, Stages, Alerts, DoCompress, DoFinish, DoFill, DoFinishCall, DoSubmit, DoTestFull,
         DoTestMore, DoTestDone, DoEmit, DoFree, DoQuit, CompressJob, Grown;
    var i := e.i;
    StagesUpdate(s.workers, i, s'.workers[i]);
  }

  lemma WorkerMovesNearer(s: State, e: Event, s': State)
    requires Inv(s) && Steps(s, e, s') && (e.Code? || e.Finish?)
    ensures Nearer(s', s)
  {
    hide Window, WorkersOk, Covered, Alone, Sleepers, Output, ValidConfig, BlockSize, Nth, Put, InputOk, ProducerOk,
         CanEmit, MidsOk, Stages, Alerts, DoCheck, DoFill, DoFinishCall, DoSubmit, DoTestFull, DoTestMore, DoTestDone,
         DoEmit, DoFree, DoQuit, CompressJob, Grown;
    var i := e.i;
    StagesUpdate(s.workers, i, s'.workers[i]);
  }

  lemma ProducerMovesNearer(s: State, e: Event, s': State)
    requires Inv(s) && Steps(s, e, s') && (e.TestFull? || e.TestMore? || e.TestDone? || e.FinishCall? || e.Join?)
    ensures Nearer(s', s)
  {
    hide Window, WorkersOk, Covered, Alone, Sleepers, Output, ValidConfig, BlockSize, Nth, Put, FillingOk, CanEmit,
         MidsOk, Stages, Alerts, CutAt, BlockBytes, BlockLen, Total, Chunks, AllSized, AllFull, DoFill, DoEmit,
         DoSubmit, DoFree, DoQuit, DoCheck, DoCompress, DoFinish;
  }

  lemma BytesMoveNearer(s: State, e: Event, s': State)
    requires Inv(s) && Steps(s, e, s') && (e.Emit? || e.Fill?)
    ensures Nearer(s', s)
  {
    hide Window, WorkersOk, Covered, Alone, Sleepers, Output, ValidConfig, BlockSize, Nth, Put, FillingOk, CanEmit,
         MidsOk, Stages, Alerts, CutAt, BlockBytes, BlockLen, Total, Chunks, AllSized, AllFull, DoFinishCall,
         DoTestFull, DoTestMore, DoTestDone, DoSubmit, DoFree, DoQuit, DoCheck, DoCompress, DoFinish;
  }

  lemma SubmitMovesNearer(s: State, e: Event, s': State)
    requires Inv(s) && Steps(s, e, s') && (e.Submit? || e.Quit? || e.FreeSlot?)
    ensures Nearer(s', s)
  {
    hide Window, WorkersOk, Covered, Alone, Sleepers, Output, ValidConfig, BlockSize, Nth, Put, CanEmit, MidsOk,
         Stages, Alerts, Total, Chunks, AllSized, AllFull, Roused, DoFill, DoFinishCall, DoTestFull, DoTestMore,
         DoTestDone, DoEmit, DoCheck, DoCompress, DoFinish;
    StagesRoused(s.workers);
  }

  /** Every event except a spurious wake-up brings the end nearer: submitting, encoding, emitting and
      joining all complete, however the scheduler behaves. */
  lemma EveryStepNearer(s: State, e: Event, s': State)
    requires Inv(s) && Steps(s, e, s') && !Spurious(e)
    ensures Nearer(s', s)
  {
    hide Inv, Steps, Nearer;
    match e
    case Check(_) => CheckMovesNearer(s, e, s');
    case Code(_) => WorkerMovesNearer(s, e, s');
    case Finish(_) => WorkerMovesNearer(s, e, s');
    case Submit(_) => SubmitMovesNearer(s, e, s');
    case Quit => SubmitMovesNearer(s, e, s');
    case FreeSlot => SubmitMovesNearer(s, e, s');
    case Emit(_) => BytesMoveNearer(s, e, s');
    case Fill(_) => BytesMoveNearer(s, e, s');
    case _ => ProducerMovesNearer(s, e, s');
  }

  ghost predicate Trace(run: seq<State>) {
    && |run| > 0 && forall i :: 0 <= i < |run| - 1 ==> StepsTo(run[i], run[i + 1])
  }

  ghost predicate StepsTo(s: State, s': State) {
    exists e: Event :: Steps(s, e, s')
  }

  /** From every reachable state there is a way on to the threads being joined. */
  lemma {:induction false} ComesToAnEnd(s: State) returns (run: seq<State>)
    requires Inv(s)
    ensures Trace(run) && run[0] == s && run[|run| - 1].pc == Joined
    decreases Ahead(s), Pending(s), Restless(s)
  {
    hide Inv, Steps, Ahead, Pending, Restless;
    if s.pc == Joined {
      run := [s];
    } else {
      NoDeadlock(s);
      var e: Event, s': State :| !Spurious(e) && Steps(s, e, s');
      StepKeeps(s, e, s');
      EveryStepNearer(s, e, s');
      var rest := ComesToAnEnd(s');
      run := [s] + rest;
      assert StepsTo(s, s');
    }
  }

  lemma OnwardStays(s: State, e: Event, s': State)
    requires Inv(s) && UnderWay(s) && Onward(e) && Steps(s, e, s')
    ensures !s'.sticky && !OverPc(s'.pc)
  {
    hide Inv, CanEmit, Nth, Put, CutAt, Grown, BlockCap, BlockLen, CompressJob, BlockBytes, At, DoQuit;
  }

  /** From every reachable state in which the sink has not failed and nobody has given up, there is a way
      on that takes in the whole input and drains the ring. */
  lemma {:induction false} ComesToDrained(s: State) returns (run: seq<State>)
    requires Inv(s) && !s.sticky && !OverPc(s.pc)
    ensures Trace(run) && run[0] == s && run[|run| - 1].pc == Drained && Inv(run[|run| - 1])
    decreases Ahead(s), Pending(s), Restless(s)
  {
    hide Inv, Steps, Ahead, Pending, Restless, Enabled, OverPc;
    if s.pc == Drained {
      run := [s];
    } else {
      var e := GoesOn(s);
      var s' := EnabledSteps(s, e);
      OnwardStays(s, e, s');
      StepKeeps(s, e, s');
      EveryStepNearer(s, e, s');
      var rest := ComesToDrained(s');
      run := [s] + rest;
      assert StepsTo(s, s');
    }
  }

  lemma NobodyOn(ws: seq<Worker>, q: nat)
    requires AllExited(ws)
    ensures !SomeoneOn(ws, q)
  {}

  /** After quit the workers finish every submitted job before they exit. */
  lemma QuitDrains(s: State)
    requires Inv(s) && s.pc == Joined
    ensures s.work == s.fill && AllExited(s.workers)
    ensures forall q: nat {:trigger At(s, q)} :: s.emit <= q < s.fill ==> At(s, q).st == Done && JobOf(s.cfg, s.sub[q], q, At(s, q).job)
  {
    hide JobOf, InputOk, Output, ValidConfig, Nth, WorkersOk, Alone, ProducerOk;
    assert s.workers[0] == Exited;
    assert s.work == s.fill;
    forall q: nat {:trigger At(s, q)} | s.emit <= q < s.fill
      ensures At(s, q).st == Done && JobOf(s.cfg, s.sub[q], q, At(s, q).job)
    {
      assert Holds(s.cfg, Nth(s.slots, q), s.sub[q], q, q < s.work);
      NobodyOn(s.workers, q);
    }
  }
}
