/** Block copies by many threads at once: the shared cache under its mutex, the decode slots under
    theirs. One event is one region under a mutex, or a decode between two of them
    (src/core/xq_reader.c:445-524). */
module ReaderMt {
  import opened Bytes
  import opened ReaderSpec
  import opened Lru
  import opened Reader

  datatype Slot = Slot(busy: bool, raw: seq<byte>)

  datatype Thread =
    | Idle
    | Acquiring(bi: nat)
    | Asleep(bi: nat)
    | Decoding(bi: nat, sl: nat)
    | Inserting(bi: nat, sl: nat)
    | Releasing(sl: nat, ok: bool)

  datatype State = State(v: View, cache: seq<CacheEntry>, clock: nat, hits: nat, misses: nat,
                         slots: seq<Slot>, threads: seq<Thread>, returned: nat)

  datatype Event =
    | Hit(t: nat, bi: nat, i: nat)
    | Miss(t: nat, bi: nat)
    | Acquire(t: nat, sl: nat)
    | Sleep(t: nat)
    | Decode(t: nat)
    | Insert(t: nat, victim: nat)
    | Release(t: nat, wakes: Option<nat>)
    | Wake(t: nat)

  predicate AllBusy(slots: seq<Slot>) {
    forall i :: 0 <= i < |slots| ==> slots[i].busy
  }

  predicate AnyAsleep(ts: seq<Thread>) {
    exists t :: 0 <= t < |ts| && ts[t].Asleep?
  }

  ghost predicate Enabled(s: State, e: Event) {
    && Formed(s.v) && e.t < |s.threads|
    && var th := s.threads[e.t];
       match e
       case Hit(_, bi, i) => th == Idle && bi < s.v.blockCount && i < |s.cache| && s.cache[i].block == bi
       case Miss(_, bi) => th == Idle && bi < s.v.blockCount && Absent(s.cache, bi)
       case Acquire(_, sl) => th.Acquiring? && sl < |s.slots| && !s.slots[sl].busy
       case Sleep(_) => th.Acquiring? && AllBusy(s.slots)
       case Decode(_) => th.Decoding? && th.bi < s.v.blockCount && th.sl < |s.slots|
       case Insert(_, victim) => th.Inserting? && th.sl < |s.slots| && Oldest(s.cache, victim)
       case Release(_, w) =>
         th.Releasing? && th.sl < |s.slots|
         && if AnyAsleep(s.threads) then w.Some? && w.value < |s.threads| && s.threads[w.value].Asleep? else w == None
       case Wake(_) => th.Asleep?
  }

  function Woken(ts: seq<Thread>, w: Option<nat>): (r: seq<Thread>)
    ensures |r| == |ts|
  {
    if w.Some? && w.value < |ts| && ts[w.value].Asleep? then ts[w.value := Acquiring(ts[w.value].bi)] else ts
  }

  ghost function Step(s: State, e: Event): State
    requires Enabled(s, e)
  {
    var t := e.t;
    var th := s.threads[t];
    match e
    case Hit(_, _, i) =>
      s.(cache := Restamped(s.cache, i, s.clock + 1), clock := s.clock + 1, hits := s.hits + 1, returned := s.returned + 1)
    case Miss(_, bi) => s.(threads := s.threads[t := Acquiring(bi)])
    case Acquire(_, sl) => s.(slots := s.slots[sl := s.slots[sl].(busy := true)], threads := s.threads[t := Decoding(th.bi, sl)])
    case Sleep(_) => s.(threads := s.threads[t := Asleep(th.bi)])
    case Decode(_) =>
      (match DecodeSlot(s.v, th.bi)
       case Failure(_) => s.(threads := s.threads[t := Releasing(th.sl, false)])
       case Success(data) => s.(slots := s.slots[th.sl := s.slots[th.sl].(raw := data)], threads := s.threads[t := Inserting(th.bi, th.sl)]))
    case Insert(_, victim) =>
      s.(cache := Replaced(s.cache, victim, th.bi, s.clock + 1, s.slots[th.sl].raw), clock := s.clock + 1, misses := s.misses + 1,
         threads := s.threads[t := Releasing(th.sl, true)])
    case Release(_, w) =>
      s.(slots := s.slots[th.sl := s.slots[th.sl].(busy := false)], threads := Woken(s.threads[t := Idle], w),
         returned := s.returned + if th.ok then 1 else 0)
    case Wake(_) => s.(threads := s.threads[t := Acquiring(th.bi)])
  }

  /** What `block_copy` hands to its caller in an event, of which block. */
  ghost function Handed(s: State, e: Event, within: nat, take: nat): Option<(nat, seq<byte>)>
    requires Enabled(s, e)
  {
    if e.Hit? then Some((e.bi, Part(s.cache[e.i].data, within, take)))
    else if e.Insert? then Some((s.threads[e.t].bi, Part(s.slots[s.threads[e.t].sl].raw, within, take)))
    else None
  }

  // ----- the invariant

  predicate Owns(th: Thread, sl: nat) {
    (th.Decoding? || th.Inserting? || th.Releasing?) && th.sl == sl
  }

  predicate SomeoneOwns(ts: seq<Thread>, sl: nat) {
    exists t :: 0 <= t < |ts| && Owns(ts[t], sl)
  }

  /** A slot is busy exactly when a thread owns it, and then only one does. */
  ghost predicate Owned(slots: seq<Slot>, ts: seq<Thread>) {
    && (forall t, sl: nat {:trigger Owns(ts[t], sl)} :: 0 <= t < |ts| && Owns(ts[t], sl) ==> sl < |slots| && slots[sl].busy)
    && (forall t, u, sl: nat {:trigger Owns(ts[t], sl), Owns(ts[u], sl)} :: 0 <= t < |ts| && 0 <= u < |ts| && Owns(ts[t], sl) && Owns(ts[u], sl) ==> t == u)
    && (forall sl: nat {:trigger SomeoneOwns(ts, sl)} :: sl < |slots| && slots[sl].busy ==> SomeoneOwns(ts, sl))
  }

  ghost predicate ThreadOk(v: View, slots: seq<Slot>, th: Thread)
    requires Formed(v)
  {
    && (th.Acquiring? || th.Asleep? || th.Decoding? || th.Inserting? ==> th.bi < v.blockCount)
    && (th.Inserting? ==> th.sl < |slots| && DecodeSlot(v, th.bi) == Success(slots[th.sl].raw))
  }

  ghost predicate ThreadsOk(v: View, slots: seq<Slot>, ts: seq<Thread>)
    requires Formed(v)
  {
    forall t :: 0 <= t < |ts| ==> ThreadOk(v, slots, ts[t])
  }

  function FreeCount(slots: seq<Slot>): nat {
    if slots == [] then 0 else (if slots[0].busy then 0 else 1) + FreeCount(slots[1..])
  }

  function AcquiringCount(ts: seq<Thread>): nat {
    if ts == [] then 0 else (if ts[0].Acquiring? then 1 else 0) + AcquiringCount(ts[1..])
  }

  function ServedCount(ts: seq<Thread>): nat {
    if ts == [] then 0 else (if ts[0].Releasing? && ts[0].ok then 1 else 0) + ServedCount(ts[1..])
  }

  ghost predicate Inv(s: State) {
    && Formed(s.v) && |s.cache| > 0 && |s.slots| > 0
    && Coherent(s.v, s.cache)
    && Owned(s.slots, s.threads) && ThreadsOk(s.v, s.slots, s.threads)
    && s.hits + s.misses == s.returned + ServedCount(s.threads)
    && (AnyAsleep(s.threads) ==> FreeCount(s.slots) <= AcquiringCount(s.threads))
  }

  predicate Initial(s: State) {
    && Formed(s.v) && |s.cache| > 0 && |s.slots| > 0
    && (forall i :: 0 <= i < |s.cache| ==> s.cache[i] == EMPTY_ENTRY)
    && (forall i :: 0 <= i < |s.slots| ==> !s.slots[i].busy)
    && (forall t :: 0 <= t < |s.threads| ==> s.threads[t] == Idle)
    && s.clock == 0 && s.hits == 0 && s.misses == 0 && s.returned == 0
  }

  // ----- counting

  lemma {:induction false} CountsUpdate(ts: seq<Thread>, t: nat, th: Thread)
    requires t < |ts|
    ensures AcquiringCount(ts[t := th]) == AcquiringCount(ts) - (if ts[t].Acquiring? then 1 else 0) + (if th.Acquiring? then 1 else 0)
    ensures ServedCount(ts[t := th]) == ServedCount(ts) - (if ts[t].Releasing? && ts[t].ok then 1 else 0) + (if th.Releasing? && th.ok then 1 else 0)
    decreases |ts|
  {
    var ts' := ts[t := th];
    if t == 0 {
      assert ts'[1..] == ts[1..];
    } else {
      CountsUpdate(ts[1..], t - 1, th);
      assert ts'[1..] == ts[1..][t - 1 := th];
    }
  }

  lemma {:induction false} FreeUpdate(slots: seq<Slot>, i: nat, v: Slot)
    requires i < |slots|
    ensures FreeCount(slots[i := v]) == FreeCount(slots) - (if slots[i].busy then 0 else 1) + (if v.busy then 0 else 1)
    decreases |slots|
  {
    var slots' := slots[i := v];
    if i == 0 {
      assert slots'[1..] == slots[1..];
    } else {
      FreeUpdate(slots[1..], i - 1, v);
      assert slots'[1..] == slots[1..][i - 1 := v];
    }
  }

  lemma {:induction false} NoneFree(slots: seq<Slot>)
    requires AllBusy(slots)
    ensures FreeCount(slots) == 0
  {
    if slots != [] {
      NoneFree(slots[1..]);
    }
  }

  lemma {:induction false} SomeFree(slots: seq<Slot>)
    requires !AllBusy(slots)
    ensures FreeCount(slots) > 0
  {
    if slots[0].busy {
      SomeFree(slots[1..]);
    }
  }

  lemma {:induction false} SomeAcquiring(ts: seq<Thread>) returns (t: nat)
    requires AcquiringCount(ts) > 0
    ensures t < |ts| && ts[t].Acquiring?
  {
    if ts[0].Acquiring? {
      t := 0;
    } else {
      t := SomeAcquiring(ts[1..]);
      t := t + 1;
    }
  }

  lemma {:induction false} NoneServed(ts: seq<Thread>)
    requires forall t :: 0 <= t < |ts| ==> ts[t] == Idle
    ensures ServedCount(ts) == 0
  {
    if ts != [] {
      NoneServed(ts[1..]);
    }
  }

  // ----- ownership

  lemma OwnershipKept(slots: seq<Slot>, slots': seq<Slot>, ts: seq<Thread>, t: nat, th: Thread)
    requires t < |ts| && Owned(slots, ts) && |slots'| == |slots|
    requires forall sl: nat {:trigger Owns(th, sl)} :: Owns(th, sl) <==> Owns(ts[t], sl)
    requires forall sl {:trigger slots'[sl]} :: 0 <= sl < |slots| ==> slots'[sl].busy == slots[sl].busy
    ensures Owned(slots', ts[t := th])
  {
    var ts' := ts[t := th];
    forall u | 0 <= u < |ts|
      ensures forall sl: nat {:trigger Owns(ts'[u], sl)} :: Owns(ts'[u], sl) <==> Owns(ts[u], sl)
    {}
    forall sl: nat {:trigger SomeoneOwns(ts', sl)} | sl < |slots'| && slots'[sl].busy
      ensures SomeoneOwns(ts', sl)
    {
      assert SomeoneOwns(ts, sl);
      var u :| 0 <= u < |ts| && Owns(ts[u], sl);
      assert Owns(ts'[u], sl);
    }
  }

  lemma OwnershipTaken(slots: seq<Slot>, ts: seq<Thread>, t: nat, th: Thread, sl: nat)
    requires t < |ts| && sl < |slots| && Owned(slots, ts) && !slots[sl].busy && ts[t].Acquiring? && th.Decoding? && th.sl == sl
    ensures Owned(slots[sl := slots[sl].(busy := true)], ts[t := th])
  {
    var ts' := ts[t := th];
    var slots' := slots[sl := slots[sl].(busy := true)];
    assert Owns(ts'[t], sl);
    forall p: nat {:trigger SomeoneOwns(ts', p)} | p < |slots'| && slots'[p].busy
      ensures SomeoneOwns(ts', p)
    {
      if p != sl {
        assert SomeoneOwns(ts, p);
        var u :| 0 <= u < |ts| && Owns(ts[u], p);
        assert Owns(ts'[u], p);
      }
    }
    forall u, p: nat {:trigger Owns(ts'[u], p)} | 0 <= u < |ts'| && Owns(ts'[u], p)
      ensures p < |slots'| && slots'[p].busy && (u != t ==> Owns(ts[u], p) && p != sl)
    {}
  }

  lemma OwnershipGiven(slots: seq<Slot>, ts: seq<Thread>, t: nat)
    requires t < |ts| && Owned(slots, ts) && ts[t].Releasing? && ts[t].sl < |slots|
    ensures Owned(slots[ts[t].sl := slots[ts[t].sl].(busy := false)], ts[t := Idle])
  {
    var sl := ts[t].sl;
    var ts' := ts[t := Idle];
    var slots' := slots[sl := slots[sl].(busy := false)];
    assert Owns(ts[t], sl);
    forall u, p: nat {:trigger Owns(ts'[u], p)} | 0 <= u < |ts'| && Owns(ts'[u], p)
      ensures p < |slots'| && slots'[p].busy && Owns(ts[u], p)
    {
      assert Owns(ts[u], p);
    }
    forall p: nat {:trigger SomeoneOwns(ts', p)} | p < |slots'| && slots'[p].busy
      ensures SomeoneOwns(ts', p)
    {
      assert SomeoneOwns(ts, p);
      var u :| 0 <= u < |ts| && Owns(ts[u], p);
      assert Owns(ts'[u], p);
    }
  }

  // ----- every event keeps the invariant

  lemma ThreadsKept(v: View, slots: seq<Slot>, slots': seq<Slot>, ts: seq<Thread>, t: nat, th: Thread)
    requires Formed(v) && t < |ts| && ThreadsOk(v, slots, ts) && ThreadOk(v, slots', th) && |slots'| == |slots|
    requires forall u {:trigger ts[u]} :: 0 <= u < |ts| && u != t && ts[u].Inserting? && ts[u].sl < |slots| ==> slots'[ts[u].sl].raw == slots[ts[u].sl].raw
    ensures ThreadsOk(v, slots', ts[t := th])
  {
    hide DecodeSlot, Formed;
    var ts' := ts[t := th];
    forall u | 0 <= u < |ts|
      ensures ThreadOk(v, slots', ts'[u])
    {
      assert ThreadOk(v, slots, ts[u]);
    }
  }

  lemma HitKeeps(s: State, e: Event)
    requires Inv(s) && Enabled(s, e) && e.Hit?
    ensures Inv(Step(s, e))
  {
    hide Owned, ThreadsOk, DecodeSlot, Formed, FreeCount, AcquiringCount, ServedCount, AnyAsleep;
    assert s.cache[e.i].block == e.bi;
    assert NotSentinel(s.v, e.bi) by { SentinelIsFar(s.v, e.bi); }
    assert Good(s.v, s.cache[e.i]);
    StillCoherent(s.v, s.cache, Restamped(s.cache, e.i, s.clock + 1), e.i);
  }

  predicate NotSentinel(v: View, bi: nat) { bi != NO_BLOCK }

  lemma SentinelIsFar(v: View, bi: nat)
    requires Formed(v) && bi < v.blockCount
    ensures NotSentinel(v, bi)
  {}

  lemma WaitKeeps(s: State, e: Event)
    requires Inv(s) && Enabled(s, e) && (e.Miss? || e.Sleep? || e.Wake?)
    ensures Inv(Step(s, e))
  {
    hide Coherent, DecodeSlot, Formed, FreeCount, AcquiringCount, ServedCount, Owned, ThreadsOk;
    var s' := Step(s, e);
    var t := e.t;
    assert ThreadOk(s.v, s.slots, s.threads[t]) by { ThreadIsOk(s.v, s.slots, s.threads, t); }
    CountsUpdate(s.threads, t, s'.threads[t]);
    OwnershipKept(s.slots, s.slots, s.threads, t, s'.threads[t]);
    ThreadsKept(s.v, s.slots, s.slots, s.threads, t, s'.threads[t]);
    if e.Sleep? {
      NoneFree(s.slots);
    } else {
      StillAsleep(s.threads, t, s'.threads[t]);
    }
  }

  lemma ThreadIsOk(v: View, slots: seq<Slot>, ts: seq<Thread>, t: nat)
    requires Formed(v) && ThreadsOk(v, slots, ts) && t < |ts|
    ensures ThreadOk(v, slots, ts[t])
  {}

  lemma StillAsleep(ts: seq<Thread>, t: nat, th: Thread)
    requires t < |ts| && !th.Asleep?
    ensures AnyAsleep(ts[t := th]) ==> AnyAsleep(ts)
  {
    var ts' := ts[t := th];
    if u :| 0 <= u < |ts'| && ts'[u].Asleep? {
      assert ts[u].Asleep?;
    }
  }

  lemma AcquireKeeps(s: State, e: Event)
    requires Inv(s) && Enabled(s, e) && e.Acquire?
    ensures Inv(Step(s, e))
  {
    hide Coherent, DecodeSlot, Formed, FreeCount, AcquiringCount, ServedCount, Owned, ThreadsOk, AnyAsleep;
    var s' := Step(s, e);
    var t := e.t;
    ThreadIsOk(s.v, s.slots, s.threads, t);
    CountsUpdate(s.threads, t, s'.threads[t]);
    FreeUpdate(s.slots, e.sl, s'.slots[e.sl]);
    OwnershipTaken(s.slots, s.threads, t, s'.threads[t], e.sl);
    ThreadsKept(s.v, s.slots, s'.slots, s.threads, t, s'.threads[t]);
    StillAsleep(s.threads, t, s'.threads[t]);
  }

  lemma DecodeKeeps(s: State, e: Event)
    requires Inv(s) && Enabled(s, e) && e.Decode?
    ensures Inv(Step(s, e))
  {
    hide Coherent, DecodeSlot, Formed, FreeCount, AcquiringCount, ServedCount, ThreadsOk, AnyAsleep;
    var s' := Step(s, e);
    var t := e.t;
    var sl := s.threads[t].sl;
    assert Owns(s.threads[t], sl);
    forall u {:trigger s.threads[u]} | 0 <= u < |s.threads| && u != t && s.threads[u].Inserting? && s.threads[u].sl < |s.slots|
      ensures s'.slots[s.threads[u].sl].raw == s.slots[s.threads[u].sl].raw
    {
      assert Owns(s.threads[u], s.threads[u].sl);
    }
    hide Owned;
    ThreadIsOk(s.v, s.slots, s.threads, t);
    CountsUpdate(s.threads, t, s'.threads[t]);
    FreeUpdate(s.slots, sl, s'.slots[sl]);
    OwnershipKept(s.slots, s'.slots, s.threads, t, s'.threads[t]);
    ThreadsKept(s.v, s.slots, s'.slots, s.threads, t, s'.threads[t]);
    StillAsleep(s.threads, t, s'.threads[t]);
    assert s.slots[sl := s.slots[sl]] == s.slots;
  }

  lemma InsertKeeps(s: State, e: Event)
    requires Inv(s) && Enabled(s, e) && e.Insert?
    ensures Inv(Step(s, e))
  {
    hide Coherent, DecodeSlot, Formed, FreeCount, AcquiringCount, ServedCount, Owned, ThreadsOk, AnyAsleep;
    var s' := Step(s, e);
    var t := e.t;
    ThreadIsOk(s.v, s.slots, s.threads, t);
    CountsUpdate(s.threads, t, s'.threads[t]);
    OwnershipKept(s.slots, s.slots, s.threads, t, s'.threads[t]);
    ThreadsKept(s.v, s.slots, s.slots, s.threads, t, s'.threads[t]);
    StillAsleep(s.threads, t, s'.threads[t]);
    StillCoherent(s.v, s.cache, s'.cache, e.victim);
  }

  lemma WokenKeeps(v: View, slots: seq<Slot>, ts: seq<Thread>, w: nat)
    requires Formed(v) && w < |ts| && ts[w].Asleep? && Owned(slots, ts) && ThreadsOk(v, slots, ts)
    ensures var ts' := Woken(ts, Some(w));
            && Owned(slots, ts') && ThreadsOk(v, slots, ts')
            && ServedCount(ts') == ServedCount(ts) && AcquiringCount(ts') == AcquiringCount(ts) + 1 && (AnyAsleep(ts') ==> AnyAsleep(ts))
  {
    hide DecodeSlot, Formed, AcquiringCount, ServedCount, Owned, ThreadsOk, AnyAsleep;
    ThreadIsOk(v, slots, ts, w);
    CountsUpdate(ts, w, Acquiring(ts[w].bi));
    OwnershipKept(slots, slots, ts, w, Acquiring(ts[w].bi));
    ThreadsKept(v, slots, slots, ts, w, Acquiring(ts[w].bi));
    StillAsleep(ts, w, Acquiring(ts[w].bi));
  }

  lemma OwnedIsBusy(slots: seq<Slot>, ts: seq<Thread>, t: nat)
    requires t < |ts| && Owned(slots, ts) && ts[t].Releasing?
    ensures ts[t].sl < |slots| && slots[ts[t].sl].busy
  {
    assert Owns(ts[t], ts[t].sl);
  }

  lemma ReleaseKeeps(s: State, e: Event)
    requires Inv(s) && Enabled(s, e) && e.Release?
    ensures Inv(Step(s, e))
  {
    hide Coherent, DecodeSlot, Formed, FreeCount, AcquiringCount, ServedCount, Owned, ThreadsOk;
    var s' := Step(s, e);
    var t := e.t;
    var sl := s.threads[t].sl;
    var ts := s.threads[t := Idle];
    OwnedIsBusy(s.slots, s.threads, t);
    CountsUpdate(s.threads, t, Idle);
    FreeUpdate(s.slots, sl, s'.slots[sl]);
    OwnershipGiven(s.slots, s.threads, t);
    ThreadsKept(s.v, s.slots, s'.slots, s.threads, t, Idle);
    StillAsleep(s.threads, t, Idle);
    if e.wakes.Some? {
      assert ts[e.wakes.value].Asleep?;
      hide AnyAsleep;
      WokenKeeps(s.v, s'.slots, ts, e.wakes.value);
    }
  }

  lemma StepKeeps(s: State, e: Event)
    requires Inv(s) && Enabled(s, e)
    ensures Inv(Step(s, e))
  {
    hide Inv, Enabled, Step;
    match e
    case Hit(_, _, _) => HitKeeps(s, e);
    case Acquire(_, _) => AcquireKeeps(s, e);
    case Decode(_) => DecodeKeeps(s, e);
    case Insert(_, _) => InsertKeeps(s, e);
    case Release(_, _) => ReleaseKeeps(s, e);
    case _ => WaitKeeps(s, e);
  }

  lemma InitialHolds(s: State)
    requires Initial(s)
    ensures Inv(s)
  {
    NoneServed(s.threads);
    hide DecodeSlot, Formed, FreeCount, AcquiringCount;
    forall t, sl: nat {:trigger Owns(s.threads[t], sl)} | 0 <= t < |s.threads|
      ensures !Owns(s.threads[t], sl)
    {}
  }

  // ----- runs

  ghost predicate IsRun(run: seq<State>, events: seq<Event>) {
    && |run| == |events| + 1 && Initial(run[0])
    && forall i :: 0 <= i < |events| ==> Enabled(run[i], events[i]) && run[i + 1] == Step(run[i], events[i])
  }

  lemma {:induction false} RunsAreSafe(run: seq<State>, events: seq<Event>, i: nat)
    requires IsRun(run, events) && i < |run|
    ensures Inv(run[i])
  {
    hide Inv, Enabled, Step, Initial;
    if i == 0 {
      InitialHolds(run[0]);
    } else {
      RunsAreSafe(run, events, i - 1);
      StepKeeps(run[i - 1], events[i - 1]);
    }
  }

  /** Whatever other threads do, a caller gets the bytes of the block it asked for. */
  lemma HandsOutTheBlock(s: State, e: Event, within: nat, take: nat)
    requires Inv(s) && Enabled(s, e) && Handed(s, e, within, take).Some?
    ensures var (bi, bytes) := Handed(s, e, within, take).value;
            bi < s.v.blockCount && DecodeSlot(s.v, bi).Success? && bytes == Part(DecodeSlot(s.v, bi).value, within, take)
  {
    hide Owned, FreeCount, AcquiringCount, ServedCount, AnyAsleep, DecodeSlot, Part;
    if e.Hit? {
      assert s.cache[e.i].block == NO_BLOCK || Good(s.v, s.cache[e.i]);
      SentinelIsFar(s.v, e.bi);
    } else {
      ThreadIsOk(s.v, s.slots, s.threads, e.t);
    }
  }

  /** No decode slot has two owners. */
  lemma OneOwner(s: State, t: nat, u: nat, sl: nat)
    requires Inv(s) && t < |s.threads| && u < |s.threads| && Owns(s.threads[t], sl) && Owns(s.threads[u], sl)
    ensures t == u && sl < |s.slots| && s.slots[sl].busy
  {
    hide FreeCount, AcquiringCount, ServedCount, AnyAsleep, DecodeSlot, Formed, Coherent, ThreadsOk;
  }

  /** When no call is under way, hits and misses count the successful calls. */
  lemma CountersAddUp(s: State)
    requires Inv(s) && forall t :: 0 <= t < |s.threads| ==> s.threads[t] == Idle
    ensures s.hits + s.misses == s.returned
  {
    NoneServed(s.threads);
  }

  ghost predicate CanMove(s: State) {
    exists e: Event :: !e.Wake? && !e.Hit? && !e.Miss? && Enabled(s, e)
  }

  lemma OldestExists(cache: seq<CacheEntry>, n: nat) returns (victim: nat)
    requires 0 < n <= |cache|
    ensures victim < n && forall i {:trigger cache[i]} :: 0 <= i < n ==> cache[victim].used <= cache[i].used
  {
    if n == 1 {
      victim := 0;
    } else {
      victim := OldestExists(cache, n - 1);
      if cache[n - 1].used < cache[victim].used {
        victim := n - 1;
      }
    }
  }

  lemma WorkingCanMove(s: State, t: nat)
    requires Inv(s) && t < |s.threads| && (s.threads[t].Decoding? || s.threads[t].Inserting? || s.threads[t].Releasing?)
    ensures CanMove(s)
  {
    hide FreeCount, AcquiringCount, ServedCount, DecodeSlot, Formed, Coherent;
    var th := s.threads[t];
    assert Owns(th, th.sl);
    ThreadIsOk(s.v, s.slots, s.threads, t);
    hide Owned, ThreadsOk;
    match th
    case Decoding(_, _) => assert Enabled(s, Decode(t));
    case Inserting(_, _) =>
      var victim := OldestExists(s.cache, |s.cache|);
      assert Enabled(s, Insert(t, victim));
    case Releasing(_, _) =>
      if w :| 0 <= w < |s.threads| && s.threads[w].Asleep? {
        assert Enabled(s, Release(t, Some(w)));
      } else {
        assert Enabled(s, Release(t, None));
      }
  }

  lemma AcquiringCanMove(s: State, t: nat)
    requires Inv(s) && t < |s.threads| && s.threads[t].Acquiring?
    ensures CanMove(s)
  {
    hide FreeCount, AcquiringCount, ServedCount, DecodeSlot, Coherent, Owned, ThreadsOk, AnyAsleep, Formed;
    if AllBusy(s.slots) {
      assert Enabled(s, Sleep(t));
    } else {
      var sl :| 0 <= sl < |s.slots| && !s.slots[sl].busy;
      assert Enabled(s, Acquire(t, sl));
    }
  }

  /** No thread waits for a slot for ever: while any call is under way, some call can go on. */
  lemma NoDeadlock(s: State, t: nat)
    requires Inv(s) && t < |s.threads| && s.threads[t] != Idle
    ensures CanMove(s)
  {
    hide CanMove, DecodeSlot, Formed, Coherent, ThreadsOk, ServedCount;
    if s.threads[t].Acquiring? {
      AcquiringCanMove(s, t);
    } else if s.threads[t].Asleep? {
      if AllBusy(s.slots) {
        assert s.slots[0].busy;
        assert SomeoneOwns(s.threads, 0);
        var u :| 0 <= u < |s.threads| && Owns(s.threads[u], 0);
        WorkingCanMove(s, u);
      } else {
        SomeFree(s.slots);
        var u := SomeAcquiring(s.threads);
        AcquiringCanMove(s, u);
      }
    } else {
      WorkingCanMove(s, t);
    }
  }
}
