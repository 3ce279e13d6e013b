/** Reads by many threads at once: every thread goes through the rounds of `xq_reader_pread`, each round a
    block copy interleaved with those of the others (src/core/xq_reader.c:445-557). */
module PreadMt {
  import opened Bytes
  import opened Index
  import opened ReaderSpec
  import opened Lru
  import opened Reader
  import opened ReaderMt

  /** A thread's read: not begun, under way with the bytes got so far, or returned. */
  datatype Call =
    | NoCall
    | Reading(off: nat, n: nat, got: seq<byte>)
    | Returned(off: nat, n: nat, ok: bool, out: seq<byte>)

  datatype World = World(s: State, calls: seq<Call>)

  datatype Action = Begin(t: nat, off: nat, n: nat) | Move(e: Event) | Return(t: nat)

  /** How many bytes a read delivers. */
  function Wanted(v: View, off: nat, n: nat): nat {
    if off < v.rawSize as int then Min(n, v.rawSize as int - off) else 0
  }

  /** Where the next round of a read starts. */
  function At(c: Call): nat {
    if c.Reading? then c.off + |c.got| else 0
  }

  /** Block `bi` holds position `at`. */
  predicate Holds(v: View, bi: nat, at: nat)
    requires Formed(v)
  {
    bi < v.blockCount && RawOf(v, bi) as int <= at < RawOf(v, bi + 1) as int
  }

  /** A round begins with the block the index names, when no other is under way in this thread. */
  ghost predicate Begins(w: World, e: Event)
    requires Formed(w.s.v)
  {
    && e.t < |w.calls| && w.calls[e.t].Reading? && |w.calls[e.t].got| < Wanted(w.s.v, w.calls[e.t].off, w.calls[e.t].n)
    && (e.Hit? || e.Miss?) && Holds(w.s.v, e.bi, At(w.calls[e.t]))
  }

  ghost predicate Allowed(w: World, a: Action) {
    && Formed(w.s.v) && |w.calls| == |w.s.threads|
    && match a
       case Begin(t, _, _) => t < |w.calls| && !w.calls[t].Reading? && w.s.threads[t] == Idle
       case Move(e) => Enabled(w.s, e) && (e.Hit? || e.Miss? ==> Begins(w, e))
       case Return(t) =>
         t < |w.calls| && w.calls[t].Reading? && w.s.threads[t] == Idle && |w.calls[t].got| >= Wanted(w.s.v, w.calls[t].off, w.calls[t].n)
  }

  /** A round gave `got`: the read has failed if that is nothing. */
  function Took(c: Call, got: seq<byte>): Call {
    if !c.Reading? then c
    else if got == [] then Returned(c.off, c.n, false, c.got)
    else c.(got := c.got + got)
  }

  /** What the round under way hands out, at the place and of the length this read asks for. */
  ghost function Given(w: World, e: Event): Option<(nat, seq<byte>)>
    requires Allowed(w, Move(e))
  {
    var c := w.calls[e.t];
    var bi := if e.Hit? then e.bi else if e.Insert? then w.s.threads[e.t].bi else 0;
    if c.Reading? && bi < w.s.v.blockCount then
      Handed(w.s, e, Max(0, At(c) - RawOf(w.s.v, bi) as int), Max(0, Wanted(w.s.v, c.off, c.n) - |c.got|))
    else None
  }

  ghost function Act(w: World, a: Action): World
    requires Allowed(w, a)
  {
    match a
    case Begin(t, off, n) => w.(calls := w.calls[t := Reading(off, n, [])])
    case Return(t) => w.(calls := w.calls[t := Returned(w.calls[t].off, w.calls[t].n, true, w.calls[t].got)])
    case Move(e) =>
      var c := w.calls[e.t];
      var given := Given(w, e);
      var c' := if given.Some? then Took(c, given.value.1)
                else if e.Release? && !w.s.threads[e.t].ok && c.Reading? then Returned(c.off, c.n, false, c.got)
                else c;
      World(Step(w.s, e), w.calls[e.t := c'])
  }

  // ----- the invariant

  /** What a call has got is its part of `x`, and a call that has returned has got all of it. */
  ghost predicate CallOk(v: View, x: seq<byte>, c: Call) {
    match c
    case NoCall => true
    case Reading(off, n, got) => |got| <= Wanted(v, off, n) && got == Part(x, off, |got|)
    case Returned(off, n, ok, out) => ok && out == Part(x, off, n)
  }

  /** A round under way is about the block the call's next byte is in, and decoding has not failed. */
  ghost predicate RoundOk(v: View, th: Thread, c: Call)
    requires Formed(v)
  {
    && (th.Acquiring? || th.Asleep? || th.Decoding? || th.Inserting? ==>
          c.Reading? && |c.got| < Wanted(v, c.off, c.n) && Holds(v, th.bi, At(c)))
    && (th.Releasing? ==> th.ok)
  }

  ghost predicate CallsOk(v: View, x: seq<byte>, ts: seq<Thread>, cs: seq<Call>)
    requires Formed(v)
  {
    |cs| == |ts| && forall t :: 0 <= t < |ts| ==> CallOk(v, x, cs[t]) && RoundOk(v, ts[t], cs[t])
  }

  ghost predicate Safe(w: World, x: seq<byte>) {
    Serves(w.s.v, x) && Inv(w.s) && CallsOk(w.s.v, x, w.s.threads, w.calls)
  }

  ghost predicate Fresh(w: World, x: seq<byte>) {
    Serves(w.s.v, x) && Initial(w.s) && |w.calls| == |w.s.threads| && forall t :: 0 <= t < |w.calls| ==> w.calls[t] == NoCall
  }

  lemma FreshIsSafe(w: World, x: seq<byte>)
    requires Fresh(w, x)
    ensures Safe(w, x)
  {
    InitialHolds(w.s);
    hide Inv, Serves, Formed;
  }

  // ----- one round

  lemma WantedFits(v: View, off: nat, n: nat)
    ensures Wanted(v, off, n) > 0 ==> off + Wanted(v, off, n) <= v.rawSize as int
  {}

  /** The next bytes of a read. */
  ghost predicate Continues(v: View, x: seq<byte>, c: Call, got: seq<byte>)
    requires c.Reading?
  {
    got != [] && |c.got + got| <= Wanted(v, c.off, c.n) && c.got + got == Part(x, c.off, |c.got + got|)
  }

  lemma NextBytes(v: View, x: seq<byte>, c: Call, got: seq<byte>)
    requires Serves(v, x) && c.Reading? && CallOk(v, x, c)
    requires 0 < |got| <= Wanted(v, c.off, c.n) - |c.got| && got == Part(x, At(c), |got|)
    ensures Continues(v, x, c, got)
  {
    hide Formed, Serves, Part;
    WantedFits(v, c.off, c.n);
    JoinParts(v, x, c.off, |c.got|, got);
  }

  lemma AtIsU64(v: View, bi: nat, at: nat)
    requires Formed(v) && Holds(v, bi, at)
    ensures at < U64_LIMIT
  {}

  lemma GivenServes(v: View, x: seq<byte>, c: Call, bi: nat)
    requires Serves(v, x) && c.Reading? && CallOk(v, x, c) && |c.got| < Wanted(v, c.off, c.n) && Holds(v, bi, At(c))
    ensures DecodeSlot(v, bi).Success?
    ensures var got := Part(DecodeSlot(v, bi).value, At(c) - RawOf(v, bi) as int, Wanted(v, c.off, c.n) - |c.got|);
            Continues(v, x, c, got)
  {
    hide Formed, DecodeSlot, RawOf, Serves, ServesBlock, Part, Wanted, CallOk, Continues;
    BlockServes(v, x, bi);
    var at, take := At(c), Wanted(v, c.off, c.n) - |c.got|;
    AtIsU64(v, bi, at);
    RoundServes(v, x, bi, at, take);
    var within := at - RawOf(v, bi) as int;
    PartSize(DecodeSlot(v, bi), within, take);
    NextBytes(v, x, c, Part(DecodeSlot(v, bi).value, within, take));
  }

  lemma OneCallOk(v: View, x: seq<byte>, ts: seq<Thread>, cs: seq<Call>, t: nat)
    requires Formed(v) && CallsOk(v, x, ts, cs) && t < |ts|
    ensures CallOk(v, x, cs[t]) && RoundOk(v, ts[t], cs[t])
  {}

  /** One thread and its call change. */
  lemma CallsKept(v: View, x: seq<byte>, ts: seq<Thread>, cs: seq<Call>, t: nat, th: Thread, c: Call)
    requires Formed(v) && CallsOk(v, x, ts, cs) && t < |ts| && CallOk(v, x, c) && RoundOk(v, th, c)
    ensures CallsOk(v, x, ts[t := th], cs[t := c])
  {
    hide Formed, CallOk, RoundOk;
  }

  /** Waking a thread up leaves it in the same round. */
  lemma WokenCalls(v: View, x: seq<byte>, ts: seq<Thread>, cs: seq<Call>, w: Option<nat>)
    requires Formed(v) && CallsOk(v, x, ts, cs)
    ensures CallsOk(v, x, Woken(ts, w), cs)
  {
    hide Formed, CallOk, Holds;
    var ts' := Woken(ts, w);
    forall t | 0 <= t < |ts|
      ensures CallOk(v, x, cs[t]) && RoundOk(v, ts'[t], cs[t])
    {
      OneCallOk(v, x, ts, cs, t);
    }
  }

  lemma BeginKeeps(w: World, x: seq<byte>, a: Action)
    requires Safe(w, x) && Allowed(w, a) && (a.Begin? || a.Return?)
    ensures Safe(Act(w, a), x)
  {
    var v, ts, t := w.s.v, w.s.threads, a.t;
    assert Formed(v);
    hide Inv, Serves, Formed, CallsOk, Holds;
    OneCallOk(v, x, ts, w.calls, t);
    CallsKept(v, x, ts, w.calls, t, ts[t], Act(w, a).calls[t]);
    assert ts[t := ts[t]] == ts;
  }

  lemma StepView(s: State, e: Event)
    requires Enabled(s, e)
    ensures Step(s, e).v == s.v && |Step(s, e).threads| == |s.threads|
  {
    hide DecodeSlot, Formed;
  }

  /** A step in which nothing is handed out. */
  lemma QuietKeeps(w: World, x: seq<byte>, e: Event)
    requires Safe(w, x) && Allowed(w, Move(e)) && !e.Hit? && !e.Insert? && !e.Release?
    ensures CallsOk(w.s.v, x, Step(w.s, e).threads, Act(w, Move(e)).calls)
  {
    hide Inv, Serves, Formed, CallsOk, CallOk, Holds, DecodeSlot;
    var v, ts, t := w.s.v, w.s.threads, e.t;
    InRange(w, x, e);
    if e.Decode? {
      BlockDecodes(w, x, e);
    }
    OneCallOk(v, x, ts, w.calls, t);
    CallsKept(v, x, ts, w.calls, t, Step(w.s, e).threads[t], w.calls[t]);
  }

  lemma BlockDecodes(w: World, x: seq<byte>, e: Event)
    requires Safe(w, x) && Allowed(w, Move(e)) && e.Decode?
    ensures w.s.threads[e.t].bi < w.s.v.blockCount && DecodeSlot(w.s.v, w.s.threads[e.t].bi).Success?
  {
    hide Inv, Formed, CallsOk, DecodeSlot, RawOf;
    BlockServes(w.s.v, x, w.s.threads[e.t].bi);
  }

  predicate Ends(e: Event) { e.Hit? || e.Insert? }

  /** The block a round that ends is about. */
  ghost function BlockOf(w: World, e: Event): nat
    requires Allowed(w, Move(e)) && Ends(e)
  {
    if e.Hit? then e.bi else w.s.threads[e.t].bi
  }

  lemma InRange(w: World, x: seq<byte>, e: Event)
    requires Safe(w, x) && Allowed(w, Move(e))
    ensures Formed(w.s.v) && Serves(w.s.v, x) && Inv(w.s) && e.t < |w.calls| == |w.s.threads|
  {
    hide Inv, CallsOk, ServesBlock;
  }

  /** The round is about the block the call's next byte is in. */
  lemma RoundOf(w: World, x: seq<byte>, e: Event)
    requires Safe(w, x) && Allowed(w, Move(e)) && Ends(e)
    ensures Formed(w.s.v) && e.t < |w.calls|
    ensures var c := w.calls[e.t];
            c.Reading? && |c.got| < Wanted(w.s.v, c.off, c.n) && Holds(w.s.v, BlockOf(w, e), At(c)) && CallOk(w.s.v, x, c)
  {
    hide Inv, Serves, Formed, CallsOk, CallOk, Holds, DecodeSlot, Coherent;
    InRange(w, x, e);
    OneCallOk(w.s.v, x, w.s.threads, w.calls, e.t);
  }

  lemma GivenIsHanded(w: World, e: Event)
    requires Allowed(w, Move(e)) && Ends(e) && w.calls[e.t].Reading?
    requires var c := w.calls[e.t]; |c.got| < Wanted(w.s.v, c.off, c.n) && Holds(w.s.v, BlockOf(w, e), At(c))
    ensures var c := w.calls[e.t];
            && Given(w, e) == Handed(w.s, e, At(c) - RawOf(w.s.v, BlockOf(w, e)) as int, Wanted(w.s.v, c.off, c.n) - |c.got|)
            && Given(w, e).Some? && Given(w, e).value.0 == BlockOf(w, e)
  {
    hide Formed, Part, RawOf, Wanted, DecodeSlot;
  }

  lemma MoveEnabled(w: World, e: Event)
    requires Allowed(w, Move(e))
    ensures Enabled(w.s, e)
  {
    hide Enabled;
  }

  lemma GivenIsPart(w: World, x: seq<byte>, e: Event)
    requires Safe(w, x) && Allowed(w, Move(e)) && Ends(e)
    ensures Formed(w.s.v) && e.t < |w.calls| && w.calls[e.t].Reading? && Holds(w.s.v, BlockOf(w, e), At(w.calls[e.t]))
    ensures var c, bi := w.calls[e.t], BlockOf(w, e);
            && |c.got| < Wanted(w.s.v, c.off, c.n) && bi < w.s.v.blockCount && DecodeSlot(w.s.v, bi).Success?
            && Given(w, e) == Some((bi, Part(DecodeSlot(w.s.v, bi).value, At(c) - RawOf(w.s.v, bi) as int, Wanted(w.s.v, c.off, c.n) - |c.got|)))
  {
    hide Safe, Allowed, Formed, Part, DecodeSlot, RawOf, Wanted, BlockOf, CallOk, Given, Handed, Inv, At;
    MoveEnabled(w, e);
    InRange(w, x, e);
    RoundOf(w, x, e);
    GivenIsHanded(w, e);
    var c := w.calls[e.t];
    HandsOutTheBlock(w.s, e, At(c) - RawOf(w.s.v, BlockOf(w, e)) as int, Wanted(w.s.v, c.off, c.n) - |c.got|);
  }

  /** A round that ends hands out the next bytes of this thread's own read. */
  lemma RoundDelivers(w: World, x: seq<byte>, e: Event)
    requires Safe(w, x) && Allowed(w, Move(e)) && Ends(e)
    ensures Formed(w.s.v) && e.t < |w.calls| && w.calls[e.t].Reading? && Given(w, e).Some?
    ensures Continues(w.s.v, x, w.calls[e.t], Given(w, e).value.1)
  {
    hide *;
    InRange(w, x, e);
    RoundOf(w, x, e);
    GivenIsPart(w, x, e);
    GivenServes(w.s.v, x, w.calls[e.t], BlockOf(w, e));
  }

  lemma RoundKeeps(w: World, x: seq<byte>, e: Event)
    requires Safe(w, x) && Allowed(w, Move(e)) && Ends(e)
    ensures CallsOk(w.s.v, x, Step(w.s, e).threads, Act(w, Move(e)).calls)
  {
    hide Inv, Serves, Formed, CallsOk, DecodeSlot, Part, Wanted, Holds, Given, Coherent;
    var v, ts, t := w.s.v, w.s.threads, e.t;
    InRange(w, x, e);
    RoundDelivers(w, x, e);
    CallsKept(v, x, ts, w.calls, t, Step(w.s, e).threads[t], Act(w, Move(e)).calls[t]);
    if e.Hit? {
      assert ts[t := ts[t]] == ts;
    }
  }

  lemma ReleaseKeepsCalls(w: World, x: seq<byte>, e: Event)
    requires Safe(w, x) && Allowed(w, Move(e)) && e.Release?
    ensures CallsOk(w.s.v, x, Step(w.s, e).threads, Act(w, Move(e)).calls)
  {
    hide Inv, Serves, Formed, CallsOk, CallOk, Holds, DecodeSlot, Woken, AnyAsleep;
    var v, ts, t := w.s.v, w.s.threads, e.t;
    InRange(w, x, e);
    OneCallOk(v, x, ts, w.calls, t);
    CallsKept(v, x, ts, w.calls, t, Idle, w.calls[t]);
    WokenCalls(v, x, ts[t := Idle], w.calls[t := w.calls[t]], e.wakes);
  }

  /** Every action of every thread keeps every call right. */
  lemma ActKeeps(w: World, x: seq<byte>, a: Action)
    requires Safe(w, x) && Allowed(w, a)
    ensures Safe(Act(w, a), x)
  {
    if a.Move? {
      MoveKeeps(w, x, a.e);
    } else {
      BeginKeeps(w, x, a);
    }
  }

  lemma MoveKeeps(w: World, x: seq<byte>, e: Event)
    requires Safe(w, x) && Allowed(w, Move(e))
    ensures Safe(Act(w, Move(e)), x)
  {
    hide Inv, Serves, Formed, CallsOk, Step, Enabled, Given, Took;
    StepKeeps(w.s, e);
    StepView(w.s, e);
    if e.Hit? || e.Insert? {
      RoundKeeps(w, x, e);
    } else if e.Release? {
      ReleaseKeepsCalls(w, x, e);
    } else {
      QuietKeeps(w, x, e);
    }
  }

  // ----- runs

  ghost predicate IsHistory(ws: seq<World>, acts: seq<Action>, x: seq<byte>) {
    && |ws| == |acts| + 1 && Fresh(ws[0], x)
    && forall i :: 0 <= i < |acts| ==> Allowed(ws[i], acts[i]) && ws[i + 1] == Act(ws[i], acts[i])
  }

  lemma {:induction false} HistoryIsSafe(ws: seq<World>, acts: seq<Action>, x: seq<byte>, i: nat)
    requires IsHistory(ws, acts, x) && i < |ws|
    ensures Safe(ws[i], x)
  {
    hide Safe, Allowed, Act, Fresh;
    if i == 0 {
      FreshIsSafe(ws[0], x);
    } else {
      HistoryIsSafe(ws, acts, x, i - 1);
      ActKeeps(ws[i - 1], x, acts[i - 1]);
    }
  }

  /** On a reader that serves `x`, each of any number of concurrent reads returns its own slice of `x`:
      however the rounds of all threads interleave, whatever the cache evicts, and never an error. */
  lemma EachGetsItsSlice(ws: seq<World>, acts: seq<Action>, x: seq<byte>, i: nat, t: nat)
    requires IsHistory(ws, acts, x) && i < |ws| && t < |ws[i].calls| && ws[i].calls[t].Returned?
    ensures var c := ws[i].calls[t]; c.ok && c.out == Part(x, c.off, c.n)
  {
    HistoryIsSafe(ws, acts, x, i);
    hide IsHistory, Inv, Serves, Formed, RoundOk, Part;
  }

  // ----- progress

  lemma {:induction false} Holder(v: View, at: nat, k: nat) returns (bi: nat)
    requires Formed(v) && k <= v.blockCount && at < RawOf(v, k) as int
    ensures Holds(v, bi, at)
    decreases k
  {
    IndexEnds(v);
    hide Formed, RawAt;
    if RawOf(v, k - 1) as int <= at {
      bi := k - 1;
    } else {
      bi := Holder(v, at, k - 1);
    }
  }

  ghost predicate GoesOn(w: World) {
    exists a: Action :: !a.Begin? && !(a.Move? && a.e.Wake?) && Allowed(w, a)
  }

  /** An idle thread whose read has not come to its end begins a round, from the cache or towards a slot. */
  lemma RoundBegins(w: World, t: nat)
    requires Formed(w.s.v) && |w.calls| == |w.s.threads| && t < |w.calls| && w.s.threads[t] == Idle
    requires var c := w.calls[t]; c.Reading? && |c.got| < Wanted(w.s.v, c.off, c.n)
    ensures GoesOn(w)
  {
    var v, c := w.s.v, w.calls[t];
    IndexEnds(v);
    var bi := Holder(v, At(c), v.blockCount);
    hide Formed, Holds, DecodeSlot;
    if i :| 0 <= i < |w.s.cache| && w.s.cache[i].block == bi {
      assert Allowed(w, Move(Hit(t, bi, i)));
    } else {
      assert Allowed(w, Move(Miss(t, bi)));
    }
  }

  /** While a read is under way some read can go on, without a spurious wake-up. */
  lemma SomeReadGoesOn(w: World, x: seq<byte>, t: nat)
    requires Safe(w, x) && t < |w.calls| && w.calls[t].Reading?
    ensures GoesOn(w)
  {
    SafeShape(w, x);
    hide Safe, Inv, Formed, Wanted;
    if w.s.threads[t] != Idle {
      NoDeadlock(w.s, t);
      hide Enabled;
      var e: Event :| !e.Wake? && !e.Hit? && !e.Miss? && Enabled(w.s, e);
      assert Allowed(w, Move(e));
    } else if |w.calls[t].got| < Wanted(w.s.v, w.calls[t].off, w.calls[t].n) {
      hide GoesOn;
      RoundBegins(w, t);
    } else {
      assert Allowed(w, Return(t));
    }
  }

  lemma SafeShape(w: World, x: seq<byte>)
    requires Safe(w, x)
    ensures Formed(w.s.v) && Inv(w.s) && |w.calls| == |w.s.threads|
  {
    hide Inv, ServesBlock;
  }
}
