/** The block cache's replacement rule: use stamps from a clock, the smallest stamp is evicted
    (src/core/xq_reader.c:15-22, 473-518). */
module Lru {
  import opened Bytes

  const NO_BLOCK := 0xFFFF_FFFF_FFFF_FFFF

  datatype CacheEntry = CacheEntry(block: nat, used: nat, data: seq<byte>)

  const EMPTY_ENTRY := CacheEntry(NO_BLOCK, 0, [])

  // ----- the reference: a list of blocks, most recently used first

  /** Removes the first occurrence. */
  function Without(s: seq<nat>, b: nat): seq<nat> {
    if s == [] then [] else if s[0] == b then s[1..] else [s[0]] + Without(s[1..], b)
  }

  function Take(s: seq<nat>, n: nat): (r: seq<nat>)
    ensures |r| <= n
  {
    if |s| <= n then s else s[..n]
  }

  /** All blocks ever asked for, each once, the latest first. */
  function Recent(history: seq<nat>): seq<nat> {
    if history == [] then []
    else
      var b := history[|history| - 1];
      [b] + Without(Recent(history[..|history| - 1]), b)
  }

  lemma {:induction false} TakeWithout(s: seq<nat>, n: nat, b: nat)
    requires n > 0
    ensures Take(Without(s, b), n - 1) == Take(Without(Take(s, n), b), n - 1)
    decreases |s|
  {
    if |s| > n {
      var t := s[..n];
      assert t[1..] == s[1..][..n - 1];
      if s[0] == b {
        assert Without(t, b) == s[1..][..n - 1];
      } else if n > 1 {
        TakeWithout(s[1..], n - 1, b);
        assert Take(s[1..], n - 1) == t[1..];
        TakeCons(s[0], Without(s[1..], b), n - 1);
        TakeCons(s[0], Without(t[1..], b), n - 1);
      }
    }
  }

  lemma TakeCons(a: nat, s: seq<nat>, n: nat)
    requires n > 0
    ensures Take([a] + s, n) == [a] + Take(s, n - 1)
  {}

  /** A cache of `n` blocks never needs more than the first `n` of the list. */
  lemma RecentOfTaken(history: seq<nat>, b: nat, n: nat)
    requires n > 0
    ensures Take(Recent(history + [b]), n) == Take([b] + Without(Take(Recent(history), n), b), n)
  {
    assert (history + [b])[..|history|] == history;
    TakeWithout(Recent(history), n, b);
    TakeCons(b, Without(Recent(history), b), n);
    TakeCons(b, Without(Take(Recent(history), n), b), n);
  }

  lemma {:induction false} WithoutAt(s: seq<nat>, k: nat)
    requires k < |s| && forall i :: 0 <= i < k ==> s[i] != s[k]
    ensures Without(s, s[k]) == s[..k] + s[k + 1..]
    decreases |s|
  {
    if k == 0 {
      assert s[..0] + s[1..] == s[1..];
    } else {
      WithoutAt(s[1..], k - 1);
      assert s[1..][..k - 1] == s[1..k] && s[1..][k..] == s[k + 1..];
      assert s[..k] == [s[0]] + s[1..k];
    }
  }

  lemma {:induction false} WithoutAbsent(s: seq<nat>, b: nat)
    requires b !in s
    ensures Without(s, b) == s
  {
    if s != [] {
      WithoutAbsent(s[1..], b);
      assert s == [s[0]] + s[1..];
    }
  }

  // ----- the cache

  predicate Occupied(cache: seq<CacheEntry>, clock: nat, o: nat) {
    o < |cache| && cache[o].block != NO_BLOCK && 0 < cache[o].used <= clock
  }

  /** Entry `o` was used after entry `p`, for another block. */
  predicate Later(cache: seq<CacheEntry>, o: nat, p: nat) {
    o < |cache| && p < |cache| && o != p && cache[o].block != cache[p].block && cache[o].used > cache[p].used
  }

  predicate Vacant(cache: seq<CacheEntry>, o: nat) {
    o < |cache| ==> cache[o].block == NO_BLOCK && cache[o].used == 0
  }

  /** `order` lists the occupied entries, most recently used first. */
  ghost predicate Ordered(cache: seq<CacheEntry>, clock: nat, order: seq<nat>) {
    && (forall k {:trigger order[k]} :: 0 <= k < |order| ==> Occupied(cache, clock, order[k]))
    && (forall j, k {:trigger order[j], order[k]} :: 0 <= j < k < |order| ==> Later(cache, order[j], order[k]))
    && (forall o: nat {:trigger o in order} :: o !in order ==> Vacant(cache, o))
  }

  function BlockOf(cache: seq<CacheEntry>, o: nat): nat {
    if o < |cache| then cache[o].block else NO_BLOCK
  }

  /** The blocks held, most recently used first. */
  function Held(cache: seq<CacheEntry>, order: seq<nat>): (r: seq<nat>)
    ensures |r| == |order|
  {
    seq(|order|, k requires 0 <= k < |order| => BlockOf(cache, order[k]))
  }

  // ----- a hit

  /** Where the entry at `p` of the new order stood in the old one. */
  function Was(p: nat, k: nat): nat {
    if p == 0 then k else if p <= k then p - 1 else p
  }

  function ToFront(order: seq<nat>, k: nat): (r: seq<nat>)
    requires k < |order|
    ensures |r| == |order|
  {
    [order[k]] + (order[..k] + order[k + 1..])
  }

  lemma FrontWas(order: seq<nat>, k: nat, p: nat)
    requires k < |order| && p < |order|
    ensures ToFront(order, k)[p] == order[Was(p, k)]
  {}

  lemma FrontSame(order: seq<nat>, k: nat, o: nat)
    requires k < |order| && o in order
    ensures o in ToFront(order, k)
  {
    var q :| 0 <= q < |order| && order[q] == o;
    assert ToFront(order, k)[if q == k then 0 else if q < k then q + 1 else q] == o;
  }

  function Restamped(cache: seq<CacheEntry>, i: nat, clock: nat): (r: seq<CacheEntry>)
    requires i < |cache|
    ensures |r| == |cache|
  {
    cache[i := cache[i].(used := clock)]
  }

  lemma HitOrders(cache: seq<CacheEntry>, clock: nat, order: seq<nat>, k: nat)
    requires Ordered(cache, clock, order) && k < |order|
    ensures order[k] < |cache| && Ordered(Restamped(cache, order[k], clock + 1), clock + 1, ToFront(order, k))
  {
    assert Occupied(cache, clock, order[k]);
    var cache' := Restamped(cache, order[k], clock + 1);
    var order' := ToFront(order, k);
    hide ToFront;
    forall p {:trigger order'[p]} | 0 <= p < |order'|
      ensures Occupied(cache', clock + 1, order'[p])
    {
      FrontWas(order, k, p);
      assert Occupied(cache, clock, order[Was(p, k)]);
    }
    forall p, q {:trigger order'[p], order'[q]} | 0 <= p < q < |order'|
      ensures Later(cache', order'[p], order'[q])
    {
      FrontWas(order, k, p);
      FrontWas(order, k, q);
      var a, b := Was(p, k), Was(q, k);
      assert Occupied(cache, clock, order[b]);
      if a < b {
        assert Later(cache, order[a], order[b]);
      } else {
        assert Later(cache, order[b], order[a]);
      }
    }
    forall o: nat {:trigger o in order'} | o !in order'
      ensures Vacant(cache', o)
    {
      if o in order {
        FrontSame(order, k, o);
      }
      assert order'[0] == order[k] by { FrontWas(order, k, 0); }
    }
  }

  lemma HitHolds(cache: seq<CacheEntry>, clock: nat, order: seq<nat>, k: nat)
    requires Ordered(cache, clock, order) && k < |order| && order[k] < |cache|
    ensures var b := cache[order[k]].block;
            Held(Restamped(cache, order[k], clock + 1), ToFront(order, k)) == [b] + Without(Held(cache, order), b)
  {
    var s := Held(cache, order);
    forall i | 0 <= i < k
      ensures s[i] != s[k]
    {
      assert Later(cache, order[i], order[k]);
    }
    WithoutAt(s, k);
    var cache' := Restamped(cache, order[k], clock + 1);
    var order' := ToFront(order, k);
    var s' := [s[k]] + (s[..k] + s[k + 1..]);
    forall p | 0 <= p < |order'|
      ensures Held(cache', order')[p] == s'[p]
    {
      FrontWas(order, k, p);
      assert s'[p] == s[Was(p, k)];
    }
  }

  // ----- a miss

  lemma {:induction false} NoMoreThan(order: seq<nat>, n: nat)
    requires forall k {:trigger order[k]} :: 0 <= k < |order| ==> order[k] < n
    requires forall j, k {:trigger order[j], order[k]} :: 0 <= j < k < |order| ==> order[j] != order[k]
    ensures |order| <= n
    decreases |order|
  {
    if order != [] {
      var m := order[0];
      var rest := seq(|order| - 1, i requires 0 <= i < |order| - 1 => if order[i + 1] < m then order[i + 1] else order[i + 1] - 1);
      NoMoreThan(rest, n - 1);
    }
  }

  predicate Oldest(cache: seq<CacheEntry>, victim: nat) {
    victim < |cache| && forall i {:trigger cache[i]} :: 0 <= i < |cache| ==> cache[victim].used <= cache[i].used
  }

  lemma OldestIsLast(cache: seq<CacheEntry>, clock: nat, order: seq<nat>, k: nat)
    requires Ordered(cache, clock, order) && k < |order| && Oldest(cache, order[k])
    ensures k == |order| - 1
  {
    var last := order[|order| - 1];
  }

  /** The victim is unoccupied while any entry is, and then the last in the order. */
  lemma VictimIs(cache: seq<CacheEntry>, clock: nat, order: seq<nat>, victim: nat)
    requires Ordered(cache, clock, order) && Oldest(cache, victim)
    ensures victim in order ==> |order| > 0 && victim == order[|order| - 1] && forall o: nat :: o < |cache| ==> o in order
    ensures |order| <= |cache|
  {
    forall k {:trigger order[k]} | 0 <= k < |order|
      ensures order[k] < |cache|
    {
      assert Occupied(cache, clock, order[k]);
    }
    forall j, k {:trigger order[j], order[k]} | 0 <= j < k < |order|
      ensures order[j] != order[k]
    {
      assert Later(cache, order[j], order[k]);
    }
    NoMoreThan(order, |cache|);
    if victim in order {
      var k :| 0 <= k < |order| && order[k] == victim;
      assert Occupied(cache, clock, order[k]);
      OldestIsLast(cache, clock, order, k);
      forall o: nat | o < |cache|
        ensures o in order
      {
        assert cache[victim].used <= cache[o].used;
        assert o !in order ==> Vacant(cache, o);
      }
    }
  }

  lemma {:induction false} AllThere(order: seq<nat>, n: nat)
    requires forall o: nat :: o < n ==> o in order
    ensures n <= |order|
    decreases |order|
  {
    if n > 0 {
      assert n - 1 in order;
      var k :| 0 <= k < |order| && order[k] == n - 1;
      var rest := order[..k] + order[k + 1..];
      forall o: nat | o < n - 1
        ensures o in rest
      {
        assert o in order;
        var p :| 0 <= p < |order| && order[p] == o;
        assert rest[if p < k then p else p - 1] == o;
      }
      AllThere(rest, n - 1);
    }
  }

  function Kept(order: seq<nat>, victim: nat): seq<nat> {
    if victim in order then order[..|order| - 1] else order
  }

  function Replaced(cache: seq<CacheEntry>, victim: nat, b: nat, clock: nat, data: seq<byte>): (r: seq<CacheEntry>)
    requires victim < |cache|
    ensures |r| == |cache|
  {
    cache[victim := CacheEntry(b, clock, data)]
  }

  lemma KeptIs(cache: seq<CacheEntry>, clock: nat, order: seq<nat>, victim: nat, k: nat)
    requires Ordered(cache, clock, order) && Oldest(cache, victim) && k < |Kept(order, victim)|
    ensures k < |order| && Kept(order, victim)[k] == order[k] && order[k] != victim && Occupied(cache, clock, order[k])
  {
    VictimIs(cache, clock, order, victim);
    assert Occupied(cache, clock, order[k]);
    if victim in order {
      assert Later(cache, order[k], order[|order| - 1]);
    }
  }

  predicate Absent(cache: seq<CacheEntry>, b: nat) {
    forall i {:trigger cache[i]} :: 0 <= i < |cache| ==> cache[i].block != b
  }

  lemma MissOrders(cache: seq<CacheEntry>, clock: nat, order: seq<nat>, victim: nat, b: nat, data: seq<byte>)
    requires Ordered(cache, clock, order) && Oldest(cache, victim) && b != NO_BLOCK && Absent(cache, b)
    ensures Ordered(Replaced(cache, victim, b, clock + 1, data), clock + 1, [victim] + Kept(order, victim))
  {
    var cache' := Replaced(cache, victim, b, clock + 1, data);
    var kept := Kept(order, victim);
    var order' := [victim] + kept;
    VictimIs(cache, clock, order, victim);
    hide Kept;
    forall p {:trigger order'[p]} | 0 <= p < |order'|
      ensures Occupied(cache', clock + 1, order'[p])
    {
      if p > 0 {
        KeptIs(cache, clock, order, victim, p - 1);
      }
    }
    forall p, q {:trigger order'[p], order'[q]} | 0 <= p < q < |order'|
      ensures Later(cache', order'[p], order'[q])
    {
      KeptIs(cache, clock, order, victim, q - 1);
      if p > 0 {
        KeptIs(cache, clock, order, victim, p - 1);
        assert Later(cache, order[p - 1], order[q - 1]);
      }
    }
    forall o: nat {:trigger o in order'} | o !in order'
      ensures Vacant(cache', o)
    {
      OutsideKept(order, victim, o);
      assert order'[0] == victim;
      assert o !in order ==> Vacant(cache, o);
    }
  }

  lemma OutsideKept(order: seq<nat>, victim: nat, o: nat)
    requires o !in [victim] + Kept(order, victim) && (victim in order ==> order[|order| - 1] == victim)
    ensures o !in order && o != victim
  {
    var all := [victim] + Kept(order, victim);
    assert all[0] == victim;
    forall k | 0 <= k < |order|
      ensures order[k] != o
    {
      if victim !in order || k < |order| - 1 {
        assert all[k + 1] == order[k];
      }
    }
  }

  lemma MissHeldAt(cache: seq<CacheEntry>, clock: nat, order: seq<nat>, victim: nat, b: nat, data: seq<byte>, p: nat)
    requires Ordered(cache, clock, order) && Oldest(cache, victim) && p <= |Kept(order, victim)|
    ensures |Kept(order, victim)| <= |order|
    ensures Held(Replaced(cache, victim, b, clock + 1, data), [victim] + Kept(order, victim))[p] == ([b] + Held(cache, order))[p]
  {
    if p > 0 {
      KeptIs(cache, clock, order, victim, p - 1);
      hide Ordered, Oldest;
    }
  }

  /** A miss puts its block in front, and the cache keeps as many of the others as it has room for. */
  lemma MissHolds(cache: seq<CacheEntry>, clock: nat, order: seq<nat>, victim: nat, b: nat, data: seq<byte>)
    requires Ordered(cache, clock, order) && Oldest(cache, victim) && b != NO_BLOCK && Absent(cache, b)
    ensures Held(Replaced(cache, victim, b, clock + 1, data), [victim] + Kept(order, victim))
            == Take([b] + Without(Held(cache, order), b), |cache|)
  {
    NotHeld(cache, order, b);
    KeptSize(cache, clock, order, victim);
    hide Kept, Ordered, Oldest, Absent, Held, Replaced;
    var s := Held(cache, order);
    WithoutAbsent(s, b);
    var h := Held(Replaced(cache, victim, b, clock + 1, data), [victim] + Kept(order, victim));
    forall p | 0 <= p < |h|
      ensures h[p] == ([b] + s)[p]
    {
      MissHeldAt(cache, clock, order, victim, b, data, p);
    }
  }

  lemma NotHeld(cache: seq<CacheEntry>, order: seq<nat>, b: nat)
    requires b != NO_BLOCK && Absent(cache, b)
    ensures b !in Held(cache, order)
  {}

  lemma KeptSize(cache: seq<CacheEntry>, clock: nat, order: seq<nat>, victim: nat)
    requires Ordered(cache, clock, order) && Oldest(cache, victim)
    ensures 1 + |Kept(order, victim)| == Min(|cache|, 1 + |order|)
  {
    VictimIs(cache, clock, order, victim);
    if victim in order {
      AllThere(order, |cache|);
    } else {
      Room(cache, clock, order, victim);
    }
  }

  lemma Room(cache: seq<CacheEntry>, clock: nat, order: seq<nat>, victim: nat)
    requires Ordered(cache, clock, order) && victim < |cache| && victim !in order
    ensures |order| < |cache|
  {
    var more := [victim] + order;
    forall k {:trigger more[k]} | 0 <= k < |more|
      ensures more[k] < |cache|
    {
      if k > 0 {
        assert Occupied(cache, clock, order[k - 1]);
      }
    }
    forall j, k {:trigger more[j], more[k]} | 0 <= j < k < |more|
      ensures more[j] != more[k]
    {
      if j > 0 {
        assert Later(cache, order[j - 1], order[k - 1]);
      }
    }
    NoMoreThan(more, |cache|);
  }
}
