/** XXH64: the one-shot hash over a whole buffer, and the streaming state that gets the same value
    from any chunking (src/common/xq_xxh64.c). Arithmetic wraps at 64 bits, as `bv64` does. */
module Xxh64 {
  import opened Bytes
  import Words

  // Every operation on words is a function of its own, so that each can be reasoned about by itself.
  function Add(a: bv64, b: bv64): bv64 { a + b }
  function Xor(a: bv64, b: bv64): bv64 { a ^ b }

  function Left31(x: bv64): bv64 { x.RotateLeft(31) }
  function Left27(x: bv64): bv64 { x.RotateLeft(27) }
  function Left23(x: bv64): bv64 { x.RotateLeft(23) }
  function Left11(x: bv64): bv64 { x.RotateLeft(11) }

  function Folded33(x: bv64): bv64 { x ^ (x >> 33) }
  function Folded29(x: bv64): bv64 { x ^ (x >> 29) }
  function Folded32(x: bv64): bv64 { x ^ (x >> 32) }

  function Times1(x: bv64): bv64 { x * 11400714785074694791 }
  function Times2(x: bv64): bv64 { x * 14029467366897019727 }
  function Times3(x: bv64): bv64 { x * 1609587929392839161 }
  function Times5(x: bv64): bv64 { x * 2870177450012600261 }

  const P1: bv64 := Times1(1)
  const P2: bv64 := Times2(1)
  const P3: bv64 := Times3(1)
  const P4: bv64 := 9650029242287828579
  const P5: bv64 := Times5(1)

  /** The number `n` below 16 as a word. */
  function Digit(n: nat): bv64 {
    if n == 0 then 0 else if n == 1 then 1 else if n == 2 then 2 else if n == 3 then 3
    else if n == 4 then 4 else if n == 5 then 5 else if n == 6 then 6 else if n == 7 then 7
    else if n == 8 then 8 else if n == 9 then 9 else if n == 10 then 10 else if n == 11 then 11
    else if n == 12 then 12 else if n == 13 then 13 else if n == 14 then 14 else 15
  }

  /** A byte as a word, by its two hexadecimal digits. */
  function Word(b: byte): bv64 {
    (Digit(b as int / 16) << 4) | Digit(b as int % 16)
  }

  function Load32(s: seq<byte>, i: nat): bv64
    requires i + 4 <= |s|
  {
    Word(s[i]) | (Word(s[i + 1]) << 8) | (Word(s[i + 2]) << 16) | (Word(s[i + 3]) << 24)
  }

  function Load64(s: seq<byte>, i: nat): bv64
    requires i + 8 <= |s|
  {
    Load32(s, i) | (Load32(s, i + 4) << 32)
  }

  /** A length as a 64-bit word; lengths wrap at 2^64. */
  function Length(v: nat): bv64 {
    (v % U64_LIMIT) as bv64
  }

  function Round(acc: bv64, input: bv64): bv64 {
    Times1(Left31(Add(acc, Times2(input))))
  }

  function MergeRound(acc: bv64, val: bv64): bv64 {
    Add(Times1(Xor(acc, Round(0, val))), P4)
  }

  datatype Lanes = Lanes(v1: bv64, v2: bv64, v3: bv64, v4: bv64)

  function StartLanes(seed: bv64): Lanes {
    Lanes(seed + P1 + P2, seed + P2, seed, seed - P1)
  }

  function Stripe(l: Lanes, s: seq<byte>): Lanes
    requires |s| == 32
  {
    Lanes(Round(l.v1, Load64(s, 0)), Round(l.v2, Load64(s, 8)), Round(l.v3, Load64(s, 16)), Round(l.v4, Load64(s, 24)))
  }

  /** All whole stripes of `s`. */
  function Stripes(l: Lanes, s: seq<byte>): Lanes
    decreases |s|
  {
    if |s| < 32 then l else Stripes(Stripe(l, s[..32]), s[32..])
  }

  function Merge(l: Lanes): bv64 {
    var h := l.v1.RotateLeft(1) + l.v2.RotateLeft(7) + l.v3.RotateLeft(12) + l.v4.RotateLeft(18);
    MergeRound(MergeRound(MergeRound(MergeRound(h, l.v1), l.v2), l.v3), l.v4)
  }

  function MixWord(h: bv64, w: bv64): bv64 {
    Add(Times1(Left27(Xor(h, Round(0, w)))), P4)
  }

  function MixHalf(h: bv64, w: bv64): bv64 {
    Add(Times2(Left23(Xor(h, Times1(w)))), P3)
  }

  function MixByte(h: bv64, w: bv64): bv64 {
    Times1(Left11(Xor(h, Times5(w))))
  }

  /** The last fewer than 32 bytes: words, one half word, bytes. */
  function Tail(h: bv64, s: seq<byte>): bv64
    decreases |s|
  {
    if |s| >= 8 then Tail(MixWord(h, Load64(s, 0)), s[8..])
    else if |s| >= 4 then Tail(MixHalf(h, Load32(s, 0)), s[4..])
    else if |s| >= 1 then Tail(MixByte(h, Word(s[0])), s[1..])
    else h
  }

  function Avalanche(h: bv64): bv64 {
    Folded32(Times3(Folded29(Times2(Folded33(h)))))
  }

  function Remainder(s: seq<byte>): (r: seq<byte>)
    ensures |r| < 32
  {
    s[|s| / 32 * 32..]
  }

  function Finish(total: nat, l: Lanes, seed: bv64, rest: seq<byte>): bv64 {
    var h := if total >= 32 then Merge(l) else Add(seed, P5);
    Avalanche(Tail(Add(h, Length(total)), rest))
  }

  /** The hash of a whole buffer. */
  function Hash(s: seq<byte>, seed: bv64): bv64 {
    Finish(|s|, Stripes(StartLanes(seed), s), seed, Remainder(s))
  }

  /** The hash as the number that is stored, with seed 0. */
  function Hash64(s: seq<byte>): uint64 {
    Words.ToU64(Hash(s, 0))
  }

  // ----- stripes over concatenations

  lemma {:induction false} StripesSplit(l: Lanes, a: seq<byte>, b: seq<byte>)
    requires |a| % 32 == 0
    ensures Stripes(l, a + b) == Stripes(Stripes(l, a), b)
    decreases |a|
  {
    hide Stripe;
    if |a| == 0 {
      assert a + b == b;
    } else {
      assert (a + b)[32..] == a[32..] + b && (a + b)[..32] == a[..32];
      StripesSplit(Stripe(l, a[..32]), a[32..], b);
    }
  }

  lemma {:induction false} StripesOfShort(l: Lanes, s: seq<byte>)
    requires |s| < 32
    ensures Stripes(l, s) == l
  {}

  lemma StripesOfOne(l: Lanes, s: seq<byte>)
    requires |s| == 32
    ensures Stripes(l, s) == Stripe(l, s)
  {
    hide Stripe;
    assert s[32..] == [] && s[..32] == s;
  }

  lemma StripesSnoc(l: Lanes, a: seq<byte>, b: seq<byte>)
    requires |a| % 32 == 0 && |b| == 32
    ensures Stripes(l, a + b) == Stripe(Stripes(l, a), b)
  {
    hide Stripe, Stripes;
    StripesSplit(l, a, b);
    StripesOfOne(Stripes(l, a), b);
  }

  lemma WholePart(w: nat, r: nat)
    requires w % 32 == 0 && r < 32
    ensures (w + r) / 32 * 32 == w
  {}

  lemma RemainderIs(whole: seq<byte>, rest: seq<byte>)
    requires |whole| % 32 == 0 && |rest| < 32
    ensures Remainder(whole + rest) == rest
  {
    var s := whole + rest;
    WholePart(|whole|, |rest|);
    assert s[|whole|..] == rest;
  }

  /** Whole stripes and a rest. */
  lemma SplitRest(l: Lanes, whole: seq<byte>, rest: seq<byte>)
    requires |whole| % 32 == 0 && |rest| < 32
    ensures Stripes(l, whole + rest) == Stripes(l, whole) && Remainder(whole + rest) == rest
  {
    StripesSplit(l, whole, rest);
    StripesOfShort(Stripes(l, whole), rest);
    hide Stripe, Stripes, Remainder;
    RemainderIs(whole, rest);
  }

  // ----- the streaming state

  class State {
    var lanes: Lanes
    var total: nat
    var buf: seq<byte>
    const seed: bv64
    ghost var whole: seq<byte>   // the stripes already mixed in
    ghost var data: seq<byte>    // everything hashed so far

    ghost predicate Valid()
      reads this
    {
      && |whole| % 32 == 0 && |buf| < 32 && data == whole + buf && total == |data|
      && lanes == Stripes(StartLanes(seed), whole)
    }

    constructor (seed: bv64)
      ensures Valid() && data == [] && this.seed == seed
    {
      this.seed := seed;
      lanes, total, buf, whole, data := StartLanes(seed), 0, [], [], [];
    }

    /** Mixes in more bytes: fills up the buffered stripe, then whole stripes, then keeps the rest. */
    method Update(more: seq<byte>)
      requires Valid()
      modifies this
      ensures Valid() && data == old(data) + more
    {
      hide Stripes, StartLanes;
      var p := 0;
      if |buf| > 0 {
        var want := 32 - |buf|;
        var take := if |more| < want then |more| else want;
        assert more == more[..take] + more[take..];
        Absorb(more[..take]);
        p := take;
        if |buf| > 0 {
          assert more[take..] == [];
          return;
        }
      }
      MixStripes(more[p..]);
    }

    /** Adds to the buffered stripe; mixes it in when it is complete. */
    method Absorb(part: seq<byte>)
      requires Valid() && |buf| + |part| <= 32
      modifies this
      ensures Valid() && data == old(data) + part
      ensures |old(buf)| + |part| == 32 ==> buf == []
      ensures |old(buf)| + |part| < 32 ==> |buf| == |old(buf)| + |part|
    {
      hide Stripe, Stripes, StartLanes;
      total := total + |part|;
      data := data + part;
      buf := buf + part;
      assert data == whole + buf;
      if |buf| == 32 {
        StripesSnoc(StartLanes(seed), whole, buf);
        lanes := Stripe(lanes, buf);
        whole := whole + buf;
        buf := [];
      }
    }

    /** Whole stripes straight from the input, then the rest into the empty buffer. */
    method MixStripes(more: seq<byte>)
      requires Valid() && buf == []
      modifies this
      ensures Valid() && data == old(data) + more
    {
      hide Stripes, StartLanes;
      var p := 0;
      while |more| - p >= 32
        invariant 0 <= p <= |more| && Valid() && buf == []
        invariant data == old(data) + more[..p]
      {
        assert more[..p + 32] == more[..p] + more[p..p + 32];
        Absorb(more[p..p + 32]);
        p := p + 32;
      }
      assert more == more[..p] + more[p..];
      Absorb(more[p..]);
    }

    /** The value so far is the one-shot hash of everything hashed so far. */
    method Final() returns (h: bv64)
      requires Valid()
      ensures h == Hash(data, seed)
    {
      SplitRest(StartLanes(seed), whole, buf);
      hide Stripes, Merge, Tail, Avalanche, StartLanes;
      h := Finish(total, lanes, seed, buf);
    }
  }

  /** Hashing chunk after chunk, whatever the chunks. */
  method HashChunks(chunks: seq<seq<byte>>, seed: bv64) returns (h: bv64)
    ensures h == Hash(Concat(chunks), seed)
  {
    var s := new State(seed);
    var i := 0;
    while i < |chunks|
      invariant 0 <= i <= |chunks| && s.Valid() && s.seed == seed && fresh(s)
      invariant s.data == Concat(chunks[..i])
    {
      s.Update(chunks[i]);
      ConcatSnoc(chunks, i);
      i := i + 1;
    }
    assert chunks[..i] == chunks;
    h := s.Final();
  }

  function Concat(chunks: seq<seq<byte>>): seq<byte> {
    if chunks == [] then [] else Concat(chunks[..|chunks| - 1]) + chunks[|chunks| - 1]
  }

  lemma ConcatSnoc(chunks: seq<seq<byte>>, i: nat)
    requires i < |chunks|
    ensures Concat(chunks[..i + 1]) == Concat(chunks[..i]) + chunks[i]
  {
    assert chunks[..i + 1][..i] == chunks[..i];
  }
}
