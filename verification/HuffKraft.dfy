/** What the loader's arithmetic test decides: a table is accepted exactly when codewords of its
    lengths exist that are prefix-free and start every bit string (src/common/xq_huff.c:164-195). */
module HuffKraft {
  import opened Bytes
  import opened HuffTree
  import opened HuffCode
  import opened HuffLens
  import opened HuffStream

  /** Codewords of the given lengths, none a prefix of another, one of which every string of
      `m` bits starts with. Symbols of length 0 have no codeword. */
  ghost predicate CompleteCode(lens: seq<nat>, codes: seq<Bits>, m: nat) {
    && |codes| == |lens|
    && (forall i :: 0 <= i < |codes| ==> |codes[i]| == lens[i])
    && (forall i, j :: 0 <= i < |codes| && 0 <= j < |codes| && i != j && lens[i] > 0 && lens[j] > 0 ==> !(codes[i] <= codes[j]))
    && (forall b: Bits :: |b| == m ==> Starts(codes, b))
  }

  ghost predicate Starts(codes: seq<Bits>, b: Bits) {
    exists i :: 0 <= i < |codes| && codes[i] != [] && codes[i] <= b
  }

  // ----- counting strings

  /** All strings of `m` bits that start with `p`. */
  function Ext(p: Bits, m: nat): set<Bits>
    requires |p| <= m
    decreases m - |p|
  {
    if |p| == m then {p} else Ext(p + [false], m) + Ext(p + [true], m)
  }

  lemma {:induction false} ExtMeans(p: Bits, m: nat, b: Bits)
    requires |p| <= m
    ensures b in Ext(p, m) <==> |b| == m && p <= b
    decreases m - |p|
  {
    if |p| < m {
      ExtMeans(p + [false], m, b);
      ExtMeans(p + [true], m, b);
      OneMore(p, b);
    } else if |b| == m && p <= b {
      assert b == p;
    }
  }

  lemma OneMore(p: Bits, b: Bits)
    ensures p + [false] <= b || p + [true] <= b <==> p <= b && |p| < |b|
  {
    if p <= b && |p| < |b| {
      assert b[..|p| + 1] == p + [b[|p|]];
      if b[|p|] {
        assert p + [true] <= b;
      } else {
        assert p + [false] <= b;
      }
    }
    if p + [false] <= b {
      assert b[..|p|] == (p + [false])[..|p|] == p;
    }
    if p + [true] <= b {
      assert b[..|p|] == (p + [true])[..|p|] == p;
    }
  }

  lemma {:induction false} ExtSize(p: Bits, m: nat)
    requires |p| <= m
    ensures |Ext(p, m)| == Pow2(m - |p|)
    decreases m - |p|
  {
    if |p| < m {
      ExtSize(p + [false], m);
      ExtSize(p + [true], m);
      assert (p + [false])[|p|] != (p + [true])[|p|];
      ExtApart(p + [false], p + [true], m);
    }
  }

  lemma ExtApart(p: Bits, q: Bits, m: nat)
    requires |p| <= m && |q| <= m && !(p <= q) && !(q <= p)
    ensures Ext(p, m) !! Ext(q, m)
  {
    forall b | b in Ext(p, m) && b in Ext(q, m)
      ensures false
    {
      ExtMeans(p, m, b);
      ExtMeans(q, m, b);
      PrefixesNest(p, q, b);
    }
  }

  /** The strings that start with one of the first `n` codewords. */
  function Started(codes: seq<Bits>, n: nat, m: nat): set<Bits>
    requires n <= |codes| && forall i :: 0 <= i < |codes| ==> |codes[i]| <= m
  {
    if n == 0 then {} else Started(codes, n - 1, m) + if codes[n - 1] == [] then {} else Ext(codes[n - 1], m)
  }

  lemma {:induction false} StartedMeans(codes: seq<Bits>, n: nat, m: nat, b: Bits)
    requires n <= |codes| && forall i :: 0 <= i < |codes| ==> |codes[i]| <= m
    ensures b in Started(codes, n, m) <==> |b| == m && exists i :: 0 <= i < n && codes[i] != [] && codes[i] <= b
  {
    if n > 0 {
      StartedMeans(codes, n - 1, m, b);
      ExtMeans(codes[n - 1], m, b);
    }
  }

  lemma {:induction false} CountOfPrefix(lens: seq<nat>, n: nat, b: nat)
    requires 0 < n <= |lens|
    ensures Count(lens[..n], b) == Count(lens[..n - 1], b) + if lens[n - 1] == b && b > 0 then 1 else 0
  {
    assert lens[..n][..n - 1] == lens[..n - 1];
  }

  lemma {:induction false} FilledOfPrefix(lens: seq<nat>, n: nat, m: nat)
    requires 0 < n <= |lens|
    ensures Filled(lens[..n], m) == Filled(lens[..n - 1], m) + if 0 < lens[n - 1] <= m then Pow2(m - lens[n - 1]) else 0
    decreases m
  {
    if m > 0 {
      FilledOfPrefix(lens, n, m - 1);
      CountOfPrefix(lens, n, m);
    }
  }

  lemma {:induction false} EmptyFill(m: nat)
    ensures Filled([], m) == 0
  {
    if m > 0 {
      EmptyFill(m - 1);
    }
  }

  ghost predicate Codewords(lens: seq<nat>, codes: seq<Bits>, m: nat) {
    && |codes| == |lens|
    && (forall i :: 0 <= i < |codes| ==> |codes[i]| == lens[i] && |codes[i]| <= m)
    && (forall i, j :: 0 <= i < |codes| && 0 <= j < |codes| && i != j && lens[i] > 0 && lens[j] > 0 ==> !(codes[i] <= codes[j]))
  }

  /** The fill of a table counts the strings its codewords start. */
  lemma {:induction false} FillCountsStarted(lens: seq<nat>, codes: seq<Bits>, n: nat, m: nat)
    requires Codewords(lens, codes, m) && n <= |codes|
    ensures |Started(codes, n, m)| == Filled(lens[..n], m)
  {
    if n == 0 {
      EmptyFill(m);
      assert lens[..0] == [];
    } else {
      FillCountsStarted(lens, codes, n - 1, m);
      FilledOfPrefix(lens, n, m);
      if codes[n - 1] != [] {
        ExtSize(codes[n - 1], m);
        NewApart(lens, codes, n, m);
      }
    }
  }

  lemma NewApart(lens: seq<nat>, codes: seq<Bits>, n: nat, m: nat)
    requires Codewords(lens, codes, m) && 0 < n <= |codes| && codes[n - 1] != []
    ensures Started(codes, n - 1, m) !! Ext(codes[n - 1], m)
  {
    var before, added := Started(codes, n - 1, m), Ext(codes[n - 1], m);
    forall b | b in before && b in added
      ensures false
    {
      StartedMeans(codes, n - 1, m, b);
      ExtMeans(codes[n - 1], m, b);
      var i :| 0 <= i < n - 1 && codes[i] != [] && codes[i] <= b;
      PrefixesNest(codes[i], codes[n - 1], b);
    }
  }

  /** Whoever assigns the codewords: completeness forces the Kraft equality. */
  lemma CompleteFills(lens: seq<nat>, codes: seq<Bits>, m: nat)
    requires CompleteCode(lens, codes, m) && forall i :: 0 <= i < |lens| ==> lens[i] <= m
    ensures Filled(lens, m) == Pow2(m)
  {
    FillCountsStarted(lens, codes, |codes|, m);
    assert lens[..|codes|] == lens;
    var some, all := Started(codes, |codes|, m), Ext([], m);
    forall b: Bits
      ensures b in some <==> b in all
    {
      StartedMeans(codes, |codes|, m, b);
      ExtMeans([], m, b);
      assert |b| == m ==> Starts(codes, b);
    }
    assert some == all;
    ExtSize([], m);
  }

  function Canonical(lens: seq<nat>): (codes: seq<Bits>)
    ensures |codes| == |lens| && forall i :: 0 <= i < |lens| ==> codes[i] == CodeBits(lens, i) && |codes[i]| == lens[i]
  {
    seq(|lens|, i requires 0 <= i < |lens| => CodeBits(lens, i))
  }

  /** The canonical codewords are such an assignment. */
  lemma CanonicalIsComplete(lens: seq<nat>, m: nat)
    requires Complete(lens, m)
    ensures CompleteCode(lens, Canonical(lens), m)
  {
    var codes := Canonical(lens);
    hide CodeBits, Filled;
    forall i, j | 0 <= i < |codes| && 0 <= j < |codes| && i != j && lens[i] > 0 && lens[j] > 0
      ensures !(codes[i] <= codes[j])
    {
      PrefixFree(lens, i, j, m);
    }
    forall b: Bits | |b| == m
      ensures Starts(codes, b)
    {
      var i := Covered(lens, b, m);
      assert codes[i] <= b;
    }
  }

  ghost predicate Completable(lens: seq<nat>) {
    exists codes: seq<Bits> :: CompleteCode(lens, codes, MaxLen(lens))
  }

  /** Accepted means: the lengths of a complete prefix code, or one symbol of length 1. */
  lemma AcceptedIffCompletable(lens: seq<nat>)
    requires forall i :: 0 <= i < |lens| ==> lens[i] <= MAX_BITS
    ensures Usable(lens) <==> (exists s: nat :: Single(lens, s)) || (MaxLen(lens) > 0 && Completable(lens))
  {
    var m := MaxLen(lens);
    if k: nat :| k <= MAX_BITS && Complete(lens, k) {
      assert k == m;
      CanonicalIsComplete(lens, m);
    }
    if m > 0 && Completable(lens) {
      var codes :| CompleteCode(lens, codes, m);
      CompleteFills(lens, codes, m);
      assert Complete(lens, m);
    }
  }
}
