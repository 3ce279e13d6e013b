/** What the LZB matcher computes: hash chains as values, the bounded search with its shared
    dictionary, lazy evaluation, and the list of sequences a block is cut into
    (src/codec/xq_codec_lzb.c:29-50, 81-111, 161-219, 281-317). */
module LzbParse {
  import opened Bytes
  import opened LzbStream

  const HLOG_MIN := 12
  const HLOG_MAX := 22
  const BLOCK_SIZE_MAX := 0x1000_0000

  function HashMul(v: uint32): uint32 {
    (v as int * 2654435761) % 0x1_0000_0000
  }

  /** `(v * 2654435761u) >> (32 - hlog)`. */
  function Hash4(v: uint32, hlog: nat): (h: nat)
    requires hlog <= 32
    ensures h < Pow2(hlog)
  {
    HashInRange(HashMul(v), hlog);
    HashMul(v) as int / Pow2(32 - hlog)
  }

  lemma HashInRange(x: nat, hlog: nat)
    requires hlog <= 32 && x < 0x1_0000_0000
    ensures 0 <= x / Pow2(32 - hlog) < Pow2(hlog)
  {
    Pow2Values();
    Pow2Add(32 - hlog, hlog);
    DivBelow(x, Pow2(32 - hlog), Pow2(hlog));
  }

  lemma DivBelow(x: nat, d: nat, e: nat)
    requires d > 0 && x < d * e
    ensures 0 <= x / d < e
  {
    var q := x / d;
    assert d * q <= x;
    if e <= q {
      MulMonotone(d, e, q);
    }
  }

  function DepthFor(level: int): nat {
    if level <= 1 then 4
    else if level <= 3 then 8
    else if level <= 5 then 16
    else if level <= 7 then 32
    else if level <= 9 then 64
    else 128
  }

  function HlogFrom(h: nat, n: nat): (r: nat)
    requires HLOG_MIN <= h <= HLOG_MAX
    ensures h <= r <= HLOG_MAX
    decreases HLOG_MAX - h
  {
    if h < HLOG_MAX && Pow2(h) < n then HlogFrom(h + 1, n) else h
  }

  function HlogFor(n: nat): (r: nat)
    ensures HLOG_MIN <= r <= HLOG_MAX
  {
    HlogFrom(HLOG_MIN, n)
  }

  // ----- hash chains

  /** `head[h]` and `chain[p]` hold a position plus one, or 0; a missing head is 0. Only cells written
      since the table was cleared are in the maps. */
  datatype Chains = Chains(head: map<nat, nat>, chain: map<nat, nat>)

  const EMPTY := Chains(map[], map[])

  function Head(c: Chains, h: nat): nat {
    if h in c.head then c.head[h] else 0
  }

  function Next(c: Chains, p: nat): nat {
    if p in c.chain then c.chain[p] else 0
  }

  function Insert(c: Chains, data: seq<byte>, hlog: nat, p: nat): Chains
    requires p + MIN_MATCH <= |data| && hlog <= 32
  {
    var h := Hash4(Ld32(data, p), hlog);
    Chains(c.head[h := p + 1], c.chain[p := Head(c, h)])
  }

  /** Inserts `from, from + 1, ...` below `to`, as far as four bytes remain. */
  function InsertRange(c: Chains, data: seq<byte>, hlog: nat, from: nat, to: nat): Chains
    requires hlog <= 32
    decreases |data| - from
  {
    if from < to && from + MIN_MATCH <= |data| then InsertRange(Insert(c, data, hlog, from), data, hlog, from + 1, to) else c
  }

  predicate Link(c: Chains, n: nat, cell: nat) {
    cell == 0 || (cell <= n && cell - 1 in c.chain)
  }

  ghost predicate CellLink(c: Chains, n: nat, p: nat)
    requires p in c.chain
  {
    p < n && Link(c, n, c.chain[p]) && c.chain[p] <= p + 1
  }

  ghost predicate HeadLink(c: Chains, n: nat, h: nat) {
    Link(c, n, Head(c, h))
  }

  /** Every cell that can be followed leads to a cell written since the clearing, below `n`; and
      no link leads past its own position (a cell may lead to itself). */
  ghost predicate Closed(c: Chains, n: nat) {
    && (forall h {:trigger HeadLink(c, n, h)} :: HeadLink(c, n, h))
    && (forall p {:trigger CellLink(c, n, p)} :: p in c.chain ==> CellLink(c, n, p))
  }

  lemma EmptyClosed(n: nat)
    ensures Closed(EMPTY, n)
  {}

  lemma NextLinks(c: Chains, n: nat, p: nat)
    requires Closed(c, n)
    ensures Link(c, n, Next(c, p))
  {
    assert p in c.chain ==> CellLink(c, n, p);
  }

  lemma HeadLinks(c: Chains, n: nat, h: nat)
    requires Closed(c, n)
    ensures Link(c, n, Head(c, h))
  {
    assert HeadLink(c, n, h);
  }

  /** Inserting a position keeps the chains closed, also when it was the last one inserted: then its
      cell leads to itself. */
  lemma InsertClosed(c: Chains, data: seq<byte>, hlog: nat, p: nat)
    requires p + MIN_MATCH <= |data| && hlog <= 32
    requires Closed(c, p) || Closed(c, p + 1)
    ensures Closed(Insert(c, data, hlog, p), p + 1)
  {
    hide Hash4, Ld32;
    var c' := Insert(c, data, hlog, p);
    var n, n' := if Closed(c, p) then p else p + 1, p + 1;
    assert Closed(c, n);
    forall h
      ensures HeadLink(c', n', h)
    {
      assert HeadLink(c, n, h);
    }
    forall q | q in c'.chain
      ensures CellLink(c', n', q)
    {
      if q == p {
        assert HeadLink(c, n, Hash4(Ld32(data, p), hlog));
      } else {
        assert CellLink(c, n, q);
      }
    }
  }

  lemma ClosedMonotone(c: Chains, n: nat, m: nat)
    requires Closed(c, n) && n <= m
    ensures Closed(c, m)
  {
    forall h
      ensures HeadLink(c, m, h)
    {
      assert HeadLink(c, n, h);
    }
    forall q | q in c.chain
      ensures CellLink(c, m, q)
    {
      assert CellLink(c, n, q);
    }
  }

  lemma {:induction false} InsertRangeClosed(c: Chains, data: seq<byte>, hlog: nat, from: nat, to: nat)
    requires hlog <= 32 && from <= to
    requires Closed(c, from) || Closed(c, from + 1)
    ensures Closed(InsertRange(c, data, hlog, from, to), Max(to, from + 1))
    decreases |data| - from
  {
    if from < to && from + MIN_MATCH <= |data| {
      InsertClosed(c, data, hlog, from);
      InsertRangeClosed(Insert(c, data, hlog, from), data, hlog, from + 1, to);
      var r := InsertRange(c, data, hlog, from, to);
      if to == from + 1 {
        assert r == Insert(c, data, hlog, from);
      }
    } else if Closed(c, from) {
      ClosedMonotone(c, from, Max(to, from + 1));
    } else {
      ClosedMonotone(c, from + 1, Max(to, from + 1));
    }
  }

  // ----- match search

  /** Length of the longest common prefix of `a[p..]` and `b[q..]`, at most `limit`. */
  function MatchLen(a: seq<byte>, p: nat, b: seq<byte>, q: nat, limit: nat): (m: nat)
    requires p + limit <= |a| && q + limit <= |b|
    ensures m <= limit
    decreases limit
  {
    if limit == 0 || a[p] != b[q] then 0 else 1 + MatchLen(a, p + 1, b, q + 1, limit - 1)
  }

  predicate Agree(a: seq<byte>, p: nat, b: seq<byte>, q: nat, m: nat)
    requires p + m <= |a| && q + m <= |b|
  {
    forall k :: p <= k < p + m ==> a[k] == b[q + k - p]
  }

  /** It is the one length at which agreement ends or the limit is reached. */
  lemma {:induction false} MatchLenMeans(a: seq<byte>, p: nat, b: seq<byte>, q: nat, limit: nat, m: nat)
    requires p + limit <= |a| && q + limit <= |b| && m <= limit
    ensures m == MatchLen(a, p, b, q, limit) <==> Agree(a, p, b, q, m) && (m < limit ==> a[p + m] != b[q + m])
    decreases limit
  {
    if limit > 0 && a[p] == b[q] {
      if m > 0 {
        MatchLenMeans(a, p + 1, b, q + 1, limit - 1, m - 1);
        assert Agree(a, p, b, q, m) <==> Agree(a, p + 1, b, q + 1, m - 1);
      }
    }
  }

  /** A candidate match; length 0 means none. */
  datatype Match = Match(len: nat, dist: nat)

  const NO_MATCH := Match(0, 0)

  function Better(best: Match, m: Match): Match {
    if m.len > best.len then m else best
  }

  function BlockCandidate(src: seq<byte>, pos: nat, limit: nat, p: nat): Match
    requires p < pos && pos + limit <= |src|
  {
    Match(MatchLen(src, p, src, pos, limit), pos - p)
  }

  /** A dictionary match never runs into the block. */
  function DictCandidate(src: seq<byte>, dict: seq<byte>, pos: nat, limit: nat, p: nat): Match
    requires p < |dict| && pos + limit <= |src|
  {
    Match(MatchLen(dict, p, src, pos, Min(|dict| - p, limit)), pos + (|dict| - p))
  }

  /** The block's own chain from `cand` on, `tries` cells at most. */
  function SearchBlock(src: seq<byte>, c: Chains, pos: nat, limit: nat, cand: nat, tries: nat, best: Match): Match
    requires pos + limit <= |src|
    decreases tries
  {
    if cand == 0 || tries == 0 || cand - 1 >= pos then best
    else
      var m := BlockCandidate(src, pos, limit, cand - 1);
      if m.len > best.len && m.len == limit then m
      else SearchBlock(src, c, pos, limit, Next(c, cand - 1), tries - 1, Better(best, m))
  }

  /** The dictionary's chain. Its cells never lead past the dictionary (DictChainsClosed), so the
      test of `cand` against its length only makes the function total. */
  function SearchDict(src: seq<byte>, dict: seq<byte>, d: Chains, pos: nat, limit: nat, cand: nat, tries: nat, best: Match): Match
    requires pos + limit <= |src|
    decreases tries
  {
    if cand == 0 || tries == 0 || cand > |dict| then best
    else
      var m := DictCandidate(src, dict, pos, limit, cand - 1);
      if m.len > best.len && m.len == limit then m
      else SearchDict(src, dict, d, pos, limit, Next(d, cand - 1), tries - 1, Better(best, m))
  }

  function DictChains(dict: seq<byte>): (d: Chains) {
    InsertRange(EMPTY, dict, HlogFor(|dict|), 0, |dict|)
  }

  lemma DictChainsClosed(dict: seq<byte>)
    ensures Closed(DictChains(dict), |dict|)
  {
    assert Closed(EMPTY, 0);
    if |dict| > 0 {
      InsertRangeClosed(EMPTY, dict, HlogFor(|dict|), 0, |dict|);
    }
  }

  function Limit(src: seq<byte>, pos: nat): nat
    requires pos <= |src|
  {
    Min(|src| - pos, 65535)
  }

  function BlockMatch(src: seq<byte>, depth: nat, c: Chains, pos: nat): Match
    requires pos + MIN_MATCH <= |src|
  {
    SearchBlock(src, c, pos, Limit(src, pos), Head(c, Hash4(Ld32(src, pos), HlogFor(|src|))), depth, NO_MATCH)
  }

  /** The longest candidate of both chains, or NO_MATCH when it is shorter than four bytes. An absent
      dictionary is `[]`. */
  function FindMatch(src: seq<byte>, dict: seq<byte>, depth: nat, c: Chains, pos: nat): Match
    requires pos <= |src|
  {
    if |src| - pos < MIN_MATCH then NO_MATCH
    else
      var limit := Limit(src, pos);
      var b := BlockMatch(src, depth, c, pos);
      var best :=
        if |dict| >= MIN_MATCH && b.len < limit then
          SearchDict(src, dict, DictChains(dict), pos, limit,
                     Head(DictChains(dict), Hash4(Ld32(src, pos), HlogFor(|dict|))), depth, b)
        else b;
      if best.len < MIN_MATCH then NO_MATCH else best
  }

  /** Byte `k` of the virtual buffer dict ++ src. */
  function At(dict: seq<byte>, src: seq<byte>, k: nat): byte
    requires k < |dict| + |src|
  {
    if k < |dict| then dict[k] else src[k - |dict|]
  }

  /** The byte `dist` before byte `k`. */
  function Earlier(dict: seq<byte>, src: seq<byte>, k: nat, dist: nat): byte
    requires k < |dict| + |src| && dist <= k
  {
    At(dict, src, k - dist)
  }

  /** The bytes a match promises: `m.len` bytes from `pos` repeat those `m.dist` earlier in dict ++ src. */
  ghost predicate Repeats(src: seq<byte>, dict: seq<byte>, pos: nat, m: Match) {
    && pos + m.len <= |src|
    && 1 <= m.dist <= |dict| + pos
    && forall k {:trigger Earlier(dict, src, k, m.dist)} ::
         |dict| + pos <= k < |dict| + pos + m.len ==> At(dict, src, k) == Earlier(dict, src, k, m.dist)
  }

  ghost predicate Sound(src: seq<byte>, dict: seq<byte>, pos: nat, m: Match) {
    m.len > 0 ==> Repeats(src, dict, pos, m)
  }

  lemma BlockRepeats(src: seq<byte>, dict: seq<byte>, pos: nat, limit: nat, p: nat)
    requires p < pos && pos + limit <= |src|
    ensures Sound(src, dict, pos, BlockCandidate(src, pos, limit, p))
  {
    var m := MatchLen(src, p, src, pos, limit);
    MatchLenMeans(src, p, src, pos, limit, m);
    forall k | |dict| + pos <= k < |dict| + pos + m
      ensures At(dict, src, k) == Earlier(dict, src, k, pos - p)
    {
      assert src[k - |dict| - pos + p] == src[k - |dict|];
    }
  }

  lemma DictRepeats(src: seq<byte>, dict: seq<byte>, pos: nat, limit: nat, p: nat)
    requires p < |dict| && pos + limit <= |src|
    ensures Sound(src, dict, pos, DictCandidate(src, dict, pos, limit, p))
  {
    var m := MatchLen(dict, p, src, pos, Min(|dict| - p, limit));
    MatchLenMeans(dict, p, src, pos, Min(|dict| - p, limit), m);
    forall k | |dict| + pos <= k < |dict| + pos + m
      ensures At(dict, src, k) == Earlier(dict, src, k, pos + (|dict| - p))
    {
      assert dict[k - |dict| - pos + p] == src[k - |dict|];
    }
  }

  lemma {:induction false} SearchBlockSound(src: seq<byte>, dict: seq<byte>, c: Chains, pos: nat, limit: nat, cand: nat, tries: nat, best: Match)
    requires pos + limit <= |src| && Sound(src, dict, pos, best)
    ensures Sound(src, dict, pos, SearchBlock(src, c, pos, limit, cand, tries, best))
    decreases tries
  {
    if !(cand == 0 || tries == 0 || cand - 1 >= pos) {
      BlockRepeats(src, dict, pos, limit, cand - 1);
      var m := BlockCandidate(src, pos, limit, cand - 1);
      SearchBlockSound(src, dict, c, pos, limit, Next(c, cand - 1), tries - 1, Better(best, m));
    }
  }

  lemma {:induction false} SearchDictSound(src: seq<byte>, dict: seq<byte>, d: Chains, pos: nat, limit: nat, cand: nat, tries: nat, best: Match)
    requires pos + limit <= |src| && Sound(src, dict, pos, best)
    ensures Sound(src, dict, pos, SearchDict(src, dict, d, pos, limit, cand, tries, best))
    decreases tries
  {
    if !(cand == 0 || tries == 0 || cand > |dict|) {
      DictRepeats(src, dict, pos, limit, cand - 1);
      var m := DictCandidate(src, dict, pos, limit, cand - 1);
      SearchDictSound(src, dict, d, pos, limit, Next(d, cand - 1), tries - 1, Better(best, m));
    }
  }

  /** Whatever the chains hold, a reported match is real. */
  lemma FindMatchSound(src: seq<byte>, dict: seq<byte>, depth: nat, c: Chains, pos: nat)
    requires pos <= |src|
    ensures var m := FindMatch(src, dict, depth, c, pos);
            m == NO_MATCH || (m.len >= MIN_MATCH && Repeats(src, dict, pos, m))
  {
    if |src| - pos >= MIN_MATCH {
      var limit := Limit(src, pos);
      SearchBlockSound(src, dict, c, pos, limit, Head(c, Hash4(Ld32(src, pos), HlogFor(|src|))), depth, NO_MATCH);
      var b := BlockMatch(src, depth, c, pos);
      if |dict| >= MIN_MATCH && b.len < limit {
        SearchDictSound(src, dict, DictChains(dict), pos, limit,
                        Head(DictChains(dict), Hash4(Ld32(src, pos), HlogFor(|dict|))), depth, b);
      }
    }
  }

  // ----- cutting a block into sequences

  /** A match as emitted: where it starts, and the chains at that moment. */
  datatype Choice = Choice(pos: nat, m: Match, c: Chains)

  /** Lazy evaluation: take the match at the next position when it is more than one byte longer. */
  function Choose(src: seq<byte>, dict: seq<byte>, depth: nat, c: Chains, pos: nat): (r: Choice)
    requires pos + MIN_MATCH <= |src|
    ensures pos <= r.pos <= pos + 1
  {
    var m := FindMatch(src, dict, depth, c, pos);
    if pos + 1 + MIN_MATCH <= |src| then
      var c1 := Insert(c, src, HlogFor(|src|), pos);
      var m2 := FindMatch(src, dict, depth, c1, pos + 1);
      if m2.len > m.len + 1 then Choice(pos + 1, m2, c1) else Choice(pos, m, c1)
    else Choice(pos, m, c)
  }

  lemma ChooseSound(src: seq<byte>, dict: seq<byte>, depth: nat, c: Chains, pos: nat)
    requires pos + MIN_MATCH <= |src| && FindMatch(src, dict, depth, c, pos) != NO_MATCH
    ensures var r := Choose(src, dict, depth, c, pos);
            r.m.len >= MIN_MATCH && Repeats(src, dict, r.pos, r.m)
  {
    FindMatchSound(src, dict, depth, c, pos);
    if pos + 1 + MIN_MATCH <= |src| {
      FindMatchSound(src, dict, depth, Insert(c, src, HlogFor(|src|), pos), pos + 1);
    }
  }

  function Parse(src: seq<byte>, dict: seq<byte>, depth: nat, c: Chains, anchor: nat, pos: nat): (r: seq<Sequence>)
    requires anchor <= pos <= |src|
    decreases |src| - pos
  {
    if pos + MIN_MATCH > |src| then [Sequence(src[anchor..], 0, 0)]
    else if FindMatch(src, dict, depth, c, pos) == NO_MATCH then
      Parse(src, dict, depth, Insert(c, src, HlogFor(|src|), pos), anchor, pos + 1)
    else
      ChooseSound(src, dict, depth, c, pos);
      var r := Choose(src, dict, depth, c, pos);
      var end := r.pos + r.m.len;
      [Sequence(src[anchor..r.pos], r.m.dist, r.m.len)]
      + Parse(src, dict, depth, InsertRange(r.c, src, HlogFor(|src|), r.pos, end), end, end)
  }

  function ParseBlock(src: seq<byte>, dict: seq<byte>, level: int): seq<Sequence> {
    Parse(src, dict, DepthFor(level), EMPTY, 0, 0)
  }

  /** The bytes LZB makes of a block; nothing for nothing. */
  function LzbBytes(src: seq<byte>, dict: seq<byte>, level: int): seq<byte> {
    if src == [] then [] else Serialize(ParseBlock(src, dict, level))
  }

  // ----- expanding the cut gives the block back

  lemma {:induction false} CopyRepeats(src: seq<byte>, dict: seq<byte>, pos: nat, m: Match, k: nat)
    requires k <= m.len && Repeats(src, dict, pos, m)
    ensures Copy(dict, src[..pos + k], m.dist, m.len - k) == src[..pos + m.len]
    decreases m.len - k
  {
    if k < m.len {
      assert At(dict, src, |dict| + pos + k) == src[pos + k];
      assert Back(dict, src[..pos + k], m.dist) == Earlier(dict, src, |dict| + pos + k, m.dist);
      assert src[..pos + k] + [src[pos + k]] == src[..pos + k + 1];
      CopyRepeats(src, dict, pos, m, k + 1);
    }
  }

  lemma RepeatsFits(src: seq<byte>, dict: seq<byte>, pos: nat, m: Match)
    requires Repeats(src, dict, pos, m)
    ensures pos + m.len <= |src| && 1 <= m.dist <= |dict| + pos
  {}

  lemma ExpandCons(s: Sequence, rest: seq<Sequence>, dict: seq<byte>, out: seq<byte>, out': seq<byte>)
    requires out + s.lits == out' && s.mlen >= MIN_MATCH && 1 <= s.dist <= |dict| + |out'|
    requires Applicable(rest, |dict|, |out'| + s.mlen)
    ensures Applicable([s] + rest, |dict|, |out|) && Expand([s] + rest, dict, out) == Expand(rest, dict, Copy(dict, out', s.dist, s.mlen))
  {
    hide Copy;
    assert ([s] + rest)[1..] == rest;
  }

  lemma ExpandMatch(src: seq<byte>, dict: seq<byte>, anchor: nat, pos: nat, m: Match, rest: seq<Sequence>)
    requires anchor <= pos && m.len >= MIN_MATCH && Repeats(src, dict, pos, m)
    requires Applicable(rest, |dict|, pos + m.len)
    requires Expand(rest, dict, src[..pos + m.len]) == src
    ensures var all := [Sequence(src[anchor..pos], m.dist, m.len)] + rest;
            Applicable(all, |dict|, anchor) && Expand(all, dict, src[..anchor]) == src
  {
    hide *;
    RepeatsFits(src, dict, pos, m);
    assert src[..anchor] + src[anchor..pos] == src[..pos];
    CopyRepeats(src, dict, pos, m, 0);
    assert pos + 0 == pos && m.len - 0 == m.len;
    ExpandCons(Sequence(src[anchor..pos], m.dist, m.len), rest, dict, src[..anchor], src[..pos]);
  }

  lemma ParseMatchStep(src: seq<byte>, dict: seq<byte>, depth: nat, c: Chains, anchor: nat, pos: nat)
    requires anchor <= pos && pos + MIN_MATCH <= |src|
    requires FindMatch(src, dict, depth, c, pos) != NO_MATCH
    ensures var r := Choose(src, dict, depth, c, pos);
            var end := r.pos + r.m.len;
            pos < end <= |src| && r.m.len >= MIN_MATCH && Repeats(src, dict, r.pos, r.m)
            && Parse(src, dict, depth, c, anchor, pos)
               == [Sequence(src[anchor..r.pos], r.m.dist, r.m.len)]
                  + Parse(src, dict, depth, InsertRange(r.c, src, HlogFor(|src|), r.pos, end), end, end)
  {
    hide FindMatch, Choose, InsertRange, HlogFor;
    ChooseSound(src, dict, depth, c, pos);
  }

  lemma {:induction false} ParseExpands(src: seq<byte>, dict: seq<byte>, depth: nat, c: Chains, anchor: nat, pos: nat)
    requires anchor <= pos <= |src|
    ensures Applicable(Parse(src, dict, depth, c, anchor, pos), |dict|, anchor)
    ensures Expand(Parse(src, dict, depth, c, anchor, pos), dict, src[..anchor]) == src
    decreases |src| - pos
  {
    hide FindMatch, Choose, Insert, InsertRange, HlogFor;
    if pos + MIN_MATCH > |src| {
      assert src[..anchor] + src[anchor..] == src;
    } else if FindMatch(src, dict, depth, c, pos) == NO_MATCH {
      ParseExpands(src, dict, depth, Insert(c, src, HlogFor(|src|), pos), anchor, pos + 1);
    } else {
      ParseMatchStep(src, dict, depth, c, anchor, pos);
      var r := Choose(src, dict, depth, c, pos);
      var end := r.pos + r.m.len;
      var c' := InsertRange(r.c, src, HlogFor(|src|), r.pos, end);
      ParseExpands(src, dict, depth, c', end, end);
      ExpandMatch(src, dict, anchor, r.pos, r.m, Parse(src, dict, depth, c', end, end));
    }
  }

  /** LZB round trip: decoding what the matcher emits, with the same dictionary and room for the
      block, gives the block. Bytes appended to the stream change nothing. */
  lemma LzbRoundTrip(src: seq<byte>, dict: seq<byte>, level: int, cap: nat, tail: seq<byte>)
    requires |src| <= cap && cap + |dict| < U64_LIMIT
    requires src == [] ==> tail == []
    ensures Decode(LzbBytes(src, dict, level) + tail, dict, cap) == Success(src)
  {
    if src != [] {
      ParseExpands(src, dict, DepthFor(level), EMPTY, 0, 0);
      var bytes := LzbBytes(src, dict, level);
      assert (bytes + tail)[0..0 + |bytes|] == bytes;
      assert src[..0] == [];
      DecodeSerialize(ParseBlock(src, dict, level), bytes + tail, 0, dict, cap, []);
    }
  }
}
