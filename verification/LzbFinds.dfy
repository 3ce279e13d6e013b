/** What the LZB matcher does not miss: its search yields the longest of the candidates it visits, the head of
    a chain is the last earlier position with the hash, and so no literal repeats the text there
    (src/codec/xq_codec_lzb.c:161-219, 281-317). */
module LzbFinds {
  import opened Bytes
  import opened LzbStream
  import opened LzbParse
  import Varint

  // ----- the search takes the longest candidate

  /** The positions below `n` that a search of `tries` cells from `cand` on comes to, in order. */
  function Visits(c: Chains, n: nat, cand: nat, tries: nat): (ps: seq<nat>)
    ensures |ps| <= tries && forall i :: 0 <= i < |ps| ==> ps[i] < n
    decreases tries
  {
    if cand == 0 || tries == 0 || cand > n then []
    else [cand - 1] + Visits(c, n, Next(c, cand - 1), tries - 1)
  }

  /** `m` is the first of the longest among `best` and the candidates `ms`. */
  ghost predicate FirstLongest(m: Match, best: Match, ms: seq<Match>) {
    && best.len <= m.len
    && (forall i :: 0 <= i < |ms| ==> ms[i].len <= m.len)
    && (m == best || exists i :: 0 <= i < |ms| && m == ms[i] && best.len < m.len && forall j :: 0 <= j < i ==> ms[j].len < m.len)
  }

  function BlockCandidates(src: seq<byte>, pos: nat, limit: nat, ps: seq<nat>): (ms: seq<Match>)
    requires pos + limit <= |src| && forall i :: 0 <= i < |ps| ==> ps[i] < pos
    ensures |ms| == |ps| && forall i :: 0 <= i < |ms| ==> ms[i] == BlockCandidate(src, pos, limit, ps[i])
  {
    if ps == [] then [] else [BlockCandidate(src, pos, limit, ps[0])] + BlockCandidates(src, pos, limit, ps[1..])
  }

  function DictCandidates(src: seq<byte>, dict: seq<byte>, pos: nat, limit: nat, ps: seq<nat>): (ms: seq<Match>)
    requires pos + limit <= |src| && forall i :: 0 <= i < |ps| ==> ps[i] < |dict|
    ensures |ms| == |ps| && forall i :: 0 <= i < |ms| ==> ms[i] == DictCandidate(src, dict, pos, limit, ps[i])
  {
    if ps == [] then [] else [DictCandidate(src, dict, pos, limit, ps[0])] + DictCandidates(src, dict, pos, limit, ps[1..])
  }

  lemma LongestSkips(m: Match, best: Match, x: Match, ms: seq<Match>)
    requires FirstLongest(m, Better(best, x), ms)
    ensures FirstLongest(m, best, [x] + ms)
  {
    var all := [x] + ms;
    forall i | 0 <= i < |all|
      ensures all[i].len <= m.len
    {
      if i > 0 {
        assert all[i] == ms[i - 1];
      }
    }
    if m != best {
      if m == Better(best, x) {
        assert m == all[0];
      } else {
        var i :| 0 <= i < |ms| && m == ms[i] && Better(best, x).len < m.len && forall j :: 0 <= j < i ==> ms[j].len < m.len;
        assert all[i + 1] == m;
        forall j | 0 <= j < i + 1
          ensures all[j].len < m.len
        {
          if j > 0 {
            assert all[j] == ms[j - 1];
          }
        }
      }
    }
  }

  lemma LongestNow(best: Match, x: Match, ms: seq<Match>)
    requires best.len < x.len && forall i :: 0 <= i < |ms| ==> ms[i].len <= x.len
    ensures FirstLongest(x, best, [x] + ms)
  {
    var all := [x] + ms;
    forall i | 0 <= i < |all|
      ensures all[i].len <= x.len
    {
      if i > 0 {
        assert all[i] == ms[i - 1];
      }
    }
    assert x == all[0];
  }

  lemma LongestOfNone(best: Match)
    ensures FirstLongest(best, best, [])
  {}

  lemma BlockCandidatesCons(src: seq<byte>, pos: nat, limit: nat, p: nat, ps: seq<nat>)
    requires pos + limit <= |src| && p < pos && forall i :: 0 <= i < |ps| ==> ps[i] < pos
    ensures forall i :: 0 <= i < |[p] + ps| ==> ([p] + ps)[i] < pos
    ensures BlockCandidates(src, pos, limit, [p] + ps)
            == [BlockCandidate(src, pos, limit, p)] + BlockCandidates(src, pos, limit, ps)
  {
    assert ([p] + ps)[1..] == ps;
  }

  lemma NoBlockCandidates(src: seq<byte>, pos: nat, limit: nat)
    requires pos + limit <= |src|
    ensures BlockCandidates(src, pos, limit, []) == []
  {}

  lemma BlockCandidatesBelow(src: seq<byte>, pos: nat, limit: nat, ps: seq<nat>)
    requires pos + limit <= |src| && forall i :: 0 <= i < |ps| ==> ps[i] < pos
    ensures var ms := BlockCandidates(src, pos, limit, ps); forall i :: 0 <= i < |ms| ==> ms[i].len <= limit
  {}

  lemma {:induction false} SearchBlockLongest(src: seq<byte>, c: Chains, pos: nat, limit: nat, cand: nat, tries: nat, best: Match)
    requires pos + limit <= |src|
    ensures FirstLongest(SearchBlock(src, c, pos, limit, cand, tries, best), best,
                         BlockCandidates(src, pos, limit, Visits(c, pos, cand, tries)))
    decreases tries
  {
    hide FirstLongest, MatchLen, BlockCandidate, BlockCandidates;
    if cand == 0 || tries == 0 || cand - 1 >= pos {
      LongestOfNone(best);
      NoBlockCandidates(src, pos, limit);
    } else {
      var x := BlockCandidate(src, pos, limit, cand - 1);
      var ps := Visits(c, pos, Next(c, cand - 1), tries - 1);
      BlockCandidatesCons(src, pos, limit, cand - 1, ps);
      if x.len > best.len && x.len == limit {
        BlockCandidatesBelow(src, pos, limit, ps);
        LongestNow(best, x, BlockCandidates(src, pos, limit, ps));
      } else {
        SearchBlockLongest(src, c, pos, limit, Next(c, cand - 1), tries - 1, Better(best, x));
        LongestSkips(SearchBlock(src, c, pos, limit, cand, tries, best), best, x, BlockCandidates(src, pos, limit, ps));
      }
    }
  }

  lemma DictCandidatesCons(src: seq<byte>, dict: seq<byte>, pos: nat, limit: nat, p: nat, ps: seq<nat>)
    requires pos + limit <= |src| && p < |dict| && forall i :: 0 <= i < |ps| ==> ps[i] < |dict|
    ensures forall i :: 0 <= i < |[p] + ps| ==> ([p] + ps)[i] < |dict|
    ensures DictCandidates(src, dict, pos, limit, [p] + ps)
            == [DictCandidate(src, dict, pos, limit, p)] + DictCandidates(src, dict, pos, limit, ps)
  {
    assert ([p] + ps)[1..] == ps;
  }

  lemma NoDictCandidates(src: seq<byte>, dict: seq<byte>, pos: nat, limit: nat)
    requires pos + limit <= |src|
    ensures DictCandidates(src, dict, pos, limit, []) == []
  {}

  lemma DictCandidatesBelow(src: seq<byte>, dict: seq<byte>, pos: nat, limit: nat, ps: seq<nat>)
    requires pos + limit <= |src| && forall i :: 0 <= i < |ps| ==> ps[i] < |dict|
    ensures var ms := DictCandidates(src, dict, pos, limit, ps); forall i :: 0 <= i < |ms| ==> ms[i].len <= limit
  {}

  lemma {:induction false} SearchDictLongest(src: seq<byte>, dict: seq<byte>, d: Chains, pos: nat, limit: nat, cand: nat, tries: nat, best: Match)
    requires pos + limit <= |src|
    ensures FirstLongest(SearchDict(src, dict, d, pos, limit, cand, tries, best), best,
                         DictCandidates(src, dict, pos, limit, Visits(d, |dict|, cand, tries)))
    decreases tries
  {
    hide FirstLongest, MatchLen, DictCandidate, DictCandidates;
    if cand == 0 || tries == 0 || cand > |dict| {
      LongestOfNone(best);
      NoDictCandidates(src, dict, pos, limit);
    } else {
      var x := DictCandidate(src, dict, pos, limit, cand - 1);
      var ps := Visits(d, |dict|, Next(d, cand - 1), tries - 1);
      DictCandidatesCons(src, dict, pos, limit, cand - 1, ps);
      if x.len > best.len && x.len == limit {
        DictCandidatesBelow(src, dict, pos, limit, ps);
        LongestNow(best, x, DictCandidates(src, dict, pos, limit, ps));
      } else {
        SearchDictLongest(src, dict, d, pos, limit, Next(d, cand - 1), tries - 1, Better(best, x));
        LongestSkips(SearchDict(src, dict, d, pos, limit, cand, tries, best), best, x, DictCandidates(src, dict, pos, limit, ps));
      }
    }
  }

  /** What the matcher considers at `pos`: the candidates of the block's chain, then those of the dictionary's. */
  function Candidates(src: seq<byte>, dict: seq<byte>, depth: nat, c: Chains, pos: nat): seq<Match>
    requires pos + MIN_MATCH <= |src|
  {
    var limit := Limit(src, pos);
    var d := DictChains(dict);
    BlockCandidates(src, pos, limit, Visits(c, pos, Head(c, Hash4(Ld32(src, pos), HlogFor(|src|))), depth))
    + if |dict| < MIN_MATCH then []
      else DictCandidates(src, dict, pos, limit, Visits(d, |dict|, Head(d, Hash4(Ld32(src, pos), HlogFor(|dict|))), depth))
  }

  lemma LongestJoins(x: Match, b: Match, best: Match, ms: seq<Match>, ns: seq<Match>)
    requires FirstLongest(b, best, ms) && FirstLongest(x, b, ns)
    ensures FirstLongest(x, best, ms + ns)
  {
    var all := ms + ns;
    forall i | 0 <= i < |all|
      ensures all[i].len <= x.len
    {
      if i >= |ms| {
        assert all[i] == ns[i - |ms|];
      }
    }
    if x != b {
      var i :| 0 <= i < |ns| && x == ns[i] && b.len < x.len && forall j :: 0 <= j < i ==> ns[j].len < x.len;
      assert all[|ms| + i] == x;
      forall j | 0 <= j < |ms| + i
        ensures all[j].len < x.len
      {
        if j >= |ms| {
          assert all[j] == ns[j - |ms|];
        }
      }
    } else if b != best {
      var i :| 0 <= i < |ms| && b == ms[i] && best.len < b.len && forall j :: 0 <= j < i ==> ms[j].len < b.len;
      assert all[i] == b;
    }
  }

  lemma LongestStays(b: Match, best: Match, ms: seq<Match>, ns: seq<Match>)
    requires FirstLongest(b, best, ms) && forall i :: 0 <= i < |ns| ==> ns[i].len <= b.len
    ensures FirstLongest(b, best, ms + ns)
  {
    LongestJoins(b, b, best, ms, ns);
  }

  /** The longest over both chains, before anything shorter than four bytes is dropped. */
  function Longest(src: seq<byte>, dict: seq<byte>, depth: nat, c: Chains, pos: nat): Match
    requires pos + MIN_MATCH <= |src|
  {
    var b := BlockMatch(src, depth, c, pos);
    if |dict| >= MIN_MATCH && b.len < Limit(src, pos) then
      SearchDict(src, dict, DictChains(dict), pos, Limit(src, pos),
                 Head(DictChains(dict), Hash4(Ld32(src, pos), HlogFor(|dict|))), depth, b)
    else b
  }

  lemma LongestIs(src: seq<byte>, dict: seq<byte>, depth: nat, c: Chains, pos: nat)
    requires pos + MIN_MATCH <= |src|
    ensures FirstLongest(Longest(src, dict, depth, c, pos), NO_MATCH, Candidates(src, dict, depth, c, pos))
  {
    hide FirstLongest, Visits, BlockCandidates, DictCandidates, SearchBlock, SearchDict, DictChains, Hash4, HlogFor, Ld32;
    var limit := Limit(src, pos);
    var h := Head(c, Hash4(Ld32(src, pos), HlogFor(|src|)));
    var b := BlockMatch(src, depth, c, pos);
    SearchBlockLongest(src, c, pos, limit, h, depth, NO_MATCH);
    var ms := BlockCandidates(src, pos, limit, Visits(c, pos, h, depth));
    if |dict| < MIN_MATCH {
      assert ms + [] == ms;
    } else {
      var d := DictChains(dict);
      var k := Head(d, Hash4(Ld32(src, pos), HlogFor(|dict|)));
      var ns := DictCandidates(src, dict, pos, limit, Visits(d, |dict|, k, depth));
      if b.len < limit {
        SearchDictLongest(src, dict, d, pos, limit, k, depth, b);
        LongestJoins(Longest(src, dict, depth, c, pos), b, NO_MATCH, ms, ns);
      } else {
        DictCandidatesBelow(src, dict, pos, limit, Visits(d, |dict|, k, depth));
        LongestStays(b, NO_MATCH, ms, ns);
      }
    }
  }

  /** The match reported is the first of the longest candidates, and there is none only where every candidate
      is shorter than four bytes. */
  lemma FindMatchLongest(src: seq<byte>, dict: seq<byte>, depth: nat, c: Chains, pos: nat)
    requires pos + MIN_MATCH <= |src|
    ensures var m, ms := FindMatch(src, dict, depth, c, pos), Candidates(src, dict, depth, c, pos);
            if m == NO_MATCH then forall i :: 0 <= i < |ms| ==> ms[i].len < MIN_MATCH
            else MIN_MATCH <= m.len && FirstLongest(m, NO_MATCH, ms)
  {
    LongestIs(src, dict, depth, c, pos);
    assert FindMatch(src, dict, depth, c, pos)
        == if Longest(src, dict, depth, c, pos).len < MIN_MATCH then NO_MATCH else Longest(src, dict, depth, c, pos) by {
      hide BlockMatch, SearchDict, DictChains, Hash4, HlogFor, Ld32;
    }
    hide Candidates, Longest, FindMatch;
  }

  // ----- hash chains over a whole string

  function HashAt(data: seq<byte>, hlog: nat, p: nat): nat
    requires hlog <= 32 && p + 4 <= |data|
  {
    Hash4(Ld32(data, p), hlog)
  }

  /** The last position below `n` with hash `h`, plus one; 0 when there is none. */
  function Last(data: seq<byte>, hlog: nat, n: nat, h: nat): (l: nat)
    requires hlog <= 32 && n + 3 <= |data|
    ensures l <= n
  {
    if n == 0 then 0 else if HashAt(data, hlog, n - 1) == h then n else Last(data, hlog, n - 1, h)
  }

  ghost predicate HeadsLast(c: Chains, data: seq<byte>, hlog: nat, n: nat)
    requires hlog <= 32 && n + 3 <= |data|
  {
    forall h: nat {:trigger Head(c, h)} :: Head(c, h) == Last(data, hlog, n, h)
  }

  ghost predicate CellsLast(c: Chains, data: seq<byte>, hlog: nat, n: nat)
    requires hlog <= 32 && n + 3 <= |data|
  {
    forall p: nat {:trigger Next(c, p)} :: p < n ==> Next(c, p) == Last(data, hlog, p, HashAt(data, hlog, p))
  }

  /** Entering all positions in order: heads lead to last occurrences, cells to the ones before. */
  lemma {:induction false} InsertedLast(c: Chains, data: seq<byte>, hlog: nat, from: nat)
    requires hlog <= 32 && from + 3 <= |data| && HeadsLast(c, data, hlog, from) && CellsLast(c, data, hlog, from)
    ensures var r := InsertRange(c, data, hlog, from, |data|);
            HeadsLast(r, data, hlog, |data| - 3) && CellsLast(r, data, hlog, |data| - 3)
    decreases |data| - from
  {
    if from + MIN_MATCH <= |data| {
      InsertOneLast(c, data, hlog, from);
      hide Insert, HeadsLast, CellsLast;
      InsertedLast(Insert(c, data, hlog, from), data, hlog, from + 1);
    }
  }

  lemma InsertOneLast(c: Chains, data: seq<byte>, hlog: nat, p: nat)
    requires hlog <= 32 && p + 4 <= |data| && HeadsLast(c, data, hlog, p) && CellsLast(c, data, hlog, p)
    ensures var r := Insert(c, data, hlog, p); HeadsLast(r, data, hlog, p + 1) && CellsLast(r, data, hlog, p + 1)
  {
    hide Hash4, Ld32;
    var r := Insert(c, data, hlog, p);
    var h := HashAt(data, hlog, p);
    forall g: nat
      ensures Head(r, g) == Last(data, hlog, p + 1, g)
    {
      assert Head(c, g) == Last(data, hlog, p, g);
    }
    forall q: nat | q < p + 1
      ensures Next(r, q) == Last(data, hlog, q, HashAt(data, hlog, q))
    {
      if q < p {
        assert Next(c, q) == Last(data, hlog, q, HashAt(data, hlog, q));
      } else {
        assert Head(c, h) == Last(data, hlog, p, h);
      }
    }
  }

  lemma {:induction false} LastNone(data: seq<byte>, hlog: nat, n: nat, h: nat)
    requires hlog <= 32 && n + 3 <= |data| && forall q: nat :: q < n ==> HashAt(data, hlog, q) != h
    ensures Last(data, hlog, n, h) == 0
  {
    hide HashAt;
    if n > 0 {
      LastNone(data, hlog, n - 1, h);
    }
  }

  lemma {:induction false} LastOnly(data: seq<byte>, hlog: nat, n: nat, p: nat)
    requires hlog <= 32 && n + 3 <= |data| && p < n
    requires forall q: nat :: q < n && q != p ==> HashAt(data, hlog, q) != HashAt(data, hlog, p)
    ensures Last(data, hlog, n, HashAt(data, hlog, p)) == p + 1
  {
    hide HashAt;
    if n - 1 > p {
      LastOnly(data, hlog, n - 1, p);
    }
  }

  /** With an entry made twice the heads stay right, though the cell of a position entered twice leads to itself. */
  lemma InsertHeadsLast(c: Chains, data: seq<byte>, hlog: nat, p: nat)
    requires hlog <= 32 && p + 4 <= |data| && (HeadsLast(c, data, hlog, p) || HeadsLast(c, data, hlog, p + 1))
    ensures HeadsLast(Insert(c, data, hlog, p), data, hlog, p + 1)
  {
    hide Hash4, Ld32;
    var r := Insert(c, data, hlog, p);
    var n := if HeadsLast(c, data, hlog, p) then p else p + 1;
    forall g: nat
      ensures Head(r, g) == Last(data, hlog, p + 1, g)
    {
      assert Head(c, g) == Last(data, hlog, n, g);
    }
  }

  /** All positions below `n` are entered, as far as four bytes remain. */
  ghost predicate Entered(c: Chains, data: seq<byte>, n: nat)
    requires |data| >= 3
  {
    HeadsLast(c, data, HlogFor(|data|), Min(n, |data| - 3))
  }

  lemma {:induction false} RangeEntered(c: Chains, data: seq<byte>, from: nat, to: nat)
    requires |data| >= 3 && from < to && (Entered(c, data, from) || Entered(c, data, from + 1))
    ensures Entered(InsertRange(c, data, HlogFor(|data|), from, to), data, to)
    decreases |data| - from
  {
    hide HlogFor, HeadsLast, Insert;
    if from + MIN_MATCH <= |data| {
      InsertHeadsLast(c, data, HlogFor(|data|), from);
      if from + 1 < to {
        RangeEntered(Insert(c, data, HlogFor(|data|), from), data, from + 1, to);
      }
    }
  }

  /** The last `k` positions below `n` with hash `h`, newest first. */
  function Occurrences(data: seq<byte>, hlog: nat, n: nat, h: nat, k: nat): seq<nat>
    requires hlog <= 32 && n + 3 <= |data|
    decreases k
  {
    var l := Last(data, hlog, n, h);
    if l == 0 || k == 0 then [] else [l - 1] + Occurrences(data, hlog, l - 1, h, k - 1)
  }

  lemma {:induction false} VisitsOccurrences(c: Chains, data: seq<byte>, hlog: nat, top: nat, n: nat, h: nat, k: nat)
    requires hlog <= 32 && n <= top && top + 3 <= |data| && CellsLast(c, data, hlog, top)
    ensures Visits(c, |data|, Last(data, hlog, n, h), k) == Occurrences(data, hlog, n, h, k)
    decreases k
  {
    hide HashAt;
    var l := Last(data, hlog, n, h);
    LastIs(data, hlog, n, h);
    if l > 0 && k > 0 {
      assert Next(c, l - 1) == Last(data, hlog, l - 1, h);
      VisitsOccurrences(c, data, hlog, top, l - 1, h, k - 1);
    }
  }

  /** What `Last` means. */
  lemma {:induction false} LastIs(data: seq<byte>, hlog: nat, n: nat, h: nat)
    requires hlog <= 32 && n + 3 <= |data|
    ensures var l := Last(data, hlog, n, h);
            (l > 0 ==> HashAt(data, hlog, l - 1) == h) && forall q: nat :: l <= q < n ==> HashAt(data, hlog, q) != h
  {
    hide HashAt;
    if n > 0 {
      LastIs(data, hlog, n - 1, h);
    }
  }

  lemma NothingEntered(data: seq<byte>, hlog: nat)
    requires hlog <= 32 && |data| >= 3
    ensures HeadsLast(EMPTY, data, hlog, 0) && CellsLast(EMPTY, data, hlog, 0)
  {}

  /** The dictionary's chains lead through all its positions with the hash looked for, newest first. */
  lemma DictVisits(dict: seq<byte>, h: nat, depth: nat)
    requires |dict| >= MIN_MATCH
    ensures Visits(DictChains(dict), |dict|, Head(DictChains(dict), h), depth)
            == Occurrences(dict, HlogFor(|dict|), |dict| - 3, h, depth)
  {
    var hlog := HlogFor(|dict|);
    hide HlogFor;
    var d, n := DictChains(dict), |dict| - 3;
    NothingEntered(dict, hlog);
    InsertedLast(EMPTY, dict, hlog, 0);
    assert HeadsLast(d, dict, hlog, n) && CellsLast(d, dict, hlog, n) by {
      hide InsertRange, HeadsLast, CellsLast;
    }
    hide DictChains, InsertRange, Visits, Occurrences, CellsLast, Last;
    assert Head(d, h) == Last(dict, hlog, n, h);
    VisitsOccurrences(d, dict, hlog, n, n, h, depth);
  }

  // ----- what no literal repeats

  /** The last earlier position with the hash at `q`, plus one. */
  function Before(src: seq<byte>, q: nat): (l: nat)
    requires q + MIN_MATCH <= |src|
    ensures l <= q
  {
    Last(src, HlogFor(|src|), q, HashAt(src, HlogFor(|src|), q))
  }

  /** The four bytes at `q` do not stand where their hash was seen last. */
  predicate IsNew(src: seq<byte>, q: nat) {
    q + MIN_MATCH <= |src| && Before(src, q) > 0 ==> src[Before(src, q) - 1..][..4] != src[q..][..4]
  }

  lemma FirstVisit(c: Chains, src: seq<byte>, depth: nat, pos: nat)
    requires pos + MIN_MATCH <= |src| && depth > 0 && Entered(c, src, pos) && Before(src, pos) > 0
    ensures Head(c, Hash4(Ld32(src, pos), HlogFor(|src|))) == Before(src, pos)
    ensures var ps := Visits(c, pos, Before(src, pos), depth); |ps| > 0 && ps[0] == Before(src, pos) - 1
  {
    hide Last, HlogFor, Hash4, Ld32;
    assert Head(c, HashAt(src, HlogFor(|src|), pos)) == Before(src, pos);
  }

  /** So the last position with the hash is always a candidate, and the match is at least as long as the text
      agrees there. */
  lemma LastIsFound(src: seq<byte>, dict: seq<byte>, depth: nat, c: Chains, pos: nat)
    requires pos + MIN_MATCH <= |src| && depth > 0 && Entered(c, src, pos) && Before(src, pos) > 0
    ensures var n := MatchLen(src, Before(src, pos) - 1, src, pos, Limit(src, pos));
            n >= MIN_MATCH ==> FindMatch(src, dict, depth, c, pos).len >= n
  {
    FirstVisit(c, src, depth, pos);
    FindMatchLongest(src, dict, depth, c, pos);
    var p := Before(src, pos) - 1;
    var ms := Candidates(src, dict, depth, c, pos);
    assert ms[0] == BlockCandidate(src, pos, Limit(src, pos), p) by {
      hide Before, Visits, MatchLen, DictChains, Entered;
    }
    hide Before, Visits, MatchLen, DictChains, Entered, Candidates, FindMatch;
  }

  lemma LongAgreement(a: seq<byte>, p: nat, q: nat, limit: nat)
    requires p + limit <= |a| && q + limit <= |a| && limit >= 4 && a[p..][..4] == a[q..][..4]
    ensures MatchLen(a, p, a, q, limit) >= 4
  {
    forall k | p <= k < p + 4
      ensures a[k] == a[q + k - p]
    {
      assert a[p..][..4][k - p] == a[k] && a[q..][..4][k - p] == a[q + k - p];
    }
    MatchLenMeans(a, p, a, q, limit, MatchLen(a, p, a, q, limit));
  }

  /** Where the matcher finds nothing, the four bytes are new. */
  lemma UnmatchedIsNew(src: seq<byte>, dict: seq<byte>, depth: nat, c: Chains, pos: nat)
    requires pos + MIN_MATCH <= |src| && depth > 0 && Entered(c, src, pos)
    requires FindMatch(src, dict, depth, c, pos) == NO_MATCH
    ensures IsNew(src, pos)
  {
    hide FindMatch, Entered;
    if Before(src, pos) > 0 && src[Before(src, pos) - 1..][..4] == src[pos..][..4] {
      LastIsFound(src, dict, depth, c, pos);
      LongAgreement(src, Before(src, pos) - 1, pos, Limit(src, pos));
      assert false;
    }
  }

  /** Every literal of the cut is new where it stands, but for the last one before a match of at least six bytes,
      which lazy evaluation may have left out. `pos` is where the cut begins. */
  ghost predicate OnlyNew(src: seq<byte>, seqs: seq<Sequence>, pos: nat)
    decreases |seqs|
  {
    seqs == [] ||
      (var s := seqs[0];
       && (forall q {:trigger IsNew(src, q)} :: pos <= q < pos + |s.lits| ==> IsNew(src, q) || (q == pos + |s.lits| - 1 && s.mlen >= 6))
       && OnlyNew(src, seqs[1..], pos + |s.lits| + s.mlen))
  }

  lemma OnlyNewCons(src: seq<byte>, s: Sequence, rest: seq<Sequence>, pos: nat)
    requires forall q {:trigger IsNew(src, q)} :: pos <= q < pos + |s.lits| ==> IsNew(src, q) || (q == pos + |s.lits| - 1 && s.mlen >= 6)
    requires OnlyNew(src, rest, pos + |s.lits| + s.mlen)
    ensures OnlyNew(src, [s] + rest, pos)
  {
    hide IsNew;
    assert ([s] + rest)[1..] == rest;
  }

  lemma SkipEntered(c: Chains, src: seq<byte>, pos: nat)
    requires pos + MIN_MATCH <= |src| && Entered(c, src, pos)
    ensures Entered(Insert(c, src, HlogFor(|src|), pos), src, pos + 1)
  {
    hide HlogFor, Insert, HeadsLast;
    InsertHeadsLast(c, src, HlogFor(|src|), pos);
  }

  lemma ChoiceIs(src: seq<byte>, dict: seq<byte>, depth: nat, c: Chains, pos: nat)
    requires pos + MIN_MATCH <= |src|
    ensures var r, m := Choose(src, dict, depth, c, pos), FindMatch(src, dict, depth, c, pos);
            && r.c == (if pos + 1 + MIN_MATCH <= |src| then Insert(c, src, HlogFor(|src|), pos) else c)
            && (r.pos == pos + 1 ==> pos + 1 + MIN_MATCH <= |src| && m.len + 1 < r.m.len)
  {
    hide FindMatch, Insert, HlogFor;
  }

  /** Lazy evaluation in numbers: staying means that the next position's match is at most one byte longer, moving
      that it is at least two bytes longer; what is emitted then ends no earlier than the match at hand would have, and
      never more than two bytes before the next position's. */
  lemma LazyGains(src: seq<byte>, dict: seq<byte>, depth: nat, c: Chains, pos: nat)
    requires pos + 1 + MIN_MATCH <= |src|
    ensures var r, m := Choose(src, dict, depth, c, pos), FindMatch(src, dict, depth, c, pos);
            var next := FindMatch(src, dict, depth, Insert(c, src, HlogFor(|src|), pos), pos + 1);
            && (r.pos == pos <==> next.len <= m.len + 1) && (r.pos == pos ==> r.m == m) && (r.pos == pos + 1 ==> r.m == next)
            && r.pos + r.m.len >= pos + m.len && r.pos + r.m.len + 2 >= pos + 1 + next.len
  {
    hide FindMatch, Insert, HlogFor;
  }

  /** Positions a match starts at and runs over are entered as well, the lazily skipped one included. */
  lemma ChoiceEntered(src: seq<byte>, dict: seq<byte>, depth: nat, c: Chains, pos: nat)
    requires pos + MIN_MATCH <= |src| && Entered(c, src, pos) && FindMatch(src, dict, depth, c, pos) != NO_MATCH
    ensures var r := Choose(src, dict, depth, c, pos);
            var end := r.pos + r.m.len;
            && r.m.len >= MIN_MATCH && (r.pos == pos + 1 ==> r.m.len >= 6)
            && Entered(InsertRange(r.c, src, HlogFor(|src|), r.pos, end), src, end)
  {
    hide FindMatch, Insert, InsertRange, Entered, Repeats, Choose, HlogFor;
    FindMatchSound(src, dict, depth, c, pos);
    ChooseSound(src, dict, depth, c, pos);
    ChoiceIs(src, dict, depth, c, pos);
    var r := Choose(src, dict, depth, c, pos);
    if pos + 1 + MIN_MATCH <= |src| {
      SkipEntered(c, src, pos);
    }
    RangeEntered(r.c, src, r.pos, r.pos + r.m.len);
  }

  lemma {:induction false} ParseOnlyNew(src: seq<byte>, dict: seq<byte>, depth: nat, c: Chains, anchor: nat, pos: nat)
    requires anchor <= pos <= |src| && depth > 0 && |src| >= 3 && Entered(c, src, pos)
    requires forall q {:trigger IsNew(src, q)} :: anchor <= q < pos ==> IsNew(src, q)
    ensures OnlyNew(src, Parse(src, dict, depth, c, anchor, pos), anchor)
    decreases |src| - pos
  {
    hide FindMatch, Choose, Insert, InsertRange, HlogFor, Entered;
    if pos + MIN_MATCH > |src| {
      forall q | pos <= q
        ensures IsNew(src, q)
      {}
      hide IsNew;
      OnlyNewCons(src, Sequence(src[anchor..], 0, 0), [], anchor);
      assert [Sequence(src[anchor..], 0, 0)] + [] == Parse(src, dict, depth, c, anchor, pos);
    } else if FindMatch(src, dict, depth, c, pos) == NO_MATCH {
      hide IsNew;
      UnmatchedIsNew(src, dict, depth, c, pos);
      SkipEntered(c, src, pos);
      ParseOnlyNew(src, dict, depth, Insert(c, src, HlogFor(|src|), pos), anchor, pos + 1);
    } else {
      hide IsNew;
      ParseMatchStep(src, dict, depth, c, anchor, pos);
      ChoiceEntered(src, dict, depth, c, pos);
      var r := Choose(src, dict, depth, c, pos);
      var end := r.pos + r.m.len;
      var c' := InsertRange(r.c, src, HlogFor(|src|), r.pos, end);
      ParseOnlyNew(src, dict, depth, c', end, end);
      OnlyNewCons(src, Sequence(src[anchor..r.pos], r.m.dist, r.m.len), Parse(src, dict, depth, c', end, end), anchor);
    }
  }

  /** No literal of a block's cut repeats the text where its hash was seen last, with or without a dictionary and
      at every level. */
  lemma LiteralsAreNew(src: seq<byte>, dict: seq<byte>, level: int)
    ensures OnlyNew(src, ParseBlock(src, dict, level), 0)
  {
    if |src| >= 3 {
      hide Parse, OnlyNew, IsNew, Last, HlogFor;
      NothingEntered(src, HlogFor(|src|));
      ParseOnlyNew(src, dict, DepthFor(level), EMPTY, 0, 0);
    } else {
      OnlyNewCons(src, Sequence(src[0..], 0, 0), [], 0);
      assert [Sequence(src[0..], 0, 0)] + [] == ParseBlock(src, dict, level);
    }
  }

  // ----- a block of one byte

  ghost predicate IsRun(src: seq<byte>) {
    forall k :: 0 <= k < |src| ==> src[k] == src[0]
  }

  lemma RunBefore(src: seq<byte>, q: nat)
    requires IsRun(src) && q + MIN_MATCH <= |src|
    ensures Before(src, q) == q
  {
    hide Hash4, HlogFor;
    if q > 0 {
      assert HashAt(src, HlogFor(|src|), q - 1) == HashAt(src, HlogFor(|src|), q);
    }
  }

  lemma RunAgrees(src: seq<byte>, p: nat, q: nat, limit: nat)
    requires IsRun(src) && p + limit <= |src| && q + limit <= |src|
    ensures MatchLen(src, p, src, q, limit) == limit
  {
    MatchLenMeans(src, p, src, q, limit, limit);
  }

  lemma RunMatch(src: seq<byte>, dict: seq<byte>, depth: nat, c: Chains, pos: nat)
    requires IsRun(src) && 0 < pos && pos + MIN_MATCH <= |src| && depth > 0 && Entered(c, src, pos)
    ensures FindMatch(src, dict, depth, c, pos) == Match(Limit(src, pos), 1)
  {
    hide IsRun, FindMatch, MatchLen, Entered, DictChains;
    RunBefore(src, pos);
    FirstVisit(c, src, depth, pos);
    hide Before;
    var limit := Limit(src, pos);
    RunAgrees(src, pos - 1, pos, limit);
    FindMatchLongest(src, dict, depth, c, pos);
    var ms := Candidates(src, dict, depth, c, pos);
    assert ms[0] == Match(limit, 1) by { hide Visits, FirstLongest; }
    CandidatesBelow(src, dict, depth, c, pos);
    hide Candidates;
  }

  lemma CandidatesBelow(src: seq<byte>, dict: seq<byte>, depth: nat, c: Chains, pos: nat)
    requires pos + MIN_MATCH <= |src|
    ensures var ms := Candidates(src, dict, depth, c, pos); forall i :: 0 <= i < |ms| ==> ms[i].len <= Limit(src, pos)
  {
    hide DictChains, Visits, MatchLen;
  }

  /** A run is cut into matches of one byte back, each as long as a match may be. */
  lemma RunChoice(src: seq<byte>, dict: seq<byte>, depth: nat, c: Chains, pos: nat)
    requires IsRun(src) && 0 < pos && pos + MIN_MATCH <= |src| && depth > 0 && Entered(c, src, pos)
    ensures FindMatch(src, dict, depth, c, pos) == Match(Limit(src, pos), 1)
    ensures var r := Choose(src, dict, depth, c, pos); r.pos == pos && r.m == Match(Limit(src, pos), 1)
  {
    RunMatch(src, dict, depth, c, pos);
    if pos + 1 + MIN_MATCH <= |src| {
      SkipEntered(c, src, pos);
      RunMatch(src, dict, depth, Insert(c, src, HlogFor(|src|), pos), pos + 1);
    }
    hide FindMatch, Entered, Insert, IsRun;
  }

  function RunCut(n: nat, b: byte, lits: nat, pos: nat): seq<Sequence>
    requires lits <= pos <= n
    decreases n - pos
  {
    if pos + MIN_MATCH > n then [Sequence(seq(lits + n - pos, i => b), 0, 0)]
    else [Sequence(seq(lits, i => b), 1, Min(n - pos, 65535))] + RunCut(n, b, 0, pos + Min(n - pos, 65535))
  }

  lemma {:induction false} RunParse(src: seq<byte>, dict: seq<byte>, depth: nat, c: Chains, anchor: nat, pos: nat)
    requires IsRun(src) && 0 < pos <= |src| && anchor <= pos && |src| >= 3 && depth > 0 && Entered(c, src, pos)
    ensures Parse(src, dict, depth, c, anchor, pos) == RunCut(|src|, src[0], pos - anchor, pos)
    decreases |src| - pos
  {
    hide FindMatch, Choose, InsertRange, HlogFor, Entered;
    if pos + MIN_MATCH > |src| {
      assert src[anchor..] == seq(|src| - anchor, i => src[0]);
    } else {
      RunChoice(src, dict, depth, c, pos);
      ParseMatchStep(src, dict, depth, c, anchor, pos);
      ChoiceEntered(src, dict, depth, c, pos);
      var r := Choose(src, dict, depth, c, pos);
      assert src[anchor..pos] == seq(pos - anchor, i => src[0]);
      hide IsRun;
      var end := pos + r.m.len;
      RunParse(src, dict, depth, InsertRange(r.c, src, HlogFor(|src|), pos, end), end, end);
    }
  }

  lemma NothingAtFirst(src: seq<byte>, depth: nat)
    requires |src| >= MIN_MATCH
    ensures FindMatch(src, [], depth, EMPTY, 0) == NO_MATCH
  {
    hide Hash4, HlogFor, Ld32, DictChains;
  }

  /** The cut of a run: its first byte, then matches of one byte back. */
  lemma RunBlock(src: seq<byte>, level: int)
    requires IsRun(src) && |src| >= MIN_MATCH
    ensures ParseBlock(src, [], level) == RunCut(|src|, src[0], 1, 1)
  {
    NothingAtFirst(src, DepthFor(level));
    NothingEntered(src, HlogFor(|src|));
    hide FindMatch, RunCut, IsRun, Last, HlogFor;
    SkipEntered(EMPTY, src, 0);
    hide Entered, HeadsLast, Insert;
    RunParse(src, [], DepthFor(level), Insert(EMPTY, src, HlogFor(|src|), 0), 0, 1);
  }

  lemma {:induction false} RunCutSize(n: nat, b: byte, lits: nat, pos: nat, k: nat)
    requires lits <= pos <= n && lits <= 1 && n - pos <= 65535 * k
    ensures |Serialize(RunCut(n, b, lits, pos))| <= 4 + lits + 5 * k
    decreases n - pos
  {
    hide SeqBytes;
    var s := RunCut(n, b, lits, pos)[0];
    if pos + MIN_MATCH > n {
      LastSize(s);
      assert RunCut(n, b, lits, pos) == [s];
      OneSequence(s);
    } else {
      var m := Min(n - pos, 65535);
      PieceSize(s);
      RunCutSize(n, b, 0, pos + m, k - 1);
      assert RunCut(n, b, lits, pos)[1..] == RunCut(n, b, 0, pos + m);
    }
  }

  lemma LastSize(s: Sequence)
    requires |s.lits| < 15 && s.mlen == 0
    ensures |SeqBytes(s)| == 1 + |s.lits|
  {}

  lemma PieceSize(s: Sequence)
    requires |s.lits| < 15 && s.dist == 1 && MIN_MATCH <= s.mlen <= 65535
    ensures |SeqBytes(s)| <= 5 + |s.lits|
  {
    hide Varint.Put;
    PutOne();
    Pow2Values();
    Pow2Monotone(16, 21);
    Varint.PutLength(Max(s.mlen - 18, 0), 3);
  }

  lemma OneSequence(s: Sequence)
    ensures Serialize([s]) == SeqBytes(s)
  {
    assert [s][1..] == [];
  }

  lemma TwoSequences(s: Sequence, e: Sequence)
    ensures Serialize([s, e]) == SeqBytes(s) + SeqBytes(e)
  {
    hide SeqBytes;
    assert [s, e][1..] == [e];
    OneSequence(e);
  }

  lemma ShortRunCut(n: nat, b: byte)
    requires 5 <= n <= 65536
    ensures RunCut(n, b, 1, 1) == [Sequence([b], 1, n - 1), Sequence([], 0, 0)]
  {
    assert seq(1, i => b) == [b];
    assert seq(0, i => b) == [];
    assert RunCut(n, b, 0, n) == [Sequence([], 0, 0)];
  }

  lemma FirstOfRun(n: nat, b: byte)
    requires 5 <= n
    ensures SeqBytes(Sequence([b], 1, n - 1))
            == [0x10 + MatchCode(n - 1), b, 1] + if n >= 19 then Varint.Put(n - 19) else []
  {
    hide Varint.Put;
    PutOne();
    var s := Sequence([b], 1, n - 1);
    assert LitExt(s) == [] && Token(s) == 0x10 + MatchCode(n - 1);
    hide LitExt, Token, MatchCode;
  }

  lemma PutOne()
    ensures Varint.Put(1) == [1]
  {}

  lemma EndBytes()
    ensures SeqBytes(Sequence([], 0, 0)) == [0]
  {}

  lemma LzbBytesIs(src: seq<byte>, level: int)
    ensures src != [] ==> LzbBytes(src, [], level) == Serialize(ParseBlock(src, [], level))
  {
    hide Serialize, ParseBlock;
  }

  /** The bytes of a run of up to 65536: its byte, a match of the rest one byte back, the end. */
  lemma RunBytes(src: seq<byte>, level: int)
    requires IsRun(src) && 5 <= |src| <= 65536
    ensures LzbBytes(src, [], level)
            == [0x10 + MatchCode(|src| - 1), src[0], 1] + (if |src| >= 19 then Varint.Put(|src| - 19) else []) + [0]
  {
    hide IsRun, SeqBytes, Serialize, ParseBlock, RunCut, LzbBytes, Varint.Put, MatchCode;
    var n, b := |src|, src[0];
    var s, e := Sequence([b], 1, n - 1), Sequence([], 0, 0);
    RunBlock(src, level);
    ShortRunCut(n, b);
    TwoSequences(s, e);
    FirstOfRun(n, b);
    EndBytes();
    assert LzbBytes(src, [], level) == Serialize(ParseBlock(src, [], level)) by { LzbBytesIs(src, level); }
  }

  /** Sixty-four zeros. */
  lemma ZerosBytes(src: seq<byte>, level: int)
    requires |src| == 64 && forall k :: 0 <= k < 64 ==> src[k] == 0
    ensures LzbBytes(src, [], level) == [0x1F, 0x00, 0x01, 0x2D, 0x00]
  {
    RunBytes(src, level);
    hide LzbBytes;
  }

  /** One byte repeated comes out small at every level: five bytes, and five more for each 65535 bytes. */
  lemma RunIsSmall(src: seq<byte>, level: int, k: nat)
    requires IsRun(src) && |src| <= 65535 * k + 1
    ensures |LzbBytes(src, [], level)| <= 5 + 5 * k
  {
    if src == [] {
    } else if |src| < MIN_MATCH {
      assert ParseBlock(src, [], level) == [Sequence(src[0..], 0, 0)];
      assert SeqBytes(Sequence(src[0..], 0, 0)) == [|src| * 0x10] + src;
      OneSequence(Sequence(src[0..], 0, 0));
    } else {
      hide ParseBlock, Serialize, RunCut;
      RunBlock(src, level);
      RunCutSize(|src|, src[0], 1, 1, k);
    }
  }
}
