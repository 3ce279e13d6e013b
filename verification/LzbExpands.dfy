/** A block that LZB makes longer than `xq_lzb_bound` and the slack behind it allow for: 65 times one literal
    and four bytes that only a dictionary of two megabytes holds, at its far end, so that every match costs
    five bytes and its literal another. At every level (src/codec/xq_codec_lzb.c:84-109, 177-324). */
module LzbExpands {
  import opened Bytes
  import opened LzbStream
  import opened LzbParse
  import opened LzbFinds
  import LzbCodec
  import Varint

  // ----- the block and the dictionary

  const UNITS := 65
  const SIZE := 325
  const DICT_SIZE := 0x20_0000

  const LIT: byte := 128
  const B0: byte := 100
  const B1: byte := 67
  const B3: byte := 71

  /** What sets unit `u` apart. */
  function Own(u: nat): byte
    requires u < UNITS
  {
    if u < 49 then u + 1 else u + 2
  }

  function UnitByte(u: nat, t: nat): byte
    requires u < UNITS && t < 5
  {
    if t == 0 then LIT else if t == 1 then B0 else if t == 2 then B1 else if t == 3 then Own(u) else B3
  }

  /** Behind its literal each unit stands in the dictionary, at the same place. The rest is zeros. */
  function DictByte(p: nat): byte {
    if p < SIZE && p % 5 != 0 then UnitByte(p / 5, p % 5) else 0
  }

  function Block(): (s: seq<byte>)
    ensures |s| == SIZE
  {
    seq(SIZE, p requires 0 <= p < SIZE => UnitByte(p / 5, p % 5))
  }

  function Dict(): (d: seq<byte>)
    ensures |d| == DICT_SIZE
  {
    seq(DICT_SIZE, p requires 0 <= p < DICT_SIZE => DictByte(p))
  }

  lemma BlockAt(u: nat, t: nat)
    requires u < UNITS && t < 5
    ensures Block()[5 * u + t] == UnitByte(u, t)
  {
    DivUnique(5 * u + t, 5, u, t);
  }

  lemma DictAt(u: nat, t: nat)
    requires t < 5 && 5 * u + t < DICT_SIZE
    ensures Dict()[5 * u + t] == if u < UNITS && t != 0 then UnitByte(u, t) else 0
  {
    DivUnique(5 * u + t, 5, u, t);
  }

  // ----- matches

  /** A difference ends a match. */
  lemma {:induction false} DiffBounds(a: seq<byte>, p: nat, b: seq<byte>, q: nat, limit: nat, k: nat)
    requires p + limit <= |a| && q + limit <= |b|
    requires k < limit ==> a[p + k] != b[q + k]
    ensures MatchLen(a, p, b, q, limit) <= k
    decreases limit
  {
    if limit > 0 && a[p] == b[q] {
      DiffBounds(a, p + 1, b, q + 1, limit - 1, k - 1);
    }
  }

  /** At the places the matcher looks from, the block does not repeat itself. */
  lemma BlockIsNew(u: nat, t: nat, p: nat, limit: nat)
    requires u < UNITS && t < 3 && p < 5 * u + t && 4 <= limit && 5 * u + t + limit <= SIZE
    ensures MatchLen(Block(), p, Block(), 5 * u + t, limit) <= 3
  {
    var w, s := p / 5, p % 5;
    BlockAt(w, s);
    BlockAt(u, t);
    if s == t {
      BlockAt(w, 3);
      BlockAt(u, 3);
      hide Block;
      DiffBounds(Block(), p, Block(), 5 * u + t, limit, 3 - t);
    } else {
      hide Block;
      DiffBounds(Block(), p, Block(), 5 * u + t, limit, 0);
    }
  }

  /** Nor does the dictionary hold four bytes from a literal on, or from a unit's second byte on. */
  lemma DictLacks(u: nat, t: nat, p: nat, limit: nat)
    requires u < UNITS && (t == 0 || t == 2) && p < DICT_SIZE && p + limit <= DICT_SIZE && 5 * u + t + limit <= SIZE
    ensures MatchLen(Dict(), p, Block(), 5 * u + t, limit) <= 3
  {
    var k := if t == 0 then 0 else 3;
    if k < limit {
      var q := p + k;
      DictAt(q / 5, q % 5);
      if t == 0 {
        BlockAt(u, 0);
      } else {
        BlockAt(u + 1, 0);
      }
      hide Block, Dict;
    }
    hide Block, Dict;
    DiffBounds(Dict(), p, Block(), 5 * u + t, limit, k);
  }

  /** It holds a unit once. */
  lemma DictHas(u: nat, limit: nat)
    requires u < UNITS && 4 <= limit && 5 * u + 1 + limit <= SIZE
    ensures MatchLen(Dict(), 5 * u + 1, Block(), 5 * u + 1, limit) == 4
  {
    BlockAt(u, 1); BlockAt(u, 2); BlockAt(u, 3); BlockAt(u, 4);
    DictAt(u, 1); DictAt(u, 2); DictAt(u, 3); DictAt(u, 4);
    DictAt(u + 1, 0);
    if limit > 4 {
      BlockAt(u + 1, 0);
    }
    hide Block, Dict;
    var p := 5 * u + 1;
    assert Agree(Dict(), p, Block(), p, 4);
    MatchLenMeans(Dict(), p, Block(), p, limit, 4);
  }

  // ----- the units' hashes

  /** The low five bits of a 21-bit hash depend on two bytes. */
  function Mark(x: nat, y: nat): nat {
    (x + 256 * y) * 31153 % 65536 / 2048
  }

  lemma HashIs(v: uint32)
    ensures Hash4(v, 21) == HashMul(v) as int / 2048
  {
    Pow2Values();
    assert Pow2(11) == 2048;
  }

  lemma LowOfProduct(v: uint32, low: nat, high: nat)
    requires v == low + 65536 * high
    ensures HashMul(v) as int % 65536 == low * 31153 % 65536
  {
    var x := v as int * 2654435761;
    var r := low * 31153 % 65536;
    var q := low * 31153 / 65536;
    assert 2654435761 == 65536 * 40503 + 31153;
    assert x == 65536 * (low * 40503 + high * 2654435761 + q) + r;
    var n := low * 40503 + high * 2654435761 + q;
    var m := x / 0x1_0000_0000;
    assert x % 0x1_0000_0000 == x - 0x1_0000_0000 * m == 65536 * (n - 65536 * m) + r;
    DivUnique(HashMul(v) as int, 65536, n - 65536 * m, r);
  }

  lemma HashMark(data: seq<byte>, p: nat)
    requires p + 4 <= |data|
    ensures HashAt(data, 21, p) % 32 == Mark(data[p] as int, data[p + 1] as int)
    ensures HashAt(data, 21, p) / 32 == HashMul(Ld32(data, p)) as int / 65536
  {
    var v := Ld32(data, p);
    var low: nat, high: nat := data[p] as int + 256 * data[p + 1] as int, data[p + 2] as int + 256 * data[p + 3] as int;
    assert v == low + 65536 * high;
    LowOfProduct(v, low, high);
    HashIs(v);
    SplitHash(HashMul(v) as int);
  }

  lemma SplitHash(x: nat)
    ensures x / 2048 % 32 == x % 65536 / 2048 && x / 2048 / 32 == x / 65536
  {
    var a, r := x / 65536, x % 65536;
    var b, t := r / 2048, r % 2048;
    DivUnique(x, 2048, 32 * a + b, t);
    DivUnique(32 * a + b, 32, a, b);
  }

  /** Neither a unit's second pair of bytes nor its third has the first pair's mark. */
  predicate MarkApart(i: nat) {
    i == 50 || (Mark(67, i) != 27 && Mark(i, 71) != 27)
  }

  predicate MarksApart(i: nat, n: nat)
    decreases n
  {
    n == 0 || (MarkApart(i) && MarksApart(i + 1, n - 1))
  }

  lemma {:induction false} OneOfMarks(i: nat, n: nat, k: nat)
    requires MarksApart(i, n) && i <= k < i + n
    ensures MarkApart(k)
    decreases n
  {
    hide MarkApart;
    if i < k {
      OneOfMarks(i + 1, n - 1, k);
    }
  }

  lemma MarksTo11() ensures MarksApart(1, 11) {}
  lemma MarksTo22() ensures MarksApart(12, 11) {}
  lemma MarksTo33() ensures MarksApart(23, 11) {}
  lemma MarksTo44() ensures MarksApart(34, 11) {}
  lemma MarksTo55() ensures MarksApart(45, 11) {}
  lemma MarksTo66() ensures MarksApart(56, 11) {}

  lemma UnitMark(i: nat)
    requires 1 <= i <= 66 && i != 50
    ensures Mark(67, i) != 27 && Mark(i, 71) != 27
  {
    MarksTo11(); MarksTo22(); MarksTo33(); MarksTo44(); MarksTo55(); MarksTo66();
    assert MarkApart(i) by {
      hide MarksApart, MarkApart;
      if i < 12 {
        OneOfMarks(1, 11, i);
      } else if i < 23 {
        OneOfMarks(12, 11, i);
      } else if i < 34 {
        OneOfMarks(23, 11, i);
      } else if i < 45 {
        OneOfMarks(34, 11, i);
      } else if i < 56 {
        OneOfMarks(45, 11, i);
      } else {
        OneOfMarks(56, 11, i);
      }
    }
    hide Mark, MarksApart;
  }

  lemma Marks()
    ensures Mark(100, 67) == 27 && Mark(0, 100) != 27 && Mark(71, 0) != 27 && Mark(0, 0) != 27
  {}

  lemma UnitLoad(u: nat)
    requires u < UNITS
    ensures Ld32(Dict(), 5 * u + 1) == 100 + 256 * 67 + 65536 * (Own(u) as int + 256 * 71)
  {
    DictAt(u, 1); DictAt(u, 2); DictAt(u, 3); DictAt(u, 4);
    hide Dict;
  }

  lemma OwnApart(u: nat, w: nat)
    requires u < UNITS && w < UNITS && u != w
    ensures Own(u) != Own(w) && -66 < Own(u) as int - Own(w) as int < 66
  {}

  lemma SameHash(v: uint32, v': uint32, d: int)
    requires v as int - v' as int == 65536 * d && HashMul(v) == HashMul(v')
    ensures -66 < d < 66 ==> d == 0
  {
    if -66 < d < 66 {
      SameProduct(v as int, v' as int, d);
    }
  }

  /** Different units have different hashes. */
  lemma UnitsApart(u: nat, w: nat)
    requires u < UNITS && w < UNITS && u != w
    ensures HashAt(Dict(), 21, 5 * u + 1) != HashAt(Dict(), 21, 5 * w + 1)
  {
    UnitLoad(u);
    UnitLoad(w);
    hide Dict, Ld32, Mark, HashMul, Own;
    var v, v' := Ld32(Dict(), 5 * u + 1), Ld32(Dict(), 5 * w + 1);
    HashMark(Dict(), 5 * u + 1);
    HashMark(Dict(), 5 * w + 1);
    var low: nat := 100 + 256 * 67;
    LowOfProduct(v, low, Own(u) as int + 256 * 71);
    LowOfProduct(v', low, Own(w) as int + 256 * 71);
    if HashAt(Dict(), 21, 5 * u + 1) == HashAt(Dict(), 21, 5 * w + 1) {
      var x, x' := HashMul(v) as int, HashMul(v') as int;
      assert x == x / 65536 * 65536 + x % 65536 && x' == x' / 65536 * 65536 + x' % 65536;
      SameHash(v, v', Own(u) as int - Own(w) as int);
      OwnApart(u, w);
    }
  }

  lemma SameProduct(v: int, v': int, d: int)
    requires v - v' == 65536 * d && -66 < d < 66 && v * 2654435761 % 0x1_0000_0000 == v' * 2654435761 % 0x1_0000_0000
    ensures d == 0
  {
    var q, q' := v * 2654435761 / 0x1_0000_0000, v' * 2654435761 / 0x1_0000_0000;
    assert (v - v') * 2654435761 == 0x1_0000_0000 * (q - q');
    assert d * 2654435761 == 65536 * (q - q');
    assert d * 31153 == 65536 * (q - q' - 40503 * d);
    var e := q - q' - 40503 * d;
    assert d * 31153 == 65536 * e;
  }

  /** Only units have the mark of units. */
  lemma OtherMark(w: nat, s: nat)
    requires s < 5 && 5 * w + s + 4 <= DICT_SIZE && (s != 1 || w >= UNITS)
    ensures Mark(Dict()[5 * w + s] as int, Dict()[5 * w + s + 1] as int) != 27
  {
    Marks();
    DictAt(w, s);
    if s == 4 {
      DictAt(w + 1, 0);
    } else {
      DictAt(w, s + 1);
    }
    if w < UNITS {
      UnitMark(Own(w) as int);
    }
    hide Dict, Mark;
  }

  lemma UnitHash(u: nat)
    requires u < UNITS
    ensures HashAt(Dict(), 21, 5 * u + 1) % 32 == 27
  {
    Marks();
    DictAt(u, 1);
    DictAt(u, 2);
    hide Dict, HashAt, Mark;
    HashMark(Dict(), 5 * u + 1);
  }

  /** A unit's hash occurs once in the dictionary. */
  lemma HashOnce(u: nat, q: nat)
    requires u < UNITS && q + 4 <= DICT_SIZE && q != 5 * u + 1
    ensures HashAt(Dict(), 21, q) != HashAt(Dict(), 21, 5 * u + 1)
  {
    hide Dict, HashAt, Mark;
    var w, s := q / 5, q % 5;
    if s == 1 && w < UNITS {
      UnitsApart(u, w);
    } else {
      OtherMark(w, s);
      HashMark(Dict(), q);
      UnitHash(u);
    }
  }

  // ----- what the matcher finds

  lemma DictHlog()
    ensures HlogFor(DICT_SIZE) == 21
  {
    Pow2Values();
    assert Pow2(12) == 0x1000;
    assert Pow2(13) == 0x2000;
    assert Pow2(14) == 0x4000;
    assert Pow2(15) == 0x8000;
    assert Pow2(16) == 0x1_0000;
    assert Pow2(17) == 0x2_0000;
    assert Pow2(18) == 0x4_0000;
    assert Pow2(19) == 0x8_0000;
    assert Pow2(20) == 0x10_0000;
    assert Pow2(21) == 0x20_0000;
    hide Pow2;
    assert HlogFrom(20, DICT_SIZE) == 21;
    assert HlogFrom(18, DICT_SIZE) == 21;
    assert HlogFrom(16, DICT_SIZE) == 21;
    assert HlogFrom(14, DICT_SIZE) == 21;
  }

  /** A unit's hash leads straight to the unit, and from there nowhere. */
  lemma ChainToUnit(u: nat)
    requires u < UNITS
    ensures var h := HashAt(Dict(), 21, 5 * u + 1);
            Head(DictChains(Dict()), h) == 5 * u + 2 && Next(DictChains(Dict()), 5 * u + 1) == 0
  {
    DictHlog();
    hide Dict, HashAt, Last, HlogFor;
    var d, p, n := Dict(), 5 * u + 1, DICT_SIZE - 3;
    NothingEntered(d, 21);
    InsertedLast(EMPTY, d, 21, 0);
    hide InsertRange, HeadsLast, CellsLast;
    forall q: nat | q < n && q != p
      ensures HashAt(d, 21, q) != HashAt(d, 21, p)
    {
      HashOnce(u, q);
    }
    LastOnly(d, 21, n, p);
    LastNone(d, 21, p, HashAt(d, 21, p));
    Followed(DictChains(d), d, n, p);
  }

  lemma Followed(c: Chains, d: seq<byte>, n: nat, p: nat)
    requires p < n && n + 3 <= |d| && HeadsLast(c, d, 21, n) && CellsLast(c, d, 21, n)
    ensures Head(c, HashAt(d, 21, p)) == Last(d, 21, n, HashAt(d, 21, p)) && Next(c, p) == Last(d, 21, p, HashAt(d, 21, p))
  {
    hide Last, HashAt;
  }

  lemma {:induction false} ShortInBlock(c: Chains, u: nat, t: nat, limit: nat, cand: nat, tries: nat, best: Match)
    requires u < UNITS && t < 3 && 4 <= limit && 5 * u + t + limit <= SIZE && best.len <= 3
    ensures SearchBlock(Block(), c, 5 * u + t, limit, cand, tries, best).len <= 3
    decreases tries
  {
    hide Block;
    if !(cand == 0 || tries == 0 || cand - 1 >= 5 * u + t) {
      BlockIsNew(u, t, cand - 1, limit);
      var m := BlockCandidate(Block(), 5 * u + t, limit, cand - 1);
      ShortInBlock(c, u, t, limit, Next(c, cand - 1), tries - 1, Better(best, m));
    }
  }

  lemma {:induction false} ShortInDict(d: Chains, u: nat, t: nat, limit: nat, cand: nat, tries: nat, best: Match)
    requires u < UNITS && (t == 0 || t == 2) && 4 <= limit && 5 * u + t + limit <= SIZE && best.len <= 3
    ensures SearchDict(Block(), Dict(), d, 5 * u + t, limit, cand, tries, best).len <= 3
    decreases tries
  {
    hide Block, Dict;
    if !(cand == 0 || tries == 0 || cand > DICT_SIZE) {
      DictLacks(u, t, cand - 1, Min(DICT_SIZE - (cand - 1), limit));
      var m := DictCandidate(Block(), Dict(), 5 * u + t, limit, cand - 1);
      ShortInDict(d, u, t, limit, Next(d, cand - 1), tries - 1, Better(best, m));
    }
  }

  /** No match at a literal, nor one byte into a unit. */
  lemma NothingFound(depth: nat, c: Chains, u: nat, t: nat)
    requires u < UNITS && (t == 0 || t == 2)
    ensures FindMatch(Block(), Dict(), depth, c, 5 * u + t) == NO_MATCH
  {
    hide Block, Dict, Hash4, HlogFor, DictChains, SearchBlock, SearchDict, Ld32;
    var pos := 5 * u + t;
    if SIZE - pos >= 4 {
      var limit := Limit(Block(), pos);
      ShortInBlock(c, u, t, limit, Head(c, Hash4(Ld32(Block(), pos), HlogFor(SIZE))), depth, NO_MATCH);
      ShortInDict(DictChains(Dict()), u, t, limit, Head(DictChains(Dict()), Hash4(Ld32(Block(), pos), HlogFor(DICT_SIZE))), depth, BlockMatch(Block(), depth, c, pos));
    }
  }

  /** Four bytes from the far end of the dictionary at every unit. */
  lemma UnitFound(depth: nat, c: Chains, u: nat)
    requires u < UNITS && depth > 0
    ensures FindMatch(Block(), Dict(), depth, c, 5 * u + 1) == Match(4, DICT_SIZE)
  {
    var pos := 5 * u + 1;
    hide Block, Dict, Hash4, HlogFor, DictChains, SearchBlock, SearchDict, Ld32, HashMul, MatchLen, Head, Next,
         BlockCandidate;
    SameLoad(u);
    DictHlog();
    ChainToUnit(u);
    var limit := Limit(Block(), pos);
    ShortInBlock(c, u, 1, limit, Head(c, Hash4(Ld32(Block(), pos), HlogFor(SIZE))), depth, NO_MATCH);
    var best := BlockMatch(Block(), depth, c, pos);
    DictHas(u, Min(DICT_SIZE - pos, limit));
    var m := DictCandidate(Block(), Dict(), pos, limit, pos);
    assert m == Match(4, DICT_SIZE);
    OneCell(DictChains(Dict()), pos, limit, depth, best, m);
  }

  lemma OneCell(d: Chains, pos: nat, limit: nat, depth: nat, best: Match, m: Match)
    requires pos + limit <= SIZE && depth > 0 && best.len <= 3 && m.len == 4 && pos < DICT_SIZE
    requires m == DictCandidate(Block(), Dict(), pos, limit, pos) && Next(d, pos) == 0
    ensures SearchDict(Block(), Dict(), d, pos, limit, pos + 1, depth, best) == m
  {
    hide Block, Dict, DictCandidate;
    assert SearchDict(Block(), Dict(), d, pos, limit, 0, depth - 1, m) == m;
  }

  lemma SameLoad(u: nat)
    requires u < UNITS
    ensures Ld32(Block(), 5 * u + 1) == Ld32(Dict(), 5 * u + 1)
  {
    BlockAt(u, 1); BlockAt(u, 2); BlockAt(u, 3); BlockAt(u, 4);
    DictAt(u, 1); DictAt(u, 2); DictAt(u, 3); DictAt(u, 4);
    hide Block, Dict;
  }

  // ----- the stream

  const UNIT := Sequence([LIT], DICT_SIZE, 4)
  const END := Sequence([], 0, 0)

  function Units(k: nat): seq<Sequence> {
    if k == 0 then [END] else [UNIT] + Units(k - 1)
  }

  lemma {:induction false} ParseUnits(depth: nat, c: Chains, u: nat)
    requires u <= UNITS && depth > 0
    ensures Parse(Block(), Dict(), depth, c, 5 * u, 5 * u) == Units(UNITS - u)
    decreases UNITS - u
  {
    hide Block, Dict, FindMatch, Insert, InsertRange, HlogFor, Parse, Repeats;
    var src, pos := Block(), 5 * u;
    if u == UNITS {
      LzbCodec.ParseEnds(src, Dict(), depth, c, pos, pos);
      assert src[pos..] == [];
    } else {
      BlockAt(u, 0);
      assert src[pos..pos + 1] == [LIT];
      NothingFound(depth, c, u, 0);
      LzbCodec.ParseSkips(src, Dict(), depth, c, pos, pos);
      var c1 := Insert(c, src, HlogFor(SIZE), pos);
      UnitFound(depth, c1, u);
      ParseMatchStep(src, Dict(), depth, c1, pos, pos + 1);
      if pos + 2 + MIN_MATCH <= SIZE {
        NothingFound(depth, Insert(c1, src, HlogFor(SIZE), pos + 1), u, 2);
      }
      var r := Choose(src, Dict(), depth, c1, pos + 1);
      assert r.pos == pos + 1 && r.m == Match(4, DICT_SIZE);
      hide Choose;
      ParseUnits(depth, InsertRange(r.c, src, HlogFor(SIZE), pos + 1, pos + 5), u + 1);
    }
  }

  lemma UnitBytes()
    ensures SeqBytes(UNIT) == [0x11, 0x80, 0x80, 0x80, 0x80, 0x01] && SeqBytes(END) == [0x00]
  {
    assert Varint.Put(1) == [1];
    assert Varint.Put(0x80) == [0x80, 1];
    assert Varint.Put(0x4000) == [0x80, 0x80, 1];
    assert Varint.Put(DICT_SIZE) == [0x80, 0x80, 0x80, 1];
    hide Varint.Put;
    assert MatchBytes(UNIT) == [0x80, 0x80, 0x80, 1];
  }

  /** The byte values of the stream. */
  const BYTES: set<nat> := {0x00, 0x01, 0x11, 0x80}

  lemma {:induction false} UnitsSize(k: nat)
    ensures |Serialize(Units(k))| == 6 * k + 1
    ensures forall i :: 0 <= i < |Serialize(Units(k))| ==> Serialize(Units(k))[i] as int in BYTES
  {
    UnitBytes();
    hide SeqBytes;
    if k == 0 {
      LzbCodec.SerializeOne(END);
    } else {
      UnitsSize(k - 1);
      LzbCodec.SerializeCons(UNIT, Units(k - 1));
    }
  }

  /** 391 bytes for 325, over four byte values. */
  lemma Expands(level: int)
    ensures var lz := LzbBytes(Block(), Dict(), level);
            |lz| == 391 && forall i :: 0 <= i < |lz| ==> lz[i] as int in BYTES
  {
    ParseUnits(DepthFor(level), EMPTY, 0);
    UnitsSize(UNITS);
    hide Serialize, Parse, Units, Dict;
    assert Block() != [];
  }
}
