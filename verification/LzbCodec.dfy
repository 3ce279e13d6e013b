/** The LZB codec as it runs: hash tables in arrays that are reused from block to block, an output
    buffer filled in place, and cursors (src/codec/xq_codec_lzb.c). Every method is tied to the
    values of LzbParse and LzbStream. Constant inputs are sequences. */
module LzbCodec {
  import opened Bytes
  import opened LzbStream
  import opened LzbParse
  import Varint

  // ----- hash tables in memory

  /** `head` is exactly the cleared-and-filled table of `c`; `chain` agrees with `c` on the cells
      written since the clearing and is unconstrained elsewhere. */
  ghost predicate Holds(head: array<uint32>, chain: array<uint32>, c: Chains)
    reads head, chain
  {
    && (forall h :: 0 <= h < head.Length ==> head[h] as int == Head(c, h))
    && (forall p :: p in c.chain ==> p < chain.Length && chain[p] as int == c.chain[p])
  }

  method InsertAt(head: array<uint32>, chain: array<uint32>, data: seq<byte>, hlog: nat, p: nat, ghost c: Chains)
    requires head != chain && hlog <= 32 && head.Length == Pow2(hlog)
    requires p + MIN_MATCH <= |data| <= BLOCK_SIZE_MAX && p < chain.Length
    requires Holds(head, chain, c)
    modifies head, chain
    ensures Holds(head, chain, Insert(c, data, hlog, p))
  {
    hide Hash4, Ld32, Pow2;
    var h := Hash4(Ld32(data, p), hlog);
    chain[p] := head[h];
    head[h] := p + 1;
  }

  method InsertSpan(head: array<uint32>, chain: array<uint32>, data: seq<byte>, hlog: nat, from: nat, to: nat, ghost c: Chains)
    requires head != chain && hlog <= 32 && head.Length == Pow2(hlog)
    requires |data| <= BLOCK_SIZE_MAX && |data| <= chain.Length
    requires Holds(head, chain, c)
    modifies head, chain
    ensures Holds(head, chain, InsertRange(c, data, hlog, from, to))
  {
    hide Insert;
    ghost var d := c;
    var i := from;
    while i < to && i + MIN_MATCH <= |data|
      invariant Holds(head, chain, d)
      invariant InsertRange(d, data, hlog, i, to) == InsertRange(c, data, hlog, from, to)
      decreases |data| - i
    {
      InsertAt(head, chain, data, hlog, i, d);
      d := Insert(d, data, hlog, i);
      i := i + 1;
    }
  }

  method ComputeHlog(n: nat) returns (h: nat)
    ensures h == HlogFor(n)
  {
    hide Pow2;
    h := HLOG_MIN;
    while h < HLOG_MAX && Pow2(h) < n
      invariant HLOG_MIN <= h <= HLOG_MAX
      invariant HlogFrom(h, n) == HlogFor(n)
    {
      h := h + 1;
    }
  }

  method Clear(head: array<uint32>)
    modifies head
    ensures forall h :: 0 <= h < head.Length ==> head[h] == 0
  {
    forall h | 0 <= h < head.Length {
      head[h] := 0;
    }
  }

  /** The read-only tables over a shared dictionary. */
  class CDict {
    const data: seq<byte>
    const hlog: nat
    const head: array<uint32>
    const chain: array<uint32>

    ghost predicate Valid()
      reads head, chain
    {
      && MIN_MATCH <= |data| <= BLOCK_SIZE_MAX
      && hlog == HlogFor(|data|) && head.Length == Pow2(hlog)
      && Holds(head, chain, DictChains(data))
    }

    constructor (bytes: seq<byte>)
      requires MIN_MATCH <= |bytes| <= BLOCK_SIZE_MAX
      ensures Valid() && data == bytes && fresh(head) && fresh(chain)
    {
      data := bytes;
      var h := ComputeHlog(|bytes|);
      hlog := h;
      var hd := new uint32[Pow2(h)];
      var ch := new uint32[|bytes|];
      Clear(hd);
      InsertSpan(hd, ch, bytes, h, 0, |bytes|, EMPTY);
      head, chain := hd, ch;
    }
  }

  lemma DictIsSmall(d: CDict?)
    requires d != null ==> d.Valid()
    ensures |DictData(d)| <= BLOCK_SIZE_MAX
  {}

  ghost function DictData(d: CDict?): seq<byte> {
    if d == null then [] else d.data
  }

  // ----- match search

  /** Eight bytes a time while the loads agree, then byte by byte. */
  method ComputeMatchLen(a: seq<byte>, p: nat, b: seq<byte>, q: nat, limit: nat) returns (i: nat)
    requires p + limit <= |a| && q + limit <= |b|
    ensures i == MatchLen(a, p, b, q, limit)
  {
    hide Ld64;
    i := 0;
    while i + 8 <= limit && Ld64(a, p + i) == Ld64(b, q + i)
      invariant i <= limit && Agree(a, p, b, q, i)
    {
      Ld64Agree(a, p + i, b, q + i);
      i := i + 8;
    }
    while i < limit && a[p + i] == b[q + i]
      invariant i <= limit && Agree(a, p, b, q, i)
    {
      i := i + 1;
    }
    MatchLenMeans(a, p, b, q, limit, i);
  }

  lemma Ld64Agree(a: seq<byte>, p: nat, b: seq<byte>, q: nat)
    requires p + 8 <= |a| && q + 8 <= |b|
    ensures Ld64(a, p) == Ld64(b, q) <==> Agree(a, p, b, q, 8)
  {
    Ld64Injective(a, p, b, q);
    hide Ld64;
    var s, t := a[p..p + 8], b[q..q + 8];
    if Agree(a, p, b, q, 8) {
      assert s == t;
    } else {
      var k :| p <= k < p + 8 && a[k] != b[q + k - p];
      assert s[k - p] != t[k - p];
    }
  }

  /** Follows the block's chain. Every cell read was written since the clearing: the stale rest of
      `chain` is never looked at. */
  method SearchBlockChain(src: seq<byte>, chain: array<uint32>, pos: nat, limit: nat, first: nat, depth: nat, ghost c: Chains)
    returns (best: Match)
    requires pos + limit <= |src| && Closed(c, pos) && Link(c, pos, first)
    requires forall p :: p in c.chain ==> p < chain.Length && chain[p] as int == c.chain[p]
    ensures best == SearchBlock(src, c, pos, limit, first, depth, NO_MATCH)
  {
    hide MatchLen, Closed;
    best := NO_MATCH;
    var tries: nat, cand: nat := depth, first;
    while cand != 0 && tries != 0
      invariant Link(c, pos, cand)
      invariant SearchBlock(src, c, pos, limit, cand, tries, best) == SearchBlock(src, c, pos, limit, first, depth, NO_MATCH)
      decreases tries
    {
      var p := cand - 1;
      if p >= pos {
        return;
      }
      var m := ComputeMatchLen(src, p, src, pos, limit);
      var longer := m > best.len;
      if longer {
        best := Match(m, pos - p);
        if m == limit {
          return;
        }
      }
      NextLinks(c, pos, p);
      tries := tries - 1;
      cand := chain[p] as int;
    }
  }

  method SearchDictChain(src: seq<byte>, dict: seq<byte>, chain: array<uint32>, pos: nat, limit: nat, first: nat, depth: nat, start: Match, ghost c: Chains)
    returns (best: Match)
    requires pos + limit <= |src| && Closed(c, |dict|) && Link(c, |dict|, first)
    requires forall p :: p in c.chain ==> p < chain.Length && chain[p] as int == c.chain[p]
    ensures best == SearchDict(src, dict, c, pos, limit, first, depth, start)
  {
    hide MatchLen, Closed;
    best := start;
    var tries: nat, cand: nat := depth, first;
    while cand != 0 && tries != 0
      invariant Link(c, |dict|, cand)
      invariant SearchDict(src, dict, c, pos, limit, cand, tries, best) == SearchDict(src, dict, c, pos, limit, first, depth, start)
      decreases tries
    {
      var p := cand - 1;
      var m := ComputeMatchLen(dict, p, src, pos, Min(|dict| - p, limit));
      var longer := m > best.len;
      if longer {
        best := Match(m, pos + (|dict| - p));
        if m == limit {
          return;
        }
      }
      NextLinks(c, |dict|, p);
      tries := tries - 1;
      cand := chain[p] as int;
    }
  }

  method ComputeFindMatch(src: seq<byte>, head: array<uint32>, chain: array<uint32>, hlog: nat, d: CDict?, depth: nat, pos: nat, ghost c: Chains)
    returns (m: Match)
    requires pos <= |src| && hlog == HlogFor(|src|) && head.Length == Pow2(hlog)
    requires Holds(head, chain, c) && Closed(c, pos)
    requires d != null ==> d.Valid()
    ensures m == FindMatch(src, DictData(d), depth, c, pos)
  {
    hide SearchBlock, SearchDict, DictChains, HlogFor, HashMul, Hash4, Ld32;
    if |src| - pos < MIN_MATCH {
      return NO_MATCH;
    }
    var limit := |src| - pos;
    if limit > 65535 {
      limit := 65535;
    }
    var v := Ld32(src, pos);
    var first := head[Hash4(v, hlog)] as int;
    HeadLinks(c, pos, Hash4(v, hlog));
    var best := SearchBlockChain(src, chain, pos, limit, first, depth, c);
    if d != null && best.len < limit {
      DictChainsClosed(d.data);
      var dfirst := d.head[Hash4(v, d.hlog)] as int;
      HeadLinks(DictChains(d.data), |d.data|, Hash4(v, d.hlog));
      best := SearchDictChain(src, d.data, d.chain, pos, limit, dfirst, depth, best, DictChains(d.data));
    }
    m := if best.len < MIN_MATCH then NO_MATCH else best;
  }

  /** Lazy evaluation: enters `pos` into the tables and looks one position further. */
  method LazyMatch(src: seq<byte>, head: array<uint32>, chain: array<uint32>, hlog: nat, d: CDict?, depth: nat, pos: nat, m: Match, ghost c: Chains)
    returns (at: nat, best: Match)
    requires head != chain && pos + MIN_MATCH <= |src| <= BLOCK_SIZE_MAX && |src| <= chain.Length
    requires hlog == HlogFor(|src|) && head.Length == Pow2(hlog)
    requires Holds(head, chain, c) && Closed(c, pos)
    requires d != null ==> d.Valid() && {head, chain} !! {d.head, d.chain}
    requires m == FindMatch(src, DictData(d), depth, c, pos)
    modifies head, chain
    ensures var r := Choose(src, DictData(d), depth, c, pos);
            at == r.pos && best == r.m && Holds(head, chain, r.c)
  {
    hide FindMatch, Insert, HlogFor, Closed, Holds;
    at, best := pos, m;
    if pos + 1 + MIN_MATCH <= |src| {
      InsertAt(head, chain, src, hlog, pos, c);
      InsertClosed(c, src, hlog, pos);
      var m2 := ComputeFindMatch(src, head, chain, hlog, d, depth, pos + 1, Insert(c, src, hlog, pos));
      if m2.len > m.len + 1 {
        at, best := pos + 1, m2;
      }
    }
  }

  // ----- token emission

  method CopyBytes(dst: array<byte>, op: nat, src: seq<byte>, from: nat, n: nat)
    requires op + n <= dst.Length && from + n <= |src|
    modifies dst
    ensures dst[..op + n] == old(dst[..op]) + src[from..from + n]
  {
    forall i | 0 <= i < n {
      dst[op + i] := src[from + i];
    }
  }

  method EmitLits(dst: array<byte>, op: nat, src: seq<byte>, anchor: nat, litlen: nat) returns (ok: bool, next: nat)
    requires op <= dst.Length && anchor + litlen <= |src| <= BLOCK_SIZE_MAX
    modifies dst
    ensures var s := Sequence(src[anchor..anchor + litlen], 0, 0);
            var bytes := LitExt(s) + s.lits;
            && (ok <==> op + |bytes| <= dst.Length)
            && (ok ==> next == op + |bytes| && dst[..next] == old(dst[..op]) + bytes)
  {
    hide Varint.Put;
    next := op;
    if litlen >= 15 {
      ok, next := Varint.PutInto(dst, next, litlen - 15);
      if !ok {
        return;
      }
    }
    if litlen > 0 {
      if next + litlen > dst.Length {
        return false, next;
      }
      CopyBytes(dst, next, src, anchor, litlen);
      next := next + litlen;
    }
    ok := true;
  }

  method EmitMatch(dst: array<byte>, op: nat, dist: uint64, mlen: nat) returns (ok: bool, next: nat)
    requires op <= dst.Length && (mlen == 0 || MIN_MATCH <= mlen <= BLOCK_SIZE_MAX)
    modifies dst
    ensures var bytes := MatchBytes(Sequence([], dist, mlen));
            && (ok <==> op + |bytes| <= dst.Length)
            && (ok ==> next == op + |bytes| && dst[..next] == old(dst[..op]) + bytes)
  {
    hide Varint.Put;
    next := op;
    if mlen > 0 {
      ok, next := Varint.PutInto(dst, next, dist);
      if !ok {
        return;
      }
      if mlen - MIN_MATCH >= 14 {
        ok, next := Varint.PutInto(dst, next, mlen - MIN_MATCH - 14);
        if !ok {
          return;
        }
      }
    }
    ok := true;
  }

  method EmitSeq(dst: array<byte>, op: nat, src: seq<byte>, anchor: nat, litlen: nat, dist: uint64, mlen: nat)
    returns (ok: bool, next: nat)
    requires op <= dst.Length && anchor + litlen <= |src| <= BLOCK_SIZE_MAX
    requires mlen == 0 || MIN_MATCH <= mlen <= BLOCK_SIZE_MAX
    modifies dst
    ensures var s := Sequence(src[anchor..anchor + litlen], dist, mlen);
            && (ok <==> op + |SeqBytes(s)| <= dst.Length)
            && (ok ==> next == op + |SeqBytes(s)| && dst[..next] == old(dst[..op]) + SeqBytes(s))
  {
    ghost var s := Sequence(src[anchor..anchor + litlen], dist, mlen);
    SeqBytesParts(s);
    hide SeqBytes, LitExt, MatchBytes, Varint.Put;
    if op >= dst.Length {
      return false, op;
    }
    var litcode := if litlen < 15 then litlen else 15;
    var mcode := if mlen == 0 then 0 else if mlen - MIN_MATCH < 14 then mlen - MIN_MATCH + 1 else 15;
    ghost var before := dst[..op];
    Assoc(before, [Token(s)], LitExt(s) + s.lits, MatchBytes(s));
    dst[op] := litcode * 0x10 + mcode;
    assert dst[..op + 1] == before + [Token(s)];
    hide Token;
    ok, next := EmitLits(dst, op + 1, src, anchor, litlen);
    if ok {
      ok, next := EmitMatch(dst, next, dist, mlen);
    }
  }

  lemma SeqBytesParts(s: Sequence)
    ensures LitExt(Sequence(s.lits, 0, 0)) == LitExt(s)
    ensures MatchBytes(Sequence([], s.dist, s.mlen)) == MatchBytes(s)
    ensures SeqBytes(s) == [Token(s)] + (LitExt(s) + s.lits) + MatchBytes(s)
  {
    hide Token, Varint.Put;
  }

  lemma Assoc(w: seq<byte>, a: seq<byte>, b: seq<byte>, c: seq<byte>)
    ensures w + (a + b + c) == ((w + a) + b) + c
  {}

  // ----- compression

  /** A compression context, reused from block to block. */
  class CCtx {
    var head: array<uint32>
    var chain: array<uint32>
    var hlog: nat

    ghost predicate Valid()
      reads this
    {
      && head != chain
      && (hlog == 0 || (hlog <= HLOG_MAX && head.Length == Pow2(hlog)))
    }

    constructor ()
      ensures Valid() && fresh(head) && fresh(chain)
    {
      head, chain, hlog := new uint32[0], new uint32[0], 0;
    }

    /** Sizes the tables for `n` bytes and clears `head` only; `chain` keeps what it held. */
    method Prepare(n: nat)
      requires Valid()
      modifies this, head
      ensures Valid() && hlog == HlogFor(n) && head.Length == Pow2(hlog) && n <= chain.Length
      ensures Holds(head, chain, EMPTY)
      ensures (head == old(head) || fresh(head)) && (chain == old(chain) || fresh(chain))
    {
      var h := ComputeHlog(n);
      if hlog != h {
        head := new uint32[Pow2(h)];
        hlog := h;
      }
      if chain.Length < n {
        chain := new uint32[n];
      }
      Clear(head);
    }

    /** Succeeds exactly when the bytes of the parse fit, and then holds them. Neither the outcome
        nor the bytes depend on what the context was used for before. */
    method Compress(dst: array<byte>, src: seq<byte>, level: int, d: CDict?) returns (st: Status, outLen: nat)
      requires Valid() && |src| <= BLOCK_SIZE_MAX
      requires d != null ==> d.Valid()
      requires {head as object, chain} !! {dst as object}
      requires d != null ==> {head as object, chain, dst} !! {d.head as object, d.chain}
      modifies this, head, chain, dst
      ensures Valid()
      ensures (head == old(head) || fresh(head)) && (chain == old(chain) || fresh(chain))
      ensures var bytes := LzbBytes(src, DictData(d), level);
              && st == (if |bytes| <= dst.Length then XqOk else ErrDstTooSmall)
              && (st == XqOk ==> outLen == |bytes| && dst[..outLen] == bytes)
    {
      hide Holds, HlogFor, Serialize, Parse, DepthFor, CDict.Valid;
      outLen := 0;
      if |src| == 0 {
        return XqOk, 0;
      }
      Prepare(|src|);
      st, outLen := EmitAll(dst, src, DepthFor(level), d);
    }

    /** The main loop, over freshly prepared tables. */
    method EmitAll(dst: array<byte>, src: seq<byte>, depth: nat, d: CDict?) returns (st: Status, op: nat)
      requires Valid() && 0 < |src| <= BLOCK_SIZE_MAX
      requires hlog == HlogFor(|src|) && head.Length == Pow2(hlog) && |src| <= chain.Length
      requires Holds(head, chain, EMPTY)
      requires d != null ==> d.Valid()
      requires {head as object, chain} !! {dst as object}
      requires d != null ==> {head as object, chain, dst} !! {d.head as object, d.chain}
      modifies head, chain, dst
      ensures var bytes := Serialize(Parse(src, DictData(d), depth, EMPTY, 0, 0));
              && st == (if |bytes| <= dst.Length then XqOk else ErrDstTooSmall)
              && (st == XqOk ==> op == |bytes| && dst[..op] == bytes)
    {
      hide Parse, FindMatch, Choose, Insert, InsertRange, HlogFor, SeqBytes, Serialize, DepthFor, Closed, Holds,
           CDict.Valid, Pow2;
      EmptyClosed(0);
      DictIsSmall(d);
      ghost var dict := DictData(d);
      ghost var total := Serialize(Parse(src, dict, depth, EMPTY, 0, 0));
      ghost var c := EMPTY;
      var anchor: nat, pos: nat := 0, 0;
      op := 0;
      while pos + MIN_MATCH <= |src|
        invariant anchor <= pos <= |src| && op <= dst.Length
        invariant Holds(head, chain, c) && Closed(c, pos)
        invariant d != null ==> d.Valid()
        invariant dst[..op] + Serialize(Parse(src, dict, depth, c, anchor, pos)) == total
        decreases |src| - pos
      {
        var m := ComputeFindMatch(src, head, chain, hlog, d, depth, pos, c);
        if m.len == 0 {
          ParseSkips(src, dict, depth, c, anchor, pos);
          InsertAt(head, chain, src, hlog, pos, c);
          InsertClosed(c, src, hlog, pos);
          c := Insert(c, src, hlog, pos);
          pos := pos + 1;
          continue;
        }
        ParseMatchStep(src, dict, depth, c, anchor, pos);
        ChooseClosed(src, dict, depth, c, pos);
        ghost var r := Choose(src, dict, depth, c, pos);
        pos, m := LazyMatch(src, head, chain, hlog, d, depth, pos, m, c);
        c := r.c;
        ghost var s := Sequence(src[anchor..pos], m.dist, m.len);
        ghost var end := pos + m.len;
        ghost var rest := Parse(src, dict, depth, InsertRange(c, src, hlog, pos, end), end, end);
        SerializeCons(s, rest);
        ghost var before := dst[..op];
        assert total == before + (SeqBytes(s) + Serialize(rest)) == before + SeqBytes(s) + Serialize(rest);
        var ok;
        ok, op := EmitSeq(dst, op, src, anchor, pos - anchor, m.dist, m.len);
        if !ok {
          return ErrDstTooSmall, op;
        }
        InsertSpan(head, chain, src, hlog, pos, pos + m.len, c);
        c := InsertRange(c, src, hlog, pos, end);
        pos := pos + m.len;
        anchor := pos;
      }
      ParseEnds(src, dict, depth, c, anchor, pos);
      assert src[anchor..anchor + (|src| - anchor)] == src[anchor..];
      SerializeOne(Sequence(src[anchor..], 0, 0));
      var ok;
      ok, op := EmitSeq(dst, op, src, anchor, |src| - anchor, 0, 0);
      st := if ok then XqOk else ErrDstTooSmall;
    }
  }

  lemma SerializeCons(s: Sequence, rest: seq<Sequence>)
    ensures Serialize([s] + rest) == SeqBytes(s) + Serialize(rest)
  {
    assert ([s] + rest)[1..] == rest;
  }

  lemma SerializeOne(s: Sequence)
    ensures Serialize([s]) == SeqBytes(s)
  {
    SerializeCons(s, []);
    assert [s] + [] == [s];
  }

  lemma ParseEnds(src: seq<byte>, dict: seq<byte>, depth: nat, c: Chains, anchor: nat, pos: nat)
    requires anchor <= pos <= |src| && pos + MIN_MATCH > |src|
    ensures Parse(src, dict, depth, c, anchor, pos) == [Sequence(src[anchor..], 0, 0)]
  {}

  lemma ParseSkips(src: seq<byte>, dict: seq<byte>, depth: nat, c: Chains, anchor: nat, pos: nat)
    requires anchor <= pos && pos + MIN_MATCH <= |src|
    requires FindMatch(src, dict, depth, c, pos).len == 0
    ensures Parse(src, dict, depth, c, anchor, pos)
            == Parse(src, dict, depth, Insert(c, src, HlogFor(|src|), pos), anchor, pos + 1)
  {
    FindMatchSound(src, dict, depth, c, pos);
    hide FindMatch, Choose, Insert, InsertRange, HlogFor;
  }

  lemma ChooseClosed(src: seq<byte>, dict: seq<byte>, depth: nat, c: Chains, pos: nat)
    requires pos + MIN_MATCH <= |src| && Closed(c, pos)
    requires FindMatch(src, dict, depth, c, pos) != NO_MATCH
    ensures var r := Choose(src, dict, depth, c, pos);
            var end := r.pos + r.m.len;
            Closed(InsertRange(r.c, src, HlogFor(|src|), r.pos, end), end)
  {
    hide FindMatch, Insert, InsertRange, HlogFor;
    var r := Choose(src, dict, depth, c, pos);
    ChooseSound(src, dict, depth, c, pos);
    InsertClosed(c, src, HlogFor(|src|), pos);
    InsertRangeClosed(r.c, src, HlogFor(|src|), r.pos, r.pos + r.m.len);
  }

  // ----- decompression

  /** The dictionary part of a copy, taken at once, leaves a copy that starts at the block's own
      first byte. */
  lemma {:induction false} CopySplits(dict: seq<byte>, out: seq<byte>, dist: nat, n: nat, k: nat)
    requires |out| < dist <= |dict| + |out| && k <= n && k <= dist - |out|
    ensures var from := |dict| + |out| - dist;
            Copy(dict, out, dist, n) == Copy(dict, out + dict[from..from + k], dist, n - k)
    decreases k
  {
    var from := |dict| + |out| - dist;
    if k == 0 {
      assert out + dict[from..from] == out;
    } else {
      var out' := out + [dict[from]];
      assert out' + dict[from + 1..from + k] == out + dict[from..from + k];
      if k > 1 {
        CopySplits(dict, out', dist, n - 1, k - 1);
      } else {
        assert out' == out + dict[from..from + 1];
      }
    }
  }

  lemma CopyOne(dict: seq<byte>, out: seq<byte>, dist: nat, n: nat)
    requires 1 <= dist <= |out| && n > 0
    ensures Copy(dict, out, dist, n) == Copy(dict, out + [out[|out| - dist]], dist, n - 1)
  {}

  lemma CopyNone(dict: seq<byte>, out: seq<byte>, dist: nat)
    requires 1 <= dist <= |out|
    ensures Copy(dict, out, dist, 0) == out
  {}

  method CopyWithin(dst: array<byte>, op: nat, dict: seq<byte>, dist: nat, mlen: nat)
    requires op + mlen <= dst.Length && 1 <= dist <= op
    modifies dst
    ensures dst[..op + mlen] == Copy(dict, old(dst[..op]), dist, mlen)
  {
    hide Copy;
    ghost var goal := Copy(dict, dst[..op], dist, mlen);
    var i := 0;
    assert dst[..op + 0] == dst[..op];
    while i < mlen
      invariant 0 <= i <= mlen
      invariant Copy(dict, dst[..op + i], dist, mlen - i) == goal
    {
      ghost var out := dst[..op + i];
      CopyOne(dict, out, dist, mlen - i);
      dst[op + i] := dst[op - dist + i];
      assert dst[..op + i + 1] == out + [out[op + i - dist]];
      i := i + 1;
    }
    CopyNone(dict, dst[..op + mlen], dist);
  }

  /** Copies a match to `dst[op0..op0 + mlen]`: first what lies in the dictionary, then byte by
      byte inside the block, where source and destination may overlap. */
  method CopyMatch(dst: array<byte>, op0: nat, dict: seq<byte>, dist: nat, mlen: nat)
    requires op0 + mlen <= dst.Length && 1 <= dist <= op0 + |dict|
    modifies dst
    ensures dst[..op0 + mlen] == Copy(dict, old(dst[..op0]), dist, mlen)
  {
    if dist > op0 {
      var back := dist - op0;
      var fromDict := if back < mlen then back else mlen;
      CopySplits(dict, dst[..op0], dist, mlen, fromDict);
      CopyBytes(dst, op0, dict, |dict| - back, fromDict);
      var op := op0 + fromDict;
      if fromDict < mlen {
        CopyWithin(dst, op, dict, op, mlen - fromDict);
      }
    } else {
      CopyWithin(dst, op0, dict, dist, mlen);
    }
  }

  method ReadLitsAt(src: seq<byte>, ip: nat) returns (ok: bool, litlen: nat, next: nat)
    requires ip < |src|
    ensures ReadLits(src, ip) == if ok then Some((litlen, next)) else None
  {
    hide Varint.Get;
    ok, litlen, next := true, src[ip] as int / 0x10, ip + 1;
    if litlen == 15 {
      var ext;
      ok, ext, next := Varint.GetFromBytes(src, next);
      if ok && ext as int > U64_LIMIT - 1 - 15 {
        ok := false;
      }
      litlen := litlen + ext as int;
    }
  }

  method ReadMatchAt(src: seq<byte>, ip: nat, mcode: nat) returns (ok: bool, dist: nat, mlen: nat, next: nat)
    requires 1 <= mcode < 0x10
    ensures ReadMatch(src, ip, mcode) == if ok then Some((dist, mlen, next)) else None
  {
    hide Varint.Get;
    ok, dist, next := Varint.GetFromBytes(src, ip);
    mlen := mcode - 1 + MIN_MATCH;
    if !ok || dist == 0 {
      ok := false;
      return;
    }
    if mcode == 15 {
      var ext;
      ok, ext, next := Varint.GetFromBytes(src, next);
      if ok && ext as int > U64_LIMIT - 1 - mlen {
        ok := false;
      }
      mlen := MIN_MATCH + 14 + ext as int;
    }
  }

  /** Computes exactly the reference decoder, on every byte string: its text or its error. */
  method Decompress(dst: array<byte>, src: seq<byte>, dict: seq<byte>) returns (st: Status, op: nat)
    modifies dst
    ensures op <= dst.Length
    ensures Decode(src, dict, dst.Length) == if st == XqOk then Success(dst[..op]) else Failure(st)
  {
    hide ReadLits, ReadMatch, Copy;
    var ip: nat := 0;
    op := 0;
    ghost var cap := dst.Length;
    ghost var goal := Decode(src, dict, cap);
    assert dst[..0] == [];
    while ip < |src|
      invariant op <= dst.Length
      invariant DecodeFrom(src, ip, dict, cap, dst[..op]) == goal
      decreases |src| - ip
    {
      var mcode := src[ip] as int % 0x10;
      var ok, litlen, lits := ReadLitsAt(src, ip);
      if !ok || litlen > |src| - lits {
        return ErrCorruptBlock, op;
      }
      if litlen > dst.Length - op {
        return ErrDstTooSmall, op;
      }
      CopyBytes(dst, op, src, lits, litlen);
      op := op + litlen;
      if mcode == 0 {
        return XqOk, op;
      }

      var dist, mlen, next;
      ok, dist, mlen, next := ReadMatchAt(src, lits + litlen, mcode);
      if !ok || dist > op + |dict| {
        return ErrCorruptBlock, op;
      }
      if mlen > dst.Length - op {
        return ErrDstTooSmall, op;
      }
      CopyMatch(dst, op, dict, dist, mlen);
      op := op + mlen;
      ip := next;
    }
    st := XqOk;
  }
}
