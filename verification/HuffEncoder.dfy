/** The encoder's table: lengths from the merge arrays, then canonical codes stored bit-reversed
    (src/common/xq_huff.c:54-162). */
module HuffEncoder {
  import opened Bytes
  import opened HuffTree
  import opened HuffCode
  import opened HuffLens
  import opened HuffStream
  import opened HuffBuild
  import opened BitIO

  // ----- depths of all leaves

  ghost predicate NodesAre(node: seq<nat>, nnodes: nat, freq: seq<nat>) {
    && nnodes <= |node| && |freq| == SYMBOLS
    && (forall i :: 0 <= i < nnodes ==> node[i] < SYMBOLS && freq[node[i]] > 0)
    && (forall s: nat :: s < SYMBOLS && freq[s] > 0 ==> exists i :: 0 <= i < nnodes && node[i] == s)
  }

  lemma LeavesNodes(f: seq<Tree>, freq: seq<nat>, node: seq<nat>, nnodes: nat)
    requires |freq| == SYMBOLS && nnodes <= |node| && |f| == nnodes && LeafList(f, freq, SYMBOLS)
    requires forall i :: 0 <= i < nnodes ==> f[i].sym == node[i]
    ensures NodesAre(node, nnodes, freq)
  {
    hide Weight;
    forall s: nat | s < SYMBOLS && freq[s] > 0
      ensures exists i :: 0 <= i < nnodes && node[i] == s
    {
      assert Has(f, s);
      var i :| 0 <= i < |f| && s in Syms(f[i]);
      assert node[i] == s;
    }
  }

  /** The lengths written so far: those of the first `n` leaves. */
  ghost predicate Walked(t: Tree, node: seq<nat>, n: nat, lens: seq<nat>) {
    && n <= |node| && |lens| == SYMBOLS
    && (forall i :: 0 <= i < n ==> node[i] < SYMBOLS && node[i] in Syms(t) && lens[node[i]] == LeafDepth(t, node[i]))
    && (forall s :: 0 <= s < SYMBOLS && (forall i :: 0 <= i < n ==> node[i] != s) ==> lens[s] == 0)
  }

  lemma WalkedAll(freq: seq<nat>, node: seq<nat>, nnodes: nat, lens: seq<nat>)
    requires Used(freq) >= 2 && NodesAre(node, nnodes, freq)
    requires Walked(HuffmanTree(freq), node, nnodes, lens)
    ensures Below(HuffmanTree(freq), SYMBOLS) && lens == Spread(HuffmanTree(freq), 0, Zeros(SYMBOLS))
  {
    TreeSyms(freq);
    var t := HuffmanTree(freq);
    hide HuffmanTree, Syms, Distinct, Below, Spread, LeafDepth, Used;
    var r := Spread(t, 0, Zeros(SYMBOLS));
    forall s | 0 <= s < SYMBOLS
      ensures lens[s] == r[s]
    {
      if s in Syms(t) {
        SpreadIsLeafDepth(t, 0, Zeros(SYMBOLS), s);
        var i :| 0 <= i < nnodes && node[i] == s;
      } else {
        SpreadElsewhere(t, 0, Zeros(SYMBOLS), s);
      }
    }
  }

  lemma NodeDepth(freq: seq<nat>, node: seq<nat>, nnodes: nat, i: nat)
    requires Used(freq) >= 2 && NodesAre(node, nnodes, freq) && i < nnodes
    ensures node[i] in Syms(HuffmanTree(freq)) && LeafDepth(HuffmanTree(freq), node[i]) <= Height(HuffmanTree(freq))
  {
    TreeSyms(freq);
    LeafDepthBound(HuffmanTree(freq), node[i]);
  }

  lemma DeepNode(freq: seq<nat>, node: seq<nat>, nnodes: nat) returns (i: nat)
    requires Used(freq) >= 2 && NodesAre(node, nnodes, freq)
    ensures i < nnodes && node[i] in Syms(HuffmanTree(freq)) && LeafDepth(HuffmanTree(freq), node[i]) == Height(HuffmanTree(freq))
  {
    TreeSyms(freq);
    var s := Deepest(HuffmanTree(freq));
    i :| 0 <= i < nnodes && node[i] == s;
  }

  /** Walks up from every leaf; stops at the first that is too deep. */
  method WalkLengths(b: Builder, len: array<nat>, ghost freq: seq<nat>) returns (maxlen: nat)
    requires b.Valid() && b.nlive == 1 && len.Length == SYMBOLS && len !in {b.node, b.weight, b.live}
    requires Used(freq) >= 2 && NodesAre(b.node[..], b.nnodes, freq) && b.forest == [HuffmanTree(freq)]
    requires len[..] == Zeros(SYMBOLS)
    modifies len
    ensures maxlen <= MAX_BITS <==> Height(HuffmanTree(freq)) <= MAX_BITS
    ensures maxlen <= MAX_BITS ==> maxlen == Height(HuffmanTree(freq))
    ensures maxlen <= MAX_BITS ==> Below(HuffmanTree(freq), SYMBOLS) && len[..] == Spread(HuffmanTree(freq), 0, Zeros(SYMBOLS))
  {
    hide HuffmanTree, Syms, LeafDepth, Height, Used, Consistent, Spread, Zeros, Below;
    ghost var t := HuffmanTree(freq);
    ghost var node := b.node[..];
    maxlen := 0;
    var i := 0;
    while i < b.nnodes
      invariant 0 <= i <= b.nnodes && b.Valid()
      invariant maxlen <= MAX_BITS && maxlen <= Height(t)
      invariant Walked(t, node, i, len[..])
      invariant forall j :: 0 <= j < i ==> LeafDepth(t, node[j]) <= maxlen
    {
      NodeDepth(freq, node, b.nnodes, i);
      var l := b.LeafLength(i);
      if l > MAX_BITS {
        return l;
      }
      WalkOne(t, node, i, len[..], b.nnodes);
      len[b.node[i]] := l;
      if l > maxlen {
        maxlen := l;
      }
      i := i + 1;
    }
    var d := DeepNode(freq, node, b.nnodes);
    WalkedAll(freq, node, b.nnodes, len[..]);
  }

  lemma WalkOne(t: Tree, node: seq<nat>, n: nat, lens: seq<nat>, nnodes: nat)
    requires Walked(t, node, n, lens) && n < nnodes <= |node|
    requires node[n] < SYMBOLS && node[n] in Syms(t)
    ensures Walked(t, node, n + 1, lens[node[n] := LeafDepth(t, node[n])])
  {
    hide Syms, LeafDepth;
  }

  // ----- numbering

  /** Bit `b` of `c`, counted from the low end, stands at place `l - 1 - b` of its MSB-first bits. */
  lemma {:induction false} MsbBitAt(c: nat, l: nat, b: nat)
    requires b < l
    ensures MsbBits(c, l)[l - 1 - b] == (Shr(c, b) % 2 == 1)
    decreases b
  {
    if b > 0 {
      MsbBitAt(c / 2, l - 1, b - 1);
    }
  }

  lemma NoBits(bits: Bits, l: nat)
    requires |bits| == l
    ensures Lsb(bits[l..]) == 0
  {}

  lemma LsbFrom(bits: Bits, k: nat)
    requires k < |bits|
    ensures Lsb(bits[k..]) == 2 * Lsb(bits[k + 1..]) + if bits[k] then 1 else 0
  {
    assert bits[k..][0] == bits[k] && bits[k..][1..] == bits[k + 1..];
  }

  lemma OneMoreBit(bits: Bits, k: nat, rev: nat, b: nat)
    requires k < |bits| && rev == Lsb(bits[k + 1..]) && rev < Pow2(b) && b < MAX_BITS
    ensures Lsb(bits[k..]) == rev * 2 + (if bits[k] then 1 else 0) < Pow2(b + 1) <= 0x8000
  {
    hide Lsb, Pow2;
    LsbFrom(bits, k);
    Pow2Next(b);
    Pow2Monotone(b + 1, MAX_BITS);
    Pow2Values();
  }

  /** Reverses the low `l` bits, in 16-bit arithmetic. */
  method ReverseBits(c: nat, l: nat) returns (rev: nat)
    requires l <= MAX_BITS
    ensures rev == Lsb(MsbBits(c, l)) && rev < Pow2(l)
  {
    ghost var bits := MsbBits(c, l);
    assert bits[l..] == [] && Pow2(0) == 1;
    hide MsbBits, Shr, Lsb, Pow2;
    rev := 0;
    NoBits(bits, l);
    var b := 0;
    while b < l
      invariant 0 <= b <= l
      invariant rev == Lsb(bits[l - b..]) && rev < Pow2(b)
    {
      MsbBitAt(c, l, b);
      OneMoreBit(bits, l - b - 1, rev, b);
      rev := (rev * 2 + Shr(c, b) % 2) % 0x1_0000;
      b := b + 1;
    }
    assert bits[0..] == bits;
  }

  /** How many symbols have each length; length 0 is not counted. */
  method CountLengths(len: seq<nat>) returns (count: array<nat>)
    requires forall i :: 0 <= i < |len| ==> len[i] <= MAX_BITS
    ensures fresh(count) && count.Length == MAX_BITS + 1 && count[0] == 0
    ensures forall b :: 1 <= b <= MAX_BITS ==> count[b] == Count(len, b)
  {
    count := new nat[MAX_BITS + 1](_ => 0);
    var i := 0;
    while i < |len|
      invariant 0 <= i <= |len|
      invariant forall b :: 1 <= b <= MAX_BITS ==> count[b] == Count(len[..i], b)
    {
      assert len[..i + 1][..i] == len[..i];
      count[len[i]] := count[len[i]] + 1;
      i := i + 1;
    }
    assert len[..i] == len;
    count[0] := 0;
  }

  /** The first code of each length, in 16-bit arithmetic. */
  method FirstCodes(len: seq<nat>, count: array<nat>) returns (next: array<nat>)
    requires Filled(len, MAX_BITS) <= Pow2(MAX_BITS)
    requires count.Length == MAX_BITS + 1 && count[0] == 0
    requires forall b :: 1 <= b <= MAX_BITS ==> count[b] == Count(len, b)
    ensures fresh(next) && next.Length == MAX_BITS + 1
    ensures forall b :: 1 <= b <= MAX_BITS ==> next[b] == First(len, b)
  {
    hide Count, Filled, Pow2;
    next := new nat[MAX_BITS + 1](_ => 0);
    var code: nat := 0;
    var b := 1;
    while b <= MAX_BITS
      invariant 1 <= b <= MAX_BITS + 1
      invariant b == 1 ==> code == 0
      invariant b > 1 ==> code == First(len, b - 1)
      invariant forall k :: 1 <= k < b ==> next[k] == First(len, k)
    {
      FirstStep(len, b);
      code := ((code + count[b - 1]) * 2) % 0x1_0000;
      next[b] := code;
      b := b + 1;
    }
  }

  /** The next free code of each length, before any has been taken. */
  method StartCodes(len: seq<nat>) returns (next: array<nat>)
    requires (forall i :: 0 <= i < |len| ==> len[i] <= MAX_BITS) && Filled(len, MAX_BITS) <= Pow2(MAX_BITS)
    ensures fresh(next) && Numbered(next[..], len, 0)
  {
    hide Count, Filled, Pow2, First, Numbered;
    var count := CountLengths(len);
    next := FirstCodes(len, count);
    NumberStart(next[..], len);
  }

  lemma FirstStep(lens: seq<nat>, b: nat)
    requires 1 <= b <= MAX_BITS && Filled(lens, MAX_BITS) <= Pow2(MAX_BITS)
    ensures b == 1 ==> First(lens, b) == 0
    ensures b > 1 ==> First(lens, b) == 2 * (First(lens, b - 1) + Count(lens, b - 1))
    ensures First(lens, b) < 0x1_0000
  {
    FilledFits(lens, b - 1, MAX_BITS);
    Pow2Monotone(b - 1, MAX_BITS - 1);
    Pow2Values();
    if b > 1 {
      assert Filled(lens, b - 1) == 2 * Filled(lens, b - 2) + Count(lens, b - 1);
    }
  }

  method ClearArray(a: array<nat>)
    modifies a
    ensures forall i :: 0 <= i < a.Length ==> a[i] == 0
    ensures a[..] == Zeros(a.Length)
  {
    forall i | 0 <= i < a.Length {
      a[i] := 0;
    }
  }

  lemma ZerosAre(a: seq<nat>)
    requires forall i :: 0 <= i < |a| ==> a[i] == 0
    ensures a == Zeros(|a|)
  {}

  method CountUsed(freq: seq<nat>) returns (u: nat)
    ensures u == Used(freq)
  {
    u := 0;
    var i := 0;
    while i < |freq|
      invariant 0 <= i <= |freq| && u == Used(freq[..i])
    {
      assert freq[..i + 1][..i] == freq[..i];
      if freq[i] != 0 {
        u := u + 1;
      }
      i := i + 1;
    }
    assert freq[..i] == freq;
  }

  method SmoothAll(f: seq<nat>) returns (r: seq<nat>)
    ensures r == Smooth(f)
  {
    r := f;
    var i := 0;
    while i < |f|
      invariant 0 <= i <= |f| && |r| == |f|
      invariant forall k :: 0 <= k < i ==> r[k] == if f[k] > 0 then f[k] / 2 + 1 else 0
      invariant forall k :: i <= k < |f| ==> r[k] == f[k]
    {
      if r[i] != 0 {
        r := r[i := r[i] / 2 + 1];
      }
      i := i + 1;
    }
  }

  /** One attempt: merge, then walk. */
  method Attempt(f: seq<nat>, len: array<nat>) returns (maxlen: nat)
    requires |f| == SYMBOLS && Used(f) >= 2 && len.Length == SYMBOLS && len[..] == Zeros(SYMBOLS)
    modifies len
    ensures maxlen <= MAX_BITS <==> Height(HuffmanTree(f)) <= MAX_BITS
    ensures maxlen <= MAX_BITS ==> maxlen == Height(HuffmanTree(f))
    ensures maxlen <= MAX_BITS ==> Below(HuffmanTree(f), SYMBOLS) && len[..] == Spread(HuffmanTree(f), 0, Zeros(SYMBOLS))
  {
    hide Leaves, MergeAll, LeafList, NodesAre, Consistent, Zeros, Spread, Height, Below;
    var b := new Builder(f);
    LeavesShape(f, SYMBOLS);
    assert f[..SYMBOLS] == f;
    LeavesNodes(b.forest, f, b.node[..], b.nnodes);
    hide Used;
    b.MergeDown();
    maxlen := WalkLengths(b, len, f);
  }

  lemma PositiveHeight(f: seq<nat>)
    requires Used(f) >= 2
    ensures Height(HuffmanTree(f)) > 0
  {
    TreeSyms(f);
  }

  class HuffEnc {
    const len: array<nat>
    const code: array<nat>
    var maxLen: nat
    var used: nat

    ghost predicate Valid() {
      len.Length == SYMBOLS && code.Length == SYMBOLS && len != code
    }

    /** Codes are stored so that emitting their low bits first emits the canonical code. */
    ghost predicate Coded()
      reads len, code
      requires Valid()
    {
      CodesUpTo(code[..], len[..], SYMBOLS) && forall i :: 0 <= i < SYMBOLS ==> len[i] <= MAX_BITS
    }

    constructor ()
      ensures Valid() && fresh(len) && fresh(code)
    {
      len, code := new nat[SYMBOLS], new nat[SYMBOLS];
      maxLen, used := 0, 0;
    }

    /** Gives the histogram's symbols their lengths and codes; fails exactly when no attempt keeps
        within fifteen bits, or nothing occurs. */
    method Build(freq: seq<nat>) returns (ok: bool)
      requires Valid() && |freq| == SYMBOLS
      modifies this, len, code
      ensures Valid() && (ok <==> BuildLens(freq).Some?)
      ensures ok ==> len[..] == BuildLens(freq).value && Coded()
    {
      ClearArray(len);
      ClearArray(code);
      maxLen, used := 0, 0;
      var u := CountUsed(freq);
      if u == 0 {
        return false;
      }
      if u == 1 {
        BuildSingle(freq);
        maxLen, used := 1, 1;
        return true;
      }
      var m := Limit(freq);
      if m == 0 {
        return false;
      }
      maxLen, used := m, u;
      BuildIsUsable(freq);
      AssignCodes();
      return true;
    }

    method BuildSingle(freq: seq<nat>)
      requires Valid() && |freq| == SYMBOLS && Used(freq) == 1
      requires forall i :: 0 <= i < SYMBOLS ==> len[i] == 0 && code[i] == 0
      modifies len, code
      ensures BuildLens(freq).Some? && len[..] == BuildLens(freq).value && Coded()
    {
      var i := 0;
      while i < SYMBOLS
        invariant 0 <= i <= SYMBOLS
        invariant forall k :: 0 <= k < i ==> len[k] == if freq[k] > 0 then 1 else 0
        invariant forall k :: i <= k < SYMBOLS ==> len[k] == 0
        invariant forall k :: 0 <= k < SYMBOLS ==> code[k] == 0
      {
        if freq[i] != 0 {
          len[i] := 1;
          code[i] := 0;
        }
        i := i + 1;
      }
      assert len[..] == BuildLens(freq).value;
      var s := SomeUsed(freq);
      OneUsed(freq, s);
      SingleCodes(len[..], s, code[..]);
    }

    /** Attempts and smoothings; the longest length on success, 0 after twelve failures. */
    method Limit(freq: seq<nat>) returns (m: nat)
      requires Valid() && |freq| == SYMBOLS && Used(freq) >= 2
      requires len[..] == Zeros(SYMBOLS)
      modifies len
      ensures m > 0 <==> LensFrom(freq, ATTEMPTS).Some?
      ensures m > 0 ==> len[..] == LensFrom(freq, ATTEMPTS).value
    {
      hide Used, Zeros, HuffmanTree, Spread, Height, Smooth;
      var f := freq;
      var attempt := 0;
      while attempt < ATTEMPTS
        invariant 0 <= attempt <= ATTEMPTS && |f| == SYMBOLS && Used(f) >= 2
        invariant LensFrom(f, ATTEMPTS - attempt) == LensFrom(freq, ATTEMPTS)
        invariant len[..] == Zeros(SYMBOLS)
      {
        TreeSyms(f);
        PositiveHeight(f);
        m := Attempt(f, len);
        if m <= MAX_BITS {
          return;
        }
        ClearArray(len);
        ZerosAre(len[..]);
        SmoothUsed(f);
        f := SmoothAll(f);
        attempt := attempt + 1;
      }
      m := 0;
    }

    method AssignCodes()
      requires Valid() && Usable(len[..]) && forall i :: 0 <= i < SYMBOLS ==> code[i] == 0
      modifies code
      ensures Coded()
    {
      ghost var lens := len[..];
      UsableFits(lens);
      hide Usable, Filled, CodeBits, First, Count, MsbBits, Lsb, Numbered, CodesUpTo;
      var next := StartCodes(len[..]);
      CodeStart(code[..], lens);
      var i := 0;
      while i < SYMBOLS
        invariant 0 <= i <= SYMBOLS && len[..] == lens
        invariant Numbered(next[..], lens, i) && CodesUpTo(code[..], lens, i)
      {
        AssignOne(i, next, lens);
        i := i + 1;
      }
    }

    method AssignOne(i: nat, next: array<nat>, ghost lens: seq<nat>)
      requires Valid() && i < SYMBOLS && len[..] == lens && next != code && next != len && lens[i] <= MAX_BITS
      requires Numbered(next[..], lens, i) && CodesUpTo(code[..], lens, i)
      modifies code, next
      ensures Numbered(next[..], lens, i + 1) && CodesUpTo(code[..], lens, i + 1)
    {
      hide CodeBits, First, Count, MsbBits, Lsb, Numbered, CodesUpTo;
      var l := len[i];
      NumberNext(next[..], lens, i);
      CodeNext(code[..], lens, i);
      if l != 0 {
        var c := next[l];
        next[l] := next[l] + 1;
        var rev := ReverseBits(c, l);
        code[i] := rev;
      }
    }
  }

  /** `next` holds, for every length, the code the next symbol of that length gets. */
  ghost predicate Numbered(next: seq<nat>, lens: seq<nat>, i: nat) {
    && |next| == MAX_BITS + 1 && i <= |lens|
    && forall b :: 1 <= b <= MAX_BITS ==> next[b] == First(lens, b) + Count(lens[..i], b)
  }

  ghost predicate CodesUpTo(code: seq<nat>, lens: seq<nat>, i: nat) {
    && |code| == |lens| && i <= |lens|
    && (forall k :: 0 <= k < i ==> code[k] == Lsb(CodeBits(lens, k)))
    && (forall k :: i <= k < |code| ==> code[k] == 0)
  }

  lemma NumberStart(next: seq<nat>, lens: seq<nat>)
    requires |next| == MAX_BITS + 1 && forall b :: 1 <= b <= MAX_BITS ==> next[b] == First(lens, b)
    ensures Numbered(next, lens, 0)
  {
    assert lens[..0] == [];
  }

  lemma CodeStart(code: seq<nat>, lens: seq<nat>)
    requires |code| == |lens| && forall k :: 0 <= k < |code| ==> code[k] == 0
    ensures CodesUpTo(code, lens, 0)
  {}

  lemma NumberNext(next: seq<nat>, lens: seq<nat>, i: nat)
    requires Numbered(next, lens, i) && i < |lens| && lens[i] <= MAX_BITS
    ensures |next| == MAX_BITS + 1
    ensures lens[i] == 0 ==> Numbered(next, lens, i + 1)
    ensures lens[i] > 0 ==> Numbered(next[lens[i] := next[lens[i]] + 1], lens, i + 1)
    ensures lens[i] > 0 ==> CodeBits(lens, i) == MsbBits(next[lens[i]], lens[i])
  {
    CountSnoc(lens, i);
    CodeBitsIs(lens, i);
    hide First, Count, MsbBits, CodeBits;
  }

  lemma CodeNext(code: seq<nat>, lens: seq<nat>, i: nat)
    requires CodesUpTo(code, lens, i) && i < |lens|
    ensures |code| == |lens|
    ensures lens[i] == 0 ==> CodesUpTo(code, lens, i + 1)
    ensures lens[i] > 0 ==> CodesUpTo(code[i := Lsb(CodeBits(lens, i))], lens, i + 1)
  {
    CodeBitsIs(lens, i);
    hide CodeBits, Lsb;
  }

  /** A lone symbol's code is the single bit 0. */
  lemma SingleCodes(lens: seq<nat>, s: nat, code: seq<nat>)
    requires Single(lens, s) && |code| == |lens| && forall k :: 0 <= k < |code| ==> code[k] == 0
    ensures CodesUpTo(code, lens, |lens|)
  {
    forall k | 0 <= k < |lens|
      ensures Lsb(CodeBits(lens, k)) == 0
    {
      if k == s {
        ZerosCount(lens[..s], 1);
        assert Filled(lens, 0) == 0;
        assert MsbBits(0, 1) == [false];
      }
    }
  }

  lemma CountSnoc(lens: seq<nat>, i: nat)
    requires i < |lens|
    ensures forall b :: b >= 1 ==> Count(lens[..i + 1], b) == Count(lens[..i], b) + if lens[i] == b then 1 else 0
  {
    assert lens[..i + 1][..i] == lens[..i];
  }

  lemma CodeBitsIs(lens: seq<nat>, i: nat)
    requires i < |lens|
    ensures lens[i] == 0 ==> Lsb(CodeBits(lens, i)) == 0
    ensures lens[i] > 0 ==> CodeBits(lens, i) == MsbBits(First(lens, lens[i]) + Count(lens[..i], lens[i]), lens[i])
  {}
}
