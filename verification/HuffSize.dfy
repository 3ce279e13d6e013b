/** How long a Huffman-coded body can get: with few symbols in use every code is short
    (src/common/xq_huff.c:54-156, src/codec/xq_codec_lze.c:114-140). */
module HuffSize {
  import opened Bytes
  import opened HuffTree
  import opened HuffCode
  import opened HuffLens
  import opened HuffStream
  import opened LzeStream
  import BitIO
  import Varint

  /** A tree is lower than it has leaves. */
  lemma {:induction false} LowerThanLeaves(t: Tree)
    requires Distinct(t)
    ensures Height(t) + 1 <= |Syms(t)|
  {
    if t.Node? {
      LowerThanLeaves(t.left);
      LowerThanLeaves(t.right);
      assert Syms(t) == Syms(t.left) + Syms(t.right);
    }
  }

  lemma Subset(a: set<nat>, b: set<nat>)
    requires a <= b
    ensures |a| <= |b|
  {
    assert b == a + (b - a);
  }

  /** With at most `|s|` symbols in use no code is longer than `|s| - 1` bits, or one bit for a lone symbol. */
  lemma FewSymbols(freq: seq<nat>, s: set<nat>)
    requires Used(freq) >= 1 && |s| <= 16 && forall i: nat :: i < |freq| && freq[i] > 0 ==> i in s
    ensures BuildLens(freq).Some?
    ensures forall i :: 0 <= i < |freq| ==> BuildLens(freq).value[i] <= Max(1, |s| - 1)
  {
    if Used(freq) >= 2 {
      var t := HuffmanTree(freq);
      TreeSyms(freq);
      LowerThanLeaves(t);
      assert Syms(t) <= s;
      Subset(Syms(t), s);
      hide HuffmanTree, Syms, Distinct, Used;
      assert BuildLens(freq) == Some(Spread(t, 0, Zeros(|freq|)));
      forall i | 0 <= i < |freq|
        ensures Spread(t, 0, Zeros(|freq|))[i] <= Height(t)
      {
        if i in Syms(t) {
          SpreadIsLeafDepth(t, 0, Zeros(|freq|), i);
          LeafDepthBound(t, i);
        } else {
          SpreadElsewhere(t, 0, Zeros(|freq|), i);
        }
      }
    }
  }

  lemma {:induction false} BitsBounded(lens: seq<nat>, syms: seq<nat>, m: nat)
    requires forall k :: 0 <= k < |syms| ==> syms[k] < |lens|
    requires forall i :: 0 <= i < |lens| ==> lens[i] <= m
    ensures |EncodeBits(lens, syms)| <= m * |syms|
  {
    hide CodeBits;
    if syms != [] {
      BitsBounded(lens, syms[1..], m);
      assert |CodeBits(lens, syms[0])| == lens[syms[0]] <= m;
      MulOne(m, |syms[1..]|);
    }
  }

  lemma MulOne(m: nat, n: nat)
    ensures m * (n + 1) == m + m * n
  {}

  lemma {:induction false} OccursOnly(data: seq<byte>, s: set<nat>, i: nat)
    requires (forall k :: 0 <= k < |data| ==> data[k] as int in s) && i !in s
    ensures Occurs(data, i) == 0
  {
    if data != [] {
      OccursOnly(data[..|data| - 1], s, i);
    }
  }

  lemma UsedBytes(data: seq<byte>, s: set<nat>)
    requires data != [] && forall k :: 0 <= k < |data| ==> data[k] as int in s
    ensures Used(Histogram(data)) >= 1
    ensures forall i: nat :: i < SYMBOLS && Histogram(data)[i] > 0 ==> i in s
  {
    Occurring(data, 0);
    UsedSome(Histogram(data), data[0] as int);
    forall i: nat | i < SYMBOLS && i !in s
      ensures Histogram(data)[i] == 0
    {
      OccursOnly(data, s, i);
    }
  }

  /** A stream of at least 64 bytes over at most `|s|` byte values takes at most `|s| - 1` bits a byte in
      its Huffman form, behind a mode byte, its length and the table. */
  lemma FewBytesPay(lz: seq<byte>, s: set<nat>, cap: nat)
    requires |lz| >= 64 && 2 <= |s| <= 8 && forall k :: 0 <= k < |lz| ==> lz[k] as int in s
    requires FormSize(|lz|, |s| - 1) <= cap && FormSize(|lz|, |s| - 1) <= |lz|
    ensures LzeForm(lz, cap).Success? && |LzeForm(lz, cap).value| <= FormSize(|lz|, |s| - 1)
  {
    hide Histogram, BuildLens, Used, StoreTable, LoadTable, Usable, BitIO.Pack, Varint.Put, EncodeBits;
    var freq := Histogram(lz);
    UsedBytes(lz, s);
    FewSymbols(freq, s);
    BuiltTableLoads(freq);
    BodyBounded(lz, BuildLens(freq).value, |s| - 1);
    hide HuffBody;
  }

  function FormSize(n: nat, m: nat): nat {
    1 + |Varint.Put(n)| + TABLE_BYTES + (m * n + 7) / 8
  }

  lemma BodyBounded(lz: seq<byte>, lens: seq<nat>, m: nat)
    requires |lens| == SYMBOLS && forall i :: 0 <= i < |lens| ==> lens[i] <= m
    ensures |HuffBody(lz, lens)| <= (m * |lz| + 7) / 8
  {
    hide EncodeBits, BitIO.Pack;
    BitsBounded(lens, ToSyms(lz), m);
    DivMonotone(|EncodeBits(lens, ToSyms(lz))| + 7, m * |lz| + 7);
  }

  lemma DivMonotone(a: nat, b: nat)
    requires a <= b
    ensures a / 8 <= b / 8
  {}
}
