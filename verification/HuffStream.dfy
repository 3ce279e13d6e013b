/** What a code table does to a bit stream: one symbol after another, and the 128-byte form of the
    table itself (src/common/xq_huff.c:158-233). */
module HuffStream {
  import opened Bytes
  import opened HuffTree
  import opened HuffCode
  import opened HuffLens

  ghost predicate StartsWith(lens: seq<nat>, i: nat, bits: Bits) {
    i < |lens| && lens[i] > 0 && CodeBits(lens, i) <= bits
  }

  /** The symbol whose code `bits` starts with, and the bits behind it. */
  ghost function NextSym(lens: seq<nat>, bits: Bits): (r: Option<(nat, Bits)>)
    ensures r.Some? ==> r.value.0 < |lens|
  {
    if exists i: nat :: StartsWith(lens, i, bits) then
      var i: nat :| StartsWith(lens, i, bits);
      Some((i, bits[lens[i]..]))
    else None
  }

  /** The first `n` symbols of a bit stream, or None when it stops being one. */
  ghost function DecodeSyms(lens: seq<nat>, bits: Bits, n: nat): (r: Option<seq<nat>>)
    ensures r.Some? ==> |r.value| == n && forall k :: 0 <= k < n ==> r.value[k] < |lens|
  {
    if n == 0 then Some([])
    else
      match NextSym(lens, bits)
      case None => None
      case Some((s, rest)) =>
        match DecodeSyms(lens, rest, n - 1)
        case None => None
        case Some(ss) => Some([s] + ss)
  }

  function EncodeBits(lens: seq<nat>, syms: seq<nat>): Bits
    requires forall k :: 0 <= k < |syms| ==> syms[k] < |lens|
  {
    if syms == [] then [] else CodeBits(lens, syms[0]) + EncodeBits(lens, syms[1..])
  }

  // ----- at most one code fits

  /** Usable tables stay within fifteen bits and never overfill. */
  lemma UsableFits(lens: seq<nat>)
    requires Usable(lens)
    ensures forall i :: 0 <= i < |lens| ==> lens[i] <= MAX_BITS
    ensures Filled(lens, MAX_BITS) <= Pow2(MAX_BITS)
  {
    hide Filled, Pow2;
    if s: nat :| Single(lens, s) {
      SingleFilled(lens, s, MAX_BITS);
      Pow2Monotone(MAX_BITS - 1, MAX_BITS);
    } else {
      var m: nat :| m <= MAX_BITS && Complete(lens, m);
      CompleteAbove(lens, m, MAX_BITS);
    }
  }

  lemma {:induction false} NoneOfLength(lens: seq<nat>, b: nat)
    requires forall i :: 0 <= i < |lens| ==> lens[i] != b
    ensures Count(lens, b) == 0
  {
    if lens != [] {
      NoneOfLength(lens[..|lens| - 1], b);
    }
  }

  lemma {:induction false} CompleteAbove(lens: seq<nat>, m: nat, b: nat)
    requires Complete(lens, m) && m <= b
    ensures Filled(lens, b) == Pow2(b)
    decreases b
  {
    if m < b {
      CompleteAbove(lens, m, b - 1);
      NoneOfLength(lens, b);
    }
  }

  lemma SingleIsUpdate(lens: seq<nat>, s: nat)
    requires Single(lens, s)
    ensures lens == Zeros(|lens|)[s := 1]
  {}

  lemma SingleFilled(lens: seq<nat>, s: nat, b: nat)
    requires Single(lens, s) && b > 0
    ensures Filled(lens, b) == Pow2(b - 1)
  {
    SingleIsUpdate(lens, s);
    ZerosFillNothing(Zeros(|lens|), b);
    FilledUpdate(Zeros(|lens|), s, 1, b);
  }

  lemma OneStart(lens: seq<nat>, i: nat, j: nat, bits: Bits)
    requires Usable(lens) && StartsWith(lens, i, bits) && StartsWith(lens, j, bits)
    ensures i == j
  {
    UsableFits(lens);
    hide CodeBits, Usable, Filled;
    PrefixesNest(CodeBits(lens, i), CodeBits(lens, j), bits);
    if i != j {
      if lens[i] <= lens[j] {
        PrefixFree(lens, i, j, MAX_BITS);
      } else {
        PrefixFree(lens, j, i, MAX_BITS);
      }
    }
  }

  lemma PrefixesNest(p: Bits, q: Bits, b: Bits)
    requires p <= b && q <= b
    ensures |p| <= |q| ==> p <= q
    ensures |q| <= |p| ==> q <= p
  {}

  lemma NextSymIs(lens: seq<nat>, i: nat, bits: Bits)
    requires Usable(lens) && StartsWith(lens, i, bits)
    ensures NextSym(lens, bits) == Some((i, bits[lens[i]..]))
  {
    var r := NextSym(lens, bits).value;
    var j: nat :| StartsWith(lens, j, bits) && r == (j, bits[lens[j]..]);
    OneStart(lens, i, j, bits);
  }

  lemma NothingEncoded(lens: seq<nat>, tail: Bits)
    ensures DecodeSyms(lens, EncodeBits(lens, []) + tail, 0) == Some([])
  {
    hide NextSym, CodeBits;
  }

  lemma EncodedFront(lens: seq<nat>, syms: seq<nat>, tail: Bits)
    requires syms != [] && (forall k :: 0 <= k < |syms| ==> syms[k] < |lens|) && lens[syms[0]] > 0
    ensures var i, rest := syms[0], EncodeBits(lens, syms[1..]) + tail;
            && EncodeBits(lens, syms) + tail == CodeBits(lens, i) + rest
            && StartsWith(lens, i, CodeBits(lens, i) + rest) && (CodeBits(lens, i) + rest)[lens[i]..] == rest
  {
    hide CodeBits;
    var i, r := syms[0], EncodeBits(lens, syms[1..]);
    var w := CodeBits(lens, i);
    assert EncodeBits(lens, syms) == w + r;
    hide EncodeBits;
    Joined(w, r, tail);
  }

  lemma Joined(w: Bits, r: Bits, tail: Bits)
    ensures w + r + tail == w + (r + tail) && w <= w + (r + tail) && (w + (r + tail))[|w|..] == r + tail
  {}

  lemma DecodesOne(lens: seq<nat>, bits: Bits, i: nat, rest: Bits, syms: seq<nat>)
    requires NextSym(lens, bits) == Some((i, rest)) && DecodeSyms(lens, rest, |syms|) == Some(syms)
    ensures DecodeSyms(lens, bits, |syms| + 1) == Some([i] + syms)
  {
    hide NextSym;
  }

  /** Decoding inverts encoding, whatever bits follow. */
  lemma {:induction false} DecodeEncode(lens: seq<nat>, syms: seq<nat>, tail: Bits)
    requires Usable(lens)
    requires forall k :: 0 <= k < |syms| ==> syms[k] < |lens| && lens[syms[k]] > 0
    ensures DecodeSyms(lens, EncodeBits(lens, syms) + tail, |syms|) == Some(syms)
  {
    hide *;
    if syms == [] {
      NothingEncoded(lens, tail);
    } else {
      var i, rest := syms[0], EncodeBits(lens, syms[1..]) + tail;
      DecodeEncode(lens, syms[1..], tail);
      EncodedFront(lens, syms, tail);
      NextSymIs(lens, i, CodeBits(lens, i) + rest);
      DecodesOne(lens, CodeBits(lens, i) + rest, i, rest, syms[1..]);
      assert [syms[0]] + syms[1..] == syms;
    }
  }

  // ----- the table as bytes

  const TABLE_BYTES := 128

  /** Two four-bit lengths a byte, the lower symbol in the low half. */
  function StoreTable(lens: seq<nat>): (t: seq<byte>)
    requires |lens| == SYMBOLS && forall i :: 0 <= i < SYMBOLS ==> lens[i] < 0x10
    ensures |t| == TABLE_BYTES
  {
    seq(TABLE_BYTES, k requires 0 <= k < TABLE_BYTES => lens[2 * k] + lens[2 * k + 1] * 0x10)
  }

  function Nibble(src: seq<byte>, i: nat): (l: nat)
    requires |src| == TABLE_BYTES && i < SYMBOLS
    ensures l < 0x10
  {
    if i % 2 == 0 then src[i / 2] as int % 0x10 else src[i / 2] as int / 0x10
  }

  function LoadTable(src: seq<byte>): (lens: seq<nat>)
    requires |src| == TABLE_BYTES
    ensures |lens| == SYMBOLS && forall i :: 0 <= i < SYMBOLS ==> lens[i] < 0x10
  {
    seq(SYMBOLS, i requires 0 <= i < SYMBOLS => Nibble(src, i))
  }

  lemma LoadStore(lens: seq<nat>)
    requires |lens| == SYMBOLS && forall i :: 0 <= i < SYMBOLS ==> lens[i] < 0x10
    ensures LoadTable(StoreTable(lens)) == lens
  {
    var b := StoreTable(lens);
    forall i | 0 <= i < SYMBOLS
      ensures LoadTable(b)[i] == lens[i]
    {
      var k := i / 2;
      assert b[k] as int == lens[2 * k] + lens[2 * k + 1] * 0x10;
    }
  }

  lemma StoreLoad(src: seq<byte>)
    requires |src| == TABLE_BYTES
    ensures StoreTable(LoadTable(src)) == src
  {
    var lens := LoadTable(src);
    forall k | 0 <= k < TABLE_BYTES
      ensures StoreTable(lens)[k] == src[k]
    {
      assert lens[2 * k] == src[k] as int % 0x10 && lens[2 * k + 1] == src[k] as int / 0x10;
    }
  }

  // ----- what acceptance means

  function MaxLen(lens: seq<nat>): (m: nat)
    ensures forall i :: 0 <= i < |lens| ==> lens[i] <= m
    ensures m > 0 ==> exists i :: 0 <= i < |lens| && lens[i] == m
  {
    if lens == [] then 0 else
      var n := |lens| - 1;
      var m := MaxLen(lens[..n]);
      if lens[n] > m then
        assert lens[n] == lens[n];
        lens[n]
      else
        assert m > 0 ==> exists i :: 0 <= i < n && lens[..n][i] == m && lens[i] == m;
        m
  }

  /** The loader's test in terms of the table: with one symbol its length must be one; with more the
      fill must be exact at the longest length. */
  lemma Acceptance(lens: seq<nat>)
    requires forall i :: 0 <= i < |lens| ==> lens[i] <= MAX_BITS
    ensures Usable(lens) <==>
              (Used(lens) == 1 && MaxLen(lens) == 1)
              || (Used(lens) >= 2 && Filled(lens, MaxLen(lens)) == Pow2(MaxLen(lens)))
  {
    var m := MaxLen(lens);
    hide MaxLen;
    if Used(lens) == 0 {
      NoneUsed(lens);
      assert !Usable(lens);
    } else if Used(lens) == 1 {
      var s := SomeUsed(lens);
      OneUsed(lens, s);
      assert m == lens[s];
      if m == 1 {
        assert Single(lens, s);
      } else {
        LonelyIsIncomplete(lens, s);
      }
    } else {
      assert forall s: nat :: !Single(lens, s) by {
        forall s: nat | Single(lens, s)
          ensures false
        {
          SingleUsed(lens, s);
        }
      }
      forall k: nat | Complete(lens, k)
        ensures k == m
      {}
      var s := SomeUsed(lens);
      assert lens[s] > 0;
      assert Complete(lens, m) <==> Filled(lens, m) == Pow2(m);
    }
  }

  lemma {:induction false} SingleUsed(lens: seq<nat>, s: nat)
    requires Single(lens, s)
    ensures Used(lens) == 1
  {
    var n := |lens| - 1;
    if s == n {
      ZerosUsed(lens[..n]);
    } else {
      SingleUsed(lens[..n], s);
    }
  }

  lemma {:induction false} ZerosUsed(lens: seq<nat>)
    requires forall i :: 0 <= i < |lens| ==> lens[i] == 0
    ensures Used(lens) == 0
  {
    if lens != [] {
      ZerosUsed(lens[..|lens| - 1]);
    }
  }

  /** A lone code longer than one bit is neither. */
  lemma LonelyIsIncomplete(lens: seq<nat>, s: nat)
    requires s < |lens| && lens[s] > 1 && forall i :: 0 <= i < |lens| && i != s ==> lens[i] == 0
    ensures !Usable(lens)
  {
    var z := Zeros(|lens|);
    assert lens == z[s := lens[s]];
    forall m: nat
      ensures !Complete(lens, m)
    {
      ZerosFillNothing(z, m);
      FilledUpdate(z, s, lens[s], m);
      if m > 0 {
        Pow2Monotone(if lens[s] <= m then m - lens[s] else 0, m - 1);
      }
    }
    forall t: nat
      ensures !Single(lens, t)
    {}
  }

  /** A built table survives its trip through the stream: the loader gets the same lengths and
      accepts them. */
  lemma BuiltTableLoads(freq: seq<nat>)
    requires |freq| == SYMBOLS && BuildLens(freq).Some?
    ensures var lens := BuildLens(freq).value;
            && (forall i :: 0 <= i < SYMBOLS ==> lens[i] < 0x10)
            && LoadTable(StoreTable(lens)) == lens && Usable(lens)
  {
    hide BuildLens, Usable, LoadTable, StoreTable;
    BuildIsUsable(freq);
    var lens := BuildLens(freq).value;
    UsableFits(lens);
    LoadStore(lens);
  }
}
