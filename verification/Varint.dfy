/** The base-128 integers of the LZB and LZE streams
    (src/codec/xq_codec_lzb.c:52-79, src/codec/xq_codec_lze.c:68-94). */
module Varint {
  import opened Bytes

  function Put(v: nat): (bytes: seq<byte>)
  {
    if v >= 0x80 then [v % 0x80 + 0x80] + Put(v / 0x80) else [v]
  }

  /** What a seven-bit digit contributes at bit `shift`: at 63 the left shift drops all but its
      lowest bit. */
  function Part(digit: nat, shift: nat): nat {
    if shift == 63 then Shl(digit % 2, 63) else Shl(digit, shift)
  }

  /** Reads at `pos` with `v` accumulated below bit `shift`. A tenth byte lands on shift 63; an
      eleventh is refused. Yields `Some((value, next))`. */
  function GetFrom(src: seq<byte>, pos: nat, v: nat, shift: nat): (r: Option<(nat, nat)>)
    requires shift < 64
    ensures r.Some? ==> pos < r.value.1 <= |src|
    decreases |src| - pos
  {
    if pos >= |src| then None
    else
      var b: int := src[pos];
      var sum := v + Part(b % 0x80, shift);
      if b < 0x80 then Some((sum, pos + 1))
      else if shift + 7 >= 64 then None
      else GetFrom(src, pos + 1, sum, shift + 7)
  }

  function Get(src: seq<byte>, pos: nat): (r: Option<(nat, nat)>)
    ensures r.Some? ==> pos < r.value.1 <= |src|
  {
    GetFrom(src, pos, 0, 0)
  }

  /** `w` digits at bit `shift` stay below bit `shift + k` when `w` is below 2^k. */
  lemma ShlBelow(w: nat, shift: nat, k: nat)
    requires w < Pow2(k)
    ensures Pow2(shift) + Shl(w, shift) <= Pow2(shift + k)
  {
    ShlAdd(w, 1, shift);
    ShlOne(shift);
    ShlMonotone(w + 1, Pow2(k), shift);
    ShlOne(k);
    ShlShl(1, k, shift);
    ShlOne(k + shift);
  }

  /** The bits of a new digit lie above `v`, so `|` is addition, and the sum fits 64 bits. */
  lemma AddDigit(v: nat, digit: nat, shift: nat)
    requires shift < 64 && shift % 7 == 0 && v < Pow2(shift) && digit < 0x80
    ensures v + Part(digit, shift) < U64_LIMIT
    ensures shift < 63 ==> v + Part(digit, shift) < Pow2(shift + 7)
  {
    assert Pow2(1) == 2;
    hide Shl, Pow2;
    Pow2Values();
    if shift == 63 {
      ShlBelow(digit % 2, 63, 1);
    } else {
      ShlBelow(digit, shift, 7);
      Pow2Monotone(shift + 7, 63);
    }
  }

  lemma GetIsU64(src: seq<byte>, pos: nat, v: nat, shift: nat)
    requires shift < 64 && shift % 7 == 0 && v < Pow2(shift)
    ensures var r := GetFrom(src, pos, v, shift); r.Some? ==> r.value.0 < U64_LIMIT
    decreases |src| - pos
  {
    if pos < |src| {
      AddDigit(v, src[pos] % 0x80, shift);
    }
  }

  lemma SplitDigit(w: nat, shift: nat)
    ensures Shl(w, shift) == Shl(w % 0x80, shift) + Shl(w / 0x80, shift + 7)
  {
    hide Shl, Pow2;
    var q, r := w / 0x80, w % 0x80;
    ShlAdd(r, 0x80 * q, shift);
    ShlShl(q, 7, shift);
    ShlIsProduct(q, 7);
    Pow2Values();
    assert w == r + 0x80 * q && Shl(q, 7) == 0x80 * q;
  }

  lemma WideDigits(w: nat, shift: nat)
    requires shift < 64 && shift % 7 == 0 && Shl(w, shift) < U64_LIMIT
    ensures w >= 0x80 ==> shift < 63
    ensures w < 0x80 ==> Part(w, shift) == Shl(w, shift)
  {
    Pow2Values();
    ShlOne(63);
    ShlAdd(1, 1, 63);
    ShlMonotone(2, Max(w, 2), shift);
  }

  lemma PutShape(src: seq<byte>, pos: nat, w: nat)
    requires pos + |Put(w)| <= |src| && src[pos..pos + |Put(w)|] == Put(w)
    ensures src[pos] as int % 0x80 == w % 0x80 && (src[pos] < 0x80 <==> w < 0x80)
    ensures w >= 0x80 ==> |Put(w)| == 1 + |Put(w / 0x80)|
                          && src[pos + 1..pos + |Put(w)|] == Put(w / 0x80)
  {
    var enc := src[pos..pos + |Put(w)|];
    assert src[pos] == enc[0];
    if w >= 0x80 {
      assert Put(w)[1..] == Put(w / 0x80);
      assert src[pos + 1..pos + |Put(w)|] == enc[1..];
    }
  }

  lemma {:induction false} GetFromPut(src: seq<byte>, pos: nat, w: nat, acc: nat, shift: nat)
    requires shift < 64 && shift % 7 == 0 && Shl(w, shift) < U64_LIMIT
    requires pos + |Put(w)| <= |src| && src[pos..pos + |Put(w)|] == Put(w)
    ensures GetFrom(src, pos, acc, shift) == Some((acc + Shl(w, shift), pos + |Put(w)|))
    decreases w
  {
    PutShape(src, pos, w);
    WideDigits(w, shift);
    if w >= 0x80 {
      SplitDigit(w, shift);
      GetFromPut(src, pos + 1, w / 0x80, acc + Shl(w % 0x80, shift), shift + 7);
    }
  }

  /** Reading back what was written returns the value and stops right behind it. */
  lemma RoundTrip(src: seq<byte>, pos: nat, v: uint64)
    requires pos + |Put(v)| <= |src| && src[pos..pos + |Put(v)|] == Put(v)
    ensures Get(src, pos) == Some((v, pos + |Put(v)|))
  {
    GetFromPut(src, pos, v, 0, 0);
  }

  /** Seven bits a byte, and none more than needed. */
  lemma {:induction false} PutLength(v: nat, k: nat)
    requires k >= 1
    ensures |Put(v)| <= k <==> v < Pow2(7 * k)
    decreases k
  {
    assert Pow2(7) == 0x80 by { Pow2Values(); }
    if k > 1 {
      Pow2Add(7, 7 * (k - 1));
      if v >= 0x80 {
        PutLength(v / 0x80, k - 1);
        DivBelowIff(v, Pow2(7 * (k - 1)));
      } else {
        Pow2Monotone(0, 7 * (k - 1));
      }
    }
  }

  lemma DivBelowIff(v: nat, p: nat)
    ensures v / 0x80 < p <==> v < 0x80 * p
  {}

  /** Writes into `dst` below `cap`, the way the C loop does; fails exactly when it does not fit. */
  method PutInto(dst: array<byte>, pos: nat, v: uint64) returns (ok: bool, next: nat)
    requires pos <= dst.Length
    modifies dst
    ensures pos <= next <= dst.Length && dst[..pos] == old(dst[..pos])
    ensures ok <==> pos + |Put(v)| <= dst.Length
    ensures ok ==> dst[..next] == old(dst[..pos]) + Put(v)
  {
    var w := v;
    next := pos;
    ghost var done: seq<byte> := [];
    while w >= 0x80
      invariant pos <= next <= dst.Length && next == pos + |done|
      invariant done + Put(w) == Put(v)
      invariant dst[..next] == old(dst[..pos]) + done
      invariant dst[..pos] == old(dst[..pos])
    {
      if next >= dst.Length {
        return false, next;
      }
      assert Put(w) == [w % 0x80 + 0x80] + Put(w / 0x80);
      hide Put;
      dst[next] := w % 0x80 + 0x80;
      done := done + [w % 0x80 + 0x80];
      next := next + 1;
      w := w / 0x80;
    }
    assert Put(w) == [w];
    hide Put;
    if next >= dst.Length {
      return false, next;
    }
    dst[next] := w;
    next := next + 1;
    ok := true;
  }

  /** The reading loop; `value` is meaningful only when `ok`. */
  method GetFromBytes(src: seq<byte>, pos: nat) returns (ok: bool, value: uint64, next: nat)
    ensures Get(src, pos) == if ok then Some((value as int, next)) else None
  {
    var shift := 0;
    value, next := 0, pos;
    while true
      invariant shift < 64 && shift % 7 == 0 && value < Pow2(shift)
      invariant GetFrom(src, next, value, shift) == Get(src, pos)
      decreases 64 - shift
    {
      if next >= |src| {
        return false, value, next;
      }
      var b: int := src[next];
      next := next + 1;
      AddDigit(value, b % 0x80, shift);
      value := value + Part(b % 0x80, shift);
      if b < 0x80 {
        return true, value, next;
      }
      shift := shift + 7;
      if shift >= 64 {
        return false, value, next;
      }
    }
  }
}
