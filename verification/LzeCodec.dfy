/** The LZE codec as it runs: contexts whose intermediate buffers only grow, counting, emitting and
    decoding loops (src/codec/xq_codec_lze.c). */
module LzeCodec {
  import opened Bytes
  import opened HuffTree
  import opened HuffCode
  import opened HuffLens
  import opened HuffStream
  import opened HuffEncoder
  import opened HuffDecoder
  import opened LzbStream
  import opened LzbParse
  import opened LzbCodec
  import opened LzeStream
  import opened BitIO
  import Varint

  method CountBytes(data: seq<byte>) returns (freq: seq<nat>)
    ensures freq == Histogram(data)
  {
    var f := new nat[SYMBOLS](_ => 0);
    var i := 0;
    while i < |data|
      invariant 0 <= i <= |data|
      invariant forall s :: 0 <= s < SYMBOLS ==> f[s] == Occurs(data[..i], s)
    {
      assert data[..i + 1][..i] == data[..i];
      f[data[i]] := f[data[i]] + 1;
      i := i + 1;
    }
    assert data[..i] == data;
    freq := f[..];
  }

  lemma EncodeSnoc(lens: seq<nat>, syms: seq<nat>, s: nat)
    requires (forall k :: 0 <= k < |syms| ==> syms[k] < |lens|) && s < |lens|
    ensures EncodeBits(lens, syms + [s]) == EncodeBits(lens, syms) + CodeBits(lens, s)
  {
    hide CodeBits;
    if syms == [] {
      assert [] + [s] == [s] && [s][1..] == [];
    } else {
      assert (syms + [s])[1..] == syms[1..] + [s];
      EncodeSnoc(lens, syms[1..], s);
    }
  }

  /** A stored code, emitted low bits first, is the canonical code. */
  lemma StoredCode(code: seq<nat>, lens: seq<nat>, s: nat)
    requires CodesUpTo(code, lens, |lens|) && s < |lens|
    ensures LsbBits(code[s], lens[s]) == CodeBits(lens, s) && code[s] < Pow2(lens[s])
  {
    hide CodeBits;
    BitsOfLsb(CodeBits(lens, s));
    LsbBound(CodeBits(lens, s));
  }

  /** Emits every byte's code behind `dst[..base]`. */
  method EmitCodes(dst: array<byte>, base: nat, e: HuffEnc, data: seq<byte>) returns (ok: bool, blen: nat)
    requires base <= dst.Length && e.Valid() && e.Coded()
    requires {dst as object} !! {e.len as object, e.code}
    modifies dst
    ensures dst[..base] == old(dst[..base])
    ensures var body := HuffBody(data, e.len[..]);
            && (ok <==> base + |body| <= dst.Length)
            && (ok ==> blen == |body| && dst[base..base + blen] == body)
  {
    hide EncodeBits, CodesUpTo, Pack;
    ghost var lens := e.len[..];
    var w := new BitWriter(dst, base);
    var i := 0;
    EncodeNothing(lens, data);
    while i < |data|
      invariant 0 <= i <= |data| && w.Valid() && e.Coded() && e.len[..] == lens
      invariant w.bits == EncodeBits(lens, ToSyms(data[..i]))
      invariant dst[..base] == old(dst[..base])
    {
      var s := data[i] as int;
      SymsSnoc(data, i);
      EncodeSnoc(lens, ToSyms(data[..i]), s);
      StoredCode(e.code[..], lens, s);
      w.Put(e.code[s], e.len[s]);
      i := i + 1;
    }
    assert data[..i] == data;
    ok, blen := w.Flush();
  }

  lemma EncodeNothing(lens: seq<nat>, data: seq<byte>)
    requires |lens| == SYMBOLS
    ensures EncodeBits(lens, ToSyms(data[..0])) == []
  {}

  lemma SymsSnoc(data: seq<byte>, i: nat)
    requires i < |data|
    ensures ToSyms(data[..i + 1]) == ToSyms(data[..i]) + [data[i] as int]
  {}

  method StoreInto(dst: array<byte>, op: nat, e: HuffEnc)
    requires e.Valid() && e.Coded() && op + TABLE_BYTES <= dst.Length
    requires {dst as object} !! {e.len as object, e.code}
    modifies dst
    ensures dst[..op + TABLE_BYTES] == old(dst[..op]) + StoreTable(e.len[..])
  {
    forall k | 0 <= k < TABLE_BYTES {
      dst[op + k] := e.len[2 * k] + e.len[2 * k + 1] * 0x10;
    }
  }

  /** The Huffman header: mode, length, table. */
  method EmitHeader(dst: array<byte>, e: HuffEnc, lz: seq<byte>) returns (ok: bool, op: nat)
    requires e.Valid() && e.Coded() && |lz| < U64_LIMIT
    requires {dst as object} !! {e.len as object, e.code}
    modifies dst
    ensures var head := HuffHeader(lz, e.len[..]);
            && (ok <==> |head| <= dst.Length)
            && (ok ==> op == |head| && dst[..op] == head)
  {
    hide Varint.Put, StoreTable, CodesUpTo;
    op := 0;
    if dst.Length == 0 {
      return false, 0;
    }
    dst[0] := MODE_HUFF;
    ok, op := Varint.PutInto(dst, 1, |lz|);
    if !ok || op + TABLE_BYTES > dst.Length {
      return false, op;
    }
    StoreInto(dst, op, e);
    op := op + TABLE_BYTES;
  }

  method EmitRaw(dst: array<byte>, mid: array<byte>, mlen: nat) returns (st: Status, op: nat)
    requires mlen <= mid.Length && dst != mid
    modifies dst
    ensures op <= dst.Length
    ensures RawForm(mid[..mlen], dst.Length) == if st == XqOk then Success(dst[..op]) else Failure(st)
  {
    if 1 + mlen > dst.Length {
      return ErrDstTooSmall, 0;
    }
    dst[0] := MODE_RAW;
    CopyBytes(dst, 1, mid[..mlen], 0, mlen);
    assert dst[..1 + mlen] == [MODE_RAW] + mid[..mlen];
    return XqOk, 1 + mlen;
  }

  class LzeCCtx {
    const lzb: CCtx
    var mid: array<byte>

    ghost predicate Valid()
      reads this, lzb
    {
      lzb.Valid() && mid.Length <= MidNeed(BLOCK_SIZE_MAX) && mid !in {lzb.head as object, lzb.chain}
    }

    constructor ()
      ensures Valid() && fresh(lzb) && fresh(lzb.head) && fresh(lzb.chain) && fresh(mid) && mid.Length == 0
    {
      lzb := new CCtx();
      mid := new byte[0];
    }

    /** Grows the intermediate buffer to the block's need; it never shrinks. The outcome is the
        form of the block's LZB stream for that buffer. */
    method Compress(dst: array<byte>, src: seq<byte>, level: int, d: CDict?) returns (st: Status, outLen: nat)
      requires Valid() && |src| <= BLOCK_SIZE_MAX && (d != null ==> d.Valid())
      requires dst !in {mid as object, lzb.head, lzb.chain}
      requires d != null ==> {lzb.head as object, lzb.chain, mid, dst} !! {d.head as object, d.chain}
      modifies this`mid, mid, lzb, lzb.head, lzb.chain, dst
      ensures Valid()
      ensures src != [] ==> mid.Length == Max(old(mid.Length), MidNeed(|src|))
      ensures src == [] ==> mid == old(mid)
      ensures outLen <= dst.Length
      ensures LzeBytes(src, DictData(d), level, mid.Length, dst.Length)
              == if st == XqOk then Success(dst[..outLen]) else Failure(st)
    {
      hide LzbBytes, LzeForm, Holds;
      if |src| == 0 {
        assert dst[..0] == [];
        return XqOk, 0;
      }
      var need := MidNeed(|src|);
      if mid.Length < need {
        mid := new byte[need];
      }
      var mlen;
      st, mlen := lzb.Compress(mid, src, level, d);
      if st != XqOk {
        return st, 0;
      }
      st, outLen := Entropy(dst, mlen);
    }

    /** The entropy stage over `mid[..mlen]`. */
    method Entropy(dst: array<byte>, mlen: nat) returns (st: Status, outLen: nat)
      requires mlen <= mid.Length <= MidNeed(BLOCK_SIZE_MAX) && dst != mid
      modifies dst
      ensures outLen <= dst.Length
      ensures LzeForm(mid[..mlen], dst.Length) == if st == XqOk then Success(dst[..outLen]) else Failure(st)
    {
      hide BuildLens, Histogram, HuffForm, RawForm, CodesUpTo;
      var lz := mid[..mlen];
      var freq := CountBytes(lz);
      if mlen >= 64 {
        var e := new HuffEnc();
        var built := e.Build(freq);
        if built {
          BuiltTableLoads(freq);
          var taken;
          taken, st, outLen := TryHuffman(dst, e, lz);
          if taken {
            return;
          }
        }
      }
      st, outLen := EmitRaw(dst, mid, mlen);
    }
  }

  method TryHuffman(dst: array<byte>, e: HuffEnc, lz: seq<byte>) returns (taken: bool, st: Status, outLen: nat)
    requires e.Valid() && e.Coded() && |lz| < U64_LIMIT
    requires {dst as object} !! {e.len as object, e.code}
    modifies dst
    ensures outLen <= dst.Length && BuiltTableFits(e.len[..])
    ensures HuffForm(lz, e.len[..], dst.Length)
            == if !taken then None else Some(if st == XqOk then Success(dst[..outLen]) else Failure(st))
  {
    hide HuffHeader, HuffBody, CodesUpTo;
    var ok, op := EmitHeader(dst, e, lz);
    if !ok {
      return true, ErrDstTooSmall, 0;
    }
    ghost var head := dst[..op];
    var blen;
    ok, blen := EmitCodes(dst, op, e, lz);
    if ok && op + blen < |lz| + 1 {
      assert dst[..op + blen] == head + dst[op..op + blen];
      return true, XqOk, op + blen;
    }
    return false, XqOk, 0;
  }

  class LzeDCtx {
    var mid: array<byte>

    constructor ()
      ensures fresh(mid)
    {
      mid := new byte[0];
    }

    /** Computes exactly the reference decoder, on every byte string. */
    method Decompress(dst: array<byte>, src: seq<byte>, dict: seq<byte>) returns (st: Status, op: nat)
      requires dst != mid
      modifies this, mid, dst
      ensures op <= dst.Length
      ensures LzeDecode(src, dict, dst.Length) == if st == XqOk then Success(dst[..op]) else Failure(st)
    {
      hide Decode, Varint.Get, LoadTable, Usable, DecodeSyms, Unpack, FromSyms;
      if |src| == 0 {
        assert dst[..0] == [];
        return XqOk, 0;
      }
      if src[0] == MODE_RAW {
        st, op := LzbCodec.Decompress(dst, src[1..], dict);
        return;
      }
      if src[0] != MODE_HUFF {
        return ErrCorruptBlock, 0;
      }
      var ok, mlen, ip := Varint.GetFromBytes(src, 1);
      if !ok || mlen as int > MID_LIMIT || ip + TABLE_BYTES > |src| {
        return ErrCorruptBlock, 0;
      }
      var dec := new HuffDec();
      ok := dec.Load(src[ip..ip + TABLE_BYTES]);
      if !ok {
        return ErrCorruptBlock, 0;
      }
      if mid.Length < mlen as int {
        mid := new byte[mlen];
      }
      ok := DecodeAll(dec, src[ip + TABLE_BYTES..], mlen as int);
      if !ok {
        return ErrCorruptBlock, 0;
      }
      st, op := LzbCodec.Decompress(dst, mid[..mlen], dict);
    }

    /** Decodes `n` symbols into `mid`. */
    method DecodeAll(dec: HuffDec, body: seq<byte>, n: nat) returns (ok: bool)
      requires dec.Valid() && n <= mid.Length
      requires {mid as object} !! {dec as object, dec.sym, dec.len}
      modifies mid
      ensures var r := DecodeSyms(dec.lens, Unpack(body), n);
              if ok then r.Some? && mid[..n] == FromSyms(r.value) else r == None
    {
      hide Usable, FilledTo, MaxLen, NextSym, Unpack, DecodeSyms;
      ghost var lens := dec.lens;
      var r := new BitReader(body);
      ghost var got: seq<nat> := [];
      var i := 0;
      NothingPrefixed(DecodeSyms(lens, Unpack(body), n));
      while i < n
        invariant 0 <= i <= n && |got| == i && r.Valid() && dec.Valid() && fresh(r)
        invariant forall k :: 0 <= k < i ==> got[k] < SYMBOLS && mid[k] as int == got[k]
        invariant DecodeSyms(lens, Unpack(body), n) == Prefixed(got, DecodeSyms(lens, r.Rest(), n - i))
      {
        ghost var rest := r.Rest();
        var s;
        ok, s := DecodeOne(r, dec);
        if !ok {
          SymsEnd(lens, rest, n - i, got);
          return false;
        }
        DecodeSymsStep(lens, rest, n - i, got);
        mid[i] := s;
        got := got + [s];
        i := i + 1;
      }
      NoSymsLeft(lens, r.Rest(), got);
      ok := true;
    }
  }

  ghost function Prefixed(done: seq<nat>, r: Option<seq<nat>>): Option<seq<nat>> {
    match r
    case None => None
    case Some(s) => Some(done + s)
  }

  lemma NothingPrefixed(r: Option<seq<nat>>)
    ensures Prefixed([], r) == r
  {
    if r.Some? {
      assert [] + r.value == r.value;
    }
  }

  lemma SymsEnd(lens: seq<nat>, bits: Bits, n: nat, done: seq<nat>)
    requires n > 0 && NextSym(lens, bits) == None
    ensures Prefixed(done, DecodeSyms(lens, bits, n)) == None
  {
    hide NextSym;
  }

  lemma NoSymsLeft(lens: seq<nat>, bits: Bits, done: seq<nat>)
    ensures Prefixed(done, DecodeSyms(lens, bits, 0)) == Some(done)
  {
    assert done + [] == done;
  }

  lemma DecodeSymsStep(lens: seq<nat>, bits: Bits, n: nat, done: seq<nat>)
    requires n > 0 && NextSym(lens, bits).Some?
    ensures var (s, rest) := NextSym(lens, bits).value;
            Prefixed(done, DecodeSyms(lens, bits, n)) == Prefixed(done + [s], DecodeSyms(lens, rest, n - 1))
  {
    hide NextSym;
    var (s, rest) := NextSym(lens, bits).value;
    var r := DecodeSyms(lens, rest, n - 1);
    if r.Some? {
      assert done + ([s] + r.value) == (done + [s]) + r.value;
    }
  }
}
