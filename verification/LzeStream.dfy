/** The LZE block as bytes: an LZB stream stored raw or Huffman-coded, how the encoder chooses, and
    the round trip (src/codec/xq_codec_lze.c:25-28, 96-192). */
module LzeStream {
  import opened Bytes
  import opened HuffTree
  import opened HuffCode
  import opened HuffLens
  import opened HuffStream
  import opened LzbStream
  import opened LzbParse
  import BitIO
  import Varint

  const MODE_RAW: byte := 0
  const MODE_HUFF: byte := 1

  function LzbBound(n: nat): nat {
    n + n / 255 + 32
  }

  /** What the intermediate buffer is grown to for a block of `n` bytes. */
  function MidNeed(n: nat): nat {
    LzbBound(n) + 32
  }

  /** The longest LZB stream the decoder is willing to take. */
  const MID_LIMIT: nat := BLOCK_SIZE_MAX + BLOCK_SIZE_MAX / 255 + 64

  function Occurs(data: seq<byte>, s: nat): nat {
    if data == [] then 0 else Occurs(data[..|data| - 1], s) + if data[|data| - 1] as int == s then 1 else 0
  }

  function Histogram(data: seq<byte>): (h: seq<nat>)
    ensures |h| == SYMBOLS
  {
    seq(SYMBOLS, s requires 0 <= s < SYMBOLS => Occurs(data, s))
  }

  lemma {:induction false} Occurring(data: seq<byte>, k: nat)
    requires k < |data|
    ensures Occurs(data, data[k] as int) > 0
  {
    if k < |data| - 1 {
      Occurring(data[..|data| - 1], k);
    }
  }

  function ToSyms(data: seq<byte>): (s: seq<nat>)
    ensures |s| == |data| && forall k :: 0 <= k < |s| ==> s[k] < SYMBOLS
  {
    seq(|data|, k requires 0 <= k < |data| => data[k] as int)
  }

  function FromSyms(s: seq<nat>): (data: seq<byte>)
    requires forall k :: 0 <= k < |s| ==> s[k] < SYMBOLS
    ensures |data| == |s|
  {
    seq(|s|, k requires 0 <= k < |s| => s[k])
  }

  lemma FromToSyms(data: seq<byte>)
    ensures FromSyms(ToSyms(data)) == data
  {}

  predicate BuiltTableFits(lens: seq<nat>) {
    |lens| == SYMBOLS && forall i :: 0 <= i < SYMBOLS ==> lens[i] < 0x10
  }

  function HuffHeader(lz: seq<byte>, lens: seq<nat>): seq<byte>
    requires |lens| == SYMBOLS && forall i :: 0 <= i < SYMBOLS ==> lens[i] < 0x10
  {
    [MODE_HUFF] + Varint.Put(|lz|) + StoreTable(lens)
  }

  function HuffBody(lz: seq<byte>, lens: seq<nat>): seq<byte>
    requires |lens| == SYMBOLS
  {
    BitIO.Pack(EncodeBits(lens, ToSyms(lz)))
  }

  function RawForm(lz: seq<byte>, cap: nat): Result<seq<byte>> {
    if 1 + |lz| > cap then Failure(ErrDstTooSmall) else Success([MODE_RAW] + lz)
  }

  /** The Huffman form under a code, or None where the encoder falls back: a body that does not fit
      or does not pay. A header that does not fit is an error, even where the raw form would fit. */
  function HuffForm(lz: seq<byte>, lens: seq<nat>, cap: nat): Option<Result<seq<byte>>>
    requires BuiltTableFits(lens)
  {
    var head, body := HuffHeader(lz, lens), HuffBody(lz, lens);
    if |head| > cap then Some(Failure(ErrDstTooSmall))
    else if |head| + |body| <= cap && |head| + |body| < |lz| + 1 then Some(Success(head + body))
    else None
  }

  /** What LZE makes of an LZB stream in `cap` bytes. */
  function LzeForm(lz: seq<byte>, cap: nat): (r: Result<seq<byte>>)
    ensures r.Failure? ==> r.error == ErrDstTooSmall
    ensures r.Success? ==> |r.value| <= cap
  {
    var code := BuildLens(Histogram(lz));
    if |lz| >= 64 && code.Some? then
      BuiltTableLoads(Histogram(lz));
      match HuffForm(lz, code.value, cap)
      case Some(r) => r
      case None => RawForm(lz, cap)
    else RawForm(lz, cap)
  }

  /** A block compressed in a context whose intermediate buffer has `midCap` bytes. */
  function LzeBytes(src: seq<byte>, dict: seq<byte>, level: int, midCap: nat, cap: nat): (r: Result<seq<byte>>)
    ensures r.Failure? ==> r.error == ErrDstTooSmall
  {
    if src == [] then Success([])
    else
      var lz := LzbBytes(src, dict, level);
      if |lz| > midCap then Failure(ErrDstTooSmall) else LzeForm(lz, cap)
  }

  ghost function LzeDecode(src: seq<byte>, dict: seq<byte>, cap: nat): Result<seq<byte>> {
    if src == [] then Success([])
    else if src[0] == MODE_RAW then Decode(src[1..], dict, cap)
    else if src[0] != MODE_HUFF then Failure(ErrCorruptBlock)
    else
      match Varint.Get(src, 1)
      case None => Failure(ErrCorruptBlock)
      case Some((mlen, ip)) =>
        if mlen > MID_LIMIT || ip + TABLE_BYTES > |src| then Failure(ErrCorruptBlock)
        else
          var lens := LoadTable(src[ip..ip + TABLE_BYTES]);
          if !Usable(lens) then Failure(ErrCorruptBlock)
          else
            match DecodeSyms(lens, BitIO.Unpack(src[ip + TABLE_BYTES..]), mlen)
            case None => Failure(ErrCorruptBlock)
            case Some(syms) => Decode(FromSyms(syms), dict, cap)
  }

  // ----- round trip

  lemma CodesForAll(lz: seq<byte>)
    requires BuildLens(Histogram(lz)).Some?
    ensures var lens := BuildLens(Histogram(lz)).value;
            Usable(lens) && forall k :: 0 <= k < |lz| ==> lens[ToSyms(lz)[k]] > 0
  {
    hide BuildLens, Usable;
    BuildIsUsable(Histogram(lz));
    forall k | 0 <= k < |lz|
      ensures BuildLens(Histogram(lz)).value[ToSyms(lz)[k]] > 0
    {
      Occurring(lz, k);
    }
  }

  /** Packing pads the last byte; the padding is never read. */
  lemma PackedDecodes(lens: seq<nat>, syms: seq<nat>)
    requires Usable(lens) && forall k :: 0 <= k < |syms| ==> syms[k] < |lens| && lens[syms[k]] > 0
    ensures DecodeSyms(lens, BitIO.Unpack(BitIO.Pack(EncodeBits(lens, syms))), |syms|) == Some(syms)
  {
    var bits := EncodeBits(lens, syms);
    BitIO.UnpackPack(bits);
    hide Usable, DecodeSyms, EncodeBits, BitIO.Unpack, BitIO.Pack;
    var padded := BitIO.Unpack(BitIO.Pack(bits));
    assert padded == bits + padded[|bits|..];
    DecodeEncode(lens, syms, padded[|bits|..]);
  }

  lemma BodyDecodes(lz: seq<byte>)
    requires BuildLens(Histogram(lz)).Some?
    ensures var lens := BuildLens(Histogram(lz)).value;
            DecodeSyms(lens, BitIO.Unpack(HuffBody(lz, lens)), |lz|) == Some(ToSyms(lz))
  {
    hide BuildLens, Usable, ToSyms, Histogram, DecodeSyms, EncodeBits, BitIO.Unpack, BitIO.Pack;
    CodesForAll(lz);
    PackedDecodes(BuildLens(Histogram(lz)).value, ToSyms(lz));
  }

  lemma HeaderParts(n: seq<byte>, t: seq<byte>, b: seq<byte>, v: uint64)
    requires |t| == TABLE_BYTES && n == Varint.Put(v)
    ensures var src := [MODE_HUFF] + n + t + b;
            var ip := 1 + |n|;
            && src[0] == MODE_HUFF
            && Varint.Get(src, 1) == Some((v as int, ip))
            && ip + TABLE_BYTES <= |src|
            && src[ip..ip + TABLE_BYTES] == t
            && src[ip + TABLE_BYTES..] == b
  {
    var src := [MODE_HUFF] + n + t + b;
    assert src[1..1 + |n|] == n;
    Varint.RoundTrip(src, 1, v);
  }

  lemma HuffFormDecodes(lz: seq<byte>, dict: seq<byte>, cap: nat)
    requires BuildLens(Histogram(lz)).Some? && |lz| <= MID_LIMIT
    ensures BuiltTableFits(BuildLens(Histogram(lz)).value)
    ensures var lens := BuildLens(Histogram(lz)).value;
            LzeDecode(HuffHeader(lz, lens) + HuffBody(lz, lens), dict, cap) == Decode(lz, dict, cap)
  {
    hide BuildLens, Usable, Histogram, DecodeSyms, HuffBody, Decode, LoadTable, StoreTable, Varint.Get, Varint.Put,
         BitIO.Unpack, ToSyms, FromSyms;
    BuiltTableLoads(Histogram(lz));
    var lens := BuildLens(Histogram(lz)).value;
    HeaderParts(Varint.Put(|lz|), StoreTable(lens), HuffBody(lz, lens), |lz|);
    BodyDecodes(lz);
    FromToSyms(lz);
  }

  /** LZE round trip, for a context with any history: the intermediate buffer never exceeds what one
      block of the largest size needs, and that is exactly the decoder's limit. */
  lemma LzeRoundTrip(src: seq<byte>, dict: seq<byte>, level: int, midCap: nat, cap: nat, dstCap: nat)
    requires midCap <= MidNeed(BLOCK_SIZE_MAX)
    requires |src| <= dstCap && dstCap + |dict| < U64_LIMIT
    ensures var r := LzeBytes(src, dict, level, midCap, cap);
            r.Success? ==> LzeDecode(r.value, dict, dstCap) == Success(src)
  {
    hide LzbBytes, BuildLens, Histogram, HuffBody, HuffHeader, Decode, DecodeSyms, Usable;
    var r := LzeBytes(src, dict, level, midCap, cap);
    if src != [] && r.Success? {
      var lz := LzbBytes(src, dict, level);
      LzbRoundTrip(src, dict, level, dstCap, []);
      assert lz + [] == lz;
      if |lz| >= 64 && BuildLens(Histogram(lz)).Some? {
        HuffFormDecodes(lz, dict, dstCap);
      }
      if r.value == [MODE_RAW] + lz {
        assert r.value[1..] == lz;
      }
    }
  }
}
