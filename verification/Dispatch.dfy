/** The codec table's entry points as methods over buffers (src/codec/xq_codec.c,
    src/codec/xq_codec_stored.c). */
module Dispatch {
  import opened Bytes
  import opened Codec
  import opened LzbParse
  import opened LzeStream
  import LzbCodec
  import LzeCodec

  method StoreBytes(dst: array<byte>, src: seq<byte>)
    requires |src| <= dst.Length
    modifies dst
    ensures dst[..|src|] == src
  {
    forall i | 0 <= i < |src| {
      dst[i] := src[i];
    }
  }

  /** A codec's `decompress`, in the context that the file's own codec made, if it makes one. */
  method DecompressInto(own: CodecId, c: CodecId, dst: array<byte>, src: seq<byte>, dict: seq<byte>, expected: nat) returns (st: Status, n: nat)
    modifies dst
    ensures n <= dst.Length
    ensures DecompressIn(own, c, src, dict, dst.Length, expected) == if st == XqOk then Success(dst[..n]) else Failure(st)
  {
    hide LzbStream.Decode, LzeDecode;
    match c
    case Stored =>
      if expected != |src| {
        return ErrCorruptBlock, 0;
      }
      if |src| > dst.Length {
        return ErrDstTooSmall, 0;
      }
      StoreBytes(dst, src);
      return XqOk, |src|;
    case Lzb =>
      st, n := LzbCodec.Decompress(dst, src, dict);
    case Lze =>
      if own != Lze {
        return ErrInternal, 0;
      }
      var dctx := new LzeCodec.LzeDCtx();
      st, n := dctx.Decompress(dst, src, dict);
  }

  /** A codec's `compress` in a context with a past; the past shows only in the size of the LZE buffer. */
  method CompressInto(c: CodecId, lzb: LzbCodec.CCtx, lze: LzeCodec.LzeCCtx, dst: array<byte>, src: seq<byte>, level: int, d: LzbCodec.CDict?)
    returns (st: Status, n: nat)
    requires lzb.Valid() && lze.Valid() && |src| <= BLOCK_SIZE_MAX && (d != null ==> d.Valid())
    requires {dst as object} !! {lzb.head as object, lzb.chain, lze.mid, lze.lzb.head, lze.lzb.chain}
    requires d != null ==> {d.head as object, d.chain} !! {lzb.head as object, lzb.chain, dst, lze.mid, lze.lzb.head, lze.lzb.chain}
    modifies lzb, lzb.head, lzb.chain, lze`mid, lze.mid, lze.lzb, lze.lzb.head, lze.lzb.chain, dst
    ensures n <= dst.Length
    ensures Codec.Compress(c, src, LzbCodec.DictData(d), level, old(lze.mid.Length), dst.Length)
            == if st == XqOk then Success(dst[..n]) else Failure(st)
    ensures c == Lze ==> lze.mid.Length == GrownMid(old(lze.mid.Length), src)
  {
    hide LzbBytes, LzeBytes;
    match c
    case Stored =>
      if |src| > dst.Length {
        return ErrDstTooSmall, 0;
      }
      StoreBytes(dst, src);
      return XqOk, |src|;
    case Lzb =>
      st, n := lzb.Compress(dst, src, level, d);
      if st != XqOk {
        n := 0;
      }
    case Lze =>
      st, n := lze.Compress(dst, src, level, d);
  }
}
