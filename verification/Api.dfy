/** One-shot compression and decompression in memory (src/core/xq_api.c:85-150). */
module Api {
  import opened Bytes
  import opened Format
  import opened Codec
  import opened Container
  import opened ContainerProof
  import opened FileSpec
  import opened Bound
  import opened Encoder
  import opened Decoder
  import opened Input

  // ----- a failed run stops at a prefix of the file

  lemma {:induction false} JobsAppend(cfg: Config, a: seq<seq<byte>>, b: seq<seq<byte>>, midCap: nat)
    ensures JobsFrom(cfg, a + b, midCap) == JobsFrom(cfg, a, midCap) + JobsFrom(cfg, b, MidAfter(cfg, a, midCap))
    decreases |a|
  {
    hide CompressJob, Grown;
    if a == [] {
      assert a + b == b;
    } else {
      assert (a + b)[1..] == a[1..] + b;
      JobsAppend(cfg, a[1..], b, Grown(cfg, midCap, a[0]));
    }
  }

  lemma TotalsOfRest(a: seq<seq<byte>>, b: seq<seq<byte>>)
    requires a != []
    ensures |Total(a)| == |a[0]| + |Total(a[1..])| && |Total(a + b)| == |a[0]| + |Total(a[1..] + b)|
  {
    assert (a + b)[1..] == a[1..] + b;
  }

  lemma {:induction false} BodyPrefix(cfg: Config, a: seq<seq<byte>>, ja: seq<Job>, b: seq<seq<byte>>, jb: seq<Job>, off: nat)
    requires |a| == |ja| && |b| == |jb| && off + |Total(a + b)| < U64_LIMIT && off + |Total(a)| < U64_LIMIT
    requires forall i :: 0 <= i < |a| ==> |a[i]| <= BLOCK_MAX && |ja[i].payload| <= BLOCK_MAX
    requires forall i :: 0 <= i < |a + b| ==> |(a + b)[i]| <= BLOCK_MAX && |(ja + jb)[i].payload| <= BLOCK_MAX
    ensures |Body(cfg, a, ja, off)| <= |Body(cfg, a + b, ja + jb, off)|
    decreases |a|
  {
    hide BlockBytes, Total;
    if a != [] {
      assert (a + b)[1..] == a[1..] + b && (ja + jb)[1..] == ja[1..] + jb;
      TotalsOfRest(a, b);
      BodyPrefix(cfg, a[1..], ja[1..], b, jb, off + |a[0]|);
    }
  }

  /** Whatever full blocks of the input have been emitted, they take no more than the whole file. */
  lemma EmittedFits(cfg: Config, hint: uint64, kind: byte, blocks: seq<seq<byte>>, jobs: seq<Job>, want: seq<byte>, idx: seq<Entry>, midCap: nat, x: seq<byte>)
    requires Emitted(cfg, hint, kind, blocks, jobs, want, idx) && InOrder(cfg, blocks, jobs, midCap)
    requires BlockSize(cfg) > 0 && AllFull(blocks, BlockSize(cfg)) && Total(blocks) <= x && Encodable(cfg, hint, kind, x)
    ensures |want| <= |EncodedFile(cfg, hint, kind, x)|
  {
    hide ValidConfig, Body, Entries, EobBytes, Total, BlockSize, JobsFrom, MidAfter, FirstMid, DictJob, Front, Chunks,
         FileFits, TailBytes, IndexRecord;
    var rest := x[|Total(blocks)|..];
    assert x == Total(blocks) + rest;
    ChunksOfFull(blocks, rest, BlockSize(cfg));
    var more := Chunks(rest, BlockSize(cfg));
    JobsAppend(cfg, blocks, more, FirstMid(cfg));
    BodyPrefix(cfg, blocks, jobs, more, JobsFrom(cfg, more, midCap), 0);
  }

  /** The file for `x` decodes to `x`. */
  lemma EncodedFileDecodes(cfg: Config, hint: uint64, kind: byte, x: seq<byte>)
    requires Encodable(cfg, hint, kind, x)
    ensures DecodeFile(EncodedFile(cfg, hint, kind, x)) == Success(x)
  {
    hide DecodeFile, MainBytes, TailBytes, FileFits, DocFor, ValidConfig;
    var d := DocFor(cfg, hint, kind, x);
    var file := MainBytes(d) + TailBytes(d);
    EncodedPrefixDecodes(cfg, hint, kind, x, TailBytes(d), |file|);
    assert file[..|file|] == file;
  }

  /** `xq_compress`: succeeds exactly when the file fits, and then writes the file; a buffer of
      `xq_compress_bound` bytes is always enough. */
  method XqCompress(dst: array<byte>, src: seq<byte>, p: Params) returns (st: Status, n: nat)
    requires ValidParams(p) && |src| < U64_LIMIT && Encodable(ConfigFor(p, src), |src|, 1, src)
    modifies dst
    ensures st == XqOk <==> |EncodedFile(ConfigFor(p, src), |src|, 1, src)| <= dst.Length
    ensures st == XqOk ==> n <= dst.Length && dst[..n] == EncodedFile(ConfigFor(p, src), |src|, 1, src)
    ensures |src| + Pow2(p.blockLog) - 1 < U64_LIMIT && 0 < CompressBound(|src|, p) <= dst.Length ==> st == XqOk
    ensures st == XqOk || st == ErrDstTooSmall
  {
    hide EncodedFile, Encodable, CompressBound, Pow2;
    var cfg := ConfigFor(p, src);
    if |src| + Pow2(p.blockLog) - 1 < U64_LIMIT && CompressBound(|src|, p) != 0 {
      BoundHolds(p, src);
    }
    hide ConfigFor;
    n := 0;
    st, n := CompressWith(dst, src, cfg, |src|, 1);
  }

  /** When the sink has failed, it could not have held the file. */
  lemma SinkTooSmall(e: Enc, x: seq<byte>)
    requires e.Writing() && e.sticky != XqOk && e.Written() <= x && Encodable(e.cfg, e.hint, e.kind, x)
    ensures e.sticky == ErrDstTooSmall && e.sink.dst.Length < |EncodedFile(e.cfg, e.hint, e.kind, x)|
  {
    hide EncodedFile, Encodable, ValidConfig, BlockSize, Emitted, InOrder, Total;
    PrefixOfPrefix(Total(e.blocks), e.Buffered(), x);
    EmittedFits(e.cfg, e.hint, e.kind, e.blocks, e.jobs, e.want, e.idx, e.midCap, x);
  }

  lemma EncodableMeans(cfg: Config, hint: uint64, kind: byte, x: seq<byte>)
    requires Encodable(cfg, hint, kind, x)
    ensures ValidConfig(cfg) && |x| < U64_LIMIT
  {}

  lemma PrefixOfPrefix(a: seq<byte>, b: seq<byte>, x: seq<byte>)
    requires a + b <= x
    ensures a <= x
  {}

  method CompressWith(dst: array<byte>, src: seq<byte>, cfg: Config, hint: uint64, kind: byte) returns (st: Status, n: nat)
    requires Encodable(cfg, hint, kind, src)
    modifies dst
    ensures st == XqOk <==> |EncodedFile(cfg, hint, kind, src)| <= dst.Length
    ensures st == XqOk ==> n <= dst.Length && dst[..n] == EncodedFile(cfg, hint, kind, src)
    ensures st == XqOk || st == ErrDstTooSmall
  {
    hide EncodedFile, Encodable, ValidConfig, BlockSize, Emitted, InOrder, Total, Enc.Out, Enc.Hashed, Enc.Coded,
         Enc.Apart, Enc.Written, FrontBytes, FirstMid;
    EncodableMeans(cfg, hint, kind, src);
    var sink := new MemSink(dst);
    var e := new Enc(sink, cfg, hint, kind);
    e.Start();
    st := Feed(e, src);
    n := if st == XqOk then sink.len else 0;
  }

  method Feed(e: Enc, src: seq<byte>) returns (st: Status)
    requires e.Writing() && !e.finished && e.Written() == [] && Encodable(e.cfg, e.hint, e.kind, src)
    modifies e, e.sink, e.sink.dst, e.streamCk, e.raw
    ensures st == XqOk <==> |EncodedFile(e.cfg, e.hint, e.kind, src)| <= e.sink.dst.Length
    ensures st == XqOk ==> e.sink.Valid() && e.sink.Contents() == EncodedFile(e.cfg, e.hint, e.kind, src)
    ensures st == XqOk || st == ErrDstTooSmall
  {
    hide EncodedFile, Encodable, ValidConfig, BlockSize, Emitted, InOrder, Total, Enc.Out, Enc.Hashed, Enc.Coded,
         Enc.Apart, Enc.Written;
    EncodableMeans(e.cfg, e.hint, e.kind, src);
    assert [] + src == src;
    if e.sticky == XqOk {
      e.Write(src);
    }
    if e.sticky != XqOk {
      SinkTooSmall(e, src);
      return e.sticky;
    }
    st := e.Finish();
  }

  // ----- decompression

  /** What a whole byte string delivers, opening included. */
  ghost function Delivered(s: seq<byte>, limit: nat): Stream {
    match Open(s, limit)
    case Failure(e) => Stream([], Some(e))
    case Success((ctx, rest)) => StreamOf(ctx, rest)
  }

  lemma DecodedIsDelivered(s: seq<byte>, limit: nat)
    ensures var p := Delivered(s, limit); DecodeFile(s, limit) == if p.error == None then Success(p.bytes) else Failure(p.error.value)
  {
    hide Open, All, StreamOf;
    var r := Open(s, limit);
    if r.Success? {
      AllIsStream(r.value.0, r.value.1);
    }
  }

  /** `xq_decompress` on any byte string: all that can be decoded when it ends well and fits; too little
      room is reported before a later error is. */
  method XqDecompress(dst: array<byte>, src: seq<byte>, limit: nat) returns (st: Status, n: nat)
    modifies dst
    ensures var p := Delivered(src, limit);
            if |p.bytes| > dst.Length then st == ErrDstTooSmall
            else if p.error.Some? then st == p.error.value
            else st == XqOk && n == |p.bytes| && dst[..n] == p.bytes
    ensures var r := DecodeFile(src, limit);
            r.Success? && |r.value| <= dst.Length ==> st == XqOk && n <= dst.Length && dst[..n] == r.value
  {
    hide Delivered, DecodeFile;
    DecodedIsDelivered(src, limit);
    st, n := DecompressInto(dst, src, limit);
  }

  method DecompressInto(dst: array<byte>, src: seq<byte>, limit: nat) returns (st: Status, n: nat)
    modifies dst
    ensures var p := Delivered(src, limit);
            if |p.bytes| > dst.Length then st == ErrDstTooSmall
            else if p.error.Some? then st == p.error.value
            else st == XqOk && n == |p.bytes| && dst[..n] == p.bytes
  {
    hide Open, StreamOf, Dec.Pending;
    var source := new Source(src);
    assert source.data[0..] == src;
    n := 0;
    var d;
    st, d := Create(source, limit);
    if st != XqOk {
      return;
    }
    FirstPending(d);
    st, n := ReadAll(d, dst);
  }

  lemma FirstPending(d: Dec)
    requires d.Valid() && d.rawLen == 0 && !d.sawEob && d.sticky == XqOk
    ensures d.Pending() == StreamOf(d.ctx, d.inp.Rest())
  {
    hide StreamOf;
    assert d.raw[d.rawPos..d.rawLen] == [];
  }

  method Place(dst: array<byte>, n: nat, out: seq<byte>)
    requires n + |out| <= dst.Length
    modifies dst
    ensures dst[..n + |out|] == old(dst[..n]) + out
  {
    forall i | 0 <= i < |out| {
      dst[n + i] := out[i];
    }
  }

  lemma Further(s: seq<byte>, n: nat, k: nat)
    requires n + k <= |s|
    ensures s[..n] + s[n..][..k] == s[..n + k] && s[n..][k..] == s[n + k..]
  {}

  /** One read straight behind what the buffer holds. */
  method ReadInto(d: Dec, dst: array<byte>, n: nat) returns (st: Status, k: nat)
    requires d.Valid() && d.sticky == XqOk && dst !in {d.raw, d.inp.rbuf} && n < dst.Length
    modifies d, d.raw, d.inp, d.inp.rbuf, d.inp.src, dst
    ensures d.Valid() && d.raw == old(d.raw) && d.sticky == st && n + k <= dst.Length
    ensures var p := old(d.Pending());
            if dst.Length - n > |p.bytes| && p.error.Some? then st != XqOk && p.error == Some(st)
            else st == XqOk && k == Min(dst.Length - n, |p.bytes|) && dst[..n + k] == old(dst[..n]) + p.bytes[..k]
                 && d.Pending() == p.(bytes := p.bytes[k..])
  {
    hide Dec.Pending;
    var out;
    st, out := d.Read(dst.Length - n);
    k := 0;
    if st == XqOk {
      k := |out|;
      Place(dst, n, out);
    }
  }

  method ReadAll(d: Dec, dst: array<byte>) returns (st: Status, n: nat)
    requires d.Valid() && d.sticky == XqOk && dst !in {d.raw, d.inp.rbuf}
    modifies d, d.raw, d.inp, d.inp.rbuf, d.inp.src, dst
    ensures var p := old(d.Pending());
            if |p.bytes| > dst.Length then st == ErrDstTooSmall
            else if p.error.Some? then st == p.error.value
            else st == XqOk && n == |p.bytes| && dst[..n] == p.bytes
  {
    hide Dec.Pending, Dec.Valid;
    ghost var p := d.Pending();
    n := 0;
    while true
      invariant n <= dst.Length && d.Valid() && d.raw == old(d.raw) && d.sticky == XqOk
      invariant n <= |p.bytes| && p.bytes[..n] == dst[..n] && d.Pending() == p.(bytes := p.bytes[n..])
      decreases dst.Length - n
    {
      if n == dst.Length {
        st := Probe(d);
        return;
      }
      var k;
      st, k := ReadInto(d, dst, n);
      if st != XqOk {
        return;
      }
      Further(p.bytes, n, k);
      n := n + k;
      if k == 0 {
        return;
      }
    }
  }

  /** With the buffer full, one more byte tells a fit from an overflow. */
  method Probe(d: Dec) returns (st: Status)
    requires d.Valid() && d.sticky == XqOk
    modifies d, d.raw, d.inp, d.inp.rbuf, d.inp.src
    ensures var p := old(d.Pending());
            if |p.bytes| > 0 then st == ErrDstTooSmall else if p.error.Some? then st == p.error.value else st == XqOk
  {
    hide Dec.Pending;
    var out;
    st, out := d.Read(1);
    if st == XqOk && |out| > 0 {
      st := ErrDstTooSmall;
    }
  }
}
