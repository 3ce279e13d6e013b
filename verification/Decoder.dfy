/** The sequential decoder as an object: for every byte string, every way its source splits it and every
    sequence of read sizes, it delivers exactly the bytes the container's specification decodes
    (src/core/xq_decoder.c:110-382). */
module Decoder {
  import opened Bytes
  import opened Format
  import opened Codec
  import opened Container
  import opened Input
  import Crc32c
  import Xxh64
  import Dispatch

  // ----- what a decoder delivers

  /** The bytes of the blocks before the end of blocks, or before the first error. */
  datatype Stream = Stream(bytes: seq<byte>, error: Option<Status>)

  ghost function StreamOf(ctx: Ctx, s: seq<byte>): Stream
    decreases |s|
  {
    match Next(ctx, s)
    case Bad(e) => Stream([], Some(e))
    case End(_) => Stream([], None)
    case Block(raw, rest, ctx') => StreamOf(ctx', rest).(bytes := raw + StreamOf(ctx', rest).bytes)
  }

  /** Decoding everything is the stream, if it ends well. */
  lemma {:induction false} AllIsStream(ctx: Ctx, s: seq<byte>)
    ensures All(ctx, s) == if StreamOf(ctx, s).error == None then Success(StreamOf(ctx, s).bytes) else Failure(StreamOf(ctx, s).error.value)
    decreases |s|
  {
    var n := Next(ctx, s);
    hide Next;
    if n.Block? {
      AllIsStream(n.ctx, n.rest);
    }
  }

  lemma {:induction false} BlocksHoldBytes(ctx: Ctx, s: seq<byte>)
    ensures Next(ctx, s).Block? ==> Next(ctx, s).raw != []
    decreases |s|
  {
    hide ReadDict, BlockRaw, ChecksumBytes, Crc32c.Crc, Ld64, Ld32;
    if |s| < 2 {
    } else if Ld16(s, 0) == BLOCK_MAGIC {
      BlockStep(ctx, s);
      hide Next;
    } else if |s| >= RECORD_HEADER_SIZE && Ld64(s, 2) <= RECORD_MAX && s[0] != REC_END_OF_BLOCKS {
      hide Next, Ld16, ParseBlock;
      if s[0] == REC_DICT {
        DictStep(ctx, s);
        var r := ReadDict(ctx, s);
        if r.Success? {
          BlocksHoldBytes(ctx.(dict := Some(r.value.0)), r.value.1);
        }
      } else {
        SkipsRecord(ctx, s);
        var body, size := s[RECORD_HEADER_SIZE..], Ld64(s, 2) as int;
        if size <= |body| {
          BlocksHoldBytes(ctx, body[size..]);
        }
      }
    }
  }

  // ----- one step of Next at a time

  lemma SkipsRecord(ctx: Ctx, s: seq<byte>)
    requires |s| >= RECORD_HEADER_SIZE && Ld16(s, 0) != BLOCK_MAGIC && Ld64(s, 2) <= RECORD_MAX
    requires s[0] != REC_END_OF_BLOCKS && s[0] != REC_DICT
    ensures var critical := s[0] != REC_USER_META && s[0] != REC_INDEX && s[1] as int % 2 == 1;
            var body, size := s[RECORD_HEADER_SIZE..], Ld64(s, 2) as int;
            Next(ctx, s) == if critical then Bad(ErrUnsupportedFeature) else if |body| < size then Bad(ErrTruncated) else Next(ctx, body[size..])
  {
    hide Ld16, Ld64, ReadDict, DecodeBlock, ParseBlock, Crc32c.Crc, Ld32;
  }

  lemma DictStep(ctx: Ctx, s: seq<byte>)
    requires |s| >= RECORD_HEADER_SIZE && Ld16(s, 0) != BLOCK_MAGIC && Ld64(s, 2) <= RECORD_MAX && s[0] == REC_DICT
    ensures var r := ReadDict(ctx, s);
            Next(ctx, s) == if r.Failure? then Bad(r.error) else Next(ctx.(dict := Some(r.value.0)), r.value.1)
  {
    hide Ld16, Ld64, ReadDict, DecodeBlock, ParseBlock, Crc32c.Crc, Ld32;
  }

  lemma EndStep(ctx: Ctx, s: seq<byte>)
    requires |s| >= RECORD_HEADER_SIZE && Ld16(s, 0) != BLOCK_MAGIC && Ld64(s, 2) <= RECORD_MAX && s[0] == REC_END_OF_BLOCKS
    ensures Next(ctx, s) == if Ld64(s, 2) != 0 || Ld32(s, 10) != Crc32c.Crc(s[..10]) then Bad(ErrCorruptRecord) else End(s[RECORD_HEADER_SIZE..])
  {
    hide Ld16, Ld64, ReadDict, DecodeBlock, ParseBlock, Crc32c.Crc, Ld32;
  }

  lemma NoStep(ctx: Ctx, s: seq<byte>)
    requires |s| < 2 || (Ld16(s, 0) != BLOCK_MAGIC && (|s| < RECORD_HEADER_SIZE || Ld64(s, 2) > RECORD_MAX))
    ensures Next(ctx, s) == Bad(if |s| < RECORD_HEADER_SIZE then ErrTruncated else ErrCorruptRecord)
  {
    hide Ld16, Ld64, ReadDict, DecodeBlock, ParseBlock, Crc32c.Crc, Ld32;
  }

  lemma BlockStep(ctx: Ctx, s: seq<byte>)
    requires |s| >= 2 && Ld16(s, 0) == BLOCK_MAGIC
    ensures ParseBlock(s).Failure? ==> Next(ctx, s) == Bad(ParseBlock(s).error)
    ensures ParseBlock(s).Success? ==> |s| >= BLOCK_HEADER_SIZE && Next(ctx, s) == DecodeBlock(ctx, ParseBlock(s).value, s[BLOCK_HEADER_SIZE..])
    ensures |s| < BLOCK_HEADER_SIZE ==> ParseBlock(s) == Failure(ErrTruncated)
  {
    hide Ld64, ReadDict, DecodeBlock, Crc32c.Crc, ReadBlock, Plausible, Ld32;
  }

  /** Only a header's own bytes matter to its fields. */
  lemma SameTag(s: seq<byte>, t: seq<byte>)
    requires 2 <= |t| <= |s| && s[..|t|] == t
    ensures Ld16(s, 0) == Ld16(t, 0)
  {
    assert s[0] == t[0] && s[1] == t[1];
  }

  lemma SameRecordHead(s: seq<byte>, t: seq<byte>)
    requires |t| == RECORD_HEADER_SIZE <= |s| && s[..RECORD_HEADER_SIZE] == t
    ensures s[0] == t[0] && s[1] == t[1] && Ld64(s, 2) == Ld64(t, 2) && Ld32(s, 10) == Ld32(t, 10) && s[..10] == t[..10]
  {
    assert forall i :: 0 <= i < |t| ==> s[i] == t[i];
    assert s[..10] == t[..10];
  }

  lemma SameBlockHead(s: seq<byte>, t: seq<byte>)
    requires |t| == BLOCK_HEADER_SIZE <= |s| && s[..BLOCK_HEADER_SIZE] == t
    ensures ParseBlock(s) == ParseBlock(t)
  {
    hide Plausible, Crc32c.Crc;
    assert forall i :: 0 <= i < |t| ==> s[i] == t[i];
    assert s[..20] == t[..20];
  }

  lemma SameFileHead(s: seq<byte>, t: seq<byte>)
    requires |t| == FILE_HEADER_SIZE <= |s| && s[..FILE_HEADER_SIZE] == t
    ensures ParseHeader(s) == ParseHeader(t)
  {
    hide CheckHeader, Crc32c.Crc;
    assert forall i :: 0 <= i < |t| ==> s[i] == t[i];
    assert s[..28] == t[..28] && s[..8] == t[..8];
  }

  lemma StoredIsRaw(s: seq<byte>, h: BlockHeader)
    requires ParseBlock(s) == Success(h)
    ensures StoredFlag(h.bflags) ==> h.storedSize == h.rawSize
  {
    hide Crc32c.Crc, Ld16, Ld32, ReadBlock;
  }

  lemma ParseErrors(s: seq<byte>)
    ensures ParseBlock(s) != Failure(XqOk) && ParseHeader(s) != Failure(XqOk)
  {
    hide Crc32c.Crc, Ld16, Ld32, ReadBlock, ReadHeader, CheckHeader, Plausible;
  }

  /** What a sequential decoder makes of a block's payload and checksum. */
  ghost function BodyStep(ctx: Ctx, h: BlockHeader, payload: seq<byte>, sum: seq<byte>, rest: seq<byte>): Step {
    if sum != ChecksumBytes(ctx.checksum, payload) then Bad(ErrCorruptBlock)
    else
      match BlockRaw(ctx, h, payload)
      case Failure(e) => Bad(e)
      case Success(raw) => if |raw| != h.rawSize then Bad(ErrCorruptBlock) else Block(raw, rest, ctx.(rawOffset := ctx.rawOffset + |raw|))
  }

  lemma BlockIs(ctx: Ctx, h: BlockHeader, s: seq<byte>)
    ensures var n, k := h.storedSize as int, ChecksumSize(ctx.checksum);
            DecodeBlock(ctx, h, s)
            == if h.rawOffset != ctx.rawOffset then Bad(ErrCorruptBlock)
               else if h.rawSize > ctx.maxRaw then Bad(ErrMemLimit)
               else if n > ctx.cbufCap then Bad(ErrCorruptBlock)
               else if |s| < n + k then Bad(ErrTruncated)
               else BodyStep(ctx, h, s[..n], s[n..n + k], s[n + k..])
  {
    hide BlockRaw, ChecksumBytes;
  }

  class Dec {
    const inp: RBuf
    var ctx: Ctx
    var raw: array<byte>
    var rawLen: nat
    var rawPos: nat
    var sawEob: bool
    var sticky: Status

    ghost predicate Valid()
      reads this, inp, inp.src
    {
      inp.Valid() && rawPos <= rawLen <= raw.Length == ctx.maxRaw && raw != inp.rbuf
    }

    constructor (inp: RBuf, ctx: Ctx)
      requires inp.Valid()
      ensures Valid() && this.inp == inp && this.ctx == ctx && fresh(raw) && rawLen == 0 && !sawEob && sticky == XqOk
    {
      this.inp, this.ctx := inp, ctx;
      raw := new byte[ctx.maxRaw];
      rawLen, rawPos, sawEob, sticky := 0, 0, false, XqOk;
    }

    /** The payload of a block into the block buffer. */
    method DecodePayload(h: BlockHeader, payload: seq<byte>) returns (st: Status)
      requires Valid() && |payload| == h.storedSize as int && h.rawSize <= ctx.maxRaw
      requires StoredFlag(h.bflags) ==> h.storedSize == h.rawSize
      modifies this`rawLen, this`rawPos, raw
      ensures Valid()
      ensures BlockRaw(ctx, h, payload) == if st == XqOk then Success(raw[..rawLen]) else Failure(st)
      ensures st == XqOk ==> rawPos == 0
    {
      hide DecompressIn;
      if StoredFlag(h.bflags) {
        Dispatch.StoreBytes(raw, payload);
        rawLen, rawPos := |payload|, 0;
        return XqOk;
      }
      var c := CodecOf(h.codecId);
      if c == None {
        return ErrUnsupportedCodec;
      }
      if DictFlag(h.bflags) && ctx.dict.None? {
        return ErrCorruptBlock;
      }
      var n;
      st, n := Dispatch.DecompressInto(ctx.codec, c.value, raw, payload, if DictFlag(h.bflags) then ctx.dict.value else [], h.rawSize as int);
      if st == XqOk {
        rawLen, rawPos := n, 0;
      }
    }

    /** A block whose header has just been consumed. */
    method TakeBlock(h: BlockHeader) returns (st: Status)
      requires Valid() && (StoredFlag(h.bflags) ==> h.storedSize == h.rawSize)
      modifies this`ctx, this`rawLen, this`rawPos, raw, inp`rpos, inp`srcEof, inp.src
      ensures Valid()
      ensures var r := DecodeBlock(old(ctx), h, old(inp.Rest()));
              if st == XqOk then r == Block(raw[..rawLen], inp.Rest(), ctx) && rawPos == 0 else r == Bad(st)
    {
      hide DecodeBlock, BlockRaw, ChecksumBytes, ChecksumSize, RBuf.Rest;
      BlockIs(ctx, h, inp.Rest());
      if h.rawOffset != ctx.rawOffset {
        return ErrCorruptBlock;
      }
      if h.rawSize > ctx.maxRaw {
        return ErrMemLimit;
      }
      if h.storedSize > ctx.cbufCap {
        return ErrCorruptBlock;
      }
      ghost var s := inp.Rest();
      var n, k := h.storedSize as int, ChecksumSize(ctx.checksum);
      var ok, payload, sum;
      ok, payload := inp.ReadExact(n);
      if !ok {
        return ErrTruncated;
      }
      ok, sum := inp.ReadExact(k);
      Behind(s, n, k);
      if !ok {
        return ErrTruncated;
      }
      if sum != ChecksumBytes(ctx.checksum, payload) {
        return ErrCorruptBlock;
      }
      st := DecodePayload(h, payload);
      if st != XqOk {
        return;
      }
      if rawLen != h.rawSize as int {
        return ErrCorruptBlock;
      }
      ctx := ctx.(rawOffset := ctx.rawOffset + rawLen);
    }

    lemma Behind(s: seq<byte>, n: nat, k: nat)
      requires n <= |s|
      ensures n + k <= |s| ==> s[n..][..k] == s[n..n + k] && s[n..][k..] == s[n + k..]
    {}

    /** The bytes of a dictionary payload, decoded. */
    method DecodeDict(payload: seq<byte>) returns (st: Status, d: seq<byte>)
      requires |payload| >= DICT_HEADER
      ensures DictOf(ctx.codec, payload, ctx.limit) == if st == XqOk then Success(d) else Failure(st)
    {
      hide Ld32, Ld64, DecompressIn, Xxh64.Hash64;
      var kind, codecId, id := payload[0], payload[1], Ld32(payload, 2);
      var rawSize, storedSize, hash := Ld64(payload, 6), Ld64(payload, 14), Ld64(payload, 22);
      var stored := payload[DICT_HEADER..];
      if id == 0 || rawSize == 0 || rawSize > DICT_MAX || storedSize == 0 || storedSize as int != |payload| - DICT_HEADER {
        return ErrCorruptRecord, [];
      }
      if kind > 3 {
        return ErrUnsupportedFeature, [];
      }
      if !Within(ctx.limit, rawSize as int) {
        return ErrMemLimit, [];
      }
      st, d := DecodeStored(codecId, stored, rawSize as int);
      if st != XqOk {
        return;
      }
      if |d| != rawSize as int || Xxh64.Hash64(d) != hash {
        return ErrCorruptRecord, [];
      }
      if !HasDict(ctx.codec) {
        return ErrUnsupportedFeature, [];
      }
    }

    method DecodeStored(codecId: byte, stored: seq<byte>, rawSize: nat) returns (st: Status, d: seq<byte>)
      ensures DictBytes(ctx.codec, codecId, stored, rawSize) == if st == XqOk then Success(d) else Failure(st)
    {
      hide DecompressIn;
      if codecId == 0 {
        if |stored| != rawSize {
          return ErrCorruptRecord, [];
        }
        return XqOk, stored;
      }
      var c := CodecOf(codecId);
      if c == None {
        return ErrUnsupportedCodec, [];
      }
      var buf := new byte[rawSize];
      var n;
      st, n := Dispatch.DecompressInto(ctx.codec, c.value, buf, stored, [], rawSize);
      d := buf[..n];
    }

    /** A dictionary record whose header `head` has just been consumed. */
    method TakeDict(head: seq<byte>) returns (st: Status)
      requires Valid() && |head| == RECORD_HEADER_SIZE
      modifies this`ctx, inp`rpos, inp`srcEof, inp.src
      ensures Valid()
      ensures var r := ReadDict(old(ctx), head + old(inp.Rest()));
              if st == XqOk then ctx.dict.Some? && r == Success((ctx.dict.value, inp.Rest())) && ctx == old(ctx).(dict := ctx.dict) else r == Failure(st)
    {
      hide DictOf, Ld64, Ld32, Crc32c.Crc;
      ghost var rest := inp.Rest();
      ghost var s := head + rest;
      SameRecordHead(s, head);
      var size := Ld64(head, 2) as int;
      if ctx.dict.Some? || size < DICT_HEADER || size > DICT_MAX + DICT_HEADER {
        return ErrCorruptRecord;
      }
      if !Within(ctx.limit, size) {
        return ErrMemLimit;
      }
      var ok, payload := inp.ReadExact(size);
      if !ok {
        return ErrTruncated;
      }
      PayloadAt(head, rest, size);
      if Ld32(head, 10) != Crc32c.Crc(head[..10] + payload) {
        return ErrCorruptRecord;
      }
      var d;
      st, d := DecodeDict(payload);
      if st == XqOk {
        ctx := ctx.(dict := Some(d));
      }
    }

    lemma PayloadAt(head: seq<byte>, rest: seq<byte>, size: nat)
      requires |head| == RECORD_HEADER_SIZE && size <= |rest|
      ensures var s := head + rest;
              s[RECORD_HEADER_SIZE..RECORD_HEADER_SIZE + size] == rest[..size] && s[RECORD_HEADER_SIZE + size..] == rest[size..]
    {}

    /** `handle_record`, its header just consumed: the end of blocks, the dictionary, or a skip. */
    method HandleRecord(head: seq<byte>) returns (st: Status)
      requires Valid() && !sawEob && |head| == RECORD_HEADER_SIZE && Ld16(head, 0) != BLOCK_MAGIC
      modifies this`ctx, this`sawEob, inp`rpos, inp`rlen, inp`srcEof, inp.rbuf, inp.src
      ensures Valid()
      ensures var r := Next(old(ctx), head + old(inp.Rest()));
              if st != XqOk then r == Bad(st)
              else if sawEob then r.End?
              else r == Next(ctx, inp.Rest()) && |inp.Rest()| <= |old(inp.Rest())|
    {
      hide Next, Ld16, Ld32, Ld64, Crc32c.Crc, ReadDict;
      ghost var s := head + inp.Rest();
      SameRecordHead(s, head);
      SameTag(s, head);
      assert s[RECORD_HEADER_SIZE..] == inp.Rest();
      var tag, flags, size := head[0], head[1], Ld64(head, 2);
      if size > RECORD_MAX {
        NoStep(ctx, s);
        return ErrCorruptRecord;
      }
      if tag == REC_END_OF_BLOCKS {
        EndStep(ctx, s);
        if size != 0 || Ld32(head, 10) != Crc32c.Crc(head[..10]) {
          return ErrCorruptRecord;
        }
        sawEob := true;
        return XqOk;
      }
      if tag == REC_DICT {
        DictStep(ctx, s);
        st := TakeDict(head);
        if st == XqOk {
          DictShrinks(old(ctx), head, old(inp.Rest()));
        }
        return;
      }
      SkipsRecord(ctx, s);
      if tag != REC_USER_META && tag != REC_INDEX && flags as int % 2 == 1 {
        return ErrUnsupportedFeature;
      }
      var ok := inp.Skip(size as int);
      st := if ok then XqOk else ErrTruncated;
    }

    lemma DictShrinks(ctx: Ctx, head: seq<byte>, rest: seq<byte>)
      requires |head| == RECORD_HEADER_SIZE && ReadDict(ctx, head + rest).Success?
      ensures |ReadDict(ctx, head + rest).value.1| <= |rest|
    {
      hide DictOf, Ld32, Ld64, Crc32c.Crc;
    }

    /** A block whose header bytes are in the buffer. */
    method HandleBlock(head: seq<byte>) returns (st: Status)
      requires Valid() && |head| == BLOCK_HEADER_SIZE <= |inp.Rest()| && head == inp.Rest()[..BLOCK_HEADER_SIZE]
      requires inp.rpos + BLOCK_HEADER_SIZE <= inp.rlen && Ld16(head, 0) == BLOCK_MAGIC
      modifies this`ctx, this`rawLen, this`rawPos, raw, inp`rpos, inp`srcEof, inp.src
      ensures Valid()
      ensures var r := Next(old(ctx), old(inp.Rest()));
              if st != XqOk then r == Bad(st) else r == Block(raw[..rawLen], inp.Rest(), ctx) && rawPos == 0
    {
      hide Next, Ld16, ParseBlock, DecodeBlock;
      ghost var s := inp.Rest();
      SameTag(s, head);
      SameBlockHead(s, head);
      BlockStep(ctx, s);
      ParseErrors(head);
      var h := ParseBlock(head);
      if h.Failure? {
        return h.error;
      }
      StoredIsRaw(head, h.value);
      inp.Consume(BLOCK_HEADER_SIZE);
      st := TakeBlock(h.value);
    }

    /** `next_block`: over any records to the next block, the end of blocks, or an error. */
    method NextBlock() returns (st: Status)
      requires Valid() && !sawEob && rawPos == rawLen
      modifies this`ctx, this`sawEob, this`rawLen, this`rawPos, raw, inp`rpos, inp`rlen, inp`srcEof, inp.rbuf, inp.src
      ensures Valid()
      ensures var r := Next(old(ctx), old(inp.Rest()));
              if st != XqOk then r == Bad(st)
              else if sawEob then r.End? && rawPos == rawLen
              else r == Block(raw[..rawLen], inp.Rest(), ctx) && rawPos == 0
    {
      hide Next, Ld16;
      ghost var goal := Next(ctx, inp.Rest());
      while true
        invariant Valid() && rawPos == rawLen
        invariant if sawEob then goal.End? else goal == Next(ctx, inp.Rest())
        decreases !sawEob, |inp.Rest()|
      {
        if sawEob {
          return XqOk;
        }
        var ok := inp.Need(2);
        if !ok {
          NoStep(ctx, inp.Rest());
          return ErrTruncated;
        }
        SameTag(inp.Rest(), inp.rbuf[inp.rpos..inp.rpos + 2]);
        if Ld16(inp.rbuf[inp.rpos..inp.rpos + 2], 0) == BLOCK_MAGIC {
          st := PeekBlock();
          return;
        }
        st := PeekRecord();
        if st != XqOk {
          return;
        }
      }
    }

    method PeekBlock() returns (st: Status)
      requires Valid() && |inp.Rest()| >= 2 && Ld16(inp.Rest(), 0) == BLOCK_MAGIC
      modifies this`ctx, this`rawLen, this`rawPos, raw, inp`rpos, inp`rlen, inp`srcEof, inp.rbuf, inp.src
      ensures Valid()
      ensures var r := Next(old(ctx), old(inp.Rest()));
              if st != XqOk then r == Bad(st) else r == Block(raw[..rawLen], inp.Rest(), ctx) && rawPos == 0
    {
      hide Next, Ld16, ParseBlock;
      var ok := inp.Need(BLOCK_HEADER_SIZE);
      if !ok {
        BlockStep(ctx, inp.Rest());
        return ErrTruncated;
      }
      var head := inp.rbuf[inp.rpos..inp.rpos + BLOCK_HEADER_SIZE];
      SameTag(inp.Rest(), head);
      st := HandleBlock(head);
    }

    method PeekRecord() returns (st: Status)
      requires Valid() && !sawEob && |inp.Rest()| >= 2 && Ld16(inp.Rest(), 0) != BLOCK_MAGIC
      modifies this`ctx, this`sawEob, inp`rpos, inp`rlen, inp`srcEof, inp.rbuf, inp.src
      ensures Valid()
      ensures var r := Next(old(ctx), old(inp.Rest()));
              if st != XqOk then r == Bad(st)
              else if sawEob then r.End?
              else r == Next(ctx, inp.Rest()) && |inp.Rest()| < |old(inp.Rest())|
    {
      hide Next, Ld16, Ld64;
      var ok := inp.Need(RECORD_HEADER_SIZE);
      if !ok {
        NoStep(ctx, inp.Rest());
        return ErrTruncated;
      }
      var head := inp.rbuf[inp.rpos..inp.rpos + RECORD_HEADER_SIZE];
      SameTag(inp.Rest(), head);
      assert inp.Rest() == head + inp.Rest()[RECORD_HEADER_SIZE..];
      inp.Consume(RECORD_HEADER_SIZE);
      st := HandleRecord(head);
    }

    // ----- reading

    /** What is still to be delivered. */
    ghost function Pending(): Stream
      requires Valid()
      reads this, raw, inp, inp.rbuf, inp.src
    {
      if sticky != XqOk then Stream([], Some(sticky))
      else if sawEob then Stream(raw[rawPos..rawLen], None)
      else StreamOf(ctx, inp.Rest()).(bytes := raw[rawPos..rawLen] + StreamOf(ctx, inp.Rest()).bytes)
    }

    /** `xq_decoder_read`: the next `n` bytes; fewer only at the end of blocks; an error only when the
        bytes before it do not suffice, and then for good. */
    method Read(n: nat) returns (st: Status, out: seq<byte>)
      requires Valid()
      modifies this, raw, inp`rpos, inp`rlen, inp`srcEof, inp.rbuf, inp.src
      ensures Valid() && raw == old(raw) && sticky == st
      ensures var p := old(Pending());
              if old(sticky) != XqOk || (n > |p.bytes| && p.error.Some?) then st != XqOk && p.error == Some(st) && Pending() == Stream([], Some(st))
              else st == XqOk && out == p.bytes[..Min(n, |p.bytes|)] && Pending() == p.(bytes := p.bytes[|out|..])
    {
      out := [];
      if sticky != XqOk {
        return sticky, out;
      }
      hide Pending;
      ghost var p := Pending();
      while |out| < n
        invariant Valid() && raw == old(raw) && sticky == XqOk && |out| <= n
        invariant p == Before(out, Pending())
        decreases n - |out|
      {
        var piece;
        st, piece := ReadSome(n - |out|);
        if st != XqOk {
          return;
        }
        if piece == [] {
          break;
        }
        Taken(out, piece, Pending());
        out := out + piece;
      }
      st := XqOk;
      FrontIs(p.bytes, out, Pending().bytes);
    }

    ghost function Before(out: seq<byte>, p: Stream): Stream {
      p.(bytes := out + p.bytes)
    }

    lemma Taken(out: seq<byte>, piece: seq<byte>, p: Stream)
      ensures Before(out, Before(piece, p)) == Before(out + piece, p)
    {
      assert out + (piece + p.bytes) == out + piece + p.bytes;
    }

    /** One round of `xq_decoder_read`: what the block buffer has, refilled when it is empty. */
    method ReadSome(k: nat) returns (st: Status, piece: seq<byte>)
      requires Valid() && sticky == XqOk && k > 0
      modifies this, raw, inp`rpos, inp`rlen, inp`srcEof, inp.rbuf, inp.src
      ensures Valid() && raw == old(raw) && sticky == st
      ensures st != XqOk ==> old(Pending()) == Stream([], Some(st)) && Pending() == old(Pending())
      ensures st == XqOk ==> |piece| <= k && old(Pending()) == Before(piece, Pending()) && (piece == [] ==> Pending() == Stream([], None))
    {
      hide StreamOf;
      piece := [];
      if rawPos == rawLen {
        st := XqOk;
        if !sawEob {
          st := Refill();
        }
        if st != XqOk {
          sticky := st;
          return;
        }
        if rawPos == rawLen {
          assert raw[rawPos..rawLen] == [];
          return;
        }
      }
      piece := TakeBuffered(k);
      st := XqOk;
    }

    /** Bytes the block buffer already has. */
    method TakeBuffered(k: nat) returns (piece: seq<byte>)
      requires Valid() && sticky == XqOk && k > 0 && rawPos < rawLen
      modifies this`rawPos
      ensures Valid() && 0 < |piece| <= k && old(Pending()) == Before(piece, Pending())
    {
      hide StreamOf;
      var take := Min(k, rawLen - rawPos);
      piece := raw[rawPos..rawPos + take];
      rawPos := rawPos + take;
      assert raw[rawPos - take..rawLen] == piece + raw[rawPos..rawLen];
      if !sawEob {
        ghost var more := StreamOf(ctx, inp.Rest()).bytes;
        assert piece + raw[rawPos..rawLen] + more == piece + (raw[rawPos..rawLen] + more);
      }
    }

    lemma FrontIs(all: seq<byte>, out: seq<byte>, rest: seq<byte>)
      requires all == out + rest
      ensures all[..|out|] == out && all[|out|..] == rest
    {}

    /** `next_block`, as the stream sees it. */
    method Refill() returns (st: Status)
      requires Valid() && !sawEob && rawPos == rawLen && sticky == XqOk
      modifies this`ctx, this`sawEob, this`rawLen, this`rawPos, raw, inp`rpos, inp`rlen, inp`srcEof, inp.rbuf, inp.src
      ensures Valid()
      ensures st == XqOk ==> Pending() == old(Pending()) && (rawPos < rawLen || (sawEob && Pending() == Stream([], None)))
      ensures st != XqOk ==> old(Pending()) == Stream([], Some(st))
    {
      hide Next;
      BlocksHoldBytes(ctx, inp.Rest());
      assert raw[rawPos..rawLen] == [];
      ghost var ctx0, rest0 := ctx, inp.Rest();
      assert Pending() == StreamOf(ctx0, rest0);
      st := NextBlock();
      if st == XqOk {
        if sawEob {
          assert raw[rawPos..rawLen] == [];
        } else {
          assert raw[rawPos..rawLen] == raw[..rawLen];
        }
      }
    }
  }

  lemma OpenFails(s: seq<byte>, limit: nat)
    ensures ParseHeader(s).Failure? ==> Open(s, limit) == Failure(ParseHeader(s).error)
    ensures ParseHeader(s).Success? && |s| < ParseHeader(s).value.headerSize as int ==> Open(s, limit) == Failure(ErrTruncated)
  {
    hide ParseHeader, Bound, Pow2;
  }

  function BlockCap(h: FileHeader): nat {
    if h.blockSizeLog == 0 then BLOCK_MAX else Pow2(h.blockSizeLog as int)
  }

  lemma OpenGoesOn(s: seq<byte>, limit: nat)
    requires ParseHeader(s).Success? && ParseHeader(s).value.headerSize as int <= |s|
    ensures var h := ParseHeader(s).value;
            var bs := BlockCap(h);
            Open(s, limit) == if CodecOf(h.codecId) == None then Failure(ErrUnsupportedCodec)
                              else if !Within(limit, bs) then Failure(ErrMemLimit)
                              else Success((Ctx(CodecOf(h.codecId).value, ChecksumFrom(h.checksumId), bs, Bound(CodecOf(h.codecId).value, bs), None, 0, limit), s[h.headerSize as int..]))
  {
    hide ParseHeader, Bound, Pow2;
  }

  /** `read_file_header`: what the container's specification opens to. */
  method OpenInput(inp: RBuf, limit: nat) returns (st: Status, ctx: Ctx)
    requires inp.Valid()
    modifies inp`rpos, inp`rlen, inp`srcEof, inp.rbuf, inp.src
    ensures inp.Valid()
    ensures Open(old(inp.Rest()), limit) == if st == XqOk then Success((ctx, inp.Rest())) else Failure(st)
  {
    hide ParseHeader, Bound, Open, Within, BlockCap, ChecksumFrom, CodecOf, RBuf.Rest;
    ctx := Ctx(Stored, NoChecksum, 0, 0, None, 0);
    ghost var s := inp.Rest();
    OpenFails(s, limit);
    var ok := inp.Need(FILE_HEADER_SIZE);
    if !ok {
      ShortHeader(s);
      return ErrTruncated, ctx;
    }
    var head := inp.rbuf[inp.rpos..inp.rpos + FILE_HEADER_SIZE];
    SameFileHead(s, head);
    ParseErrors(head);
    HeaderSizes(head);
    var h := ParseHeader(head);
    if h.Failure? {
      return h.error, ctx;
    }
    inp.Consume(FILE_HEADER_SIZE);
    var extra := h.value.headerSize as int - FILE_HEADER_SIZE;
    ok := inp.Need(extra);
    if !ok {
      return ErrTruncated, ctx;
    }
    inp.Consume(extra);
    OpenGoesOn(s, limit);
    assert s[FILE_HEADER_SIZE..][extra..] == s[h.value.headerSize as int..];
    var c := CodecOf(h.value.codecId);
    if c == None {
      return ErrUnsupportedCodec, ctx;
    }
    var bs := BlockCap(h.value);
    if !Within(limit, bs) {
      return ErrMemLimit, ctx;
    }
    ctx := Ctx(c.value, ChecksumFrom(h.value.checksumId), bs, Bound(c.value, bs), None, 0, limit);
    st := XqOk;
  }

  lemma ShortHeader(s: seq<byte>)
    requires |s| < FILE_HEADER_SIZE
    ensures ParseHeader(s) == Failure(ErrTruncated)
  {}

  lemma HeaderSizes(s: seq<byte>)
    ensures ParseHeader(s).Success? ==> FILE_HEADER_SIZE <= ParseHeader(s).value.headerSize as int <= 4096
  {
    hide ReadHeader, Crc32c.Crc, Ld32;
  }

  /** `xq_decoder_create` over a source. */
  method Create(src: Source, limit: nat) returns (st: Status, d: Dec?)
    requires src.Valid()
    modifies src
    ensures st == XqOk <==> d != null
    ensures var r := Open(old(src.data[src.pos..]), limit);
            if d != null then d.Valid() && r == Success((d.ctx, d.inp.Rest())) && d.rawLen == 0 && !d.sawEob && d.sticky == XqOk else r == Failure(st)
    ensures d != null ==> d.inp.src == src && fresh(d) && fresh(d.inp) && fresh(d.inp.rbuf) && fresh(d.raw)
  {
    hide Open;
    var inp := new RBuf(src);
    var ctx;
    st, ctx := OpenInput(inp, limit);
    if st != XqOk {
      return st, null;
    }
    d := new Dec(inp, ctx);
  }
}
