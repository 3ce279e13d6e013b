/** In what order a sequential decoder takes blocks and records, and what it makes of those it does not know
    (src/core/xq_decoder.c:200-324). */
module Order {
  import opened Bytes
  import opened Format
  import opened Codec
  import opened Container
  import opened ContainerProof
  import opened FileSpec
  import opened Index
  import opened Decoder
  import opened Api
  import opened Damage
  import Crc32c

  // ----- order

  lemma OffsetsDiffer(d: Doc, i: nat, k: nat)
    requires DocOk(d) && i < |d.blocks| && k <= |d.blocks| && i < k
    ensures |Total(d.blocks[..i])| + |d.blocks[i]| <= |Total(d.blocks[..k])| && |d.blocks[i]| > 0
  {
    hide Total, JobsOk, DictOk;
    BlockNotEmpty(d, i);
    var a := d.blocks[..k];
    TotalTake(a, i + 1);
    assert a[..i + 1] == d.blocks[..i] + [d.blocks[i]];
    TotalSnoc(d.blocks[..i], d.blocks[i]);
  }

  lemma WrongOffset(ctx: Ctx, h: BlockHeader, s: seq<byte>)
    requires h.rawOffset != ctx.rawOffset
    ensures DecodeBlock(ctx, h, s) == Bad(ErrCorruptBlock)
  {
    hide BlockRaw, ChecksumBytes;
  }

  /** Blocks are taken in their order only: where block `i` should come, no other block of the file is accepted, be
      it an earlier one again or a later one too soon. */
  lemma OnlyNextBlock(d: Doc, i: nat, k: nat, s: seq<byte>, limit: nat)
    requires DocOk(d) && Roomy(limit, d.cfg, d.dj) && i <= |d.blocks| && k < |d.blocks| && k != i
    ensures var file := Leading(d, i) + BlockOf(d, k) + s;
            && Delivered(file, limit) == Stream(Total(d.blocks[..i]), Some(ErrCorruptBlock))
            && DecodeFile(file, limit) == Failure(ErrCorruptBlock)
  {
    hide BlockBytes, Total, Delivered, JobOk, JobsOk, DictOk, ValidConfig, Next, DecodeFile, Leading, Roomy, BlockSize,
         DecodeBlock, BlockHeaderFor, ParseBlock, Ld16, Matches, StreamOf;
    BlockFacts(d, k, limit);
    if i < k {
      OffsetsDiffer(d, i, k);
    } else {
      OffsetsDiffer(d, k, i);
    }
    var off, ctx := |Total(d.blocks[..k])|, CtxAt(d, i, limit);
    WrittenHeader(d.cfg, d.blocks[k], off, d.jobs[k], s);
    FieldsOfBlock(d.cfg, d.blocks[k], off, d.jobs[k]);
    var h := BlockHeaderFor(d.cfg, d.blocks[k], off, d.jobs[k]);
    BlockLength(d.cfg, d.blocks[k], off, d.jobs[k]);
    var t := BlockOf(d, k) + s;
    NextIsDecode(ctx, h, t);
    WrongOffset(ctx, h, t[BLOCK_HEADER_SIZE..]);
    RefusedAt(d, i, t, limit, ErrCorruptBlock);
    assert Leading(d, i) + BlockOf(d, k) + s == Leading(d, i) + t;
  }

  lemma RefusedAt(d: Doc, i: nat, t: seq<byte>, limit: nat, e: Status)
    requires DocOk(d) && i <= |d.blocks| && Roomy(limit, d.cfg, d.dj) && Next(CtxAt(d, i, limit), t) == Bad(e)
    ensures Delivered(Leading(d, i) + t, limit) == Stream(Total(d.blocks[..i]), Some(e)) && DecodeFile(Leading(d, i) + t, limit) == Failure(e)
  {
    hide Next, StreamOf, JobsOk, DictOk, ValidConfig, Delivered, DecodeFile, Leading, CtxAt, Total, Roomy;
    DeliveredUpTo(d, i, t, limit);
    StreamStops(CtxAt(d, i, limit), t, e);
    assert Total(d.blocks[..i]) + [] == Total(d.blocks[..i]);
    DecodedIsDelivered(Leading(d, i) + t, limit);
  }

  lemma DeliveredThenEnd(d: Doc, i: nat, rest: seq<byte>, limit: nat)
    requires DocOk(d) && i <= |d.blocks| && Roomy(limit, d.cfg, d.dj)
    ensures DecodeFile(Leading(d, i) + (EobBytes() + rest), limit) == Success(Total(d.blocks[..i]))
  {
    hide Next, JobsOk, DictOk, ValidConfig, Delivered, DecodeFile, Leading, CtxAt, Total, Roomy, EobBytes;
    DeliveredUpTo(d, i, EobBytes() + rest, limit);
    NextOnEob(CtxAt(d, i, limit), rest);
    assert Total(d.blocks[..i]) + [] == Total(d.blocks[..i]);
    DecodedIsDelivered(Leading(d, i) + (EobBytes() + rest), limit);
  }

  lemma LastHasNoFollower(d: Doc, i: nat)
    requires FileFits(d) && i < |d.blocks|
    ensures i + 1 == |d.blocks| ==> Trailing(d, i) == EobBytes() + TailBytes(d)
  {
    hide EobBytes, TailBytes, ValidConfig, Total, Following, MainBytes;
    if i + 1 == |d.blocks| {
      NoFollowing(d, i);
      Assoc([], [], EobBytes() + TailBytes(d));
    }
  }

  lemma NoFollowing(d: Doc, i: nat)
    requires Sized(d) && i + 1 == |d.blocks|
    ensures Following(d, i) == []
  {
    hide ValidConfig, Total;
    TrailingFits(d, i);
    assert d.blocks[i + 1..] == [] && d.jobs[i + 1..] == [];
  }

  lemma FollowingMore(d: Doc, i: nat)
    requires Sized(d) && i + 1 < |d.blocks|
    ensures Following(d, i) == BlockOf(d, i + 1) + Following(d, i + 1)
  {
    hide ValidConfig, Total, BlockBytes, Body;
    TrailingFits(d, i);
    TrailingFits(d, i + 1);
    LeadingFits(d, i + 1);
    assert d.blocks[..i + 1] == d.blocks[..i] + [d.blocks[i]];
    TotalSnoc(d.blocks[..i], d.blocks[i]);
    assert d.blocks[i + 1..][1..] == d.blocks[i + 2..] && d.jobs[i + 1..][1..] == d.jobs[i + 2..];
    BodyOfMore(d.cfg, d.blocks[i + 1..], d.jobs[i + 1..], |Total(d.blocks[..i])| + |d.blocks[i]|);
  }

  lemma TrailingMore(d: Doc, i: nat)
    requires FileFits(d) && i + 1 < |d.blocks|
    ensures Trailing(d, i) == BlockOf(d, i + 1) + Trailing(d, i + 1)
  {
    hide EobBytes, TailBytes, ValidConfig, Total, BlockOf, Following, MainBytes;
    FollowingMore(d, i);
    Assoc(BlockOf(d, i + 1), Following(d, i + 1), EobBytes() + TailBytes(d));
  }

  lemma Assoc(a: seq<byte>, b: seq<byte>, c: seq<byte>)
    ensures (a + b) + c == a + (b + c) && [] + c == c
  {}

  /** A file from which block `i` has been cut out is refused there, unless it was the last: that the end is missing a
      block a sequential decoder does not see. */
  lemma CutBlockNoticedIff(d: Doc, i: nat, limit: nat)
    requires DocOk(d) && FileFits(d) && i < |d.blocks| && Roomy(limit, d.cfg, d.dj)
    ensures DecodeFile(Leading(d, i) + Trailing(d, i), limit)
            == if i + 1 < |d.blocks| then Failure(ErrCorruptBlock) else Success(Total(d.blocks[..i]))
  {
    hide DecodeFile, Leading, Trailing, BlockOf, Delivered, EobBytes, TailBytes, JobsOk, DictOk, ValidConfig, Total, Roomy, MainBytes;
    if i + 1 < |d.blocks| {
      TrailingMore(d, i);
      OnlyNextBlock(d, i, i + 1, Trailing(d, i + 1), limit);
      Assoc(Leading(d, i), BlockOf(d, i + 1), Trailing(d, i + 1));
    } else {
      LastHasNoFollower(d, i);
      DeliveredThenEnd(d, i, TailBytes(d), limit);
    }
  }

  // ----- records

  /** Any other record between blocks is stepped over, unless it is marked as one that has to be understood. A tag and
      flags that spell a block's magic are not a record. */
  lemma OtherRecords(ctx: Ctx, tag: byte, flags: byte, payload: seq<byte>, rest: seq<byte>)
    requires |payload| <= RECORD_MAX && tag != REC_END_OF_BLOCKS && tag != REC_DICT && (tag != 0x0C || flags != 0xB1)
    ensures Next(ctx, RecordBytes(tag, flags, payload) + rest)
            == if flags as int % 2 == 1 && tag != REC_USER_META && tag != REC_INDEX then Bad(ErrUnsupportedFeature) else Next(ctx, rest)
  {
    hide RecordBytes, Ld32, Ld64, Crc32c.Crc, ReadDict, DecodeBlock, ParseBlock;
    RecordCut(tag, flags, payload, rest);
    var s := RecordBytes(tag, flags, payload) + rest;
    assert s[RECORD_HEADER_SIZE..][|payload|..] == s[RECORD_HEADER_SIZE + |payload|..];
    hide Ld16;
    NotMagic(s);
  }

  lemma NotMagic(s: seq<byte>)
    requires |s| >= 2 && (s[0] != 0x0C || s[1] != 0xB1)
    ensures Ld16(s, 0) != BLOCK_MAGIC
  {}

  /** A header of a later version may be longer; what it adds is stepped over. */
  lemma LongerHeader(h: FileHeader, more: seq<byte>, rest: seq<byte>, limit: nat)
    requires CheckHeader(h) == XqOk && h.headerSize == FILE_HEADER_SIZE && FILE_HEADER_SIZE + |more| <= 4096
    ensures var h' := h.(headerSize := FILE_HEADER_SIZE + |more|);
            Delivered(StoreHeader(h') + more + rest, limit) == Delivered(StoreHeader(h) + rest, limit)
  {
    hide StoreHeader, ParseHeader, StreamOf, Codec.Bound;
    var h' := h.(headerSize := FILE_HEADER_SIZE + |more|);
    var s, t := StoreHeader(h') + more + rest, StoreHeader(h) + rest;
    assert s[..FILE_HEADER_SIZE] == StoreHeader(h') && t[..FILE_HEADER_SIZE] == StoreHeader(h);
    HeaderRoundTrip(h', s);
    HeaderRoundTrip(h, t);
    assert s[FILE_HEADER_SIZE + |more|..] == rest && t[FILE_HEADER_SIZE..] == rest;
    hide CheckHeader;
  }

  /** A second dictionary is refused. */
  lemma SecondDict(ctx: Ctx, s: seq<byte>)
    requires |s| >= RECORD_HEADER_SIZE && s[0] == REC_DICT && Ld64(s, 2) <= RECORD_MAX && ctx.dict.Some?
    ensures Next(ctx, s) == Bad(ErrCorruptRecord)
  {
    hide DictOf, Ld16, Ld32, Ld64, Crc32c.Crc, ParseBlock, DecodeBlock;
    assert ReadDict(ctx, s) == Failure(ErrCorruptRecord);
    NextRefused(ctx, s, ErrCorruptRecord);
  }

  /** Any one other byte behind the tag of the record that ends the blocks. */
  lemma EndByteRefused(ctx: Ctx, q: nat, c: byte, rest: seq<byte>)
    requires 1 <= q < RECORD_HEADER_SIZE && EobBytes()[q] != c
    ensures Next(ctx, EobBytes()[q := c] + rest) == Bad(ErrCorruptRecord)
  {
    hide EobBytes, Next, Crc32c.Crc, Ld32;
    var b := EobBytes();
    EndIsSealed();
    Unsealed(b, q, c);
    SamePrefix(b[q := c], rest);
    BadEnd(ctx, b[q := c] + rest);
  }

  lemma EndIsSealed()
    ensures var b := EobBytes(); b[0] == REC_END_OF_BLOCKS && Ld32(b, 10) == Crc32c.Crc(b[..10])
  {
    hide RecordBytes, Crc32c.Crc, Ld32, Ld64;
    var b := EobBytes();
    RecordCut(REC_END_OF_BLOCKS, 1, [], []);
    assert b + [] == b && b[..10] + [] == b[..10];
  }

  lemma Unsealed(b: seq<byte>, q: nat, c: byte)
    requires |b| == 14 && q < 14 && b[q] != c && Ld32(b, 10) == Crc32c.Crc(b[..10])
    ensures Ld32(b[q := c], 10) != Crc32c.Crc(b[q := c][..10])
  {
    hide Crc32c.Crc, Ld32, Sealed;
    SealedPrefix(b, 10);
    SealedPrefix(b[q := c], 10);
    assert b[..14] == b && b[q := c][..14] == b[q := c];
    OneByteUnseals(b, q, c);
  }

  lemma SamePrefix(t: seq<byte>, rest: seq<byte>)
    requires |t| == 14
    ensures var s := t + rest; s[0] == t[0] && s[..10] == t[..10] && Ld32(s, 10) == Ld32(t, 10)
  {}

  lemma BadEnd(ctx: Ctx, s: seq<byte>)
    requires |s| >= 14 && s[0] == REC_END_OF_BLOCKS && Ld32(s, 10) != Crc32c.Crc(s[..10])
    ensures Next(ctx, s) == Bad(ErrCorruptRecord)
  {
    NotBlockMagic(s);
    hide Ld16, Ld32, Ld64, Crc32c.Crc, ReadDict, DecodeBlock, ParseBlock;
  }

  /** So nothing of an end that has been tampered with is taken for the end. */
  lemma FileEndNoticed(d: Doc, q: nat, c: byte, rest: seq<byte>, limit: nat)
    requires DocOk(d) && Roomy(limit, d.cfg, d.dj) && 1 <= q < RECORD_HEADER_SIZE && EobBytes()[q] != c
    ensures DecodeFile(Leading(d, |d.blocks|) + (EobBytes()[q := c] + rest), limit) == Failure(ErrCorruptRecord)
  {
    hide DecodeFile, Leading, Delivered, EobBytes, JobsOk, DictOk, ValidConfig, Total, Roomy, Next, CtxAt;
    EndByteRefused(CtxAt(d, |d.blocks|, limit), q, c, rest);
    RefusedAt(d, |d.blocks|, EobBytes()[q := c] + rest, limit, ErrCorruptRecord);
  }
}
