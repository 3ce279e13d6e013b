/** What a sequential decoder notices: damage to a block's payload, to its checksum, to the file header or to the
    dictionary record, for any accepted file and for every file the encoder writes
    (src/core/xq_encoder.c:150-159, src/core/xq_decoder.c:284-293, tests/test_roundtrip.c:83-126). */
module Damage {
  import opened Bytes
  import opened Format
  import opened Codec
  import opened Container
  import opened ContainerProof
  import opened FileSpec
  import opened Index
  import opened ReaderProof
  import opened Decoder
  import opened Api
  import Crc32c
  import Xxh64
  import XxhFacts

  // ----- bursts

  /** `t` is `s` changed somewhere within the four bytes from `p` on, and nowhere else. */
  ghost predicate Burst(s: seq<byte>, t: seq<byte>, p: nat) {
    && |s| == |t| && s != t
    && forall k {:trigger s[k]} {:trigger t[k]} :: 0 <= k < |s| && !(p <= k < p + 4) ==> s[k] == t[k]
  }

  lemma CutWindow(s: seq<byte>, t: seq<byte>, p: nat) returns (pre: seq<byte>, x: seq<byte>, y: seq<byte>, post: seq<byte>)
    requires Burst(s, t, p)
    ensures s == pre + x + post && t == pre + y + post && |x| == |y| <= 4 && x != y
  {
    var a, b := Min(p, |s|), Min(p + 4, |s|);
    pre, x, y, post := s[..a], s[a..b], t[a..b], s[b..];
    assert t[..a] == pre && t[b..] == post;
    assert s == pre + x + post && t == pre + y + post;
  }

  /** A burst changes the CRC-32C. */
  lemma BurstChanges(s: seq<byte>, t: seq<byte>, p: nat)
    requires Burst(s, t, p)
    ensures Crc32c.Crc(s) != Crc32c.Crc(t)
  {
    hide Crc32c.Crc, Burst;
    var pre, x, y, post := CutWindow(s, t, p);
    Crc32c.BurstDetected(pre, x, y, post);
  }

  lemma BurstBehind(a: seq<byte>, s: seq<byte>, t: seq<byte>, p: nat)
    requires Burst(s, t, p)
    ensures Burst(a + s, a + t, |a| + p)
  {
    assert s == (a + s)[|a|..] && t == (a + t)[|a|..];
  }

  // ----- one block

  /** What a block's checksum bytes say of its payload. */
  ghost predicate SumSays(k: Checksum, payload: seq<byte>, sum: seq<byte>)
    requires |sum| == ChecksumSize(k)
  {
    match k
    case NoChecksum => true
    case Crc32cSum => Ld32(sum, 0) == Crc32c.Crc(payload)
    case Xxh64Sum => Ld64(sum, 0) == Xxh64.Hash64(payload)
  }

  lemma SumIs(k: Checksum, payload: seq<byte>, sum: seq<byte>)
    requires |sum| == ChecksumSize(k)
    ensures sum == ChecksumBytes(k, payload) <==> SumSays(k, payload, sum)
  {
    hide Crc32c.Crc, Xxh64.Hash64, Ld32, Ld64, Le32, Le64;
    assert sum[0..|sum|] == sum;
    match k
    case NoChecksum =>
    case Crc32cSum => Load32(sum, 0, Crc32c.Crc(payload));
    case Xxh64Sum => Load64(sum, 0, Xxh64.Hash64(payload));
  }

  /** Accepting a block means that its checksum is that of the payload that is there: the CRC-32C in four bytes,
      or the XXH64 in eight. */
  lemma AcceptedSum(ctx: Ctx, h: BlockHeader, s: seq<byte>)
    requires DecodeBlock(ctx, h, s).Block?
    ensures var n, k := h.storedSize as int, ChecksumSize(ctx.checksum);
            n + k <= |s| && SumSays(ctx.checksum, s[..n], s[n..n + k])
  {
    hide BlockRaw, ChecksumBytes, SumSays;
    var n, k := h.storedSize as int, ChecksumSize(ctx.checksum);
    SumIs(ctx.checksum, s[..n], s[n..n + k]);
  }

  /** And the one the encoder writes is. */
  lemma WrittenSum(cfg: Config, raw: seq<byte>, off: uint64, j: Job)
    requires |raw| <= BLOCK_MAX && |j.payload| <= BLOCK_MAX
    ensures var b, n := BlockBytes(cfg, raw, off, j), BLOCK_HEADER_SIZE + |j.payload|;
            b[BLOCK_HEADER_SIZE..n] == j.payload && SumSays(cfg.checksum, j.payload, b[n..])
  {
    hide StoreBlock, BlockHeaderFor, ChecksumBytes, SumSays;
    var sum := ChecksumBytes(cfg.checksum, j.payload);
    SumIs(cfg.checksum, j.payload, sum);
    Cut4(StoreBlock(BlockHeaderFor(cfg, raw, off, j)), j.payload, sum, []);
    var b := BlockBytes(cfg, raw, off, j);
    assert b + [] == b;
    assert b[BLOCK_HEADER_SIZE + |j.payload|..] == b[BLOCK_HEADER_SIZE..][|j.payload|..] == sum + [] == sum;
    assert b[BLOCK_HEADER_SIZE..BLOCK_HEADER_SIZE + |j.payload|] == b[BLOCK_HEADER_SIZE..][..|j.payload|];
  }

  /** A block accepted under CRC-32C is not accepted with a burst in its payload. */
  lemma PayloadBurstRefused(ctx: Ctx, h: BlockHeader, s: seq<byte>, t: seq<byte>, p: nat)
    requires DecodeBlock(ctx, h, s).Block? && ctx.checksum == Crc32cSum && h.storedSize as int <= |t| == |s|
    requires var n := h.storedSize as int; Burst(s[..n], t[..n], p) && s[n..] == t[n..]
    ensures DecodeBlock(ctx, h, t) == Bad(ErrCorruptBlock)
  {
    hide BlockRaw, ChecksumBytes, Burst, Crc32c.Crc, Ld32;
    var n := h.storedSize as int;
    AcceptedSum(ctx, h, s);
    BurstChanges(s[..n], t[..n], p);
    SameSum(s, t, n);
    SumIs(Crc32cSum, t[..n], t[n..n + 4]);
  }

  /** Under XXH64 it is not accepted with one unit of the payload's last fewer than 32 bytes changed. */
  lemma TailUnitRefused(ctx: Ctx, h: BlockHeader, s: seq<byte>, t: seq<byte>, whole: seq<byte>, x: seq<byte>, y: seq<byte>)
    requires DecodeBlock(ctx, h, s).Block? && ctx.checksum == Xxh64Sum && h.storedSize as int <= |t| == |s|
    requires |whole| % 32 == 0 && |x| < 32 && XxhFacts.OneUnit(x, y)
    requires var n := h.storedSize as int; s[..n] == whole + x && t[..n] == whole + y && s[n..] == t[n..]
    ensures DecodeBlock(ctx, h, t) == Bad(ErrCorruptBlock)
  {
    hide BlockRaw, ChecksumBytes, Xxh64.Hash64, Ld64, XxhFacts.OneUnit;
    var n := h.storedSize as int;
    AcceptedSum(ctx, h, s);
    XxhFacts.StoredTells(whole, x, y);
    assert s[n..n + 8] == s[n..][..8] && t[n..n + 8] == t[n..][..8];
    SumIs(Xxh64Sum, t[..n], t[n..n + 8]);
  }

  lemma SameSum(s: seq<byte>, t: seq<byte>, n: nat)
    requires n + 4 <= |s| == |t| && s[n..] == t[n..]
    ensures s[n..n + 4] == t[n..n + 4]
  {
    assert s[n..n + 4] == s[n..][..4] && t[n..n + 4] == t[n..][..4];
  }

  /** Nor, under any checksum, with other checksum bytes. */
  lemma OtherSumRefused(ctx: Ctx, h: BlockHeader, s: seq<byte>, t: seq<byte>)
    requires DecodeBlock(ctx, h, s).Block? && |t| == |s|
    requires var n, k := h.storedSize as int, ChecksumSize(ctx.checksum);
             n + k <= |s| && s[..n] == t[..n] && s[n..n + k] != t[n..n + k]
    ensures DecodeBlock(ctx, h, t) == Bad(ErrCorruptBlock)
  {
    hide BlockRaw, ChecksumBytes;
  }

  // ----- one step of a stream

  lemma SameHeader(s: seq<byte>, t: seq<byte>)
    requires |s| == |t| >= BLOCK_HEADER_SIZE && s[..BLOCK_HEADER_SIZE] == t[..BLOCK_HEADER_SIZE]
    ensures Ld16(s, 0) == Ld16(t, 0) && ParseBlock(s) == ParseBlock(t)
  {
    hide Crc32c.Crc, Plausible;
    assert forall k {:trigger s[k]} {:trigger t[k]} :: 0 <= k < BLOCK_HEADER_SIZE ==> s[k] == s[..BLOCK_HEADER_SIZE][k] && t[k] == t[..BLOCK_HEADER_SIZE][k];
    assert s[..20] == s[..BLOCK_HEADER_SIZE][..20] && t[..20] == t[..BLOCK_HEADER_SIZE][..20];
  }

  /** The stored size of the block at the front of `s`. */
  function FrontSize(s: seq<byte>): nat {
    match ParseBlock(s)
    case Failure(_) => 0
    case Success(h) => h.storedSize as int
  }

  /** Any stream that begins with a good block, under CRC-32C, with a burst in the block's payload. */
  lemma NextRefuses(ctx: Ctx, s: seq<byte>, t: seq<byte>, p: nat)
    requires |s| >= BLOCK_HEADER_SIZE && Ld16(s, 0) == BLOCK_MAGIC && Next(ctx, s).Block? && ctx.checksum == Crc32cSum
    requires |t| == |s| && t[..BLOCK_HEADER_SIZE] == s[..BLOCK_HEADER_SIZE]
    requires var n := FrontSize(s); var e := BLOCK_HEADER_SIZE + n;
             e <= |s| && s[e..] == t[e..] && Burst(s[BLOCK_HEADER_SIZE..e], t[BLOCK_HEADER_SIZE..e], p)
    ensures Next(ctx, t) == Bad(ErrCorruptBlock)
  {
    hide DecodeBlock, ParseBlock, Ld16, Burst, ReadDict, Next;
    SameHeader(s, t);
    ParsesOrNot(ctx, s);
    var h := ParseBlock(s).value;
    NextIsDecode(ctx, h, s);
    NextIsDecode(ctx, h, t);
    var a, b, n := s[BLOCK_HEADER_SIZE..], t[BLOCK_HEADER_SIZE..], h.storedSize as int;
    assert a[..n] == s[BLOCK_HEADER_SIZE..BLOCK_HEADER_SIZE + n] && b[..n] == t[BLOCK_HEADER_SIZE..BLOCK_HEADER_SIZE + n];
    assert a[n..] == s[BLOCK_HEADER_SIZE + n..] && b[n..] == t[BLOCK_HEADER_SIZE + n..];
    PayloadBurstRefused(ctx, h, a, b, p);
  }

  lemma ParsesOrNot(ctx: Ctx, s: seq<byte>)
    requires |s| >= BLOCK_HEADER_SIZE && Ld16(s, 0) == BLOCK_MAGIC && Next(ctx, s).Block?
    ensures ParseBlock(s).Success?
  {
    hide DecodeBlock, ParseBlock, Ld16, ReadDict;
  }

  /** And with any one byte of the block's header changed but for the two that tell a block from a record. */
  lemma HeaderByteRefused(ctx: Ctx, s: seq<byte>, i: nat, b: byte)
    requires |s| >= BLOCK_HEADER_SIZE && Ld16(s, 0) == BLOCK_MAGIC && Next(ctx, s).Block?
    requires 2 <= i < BLOCK_HEADER_SIZE && b != s[i]
    ensures Next(ctx, s[i := b]) == Bad(ErrCorruptBlock)
  {
    hide Next, DecodeBlock, Crc32c.Crc, Plausible, ReadBlock, Ld32, ReadDict;
    ParsesOrNot(ctx, s);
    BlockDamage(s, i, b);
    NextOnBadHeader(ctx, s[i := b]);
  }

  lemma NextOnBadHeader(ctx: Ctx, s: seq<byte>)
    requires |s| >= BLOCK_HEADER_SIZE && Ld16(s, 0) == BLOCK_MAGIC && ParseBlock(s).Failure?
    ensures Next(ctx, s) == Bad(ErrCorruptBlock)
  {
    hide Crc32c.Crc, Plausible, ReadBlock, Ld16, Ld32, ReadDict, DecodeBlock;
  }

  // ----- streams

  lemma StreamOnBlock(ctx: Ctx, s: seq<byte>, raw: seq<byte>, rest: seq<byte>, ctx': Ctx)
    requires Next(ctx, s) == Block(raw, rest, ctx')
    ensures StreamOf(ctx, s) == StreamOf(ctx', rest).(bytes := raw + StreamOf(ctx', rest).bytes)
  {
    hide Next;
  }

  lemma StreamStops(ctx: Ctx, s: seq<byte>, e: Status)
    requires Next(ctx, s) == Bad(e)
    ensures StreamOf(ctx, s) == Stream([], Some(e))
  {
    hide Next;
  }

  lemma SameNextSameStream(ctx: Ctx, s: seq<byte>, ctx': Ctx, t: seq<byte>)
    requires Next(ctx, s) == Next(ctx', t)
    ensures StreamOf(ctx, s) == StreamOf(ctx', t)
  {
    hide Next;
  }

  /** Good blocks are delivered, and then whatever follows. */
  lemma {:induction false} StreamOnBody(ctx: Ctx, cfg: Config, blocks: seq<seq<byte>>, jobs: seq<Job>, off: nat, rest: seq<byte>)
    requires JobsOk(cfg, blocks, jobs) && off + |Total(blocks)| < U64_LIMIT && Matches(ctx, cfg, off)
    requires forall i :: 0 <= i < |blocks| ==> |blocks[i]| <= BLOCK_MAX && |jobs[i].payload| <= BLOCK_MAX
    ensures var p := StreamOf(ctx.(rawOffset := off + |Total(blocks)|), rest);
            StreamOf(ctx, Body(cfg, blocks, jobs, off) + rest) == p.(bytes := Total(blocks) + p.bytes)
    decreases |blocks|
  {
    hide JobOk, BlockBytes, Next, StreamOf, ValidConfig, BlockSize, Codec.Bound;
    if blocks == [] {
      assert [] + rest == rest;
    } else {
      var b, off' := BlockBytes(cfg, blocks[0], off, jobs[0]), off + |blocks[0]|;
      var more := Body(cfg, blocks[1..], jobs[1..], off');
      assert JobOk(cfg, blocks[0], jobs[0]);
      assert Body(cfg, blocks, jobs, off) + rest == b + (more + rest);
      NextOnBlock(ctx, cfg, blocks[0], off, jobs[0], more + rest);
      StreamOnBlock(ctx, b + (more + rest), blocks[0], more + rest, ctx.(rawOffset := off'));
      StreamOnBody(ctx.(rawOffset := off'), cfg, blocks[1..], jobs[1..], off', rest);
    }
  }

  /** The context a decoder has behind the dictionary record. */
  function Ready(cfg: Config, limit: nat): Ctx {
    if cfg.dict == [] then Opened(cfg, limit) else Opened(cfg, limit).(dict := Some(cfg.dict))
  }

  predicate Roomy(limit: nat, cfg: Config, dj: Job) {
    Within(limit, BlockSize(cfg)) && (cfg.dict == [] || HasRoom(limit, cfg, dj))
  }

  lemma DeliveredBehindFront(d: Doc, rest: seq<byte>, limit: nat)
    requires DocOk(d) && Roomy(limit, d.cfg, d.dj)
    ensures Delivered(Front(d.cfg, d.hint, d.kind, d.dj) + rest, limit) == StreamOf(Ready(d.cfg, limit), rest)
  {
    hide DictRecord, StoreHeader, HeaderFor, StreamOf, Next, JobsOk, DictOk, BlockSize, Codec.Bound, HasRoom, Total, Within, Open;
    var h, r := StoreHeader(HeaderFor(d.cfg, d.hint)), if d.cfg.dict == [] then [] else DictRecord(d.cfg, d.kind, d.dj);
    assert Front(d.cfg, d.hint, d.kind, d.dj) + rest == h + (r + rest);
    OpensTo(d.cfg, d.hint, r + rest, limit);
    if d.cfg.dict == [] {
      assert r + rest == rest;
    } else {
      NextOnDict(Opened(d.cfg, limit), d.cfg, d.kind, d.dj, rest);
      SameNextSameStream(Opened(d.cfg, limit), r + rest, Ready(d.cfg, limit), rest);
    }
  }

  // ----- whole files

  lemma {:induction false} BodyAround(cfg: Config, blocks: seq<seq<byte>>, jobs: seq<Job>, fileOff: nat, off: nat, i: nat) returns (rest: seq<byte>)
    requires |blocks| == |jobs| && i < |blocks| && off + |Total(blocks)| < U64_LIMIT
    requires forall k :: 0 <= k < |blocks| ==> |blocks[k]| <= BLOCK_MAX && |jobs[k].payload| <= BLOCK_MAX
    ensures |Total(blocks[..i])| + |blocks[i]| + |Total(blocks[i + 1..])| == |Total(blocks)|
    ensures var pre, at := Body(cfg, blocks[..i], jobs[..i], off), off + |Total(blocks[..i])|;
            && Entries(cfg, blocks, jobs, fileOff, off)[i] == Entry(fileOff + |pre|, at)
            && Body(cfg, blocks, jobs, off) == pre + (BlockBytes(cfg, blocks[i], at, jobs[i]) + rest)
    ensures rest == Body(cfg, blocks[i + 1..], jobs[i + 1..], off + |Total(blocks[..i])| + |blocks[i]|)
    decreases |blocks|
  {
    hide BlockBytes, Entries, Body, Total, BlockLen;
    BodyOfMore(cfg, blocks, jobs, off);
    var b := BlockBytes(cfg, blocks[0], off, jobs[0]);
    EntriesOfMore(cfg, blocks, jobs, fileOff, off);
    TotalTake(blocks, i);
    if i == 0 {
      rest := Body(cfg, blocks[1..], jobs[1..], off + |blocks[0]|);
      NothingBefore(cfg, off);
      assert blocks[..0] == [] && jobs[..0] == [];
      assert [] + (b + rest) == b + rest;
    } else {
      rest := BodyAround(cfg, blocks[1..], jobs[1..], fileOff + BlockLen(cfg, jobs[0]), off + |blocks[0]|, i - 1);
      assert blocks[..i][1..] == blocks[1..][..i - 1] && jobs[..i][1..] == jobs[1..][..i - 1];
      assert blocks[1..][i..] == blocks[i + 1..] && jobs[1..][i..] == jobs[i + 1..];
      BodyOfMore(cfg, blocks[..i], jobs[..i], off);
      BlockLength(cfg, blocks[0], off, jobs[0]);
      var e := Entries(cfg, blocks, jobs, fileOff, off)[i];
      Regroup3(b, Body(cfg, blocks[1..][..i - 1], jobs[1..][..i - 1], off + |blocks[0]|), BlockBytes(cfg, blocks[i], e.rawOffset, jobs[i]), rest);
    }
  }

  lemma Regroup3(a: seq<byte>, b: seq<byte>, c: seq<byte>, d: seq<byte>)
    ensures a + (b + (c + d)) == a + b + (c + d)
  {}

  lemma NothingBefore(cfg: Config, off: nat)
    requires off < U64_LIMIT
    ensures |Total([])| == 0 && Body(cfg, [], [], off) == []
  {}

  lemma BlockLength(cfg: Config, raw: seq<byte>, off: uint64, j: Job)
    requires |raw| <= BLOCK_MAX && |j.payload| <= BLOCK_MAX
    ensures |BlockBytes(cfg, raw, off, j)| == BlockLen(cfg, j)
  {}

  lemma LeadingFits(d: Doc, i: nat)
    requires Sized(d) && i <= |d.blocks|
    ensures |Total(d.blocks[..i])| < U64_LIMIT && |d.jobs[..i]| == i
  {
    hide Total, ValidConfig;
    TotalTake(d.blocks, i);
  }

  /** A file before its block `i`. */
  function Leading(d: Doc, i: nat): seq<byte>
    requires Sized(d) && i <= |d.blocks|
  {
    LeadingFits(d, i);
    Front(d.cfg, d.hint, d.kind, d.dj) + Body(d.cfg, d.blocks[..i], d.jobs[..i], 0)
  }

  function BlockOf(d: Doc, i: nat): seq<byte>
    requires Sized(d) && i < |d.blocks|
  {
    LeadingFits(d, i);
    BlockBytes(d.cfg, d.blocks[i], |Total(d.blocks[..i])|, d.jobs[i])
  }

  lemma TrailingFits(d: Doc, i: nat)
    requires Sized(d) && i < |d.blocks|
    ensures |Total(d.blocks[..i])| + |d.blocks[i]| + |Total(d.blocks[i + 1..])| == |Total(d.blocks)| < U64_LIMIT
  {
    hide Total, ValidConfig;
    var a, b := d.blocks[..i], d.blocks[i + 1..];
    assert d.blocks == (a + [d.blocks[i]]) + b;
    TotalSnoc(a, d.blocks[i]);
    TotalAppend(a + [d.blocks[i]], b);
  }

  lemma {:induction false} TotalAppend(a: seq<seq<byte>>, b: seq<seq<byte>>)
    ensures Total(a + b) == Total(a) + Total(b)
  {
    if a == [] {
      assert a + b == b;
    } else {
      TotalAppend(a[1..], b);
      TotalOfMore(a);
      TotalOfMore(a + b);
      hide Total;
      assert (a + b)[0] == a[0] && (a + b)[1..] == a[1..] + b;
      Associate(a[0], Total(a[1..]), Total(b));
    }
  }

  lemma TotalOfMore(a: seq<seq<byte>>)
    requires a != []
    ensures Total(a) == a[0] + Total(a[1..])
  {}

  lemma Associate(a: seq<byte>, b: seq<byte>, c: seq<byte>)
    ensures a + (b + c) == a + b + c
  {}

  /** The blocks behind it. */
  function Following(d: Doc, i: nat): seq<byte>
    requires Sized(d) && i < |d.blocks|
  {
    TrailingFits(d, i);
    Body(d.cfg, d.blocks[i + 1..], d.jobs[i + 1..], |Total(d.blocks[..i])| + |d.blocks[i]|)
  }

  /** And all that is behind it. */
  function Trailing(d: Doc, i: nat): seq<byte>
    requires FileFits(d) && i < |d.blocks|
  {
    Following(d, i) + (EobBytes() + TailBytes(d))
  }

  lemma FileAround(d: Doc, i: nat)
    requires FileFits(d) && i < |d.blocks|
    ensures FileBytes(d) == Leading(d, i) + BlockOf(d, i) + Trailing(d, i)
    ensures DocEntries(d)[i] == Entry(|Leading(d, i)|, |Total(d.blocks[..i])|)
  {
    hide Front, Body, BlockBytes, Total, EobBytes, TailBytes, ValidConfig, Entries, BlockLen;
    LeadingFits(d, i);
    var front := Front(d.cfg, d.hint, d.kind, d.dj);
    var rest := BodyAround(d.cfg, d.blocks, d.jobs, |front|, 0, i);
    Regroup4(front, Body(d.cfg, d.blocks[..i], d.jobs[..i], 0), BlockOf(d, i), rest, EobBytes(), TailBytes(d));
  }

  lemma Regroup4(a: seq<byte>, b: seq<byte>, c: seq<byte>, d: seq<byte>, e: seq<byte>, f: seq<byte>)
    ensures a + ((b + (c + d)) + e) + f == a + b + c + (d + (e + f))
  {}

  lemma JobsBefore(d: Doc, i: nat)
    requires DocOk(d) && i <= |d.blocks|
    ensures JobsOk(d.cfg, d.blocks[..i], d.jobs[..i])
  {
    hide JobOk, DictOk, ValidConfig, Total;
  }

  /** Where decoding stands once the blocks before block `i` are through. */
  function CtxAt(d: Doc, i: nat, limit: nat): Ctx
    requires i <= |d.blocks|
  {
    Ready(d.cfg, limit).(rawOffset := |Total(d.blocks[..i])|)
  }

  /** Whatever stands behind the first `i` blocks of a file, those are delivered first. */
  lemma DeliveredUpTo(d: Doc, i: nat, s: seq<byte>, limit: nat)
    requires DocOk(d) && i <= |d.blocks| && Roomy(limit, d.cfg, d.dj)
    ensures var p := StreamOf(CtxAt(d, i, limit), s);
            Delivered(Leading(d, i) + s, limit) == p.(bytes := Total(d.blocks[..i]) + p.bytes)
  {
    hide Front, Body, Total, BlockSize, Codec.Bound, StreamOf, Delivered, JobsOk, DictOk, HasRoom, ValidConfig, Within;
    LeadingFits(d, i);
    JobsBefore(d, i);
    var front, body := Front(d.cfg, d.hint, d.kind, d.dj), Body(d.cfg, d.blocks[..i], d.jobs[..i], 0);
    assert Leading(d, i) + s == front + (body + s);
    DeliveredBehindFront(d, body + s, limit);
    hide Leading;
    StreamOnBody(Ready(d.cfg, limit), d.cfg, d.blocks[..i], d.jobs[..i], 0, s);
  }

  /** `b` is `s` with other bytes between `lo` and `hi`. */
  ghost predicate Inside(s: seq<byte>, b: seq<byte>, lo: nat, hi: nat) {
    lo <= hi <= |s| == |b| && b[..lo] == s[..lo] && b[hi..] == s[hi..]
  }

  lemma TakeSlice(s: seq<byte>, m: nat, a: nat, b: nat)
    requires a <= b <= m <= |s|
    ensures s[..m][a..b] == s[a..b]
  {
    forall k | 0 <= k < b - a ensures s[..m][a..b][k] == s[a..b][k] {}
  }

  /** `file` is the document's file with a burst in the payload of block `i`, at its byte `p`. */
  ghost predicate PayloadBurst(d: Doc, i: nat, file: seq<byte>, p: nat)
    requires FileFits(d) && i < |d.blocks|
  {
    var at, n := DocEntries(d)[i].fileOffset + BLOCK_HEADER_SIZE, |d.jobs[i].payload|;
    Inside(FileBytes(d), file, at, at + n) && Burst(d.jobs[i].payload, file[at..at + n], p)
  }

  lemma WrittenHeader(cfg: Config, raw: seq<byte>, off: uint64, j: Job, rest: seq<byte>)
    requires ValidConfig(cfg) && JobOk(cfg, raw, j) && off as int + |raw| < U64_LIMIT
    requires |raw| <= BLOCK_MAX && |j.payload| <= BLOCK_MAX
    ensures var s := BlockBytes(cfg, raw, off, j) + rest;
            Ld16(s, 0) == BLOCK_MAGIC && ParseBlock(s) == Success(BlockHeaderFor(cfg, raw, off, j)) && FrontSize(s) == |j.payload|
  {
    hide JobOk, ValidConfig, Plausible, StoreBlock, ChecksumBytes, ParseBlock, Ld16, BlockHeaderFor;
    HeaderIsPlausible(cfg, raw, off, j);
    FieldsOfBlock(cfg, raw, off, j);
    BlockCut(BlockHeaderFor(cfg, raw, off, j), j.payload, cfg.checksum, rest);
    HeaderParses(BlockHeaderFor(cfg, raw, off, j), BlockBytes(cfg, raw, off, j) + rest);
  }

  lemma SlicesBehind(b: seq<byte>, t: seq<byte>, post: seq<byte>, lo: nat, hi: nat)
    requires Inside(b, t, lo, hi)
    ensures (t + post)[..lo] == (b + post)[..lo] && (t + post)[hi..] == (b + post)[hi..]
    ensures (b + post)[lo..hi] == b[lo..hi] && (t + post)[lo..hi] == t[lo..hi]
  {
    assert (t + post)[..lo] == t[..lo] && (b + post)[..lo] == b[..lo];
    assert (t + post)[hi..] == t[hi..] + post && (b + post)[hi..] == b[hi..] + post;
  }

  /** A written block with a burst in its payload is refused, whatever follows. */
  lemma WrittenBurstRefused(ctx: Ctx, cfg: Config, raw: seq<byte>, off: uint64, j: Job, t: seq<byte>, post: seq<byte>, p: nat)
    requires ValidConfig(cfg) && JobOk(cfg, raw, j) && off as int + |raw| < U64_LIMIT && Matches(ctx, cfg, off)
    requires |raw| <= BLOCK_MAX && |j.payload| <= BLOCK_MAX && cfg.checksum == Crc32cSum
    requires var e := BLOCK_HEADER_SIZE + |j.payload|;
             Inside(BlockBytes(cfg, raw, off, j), t, BLOCK_HEADER_SIZE, e) && Burst(j.payload, t[BLOCK_HEADER_SIZE..e], p)
    ensures Next(ctx, t + post) == Bad(ErrCorruptBlock)
  {
    hide JobOk, ValidConfig, BlockSize, Codec.Bound, BlockHeaderFor, BlockBytes, Burst, Next, ParseBlock, Ld16, FrontSize,
         SumSays, ChecksumSize;
    var b := BlockBytes(cfg, raw, off, j);
    NextOnBlock(ctx, cfg, raw, off, j, post);
    WrittenHeader(cfg, raw, off, j, post);
    WrittenSum(cfg, raw, off, j);
    SlicesBehind(b, t, post, BLOCK_HEADER_SIZE, BLOCK_HEADER_SIZE + |j.payload|);
    NextRefuses(ctx, b + post, t + post, p);
  }

  lemma PartChanged(pre: seq<byte>, b: seq<byte>, post: seq<byte>, file: seq<byte>, lo: nat, hi: nat) returns (t: seq<byte>)
    requires Inside(pre + b + post, file, |pre| + lo, |pre| + hi) && hi <= |b|
    ensures file == pre + t + post && Inside(b, t, lo, hi) && t[lo..hi] == file[|pre| + lo..|pre| + hi]
  {
    var s := pre + b + post;
    var e := |pre| + |b|;
    t := file[|pre|..e];
    assert file[..|pre|] == file[..|pre| + lo][..|pre|] == s[..|pre| + lo][..|pre|] == pre;
    assert file[e..] == file[|pre| + hi..][|b| - hi..] == s[|pre| + hi..][|b| - hi..] == post;
    assert t[..lo] == file[..|pre| + lo][|pre|..] == s[..|pre| + lo][|pre|..] == b[..lo];
    assert t[hi..] == file[|pre| + hi..][..|b| - hi] == s[|pre| + hi..][..|b| - hi] == b[hi..];
  }

  lemma BlockFacts(d: Doc, i: nat, limit: nat)
    requires DocOk(d) && i < |d.blocks|
    ensures var off := |Total(d.blocks[..i])|;
            && ValidConfig(d.cfg) && JobOk(d.cfg, d.blocks[i], d.jobs[i]) && off + |d.blocks[i]| < U64_LIMIT
            && |d.blocks[i]| <= BLOCK_MAX && |d.jobs[i].payload| <= BLOCK_MAX && Matches(CtxAt(d, i, limit), d.cfg, off)
  {
    hide JobOk, DictOk, ValidConfig, BlockSize, Codec.Bound;
    JobAt(d, i);
    BlockNotEmpty(d, i);
    TotalTake(d.blocks, i + 1);
    assert d.blocks[..i + 1] == d.blocks[..i] + [d.blocks[i]];
    TotalSnoc(d.blocks[..i], d.blocks[i]);
  }

  /** What the file with other bytes in place of block `i` delivers, when those bytes are refused. */
  lemma DeliveredBefore(d: Doc, i: nat, t: seq<byte>, post: seq<byte>, limit: nat, e: Status)
    requires DocOk(d) && i < |d.blocks| && Roomy(limit, d.cfg, d.dj) && Next(CtxAt(d, i, limit), t + post) == Bad(e)
    ensures Delivered(Leading(d, i) + t + post, limit) == Stream(Total(d.blocks[..i]), Some(e))
    ensures DecodeFile(Leading(d, i) + t + post, limit) == Failure(e)
  {
    hide Next, StreamOf, JobsOk, DictOk, ValidConfig, Delivered, DecodeFile, Leading, CtxAt, Total, Roomy;
    DeliveredUpTo(d, i, t + post, limit);
    StreamStops(CtxAt(d, i, limit), t + post, e);
    assert Leading(d, i) + t + post == Leading(d, i) + (t + post);
    assert Total(d.blocks[..i]) + [] == Total(d.blocks[..i]);
    DecodedIsDelivered(Leading(d, i) + t + post, limit);
  }

  /** Damage is noticed: up to four neighbouring payload bytes of one block changed, under CRC-32C, leave the
      blocks before it to be delivered and then end the decoding with a corrupt block. */
  lemma FileBurstNoticed(d: Doc, i: nat, file: seq<byte>, p: nat, limit: nat)
    requires DocOk(d) && FileFits(d) && i < |d.blocks| && Roomy(limit, d.cfg, d.dj)
    requires d.cfg.checksum == Crc32cSum && PayloadBurst(d, i, file, p)
    ensures Delivered(file, limit) == Stream(Total(d.blocks[..i]), Some(ErrCorruptBlock))
    ensures DecodeFile(file, limit) == Failure(ErrCorruptBlock)
  {
    hide FileBytes, BlockBytes, Total, BlockSize, Delivered, JobOk, JobsOk, DictOk, ValidConfig, Next, Burst, DecodeFile,
         Matches, DocEntries, Leading, Trailing, CtxAt, Roomy, Inside, MainBytes;
    var n := |d.jobs[i].payload|;
    FileAround(d, i);
    var post := Trailing(d, i);
    BlockFacts(d, i, limit);
    BlockLength(d.cfg, d.blocks[i], |Total(d.blocks[..i])|, d.jobs[i]);
    var t := PartChanged(Leading(d, i), BlockOf(d, i), post, file, BLOCK_HEADER_SIZE, BLOCK_HEADER_SIZE + n);
    WrittenBurstRefused(CtxAt(d, i, limit), d.cfg, d.blocks[i], |Total(d.blocks[..i])|, d.jobs[i], t, post, p);
    DeliveredBefore(d, i, t, post, limit, ErrCorruptBlock);
  }

  lemma WrittenSumRefused(ctx: Ctx, cfg: Config, raw: seq<byte>, off: uint64, j: Job, t: seq<byte>, post: seq<byte>)
    requires ValidConfig(cfg) && JobOk(cfg, raw, j) && off as int + |raw| < U64_LIMIT && Matches(ctx, cfg, off)
    requires |raw| <= BLOCK_MAX && |j.payload| <= BLOCK_MAX
    requires var b, e := BlockBytes(cfg, raw, off, j), BLOCK_HEADER_SIZE + |j.payload|; Inside(b, t, e, |b|) && t != b
    ensures Next(ctx, t + post) == Bad(ErrCorruptBlock)
  {
    hide JobOk, ValidConfig, BlockSize, Codec.Bound, BlockHeaderFor, BlockBytes, Next, ParseBlock, Ld16, FrontSize, DecodeBlock;
    var b, e := BlockBytes(cfg, raw, off, j), BLOCK_HEADER_SIZE + |j.payload|;
    NextOnBlock(ctx, cfg, raw, off, j, post);
    WrittenHeader(cfg, raw, off, j, post);
    FieldsOfBlock(cfg, raw, off, j);
    SumSlices(b, t, post, e);
    var h := BlockHeaderFor(cfg, raw, off, j);
    SameHeader(b + post, t + post);
    NextIsDecode(ctx, h, b + post);
    NextIsDecode(ctx, h, t + post);
    OtherSumRefused(ctx, h, (b + post)[BLOCK_HEADER_SIZE..], (t + post)[BLOCK_HEADER_SIZE..]);
  }

  lemma SumSlices(b: seq<byte>, t: seq<byte>, post: seq<byte>, e: nat)
    requires BLOCK_HEADER_SIZE <= e <= |b| && Inside(b, t, e, |b|) && t != b
    ensures var x, y, n := (b + post)[BLOCK_HEADER_SIZE..], (t + post)[BLOCK_HEADER_SIZE..], e - BLOCK_HEADER_SIZE;
            && x[..n] == y[..n] && x[n..n + (|b| - e)] != y[n..n + (|b| - e)]
            && (b + post)[..BLOCK_HEADER_SIZE] == (t + post)[..BLOCK_HEADER_SIZE]
  {
    var x, y, n := (b + post)[BLOCK_HEADER_SIZE..], (t + post)[BLOCK_HEADER_SIZE..], e - BLOCK_HEADER_SIZE;
    assert x[..n] == b[..e][BLOCK_HEADER_SIZE..] && y[..n] == t[..e][BLOCK_HEADER_SIZE..];
    assert x[n..n + (|b| - e)] == b[e..] && y[n..n + (|b| - e)] == t[e..];
    assert b == b[..e] + b[e..] && t == t[..e] + t[e..];
    assert (b + post)[..BLOCK_HEADER_SIZE] == b[..e][..BLOCK_HEADER_SIZE];
    assert (t + post)[..BLOCK_HEADER_SIZE] == t[..e][..BLOCK_HEADER_SIZE];
  }

  lemma WrittenHeaderByteRefused(ctx: Ctx, cfg: Config, raw: seq<byte>, off: uint64, j: Job, q: nat, c: byte, post: seq<byte>)
    requires ValidConfig(cfg) && JobOk(cfg, raw, j) && off as int + |raw| < U64_LIMIT && Matches(ctx, cfg, off)
    requires |raw| <= BLOCK_MAX && |j.payload| <= BLOCK_MAX
    requires 2 <= q < BLOCK_HEADER_SIZE && BlockBytes(cfg, raw, off, j)[q] != c
    ensures Next(ctx, BlockBytes(cfg, raw, off, j)[q := c] + post) == Bad(ErrCorruptBlock)
  {
    hide JobOk, ValidConfig, BlockSize, Codec.Bound, BlockHeaderFor, BlockBytes, Next, ParseBlock, Ld16, FrontSize, DecodeBlock, Matches;
    var b := BlockBytes(cfg, raw, off, j);
    NextOnBlock(ctx, cfg, raw, off, j, post);
    WrittenHeader(cfg, raw, off, j, post);
    HeaderByteRefused(ctx, b + post, q, c);
    assert (b + post)[q := c] == b[q := c] + post;
  }

  /** So do other checksum bytes, whatever the checksum. */
  lemma FileSumNoticed(d: Doc, i: nat, file: seq<byte>, limit: nat)
    requires DocOk(d) && FileFits(d) && i < |d.blocks| && Roomy(limit, d.cfg, d.dj) && file != FileBytes(d)
    requires var at := DocEntries(d)[i].fileOffset;
             Inside(FileBytes(d), file, at + BLOCK_HEADER_SIZE + |d.jobs[i].payload|, at + BlockLen(d.cfg, d.jobs[i]))
    ensures Delivered(file, limit) == Stream(Total(d.blocks[..i]), Some(ErrCorruptBlock))
    ensures DecodeFile(file, limit) == Failure(ErrCorruptBlock)
  {
    hide FileBytes, BlockBytes, Total, BlockSize, Delivered, JobOk, JobsOk, DictOk, ValidConfig, Next, DecodeFile,
         Matches, DocEntries, Leading, Trailing, CtxAt, Roomy, Inside, MainBytes;
    var n, m := |d.jobs[i].payload|, BlockLen(d.cfg, d.jobs[i]);
    FileAround(d, i);
    var post := Trailing(d, i);
    BlockFacts(d, i, limit);
    BlockLength(d.cfg, d.blocks[i], |Total(d.blocks[..i])|, d.jobs[i]);
    var t := PartChanged(Leading(d, i), BlockOf(d, i), post, file, BLOCK_HEADER_SIZE + n, m);
    WrittenSumRefused(CtxAt(d, i, limit), d.cfg, d.blocks[i], |Total(d.blocks[..i])|, d.jobs[i], t, post);
    DeliveredBefore(d, i, t, post, limit, ErrCorruptBlock);
  }

  /** And any one other byte in a block's header behind its first two, under no checksum as well. */
  lemma FileBlockHeaderNoticed(d: Doc, i: nat, q: nat, c: byte, limit: nat)
    requires DocOk(d) && FileFits(d) && i < |d.blocks| && Roomy(limit, d.cfg, d.dj) && 2 <= q < BLOCK_HEADER_SIZE
    requires var at := DocEntries(d)[i].fileOffset + q; at < |FileBytes(d)| && FileBytes(d)[at] != c
    ensures var file := FileBytes(d)[DocEntries(d)[i].fileOffset + q := c];
            && Delivered(file, limit) == Stream(Total(d.blocks[..i]), Some(ErrCorruptBlock))
            && DecodeFile(file, limit) == Failure(ErrCorruptBlock)
  {
    hide FileBytes, BlockBytes, Total, BlockSize, Delivered, JobOk, JobsOk, DictOk, ValidConfig, Next, DecodeFile,
         Matches, DocEntries, Leading, Trailing, CtxAt, Roomy, MainBytes;
    FileAround(d, i);
    var post := Trailing(d, i);
    BlockFacts(d, i, limit);
    BlockLength(d.cfg, d.blocks[i], |Total(d.blocks[..i])|, d.jobs[i]);
    var b := BlockOf(d, i);
    ByteChanged(Leading(d, i), b, post, q, c);
    WrittenHeaderByteRefused(CtxAt(d, i, limit), d.cfg, d.blocks[i], |Total(d.blocks[..i])|, d.jobs[i], q, c, post);
    DeliveredBefore(d, i, b[q := c], post, limit, ErrCorruptBlock);
  }

  lemma ByteChanged(pre: seq<byte>, b: seq<byte>, post: seq<byte>, q: nat, c: byte)
    requires q < |b|
    ensures (pre + b + post)[|pre| + q] == b[q] && (pre + b + post)[|pre| + q := c] == pre + b[q := c] + post
  {}

  /** Any one other byte in the file's header ends the decoding at once. */
  lemma FileHeaderNoticed(d: Doc, q: nat, c: byte, limit: nat)
    requires DocOk(d) && FileFits(d) && q < FILE_HEADER_SIZE <= |FileBytes(d)| && FileBytes(d)[q] != c
    ensures Delivered(FileBytes(d)[q := c], limit).bytes == [] && DecodeFile(FileBytes(d)[q := c], limit).Failure?
  {
    hide FileBytes, JobsOk, DictOk, ValidConfig, ParseHeader, HeaderFor, MainBytes, Delivered, DecodeFile, Total;
    HeaderIsThere(d);
    HeaderDamage(FileBytes(d), q, c);
    NotOpened(FileBytes(d)[q := c], limit);
  }

  lemma NotOpened(s: seq<byte>, limit: nat)
    requires ParseHeader(s).Failure?
    ensures Delivered(s, limit).bytes == [] && DecodeFile(s, limit).Failure?
  {
    hide ParseHeader, StreamOf, All, Codec.Bound;
  }

  // ----- the dictionary record

  lemma NextOnBadDict(ctx: Ctx, s: seq<byte>, n: nat)
    requires ctx.dict == None && Within(ctx.limit, n) && DICT_HEADER <= n <= DICT_MAX + DICT_HEADER
    requires RECORD_HEADER_SIZE + n <= |s| && Ld64(s, 2) == n && s[0] == REC_DICT
    requires Ld32(s, 10) != Crc32c.Crc(s[..10] + s[RECORD_HEADER_SIZE..RECORD_HEADER_SIZE + n])
    ensures Next(ctx, s) == Bad(ErrCorruptRecord)
  {
    hide DictOf, Ld16, Ld32, Ld64, Crc32c.Crc, ParseBlock, DecodeBlock;
    assert ReadDict(ctx, s) == Failure(ErrCorruptRecord);
    hide ReadDict;
    NextRefused(ctx, s, ErrCorruptRecord);
  }

  lemma SameRecord(b: seq<byte>, t: seq<byte>, post: seq<byte>)
    requires |b| == |t| >= RECORD_HEADER_SIZE && b[..RECORD_HEADER_SIZE] == t[..RECORD_HEADER_SIZE]
    ensures var s := t + post;
            && s[0] == b[0] && Ld64(s, 2) == Ld64(b, 2) && Ld32(s, 10) == Ld32(b, 10) && s[..10] == b[..10]
            && s[RECORD_HEADER_SIZE..|b|] == t[RECORD_HEADER_SIZE..]
  {
    assert forall k {:trigger b[k]} {:trigger t[k]} :: 0 <= k < RECORD_HEADER_SIZE ==> b[k] == b[..RECORD_HEADER_SIZE][k] == t[..RECORD_HEADER_SIZE][k] == t[k];
    assert (t + post)[..10] == t[..RECORD_HEADER_SIZE][..10] && b[..10] == b[..RECORD_HEADER_SIZE][..10];
  }

  lemma WrittenDictRefused(ctx: Ctx, cfg: Config, kind: byte, j: Job, t: seq<byte>, post: seq<byte>, p: nat)
    requires ValidConfig(cfg) && DictOk(cfg, kind, j) && ctx.dict == None && HasRoom(ctx.limit, cfg, j)
    requires var b := DictRecord(cfg, kind, j);
             Inside(b, t, RECORD_HEADER_SIZE, |b|) && Burst(b[RECORD_HEADER_SIZE..], t[RECORD_HEADER_SIZE..], p)
    ensures Next(ctx, t + post) == Bad(ErrCorruptRecord)
  {
    hide DictPayload, RecordBytes, Decompress, Burst, Crc32c.Crc, Ld32, Ld64, Next;
    var b := DictRecord(cfg, kind, j);
    var pl := DictPayload(cfg.dict, kind, if j.stored then 0 else IdOf(cfg.codec), j.payload);
    var n := DictHead(cfg, kind, j);
    RecordCut(REC_DICT, 1, pl, []);
    assert b + [] == b && pl + [] == pl;
    hide DictRecord;
    SameRecord(b, t, post);
    BurstBehind(b[..10], b[RECORD_HEADER_SIZE..], t[RECORD_HEADER_SIZE..], p);
    BurstChanges(b[..10] + b[RECORD_HEADER_SIZE..], b[..10] + t[RECORD_HEADER_SIZE..], 10 + p);
    NextOnBadDict(ctx, t + post, n);
  }

  lemma BehindDict(d: Doc) returns (h: seq<byte>, post: seq<byte>)
    requires DocOk(d) && FileFits(d) && d.cfg.dict != []
    ensures h == StoreHeader(HeaderFor(d.cfg, d.hint)) && FrontLen(d) == |h| + |DictRecord(d.cfg, d.kind, d.dj)|
    ensures FileBytes(d) == h + DictRecord(d.cfg, d.kind, d.dj) + post
  {
    hide DictRecord, StoreHeader, HeaderFor, Body, EobBytes, TailBytes, JobsOk, DictOk, Total;
    h := StoreHeader(HeaderFor(d.cfg, d.hint));
    var r, body := DictRecord(d.cfg, d.kind, d.dj), Body(d.cfg, d.blocks, d.jobs, 0) + EobBytes();
    post := body + TailBytes(d);
    assert FileBytes(d) == h + r + body + TailBytes(d) == h + r + post;
  }

  lemma DeliveredAtDict(d: Doc, s: seq<byte>, limit: nat, e: Status)
    requires DocOk(d) && Roomy(limit, d.cfg, d.dj) && Next(Opened(d.cfg, limit), s) == Bad(e)
    ensures Delivered(StoreHeader(HeaderFor(d.cfg, d.hint)) + s, limit) == Stream([], Some(e))
  {
    hide StoreHeader, HeaderFor, StreamOf, Next, JobsOk, DictOk, BlockSize, Codec.Bound, HasRoom, Total, Within, Open, ValidConfig;
    OpensTo(d.cfg, d.hint, s, limit);
    StreamStops(Opened(d.cfg, limit), s, e);
  }

  /** A burst in the dictionary record's payload ends the decoding with a corrupt record before any block. */
  lemma FileDictNoticed(d: Doc, file: seq<byte>, p: nat, limit: nat)
    requires DocOk(d) && FileFits(d) && d.cfg.dict != [] && Roomy(limit, d.cfg, d.dj)
    requires var a, e := FILE_HEADER_SIZE + RECORD_HEADER_SIZE, FrontLen(d);
             a <= e && Inside(FileBytes(d), file, a, e) && Burst(FileBytes(d)[a..e], file[a..e], p)
    ensures Delivered(file, limit) == Stream([], Some(ErrCorruptRecord)) && DecodeFile(file, limit) == Failure(ErrCorruptRecord)
  {
    hide FileBytes, DictRecord, StoreHeader, HeaderFor, JobsOk, DictOk, Delivered, DecodeFile, Next, Burst,
         MainBytes, FrontLen, Opened, HasRoom, Inside, Total, BlockSize;
    var h, post := BehindDict(d);
    var b := DictRecord(d.cfg, d.kind, d.dj);
    var t := PartChanged(h, b, post, file, RECORD_HEADER_SIZE, |b|);
    PartIs(h, b, post, RECORD_HEADER_SIZE);
    InsideTail(b, t, RECORD_HEADER_SIZE);
    OpenedFresh(d.cfg, limit);
    WrittenDictRefused(Opened(d.cfg, limit), d.cfg, d.kind, d.dj, t, post, p);
    DeliveredAtDict(d, t + post, limit, ErrCorruptRecord);
    assert h + t + post == h + (t + post);
    DecodedIsDelivered(file, limit);
  }

  lemma OpenedFresh(cfg: Config, limit: nat)
    ensures Opened(cfg, limit).dict == None && Opened(cfg, limit).limit == limit
  {}

  lemma PartIs(h: seq<byte>, b: seq<byte>, post: seq<byte>, lo: nat)
    requires lo <= |b|
    ensures (h + b + post)[|h| + lo..|h| + |b|] == b[lo..]
  {}

  lemma InsideTail(b: seq<byte>, t: seq<byte>, lo: nat)
    requires Inside(b, t, lo, |b|)
    ensures b[lo..|b|] == b[lo..] && t[lo..|b|] == t[lo..]
  {}

  // ----- one call

  /** One-shot decompression of a file with a burst in one block's payload: a corrupt block, unless the blocks
      before it already overflow the buffer. */
  method DecompressBurst(dst: array<byte>, ghost d: Doc, ghost i: nat, file: seq<byte>, ghost p: nat, limit: nat) returns (st: Status, n: nat)
    requires DocOk(d) && FileFits(d) && i < |d.blocks| && Roomy(limit, d.cfg, d.dj)
    requires d.cfg.checksum == Crc32cSum && PayloadBurst(d, i, file, p)
    modifies dst
    ensures st == if |Total(d.blocks[..i])| > dst.Length then ErrDstTooSmall else ErrCorruptBlock
  {
    hide PayloadBurst, DocOk, FileFits, Delivered, DecodeFile, Total, Roomy;
    FileBurstNoticed(d, i, file, p, limit);
    st, n := XqDecompress(dst, file, limit);
  }
}
