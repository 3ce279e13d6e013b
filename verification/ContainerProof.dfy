/** Sequential decoding inverts encoding, and a prefix of a file decodes exactly when it contains the
    whole end-of-blocks record. */
module ContainerProof {
  import opened Bytes
  import opened Format
  import opened Codec
  import opened Container
  import Crc32c
  import Xxh64

  /** A job that decodes to its block, whatever context made it. */
  ghost predicate JobOk(cfg: Config, raw: seq<byte>, j: Job) {
    && 0 < |raw| <= BlockSize(cfg)
    && (j.stored ==> j.payload == raw)
    && (!j.stored ==> |j.payload| < |raw| && Decompress(cfg.codec, j.payload, cfg.dict, BlockSize(cfg), |raw|) == Success(raw))
  }

  ghost predicate JobsOk(cfg: Config, blocks: seq<seq<byte>>, jobs: seq<Job>) {
    && ValidConfig(cfg) && |blocks| == |jobs|
    && forall i :: 0 <= i < |blocks| ==> JobOk(cfg, blocks[i], jobs[i])
  }

  lemma CompressedOk(cfg: Config, raw: seq<byte>, midCap: nat)
    requires ValidConfig(cfg) && 0 < |raw| <= BlockSize(cfg) && midCap <= LzeMax()
    ensures JobOk(cfg, raw, CompressJob(cfg, raw, midCap))
  {
    BlockSizeRange(cfg);
    JobShrinks(cfg, raw, midCap);
    JobDecodes(cfg, raw, midCap, BlockSize(cfg));
    hide CompressJob, Decompress;
  }

  function LzeMax(): nat {
    LzeNeed(BLOCK_MAX)
  }

  function LzeNeed(n: nat): nat {
    n + n / 255 + 64
  }

  function Total(blocks: seq<seq<byte>>): seq<byte> {
    if blocks == [] then [] else blocks[0] + Total(blocks[1..])
  }

  /** All blocks, from raw offset `off` on. */
  function Body(cfg: Config, blocks: seq<seq<byte>>, jobs: seq<Job>, off: nat): seq<byte>
    requires |blocks| == |jobs| && off + |Total(blocks)| < U64_LIMIT
    requires forall i :: 0 <= i < |blocks| ==> |blocks[i]| <= BLOCK_MAX && |jobs[i].payload| <= BLOCK_MAX
  {
    if blocks == [] then []
    else BlockBytes(cfg, blocks[0], off, jobs[0]) + Body(cfg, blocks[1..], jobs[1..], off + |blocks[0]|)
  }

  ghost predicate Matches(ctx: Ctx, cfg: Config, off: nat) {
    && ctx.codec == cfg.codec && ctx.checksum == cfg.checksum && ctx.maxRaw == BlockSize(cfg)
    && ctx.cbufCap == Bound(cfg.codec, BlockSize(cfg)) && ctx.rawOffset == off
    && (cfg.dict != [] ==> ctx.dict == Some(cfg.dict))
  }

  // ----- one block

  lemma HeaderIsPlausible(cfg: Config, raw: seq<byte>, off: uint64, j: Job)
    requires ValidConfig(cfg) && JobOk(cfg, raw, j) && off as int + |raw| < U64_LIMIT
    ensures |raw| <= BlockSize(cfg) <= BLOCK_MAX && |j.payload| <= |raw| && |j.payload| <= Bound(cfg.codec, BlockSize(cfg))
    ensures Plausible(BlockHeaderFor(cfg, raw, off, j))
  {
    hide Decompress;
    BlockSizeRange(cfg);
    hide BlockSize;
  }

  lemma HeaderParses(h: BlockHeader, s: seq<byte>)
    requires Plausible(h) && |s| >= BLOCK_HEADER_SIZE && s[..BLOCK_HEADER_SIZE] == StoreBlock(h)
    ensures ParseBlock(s) == Success(h) && Ld16(s, 0) == BLOCK_MAGIC
  {
    BlockRoundTrip(h, s);
    hide Plausible, StoreBlock, ReadBlock, Crc32c.Crc, Ld32;
  }

  lemma PayloadDecodes(ctx: Ctx, cfg: Config, raw: seq<byte>, off: uint64, j: Job)
    requires ValidConfig(cfg) && JobOk(cfg, raw, j) && off as int + |raw| < U64_LIMIT
    requires |raw| <= BLOCK_MAX && |j.payload| <= BLOCK_MAX && Matches(ctx, cfg, off)
    ensures BlockRaw(ctx, BlockHeaderFor(cfg, raw, off, j), j.payload) == Success(raw)
  {
    hide Decompress;
  }

  lemma NextIsDecode(ctx: Ctx, h: BlockHeader, s: seq<byte>)
    requires |s| >= BLOCK_HEADER_SIZE && Ld16(s, 0) == BLOCK_MAGIC && ParseBlock(s) == Success(h)
    ensures Next(ctx, s) == DecodeBlock(ctx, h, s[BLOCK_HEADER_SIZE..])
  {
    hide DecodeBlock, ParseBlock, Ld16, ReadDict;
  }

  lemma DecodesWhole(ctx: Ctx, h: BlockHeader, raw: seq<byte>, t: seq<byte>, rest: seq<byte>)
    requires h.rawOffset == ctx.rawOffset && h.rawSize == |raw| && |raw| <= ctx.maxRaw && h.storedSize <= ctx.cbufCap
    requires var n, k := h.storedSize as int, ChecksumSize(ctx.checksum);
             && |t| == n + k + |rest| && t[n + k..] == rest && t[n..n + k] == ChecksumBytes(ctx.checksum, t[..n])
             && BlockRaw(ctx, h, t[..n]) == Success(raw)
    ensures DecodeBlock(ctx, h, t) == Block(raw, rest, ctx.(rawOffset := ctx.rawOffset + |raw|))
  {
    hide BlockRaw, ChecksumBytes;
  }

  lemma FieldsOfBlock(cfg: Config, raw: seq<byte>, off: uint64, j: Job)
    requires |raw| <= BLOCK_MAX && |j.payload| <= BLOCK_MAX
    ensures var h := BlockHeaderFor(cfg, raw, off, j);
            h.storedSize == |j.payload| && h.rawSize == |raw| && h.rawOffset == off
  {}

  /** A whole block is read back, whatever follows it. */
  lemma NextOnBlock(ctx: Ctx, cfg: Config, raw: seq<byte>, off: uint64, j: Job, rest: seq<byte>)
    requires ValidConfig(cfg) && JobOk(cfg, raw, j) && off as int + |raw| < U64_LIMIT && Matches(ctx, cfg, off)
    requires |raw| <= BLOCK_MAX && |j.payload| <= BLOCK_MAX
    ensures Next(ctx, BlockBytes(cfg, raw, off, j) + rest) == Block(raw, rest, ctx.(rawOffset := off as int + |raw|))
  {
    hide JobOk, ValidConfig, BlockSize, Plausible, Decompress, BlockRaw, StoreBlock, BlockHeaderFor, ChecksumBytes,
         ParseBlock, Ld16, Bound, DecodeBlock, Next;
    HeaderIsPlausible(cfg, raw, off, j);
    FieldsOfBlock(cfg, raw, off, j);
    PayloadDecodes(ctx, cfg, raw, off, j);
    var h := BlockHeaderFor(cfg, raw, off, j);
    var s := BlockBytes(cfg, raw, off, j) + rest;
    BlockCut(h, j.payload, cfg.checksum, rest);
    hide BlockBytes;
    HeaderParses(h, s);
    NextIsDecode(ctx, h, s);
    DecodesWhole(ctx, h, raw, s[BLOCK_HEADER_SIZE..], rest);
  }

  lemma BlockCut(h: BlockHeader, payload: seq<byte>, k: Checksum, rest: seq<byte>)
    ensures var s := StoreBlock(h) + payload + ChecksumBytes(k, payload) + rest;
            var t := s[BLOCK_HEADER_SIZE..];
            var n, m := |payload|, ChecksumSize(k);
            && s[..BLOCK_HEADER_SIZE] == StoreBlock(h)
            && |t| == n + m + |rest| && t[..n] == payload && t[n..n + m] == ChecksumBytes(k, payload) && t[n + m..] == rest
  {
    Cut4(StoreBlock(h), payload, ChecksumBytes(k, payload), rest);
    hide StoreBlock, ChecksumBytes;
  }

  lemma Cut4(a: seq<byte>, b: seq<byte>, c: seq<byte>, d: seq<byte>)
    ensures var s := a + b + c + d;
            var t := s[|a|..];
            && s[..|a|] == a && |t| == |b| + |c| + |d|
            && t[..|b|] == b && t[|b|..|b| + |c|] == c && t[|b| + |c|..] == d
  {
    var s := a + b + c + d;
    assert s[|a|..] == b + c + d;
  }

  /** A block that breaks off is a truncation. */
  lemma SameLoad16(s: seq<byte>, b: seq<byte>)
    requires 2 <= |s| && s <= b
    ensures Ld16(s, 0) == Ld16(b, 0)
  {}

  lemma NextOnCutBlock(ctx: Ctx, cfg: Config, raw: seq<byte>, off: uint64, j: Job, s: seq<byte>)
    requires ValidConfig(cfg) && JobOk(cfg, raw, j) && off as int + |raw| < U64_LIMIT && Matches(ctx, cfg, off)
    requires |raw| <= BLOCK_MAX && |j.payload| <= BLOCK_MAX
    requires s < BlockBytes(cfg, raw, off, j)
    ensures Next(ctx, s) == Bad(ErrTruncated)
  {
    hide JobOk, Decompress, BlockRaw, StoreBlock, ChecksumBytes, Plausible, Ld16, Ld32, Crc32c.Crc, Bound, ReadBlock;
    HeaderIsPlausible(cfg, raw, off, j);
    var h := BlockHeaderFor(cfg, raw, off, j);
    var b := BlockBytes(cfg, raw, off, j);
    BlockCut(h, j.payload, cfg.checksum, []);
    assert b + [] == b;
    HeaderParses(h, b);
    if |s| >= 2 {
      SameLoad16(s, b);
    }
    if |s| >= BLOCK_HEADER_SIZE {
      assert s[..BLOCK_HEADER_SIZE] == b[..BLOCK_HEADER_SIZE];
      HeaderParses(h, s);
    }
  }

  // ----- records

  lemma RecordSlices(head: seq<byte>, crc: seq<byte>, payload: seq<byte>, rest: seq<byte>)
    requires |head| == 10 && |crc| == 4
    ensures var s := head + crc + payload + rest;
            && s[..10] == head && s[0] == head[0] && s[1] == head[1] && s[2..10] == head[2..] && s[10..14] == crc
            && s[RECORD_HEADER_SIZE..] == payload + rest
            && s[RECORD_HEADER_SIZE..RECORD_HEADER_SIZE + |payload|] == payload
            && s[RECORD_HEADER_SIZE + |payload|..] == rest
  {}

  lemma HeadParts(tag: byte, flags: byte, size: uint64)
    ensures var h := RecordHead(tag, flags, size); h[0] == tag && h[1] == flags && h[2..] == Le64(size)
  {
    hide Le64;
  }

  lemma RecordCut(tag: byte, flags: byte, payload: seq<byte>, rest: seq<byte>)
    requires |payload| < U64_LIMIT
    ensures var s := RecordBytes(tag, flags, payload) + rest;
            && |s| >= RECORD_HEADER_SIZE && s[0] == tag && s[1] == flags
            && Ld64(s, 2) == |payload| && Ld32(s, 10) == Crc32c.Crc(s[..10] + payload)
            && s[RECORD_HEADER_SIZE..] == payload + rest
            && s[RECORD_HEADER_SIZE..RECORD_HEADER_SIZE + |payload|] == payload
            && s[RECORD_HEADER_SIZE + |payload|..] == rest
  {
    hide Crc32c.Crc, Le32, Le64, Ld32, Ld64, RecordHead;
    var head := RecordHead(tag, flags, |payload|);
    var crc := Crc32c.Crc(head + payload);
    var s := head + Le32(crc) + payload + rest;
    assert s == RecordBytes(tag, flags, payload) + rest;
    hide RecordBytes;
    HeadParts(tag, flags, |payload|);
    RecordSlices(head, Le32(crc), payload, rest);
    Load64(s, 2, |payload|);
    Load32(s, 10, crc);
  }

  lemma NotBlockMagic(s: seq<byte>)
    requires |s| >= 2 && s[0] != 0x0C
    ensures Ld16(s, 0) != BLOCK_MAGIC
  {}

  lemma NextOnEob(ctx: Ctx, rest: seq<byte>)
    ensures Next(ctx, EobBytes() + rest) == End(rest)
  {
    hide RecordBytes, Ld16, Ld32, Ld64, Crc32c.Crc, ReadDict, DecodeBlock, ParseBlock;
    var s := EobBytes() + rest;
    RecordCut(REC_END_OF_BLOCKS, 1, [], rest);
    assert s[..10] + [] == s[..10];
    assert [] + rest == rest;
    NotBlockMagic(s);
  }

  lemma NextOnCutEob(ctx: Ctx, s: seq<byte>)
    requires s < EobBytes()
    ensures Next(ctx, s) == Bad(ErrTruncated)
  {
    if |s| >= 2 {
      RecordCut(REC_END_OF_BLOCKS, 1, [], []);
      assert EobBytes() + [] == EobBytes();
      assert s[0] == REC_END_OF_BLOCKS;
      NotBlockMagic(s);
    }
    hide EobBytes, Ld16;
  }

  /** The dictionary job decodes, in whatever state the decoder's own context is. */
  ghost predicate DictOk(cfg: Config, kind: byte, j: Job) {
    && kind <= 3 && cfg.dict != [] && 0 < |j.payload| <= |cfg.dict|
    && (j.stored ==> j.payload == cfg.dict)
    && (!j.stored ==> Decompress(cfg.codec, j.payload, [], |cfg.dict|, |cfg.dict|) == Success(cfg.dict))
  }

  lemma DictSlices(a: seq<byte>, b: seq<byte>, c: seq<byte>, d: seq<byte>, e: seq<byte>, stored: seq<byte>)
    requires |a| == 2 && |b| == 4 && |c| == |d| == |e| == 8
    ensures var p := a + b + c + d + e + stored;
            && p[0] == a[0] && p[1] == a[1] && p[2..6] == b && p[6..14] == c && p[14..22] == d && p[22..30] == e && p[30..] == stored
  {}

  lemma DictParts(dict: seq<byte>, kind: byte, codecId: byte, stored: seq<byte>)
    requires |dict| < U64_LIMIT && |stored| < U64_LIMIT
    ensures var p := DictPayload(dict, kind, codecId, stored);
            && p[0] == kind && p[1] == codecId && Ld32(p, 2) == 1 && Ld64(p, 6) == |dict| && Ld64(p, 14) == |stored|
            && Ld64(p, 22) == Xxh64.Hash64(dict) && p[DICT_HEADER..] == stored
  {
    var p := DictPayload(dict, kind, codecId, stored);
    var hash := Xxh64.Hash64(dict);
    hide Xxh64.Hash64, Le32, Le64, Ld32, Ld64;
    DictSlices([kind, codecId], Le32(1), Le64(|dict|), Le64(|stored|), Le64(hash), stored);
    hide DictPayload;
    Load32(p, 2, 1);
    Load64(p, 6, |dict|);
    Load64(p, 14, |stored|);
    Load64(p, 22, hash);
  }

  /** A memory limit that a file's dictionary record and its dictionary keep to. */
  predicate HasRoom(limit: nat, cfg: Config, j: Job) {
    Within(limit, DICT_HEADER + |j.payload|) && Within(limit, |cfg.dict|)
  }

  lemma DictReads(cfg: Config, kind: byte, j: Job, limit: nat)
    requires ValidConfig(cfg) && DictOk(cfg, kind, j) && HasRoom(limit, cfg, j)
    ensures DictOf(cfg.codec, DictPayload(cfg.dict, kind, if j.stored then 0 else IdOf(cfg.codec), j.payload), limit) == Success(cfg.dict)
  {
    hide Decompress, Xxh64.Hash64, Ld32, Ld64, DictPayload;
    DictParts(cfg.dict, kind, if j.stored then 0 else IdOf(cfg.codec), j.payload);
  }

  lemma DictIsRead(ctx: Ctx, cfg: Config, p: seq<byte>, s: seq<byte>, rest: seq<byte>)
    requires ctx.dict == None && DICT_HEADER <= |p| <= DICT_MAX + DICT_HEADER && ctx.codec == cfg.codec
    requires DictOf(cfg.codec, p, ctx.limit) == Success(cfg.dict) && Within(ctx.limit, |p|)
    requires |s| == RECORD_HEADER_SIZE + |p| + |rest| && Ld64(s, 2) == |p|
    requires s[RECORD_HEADER_SIZE..RECORD_HEADER_SIZE + |p|] == p && s[RECORD_HEADER_SIZE + |p|..] == rest
    requires Ld32(s, 10) == Crc32c.Crc(s[..10] + p)
    ensures ReadDict(ctx, s) == Success((cfg.dict, rest))
  {
    hide DictOf, Ld32, Ld64, Crc32c.Crc;
  }

  lemma NextOnRecord(ctx: Ctx, s: seq<byte>, d: seq<byte>, rest: seq<byte>)
    requires |s| >= RECORD_HEADER_SIZE && s[0] == REC_DICT && Ld64(s, 2) <= RECORD_MAX && |rest| < |s|
    requires ReadDict(ctx, s) == Success((d, rest))
    ensures Next(ctx, s) == Next(ctx.(dict := Some(d)), rest)
  {
    NotBlockMagic(s);
    hide ReadDict, Ld16, Ld32, Ld64, Crc32c.Crc, ParseBlock, DecodeBlock;
  }

  lemma NextOnDict(ctx: Ctx, cfg: Config, kind: byte, j: Job, rest: seq<byte>)
    requires ValidConfig(cfg) && DictOk(cfg, kind, j) && ctx.codec == cfg.codec && ctx.dict == None && HasRoom(ctx.limit, cfg, j)
    ensures Next(ctx, DictRecord(cfg, kind, j) + rest) == Next(ctx.(dict := Some(cfg.dict)), rest)
  {
    hide RecordBytes, DictPayload, Decompress;
    var p := DictPayload(cfg.dict, kind, if j.stored then 0 else IdOf(cfg.codec), j.payload);
    var s := DictRecord(cfg, kind, j) + rest;
    RecordCut(REC_DICT, 1, p, rest);
    DictReads(cfg, kind, j, ctx.limit);
    assert Within(ctx.limit, |p|);
    hide *;
    DictIsRead(ctx, cfg, p, s, rest);
    NextOnRecord(ctx, s, cfg.dict, rest);
  }

  lemma CutDictIsRead(ctx: Ctx, s: seq<byte>, n: nat)
    requires ctx.dict == None && Within(ctx.limit, n) && DICT_HEADER <= n <= DICT_MAX + DICT_HEADER
    requires RECORD_HEADER_SIZE <= |s| < RECORD_HEADER_SIZE + n && Ld64(s, 2) == n && s[0] == REC_DICT
    ensures Next(ctx, s) == Bad(ErrTruncated)
  {
    NotBlockMagic(s);
    hide DictOf, Ld16, Ld32, Ld64, Crc32c.Crc, ParseBlock, DecodeBlock;
    assert ReadDict(ctx, s) == Failure(ErrTruncated);
    hide ReadDict;
  }

  lemma ShortIsTruncated(ctx: Ctx, s: seq<byte>)
    requires |s| < RECORD_HEADER_SIZE && (|s| > 0 ==> s[0] == REC_DICT)
    ensures Next(ctx, s) == Bad(ErrTruncated)
  {
    if |s| >= 2 {
      NotBlockMagic(s);
    }
    hide ReadDict, Ld16, ParseBlock, DecodeBlock;
  }

  /** A dictionary record's head. */
  lemma DictHead(cfg: Config, kind: byte, j: Job) returns (n: nat)
    requires ValidConfig(cfg) && DictOk(cfg, kind, j)
    ensures DICT_HEADER <= n <= DICT_MAX + DICT_HEADER && |DictRecord(cfg, kind, j)| == RECORD_HEADER_SIZE + n && n == DICT_HEADER + |j.payload|
    ensures var b := DictRecord(cfg, kind, j); b[0] == REC_DICT && Ld64(b, 2) == n
  {
    var p := DictPayload(cfg.dict, kind, if j.stored then 0 else IdOf(cfg.codec), j.payload);
    var b := DictRecord(cfg, kind, j);
    n := |p|;
    RecordCut(REC_DICT, 1, p, []);
    hide Decompress, DictPayload, RecordBytes, Ld64, Ld32, Crc32c.Crc;
    assert b + [] == b;
  }

  lemma NextOnCutDict(ctx: Ctx, cfg: Config, kind: byte, j: Job, s: seq<byte>)
    requires ValidConfig(cfg) && DictOk(cfg, kind, j) && ctx.codec == cfg.codec && ctx.dict == None && HasRoom(ctx.limit, cfg, j)
    requires s < DictRecord(cfg, kind, j)
    ensures Next(ctx, s) == Bad(ErrTruncated)
  {
    hide Next, Ld64, DictRecord, DictPayload, Decompress;
    var n := DictHead(cfg, kind, j);
    var b := DictRecord(cfg, kind, j);
    if |s| < RECORD_HEADER_SIZE {
      ShortIsTruncated(ctx, s);
    } else {
      assert s[2..10] == b[2..10];
      Load64(s, 2, n);
      Load64(b, 2, n);
      CutDictIsRead(ctx, s, n);
    }
  }

  // ----- whole files

  function Front(cfg: Config, hint: uint64, kind: byte, dj: Job): seq<byte>
    requires ValidConfig(cfg) && |dj.payload| <= DICT_MAX
  {
    StoreHeader(HeaderFor(cfg, hint)) + if cfg.dict == [] then [] else DictRecord(cfg, kind, dj)
  }

  /** Everything up to and including the end-of-blocks record. */
  function Main(cfg: Config, hint: uint64, kind: byte, dj: Job, blocks: seq<seq<byte>>, jobs: seq<Job>): seq<byte>
    requires ValidConfig(cfg) && |dj.payload| <= DICT_MAX && |blocks| == |jobs| && |Total(blocks)| < U64_LIMIT
    requires forall i :: 0 <= i < |blocks| ==> |blocks[i]| <= BLOCK_MAX && |jobs[i].payload| <= BLOCK_MAX
  {
    Front(cfg, hint, kind, dj) + (Body(cfg, blocks, jobs, 0) + EobBytes())
  }

  lemma SmallJobs(cfg: Config, blocks: seq<seq<byte>>, jobs: seq<Job>)
    requires JobsOk(cfg, blocks, jobs)
    ensures forall i :: 0 <= i < |blocks| ==> |blocks[i]| <= BLOCK_MAX && |jobs[i].payload| <= BLOCK_MAX
  {
    BlockSizeRange(cfg);
    forall i | 0 <= i < |blocks|
      ensures |blocks[i]| <= BLOCK_MAX && |jobs[i].payload| <= BLOCK_MAX
    {
      assert JobOk(cfg, blocks[i], jobs[i]);
    }
  }

  lemma TakeAppend(a: seq<byte>, b: seq<byte>, k: nat)
    requires k <= |a| + |b|
    ensures k >= |a| ==> (a + b)[..k] == a + b[..k - |a|]
    ensures k < |a| ==> (a + b)[..k] == a[..k] && a[..k] < a
  {}

  lemma AllOnBlock(ctx: Ctx, s: seq<byte>, raw: seq<byte>, rest: seq<byte>, ctx': Ctx, r: Result<seq<byte>>)
    requires Next(ctx, s) == Block(raw, rest, ctx') && All(ctx', rest) == r
    ensures All(ctx, s) == if r.Success? then Success(raw + r.value) else r
  {
    hide Next;
  }

  lemma AllOnEnd(ctx: Ctx, s: seq<byte>)
    ensures Next(ctx, s).End? ==> All(ctx, s) == Success([])
    ensures Next(ctx, s).Bad? ==> All(ctx, s) == Failure(Next(ctx, s).error)
  {
    hide Next;
  }

  /** Blocks and the record behind them, cut at `k`. */
  lemma {:induction false} AllOnBody(ctx: Ctx, cfg: Config, blocks: seq<seq<byte>>, jobs: seq<Job>, off: nat, tail: seq<byte>, k: nat)
    requires JobsOk(cfg, blocks, jobs) && off + |Total(blocks)| < U64_LIMIT && Matches(ctx, cfg, off)
    requires forall i :: 0 <= i < |blocks| ==> |blocks[i]| <= BLOCK_MAX && |jobs[i].payload| <= BLOCK_MAX
    requires k <= |Body(cfg, blocks, jobs, off) + EobBytes() + tail|
    ensures var main := Body(cfg, blocks, jobs, off) + EobBytes();
            All(ctx, (main + tail)[..k]) == if k >= |main| then Success(Total(blocks)) else Failure(ErrTruncated)
    decreases |blocks|
  {
    hide JobOk, BlockBytes, EobBytes, Next, All;
    if blocks == [] {
      assert [] + EobBytes() == EobBytes();
      TakeAppend(EobBytes(), tail, k);
      if k >= |EobBytes()| {
        NextOnEob(ctx, tail[..k - |EobBytes()|]);
      } else {
        NextOnCutEob(ctx, EobBytes()[..k]);
      }
      AllOnEnd(ctx, (EobBytes() + tail)[..k]);
    } else {
      var b := BlockBytes(cfg, blocks[0], off, jobs[0]);
      var off' := off + |blocks[0]|;
      var main' := Body(cfg, blocks[1..], jobs[1..], off') + EobBytes();
      assert JobOk(cfg, blocks[0], jobs[0]);
      assert Body(cfg, blocks, jobs, off) + EobBytes() + tail == b + (main' + tail);
      TakeAppend(b, main' + tail, k);
      if k >= |b| {
        var rest := (main' + tail)[..k - |b|];
        NextOnBlock(ctx, cfg, blocks[0], off, jobs[0], rest);
        var ctx' := ctx.(rawOffset := off');
        AllOnBody(ctx', cfg, blocks[1..], jobs[1..], off', tail, k - |b|);
        AllOnBlock(ctx, b + rest, blocks[0], rest, ctx', All(ctx', rest));
      } else {
        NextOnCutBlock(ctx, cfg, blocks[0], off, jobs[0], b[..k]);
        AllOnEnd(ctx, b[..k]);
      }
    }
  }

  lemma HeaderOk(cfg: Config, hint: uint64)
    requires ValidConfig(cfg)
    ensures CheckHeader(HeaderFor(cfg, hint)) == XqOk
  {}

  lemma HeaderIsRead(cfg: Config, hint: uint64, rest: seq<byte>)
    requires ValidConfig(cfg)
    ensures ParseHeader(StoreHeader(HeaderFor(cfg, hint)) + rest) == Success(HeaderFor(cfg, hint))
  {
    var h := HeaderFor(cfg, hint);
    var s := StoreHeader(h) + rest;
    HeaderOk(cfg, hint);
    hide HeaderFor, CheckHeader, StoreHeader, ParseHeader;
    assert s[..FILE_HEADER_SIZE] == StoreHeader(h);
    HeaderRoundTrip(h, s);
  }

  lemma OpenMeans(s: seq<byte>, h: FileHeader, c: CodecId, k: Checksum, limit: nat)
    requires ParseHeader(s) == Success(h) && h.headerSize as int <= |s|
    requires h.codecId == IdOf(c) && h.checksumId == ChecksumId(k) && h.blockSizeLog != 0
    ensures var bs := Pow2(h.blockSizeLog as int);
            Open(s, limit) == if Within(limit, bs) then Success((Ctx(c, k, bs, Bound(c, bs), None, 0, limit), s[h.headerSize as int..])) else Failure(ErrMemLimit)
  {
    hide ParseHeader, Bound, Pow2;
    assert CodecOf(IdOf(c)) == Some(c) && ChecksumFrom(ChecksumId(k)) == k;
  }

  lemma OpensTo(cfg: Config, hint: uint64, rest: seq<byte>, limit: nat)
    requires ValidConfig(cfg)
    ensures Open(StoreHeader(HeaderFor(cfg, hint)) + rest, limit)
            == if Within(limit, BlockSize(cfg)) then Success((Opened(cfg, limit), rest)) else Failure(ErrMemLimit)
  {
    hide Open, StoreHeader, ParseHeader, Bound, Pow2, IdOf, ChecksumId;
    HeaderIsRead(cfg, hint, rest);
    var s := StoreHeader(HeaderFor(cfg, hint)) + rest;
    OpenMeans(s, HeaderFor(cfg, hint), cfg.codec, cfg.checksum, limit);
    assert s[FILE_HEADER_SIZE..] == rest;
  }

  lemma CutHeader(s: seq<byte>)
    requires |s| < FILE_HEADER_SIZE
    ensures DecodeFile(s) == Failure(ErrTruncated)
  {}

  lemma AllBehindDict(ctx: Ctx, cfg: Config, kind: byte, dj: Job, rest: seq<byte>)
    requires ValidConfig(cfg) && DictOk(cfg, kind, dj) && ctx.codec == cfg.codec && ctx.dict == None && HasRoom(ctx.limit, cfg, dj)
    ensures All(ctx, DictRecord(cfg, kind, dj) + rest) == All(ctx.(dict := Some(cfg.dict)), rest)
  {
    hide Next, DictRecord, DictOk, HasRoom;
    NextOnDict(ctx, cfg, kind, dj, rest);
  }

  /** The context a decoder has behind the header. */
  function Opened(cfg: Config, limit: nat): Ctx {
    Ctx(cfg.codec, cfg.checksum, BlockSize(cfg), Bound(cfg.codec, BlockSize(cfg)), None, 0, limit)
  }

  function DictPart(cfg: Config, kind: byte, dj: Job): seq<byte>
    requires |cfg.dict| <= DICT_MAX && |dj.payload| <= DICT_MAX
  {
    if cfg.dict == [] then [] else DictRecord(cfg, kind, dj)
  }

  /** What follows the header, cut at `k`: dictionary record, blocks, end of blocks. */
  lemma AllBehindHeader(cfg: Config, kind: byte, dj: Job, blocks: seq<seq<byte>>, jobs: seq<Job>, tail: seq<byte>, k: nat, limit: nat)
    requires JobsOk(cfg, blocks, jobs) && |Total(blocks)| < U64_LIMIT && |dj.payload| <= DICT_MAX
    requires cfg.dict != [] ==> DictOk(cfg, kind, dj) && HasRoom(limit, cfg, dj)
    requires forall i :: 0 <= i < |blocks| ==> |blocks[i]| <= BLOCK_MAX && |jobs[i].payload| <= BLOCK_MAX
    requires k <= |DictPart(cfg, kind, dj)| + |Body(cfg, blocks, jobs, 0) + EobBytes() + tail|
    ensures var d := DictPart(cfg, kind, dj);
            var m := Body(cfg, blocks, jobs, 0) + EobBytes();
            All(Opened(cfg, limit), (d + (m + tail))[..k]) == if k >= |d| + |m| then Success(Total(blocks)) else Failure(ErrTruncated)
  {
    hide Body, EobBytes, DictRecord, All, JobOk, DictOk, Bound, Total, BlockSize;
    var ctx := Opened(cfg, limit);
    var d := DictPart(cfg, kind, dj);
    hide ValidConfig;
    var m := Body(cfg, blocks, jobs, 0) + EobBytes();
    TakeAppend(d, m + tail, k);
    if cfg.dict == [] {
      assert d + (m + tail) == m + tail;
      AllOnBody(ctx, cfg, blocks, jobs, 0, tail, k);
    } else if k >= |d| {
      AllBehindDict(ctx, cfg, kind, dj, (m + tail)[..k - |d|]);
      AllOnBody(ctx.(dict := Some(cfg.dict)), cfg, blocks, jobs, 0, tail, k - |d|);
    } else {
      NextOnCutDict(ctx, cfg, kind, dj, d[..k]);
      AllOnEnd(ctx, d[..k]);
    }
  }

  /** Decoding a file cut at `k`: the original when the cut keeps the whole end-of-blocks record, a
      truncation otherwise. What stands behind that record (index, footer, anything) plays no part. */
  lemma PrefixDecodes(cfg: Config, hint: uint64, kind: byte, dj: Job, blocks: seq<seq<byte>>, jobs: seq<Job>, tail: seq<byte>, k: nat)
    requires JobsOk(cfg, blocks, jobs) && |Total(blocks)| < U64_LIMIT && |dj.payload| <= DICT_MAX
    requires cfg.dict != [] ==> DictOk(cfg, kind, dj)
    requires forall i :: 0 <= i < |blocks| ==> |blocks[i]| <= BLOCK_MAX && |jobs[i].payload| <= BLOCK_MAX
    requires k <= |Main(cfg, hint, kind, dj, blocks, jobs) + tail|
    ensures var main := Main(cfg, hint, kind, dj, blocks, jobs);
            DecodeFile((main + tail)[..k]) == if k >= |main| then Success(Total(blocks)) else Failure(ErrTruncated)
  {
    hide Body, EobBytes, DictRecord, StoreHeader, HeaderFor, All, Open, JobOk, DictOk, Bound, Total, BlockSize;
    var h := StoreHeader(HeaderFor(cfg, hint));
    var d := DictPart(cfg, kind, dj);
    var m := Body(cfg, blocks, jobs, 0) + EobBytes();
    assert Main(cfg, hint, kind, dj, blocks, jobs) + tail == h + (d + (m + tail));
    hide Main;
    TakeAppend(h, d + (m + tail), k);
    if k < |h| {
      CutHeader(h[..k]);
    } else {
      OpensTo(cfg, hint, (d + (m + tail))[..k - |h|], 0);
      AllBehindHeader(cfg, kind, dj, blocks, jobs, tail, k - |h|, 0);
    }
  }

  lemma DictOfTooLarge(cfg: Config, kind: byte, j: Job, limit: nat)
    requires ValidConfig(cfg) && DictOk(cfg, kind, j) && !Within(limit, |cfg.dict|)
    ensures DictOf(cfg.codec, DictPayload(cfg.dict, kind, if j.stored then 0 else IdOf(cfg.codec), j.payload), limit) == Failure(ErrMemLimit)
  {
    hide Decompress, DictBytes, Xxh64.Hash64, Ld32, Ld64, DictPayload;
    DictParts(cfg.dict, kind, if j.stored then 0 else IdOf(cfg.codec), j.payload);
  }

  lemma ReadDictRefused(ctx: Ctx, p: seq<byte>, s: seq<byte>, rest: seq<byte>)
    requires ctx.dict == None && DICT_HEADER <= |p| <= DICT_MAX + DICT_HEADER
    requires !Within(ctx.limit, |p|) || DictOf(ctx.codec, p, ctx.limit) == Failure(ErrMemLimit)
    requires |s| == RECORD_HEADER_SIZE + |p| + |rest| && Ld64(s, 2) == |p|
    requires s[RECORD_HEADER_SIZE..RECORD_HEADER_SIZE + |p|] == p && Ld32(s, 10) == Crc32c.Crc(s[..10] + p)
    ensures ReadDict(ctx, s) == Failure(ErrMemLimit)
  {
    hide DictOf, Ld32, Ld64, Crc32c.Crc, Within;
  }

  lemma NextRefused(ctx: Ctx, s: seq<byte>, e: Status)
    requires |s| >= RECORD_HEADER_SIZE && s[0] == REC_DICT && Ld64(s, 2) <= RECORD_MAX && ReadDict(ctx, s) == Failure(e)
    ensures Next(ctx, s) == Bad(e)
  {
    NotBlockMagic(s);
    hide ReadDict, Ld16, Ld32, Ld64, Crc32c.Crc, ParseBlock, DecodeBlock;
  }

  lemma DictTooLarge(ctx: Ctx, cfg: Config, kind: byte, j: Job, rest: seq<byte>)
    requires ValidConfig(cfg) && DictOk(cfg, kind, j) && ctx.codec == cfg.codec && ctx.dict == None && !HasRoom(ctx.limit, cfg, j)
    ensures Next(ctx, DictRecord(cfg, kind, j) + rest) == Bad(ErrMemLimit)
  {
    hide RecordBytes, DictPayload, Decompress;
    var p := DictPayload(cfg.dict, kind, if j.stored then 0 else IdOf(cfg.codec), j.payload);
    var s := DictRecord(cfg, kind, j) + rest;
    RecordCut(REC_DICT, 1, p, rest);
    if Within(ctx.limit, |p|) {
      DictOfTooLarge(cfg, kind, j, ctx.limit);
    }
    hide *;
    ReadDictRefused(ctx, p, s, rest);
    NextRefused(ctx, s, ErrMemLimit);
  }

  /** Decoding under a memory limit: the original when blocks, dictionary record and dictionary keep to it,
      and otherwise a refusal for that reason. */
  lemma DecodesUnderLimit(cfg: Config, hint: uint64, kind: byte, dj: Job, blocks: seq<seq<byte>>, jobs: seq<Job>, tail: seq<byte>, limit: nat)
    requires JobsOk(cfg, blocks, jobs) && |Total(blocks)| < U64_LIMIT && |dj.payload| <= DICT_MAX
    requires cfg.dict != [] ==> DictOk(cfg, kind, dj)
    requires forall i :: 0 <= i < |blocks| ==> |blocks[i]| <= BLOCK_MAX && |jobs[i].payload| <= BLOCK_MAX
    ensures DecodeFile(Main(cfg, hint, kind, dj, blocks, jobs) + tail, limit)
            == if Within(limit, BlockSize(cfg)) && (cfg.dict == [] || HasRoom(limit, cfg, dj)) then Success(Total(blocks)) else Failure(ErrMemLimit)
  {
    hide Body, EobBytes, DictRecord, StoreHeader, HeaderFor, All, Open, JobOk, DictOk, Bound, Total, BlockSize,
         HasRoom, Within;
    var h := StoreHeader(HeaderFor(cfg, hint));
    var d := DictPart(cfg, kind, dj);
    var m := Body(cfg, blocks, jobs, 0) + EobBytes();
    var s := d + (m + tail);
    assert Main(cfg, hint, kind, dj, blocks, jobs) + tail == h + s;
    hide Main;
    OpensTo(cfg, hint, s, limit);
    if cfg.dict == [] || HasRoom(limit, cfg, dj) {
      AllBehindHeader(cfg, kind, dj, blocks, jobs, tail, |s|, limit);
      assert s[..|s|] == s;
    } else {
      DictTooLarge(Opened(cfg, limit), cfg, kind, dj, m + tail);
      AllOnEnd(Opened(cfg, limit), s);
    }
  }
}
