/** The container as bytes: what the encoder writes, and what a sequential decoder makes of any byte
    string (src/core/xq_encoder.c:108-129, 181-214, 400-444, 558-645; src/core/xq_decoder.c:110-324). */
module Container {
  import opened Bytes
  import opened Format
  import opened Codec
  import Crc32c
  import Xxh64

  const DICT_HEADER := 30
  const DICT_MAX := 0x1000_0000
  const RECORD_MAX := 0x100_0000_0000

  // ----- what is written

  /** A record: tag, flags, size, a CRC over those and the payload, payload. */
  function RecordHead(tag: byte, flags: byte, size: uint64): (s: seq<byte>)
    ensures |s| == 10
  {
    [tag, flags] + Le64(size)
  }

  function RecordBytes(tag: byte, flags: byte, payload: seq<byte>): (s: seq<byte>)
    requires |payload| < U64_LIMIT
    ensures |s| == RECORD_HEADER_SIZE + |payload|
  {
    var head := RecordHead(tag, flags, |payload|);
    head + Le32(Crc32c.Crc(head + payload)) + payload
  }

  function EobBytes(): (s: seq<byte>)
    ensures |s| == RECORD_HEADER_SIZE
  {
    RecordBytes(REC_END_OF_BLOCKS, 1, [])
  }

  /** The dictionary's own job: coded without a dictionary when that is shorter. */
  function DictJob(cfg: Config): Job {
    JobFor(cfg.dict, Compress(cfg.codec, cfg.dict, [], cfg.level, 0, Bound(cfg.codec, |cfg.dict|)))
  }

  function DictPayload(dict: seq<byte>, kind: byte, codecId: byte, stored: seq<byte>): (s: seq<byte>)
    requires |dict| < U64_LIMIT && |stored| < U64_LIMIT
    ensures |s| == DICT_HEADER + |stored|
  {
    [kind, codecId] + Le32(1) + Le64(|dict|) + Le64(|stored|) + Le64(Xxh64.Hash64(dict)) + stored
  }

  function DictRecord(cfg: Config, kind: byte, job: Job): seq<byte>
    requires |cfg.dict| < U64_LIMIT && DICT_HEADER + |job.payload| < U64_LIMIT
  {
    RecordBytes(REC_DICT, 1, DictPayload(cfg.dict, kind, if job.stored then 0 else IdOf(cfg.codec), job.payload))
  }

  function HeaderFor(cfg: Config, hint: uint64): FileHeader
    requires ValidConfig(cfg)
  {
    FileHeader(1, 0, FILE_HEADER_SIZE,
               FLAG_INDEX_EXPECTED + FLAG_UNIFORM_BLOCKS + (if hint == SIZE_UNKNOWN then FLAG_STREAM_WRITTEN else 0)
               + (if cfg.dict != [] then FLAG_DICT_PRESENT else 0),
               IdOf(cfg.codec), cfg.level, ChecksumId(cfg.checksum), cfg.blockLog, hint)
  }

  function BlockHeaderFor(cfg: Config, raw: seq<byte>, off: uint64, job: Job): BlockHeader
    requires |raw| <= BLOCK_MAX && |job.payload| <= BLOCK_MAX
  {
    BlockHeader(if job.stored then 1 else if cfg.dict != [] then 2 else 0,
                if job.stored then 0 else IdOf(cfg.codec), |job.payload|, |raw|, off)
  }

  function BlockBytes(cfg: Config, raw: seq<byte>, off: uint64, job: Job): (s: seq<byte>)
    requires |raw| <= BLOCK_MAX && |job.payload| <= BLOCK_MAX
    ensures |s| == BLOCK_HEADER_SIZE + |job.payload| + ChecksumSize(cfg.checksum)
  {
    StoreBlock(BlockHeaderFor(cfg, raw, off, job)) + job.payload + ChecksumBytes(cfg.checksum, job.payload)
  }

  // ----- what a sequential decoder reads

  /** A decoder's fixed choices, its dictionary once seen, and how much it has produced. */
  datatype Ctx = Ctx(codec: CodecId, checksum: Checksum, maxRaw: nat, cbufCap: nat, dict: Option<seq<byte>>, rawOffset: nat, limit: nat := 0)

  /** A size a memory limit allows; 0 is no limit. */
  predicate Within(limit: nat, n: nat) {
    limit == 0 || n <= limit
  }

  datatype Step = Block(raw: seq<byte>, rest: seq<byte>, ctx: Ctx) | End(rest: seq<byte>) | Bad(error: Status)

  /** The block whose header was just consumed; `s` starts at its payload. */
  ghost function DecodeBlock(ctx: Ctx, h: BlockHeader, s: seq<byte>): Step {
    var n := h.storedSize as int;
    var k := ChecksumSize(ctx.checksum);
    if h.rawOffset != ctx.rawOffset then Bad(ErrCorruptBlock)
    else if h.rawSize > ctx.maxRaw then Bad(ErrMemLimit)
    else if n > ctx.cbufCap then Bad(ErrCorruptBlock)
    else if |s| < n then Bad(ErrTruncated)
    else if |s| < n + k then Bad(ErrTruncated)
    else if s[n..n + k] != ChecksumBytes(ctx.checksum, s[..n]) then Bad(ErrCorruptBlock)
    else
      match BlockRaw(ctx, h, s[..n])
      case Failure(e) => Bad(e)
      case Success(raw) =>
        if |raw| != h.rawSize then Bad(ErrCorruptBlock)
        else Block(raw, s[n + k..], ctx.(rawOffset := ctx.rawOffset + |raw|))
  }

  ghost function BlockRaw(ctx: Ctx, h: BlockHeader, payload: seq<byte>): Result<seq<byte>> {
    if StoredFlag(h.bflags) then Success(payload)
    else
      match CodecOf(h.codecId)
      case None => Failure(ErrUnsupportedCodec)
      case Some(c) =>
        if DictFlag(h.bflags) && ctx.dict.None? then Failure(ErrCorruptBlock)
        else DecompressIn(ctx.codec, c, payload, if DictFlag(h.bflags) then ctx.dict.value else [], ctx.maxRaw, h.rawSize as int)
  }

  /** The dictionary inside a record's payload. */
  ghost function DictOf(codec: CodecId, payload: seq<byte>, limit: nat := 0): Result<seq<byte>>
    requires |payload| >= DICT_HEADER
  {
    var kind, codecId, id := payload[0], payload[1], Ld32(payload, 2);
    var rawSize, storedSize, hash := Ld64(payload, 6), Ld64(payload, 14), Ld64(payload, 22);
    var stored := payload[DICT_HEADER..];
    if id == 0 || rawSize == 0 || rawSize > DICT_MAX || storedSize == 0 || storedSize as int != |payload| - DICT_HEADER then Failure(ErrCorruptRecord)
    else if kind > 3 then Failure(ErrUnsupportedFeature)
    else if !Within(limit, rawSize as int) then Failure(ErrMemLimit)
    else
      match DictBytes(codec, codecId, stored, rawSize as int)
      case Failure(e) => Failure(e)
      case Success(d) =>
        if |d| != rawSize || Xxh64.Hash64(d) != hash then Failure(ErrCorruptRecord)
        else if !HasDict(codec) then Failure(ErrUnsupportedFeature)
        else Success(d)
  }

  ghost function DictBytes(codec: CodecId, codecId: byte, stored: seq<byte>, rawSize: nat): Result<seq<byte>> {
    if codecId == 0 then (if |stored| != rawSize then Failure(ErrCorruptRecord) else Success(stored))
    else
      match CodecOf(codecId)
      case None => Failure(ErrUnsupportedCodec)
      case Some(c) => DecompressIn(codec, c, stored, [], rawSize, rawSize)
  }

  /** A dictionary record at the front of `s`: the dictionary and what follows it. */
  ghost function ReadDict(ctx: Ctx, s: seq<byte>): (r: Result<(seq<byte>, seq<byte>)>)
    requires |s| >= RECORD_HEADER_SIZE
    ensures r.Success? ==> |r.value.1| < |s|
  {
    var size := Ld64(s, 2) as int;
    if ctx.dict.Some? || size < DICT_HEADER || size > DICT_MAX + DICT_HEADER then Failure(ErrCorruptRecord)
    else if !Within(ctx.limit, size) then Failure(ErrMemLimit)
    else if |s| < RECORD_HEADER_SIZE + size then Failure(ErrTruncated)
    else
      var payload := s[RECORD_HEADER_SIZE..RECORD_HEADER_SIZE + size];
      if Ld32(s, 10) != Crc32c.Crc(s[..10] + payload) then Failure(ErrCorruptRecord)
      else
        match DictOf(ctx.codec, payload, ctx.limit)
        case Failure(e) => Failure(e)
        case Success(d) => Success((d, s[RECORD_HEADER_SIZE + size..]))
  }

  /** Reads on, over any records, to the next block, the end of blocks, or an error. */
  ghost function Next(ctx: Ctx, s: seq<byte>): (r: Step)
    ensures r.Block? ==> |r.rest| < |s|
    decreases |s|
  {
    if |s| < 2 then Bad(ErrTruncated)
    else if Ld16(s, 0) != BLOCK_MAGIC then
      if |s| < RECORD_HEADER_SIZE then Bad(ErrTruncated)
      else
        var tag, flags, size := s[0], s[1] as int, Ld64(s, 2) as int;
        var body := s[RECORD_HEADER_SIZE..];
        if size > RECORD_MAX then Bad(ErrCorruptRecord)
        else if tag == REC_END_OF_BLOCKS then
          if size != 0 || Ld32(s, 10) != Crc32c.Crc(s[..10]) then Bad(ErrCorruptRecord) else End(body)
        else if tag == REC_DICT then
          match ReadDict(ctx, s)
          case Failure(e) => Bad(e)
          case Success((d, rest)) => Next(ctx.(dict := Some(d)), rest)
        else if tag != REC_USER_META && tag != REC_INDEX && flags % 2 == 1 then Bad(ErrUnsupportedFeature)
        else if |body| < size then Bad(ErrTruncated)
        else Next(ctx, body[size..])
    else
      match ParseBlock(s)
      case Failure(e) => Bad(e)
      case Success(h) => DecodeBlock(ctx, h, s[BLOCK_HEADER_SIZE..])
  }

  /** Everything up to the end of blocks. */
  ghost function All(ctx: Ctx, s: seq<byte>): Result<seq<byte>>
    decreases |s|
  {
    match Next(ctx, s)
    case Bad(e) => Failure(e)
    case End(_) => Success([])
    case Block(raw, rest, ctx') =>
      match All(ctx', rest)
      case Failure(e) => Failure(e)
      case Success(more) => Success(raw + more)
  }

  /** Reads a file header and skips what a later version may have put behind it. */
  ghost function Open(s: seq<byte>, limit: nat := 0): Result<(Ctx, seq<byte>)> {
    match ParseHeader(s)
    case Failure(e) => Failure(e)
    case Success(h) =>
      if |s| < h.headerSize as int then Failure(ErrTruncated)
      else
        match CodecOf(h.codecId)
        case None => Failure(ErrUnsupportedCodec)
        case Some(c) =>
          var bs := if h.blockSizeLog == 0 then BLOCK_MAX else Pow2(h.blockSizeLog as int);
          if !Within(limit, bs) then Failure(ErrMemLimit)
          else Success((Ctx(c, ChecksumFrom(h.checksumId), bs, Bound(c, bs), None, 0, limit), s[h.headerSize as int..]))
  }

  function ChecksumFrom(id: byte): Checksum {
    if id == 1 then Crc32cSum else if id == 2 then Xxh64Sum else NoChecksum
  }

  /** Sequential decoding of a whole byte string. */
  ghost function DecodeFile(s: seq<byte>, limit: nat := 0): Result<seq<byte>> {
    match Open(s, limit)
    case Failure(e) => Failure(e)
    case Success((ctx, rest)) => All(ctx, rest)
  }
}
