/** Opening a file for random access and decoding one block of it
    (src/core/xq_reader.c:83-238, 373-438). */
module ReaderSpec {
  import opened Bytes
  import opened Format
  import opened Codec
  import opened Container
  import opened ContainerProof
  import opened FileSpec
  import opened Index
  import Crc32c

  const META_MAX := DICT_MAX + 0x10_0000

  /** An open reader's fixed part. */
  datatype View = View(file: seq<byte>, entries: seq<byte>, blockCount: nat, rawSize: uint64,
                       codec: CodecId, checksum: Checksum, maxRaw: nat, dict: Option<seq<byte>>, footer: Footer)

  predicate Formed(v: View) {
    0 < v.blockCount && v.blockCount + 1 < U64_LIMIT && |v.entries| >= INDEX_ENTRY_SIZE * (v.blockCount + 1) && |v.file| < U64_LIMIT
    && ValidIndex(v.entries, v.blockCount, v.rawSize, |v.file|)
  }

  // ----- opening

  function LoadTail(file: seq<byte>): (r: Result<(FileHeader, Footer)>)
    ensures r.Success? ==> |file| >= FILE_HEADER_SIZE + FOOTER_SIZE
                           && r.value.1.indexOffset as int + r.value.1.indexSize as int <= |file| - FOOTER_SIZE
  {
    if |file| < FILE_HEADER_SIZE + FOOTER_SIZE then Failure(ErrTruncated)
    else
      var h := ParseHeader(file);
      var f := ParseFooter(file[|file| - FOOTER_SIZE..]);
      if h.Failure? then Failure(h.error)
      else if f.Failure? then Failure(f.error)
      else if f.value.indexOffset == 0 then Failure(ErrCorruptIndex)
      else
        var end := f.value.indexOffset as int + f.value.indexSize as int;
        if end >= U64_LIMIT || end > |file| - FOOTER_SIZE then Failure(ErrCorruptIndex) else Success((h.value, f.value))
  }

  /** An index record: its entries, how many blocks, how many bytes of input. */
  function ReadIndex(s: seq<byte>, h: FileHeader, fileSize: uint64): (r: Result<(seq<byte>, nat, uint64)>)
    requires |s| >= RECORD_HEADER_SIZE
    ensures r.Success? ==>
              var (entries, n, total) := r.value;
              n + 1 < U64_LIMIT && |entries| == INDEX_ENTRY_SIZE * (n + 1) && ValidIndex(entries, n, total, fileSize)
  {
    var size, payload := Ld64(s, 2) as int, s[RECORD_HEADER_SIZE..];
    if s[0] != REC_INDEX || size != |payload| || size < INDEX_PREAMBLE then Failure(ErrCorruptIndex)
    else
      var n, total, entries := Ld64(payload, 0) as int, Ld64(payload, 8), payload[INDEX_PREAMBLE..];
      if INDEX_PREAMBLE + INDEX_ENTRY_SIZE * (n + 1) >= U64_LIMIT || size != INDEX_PREAMBLE + INDEX_ENTRY_SIZE * (n + 1) then Failure(ErrCorruptIndex)
      else if Ld32(s, 10) != Crc32c.Crc(s[..10] + payload) then Failure(ErrCorruptIndex)
      else if !ValidIndex(entries, n, total, fileSize) then Failure(ErrCorruptIndex)
      else if h.rawSize != SIZE_UNKNOWN && h.rawSize != total then Failure(ErrCorruptIndex)
      else Success((entries, n, total))
  }

  /** The index at the place the footer names. */
  function LoadIndex(file: seq<byte>, h: FileHeader, f: Footer): (r: Result<(seq<byte>, nat, uint64)>)
    requires f.indexOffset as int + f.indexSize as int <= |file|
    ensures r.Success? && |file| < U64_LIMIT ==>
              var (entries, n, total) := r.value;
              n + 1 < U64_LIMIT && |entries| == INDEX_ENTRY_SIZE * (n + 1) && ValidIndex(entries, n, total, |file|)
  {
    if f.indexOffset as int + RECORD_HEADER_SIZE > |file| then Failure(ErrTruncated)
    else if Ld64(file, f.indexOffset as int + 2) > RECORD_MAX then Failure(ErrCorruptRecord)
    else if f.indexSize < RECORD_HEADER_SIZE || |file| >= U64_LIMIT then Failure(ErrCorruptIndex)
    else ReadIndex(file[f.indexOffset as int..f.indexOffset as int + f.indexSize as int], h, |file|)
  }

  /** The records between header and first block; the last dictionary wins. */
  ghost function Meta(codec: CodecId, p: seq<byte>, dict: Option<seq<byte>>, limit: nat): Result<Option<seq<byte>>>
    decreases |p|
  {
    if |p| < RECORD_HEADER_SIZE then Success(dict)
    else
      var tag, flags, size := p[0], p[1] as int, Ld64(p, 2) as int;
      if size > RECORD_MAX || size > |p| - RECORD_HEADER_SIZE then Failure(ErrCorruptRecord)
      else
        var payload := p[RECORD_HEADER_SIZE..RECORD_HEADER_SIZE + size];
        var rest := p[RECORD_HEADER_SIZE + size..];
        if Ld32(p, 10) != Crc32c.Crc(p[..10] + payload) then Failure(ErrCorruptRecord)
        else if tag == REC_DICT then
          if |payload| < DICT_HEADER then Failure(ErrCorruptRecord)
          else
            match DictOf(codec, payload, limit)
            case Failure(e) => Failure(e)
            case Success(d) => Meta(codec, rest, Some(d), limit)
        else if flags % 2 == 1 && tag != REC_END_OF_BLOCKS then Failure(ErrUnsupportedFeature)
        else Meta(codec, rest, dict, limit)
  }

  ghost function LoadMeta(file: seq<byte>, h: FileHeader, codec: CodecId, first: uint64, limit: nat): Result<Option<seq<byte>>>
    requires first as int <= |file|
  {
    var start := h.headerSize as int;
    if first as int < start then Failure(ErrCorruptIndex)
    else if first as int == start then Success(None)
    else if first as int - start > META_MAX then Failure(ErrCorruptRecord)
    else if !Within(limit, first as int - start) then Failure(ErrMemLimit)
    else
      var m := Meta(codec, file[start..first as int], None, limit);
      if m == Success(None) && HasDictFlag(h.flags) then Failure(ErrCorruptRecord) else m
  }

  /** What a decode takes: a block's stored bytes and its own. */
  function SlotSize(codec: CodecId, bs: nat): nat {
    bs + BLOCK_HEADER_SIZE + Bound(codec, bs) + 8
  }

  /** Opens a file under a memory limit; 0 is no limit. */
  ghost function OpenReader(file: seq<byte>, limit: nat := 0): (r: Result<View>)
    ensures r.Success? && |file| < U64_LIMIT ==> Formed(r.value)
  {
    match LoadTail(file)
    case Failure(e) => Failure(e)
    case Success((h, f)) =>
      match CodecOf(h.codecId)
      case None => Failure(ErrUnsupportedCodec)
      case Some(codec) =>
        match LoadIndex(file, h, f)
        case Failure(e) => Failure(e)
        case Success((entries, n, total)) =>
          if |file| >= U64_LIMIT then Failure(ErrCorruptIndex)
          else
            FirstWithin(entries, n, total, |file|);
            match LoadMeta(file, h, codec, FileAt(entries, 0), limit)
            case Failure(e) => Failure(e)
            case Success(dict) =>
              var bs := if h.blockSizeLog == 0 then BLOCK_MAX else Pow2(h.blockSizeLog as int);
              if !Within(limit, SlotSize(codec, bs)) then Failure(ErrMemLimit)
              else Success(View(file, entries, n, total, codec, ChecksumFrom(h.checksumId), bs, dict, f))
  }

  lemma FirstWithin(entries: seq<byte>, n: nat, total: uint64, fileSize: uint64)
    requires |entries| >= INDEX_ENTRY_SIZE * (n + 1) && ValidIndex(entries, n, total, fileSize) && fileSize != 0
    ensures FileAt(entries, 0) <= fileSize
  {
    hide FileAt, RawAt;
    assert FollowsAt(entries, 0, fileSize);
  }

  // ----- one block

  function SlotCap(v: View): nat {
    BLOCK_HEADER_SIZE + Bound(v.codec, v.maxRaw) + 8
  }

  /** Where block `i` starts in the input, by the index. */
  function RawOf(v: View, i: nat): uint64
    requires Formed(v) && i <= v.blockCount
  {
    RawAt(v.entries, i)
  }

  /** `decode_block_slot`: the bytes between two entries have to be one good block with the right offset. */
  ghost function DecodeSlot(v: View, bi: nat): Result<seq<byte>>
    requires Formed(v) && bi < v.blockCount
  {
    var at, next := FileAt(v.entries, bi) as int, FileAt(v.entries, bi + 1) as int;
    var extent := next - at;
    if extent < BLOCK_HEADER_SIZE || extent > SlotCap(v) then Failure(ErrCorruptIndex)
    else if next > |v.file| then Failure(ErrTruncated)
    else DecodeExtent(v, RawOf(v, bi), v.file[at..next])
  }

  ghost function DecodeExtent(v: View, rawOffset: uint64, s: seq<byte>): Result<seq<byte>>
    requires |s| >= BLOCK_HEADER_SIZE
  {
    match ParseBlock(s)
    case Failure(e) => Failure(e)
    case Success(h) =>
      var n, k := h.storedSize as int, ChecksumSize(v.checksum);
      var t := s[BLOCK_HEADER_SIZE..];
      if h.rawOffset != rawOffset then Failure(ErrCorruptBlock)
      else if h.rawSize > v.maxRaw then Failure(ErrMemLimit)
      else if n + k != |t| then Failure(ErrCorruptBlock)
      else if n > SlotCap(v) then Failure(ErrCorruptBlock)
      else if t[n..] != ChecksumBytes(v.checksum, t[..n]) then Failure(ErrCorruptBlock)
      else
        match BlockRaw(Ctx(v.codec, v.checksum, v.maxRaw, 0, v.dict, 0), h, t[..n])
        case Failure(e) => Failure(e)
        case Success(raw) => if |raw| != h.rawSize then Failure(ErrCorruptBlock) else Success(raw)
  }

  /** Every block decodes to its part of `x`. */
  ghost predicate Serves(v: View, x: seq<byte>) {
    && Formed(v) && v.rawSize as int == |x|
    && forall i: nat :: i < v.blockCount ==> ServesBlock(v, x, i)
  }

  ghost predicate ServesBlock(v: View, x: seq<byte>, i: nat)
    requires Formed(v) && i < v.blockCount
  {
    var a, b := RawOf(v, i) as int, RawOf(v, i + 1) as int;
    a <= b <= |x| && DecodeSlot(v, i) == Success(x[a..b])
  }

  // ----- reads

  /** What a caller gets of a block: from `within` on, at most `take` bytes. */
  function Part(data: seq<byte>, within: nat, take: nat): seq<byte> {
    if within < |data| then data[within..Min(within + take, |data|)] else []
  }

  ghost predicate HoldsAt(v: View, bi: nat, at: nat)
    requires Formed(v)
  {
    bi < v.blockCount && RawOf(v, bi) as int <= at < RawOf(v, bi + 1) as int
  }

  /** The block that holds byte `at` of the input, looking from block `i` on. */
  function BlockFrom(v: View, at: nat, i: nat): (bi: nat)
    requires Formed(v) && i < v.blockCount && RawOf(v, i) as int <= at < v.rawSize as int
    ensures HoldsAt(v, bi, at)
    decreases v.blockCount - i
  {
    if at < RawOf(v, i + 1) as int then i else BlockFrom(v, at, i + 1)
  }

  function BlockAt(v: View, at: nat): (bi: nat)
    requires Formed(v) && at < v.rawSize as int
    ensures HoldsAt(v, bi, at)
  {
    BlockFrom(v, at, 0)
  }

  /** The rest of the block that holds `at`, at most `take` bytes. */
  ghost function OneRound(v: View, at: nat, take: nat): (r: Result<seq<byte>>)
    requires Formed(v) && at < v.rawSize as int && take > 0
    ensures r.Success? ==> 0 < |r.value| <= take
  {
    var bi := BlockAt(v, at);
    var within := at - RawOf(v, bi) as int;
    match DecodeSlot(v, bi)
    case Failure(e) => Failure(e)
    case Success(data) => if within >= |data| then Failure(ErrCorruptBlock) else Success(Part(data, within, take))
  }

  /** `want` bytes of the input from `at` on, block by block, or the first error on the way. */
  ghost function ReadFrom(v: View, at: nat, want: nat): Result<seq<byte>>
    requires Formed(v) && at + want <= v.rawSize as int
    decreases want
  {
    if want == 0 then Success([])
    else
      match OneRound(v, at, want)
      case Failure(e) => Failure(e)
      case Success(got) =>
        match ReadFrom(v, at + |got|, want - |got|)
        case Failure(e) => Failure(e)
        case Success(more) => Success(got + more)
  }

  /** A whole call: nothing for nothing or past the end, and no more than there is. */
  ghost function PreadOf(v: View, n: nat, off: nat): Result<seq<byte>>
    requires Formed(v)
  {
    if n == 0 || off >= v.rawSize as int then Success([]) else ReadFrom(v, off, Min(n, v.rawSize as int - off))
  }
}
