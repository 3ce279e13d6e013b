/** Every file the encoder writes for a non-empty input opens, and every block of it decodes to its part
    of the input. */
module ReaderProof {
  import opened Bytes
  import opened Format
  import opened Codec
  import opened Container
  import opened ContainerProof
  import opened FileSpec
  import opened Index
  import opened ReaderSpec
  import Crc32c

  // ----- one block

  lemma ExtentDecodes(v: View, cfg: Config, raw: seq<byte>, off: uint64, j: Job)
    requires ValidConfig(cfg) && JobOk(cfg, raw, j) && off as int + |raw| < U64_LIMIT
    requires |raw| <= BLOCK_MAX && |j.payload| <= BLOCK_MAX
    requires v.codec == cfg.codec && v.checksum == cfg.checksum && v.maxRaw == BlockSize(cfg)
    requires cfg.dict != [] ==> v.dict == Some(cfg.dict)
    ensures DecodeExtent(v, off, BlockBytes(cfg, raw, off, j)) == Success(raw)
    ensures |BlockBytes(cfg, raw, off, j)| <= SlotCap(v)
  {
    hide JobOk, ValidConfig, BlockSize, Plausible, Decompress, BlockRaw, StoreBlock, BlockHeaderFor, ChecksumBytes,
         ParseBlock, Ld16, Bound;
    var h := BlockHeaderFor(cfg, raw, off, j);
    HeaderIsPlausible(cfg, raw, off, j);
    FieldsOfBlock(cfg, raw, off, j);
    var ctx := Ctx(v.codec, v.checksum, v.maxRaw, 0, v.dict, 0);
    RawOfPayload(ctx, cfg, raw, off, j);
    var s := BlockBytes(cfg, raw, off, j);
    BlockCut(h, j.payload, cfg.checksum, []);
    assert s + [] == s;
    hide BlockBytes;
    HeaderParses(h, s);
    var t := s[BLOCK_HEADER_SIZE..];
    assert t[|j.payload|..] == t[|j.payload|..|j.payload| + ChecksumSize(cfg.checksum)];
  }

  lemma RawOfPayload(ctx: Ctx, cfg: Config, raw: seq<byte>, off: uint64, j: Job)
    requires ValidConfig(cfg) && JobOk(cfg, raw, j) && off as int + |raw| < U64_LIMIT
    requires |raw| <= BLOCK_MAX && |j.payload| <= BLOCK_MAX && ctx.codec == cfg.codec && ctx.maxRaw == BlockSize(cfg)
    requires cfg.dict != [] ==> ctx.dict == Some(cfg.dict)
    ensures BlockRaw(ctx, BlockHeaderFor(cfg, raw, off, j), j.payload) == Success(raw)
  {
    hide Decompress, BlockSize;
  }

  // ----- the parts of a file

  lemma FileParts(d: Doc)
    requires FileFits(d)
    ensures var s, h, m := FileBytes(d), StoreHeader(HeaderFor(d.cfg, d.hint)), |MainBytes(d)|;
            && |s| == m + |DocIndex(d)| + FOOTER_SIZE < U64_LIMIT && m >= FILE_HEADER_SIZE + RECORD_HEADER_SIZE
            && s[..FILE_HEADER_SIZE] == h
            && s[m..m + |DocIndex(d)|] == DocIndex(d)
            && s[|s| - FOOTER_SIZE..] == StoreFooter(DocFooter(d))
  {
    hide Body, StoreFooter, StreamSum, Total, ValidConfig, HeaderFor, StoreHeader, FooterFor, MainBytes, FrontLen,
         DocIndex;
    MainLen(d);
    MainStarts(d);
    var footer := StoreFooter(DocFooter(d));
    assert FileBytes(d) == MainBytes(d) + (DocIndex(d) + footer);
    hide FileBytes, FileFits;
    ThreeParts(MainBytes(d), DocIndex(d), footer, FILE_HEADER_SIZE);
  }

  lemma ThreeParts(a: seq<byte>, b: seq<byte>, c: seq<byte>, k: nat)
    requires k <= |a|
    ensures var s := a + (b + c);
            |s| == |a| + |b| + |c| && s[|a|..|a| + |b|] == b && s[|s| - |c|..] == c && s[..k] == a[..k]
  {}

  lemma MainStarts(d: Doc)
    requires Sized(d)
    ensures |MainBytes(d)| >= FILE_HEADER_SIZE && MainBytes(d)[..FILE_HEADER_SIZE] == StoreHeader(HeaderFor(d.cfg, d.hint))
  {
    hide StoreHeader, HeaderFor, DictRecord, Body, EobBytes;
  }

  lemma HeaderIsThere(d: Doc)
    requires FileFits(d)
    ensures ParseHeader(FileBytes(d)) == Success(HeaderFor(d.cfg, d.hint))
  {
    FileParts(d);
    hide FileBytes, MainBytes, DocIndex, StoreFooter, StreamSum, FooterFor, StoreHeader, ParseHeader, CheckHeader;
    HeaderOk(d.cfg, d.hint);
    HeaderRoundTrip(HeaderFor(d.cfg, d.hint), FileBytes(d));
  }

  lemma TailIsThere(d: Doc)
    requires FileFits(d) && d.blocks != []
    ensures var f := DocFooter(d);
            LoadTail(FileBytes(d)) == Success((HeaderFor(d.cfg, d.hint), f))
  {
    hide FileBytes, MainBytes, StoreFooter, StreamSum, ParseHeader, ParseFooter, HeaderFor, Total, ValidConfig,
         IndexRecord, DocEntries, StoreHeader;
    FileParts(d);
    HeaderIsThere(d);
    var s := FileBytes(d);
    var f := DocFooter(d);
    var t := s[|s| - FOOTER_SIZE..];
    assert t[..FOOTER_SIZE] == t;
    assert FooterOk(f);
    FooterRoundTrip(f, t);
  }

  lemma PreambleParts(n: uint64, total: uint64, stored: uint64, rest: seq<byte>)
    ensures var p := Preamble(n, total, stored) + rest;
            Ld64(p, 0) == n && Ld64(p, 8) == total && p[INDEX_PREAMBLE..] == rest
  {
    var p := Preamble(n, total, stored) + rest;
    hide Le64, Ld64;
    assert p[0..8] == Le64(n) && p[8..16] == Le64(total);
    hide Preamble;
    Load64(p, 0, n);
    Load64(p, 8, total);
  }

  lemma SameLoad64(file: seq<byte>, at: nat, s: seq<byte>, i: nat)
    requires i + 8 <= |s| && at + |s| <= |file| && file[at..at + |s|] == s
    ensures Ld64(file, at + i) == Ld64(s, i)
  {
    assert forall k {:trigger s[k]} :: 0 <= k < |s| ==> s[k] == file[at + k];
  }

  /** A good index record at the place the footer names is loaded. */
  lemma IndexLoads(file: seq<byte>, h: FileHeader, f: Footer, es: seq<byte>, n: uint64, total: uint64, stored: uint64)
    requires |es| == INDEX_ENTRY_SIZE * (n as int + 1) && |file| < U64_LIMIT
    requires ValidIndex(es, n as int, total, |file|) && (h.rawSize == SIZE_UNKNOWN || h.rawSize == total)
    requires INDEX_PREAMBLE + |es| <= RECORD_MAX
    requires f.indexOffset as int + f.indexSize as int <= |file|
    requires file[f.indexOffset as int..f.indexOffset as int + f.indexSize as int] == RecordBytes(REC_INDEX, 0, Preamble(n, total, stored) + es)
    ensures LoadIndex(file, h, f) == Success((es, n as int, total))
  {
    hide RecordBytes, Preamble, ValidIndex, Ld64, Ld32, Crc32c.Crc;
    var payload := Preamble(n, total, stored) + es;
    var s := RecordBytes(REC_INDEX, 0, payload);
    RecordCut(REC_INDEX, 0, payload, []);
    assert s + [] == s && payload + [] == payload;
    SameLoad64(file, f.indexOffset as int, s, 2);
    PreambleParts(n, total, stored, es);
  }

  /** The same record under a header that names another size of the input. */
  lemma IndexMismatches(file: seq<byte>, h: FileHeader, f: Footer, es: seq<byte>, n: uint64, total: uint64, stored: uint64)
    requires |es| == INDEX_ENTRY_SIZE * (n as int + 1) && |file| < U64_LIMIT
    requires h.rawSize != SIZE_UNKNOWN && h.rawSize != total
    requires INDEX_PREAMBLE + |es| <= RECORD_MAX
    requires f.indexOffset as int + f.indexSize as int <= |file|
    requires file[f.indexOffset as int..f.indexOffset as int + f.indexSize as int] == RecordBytes(REC_INDEX, 0, Preamble(n, total, stored) + es)
    ensures LoadIndex(file, h, f) == Failure(ErrCorruptIndex)
  {
    hide RecordBytes, Preamble, ValidIndex, Ld64, Ld32, Crc32c.Crc;
    var payload := Preamble(n, total, stored) + es;
    var s := RecordBytes(REC_INDEX, 0, payload);
    RecordCut(REC_INDEX, 0, payload, []);
    assert s + [] == s && payload + [] == payload;
    SameLoad64(file, f.indexOffset as int, s, 2);
    PreambleParts(n, total, stored, es);
  }

  /** A header that names a wrong size of the input: the reader refuses the file. */
  lemma WrongSizeIsRefused(d: Doc, limit: nat)
    requires DocOk(d) && FileFits(d) && d.blocks != [] && d.hint != SIZE_UNKNOWN && d.hint as int != |Total(d.blocks)|
    requires INDEX_PREAMBLE + INDEX_ENTRY_SIZE * (|d.blocks| + 1) <= RECORD_MAX
    ensures OpenReader(FileBytes(d), limit) == Failure(ErrCorruptIndex)
  {
    hide FileBytes, MainBytes, StoreFooter, StreamSum, Total, ValidConfig, DocEntries, StoreHeader, JobsOk, DictOk,
         EntriesBytes, ValidIndex, Fits, RecordBytes, Preamble, DocIndex, LoadIndex, LoadTail, LoadMeta, CodecOf, IdOf;
    FileParts(d);
    DocIndexIs(d);
    TailIsThere(d);
    var f := DocFooter(d);
    IndexMismatches(FileBytes(d), HeaderFor(d.cfg, d.hint), f, EntriesBytes(DocEntries(d)), |d.blocks|, |Total(d.blocks)|, |MainBytes(d)| - FILE_HEADER_SIZE);
    CodecIsKnown(d.cfg.codec);
  }

  lemma DocIndexIs(d: Doc)
    requires FileFits(d) && d.blocks != []
    ensures |MainBytes(d)| >= FILE_HEADER_SIZE && Fits(DocEntries(d))
    ensures var payload := Preamble(|d.blocks|, |Total(d.blocks)|, |MainBytes(d)| - FILE_HEADER_SIZE) + EntriesBytes(DocEntries(d));
            |payload| < U64_LIMIT && DocIndex(d) == RecordBytes(REC_INDEX, 0, payload)
  {
    hide MainBytes, Total, ValidConfig, DocEntries, EntriesBytes, Fits, RecordBytes, Preamble;
    EntriesFit(d);
    MainLen(d);
  }

  lemma IndexIsThere(d: Doc)
    requires DocOk(d) && FileFits(d) && d.blocks != [] && (d.hint == SIZE_UNKNOWN || d.hint == |Total(d.blocks)|)
    requires INDEX_PREAMBLE + INDEX_ENTRY_SIZE * (|d.blocks| + 1) <= RECORD_MAX
    ensures Fits(DocEntries(d))
    ensures var f := DocFooter(d);
            f.indexOffset as int + f.indexSize as int <= |FileBytes(d)|
            && LoadIndex(FileBytes(d), HeaderFor(d.cfg, d.hint), f) == Success((EntriesBytes(DocEntries(d)), |d.blocks|, |Total(d.blocks)|))
  {
    hide FileBytes, MainBytes, StoreFooter, StreamSum, Total, ValidConfig, DocEntries, StoreHeader, JobsOk, DictOk,
         EntriesBytes, ValidIndex, Fits, RecordBytes, Preamble, DocIndex, LoadIndex;
    FileParts(d);
    DocIndexIs(d);
    EncodedIndexIsValid(d, |FileBytes(d)|);
    var f := DocFooter(d);
    IndexLoads(FileBytes(d), HeaderFor(d.cfg, d.hint), f, EntriesBytes(DocEntries(d)), |d.blocks|, |Total(d.blocks)|, |MainBytes(d)| - FILE_HEADER_SIZE);
  }

  /** An index record past the format's limit on records is refused: the encoder writes one for an
      input of more than about 2^36 blocks. */
  lemma LongIndexIsRefused(d: Doc, limit: nat)
    requires DocOk(d) && FileFits(d) && d.blocks != []
    requires INDEX_PREAMBLE + INDEX_ENTRY_SIZE * (|d.blocks| + 1) > RECORD_MAX
    ensures OpenReader(FileBytes(d), limit) == Failure(ErrCorruptRecord)
  {
    hide FileBytes, MainBytes, StoreFooter, StreamSum, Total, ValidConfig, DocEntries, StoreHeader, JobsOk, DictOk,
         EntriesBytes, ValidIndex, Fits, Preamble, DocIndex, LoadTail, LoadMeta, RecordBytes, Ld64, Ld32, Crc32c.Crc,
         CodecOf, IdOf;
    FileParts(d);
    DocIndexIs(d);
    TailIsThere(d);
    var payload := Preamble(|d.blocks|, |Total(d.blocks)|, |MainBytes(d)| - FILE_HEADER_SIZE) + EntriesBytes(DocEntries(d));
    RecordCut(REC_INDEX, 0, payload, []);
    assert DocIndex(d) + [] == DocIndex(d);
    SameLoad64(FileBytes(d), |MainBytes(d)|, DocIndex(d), 2);
    CodecIsKnown(d.cfg.codec);
  }

  /** The file of an empty input has no index and its footer says so with zeros; the reader refuses those. */
  lemma EmptyInputIsRefused(d: Doc, limit: nat)
    requires DocOk(d) && FileFits(d) && d.blocks == []
    ensures OpenReader(FileBytes(d), limit) == Failure(ErrCorruptIndex)
  {
    hide FileBytes, MainBytes, StoreFooter, StreamSum, ParseHeader, ParseFooter, HeaderFor, Total, ValidConfig,
         IndexRecord, DocEntries, StoreHeader, JobsOk, DictOk, LoadIndex, LoadMeta;
    FileParts(d);
    HeaderIsThere(d);
    var s := FileBytes(d);
    var f := DocFooter(d);
    var t := s[|s| - FOOTER_SIZE..];
    assert t[..FOOTER_SIZE] == t;
    assert FooterOk(f);
    FooterRoundTrip(f, t);
  }

  lemma CodecIsKnown(c: CodecId)
    ensures CodecOf(IdOf(c)) == Some(c)
  {}

  // ----- the dictionary

  lemma MetaOnRecord(codec: CodecId, s: seq<byte>, p: seq<byte>, d: Result<seq<byte>>, limit: nat)
    requires |s| == RECORD_HEADER_SIZE + |p| && s[0] == REC_DICT && Ld64(s, 2) == |p| && DICT_HEADER <= |p| <= RECORD_MAX
    requires Ld32(s, 10) == Crc32c.Crc(s[..10] + p) && s[RECORD_HEADER_SIZE..RECORD_HEADER_SIZE + |p|] == p
    requires DictOf(codec, p, limit) == d
    ensures Meta(codec, s, None, limit) == match d case Failure(e) => Failure(e) case Success(b) => Success(Some(b))
  {
    hide DictOf, Ld64, Ld32, Crc32c.Crc;
    assert s[RECORD_HEADER_SIZE + |p|..] == [];
    if d.Success? {
      assert Meta(codec, [], Some(d.value), limit) == Success(Some(d.value));
    }
  }

  /** The dictionary record alone, under a limit the record keeps to. */
  lemma MetaOfDict(cfg: Config, kind: byte, j: Job, limit: nat)
    requires ValidConfig(cfg) && DictOk(cfg, kind, j) && Within(limit, DICT_HEADER + |j.payload|)
    ensures Meta(cfg.codec, DictRecord(cfg, kind, j), None, limit) == if Within(limit, |cfg.dict|) then Success(Some(cfg.dict)) else Failure(ErrMemLimit)
  {
    var p := DictPayload(cfg.dict, kind, if j.stored then 0 else IdOf(cfg.codec), j.payload);
    var s := DictRecord(cfg, kind, j);
    RecordCut(REC_DICT, 1, p, []);
    assert s + [] == s;
    assert |p| <= DICT_MAX + DICT_HEADER;
    if Within(limit, |cfg.dict|) {
      DictReads(cfg, kind, j, limit);
    } else {
      DictOfTooLarge(cfg, kind, j, limit);
    }
    hide *;
    MetaOnRecord(cfg.codec, s, p, if Within(limit, |cfg.dict|) then Success(cfg.dict) else Failure(ErrMemLimit), limit);
  }

  lemma FrontParts(d: Doc)
    requires DocOk(d) && FileFits(d)
    ensures FrontLen(d) == FILE_HEADER_SIZE + (if d.cfg.dict == [] then 0 else |DictRecord(d.cfg, d.kind, d.dj)|) <= |FileBytes(d)|
    ensures d.cfg.dict != [] ==> FileBytes(d)[FILE_HEADER_SIZE..FrontLen(d)] == DictRecord(d.cfg, d.kind, d.dj)
  {
    hide StoreHeader, HeaderFor, DictRecord, Body, EobBytes, TailBytes, JobsOk, DictOk;
    var h := StoreHeader(HeaderFor(d.cfg, d.hint));
    var r := if d.cfg.dict == [] then [] else DictRecord(d.cfg, d.kind, d.dj);
    var rest := Body(d.cfg, d.blocks, d.jobs, 0) + EobBytes();
    assert FileBytes(d) == h + r + (rest + TailBytes(d));
    PartAt(h, r, rest + TailBytes(d));
  }

  lemma DictRecordSize(cfg: Config, kind: byte, j: Job)
    requires ValidConfig(cfg) && DictOk(cfg, kind, j)
    ensures 0 < |DictRecord(cfg, kind, j)| <= META_MAX
  {
    hide Decompress, DictPayload;
  }

  function DictFor(cfg: Config): Option<seq<byte>> {
    if cfg.dict == [] then None else Some(cfg.dict)
  }

  lemma MetaIs(file: seq<byte>, h: FileHeader, codec: CodecId, first: uint64, region: seq<byte>, d: Result<seq<byte>>, limit: nat)
    requires FILE_HEADER_SIZE == h.headerSize as int && first as int == FILE_HEADER_SIZE + |region| <= |file|
    requires 0 < |region| <= META_MAX && file[FILE_HEADER_SIZE..first as int] == region
    requires !Within(limit, |region|) || Meta(codec, region, None, limit) == match d case Failure(e) => Failure(e) case Success(b) => Success(Some(b))
    ensures LoadMeta(file, h, codec, first, limit)
            == if !Within(limit, |region|) then Failure(ErrMemLimit) else match d case Failure(e) => Failure(e) case Success(b) => Success(Some(b))
  {
    hide Meta;
  }

  lemma NoMeta(file: seq<byte>, h: FileHeader, codec: CodecId, first: uint64, limit: nat)
    requires first as int == h.headerSize as int <= |file|
    ensures LoadMeta(file, h, codec, first, limit) == Success(None)
  {
    hide Meta;
  }

  /** The dictionary record and the dictionary keep to a limit. */
  predicate DictFits(limit: nat, cfg: Config, j: Job) {
    Within(limit, RECORD_HEADER_SIZE + DICT_HEADER + |j.payload|) && Within(limit, |cfg.dict|)
  }

  lemma MetaIsThere(d: Doc, limit: nat)
    requires DocOk(d) && FileFits(d)
    ensures FrontLen(d) < U64_LIMIT && FrontLen(d) <= |FileBytes(d)|
    ensures LoadMeta(FileBytes(d), HeaderFor(d.cfg, d.hint), d.cfg.codec, FrontLen(d), limit)
            == if d.cfg.dict == [] || DictFits(limit, d.cfg, d.dj) then Success(DictFor(d.cfg)) else Failure(ErrMemLimit)
  {
    hide FileBytes, MainBytes, StoreFooter, StreamSum, StoreHeader, FrontLen, DictRecord, Meta, LoadMeta, DictOk,
         JobsOk, DocIndex, Total, FooterFor;
    FrontParts(d);
    FileParts(d);
    var h := HeaderFor(d.cfg, d.hint);
    assert h.headerSize as int == FILE_HEADER_SIZE;
    hide HeaderFor;
    if d.cfg.dict == [] {
      NoMeta(FileBytes(d), h, d.cfg.codec, FrontLen(d), limit);
    } else {
      RecordIsMeta(d.cfg, d.kind, d.dj, limit);
      DictRecordSize(d.cfg, d.kind, d.dj);
      var r := if Within(limit, |d.cfg.dict|) then Success(d.cfg.dict) else Failure(ErrMemLimit);
      MetaIs(FileBytes(d), h, d.cfg.codec, FrontLen(d), DictRecord(d.cfg, d.kind, d.dj), r, limit);
    }
  }

  lemma RecordIsMeta(cfg: Config, kind: byte, j: Job, limit: nat)
    requires ValidConfig(cfg) && DictOk(cfg, kind, j)
    ensures |DictRecord(cfg, kind, j)| == RECORD_HEADER_SIZE + DICT_HEADER + |j.payload|
    ensures Within(limit, |DictRecord(cfg, kind, j)|) ==>
              Meta(cfg.codec, DictRecord(cfg, kind, j), None, limit) == if Within(limit, |cfg.dict|) then Success(Some(cfg.dict)) else Failure(ErrMemLimit)
  {
    hide DictPayload, Meta, Decompress;
    if Within(limit, |DictRecord(cfg, kind, j)|) {
      MetaOfDict(cfg, kind, j, limit);
    }
  }

  // ----- opening

  function ViewFor(d: Doc): View
    requires FileFits(d)
  {
    EntriesFit(d);
    View(FileBytes(d), EntriesBytes(DocEntries(d)), |d.blocks|, |Total(d.blocks)|, d.cfg.codec, d.cfg.checksum, BlockSize(d.cfg), DictFor(d.cfg),
         DocFooter(d))
  }

  lemma FirstEntry(d: Doc)
    requires FileFits(d)
    ensures Fits(DocEntries(d)) && FileAt(EntriesBytes(DocEntries(d)), 0) == FrontLen(d)
  {
    EntriesFit(d);
    EntriesLoad(DocEntries(d), 0);
    assert DocEntries(d)[0] == Entry(FrontLen(d), 0);
    hide FrontLen, Entries, MainBytes, EntriesBytes, FileAt, RawAt;
  }

  lemma OpensAs(file: seq<byte>, h: FileHeader, f: Footer, c: CodecId, k: Checksum, entries: seq<byte>, n: nat, total: uint64, m: Result<Option<seq<byte>>>, limit: nat)
    requires |file| < U64_LIMIT && f.indexOffset as int + f.indexSize as int <= |file|
    requires LoadTail(file) == Success((h, f)) && LoadIndex(file, h, f) == Success((entries, n, total))
    requires h.codecId == IdOf(c) && h.checksumId == ChecksumId(k) && h.blockSizeLog != 0
    requires |entries| >= INDEX_ENTRY_SIZE && FileAt(entries, 0) as int <= |file|
    requires LoadMeta(file, h, c, FileAt(entries, 0), limit) == m
    ensures var bs := Pow2(h.blockSizeLog as int);
            OpenReader(file, limit)
            == match m
               case Failure(e) => Failure(e)
               case Success(dict) => if Within(limit, SlotSize(c, bs)) then Success(View(file, entries, n, total, c, k, bs, dict, f)) else Failure(ErrMemLimit)
  {
    CodecIsKnown(c);
    assert ChecksumFrom(ChecksumId(k)) == k;
    hide LoadTail, LoadIndex, LoadMeta, CodecOf, IdOf, ChecksumFrom, ChecksumId, Pow2, FileAt, ValidIndex, SlotSize,
         Within;
  }

  /** A memory limit has room for the dictionary and for one decode. */
  predicate ReaderFits(limit: nat, d: Doc) {
    (d.cfg.dict == [] || DictFits(limit, d.cfg, d.dj)) && Within(limit, SlotSize(d.cfg.codec, BlockSize(d.cfg)))
  }

  /** A reader opens the file of a non-empty input and sees its blocks, its size and its dictionary; under a
      memory limit exactly when that has room, and otherwise it refuses for that reason. */
  lemma EncodedFileOpens(d: Doc, limit: nat)
    requires DocOk(d) && FileFits(d) && d.blocks != [] && (d.hint == SIZE_UNKNOWN || d.hint == |Total(d.blocks)|)
    requires INDEX_PREAMBLE + INDEX_ENTRY_SIZE * (|d.blocks| + 1) <= RECORD_MAX
    ensures OpenReader(FileBytes(d), limit) == if ReaderFits(limit, d) then Success(ViewFor(d)) else Failure(ErrMemLimit)
  {
    hide FileBytes, MainBytes, StoreFooter, DocFooter, StoreHeader, FrontLen, DocIndex, Total, DocEntries,
         EntriesBytes, FileAt, LoadTail, LoadIndex, LoadMeta, OpenReader, Pow2, DictOk, JobsOk, Fits, ValidIndex,
         IdOf, ChecksumId, DictFor, RawAt, DictFits, SlotSize, Within;
    FileParts(d);
    TailIsThere(d);
    IndexIsThere(d);
    FirstEntry(d);
    MetaIsThere(d, limit);
    var m := if d.cfg.dict == [] || DictFits(limit, d.cfg, d.dj) then Success(DictFor(d.cfg)) else Failure(ErrMemLimit);
    OpensAs(FileBytes(d), HeaderFor(d.cfg, d.hint), DocFooter(d),
            d.cfg.codec, d.cfg.checksum, EntriesBytes(DocEntries(d)), |d.blocks|, |Total(d.blocks)|, m, limit);
  }

  // ----- serving

  lemma EntryPair(d: Doc, i: nat)
    requires FileFits(d) && i < |d.blocks|
    ensures Fits(DocEntries(d))
    ensures var es, s := DocEntries(d), EntriesBytes(DocEntries(d));
            && FileAt(s, i) == es[i].fileOffset && FileAt(s, i + 1) == es[i].fileOffset + BlockLen(d.cfg, d.jobs[i])
            && RawAt(s, i) == es[i].rawOffset && RawAt(s, i + 1) == es[i].rawOffset + |d.blocks[i]|
  {
    EntriesFit(d);
    hide FrontLen, Entries, MainBytes, EntriesBytes, FileAt, RawAt, BlockLen, Fits, ValidConfig;
    EntriesLoad(DocEntries(d), i);
    EntriesLoad(DocEntries(d), i + 1);
    EntriesStep(d.cfg, d.blocks, d.jobs, FrontLen(d), 0, i);
  }

  lemma BlockInFile(d: Doc, i: nat)
    requires FileFits(d) && i < |d.blocks|
    ensures var e := DocEntries(d)[i];
            && e.rawOffset < U64_LIMIT && e.fileOffset + BlockLen(d.cfg, d.jobs[i]) <= |FileBytes(d)|
            && FileBytes(d)[e.fileOffset..e.fileOffset + BlockLen(d.cfg, d.jobs[i])] == BlockBytes(d.cfg, d.blocks[i], e.rawOffset, d.jobs[i])
  {
    hide Front, Body, EobBytes, TailBytes, Entries, BlockBytes, Total, ValidConfig;
    var front := Front(d.cfg, d.hint, d.kind, d.dj);
    var post := EobBytes() + TailBytes(d);
    assert FileBytes(d) == front + Body(d.cfg, d.blocks, d.jobs, 0) + post;
    EntryLeadsToBlock(d.cfg, d.blocks, d.jobs, 0, front, post, i);
  }

  lemma SlotIs(v: View, bi: nat, at: nat, bytes: seq<byte>)
    requires Formed(v) && bi < v.blockCount && FileAt(v.entries, bi) == at && FileAt(v.entries, bi + 1) as int == at + |bytes|
    requires BLOCK_HEADER_SIZE <= |bytes| <= SlotCap(v) && at + |bytes| <= |v.file| && v.file[at..at + |bytes|] == bytes
    ensures DecodeSlot(v, bi) == DecodeExtent(v, RawAt(v.entries, bi), bytes)
  {
    hide ValidIndex, FileAt, RawAt, DecodeExtent, SlotCap;
  }

  lemma EncodedBlockDecodes(d: Doc, i: nat)
    requires DocOk(d) && FileFits(d) && i < |d.blocks| && Formed(ViewFor(d))
    ensures DecodeSlot(ViewFor(d), i) == Success(d.blocks[i])
  {
    hide FileBytes, MainBytes, DocEntries, EntriesBytes, FileAt, RawAt, Total, ValidConfig, DecodeExtent, DecodeSlot,
         BlockBytes, StreamSum, FooterFor, DocIndex, Fits, Formed, SlotCap, JobOk, BlockSize;
    EntryPair(d, i);
    BlockInFile(d, i);
    BlockNotEmpty(d, i);
    JobAt(d, i);
    EntrySlicesInput(d, i);
    var v, e := ViewFor(d), DocEntries(d)[i];
    hide DocOk, FileFits;
    ExtentDecodes(v, d.cfg, d.blocks[i], e.rawOffset, d.jobs[i]);
    SlotIs(v, i, e.fileOffset, BlockBytes(d.cfg, d.blocks[i], e.rawOffset, d.jobs[i]));
  }

  lemma EncodedBlockServes(d: Doc, i: nat)
    requires DocOk(d) && FileFits(d) && i < |d.blocks| && Formed(ViewFor(d))
    ensures ServesBlock(ViewFor(d), Total(d.blocks), i)
  {
    hide FileBytes, MainBytes, DocEntries, EntriesBytes, FileAt, RawAt, Total, ValidConfig, DecodeSlot, StreamSum,
         FooterFor, DocIndex, Fits, Formed, JobOk, BlockSize, DocOk;
    EncodedBlockDecodes(d, i);
    EntryPair(d, i);
    EntrySlicesInput(d, i);
  }

  lemma JobAt(d: Doc, i: nat)
    requires DocOk(d) && i < |d.blocks|
    ensures ValidConfig(d.cfg) && JobOk(d.cfg, d.blocks[i], d.jobs[i]) && |d.jobs[i].payload| <= BLOCK_MAX && |Total(d.blocks)| < U64_LIMIT
    ensures BLOCK_HEADER_SIZE <= BlockLen(d.cfg, d.jobs[i])
  {
    hide JobOk, DictOk, Total, ValidConfig;
  }

  /** Random access agrees with the input: each block an index entry names decodes to the input between
      its own raw offset and the next one's. */
  lemma EncodedFileServes(d: Doc)
    requires DocOk(d) && FileFits(d) && d.blocks != []
    ensures Serves(ViewFor(d), Total(d.blocks))
  {
    hide FileBytes, MainBytes, DocEntries, EntriesBytes, FileAt, RawAt, Total, ValidConfig, DictOk, JobOk, JobsOk,
         ValidIndex, ServesBlock, DocFooter, DocIndex, Fits, StoreHeader, HeaderFor, StoreFooter;
    FileParts(d);
    EncodedIndexIsValid(d, |FileBytes(d)|);
    var v := ViewFor(d);
    assert Formed(v);
    forall i: nat | i < v.blockCount
      ensures ServesBlock(v, Total(d.blocks), i)
    {
      EncodedBlockServes(d, i);
    }
  }
}
