/** What a random-access reader notices: with a block's payload damaged the file still opens, that block and every
    read that touches it fail, and everything else is as before (src/core/xq_reader.c:83-238, 373-438, 470-557,
    tests/test_reader.c:188-213). */
module ReaderDamage {
  import opened Bytes
  import opened Format
  import opened Codec
  import opened Container
  import opened ContainerProof
  import opened FileSpec
  import opened Index
  import opened ReaderSpec
  import opened ReaderProof
  import opened Reader
  import opened Damage
  import Crc32c
  import Xxh64

  // ----- what opening looks at

  lemma SameParsedHeader(s: seq<byte>, t: seq<byte>)
    requires |s| == |t| >= FILE_HEADER_SIZE && s[..FILE_HEADER_SIZE] == t[..FILE_HEADER_SIZE]
    ensures ParseHeader(s) == ParseHeader(t)
  {
    hide Crc32c.Crc, CheckHeader;
    assert forall k {:trigger s[k]} {:trigger t[k]} :: 0 <= k < FILE_HEADER_SIZE ==> s[k] == s[..FILE_HEADER_SIZE][k] && t[k] == t[..FILE_HEADER_SIZE][k];
    assert s[..28] == s[..FILE_HEADER_SIZE][..28] && t[..28] == t[..FILE_HEADER_SIZE][..28];
    assert s[..8] == s[..28][..8] && t[..8] == t[..28][..8];
  }

  lemma SameTail(s: seq<byte>, t: seq<byte>)
    requires |s| == |t| && LoadTail(s).Success?
    requires s[..FILE_HEADER_SIZE] == t[..FILE_HEADER_SIZE] && s[|s| - FOOTER_SIZE..] == t[|s| - FOOTER_SIZE..]
    ensures LoadTail(t) == LoadTail(s)
  {
    hide ParseHeader, ParseFooter;
    SameParsedHeader(s, t);
  }

  lemma SameLoad(s: seq<byte>, t: seq<byte>, m: nat, i: nat)
    requires |s| == |t| && m <= i && i + 8 <= |s| && s[m..] == t[m..]
    ensures Ld64(s, i) == Ld64(t, i)
  {
    assert forall k {:trigger s[k]} {:trigger t[k]} :: m <= k < |s| ==> s[k] == s[m..][k - m] && t[k] == t[m..][k - m];
  }

  lemma SameIndex(s: seq<byte>, t: seq<byte>, h: FileHeader, f: Footer)
    requires |s| == |t| && f.indexOffset as int + f.indexSize as int <= |s| && LoadIndex(s, h, f).Success?
    requires s[f.indexOffset as int..] == t[f.indexOffset as int..]
    ensures LoadIndex(t, h, f) == LoadIndex(s, h, f)
  {
    hide ReadIndex, Ld64;
    var a, n := f.indexOffset as int, f.indexSize as int;
    SameLoad(s, t, a, a + 2);
    assert s[a..a + n] == s[a..][..n] && t[a..a + n] == t[a..][..n];
  }

  lemma SameMeta(s: seq<byte>, t: seq<byte>, h: FileHeader, codec: CodecId, first: uint64, limit: nat)
    requires first as int <= |s| == |t| && s[..first as int] == t[..first as int]
    ensures LoadMeta(t, h, codec, first, limit) == LoadMeta(s, h, codec, first, limit)
  {
    hide Meta;
    var a, e := h.headerSize as int, first as int;
    if a <= e {
      assert s[a..e] == s[..e][a..] && t[a..e] == t[..e][a..];
    }
  }

  /** Opening looks at what stands before the first block and at what stands from the index on, and at nothing
      else: a file of the same length that agrees there opens to the same view of itself. */
  lemma OpeningLooksAtEnds(s: seq<byte>, t: seq<byte>, limit: nat, v: View)
    requires |s| == |t| < U64_LIMIT && OpenReader(s, limit) == Success(v)
    requires FileAt(v.entries, 0) as int <= |s| && v.footer.indexOffset as int <= |s|
    requires s[..FileAt(v.entries, 0) as int] == t[..FileAt(v.entries, 0) as int]
    requires s[v.footer.indexOffset as int..] == t[v.footer.indexOffset as int..]
    ensures OpenReader(t, limit) == Success(v.(file := t))
  {
    hide LoadTail, LoadIndex, LoadMeta, Pow2, FileAt, ValidIndex, SlotSize, Within, Codec.Bound;
    var (h, f) := LoadTail(s).value;
    HeaderStarts(s);
    MetaStarts(s, h, v.codec, FileAt(v.entries, 0), limit);
    EndsCover(s, t, FileAt(v.entries, 0) as int, v.footer.indexOffset as int);
    SameTail(s, t);
    SameIndex(s, t, h, f);
    SameMeta(s, t, h, v.codec, FileAt(v.entries, 0), limit);
  }

  lemma HeaderStarts(s: seq<byte>)
    requires LoadTail(s).Success?
    ensures LoadTail(s).value.0.headerSize >= FILE_HEADER_SIZE
  {
    hide ReadHeader, ParseFooter, Crc32c.Crc, Ld32;
  }

  lemma MetaStarts(s: seq<byte>, h: FileHeader, codec: CodecId, first: uint64, limit: nat)
    requires first as int <= |s| && LoadMeta(s, h, codec, first, limit).Success?
    ensures h.headerSize as int <= first as int
  {
    hide Meta;
  }

  lemma EndsCover(s: seq<byte>, t: seq<byte>, a: nat, e: nat)
    requires |s| == |t| && FILE_HEADER_SIZE <= a <= |s| && e <= |s| - FOOTER_SIZE && s[..a] == t[..a] && s[e..] == t[e..]
    ensures s[..FILE_HEADER_SIZE] == t[..FILE_HEADER_SIZE] && s[|s| - FOOTER_SIZE..] == t[|s| - FOOTER_SIZE..]
  {
    assert s[..FILE_HEADER_SIZE] == s[..a][..FILE_HEADER_SIZE] && t[..FILE_HEADER_SIZE] == t[..a][..FILE_HEADER_SIZE];
    var k := |s| - FOOTER_SIZE;
    assert s[k..] == s[e..][k - e..] && t[k..] == t[e..][k - e..];
  }

  // ----- one block

  /** Decoding a block looks at the view's fixed part and at the block's own bytes. */
  lemma OtherBlocksDecode(v: View, t: seq<byte>, bi: nat)
    requires Formed(v) && |t| == |v.file| && bi < v.blockCount
    requires var at, next := FileAt(v.entries, bi) as int, FileAt(v.entries, bi + 1) as int;
             at <= next <= |t| ==> t[at..next] == v.file[at..next]
    ensures Formed(v.(file := t)) && DecodeSlot(v.(file := t), bi) == DecodeSlot(v, bi)
  {
    hide ValidIndex, FileAt, RawAt, ParseBlock, BlockRaw, ChecksumBytes, Codec.Bound;
    var at, next := FileAt(v.entries, bi) as int, FileAt(v.entries, bi + 1) as int;
    if at + BLOCK_HEADER_SIZE <= next <= |t| {
      SameExtent(v, t, RawOf(v, bi), t[at..next]);
    }
    hide DecodeExtent;
  }

  lemma SameExtent(v: View, t: seq<byte>, off: uint64, s: seq<byte>)
    requires |s| >= BLOCK_HEADER_SIZE
    ensures DecodeExtent(v.(file := t), off, s) == DecodeExtent(v, off, s)
  {
    hide ParseBlock, BlockRaw, ChecksumBytes, Codec.Bound;
  }

  /** A block that decodes under CRC-32C does not decode with a burst in its payload. */
  lemma ExtentBurstRefused(v: View, off: uint64, s: seq<byte>, t: seq<byte>, p: nat)
    requires |s| >= BLOCK_HEADER_SIZE && DecodeExtent(v, off, s).Success? && v.checksum == Crc32cSum
    requires var e := BLOCK_HEADER_SIZE + FrontSize(s);
             Inside(s, t, BLOCK_HEADER_SIZE, e) && Burst(s[BLOCK_HEADER_SIZE..e], t[BLOCK_HEADER_SIZE..e], p)
    ensures DecodeExtent(v, off, t) == Failure(ErrCorruptBlock)
  {
    hide ParseBlock, BlockRaw, ChecksumBytes, Codec.Bound, Burst, Crc32c.Crc, Ld16, Ld32;
    SameHeader(s, t);
    var n := FrontSize(s);
    var a, b := s[BLOCK_HEADER_SIZE..], t[BLOCK_HEADER_SIZE..];
    assert a[..n] == s[BLOCK_HEADER_SIZE..BLOCK_HEADER_SIZE + n] && b[..n] == t[BLOCK_HEADER_SIZE..BLOCK_HEADER_SIZE + n];
    assert a[n..] == s[BLOCK_HEADER_SIZE + n..] && b[n..] == t[BLOCK_HEADER_SIZE + n..];
    SumIs(Crc32cSum, a[..n], a[n..]);
    SumIs(Crc32cSum, b[..n], b[n..]);
    BurstChanges(a[..n], b[..n], p);
  }

  // ----- a whole view

  /** Block `i` is corrupt and every other block decodes to its part of `x`. */
  ghost predicate Spoiled(v: View, x: seq<byte>, i: nat) {
    && Formed(v) && v.rawSize as int == |x| && i < v.blockCount && DecodeSlot(v, i) == Failure(ErrCorruptBlock)
    && forall j: nat {:trigger ServesBlock(v, x, j)} :: j < v.blockCount && j != i ==> ServesBlock(v, x, j)
  }

  lemma {:induction false} FilesAscend(v: View, i: nat, j: nat)
    requires Formed(v) && i <= j <= v.blockCount
    ensures FileAt(v.entries, i) <= FileAt(v.entries, j) && (i < j ==> FileAt(v.entries, i) as int + BLOCK_HEADER_SIZE <= FileAt(v.entries, j) as int)
    decreases j
  {
    hide FileAt, RawAt;
    if i < j {
      FilesAscend(v, i, j - 1);
      assert FollowsAt(v.entries, j - 1, |v.file|);
    }
  }

  lemma SliceBefore(s: seq<byte>, t: seq<byte>, lo: nat, hi: nat, a: nat, b: nat)
    requires Inside(s, t, lo, hi) && a <= b <= |s| && (b <= lo || hi <= a)
    ensures s[a..b] == t[a..b]
  {
    if b <= lo {
      TakeSlice(s, lo, a, b);
      TakeSlice(t, lo, a, b);
    } else {
      DropSlice(s, hi, a, b);
      DropSlice(t, hi, a, b);
    }
  }

  lemma DropSlice(s: seq<byte>, m: nat, a: nat, b: nat)
    requires m <= a <= b <= |s|
    ensures s[m..][a - m..b - m] == s[a..b]
  {
    forall k | 0 <= k < b - a ensures s[m..][a - m..b - m][k] == s[a..b][k] {}
  }

  lemma OthersServe(v: View, x: seq<byte>, t: seq<byte>, i: nat, lo: nat, hi: nat, j: nat)
    requires Serves(v, x) && i < v.blockCount && j < v.blockCount && j != i && Inside(v.file, t, lo, hi)
    requires FileAt(v.entries, i) as int <= lo && hi <= FileAt(v.entries, i + 1) as int
    ensures Formed(v.(file := t)) && ServesBlock(v.(file := t), x, j)
  {
    hide Formed, FileAt, Serves, DecodeSlot;
    BlockServes(v, x, j);
    var at, next := FileAt(v.entries, j) as int, FileAt(v.entries, j + 1) as int;
    if j < i {
      FilesAscend(v, j + 1, i);
    } else {
      FilesAscend(v, i + 1, j);
    }
    if at <= next <= |t| {
      SliceBefore(v.file, t, lo, hi, at, next);
    }
    OtherBlocksDecode(v, t, j);
  }

  /** In a file that serves `x`, damage between the ends of block `i` that spoils this block spoils no other. */
  lemma OneIsSpoiled(v: View, x: seq<byte>, t: seq<byte>, i: nat, lo: nat, hi: nat)
    requires Serves(v, x) && i < v.blockCount && Inside(v.file, t, lo, hi)
    requires FileAt(v.entries, i) as int <= lo && hi <= FileAt(v.entries, i + 1) as int
    requires Formed(v.(file := t)) && DecodeSlot(v.(file := t), i) == Failure(ErrCorruptBlock)
    ensures Spoiled(v.(file := t), x, i)
  {
    hide FileAt, DecodeSlot, Inside, ServesBlock, Formed;
    forall j: nat {:trigger ServesBlock(v.(file := t), x, j)} | j < v.blockCount && j != i
      ensures ServesBlock(v.(file := t), x, j)
    {
      OthersServe(v, x, t, i, lo, hi, j);
    }
  }

  // ----- the files the encoder writes

  lemma BlockRange(d: Doc, i: nat)
    requires DocOk(d) && FileFits(d) && i < |d.blocks| && Formed(ViewFor(d))
    ensures var v, e := ViewFor(d), DocEntries(d)[i];
            && FileAt(v.entries, i) == e.fileOffset && FileAt(v.entries, i + 1) as int == e.fileOffset + BlockLen(d.cfg, d.jobs[i])
            && FileAt(v.entries, 0) as int <= e.fileOffset
            && e.fileOffset + BlockLen(d.cfg, d.jobs[i]) <= v.footer.indexOffset as int <= |v.file|
  {
    hide FileBytes, MainBytes, DocEntries, EntriesBytes, FileAt, RawAt, Total, ValidConfig, StreamSum, DocIndex, Fits, Formed,
         JobsOk, DictOk, BlockSize, StoreFooter, StoreHeader, HeaderFor;
    EntryPair(d, i);
    FilesAscend(ViewFor(d), 0, i);
    EntriesFit(d);
    EntryAfter(d, i);
    FileParts(d);
    IndexIsThereAt(d);
  }

  lemma EntryAfter(d: Doc, i: nat)
    requires FileFits(d) && i < |d.blocks|
    ensures DocEntries(d)[i + 1].fileOffset == DocEntries(d)[i].fileOffset + BlockLen(d.cfg, d.jobs[i])
  {
    hide Entries, BlockLen, FrontLen, ValidConfig, Total;
    EntriesStep(d.cfg, d.blocks, d.jobs, FrontLen(d), 0, i);
  }

  lemma IndexIsThereAt(d: Doc)
    requires FileFits(d) && d.blocks != []
    ensures DocFooter(d).indexOffset as int == |MainBytes(d)|
  {
    hide MainBytes, StreamSum, Total, DocEntries, RecordBytes, Preamble, EntriesBytes, ValidConfig;
  }

  lemma BurstExtentRefused(v: View, cfg: Config, raw: seq<byte>, off: uint64, j: Job, t: seq<byte>, p: nat)
    requires ValidConfig(cfg) && JobOk(cfg, raw, j) && off as int + |raw| < U64_LIMIT
    requires |raw| <= BLOCK_MAX && |j.payload| <= BLOCK_MAX && cfg.checksum == Crc32cSum
    requires v.codec == cfg.codec && v.checksum == cfg.checksum && v.maxRaw == BlockSize(cfg)
    requires cfg.dict != [] ==> v.dict == Some(cfg.dict)
    requires var e := BLOCK_HEADER_SIZE + |j.payload|;
             Inside(BlockBytes(cfg, raw, off, j), t, BLOCK_HEADER_SIZE, e) && Burst(j.payload, t[BLOCK_HEADER_SIZE..e], p)
    ensures |t| <= SlotCap(v) && DecodeExtent(v, off, t) == Failure(ErrCorruptBlock)
  {
    hide JobOk, ValidConfig, BlockSize, Codec.Bound, BlockBytes, DecodeExtent, SlotCap, FrontSize, Burst, ParseBlock, BlockHeaderFor, Ld16;
    ExtentDecodes(v, cfg, raw, off, j);
    var s := BlockBytes(cfg, raw, off, j);
    WrittenHeader(cfg, raw, off, j, []);
    assert s + [] == s;
    WrittenSum(cfg, raw, off, j);
    ExtentBurstRefused(v, off, s, t, p);
  }

  lemma SpoiledSlot(d: Doc, i: nat, file: seq<byte>, p: nat)
    requires DocOk(d) && FileFits(d) && i < |d.blocks| && Formed(ViewFor(d)) && Formed(ViewFor(d).(file := file))
    requires d.cfg.checksum == Crc32cSum && PayloadBurst(d, i, file, p)
    ensures DecodeSlot(ViewFor(d).(file := file), i) == Failure(ErrCorruptBlock)
  {
    hide FileBytes, MainBytes, DocEntries, EntriesBytes, FileAt, RawAt, Total, ValidConfig, DecodeExtent, DecodeSlot, BlockBytes,
         StreamSum, FooterFor, DocIndex, Fits, Formed, SlotCap, JobOk, JobsOk, DictOk, BlockSize, Burst;
    var v, e := ViewFor(d), DocEntries(d)[i];
    var n := BlockLen(d.cfg, d.jobs[i]);
    EntryPair(d, i);
    BlockInFile(d, i);
    BlockNotEmpty(d, i);
    JobAt(d, i);
    EntrySlicesInput(d, i);
    var t := file[e.fileOffset..e.fileOffset + n];
    CutPart(FileBytes(d), file, e.fileOffset, n, BLOCK_HEADER_SIZE, BLOCK_HEADER_SIZE + |d.jobs[i].payload|);
    BurstExtentRefused(v, d.cfg, d.blocks[i], e.rawOffset, d.jobs[i], t, p);
    SameExtent(v, file, e.rawOffset, t);
    SameCap(v, file);
    SlotIs(v.(file := file), i, e.fileOffset, t);
  }

  lemma SameCap(v: View, t: seq<byte>)
    ensures SlotCap(v.(file := t)) == SlotCap(v)
  {}

  lemma CutPart(s: seq<byte>, file: seq<byte>, at: nat, n: nat, lo: nat, hi: nat)
    requires Inside(s, file, at + lo, at + hi) && hi <= n && at + n <= |s|
    ensures Inside(s[at..at + n], file[at..at + n], lo, hi) && file[at..at + n][lo..hi] == file[at + lo..at + hi]
  {
    var b, t := s[at..at + n], file[at..at + n];
    assert b[..lo] == s[..at + lo][at..] && t[..lo] == file[..at + lo][at..];
    assert b[hi..] == s[at + hi..][..n - hi] && t[hi..] == file[at + hi..][..n - hi];
    SliceOfSlice(file, at, n, lo, hi);
  }

  lemma SliceOfSlice(s: seq<byte>, at: nat, n: nat, lo: nat, hi: nat)
    requires lo <= hi <= n && at + n <= |s|
    ensures s[at..at + n][lo..hi] == s[at + lo..at + hi]
  {
    var a, b := s[at..at + n][lo..hi], s[at + lo..at + hi];
    forall k | 0 <= k < hi - lo
      ensures a[k] == b[k]
    {}
    assert a == b;
  }

  lemma StaysFormed(v: View, t: seq<byte>)
    requires Formed(v) && |t| == |v.file|
    ensures Formed(v.(file := t))
  {
    hide ValidIndex;
  }

  /** A file with a burst in the payload of one block, under CRC-32C, still opens; that block is corrupt and all
      others decode to their parts of the input. */
  lemma DamagedFileOpens(d: Doc, i: nat, file: seq<byte>, p: nat, limit: nat)
    requires DocOk(d) && FileFits(d) && i < |d.blocks| && (d.hint == SIZE_UNKNOWN || d.hint == |Total(d.blocks)|)
    requires OpenReader(FileBytes(d), limit).Success? && d.cfg.checksum == Crc32cSum && PayloadBurst(d, i, file, p)
    ensures OpenReader(file, limit) == Success(ViewFor(d).(file := file))
    ensures Spoiled(ViewFor(d).(file := file), Total(d.blocks), i)
  {
    hide OpenReader, FileBytes, JobsOk, DictOk, ValidConfig, MainBytes, Total, Serves, DecodeSlot, Spoiled, Burst, Formed,
         FileAt, DocEntries, ViewFor, DocFooter, ReaderFits;
    var at, n := DocEntries(d)[i].fileOffset + BLOCK_HEADER_SIZE, |d.jobs[i].payload|;
    OpenedView(d, limit);
    EncodedFileServes(d);
    ServesFormed(ViewFor(d), Total(d.blocks));
    BlockRange(d, i);
    StaysFormed(ViewFor(d), file);
    SpoiledSlot(d, i, file, p);
    ChangedAt(d, i, file, at, at + n, limit);
  }

  lemma ChangedAt(d: Doc, i: nat, file: seq<byte>, lo: nat, hi: nat, limit: nat)
    requires DocOk(d) && FileFits(d) && i < |d.blocks|
    requires var v := ViewFor(d);
             && OpenReader(FileBytes(d), limit) == Success(v) && v.file == FileBytes(d) && Serves(v, Total(d.blocks))
             && i < v.blockCount && FileAt(v.entries, i) as int <= lo && hi <= FileAt(v.entries, i + 1) as int
             && FileAt(v.entries, 0) as int <= lo && hi <= v.footer.indexOffset as int <= |v.file|
             && Formed(v.(file := file)) && DecodeSlot(v.(file := file), i) == Failure(ErrCorruptBlock)
    requires Inside(FileBytes(d), file, lo, hi)
    ensures OpenReader(file, limit) == Success(ViewFor(d).(file := file))
    ensures Spoiled(ViewFor(d).(file := file), Total(d.blocks), i)
  {
    hide OpenReader, FileBytes, JobsOk, DictOk, ValidConfig, MainBytes, Total, Serves, DecodeSlot, Spoiled, ValidIndex, FileAt,
         DocEntries, ViewFor, DocFooter;
    var v := ViewFor(d);
    EndsUntouched(FileBytes(d), file, lo, hi, FileAt(v.entries, 0) as int, v.footer.indexOffset as int);
    OpeningLooksAtEnds(FileBytes(d), file, limit, v);
    OneIsSpoiled(v, Total(d.blocks), file, i, lo, hi);
  }

  lemma OpenedView(d: Doc, limit: nat)
    requires DocOk(d) && FileFits(d) && d.blocks != [] && (d.hint == SIZE_UNKNOWN || d.hint == |Total(d.blocks)|)
    requires OpenReader(FileBytes(d), limit).Success?
    ensures OpenReader(FileBytes(d), limit) == Success(ViewFor(d)) && ViewFor(d).file == FileBytes(d) && ViewFor(d).blockCount == |d.blocks|
  {
    hide OpenReader, FileBytes, JobsOk, DictOk, ValidConfig, MainBytes, Total, ReaderFits, DocEntries, DocFooter;
    if INDEX_PREAMBLE + INDEX_ENTRY_SIZE * (|d.blocks| + 1) <= RECORD_MAX {
      EncodedFileOpens(d, limit);
    } else {
      LongIndexIsRefused(d, limit);
    }
  }

  lemma EndsUntouched(s: seq<byte>, t: seq<byte>, lo: nat, hi: nat, a: nat, b: nat)
    requires Inside(s, t, lo, hi) && a <= lo && hi <= b <= |s|
    ensures s[..a] == t[..a] && s[b..] == t[b..]
  {
    assert s[..a] == s[..lo][..a] && t[..a] == t[..lo][..a];
    assert s[b..] == s[hi..][b - hi..] && t[b..] == t[hi..][b - hi..];
  }

  // ----- verifying and reading a spoiled file

  lemma RawsAscend(v: View, i: nat, j: nat)
    requires Formed(v) && i <= j <= v.blockCount
    ensures RawOf(v, i) <= RawOf(v, j) && (i < j ==> RawOf(v, i) < RawOf(v, j))
  {
    hide ValidIndex, RawAt;
    RawAscends(v.entries, v.blockCount, v.rawSize, |v.file|, i, j);
  }

  lemma {:induction false} SpoiledCounts(v: View, x: seq<byte>, i: nat, k: nat)
    requires Spoiled(v, x, i) && k <= v.blockCount
    ensures BadCount(v, k) == if k > i then 1 else 0
    ensures GoodBytes(v, k) == RawOf(v, k) as int - if k > i then RawOf(v, i + 1) as int - RawOf(v, i) as int else 0
    ensures k <= i ==> AllGood(v, k)
    decreases k
  {
    hide DecodeSlot, ValidIndex, RawAt;
    if k == 0 {
      IndexEnds(v);
    } else {
      SpoiledCounts(v, x, i, k - 1);
      if k - 1 != i {
        assert ServesBlock(v, x, k - 1);
      }
    }
  }

  lemma SpoiledFirst(v: View, x: seq<byte>, i: nat)
    requires Spoiled(v, x, i)
    ensures FirstBad(v, i) && Fault(v, i) == (RawOf(v, i), ErrCorruptBlock)
  {
    hide DecodeSlot, Formed, ServesBlock, RawAt;
    SpoiledCounts(v, x, i, i);
  }

  /** Verifying a file with one corrupt block reports one bad block, where it starts in the input, and all other
      blocks' bytes as good; the stream checksum is not compared. */
  method VerifySpoiled(v: View, ghost x: seq<byte>, ghost i: nat) returns (rep: VerifyReport)
    requires Spoiled(v, x, i)
    ensures rep.bad == 1 && rep.ok == v.blockCount - 1 && rep.firstBad == Some((RawOf(v, i), ErrCorruptBlock))
    ensures rep.bytesVerified == |x| - (RawOf(v, i + 1) as int - RawOf(v, i) as int)
    ensures rep.sum == if SumStored(v) then SumSkipped else SumAbsent
  {
    hide DecodeSlot, ServesBlock, ValidIndex, RawAt, FirstBad, Fault;
    SpoiledCounts(v, x, i, v.blockCount);
    SpoiledFirst(v, x, i);
    IndexEnds(v);
    hide Spoiled;
    var r := new Reader(v, 1);
    rep := r.Verify(x);
  }

  /** `want` bytes from `at` on have bytes of block `i` among them. */
  predicate Touches(v: View, i: nat, at: nat, want: nat)
    requires Formed(v) && i < v.blockCount
  {
    want > 0 && at < RawOf(v, i + 1) as int && RawOf(v, i) as int < at + want
  }

  /** A read of such a file fails exactly when it touches the corrupt block, and otherwise returns the input's
      own bytes. */
  lemma {:induction false} SpoiledReads(v: View, x: seq<byte>, i: nat, at: nat, want: nat)
    requires Spoiled(v, x, i) && at + want <= |x|
    ensures ReadFrom(v, at, want) == if Touches(v, i, at, want) then Failure(ErrCorruptBlock) else Success(x[at..at + want])
    decreases want
  {
    hide DecodeSlot, Part, ReadFrom, RawOf, ServesBlock, Formed;
    if want == 0 {
      Ahead(v, at, 0, []);
      assert x[at..at + want] == [];
    } else {
      var bi := BlockAt(v, at);
      ReadsOn(v, at, want);
      if bi != i {
        assert ServesBlock(v, x, bi);
        BlockPart(v, x, bi, at, want);
        var got := Part(DecodeSlot(v, bi).value, at - RawOf(v, bi) as int, want);
        PartSize(DecodeSlot(v, bi), at - RawOf(v, bi) as int, want);
        SpoiledReads(v, x, i, at + |got|, want - |got|);
        PartIsSlice(x, at, |got|);
        assert x[at..at + |got|] + x[at + |got|..at + want] == x[at..at + want];
        RawsAscend(v, i, i + 1);
        if bi < i {
          RawsAscend(v, bi + 1, i);
        } else {
          RawsAscend(v, i + 1, bi);
        }
      }
    }
  }

  /** A whole call. */
  lemma SpoiledPread(v: View, x: seq<byte>, i: nat, n: nat, off: nat)
    requires Spoiled(v, x, i)
    ensures PreadOf(v, n, off) == if off < |x| && Touches(v, i, off, Min(n, |x| - off)) then Failure(ErrCorruptBlock) else Success(Part(x, off, n))
  {
    hide DecodeSlot, ServesBlock, ReadFrom, ValidIndex, RawAt;
    if n > 0 && off < |x| {
      var want := Min(n, |x| - off);
      SpoiledReads(v, x, i, off, want);
      assert Part(x, off, n) == x[off..off + want];
    } else {
      assert Part(x, off, n) == [];
    }
  }

  /** Verifying what the encoder wrote after such damage: one bad block, named by where it starts in the input. */
  method VerifyDamaged(v: View, ghost d: Doc, ghost i: nat, file: seq<byte>, ghost p: nat, ghost limit: nat) returns (rep: VerifyReport)
    requires DocOk(d) && FileFits(d) && i < |d.blocks| && (d.hint == SIZE_UNKNOWN || d.hint == |Total(d.blocks)|)
    requires OpenReader(FileBytes(d), limit).Success? && d.cfg.checksum == Crc32cSum && PayloadBurst(d, i, file, p)
    requires OpenReader(file, limit) == Success(v)
    ensures rep.bad == 1 && rep.ok == |d.blocks| - 1 && rep.firstBad == Some((|Total(d.blocks[..i])|, ErrCorruptBlock))
    ensures rep.bytesVerified == |Total(d.blocks)| - |d.blocks[i]|
    ensures rep.sum == if Xxh64.Hash64(Total(d.blocks)) != 0 then SumSkipped else SumAbsent
  {
    hide OpenReader, FileBytes, JobsOk, DictOk, MainBytes, Total, Spoiled, PayloadBurst, Xxh64.Hash64, ValidConfig, ViewFor,
         Formed, RawOf, DecodeSlot;
    DamagedFileOpens(d, i, file, p, limit);
    DamagedView(d, i, file, limit);
    rep := VerifySpoiled(v, Total(d.blocks), i);
  }

  lemma DamagedView(d: Doc, i: nat, file: seq<byte>, limit: nat)
    requires DocOk(d) && FileFits(d) && i < |d.blocks| && (d.hint == SIZE_UNKNOWN || d.hint == |Total(d.blocks)|)
    requires Spoiled(ViewFor(d).(file := file), Total(d.blocks), i)
    ensures var v := ViewFor(d).(file := file);
            && Formed(v) && v.blockCount == |d.blocks| && v.checksum == d.cfg.checksum && v.footer.streamChecksum == StreamSum(d.cfg, Total(d.blocks))
            && RawOf(v, i) as int == |Total(d.blocks[..i])| && RawOf(v, i + 1) as int == |Total(d.blocks[..i])| + |d.blocks[i]|
  {
    hide FileBytes, Total, ServesBlock, ValidIndex, DocEntries, EntriesBytes, MainBytes, DocIndex, StreamSum, BlockSize, DictFor, RawAt,
         JobsOk, DictOk, ValidConfig, FileAt, DecodeSlot, Leading, BlockOf, Trailing;
    EntryPair(d, i);
    FileAround(d, i);
  }

  // ----- damage outside the blocks

  /** Any one other byte in the file's header or its footer, and the file does not open. */
  lemma HeaderByteNotOpened(s: seq<byte>, q: nat, c: byte, limit: nat)
    requires OpenReader(s, limit).Success? && q < FILE_HEADER_SIZE <= |s| && s[q] != c
    ensures OpenReader(s[q := c], limit).Failure?
  {
    hide ParseHeader, ParseFooter, LoadIndex, LoadMeta;
    HeaderDamage(s, q, c);
  }

  lemma FooterByteNotOpened(s: seq<byte>, q: nat, c: byte, limit: nat)
    requires OpenReader(s, limit).Success? && FOOTER_SIZE <= |s| && |s| - FOOTER_SIZE <= q < |s| && s[q] != c
    ensures OpenReader(s[q := c], limit).Failure?
  {
    hide ParseHeader, ParseFooter, LoadIndex, LoadMeta;
    var k := |s| - FOOTER_SIZE;
    assert s[q := c][k..] == s[k..][q - k := c];
    FooterDamage(s[k..], q - k, c);
  }

  /** A burst behind the index record's head. */
  lemma IndexBurstRefused(s: seq<byte>, t: seq<byte>, h: FileHeader, fileSize: uint64, p: nat)
    requires RECORD_HEADER_SIZE <= |s| == |t| && ReadIndex(s, h, fileSize).Success?
    requires s[..RECORD_HEADER_SIZE] == t[..RECORD_HEADER_SIZE] && Burst(s[RECORD_HEADER_SIZE..], t[RECORD_HEADER_SIZE..], p)
    ensures ReadIndex(t, h, fileSize) == Failure(ErrCorruptIndex)
  {
    hide ValidIndex, Crc32c.Crc, Ld32, Ld64, Burst;
    SameRecord(s, t, []);
    assert t + [] == t;
    BurstBehind(s[..10], s[RECORD_HEADER_SIZE..], t[RECORD_HEADER_SIZE..], p);
    BurstChanges(s[..10] + s[RECORD_HEADER_SIZE..], s[..10] + t[RECORD_HEADER_SIZE..], 10 + p);
  }

  lemma LoadIndexBurst(s: seq<byte>, t: seq<byte>, h: FileHeader, f: Footer, p: nat)
    requires |s| == |t| && f.indexOffset as int + f.indexSize as int <= |s| && LoadIndex(s, h, f).Success?
    requires var a, e := f.indexOffset as int + RECORD_HEADER_SIZE, f.indexOffset as int + f.indexSize as int;
             a <= e && Inside(s, t, a, e) && Burst(s[a..e], t[a..e], p)
    ensures LoadIndex(t, h, f) == Failure(ErrCorruptIndex)
  {
    hide ReadIndex, Ld64, Burst, Inside;
    var b, n := f.indexOffset as int, f.indexSize as int;
    CutPart(s, t, b, n, RECORD_HEADER_SIZE, n);
    SliceOfSlice(s, b, n, RECORD_HEADER_SIZE, n);
    var x, y := s[b..b + n], t[b..b + n];
    InsideTail(x, y, RECORD_HEADER_SIZE);
    SameRecordSize(s, t, b, x, y);
    IndexBurstRefused(x, y, h, |s|, p);
  }

  lemma SameRecordSize(s: seq<byte>, t: seq<byte>, b: nat, x: seq<byte>, y: seq<byte>)
    requires RECORD_HEADER_SIZE <= |x| == |y| && b + |x| <= |s| == |t| && x == s[b..b + |x|] && y == t[b..b + |y|]
    requires Inside(x, y, RECORD_HEADER_SIZE, |x|)
    ensures Ld64(s, b + 2) == Ld64(t, b + 2) && x[..RECORD_HEADER_SIZE] == y[..RECORD_HEADER_SIZE] && |x| == |y|
  {
    SameLoad64(s, b, x, 2);
    SameLoad64(t, b, y, 2);
    SameRecord(x, y, []);
    assert y + [] == y;
    hide Ld64;
  }

  /** Up to four neighbouring bytes of an index changed, and the file does not open. */
  lemma IndexBurstNotOpened(s: seq<byte>, t: seq<byte>, limit: nat, v: View, a: nat, e: nat, p: nat)
    requires OpenReader(s, limit) == Success(v)
    requires a == v.footer.indexOffset as int + RECORD_HEADER_SIZE && e == v.footer.indexOffset as int + v.footer.indexSize as int
    requires Inside(s, t, a, e) && Burst(s[a..e], t[a..e], p)
    ensures OpenReader(t, limit) == Failure(ErrCorruptIndex)
  {
    hide LoadTail, LoadIndex, LoadMeta, Pow2, FileAt, ValidIndex, SlotSize, Within, Codec.Bound, Burst, Inside;
    var (h, f) := LoadTail(s).value;
    FooterPlace(s);
    SameSize(s, t, a, e);
    EndsUntouched(s, t, a, e, FILE_HEADER_SIZE, |s| - FOOTER_SIZE);
    SameTail(s, t);
    LoadIndexBurst(s, t, h, f, p);
  }

  lemma SameSize(s: seq<byte>, t: seq<byte>, a: nat, e: nat)
    requires Inside(s, t, a, e)
    ensures |s| == |t| && a <= e
  {}

  lemma FooterPlace(s: seq<byte>)
    requires LoadTail(s).Success?
    ensures LoadTail(s).value.1.indexOffset >= FILE_HEADER_SIZE
  {
    hide ParseHeader, ReadFooter, Crc32c.Crc, Ld32;
  }
}
