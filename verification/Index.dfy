/** The block index: searching it, validating it, and what the encoder writes into it
    (src/format/xq_format.c:186-257, src/core/xq_encoder.c:131-148, 576-627). */
module Index {
  import opened Bytes
  import opened Format
  import opened Codec
  import opened Container
  import opened ContainerProof
  import opened FileSpec

  // ----- stored entries

  function FileAt(s: seq<byte>, i: nat): uint64
    requires INDEX_ENTRY_SIZE * i + INDEX_ENTRY_SIZE <= |s|
  {
    Ld64(s, INDEX_ENTRY_SIZE * i)
  }

  function RawAt(s: seq<byte>, i: nat): uint64
    requires INDEX_ENTRY_SIZE * i + INDEX_ENTRY_SIZE <= |s|
  {
    Ld64(s, INDEX_ENTRY_SIZE * i + 8)
  }

  /** `xq_fmt_index_find`: for whatever bytes stand in the index, the interval found contains the offset
      (unless it is the first, whose lower end is not looked at). */
  method Find(entries: seq<byte>, n: nat, off: uint64) returns (r: int)
    requires |entries| >= INDEX_ENTRY_SIZE * n
    ensures r == -1 <==> n < 2 || off >= RawAt(entries, n - 1)
    ensures r != -1 ==> 0 <= r < n - 1 && off < RawAt(entries, r + 1) && (r == 0 || RawAt(entries, r) <= off)
  {
    hide Ld64;
    if n < 2 {
      return -1;
    }
    if off >= RawAt(entries, n - 1) {
      return -1;
    }
    var lo: nat, hi: nat := 0, n - 1;
    while hi - lo > 1
      invariant lo < hi < n
      invariant off < RawAt(entries, hi) && (lo == 0 || RawAt(entries, lo) <= off)
    {
      var mid := lo + (hi - lo) / 2;
      if RawAt(entries, mid) <= off {
        lo := mid;
      } else {
        hi := mid;
      }
    }
    return lo;
  }

  /** Two neighbouring entries as validation wants them. */
  predicate Follows(prevFile: uint64, prevRaw: uint64, file: uint64, raw: uint64, fileSize: uint64) {
    && prevFile as int + BLOCK_HEADER_SIZE <= file && prevRaw < raw && raw as int - prevRaw as int <= BLOCK_MAX
    && (fileSize != 0 ==> file <= fileSize)
  }

  predicate ValidIndex(entries: seq<byte>, blockCount: nat, totalRaw: uint64, fileSize: uint64)
    requires |entries| >= INDEX_ENTRY_SIZE * (blockCount + 1)
  {
    && blockCount > 0 && FileAt(entries, 0) >= FILE_HEADER_SIZE && RawAt(entries, 0) == 0
    && (forall i: nat :: i < blockCount ==> FollowsAt(entries, i, fileSize))
    && RawAt(entries, blockCount) == totalRaw
  }

  predicate FollowsAt(entries: seq<byte>, i: nat, fileSize: uint64)
    requires |entries| >= INDEX_ENTRY_SIZE * (i + 2)
  {
    Follows(FileAt(entries, i), RawAt(entries, i), FileAt(entries, i + 1), RawAt(entries, i + 1), fileSize)
  }

  /** `xq_fmt_index_validate` accepts exactly the valid indexes. */
  method Validate(entries: seq<byte>, blockCount: nat, totalRaw: uint64, fileSize: uint64) returns (st: Status)
    requires blockCount + 1 < U64_LIMIT && |entries| >= INDEX_ENTRY_SIZE * (blockCount + 1)
    ensures st == XqOk || st == ErrCorruptIndex
    ensures st == XqOk <==> ValidIndex(entries, blockCount, totalRaw, fileSize)
  {
    hide Ld64;
    if blockCount == 0 {
      return ErrCorruptIndex;
    }
    var prevFile, prevRaw := FileAt(entries, 0), RawAt(entries, 0);
    if prevFile < FILE_HEADER_SIZE {
      return ErrCorruptIndex;
    }
    if prevRaw != 0 {
      return ErrCorruptIndex;
    }
    var i: nat := 1;
    while i < blockCount + 1
      invariant 1 <= i <= blockCount + 1
      invariant prevFile == FileAt(entries, i - 1) && prevRaw == RawAt(entries, i - 1)
      invariant forall j: nat :: j < i - 1 ==> FollowsAt(entries, j, fileSize)
    {
      var file, raw := FileAt(entries, i), RawAt(entries, i);
      var wrong :=
        file <= prevFile || raw <= prevRaw || file as int - prevFile as int < BLOCK_HEADER_SIZE || raw as int - prevRaw as int > BLOCK_MAX
        || (fileSize != 0 && file > fileSize);
      assert wrong <==> !FollowsAt(entries, i - 1, fileSize);
      if wrong {
        return ErrCorruptIndex;
      }
      prevFile, prevRaw := file, raw;
      i := i + 1;
    }
    if prevRaw != totalRaw {
      return ErrCorruptIndex;
    }
    return XqOk;
  }

  lemma {:induction false} RawAscends(entries: seq<byte>, blockCount: nat, totalRaw: uint64, fileSize: uint64, i: nat, j: nat)
    requires |entries| >= INDEX_ENTRY_SIZE * (blockCount + 1) && ValidIndex(entries, blockCount, totalRaw, fileSize)
    requires i <= j <= blockCount
    ensures RawAt(entries, i) <= RawAt(entries, j) && (i < j ==> RawAt(entries, i) < RawAt(entries, j))
    decreases j
  {
    hide Ld64;
    if i < j {
      RawAscends(entries, blockCount, totalRaw, fileSize, i, j - 1);
      assert FollowsAt(entries, j - 1, fileSize);
    }
  }

  /** In a valid index exactly one block holds an offset. */
  lemma OneBlockHolds(entries: seq<byte>, blockCount: nat, totalRaw: uint64, fileSize: uint64, off: uint64, i: nat, j: nat)
    requires |entries| >= INDEX_ENTRY_SIZE * (blockCount + 1) && ValidIndex(entries, blockCount, totalRaw, fileSize)
    requires i < blockCount && RawAt(entries, i) <= off < RawAt(entries, i + 1)
    requires j < blockCount && RawAt(entries, j) <= off < RawAt(entries, j + 1)
    ensures i == j
  {
    hide Ld64, ValidIndex;
    if i < j {
      RawAscends(entries, blockCount, totalRaw, fileSize, i + 1, j);
    } else if j < i {
      RawAscends(entries, blockCount, totalRaw, fileSize, j + 1, i);
    }
  }

  // ----- the encoder's entries

  lemma EntryLoads(e: Entry, s: seq<byte>, p: nat)
    requires e.fileOffset < U64_LIMIT && e.rawOffset < U64_LIMIT && p + INDEX_ENTRY_SIZE <= |s|
    requires s[p..p + INDEX_ENTRY_SIZE] == EntryBytes(e)
    ensures Ld64(s, p) == e.fileOffset && Ld64(s, p + 8) == e.rawOffset
  {
    Load64(s, p, e.fileOffset);
    Load64(s, p + 8, e.rawOffset);
    hide Ld64, Le64;
    var t := s[p..p + INDEX_ENTRY_SIZE];
    assert s[p..p + 8] == t[..8] == Le64(e.fileOffset);
    assert s[p + 8..p + 8 + 8] == t[8..] == Le64(e.rawOffset);
  }

  lemma {:induction false} EntrySlice(es: seq<Entry>, i: nat)
    requires Fits(es) && i < |es|
    ensures EntriesBytes(es)[INDEX_ENTRY_SIZE * i..INDEX_ENTRY_SIZE * i + INDEX_ENTRY_SIZE] == EntryBytes(es[i])
    decreases |es|
  {
    hide EntryBytes;
    var rest := EntriesBytes(es[1..]);
    var all := EntryBytes(es[0]) + rest;
    if i == 0 {
      assert all[0..INDEX_ENTRY_SIZE] == EntryBytes(es[0]);
    } else {
      EntrySlice(es[1..], i - 1);
      var p := INDEX_ENTRY_SIZE * (i - 1);
      assert all[p + INDEX_ENTRY_SIZE..p + 2 * INDEX_ENTRY_SIZE] == rest[p..p + INDEX_ENTRY_SIZE];
    }
  }

  /** A stored index loads back entry by entry. */
  lemma EntriesLoad(es: seq<Entry>, i: nat)
    requires Fits(es) && i < |es|
    ensures FileAt(EntriesBytes(es), i) == es[i].fileOffset && RawAt(EntriesBytes(es), i) == es[i].rawOffset
  {
    EntrySlice(es, i);
    hide EntryBytes, EntriesBytes, Ld64;
    EntryLoads(es[i], EntriesBytes(es), INDEX_ENTRY_SIZE * i);
  }

  lemma EntryFollows(d: Doc, fileSize: uint64, i: nat)
    requires DocOk(d) && FileFits(d) && i < |d.blocks| && |MainBytes(d)| <= fileSize
    ensures Fits(DocEntries(d)) && FollowsAt(EntriesBytes(DocEntries(d)), i, fileSize)
  {
    hide JobsOk, DictOk, EntriesBytes, Entries, MainBytes, FrontLen, FileAt, RawAt, Fits, ValidConfig;
    var es := DocEntries(d);
    EntriesFit(d);
    EntriesLoad(es, i);
    EntriesLoad(es, i + 1);
    EntriesStep(d.cfg, d.blocks, d.jobs, FrontLen(d), 0, i);
    BlockNotEmpty(d, i);
  }

  lemma EntryEnds(d: Doc)
    requires FileFits(d)
    ensures Fits(DocEntries(d))
    ensures var s := EntriesBytes(DocEntries(d));
            FileAt(s, 0) >= FILE_HEADER_SIZE && RawAt(s, 0) == 0 && RawAt(s, |d.blocks|) == |Total(d.blocks)|
  {
    EntriesFit(d);
    MainLen(d);
    EntriesLast(d.cfg, d.blocks, d.jobs, FrontLen(d), 0);
    var es := DocEntries(d);
    assert es[0] == Entry(FrontLen(d), 0);
    hide EntriesBytes, Entries, MainBytes, FrontLen, FileAt, RawAt, ValidConfig, Body;
    EntriesLoad(es, 0);
    EntriesLoad(es, |d.blocks|);
  }

  /** The index of every file the encoder writes for a non-empty input is valid. */
  lemma EncodedIndexIsValid(d: Doc, fileSize: uint64)
    requires DocOk(d) && FileFits(d) && d.blocks != [] && |MainBytes(d)| <= fileSize
    ensures Fits(DocEntries(d)) && ValidIndex(EntriesBytes(DocEntries(d)), |d.blocks|, |Total(d.blocks)|, fileSize)
  {
    EntriesFit(d);
    EntryEnds(d);
    hide DictOk, JobOk, Entries, EntriesBytes, MainBytes, FileAt, RawAt, FollowsAt, ValidConfig, Total;
    var s := EntriesBytes(DocEntries(d));
    forall i: nat | i < |d.blocks|
      ensures FollowsAt(s, i, fileSize)
    {
      EntryFollows(d, fileSize, i);
    }
  }

  lemma BlockNotEmpty(d: Doc, i: nat)
    requires DocOk(d) && i < |d.blocks|
    ensures 0 < |d.blocks[i]| <= BLOCK_MAX && |d.blocks[i]| <= BlockSize(d.cfg)
  {
    BlockSizeRange(d.cfg);
    assert JobOk(d.cfg, d.blocks[i], d.jobs[i]);
    hide Decompress, DictOk, BlockSize;
  }

  lemma Regroup(pre: seq<byte>, b: seq<byte>, rest: seq<byte>, post: seq<byte>)
    ensures pre + (b + rest) + post == pre + b + rest + post == pre + b + (rest + post)
  {}

  predicate StandsAt(s: seq<byte>, at: nat, part: seq<byte>) {
    at + |part| <= |s| && s[at..at + |part|] == part
  }

  lemma PartStands(pre: seq<byte>, b: seq<byte>, post: seq<byte>)
    ensures StandsAt(pre + b + post, |pre|, b)
  {
    PartAt(pre, b, post);
  }

  lemma BodyOfMore(cfg: Config, blocks: seq<seq<byte>>, jobs: seq<Job>, off: nat)
    requires |blocks| == |jobs| > 0 && off + |Total(blocks)| < U64_LIMIT
    requires forall k :: 0 <= k < |blocks| ==> |blocks[k]| <= BLOCK_MAX && |jobs[k].payload| <= BLOCK_MAX
    ensures |Total(blocks)| == |blocks[0]| + |Total(blocks[1..])|
    ensures Body(cfg, blocks, jobs, off) == BlockBytes(cfg, blocks[0], off, jobs[0]) + Body(cfg, blocks[1..], jobs[1..], off + |blocks[0]|)
  {
    hide BlockBytes;
  }

  /** An entry leads to its block, in the file and in the input. */
  lemma {:induction false} EntryLeadsToBlock(cfg: Config, blocks: seq<seq<byte>>, jobs: seq<Job>, off: nat, pre: seq<byte>, post: seq<byte>, i: nat)
    requires |blocks| == |jobs| && i < |blocks| && off + |Total(blocks)| < U64_LIMIT
    requires forall k :: 0 <= k < |blocks| ==> |blocks[k]| <= BLOCK_MAX && |jobs[k].payload| <= BLOCK_MAX
    ensures var e := Entries(cfg, blocks, jobs, |pre|, off)[i];
            && off <= e.rawOffset <= off + |Total(blocks)|
            && StandsAt(pre + Body(cfg, blocks, jobs, off) + post, e.fileOffset, BlockBytes(cfg, blocks[i], e.rawOffset, jobs[i]))
    decreases |blocks|
  {
    hide BlockBytes, Entries, Body, Total, StandsAt;
    var b := BlockBytes(cfg, blocks[0], off, jobs[0]);
    BodyOfMore(cfg, blocks, jobs, off);
    var rest := Body(cfg, blocks[1..], jobs[1..], off + |blocks[0]|);
    Regroup(pre, b, rest, post);
    EntriesOfMore(cfg, blocks, jobs, |pre|, off);
    if i == 0 {
      PartStands(pre, b, rest + post);
    } else {
      EntryLeadsToBlock(cfg, blocks[1..], jobs[1..], off + |blocks[0]|, pre + b, post, i - 1);
    }
  }

  lemma SliceBehind(a: seq<byte>, rest: seq<byte>, p: nat, n: nat)
    requires p + n <= |rest|
    ensures (a + rest)[|a| + p..|a| + p + n] == rest[p..p + n]
  {}

  function RawBefore(blocks: seq<seq<byte>>, i: nat): nat
    requires i <= |blocks|
  {
    if i == 0 then 0 else |blocks[0]| + RawBefore(blocks[1..], i - 1)
  }

  lemma FirstEntryIs(cfg: Config, blocks: seq<seq<byte>>, jobs: seq<Job>, fileOff: nat, off: nat)
    requires |blocks| == |jobs|
    ensures Entries(cfg, blocks, jobs, fileOff, off)[0] == Entry(fileOff, off)
  {
    hide BlockLen;
  }

  lemma {:induction false} EntryRaw(cfg: Config, blocks: seq<seq<byte>>, jobs: seq<Job>, fileOff: nat, off: nat, i: nat)
    requires |blocks| == |jobs| && i <= |blocks|
    ensures Entries(cfg, blocks, jobs, fileOff, off)[i].rawOffset == off + RawBefore(blocks, i)
    decreases |blocks|
  {
    hide BlockLen, Entries;
    if i == 0 {
      FirstEntryIs(cfg, blocks, jobs, fileOff, off);
    } else {
      EntriesOfMore(cfg, blocks, jobs, fileOff, off);
      EntryRaw(cfg, blocks[1..], jobs[1..], fileOff + BlockLen(cfg, jobs[0]), off + |blocks[0]|, i - 1);
    }
  }

  lemma {:induction false} TotalSlice(blocks: seq<seq<byte>>, i: nat)
    requires i < |blocks|
    ensures var p := RawBefore(blocks, i);
            p + |blocks[i]| <= |Total(blocks)| && Total(blocks)[p..p + |blocks[i]|] == blocks[i]
    decreases |blocks|
  {
    if i == 0 {
      PartAt([], blocks[0], Total(blocks[1..]));
      assert [] + blocks[0] + Total(blocks[1..]) == Total(blocks);
    } else {
      TotalSlice(blocks[1..], i - 1);
      SliceBehind(blocks[0], Total(blocks[1..]), RawBefore(blocks[1..], i - 1), |blocks[i]|);
    }
  }

  /** An entry's raw offset is where its block stands in the input. */
  lemma EntrySlicesInput(d: Doc, i: nat)
    requires Sized(d) && i < |d.blocks|
    ensures var p := DocEntries(d)[i].rawOffset;
            p + |d.blocks[i]| <= |Total(d.blocks)| && Total(d.blocks)[p..p + |d.blocks[i]|] == d.blocks[i]
  {
    hide FrontLen, Entries, ValidConfig, Total;
    EntryRaw(d.cfg, d.blocks, d.jobs, FrontLen(d), 0, i);
    TotalSlice(d.blocks, i);
  }
}
