/** What repair makes of a damaged block: nothing of it is recovered, and it costs no other block
    (src/core/xq_repair.c:118-158, 193-276, tests/test_repair.c:125-164). */
module RepairDamage {
  import opened Bytes
  import opened Format
  import opened Codec
  import opened Container
  import opened ContainerProof
  import opened FileSpec
  import opened Index
  import opened Repair
  import opened Damage
  import Crc32c

  /** A block that decodes under CRC-32C where it stands does not with a burst in its payload. */
  lemma BurstNotRecovered(c: Salvage, s: seq<byte>, t: seq<byte>, off: nat, h: BlockHeader, p: nat)
    requires var a, e := off + BLOCK_HEADER_SIZE, off + BLOCK_HEADER_SIZE + h.storedSize as int;
             Inside(s, t, a, e) && Burst(s[a..e], t[a..e], p)
    requires DecodeAt(c, s, off, h).Success? && c.checksum == Crc32cSum
    ensures DecodeAt(c, t, off, h) == Failure(ErrCorruptBlock)
  {
    hide BlockRaw, ChecksumBytes, Burst, Crc32c.Crc, Ld32, StagingCap;
    var n := h.storedSize as int;
    var at, total := off + BLOCK_HEADER_SIZE, off + Extent(c, h);
    var x, y := s[at..total], t[at..total];
    assert x[..n] == s[at..at + n] && y[..n] == t[at..at + n];
    assert x[n..] == s[at + n..][..4] && y[n..] == t[at + n..][..4];
    SumIs(Crc32cSum, x[..n], x[n..]);
    SumIs(Crc32cSum, y[..n], y[n..]);
    BurstChanges(x[..n], y[..n], p);
  }

  /** The scan counts it as bad and goes on right behind its header. */
  lemma BurstSpoils(c: Salvage, s: seq<byte>, t: seq<byte>, q: nat, h: BlockHeader, r: Report, fill: Option<byte>, p: nat)
    requires var a, e := q + BLOCK_HEADER_SIZE, q + BLOCK_HEADER_SIZE + h.storedSize as int;
             Inside(s, t, a, e) && Burst(s[a..e], t[a..e], p)
    requires HeaderAt(s, q) == Success(h) && DecodeAt(c, s, q, h).Success? && c.checksum == Crc32cSum
    ensures ScanAt(c, t, q, r, fill) == (Spoilt(r), q + BLOCK_HEADER_SIZE)
  {
    hide DecodeAt, ParseBlock, Burst, Place;
    HeaderStays(s, t, q, h.storedSize as int);
    BurstNotRecovered(c, s, t, q, h, p);
  }

  lemma HeaderStays(s: seq<byte>, t: seq<byte>, q: nat, n: nat)
    requires Inside(s, t, q + BLOCK_HEADER_SIZE, q + BLOCK_HEADER_SIZE + n)
    ensures t[q..q + BLOCK_HEADER_SIZE] == s[q..q + BLOCK_HEADER_SIZE]
  {
    TakeSlice(s, q + BLOCK_HEADER_SIZE, q, q + BLOCK_HEADER_SIZE);
    TakeSlice(t, q + BLOCK_HEADER_SIZE, q, q + BLOCK_HEADER_SIZE);
  }

  /** No position from `p` below `e` looks like a block header. */
  ghost predicate Quiet(file: seq<byte>, p: nat, e: nat) {
    forall q: nat {:trigger HeaderAt(file, q)} :: p <= q < e ==> HeaderAt(file, q).Failure?
  }

  /** The scan passes over what does not. */
  lemma {:induction false} PassesQuiet(c: Salvage, file: seq<byte>, p: nat, e: nat, r: Report, fill: Option<byte>)
    requires p <= e && Quiet(file, p, e)
    ensures Scan(c, file, p, r, fill) == Scan(c, file, e, r, fill)
    decreases e - p
  {
    hide ParseBlock, DecodeAt, Place, Spoilt;
    if p < e {
      assert HeaderAt(file, p).Failure?;
      PassesQuiet(c, file, p + 1, e, r, fill);
    }
  }

  // ----- the files the encoder writes

  /** The report once every block but block `i` has been found, and that one found bad. */
  function WithoutBlock(d: Doc, i: nat, fill: Option<byte>): Report
    requires i < |d.blocks|
  {
    Recovered(Spoilt(Recovered(START, d.blocks[..i], 0, fill)), d.blocks[i + 1..], |Total(d.blocks[..i])| + |d.blocks[i]|, fill)
  }

  lemma WrittenFound(c: Salvage, d: Doc, i: nat, post: seq<byte>, r: Report, fill: Option<byte>)
    requires DocOk(d) && i < |d.blocks| && Suits(c, d.cfg)
    ensures var file, q := Leading(d, i) + BlockOf(d, i) + post, |Leading(d, i)|;
            && HeaderAt(file, q).Success? && HeaderAt(file, q).value.storedSize as int == |d.jobs[i].payload|
            && DecodeAt(c, file, q, HeaderAt(file, q).value).Success?
  {
    hide BlockBytes, Leading, JobOk, JobsOk, DictOk, ValidConfig, Total, Suits, DecodeAt, ParseBlock, BlockHeaderFor, BlockSize, ScanAt;
    BlockFacts(d, i, 0);
    var b, q, off := BlockOf(d, i), |Leading(d, i)|, |Total(d.blocks[..i])|;
    BlockLength(d.cfg, d.blocks[i], off, d.jobs[i]);
    WrittenHeader(d.cfg, d.blocks[i], off, d.jobs[i], []);
    FieldsOfBlock(d.cfg, d.blocks[i], off, d.jobs[i]);
    assert b + [] == b;
    var file := Leading(d, i) + b + post;
    assert file[q..q + BLOCK_HEADER_SIZE] == b[..BLOCK_HEADER_SIZE];
    SameHeaderCut(b);
    FindsBlock(c, d.cfg, d.blocks[i], off, d.jobs[i], Leading(d, i), post, START, fill);
    FoundMeans(c, file, q, START, fill);
  }

  lemma SameHeaderCut(b: seq<byte>)
    requires |b| >= BLOCK_HEADER_SIZE
    ensures ParseBlock(b[..BLOCK_HEADER_SIZE]) == ParseBlock(b)
  {
    hide Crc32c.Crc, Plausible;
    var a := b[..BLOCK_HEADER_SIZE];
    assert a[..20] == b[..20];
  }

  /** The scan skips further than a header only over a block that decodes. */
  lemma FoundMeans(c: Salvage, file: seq<byte>, q: nat, r: Report, fill: Option<byte>)
    requires q + BLOCK_HEADER_SIZE <= |file| && HeaderAt(file, q).Success?
    requires ScanAt(c, file, q, r, fill).0.ok > r.ok
    ensures DecodeAt(c, file, q, HeaderAt(file, q).value).Success?
  {
    hide ParseBlock, DecodeAt;
  }

  lemma SpoiltStep(d: Doc, c: Salvage, i: nat, t: seq<byte>, post: seq<byte>, r: Report, fill: Option<byte>, p: nat)
    requires DocOk(d) && i < |d.blocks| && Suits(c, d.cfg) && d.cfg.checksum == Crc32cSum
    requires var e := BLOCK_HEADER_SIZE + |d.jobs[i].payload|;
             Inside(BlockOf(d, i), t, BLOCK_HEADER_SIZE, e) && Burst(d.jobs[i].payload, t[BLOCK_HEADER_SIZE..e], p)
    ensures var file, q := Leading(d, i) + t + post, |Leading(d, i)|;
            q + BLOCK_HEADER_SIZE <= |file| && ScanAt(c, file, q, r, fill) == (Spoilt(r), q + BLOCK_HEADER_SIZE)
  {
    hide BlockOf, Leading, JobOk, JobsOk, DictOk, ValidConfig, Total, Suits, DecodeAt, HeaderAt, ScanAt, Burst, BlockSize, Spoilt, Inside;
    PayloadOf(d, i);
    WrittenFound(c, d, i, post, r, fill);
    SuitsChecksum(c, d.cfg);
    var pre, b, n := Leading(d, i), BlockOf(d, i), |d.jobs[i].payload|;
    Moved(pre, b, t, post, BLOCK_HEADER_SIZE, BLOCK_HEADER_SIZE + n);
    BurstSpoils(c, pre + b + post, pre + t + post, |pre|, HeaderAt(pre + b + post, |pre|).value, r, fill, p);
  }

  lemma PayloadOf(d: Doc, i: nat)
    requires DocOk(d) && i < |d.blocks|
    ensures var b, n := BlockOf(d, i), BLOCK_HEADER_SIZE + |d.jobs[i].payload|; n <= |b| && b[BLOCK_HEADER_SIZE..n] == d.jobs[i].payload
  {
    hide BlockBytes, JobOk, JobsOk, DictOk, ValidConfig, Total;
    BlockFacts(d, i, 0);
    WrittenSum(d.cfg, d.blocks[i], |Total(d.blocks[..i])|, d.jobs[i]);
    BlockLength(d.cfg, d.blocks[i], |Total(d.blocks[..i])|, d.jobs[i]);
  }

  lemma SuitsChecksum(c: Salvage, cfg: Config)
    requires Suits(c, cfg)
    ensures c.checksum == cfg.checksum
  {}

  lemma Moved(pre: seq<byte>, b: seq<byte>, t: seq<byte>, post: seq<byte>, lo: nat, hi: nat)
    requires Inside(b, t, lo, hi)
    ensures hi <= |t| && Inside(pre + b + post, pre + t + post, |pre| + lo, |pre| + hi)
    ensures (pre + b + post)[|pre| + lo..|pre| + hi] == b[lo..hi] && (pre + t + post)[|pre| + lo..|pre| + hi] == t[lo..hi]
  {
    var x, y := pre + b + post, pre + t + post;
    assert x[..|pre| + lo] == pre + b[..lo] && y[..|pre| + lo] == pre + t[..lo];
    assert x[|pre| + hi..] == b[hi..] + post && y[|pre| + hi..] == t[hi..] + post;
  }

  lemma ScansLeading(d: Doc, c: Salvage, i: nat, s: seq<byte>, fill: Option<byte>)
    requires DocOk(d) && i <= |d.blocks| && d.cfg.dict == [] && Suits(c, d.cfg)
    ensures Scan(c, Leading(d, i) + s, FILE_HEADER_SIZE, START, fill)
            == Scan(c, Leading(d, i) + s, |Leading(d, i)|, Recovered(START, d.blocks[..i], 0, fill), fill)
  {
    hide Scan, Suits, JobsOk, DictOk, StoreHeader, HeaderFor, Body, Total, Recovered, ValidConfig;
    LeadingFits(d, i);
    JobsBefore(d, i);
    var h, body := StoreHeader(HeaderFor(d.cfg, d.hint)), Body(d.cfg, d.blocks[..i], d.jobs[..i], 0);
    assert h + [] == h;
    assert Leading(d, i) + s == h + body + s;
    hide Leading;
    ScansBlocks(c, d.cfg, d.blocks[..i], d.jobs[..i], 0, h, s, START, fill);
  }

  lemma ScansFollowing(d: Doc, c: Salvage, i: nat, pre: seq<byte>, s: seq<byte>, r: Report, fill: Option<byte>)
    requires DocOk(d) && i < |d.blocks| && Suits(c, d.cfg)
    ensures Scan(c, pre + Following(d, i) + s, |pre|, r, fill)
            == Scan(c, pre + Following(d, i) + s, |pre| + |Following(d, i)|,
                    Recovered(r, d.blocks[i + 1..], |Total(d.blocks[..i])| + |d.blocks[i]|, fill), fill)
  {
    hide Scan, Suits, JobOk, DictOk, Body, Total, Recovered, ValidConfig;
    TrailingFits(d, i);
    JobsBehind(d, i);
    ScansBlocks(c, d.cfg, d.blocks[i + 1..], d.jobs[i + 1..], |Total(d.blocks[..i])| + |d.blocks[i]|, pre, s, r, fill);
  }

  lemma JobsBehind(d: Doc, i: nat)
    requires DocOk(d) && i < |d.blocks|
    ensures JobsOk(d.cfg, d.blocks[i + 1..], d.jobs[i + 1..])
  {
    hide JobOk, DictOk, ValidConfig, Total;
  }

  /** A file with a burst in the payload of block `i`, under CRC-32C, of which nothing behind that block's header
      looks like a header itself: behind the blocks every other block has been found in its place and this one has
      been counted as bad. */
  lemma OneBlockLost(d: Doc, c: Salvage, i: nat, file: seq<byte>, fill: Option<byte>, p: nat)
    requires DocOk(d) && FileFits(d) && i < |d.blocks| && d.cfg.dict == [] && Suits(c, d.cfg)
    requires d.cfg.checksum == Crc32cSum && PayloadBurst(d, i, file, p)
    requires var at := DocEntries(d)[i].fileOffset; Quiet(file, at + BLOCK_HEADER_SIZE, at + BlockLen(d.cfg, d.jobs[i]))
    ensures var behind := |MainBytes(d)| - RECORD_HEADER_SIZE;
            behind >= 0 && Scan(c, file, FILE_HEADER_SIZE, START, fill) == Scan(c, file, behind, WithoutBlock(d, i, fill), fill)
  {
    hide FileBytes, BlockBytes, Total, JobOk, JobsOk, DictOk, ValidConfig, Burst, Scan, ScanAt, Quiet, Recovered, Suits,
         DocEntries, Leading, Following, MainBytes, TailBytes, EobBytes, Inside, Spoilt, BlockLen;
    var n, m := |d.jobs[i].payload|, BlockLen(d.cfg, d.jobs[i]);
    FileAround(d, i);
    BlockFacts(d, i, 0);
    BlockLength(d.cfg, d.blocks[i], |Total(d.blocks[..i])|, d.jobs[i]);
    LenIs(d.cfg, d.jobs[i]);
    var pre, post := Leading(d, i), Trailing(d, i);
    var t := PartChanged(pre, BlockOf(d, i), post, file, BLOCK_HEADER_SIZE, BLOCK_HEADER_SIZE + n);
    SameLength(BlockOf(d, i), t, BLOCK_HEADER_SIZE, BLOCK_HEADER_SIZE + n);
    assert pre + t + post == pre + (t + post);
    ScansLeading(d, c, i, t + post, fill);
    var r := Recovered(START, d.blocks[..i], 0, fill);
    SpoiltStep(d, c, i, t, post, r, fill, p);
    ScanGoesOn(c, file, |pre|, r, fill);
    PassesQuiet(c, file, |pre| + BLOCK_HEADER_SIZE, |pre| + m, Spoilt(r), fill);
    var tail := EobBytes() + TailBytes(d);
    assert pre + t + post == (pre + t) + Following(d, i) + tail;
    ScansFollowing(d, c, i, pre + t, tail, Spoilt(r), fill);
    BehindIs(d, i);
  }

  lemma LenIs(cfg: Config, j: Job)
    ensures BlockLen(cfg, j) >= BLOCK_HEADER_SIZE + |j.payload|
  {}

  lemma SameLength(b: seq<byte>, t: seq<byte>, lo: nat, hi: nat)
    requires Inside(b, t, lo, hi)
    ensures |b| == |t|
  {}

  lemma BehindIs(d: Doc, i: nat)
    requires FileFits(d) && i < |d.blocks|
    ensures |MainBytes(d)| == |Leading(d, i)| + |BlockOf(d, i)| + |Following(d, i)| + RECORD_HEADER_SIZE
  {
    hide Front, Body, BlockBytes, Total, TailBytes, ValidConfig, DocEntries, RecordBytes;
    FileAround(d, i);
    assert FileBytes(d) == MainBytes(d) + TailBytes(d);
    hide Leading, Following, BlockOf, MainBytes;
  }

  lemma {:induction false} RecoveredBehindGap(r: Report, blocks: seq<seq<byte>>, off: nat, fill: Option<byte>)
    requires off >= r.end && blocks != []
    ensures var r', gap := Recovered(r, blocks, off, fill), off - r.end;
            && r'.out == r.out + (if fill.Some? then Filling(gap, fill.value) else []) + Total(blocks)
            && r'.end == off + |Total(blocks)| && r'.ok == r.ok + |blocks| && r'.found == r.found + |blocks|
            && r'.bad == r.bad && r'.gapBytes == r.gapBytes + gap && r'.skipped == r.skipped
  {
    hide Filling;
    var r1 := Place(r, off, blocks[0], fill);
    RecoveredAll(r1, blocks[1..], fill);
    var f := if fill.Some? then Filling(off - r.end, fill.value) else [];
    assert r1.out == r.out + f + blocks[0];
    assert r.out + f + blocks[0] + Total(blocks[1..]) == r.out + f + Total(blocks);
  }

  /** That report: one bad block, all others good, the gap as long as the lost block, and the output the input with
      the gap filled or closed; when the last block is lost the output just ends early. */
  lemma LostReport(d: Doc, i: nat, fill: Option<byte>)
    requires i < |d.blocks|
    ensures var r, before, after := WithoutBlock(d, i, fill), Total(d.blocks[..i]), Total(d.blocks[i + 1..]);
            && r.found == |d.blocks| && r.bad == 1 && r.ok == |d.blocks| - 1 && r.skipped == 0
            && if i + 1 < |d.blocks| then
                 r.gapBytes == |d.blocks[i]| && r.end == |before| + |d.blocks[i]| + |after|
                 && r.out == before + (if fill.Some? then Filling(|d.blocks[i]|, fill.value) else []) + after
               else r.gapBytes == 0 && r.out == before && r.end == |before|
  {
    hide Filling, Recovered;
    RecoveredAll(START, d.blocks[..i], fill);
    assert [] + Total(d.blocks[..i]) == Total(d.blocks[..i]);
    var r := Spoilt(Recovered(START, d.blocks[..i], 0, fill));
    if i + 1 < |d.blocks| {
      RecoveredBehindGap(r, d.blocks[i + 1..], |Total(d.blocks[..i])| + |d.blocks[i]|, fill);
    } else {
      assert d.blocks[i + 1..] == [];
      NoneRecovered(r, |Total(d.blocks[..i])| + |d.blocks[i]|, fill);
    }
  }

  lemma NoneRecovered(r: Report, off: nat, fill: Option<byte>)
    ensures Recovered(r, [], off, fill) == r
  {}
}
