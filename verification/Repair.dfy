/** Salvaging a damaged file: the scan for block headers, and where the recovered bytes go
    (src/core/xq_repair.c:118-158, 193-276). */
module Repair {
  import opened Bytes
  import opened Format
  import opened Codec
  import opened Container
  import opened ContainerProof
  import opened FileSpec
  import Crc32c
  import Dispatch

  const SCAN_WINDOW := 0x10_0000

  /** What the scan knows from the header and the dictionary record. */
  datatype Salvage = Salvage(codec: CodecId, checksum: Checksum, maxRaw: nat, dict: Option<seq<byte>>)

  datatype Piece = Piece(off: nat, raw: seq<byte>)

  /** The report, the end of what has been written, and the pieces written so far. */
  datatype Report = Report(found: nat, ok: nat, bad: nat, skipped: nat, recovered: nat, gapBytes: nat, gaps: nat,
                           end: nat, out: seq<byte>, pieces: seq<Piece>)

  const START := Report(0, 0, 0, 0, 0, 0, 0, 0, [], [])

  function StagingCap(c: Salvage): nat {
    BLOCK_HEADER_SIZE + Bound(c.codec, c.maxRaw) + 8
  }

  function Extent(c: Salvage, h: BlockHeader): nat {
    BLOCK_HEADER_SIZE + h.storedSize as int + ChecksumSize(c.checksum)
  }

  /** `decode_at`. */
  ghost function DecodeAt(c: Salvage, file: seq<byte>, off: nat, h: BlockHeader): Result<seq<byte>> {
    var total, n := Extent(c, h), h.storedSize as int;
    if total > StagingCap(c) then Failure(ErrCorruptBlock)
    else if off + total > |file| then Failure(ErrTruncated)
    else
      var t := file[off + BLOCK_HEADER_SIZE..off + total];
      if t[n..] != ChecksumBytes(c.checksum, t[..n]) then Failure(ErrCorruptBlock)
      else
        match BlockRaw(Ctx(c.codec, c.checksum, c.maxRaw, 0, c.dict, 0), h, t[..n])
        case Failure(e) => Failure(e)
        case Success(raw) => if |raw| != h.rawSize then Failure(ErrCorruptBlock) else Success(raw)
  }

  function Filling(n: nat, b: byte): (r: seq<byte>)
    ensures |r| == n
  {
    seq(n, _ => b)
  }

  /** A good block: behind a gap, at the end of what is written, or before it. */
  function Place(r: Report, off: nat, raw: seq<byte>, fill: Option<byte>): Report {
    if off < r.end then r.(found := r.found + 1, ok := r.ok + 1, skipped := r.skipped + 1)
    else
      var gap := off - r.end;
      r.(found := r.found + 1, ok := r.ok + 1, recovered := r.recovered + |raw|, gapBytes := r.gapBytes + gap,
         gaps := r.gaps + if gap > 0 then 1 else 0, end := off + |raw|,
         out := r.out + (if fill.Some? then Filling(gap, fill.value) else []) + raw, pieces := r.pieces + [Piece(off, raw)])
  }

  function Spoilt(r: Report): Report {
    r.(found := r.found + 1, bad := r.bad + 1)
  }

  /** One position of the scan: the report after it and the next position. */
  ghost function ScanAt(c: Salvage, file: seq<byte>, p: nat, r: Report, fill: Option<byte>): (s: (Report, nat))
    requires p + BLOCK_HEADER_SIZE <= |file|
    ensures s.1 > p
  {
    match ParseBlock(file[p..p + BLOCK_HEADER_SIZE])
    case Failure(_) => (r, p + 1)
    case Success(h) =>
      match DecodeAt(c, file, p, h)
      case Failure(_) => (Spoilt(r), p + BLOCK_HEADER_SIZE)
      case Success(raw) => (Place(r, h.rawOffset as int, raw, fill), p + Extent(c, h))
  }

  /** The scan from position `p` on; positions only grow. */
  ghost function Scan(c: Salvage, file: seq<byte>, p: nat, r: Report, fill: Option<byte>): Report
    decreases |file| - p
  {
    if p + BLOCK_HEADER_SIZE > |file| then r
    else
      var (r', p') := ScanAt(c, file, p, r, fill);
      Scan(c, file, p', r', fill)
  }

  // ----- conservation and placement

  /** Pieces are increasing and disjoint, and end where the report says. */
  predicate Increasing(pieces: seq<Piece>, end: nat) {
    && (forall k :: 0 <= k < |pieces| ==> pieces[k].off + |pieces[k].raw| <= end)
    && (forall j, k :: 0 <= j < k < |pieces| ==> pieces[j].off + |pieces[j].raw| <= pieces[k].off)
  }

  /** Every piece stands at its own offset. */
  predicate Placed(out: seq<byte>, pieces: seq<Piece>) {
    forall k :: 0 <= k < |pieces| ==> pieces[k].off + |pieces[k].raw| <= |out| && out[pieces[k].off..pieces[k].off + |pieces[k].raw|] == pieces[k].raw
  }

  /** No piece covers position `q`. */
  predicate InGap(pieces: seq<Piece>, q: nat) {
    forall k :: 0 <= k < |pieces| ==> q < pieces[k].off || pieces[k].off + |pieces[k].raw| <= q
  }

  predicate GapsFilled(out: seq<byte>, pieces: seq<Piece>, b: byte) {
    forall q: nat {:trigger InGap(pieces, q)} :: q < |out| && InGap(pieces, q) ==> out[q] == b
  }

  function Contents(pieces: seq<Piece>): seq<byte> {
    if pieces == [] then [] else Contents(pieces[..|pieces| - 1]) + pieces[|pieces| - 1].raw
  }

  predicate Balanced(r: Report) {
    && r.found == r.ok + r.bad && r.ok == r.skipped + |r.pieces|
    && r.recovered + r.gapBytes == r.end && r.recovered == |Contents(r.pieces)|
    && Increasing(r.pieces, r.end)
  }

  ghost predicate Sound(r: Report, fill: Option<byte>) {
    && Balanced(r)
    && (if fill.Some? then |r.out| == r.end && Placed(r.out, r.pieces) && GapsFilled(r.out, r.pieces, fill.value) else r.out == Contents(r.pieces))
  }

  lemma StartIsSound(fill: Option<byte>)
    ensures Sound(START, fill)
  {
    NothingPlaced(fill);
    hide Placed, GapsFilled;
    assert START.out == [] && START.pieces == [];
    assert Contents([]) == [];
    assert Increasing([], 0);
    hide Increasing, Contents;
    assert Balanced(START);
  }

  lemma NothingPlaced(fill: Option<byte>)
    ensures Placed([], []) && (fill.Some? ==> GapsFilled([], [], fill.value))
  {}

  lemma SpoiltKeeps(r: Report, fill: Option<byte>)
    requires Sound(r, fill)
    ensures Sound(Spoilt(r), fill)
  {}

  lemma PlaceBalances(r: Report, off: nat, raw: seq<byte>, fill: Option<byte>)
    requires Balanced(r)
    ensures Balanced(Place(r, off, raw, fill))
    ensures off >= r.end ==> Contents(r.pieces + [Piece(off, raw)]) == Contents(r.pieces) + raw
  {
    if off >= r.end {
      assert (r.pieces + [Piece(off, raw)])[..|r.pieces|] == r.pieces;
    }
  }

  lemma PlacedMore(out: seq<byte>, gap: seq<byte>, raw: seq<byte>, pieces: seq<Piece>)
    requires Placed(out, pieces)
    ensures Placed(out + gap + raw, pieces + [Piece(|out + gap|, raw)])
  {
    var all, more := out + gap + raw, pieces + [Piece(|out + gap|, raw)];
    forall k | 0 <= k < |more|
      ensures more[k].off + |more[k].raw| <= |all| && all[more[k].off..more[k].off + |more[k].raw|] == more[k].raw
    {
      if k < |pieces| {
        var x := pieces[k];
        assert all[x.off..x.off + |x.raw|] == out[x.off..x.off + |x.raw|];
      }
    }
  }

  lemma GapsMore(out: seq<byte>, gap: seq<byte>, raw: seq<byte>, pieces: seq<Piece>, b: byte)
    requires GapsFilled(out, pieces, b) && forall i :: 0 <= i < |gap| ==> gap[i] == b
    ensures GapsFilled(out + gap + raw, pieces + [Piece(|out + gap|, raw)], b)
  {
    var all, more := out + gap + raw, pieces + [Piece(|out + gap|, raw)];
    forall q: nat {:trigger InGap(more, q)} | q < |all| && InGap(more, q)
      ensures all[q] == b
    {
      var last := more[|pieces|];
      assert forall k :: 0 <= k < |pieces| ==> more[k] == pieces[k];
      assert InGap(pieces, q);
    }
  }

  lemma PlaceFills(r: Report, off: nat, raw: seq<byte>, b: byte)
    requires Sound(r, Some(b)) && off >= r.end
    ensures var r' := Place(r, off, raw, Some(b));
            |r'.out| == r'.end && Placed(r'.out, r'.pieces) && GapsFilled(r'.out, r'.pieces, b)
  {
    hide Balanced, Placed, GapsFilled;
    var gap := Filling(off - r.end, b);
    PlacedMore(r.out, gap, raw, r.pieces);
    GapsMore(r.out, gap, raw, r.pieces, b);
  }

  lemma PlaceKeeps(r: Report, off: nat, raw: seq<byte>, fill: Option<byte>)
    requires Sound(r, fill)
    ensures Sound(Place(r, off, raw, fill), fill)
  {
    PlaceBalances(r, off, raw, fill);
    if fill.Some? && off >= r.end {
      PlaceFills(r, off, raw, fill.value);
    }
    hide Balanced, Placed, GapsFilled;
  }

  /** Whatever the bytes of the file: every header found is either good or bad, recovered and missing bytes
      add up to where the output ends, recovered ranges are increasing and disjoint, and with gap filling
      each stands at its own offset with the fill byte everywhere else. */
  lemma {:induction false} ScanIsSound(c: Salvage, file: seq<byte>, p: nat, r: Report, fill: Option<byte>)
    requires Sound(r, fill)
    ensures Sound(Scan(c, file, p, r, fill), fill)
    decreases |file| - p
  {
    hide Sound, DecodeAt, ParseBlock, Place, Spoilt;
    if p + BLOCK_HEADER_SIZE <= |file| {
      var s := ScanAt(c, file, p, r, fill);
      StepIsSound(c, file, p, r, fill);
      hide ScanAt;
      ScanIsSound(c, file, s.1, s.0, fill);
    }
  }

  lemma StepIsSound(c: Salvage, file: seq<byte>, p: nat, r: Report, fill: Option<byte>)
    requires Sound(r, fill) && p + BLOCK_HEADER_SIZE <= |file|
    ensures Sound(ScanAt(c, file, p, r, fill).0, fill)
  {
    hide Sound, DecodeAt, ParseBlock, Place, Spoilt;
    SpoiltKeeps(r, fill);
    var h := ParseBlock(file[p..p + BLOCK_HEADER_SIZE]);
    if h.Success? {
      var d := DecodeAt(c, file, p, h.value);
      if d.Success? {
        PlaceKeeps(r, h.value.rawOffset as int, d.value, fill);
      }
    }
  }

  // ----- the scan as the program runs it

  method DecodeBlockAt(c: Salvage, file: seq<byte>, off: nat, h: BlockHeader) returns (st: Status, raw: seq<byte>)
    ensures DecodeAt(c, file, off, h) == if st == XqOk then Success(raw) else Failure(st)
  {
    hide BlockRaw, ChecksumBytes, Bound;
    raw := [];
    var total, n := Extent(c, h), h.storedSize as int;
    if total > StagingCap(c) {
      return ErrCorruptBlock, raw;
    }
    if off + total > |file| {
      return ErrTruncated, raw;
    }
    var t := file[off + BLOCK_HEADER_SIZE..off + total];
    if t[n..] != ChecksumBytes(c.checksum, t[..n]) {
      return ErrCorruptBlock, raw;
    }
    st, raw := DecodePayload(c, h, t[..n]);
    if st == XqOk && |raw| != h.rawSize as int {
      st := ErrCorruptBlock;
    }
  }

  method DecodePayload(c: Salvage, h: BlockHeader, payload: seq<byte>) returns (st: Status, raw: seq<byte>)
    ensures BlockRaw(Ctx(c.codec, c.checksum, c.maxRaw, 0, c.dict, 0), h, payload) == if st == XqOk then Success(raw) else Failure(st)
  {
    hide DecompressIn;
    if StoredFlag(h.bflags) {
      return XqOk, payload;
    }
    var codec := CodecOf(h.codecId);
    if codec == None {
      return ErrUnsupportedCodec, [];
    }
    if DictFlag(h.bflags) && c.dict.None? {
      return ErrCorruptBlock, [];
    }
    var buf, n := new byte[c.maxRaw], 0;
    st, n := Dispatch.DecompressInto(c.codec, codec.value, buf, payload, if DictFlag(h.bflags) then c.dict.value else [], h.rawSize as int);
    raw := buf[..n];
  }

  lemma NoMagic(win: seq<byte>, i: nat)
    requires i + BLOCK_HEADER_SIZE <= |win| && Ld16(win, i) != BLOCK_MAGIC
    ensures ParseBlock(win[i..i + BLOCK_HEADER_SIZE]).Failure?
  {
    hide Crc32c.Crc, Plausible, ReadBlock;
    var s := win[i..i + BLOCK_HEADER_SIZE];
    assert s[0] == win[i] && s[1] == win[i + 1];
  }

  lemma SameWindow(file: seq<byte>, pos: nat, n: nat, i: nat)
    requires pos + n <= |file| && i + BLOCK_HEADER_SIZE <= n
    ensures file[pos..pos + n][i..i + BLOCK_HEADER_SIZE] == file[pos + i..pos + i + BLOCK_HEADER_SIZE]
  {
    var s, t := file[pos..pos + n][i..i + BLOCK_HEADER_SIZE], file[pos + i..pos + i + BLOCK_HEADER_SIZE];
    forall k | 0 <= k < BLOCK_HEADER_SIZE
      ensures s[k] == t[k]
    {}
  }

  /** The windowed scan visits exactly the positions of the plain one: no header is lost or seen twice at a
      window's edge. */
  method ScanFile(c: Salvage, file: seq<byte>, first: nat, fill: Option<byte>) returns (r: Report)
    ensures r == Scan(c, file, first, START, fill) && Sound(r, fill)
  {
    hide Scan, Sound;
    StartIsSound(fill);
    ScanIsSound(c, file, first, START, fill);
    ghost var goal := Scan(c, file, first, START, fill);
    r := START;
    var pos := first;
    while pos + BLOCK_HEADER_SIZE <= |file|
      invariant Scan(c, file, pos, r, fill) == goal
      decreases |file| - pos
    {
      var want := Min(SCAN_WINDOW, |file| - pos);
      var i;
      i, r := ScanWindow(c, file, pos, want, r, fill);
      var keep := BLOCK_HEADER_SIZE - 1;
      var step := if i > want - keep then i else want - keep;
      if step == 0 {
        step := 1;
      }
      pos := pos + step;
      if want < SCAN_WINDOW && pos + BLOCK_HEADER_SIZE > |file| {
        break;
      }
    }
    ScanEnds(c, file, pos, r, fill);
  }

  lemma ScanEnds(c: Salvage, file: seq<byte>, p: nat, r: Report, fill: Option<byte>)
    requires p + BLOCK_HEADER_SIZE > |file|
    ensures Scan(c, file, p, r, fill) == r
  {}

  lemma ScanGoesOn(c: Salvage, file: seq<byte>, p: nat, r: Report, fill: Option<byte>)
    requires p + BLOCK_HEADER_SIZE <= |file|
    ensures var s := ScanAt(c, file, p, r, fill); Scan(c, file, p, r, fill) == Scan(c, file, s.1, s.0, fill)
  {
    hide ScanAt;
  }

  method ScanWindow(c: Salvage, file: seq<byte>, pos: nat, want: nat, r0: Report, fill: Option<byte>) returns (i: nat, r: Report)
    requires BLOCK_HEADER_SIZE <= want && pos + want <= |file|
    ensures i + BLOCK_HEADER_SIZE > want && Scan(c, file, pos + i, r, fill) == Scan(c, file, pos, r0, fill)
  {
    hide Scan, ScanAt;
    ghost var goal := Scan(c, file, pos, r0, fill);
    var win := file[pos..pos + want];
    i, r := 0, r0;
    while i + BLOCK_HEADER_SIZE <= want
      invariant Scan(c, file, pos + i, r, fill) == goal
      decreases want - i
    {
      ScanGoesOn(c, file, pos + i, r, fill);
      SameWindow(file, pos, want, i);
      var next;
      r, next := ScanOne(c, file, win, pos, i, r, fill);
      i := next;
    }
  }

  method ScanOne(c: Salvage, file: seq<byte>, win: seq<byte>, pos: nat, i: nat, r0: Report, fill: Option<byte>) returns (r: Report, next: nat)
    requires i + BLOCK_HEADER_SIZE <= |win| && pos + i + BLOCK_HEADER_SIZE <= |file|
    requires win[i..i + BLOCK_HEADER_SIZE] == file[pos + i..pos + i + BLOCK_HEADER_SIZE]
    ensures (r, pos + next) == ScanAt(c, file, pos + i, r0, fill)
  {
    hide ParseBlock, DecodeAt, Place, Spoilt;
    r := r0;
    if Ld16(win, i) != BLOCK_MAGIC {
      NoMagic(win, i);
      return r, i + 1;
    }
    var h := ParseBlock(win[i..i + BLOCK_HEADER_SIZE]);
    if h.Failure? {
      return r, i + 1;
    }
    var st, raw := DecodeBlockAt(c, file, pos + i, h.value);
    if st != XqOk {
      return Spoilt(r), i + BLOCK_HEADER_SIZE;
    }
    return Place(r, h.value.rawOffset as int, raw, fill), i + Extent(c, h.value);
  }

  // ----- undamaged files

  predicate Suits(c: Salvage, cfg: Config) {
    c.codec == cfg.codec && c.checksum == cfg.checksum && c.maxRaw == BlockSize(cfg) && (cfg.dict != [] ==> c.dict == Some(cfg.dict))
  }

  lemma RawOfPayload(c: Salvage, cfg: Config, raw: seq<byte>, off: uint64, j: Job)
    requires ValidConfig(cfg) && JobOk(cfg, raw, j) && off as int + |raw| < U64_LIMIT && Suits(c, cfg)
    requires |raw| <= BLOCK_MAX && |j.payload| <= BLOCK_MAX
    ensures BlockRaw(Ctx(c.codec, c.checksum, c.maxRaw, 0, c.dict, 0), BlockHeaderFor(cfg, raw, off, j), j.payload) == Success(raw)
  {
    hide Decompress, BlockSize;
  }

  lemma WholeBlockAt(pre: seq<byte>, b: seq<byte>, post: seq<byte>)
    requires |b| >= BLOCK_HEADER_SIZE
    ensures var f := pre + b + post;
            f[|pre|..|pre| + BLOCK_HEADER_SIZE] == b[..BLOCK_HEADER_SIZE] && f[|pre| + BLOCK_HEADER_SIZE..|pre| + |b|] == b[BLOCK_HEADER_SIZE..]
  {}

  /** A block in its place is found and decoded. */
  lemma FindsBlock(c: Salvage, cfg: Config, raw: seq<byte>, off: uint64, j: Job, pre: seq<byte>, post: seq<byte>, r: Report, fill: Option<byte>)
    requires ValidConfig(cfg) && JobOk(cfg, raw, j) && off as int + |raw| < U64_LIMIT && Suits(c, cfg)
    requires |raw| <= BLOCK_MAX && |j.payload| <= BLOCK_MAX
    ensures var b := BlockBytes(cfg, raw, off, j);
            |b| >= BLOCK_HEADER_SIZE && ScanAt(c, pre + b + post, |pre|, r, fill) == (Place(r, off as int, raw, fill), |pre| + |b|)
  {
    hide JobOk, ValidConfig, BlockSize, Plausible, Decompress, BlockRaw, StoreBlock, BlockHeaderFor, ChecksumBytes,
         ParseBlock, Ld16, Bound, Place;
    var h := BlockHeaderFor(cfg, raw, off, j);
    var b := BlockBytes(cfg, raw, off, j);
    HeaderIsPlausible(cfg, raw, off, j);
    FieldsOfBlock(cfg, raw, off, j);
    RawOfPayload(c, cfg, raw, off, j);
    BlockCut(h, j.payload, cfg.checksum, []);
    assert b + [] == b;
    hide BlockBytes;
    WholeBlockAt(pre, b, post);
    HeaderParses(h, b[..BLOCK_HEADER_SIZE]);
    var t := b[BLOCK_HEADER_SIZE..];
    assert t[|j.payload|..] == t[|j.payload|..|j.payload| + ChecksumSize(cfg.checksum)];
    DecodesAt(c, pre + b + post, |pre|, h, t, raw);
  }

  lemma DecodesAt(c: Salvage, file: seq<byte>, p: nat, h: BlockHeader, t: seq<byte>, raw: seq<byte>)
    requires p + Extent(c, h) <= |file| && Extent(c, h) <= StagingCap(c) && file[p + BLOCK_HEADER_SIZE..p + Extent(c, h)] == t
    requires var n := h.storedSize as int;
             n <= |t| && t[n..] == ChecksumBytes(c.checksum, t[..n]) && h.rawSize as int == |raw|
             && BlockRaw(Ctx(c.codec, c.checksum, c.maxRaw, 0, c.dict, 0), h, t[..n]) == Success(raw)
    ensures DecodeAt(c, file, p, h) == Success(raw)
  {
    hide BlockRaw, ChecksumBytes, StagingCap;
  }

  /** The report once all blocks of a run have been found. */
  function Recovered(r: Report, blocks: seq<seq<byte>>, off: nat, fill: Option<byte>): Report
    decreases |blocks|
  {
    if blocks == [] then r else Recovered(Place(r, off, blocks[0], fill), blocks[1..], off + |blocks[0]|, fill)
  }

  lemma {:induction false} ScansBlocks(c: Salvage, cfg: Config, blocks: seq<seq<byte>>, jobs: seq<Job>, off: nat, pre: seq<byte>, post: seq<byte>, r: Report, fill: Option<byte>)
    requires JobsOk(cfg, blocks, jobs) && off + |Total(blocks)| < U64_LIMIT && Suits(c, cfg)
    requires forall i :: 0 <= i < |blocks| ==> |blocks[i]| <= BLOCK_MAX && |jobs[i].payload| <= BLOCK_MAX
    ensures var body := Body(cfg, blocks, jobs, off);
            Scan(c, pre + body + post, |pre|, r, fill) == Scan(c, pre + body + post, |pre| + |body|, Recovered(r, blocks, off, fill), fill)
    decreases |blocks|
  {
    hide JobOk, BlockBytes, Scan, ScanAt, Place, Suits, ValidConfig;
    if blocks != [] {
      var b := BlockBytes(cfg, blocks[0], off, jobs[0]);
      var rest := Body(cfg, blocks[1..], jobs[1..], off + |blocks[0]|);
      assert JobOk(cfg, blocks[0], jobs[0]);
      assert pre + Body(cfg, blocks, jobs, off) + post == pre + b + (rest + post);
      FindsBlock(c, cfg, blocks[0], off, jobs[0], pre, rest + post, r, fill);
      ScanGoesOn(c, pre + b + (rest + post), |pre|, r, fill);
      assert pre + b + (rest + post) == (pre + b) + rest + post;
      ScansBlocks(c, cfg, blocks[1..], jobs[1..], off + |blocks[0]|, pre + b, post, Place(r, off, blocks[0], fill), fill);
    }
  }

  lemma {:induction false} RecoveredAll(r: Report, blocks: seq<seq<byte>>, fill: Option<byte>)
    ensures var r' := Recovered(r, blocks, r.end, fill);
            && r'.out == r.out + Total(blocks) && r'.end == r.end + |Total(blocks)|
            && r'.ok == r.ok + |blocks| && r'.found == r.found + |blocks| && r'.bad == r.bad && r'.gapBytes == r.gapBytes && r'.skipped == r.skipped
    decreases |blocks|
  {
    if blocks == [] {
      assert r.out + Total([]) == r.out;
    } else {
      var r1 := Place(r, r.end, blocks[0], fill);
      assert r1.out == r.out + blocks[0];
      RecoveredAll(r1, blocks[1..], fill);
      assert r.out + blocks[0] + Total(blocks[1..]) == r.out + Total(blocks);
    }
  }

  /** No position from `p` on looks like a block header. */
  ghost predicate NoLookAlike(file: seq<byte>, p: nat) {
    forall q: nat {:trigger HeaderAt(file, q)} :: p <= q ==> HeaderAt(file, q).Failure?
  }

  function HeaderAt(file: seq<byte>, q: nat): Result<BlockHeader> {
    if q + BLOCK_HEADER_SIZE <= |file| then ParseBlock(file[q..q + BLOCK_HEADER_SIZE]) else Failure(ErrTruncated)
  }

  lemma {:induction false} NothingMore(c: Salvage, file: seq<byte>, p: nat, r: Report, fill: Option<byte>)
    requires NoLookAlike(file, p)
    ensures Scan(c, file, p, r, fill) == r
    decreases |file| - p
  {
    hide ParseBlock, DecodeAt, Place, Spoilt;
    if p + BLOCK_HEADER_SIZE <= |file| {
      assert HeaderAt(file, p).Failure?;
      NothingMore(c, file, p + 1, r, fill);
    }
  }

  lemma {:induction false} OutGrows(c: Salvage, file: seq<byte>, p: nat, r: Report, fill: Option<byte>)
    ensures r.out <= Scan(c, file, p, r, fill).out
    decreases |file| - p
  {
    hide ParseBlock, DecodeAt;
    if p + BLOCK_HEADER_SIZE <= |file| {
      var s := ScanAt(c, file, p, r, fill);
      assert r.out <= s.0.out;
      hide ScanAt;
      OutGrows(c, file, s.1, s.0, fill);
    }
  }

  lemma {:induction false} FoundGrows(c: Salvage, file: seq<byte>, p: nat, r: Report, fill: Option<byte>)
    ensures r.found <= Scan(c, file, p, r, fill).found
    decreases |file| - p
  {
    hide ParseBlock, DecodeAt;
    if p + BLOCK_HEADER_SIZE <= |file| {
      var s := ScanAt(c, file, p, r, fill);
      assert r.found <= s.0.found;
      hide ScanAt;
      FoundGrows(c, file, s.1, s.0, fill);
    }
  }

  /** The first look-alike is never stepped over. */
  lemma {:induction false} LookAlikeIsFound(c: Salvage, file: seq<byte>, p: nat, r: Report, fill: Option<byte>, q: nat)
    requires p <= q && HeaderAt(file, q).Success?
    ensures Scan(c, file, p, r, fill).found > r.found
    decreases |file| - p
  {
    hide ParseBlock, DecodeAt;
    var s := ScanAt(c, file, p, r, fill);
    if HeaderAt(file, p).Success? {
      assert s.0.found == r.found + 1;
      hide ScanAt;
      FoundGrows(c, file, s.1, s.0, fill);
    } else {
      assert s == (r, p + 1);
      hide ScanAt;
      LookAlikeIsFound(c, file, p + 1, r, fill, q);
    }
  }

  // ----- what else the scan can recover

  /** The positions at which the scan stops because the bytes there look like a block header. */
  ghost function Stops(c: Salvage, file: seq<byte>, p: nat): seq<nat>
    decreases |file| - p
  {
    if p + BLOCK_HEADER_SIZE > |file| then []
    else
      match HeaderAt(file, p)
      case Failure(_) => Stops(c, file, p + 1)
      case Success(h) => [p] + Stops(c, file, p + if DecodeAt(c, file, p, h).Success? then Extent(c, h) else BLOCK_HEADER_SIZE)
  }

  /** What stands at `q` decodes to a block that does not start before `end`. */
  ghost predicate Intrudes(c: Salvage, file: seq<byte>, q: nat, end: nat) {
    && HeaderAt(file, q).Success?
    && var h := HeaderAt(file, q).value; DecodeAt(c, file, q, h).Success? && h.rawOffset as int >= end
  }

  /** The scan's output grows exactly when it stops at an intruder. */
  lemma {:induction false} OutGrowsIff(c: Salvage, file: seq<byte>, p: nat, r: Report, fill: Option<byte>)
    ensures Scan(c, file, p, r, fill).out == r.out <==> forall q :: q in Stops(c, file, p) ==> !Intrudes(c, file, q, r.end)
    decreases |file| - p
  {
    hide ParseBlock, DecodeAt;
    if p + BLOCK_HEADER_SIZE <= |file| {
      var s := ScanAt(c, file, p, r, fill);
      if HeaderAt(file, p).Failure? {
        hide ScanAt, Place, Intrudes;
        OutGrowsIff(c, file, p + 1, r, fill);
      } else if Intrudes(c, file, p, r.end) {
        assert p in Stops(c, file, p);
        IntruderPlaced(c, file, p, r, fill);
        hide ScanAt, Place, Intrudes;
        OutGrows(c, file, s.1, s.0, fill);
      } else {
        assert s.0.out == r.out && s.0.end == r.end;
        assert Stops(c, file, p) == [p] + Stops(c, file, s.1);
        hide ScanAt, Place, Intrudes, Extent, HeaderAt;
        OutGrowsIff(c, file, s.1, s.0, fill);
        hide Stops;
        assert forall q :: q in Stops(c, file, p) <==> q == p || q in Stops(c, file, s.1);
      }
    }
  }

  lemma IntruderPlaced(c: Salvage, file: seq<byte>, p: nat, r: Report, fill: Option<byte>)
    requires p + BLOCK_HEADER_SIZE <= |file| && Intrudes(c, file, p, r.end)
    ensures |ScanAt(c, file, p, r, fill).0.out| > |r.out|
  {
    var h := HeaderAt(file, p).value;
    HeaderNotEmpty(file[p..p + BLOCK_HEADER_SIZE]);
    DecodedSize(c, file, p, h);
    hide ParseBlock, DecodeAt, Filling;
  }

  lemma HeaderNotEmpty(s: seq<byte>)
    ensures ParseBlock(s).Success? ==> ParseBlock(s).value.rawSize > 0
  {}

  lemma DecodedSize(c: Salvage, file: seq<byte>, p: nat, h: BlockHeader)
    requires DecodeAt(c, file, p, h).Success?
    ensures |DecodeAt(c, file, p, h).value| == h.rawSize as int
  {
    hide BlockRaw, ChecksumBytes, Bound;
  }

  ghost predicate Flawless(r: Report, d: Doc) {
    r.out == Total(d.blocks) && r.ok == r.found == |d.blocks| && r.bad == 0 && r.gapBytes == 0 && r.skipped == 0
  }

  lemma FitsIsSized(d: Doc)
    requires FileFits(d)
    ensures Sized(d) && |MainBytes(d)| >= RECORD_HEADER_SIZE
  {
    hide Front, Body, EobBytes, ValidConfig, Total;
  }

  lemma FlawlessMeans(r: Report, d: Doc)
    ensures Flawless(r, d) ==> r.out == Total(d.blocks) && r.found == |d.blocks|
  {
    hide Total;
  }

  /** Behind the blocks of an undamaged file, all of them have been recovered. */
  lemma BlocksAreRecovered(d: Doc, c: Salvage, fill: Option<byte>)
    requires DocOk(d) && FileFits(d) && d.cfg.dict == [] && Suits(c, d.cfg)
    ensures var mid := Recovered(START, d.blocks, 0, fill);
            var behind := |MainBytes(d)| - RECORD_HEADER_SIZE;
            && behind >= 0 && Scan(c, FileBytes(d), FILE_HEADER_SIZE, START, fill) == Scan(c, FileBytes(d), behind, mid, fill)
            && Flawless(mid, d) && mid.end == |Total(d.blocks)|
  {
    hide Scan, ScanAt, Suits, DictOk, StoreHeader, HeaderFor, EobBytes, TailBytes, JobOk, Body, Total, Recovered,
         ValidConfig;
    var pre := StoreHeader(HeaderFor(d.cfg, d.hint));
    var body := Body(d.cfg, d.blocks, d.jobs, 0);
    var post := EobBytes() + TailBytes(d);
    assert FileBytes(d) == pre + body + post;
    assert |MainBytes(d)| - RECORD_HEADER_SIZE == |pre| + |body|;
    ScansBlocks(c, d.cfg, d.blocks, d.jobs, 0, pre, post, START, fill);
    RecoveredAll(START, d.blocks, fill);
  }

  /** An undamaged file without a dictionary: the output starts with the original. It is the original exactly
      when, behind the blocks, the scan stops at nothing that decodes to a block from the original's end
      on; and the report is flawless too exactly when nothing there looks like a block header at all. */
  lemma UndamagedIsRestored(d: Doc, c: Salvage, fill: Option<byte>)
    requires DocOk(d) && FileFits(d) && d.cfg.dict == [] && Suits(c, d.cfg)
    ensures var r := Scan(c, FileBytes(d), FILE_HEADER_SIZE, START, fill);
            var behind := |MainBytes(d)| - RECORD_HEADER_SIZE;
            && behind >= 0 && Total(d.blocks) <= r.out
            && (r.out == Total(d.blocks) <==> forall q :: q in Stops(c, FileBytes(d), behind) ==> !Intrudes(c, FileBytes(d), q, |Total(d.blocks)|))
            && (Flawless(r, d) <==> NoLookAlike(FileBytes(d), behind))
  {
    hide *;
    FitsIsSized(d);
    BlocksAreRecovered(d, c, fill);
    var file, p, mid := FileBytes(d), |MainBytes(d)| - RECORD_HEADER_SIZE, Recovered(START, d.blocks, 0, fill);
    FlawlessMeans(mid, d);
    FlawlessMeans(Scan(c, file, p, mid, fill), d);
    OutGrows(c, file, p, mid, fill);
    OutGrowsIff(c, file, p, mid, fill);
    if NoLookAlike(file, p) {
      NothingMore(c, file, p, mid, fill);
    } else {
      var q := SomeLookAlike(file, p);
      LookAlikeIsFound(c, file, p, mid, fill, q);
    }
  }

  lemma SomeLookAlike(file: seq<byte>, p: nat) returns (q: nat)
    requires !NoLookAlike(file, p)
    ensures p <= q && HeaderAt(file, q).Success?
  {
    hide HeaderAt;
    q :| p <= q && HeaderAt(file, q).Success?;
  }
}
