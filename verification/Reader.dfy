/** The random-access reader as an object: the block cache, its counters, and reads across blocks
    (src/core/xq_reader.c:240-302, 378-438, 470-557). */
module Reader {
  import opened Bytes
  import opened Format
  import opened Codec
  import opened Container
  import opened Index
  import opened ReaderSpec
  import opened Lru
  import opened ContainerProof
  import opened FileSpec
  import opened ReaderProof
  import Crc32c
  import Dispatch
  import Words
  import Xxh64

  ghost predicate Good(v: View, e: CacheEntry)
    requires Formed(v)
  {
    e.block < v.blockCount && DecodeSlot(v, e.block) == Success(e.data)
  }

  /** Every occupied entry holds the decode of its block. */
  ghost predicate Coherent(v: View, cache: seq<CacheEntry>)
    requires Formed(v)
  {
    forall i :: 0 <= i < |cache| ==> cache[i].block == NO_BLOCK || Good(v, cache[i])
  }

  /** Coherent, ordered by use, and holding the most recently used blocks. */
  ghost predicate Consistent(v: View, cache: seq<CacheEntry>, clock: nat, order: seq<nat>, history: seq<nat>)
    requires Formed(v)
  {
    Coherent(v, cache) && Ordered(cache, clock, order) && Held(cache, order) == Take(Recent(history), |cache|)
  }

  lemma HitStep(v: View, cs: seq<CacheEntry>, clock: nat, order: seq<nat>, history: seq<nat>, i: nat) returns (order': seq<nat>)
    requires Formed(v) && Consistent(v, cs, clock, order, history) && i < |cs| && cs[i].block != NO_BLOCK
    ensures Consistent(v, Restamped(cs, i, clock + 1), clock + 1, order', history + [cs[i].block])
  {
    hide DecodeSlot, ValidIndex, Ordered, Held, Recent;
    var k := PlaceOf(cs, clock, order, i);
    HitOrders(cs, clock, order, k);
    HitHolds(cs, clock, order, k);
    HitRecent(cs, order, k, history);
    order' := ToFront(order, k);
    StillCoherent(v, cs, Restamped(cs, i, clock + 1), i);
  }

  lemma MissStep(v: View, cs: seq<CacheEntry>, clock: nat, order: seq<nat>, history: seq<nat>, victim: nat, bi: nat, data: seq<byte>) returns (order': seq<nat>)
    requires Formed(v) && Consistent(v, cs, clock, order, history) && Oldest(cs, victim) && Absent(cs, bi)
    requires bi < v.blockCount && DecodeSlot(v, bi) == Success(data)
    ensures Consistent(v, Replaced(cs, victim, bi, clock + 1, data), clock + 1, order', history + [bi])
  {
    hide DecodeSlot, ValidIndex, Ordered, Held, Recent;
    MissOrders(cs, clock, order, victim, bi, data);
    MissHolds(cs, clock, order, victim, bi, data);
    RecentOfTaken(history, bi, |cs|);
    order' := [victim] + Kept(order, victim);
    StillCoherent(v, cs, Replaced(cs, victim, bi, clock + 1, data), victim);
  }

  datatype Verdict = SumAbsent | SumOk | SumBad | SumSkipped

  datatype VerifyReport = VerifyReport(ok: nat, bad: nat, bytesVerified: nat, firstBad: Option<(uint64, Status)>, sum: Verdict)

  ghost predicate GoodBlock(v: View, i: nat)
    requires Formed(v)
  {
    i < v.blockCount && DecodeSlot(v, i).Success?
  }

  /** The first `i` blocks decode. */
  ghost predicate AllGood(v: View, i: nat)
    requires Formed(v)
  {
    forall j: nat {:trigger GoodBlock(v, j)} :: j < i ==> GoodBlock(v, j)
  }

  /** Block `i` is the first that does not decode. */
  ghost predicate FirstBad(v: View, i: nat)
    requires Formed(v)
  {
    i < v.blockCount && !GoodBlock(v, i) && AllGood(v, i)
  }

  predicate SumStored(v: View) {
    v.checksum != NoChecksum && v.footer.streamChecksum != 0
  }

  /** Where block `i` starts in the input, and why it does not decode. */
  ghost function Fault(v: View, i: nat): (uint64, Status)
    requires Formed(v) && i < v.blockCount && DecodeSlot(v, i).Failure?
  {
    (RawOf(v, i), DecodeSlot(v, i).error)
  }

  /** The report once block `i` has been looked at. */
  ghost function After(v: View, i: nat, rep: VerifyReport): VerifyReport
    requires Formed(v) && i < v.blockCount
  {
    match DecodeSlot(v, i)
    case Success(raw) => rep.(ok := rep.ok + 1, bytesVerified := rep.bytesVerified + |raw|)
    case Failure(e) => rep.(bad := rep.bad + 1, firstBad := if rep.firstBad == None then Some((RawOf(v, i), e)) else rep.firstBad)
  }

  /** How many of the first `i` blocks do not decode. */
  ghost function BadCount(v: View, i: nat): nat
    requires Formed(v) && i <= v.blockCount
  {
    if i == 0 then 0 else BadCount(v, i - 1) + if GoodBlock(v, i - 1) then 0 else 1
  }

  /** How many bytes those of them that do come to. */
  ghost function GoodBytes(v: View, i: nat): nat
    requires Formed(v) && i <= v.blockCount
  {
    if i == 0 then 0 else GoodBytes(v, i - 1) + if GoodBlock(v, i - 1) then |DecodeSlot(v, i - 1).value| else 0
  }

  /** The report after `i` blocks. */
  ghost predicate Tallied(v: View, i: nat, rep: VerifyReport)
    requires Formed(v)
  {
    && i <= v.blockCount && rep.ok + rep.bad == i
    && rep.bad == BadCount(v, i) && rep.bytesVerified == GoodBytes(v, i)
    && (rep.bad == 0 <==> AllGood(v, i))
    && (rep.bad == 0 <==> rep.firstBad == None)
    && (forall j: nat {:trigger FirstBad(v, j)} :: j < i && FirstBad(v, j) ==> rep.firstBad == Some(Fault(v, j)))
  }

  lemma AllGoodStep(v: View, i: nat)
    requires Formed(v)
    ensures AllGood(v, i + 1) <==> AllGood(v, i) && GoodBlock(v, i)
  {
    hide GoodBlock, Formed;
  }

  lemma TallyStep(v: View, i: nat, rep: VerifyReport)
    requires Formed(v) && Tallied(v, i, rep) && i < v.blockCount
    ensures Tallied(v, i + 1, After(v, i, rep))
  {
    hide DecodeSlot, Formed, RawOf, AllGood;
    AllGoodStep(v, i);
    var rep' := After(v, i, rep);
    forall j: nat {:trigger FirstBad(v, j)} | j < i + 1 && FirstBad(v, j)
      ensures rep'.firstBad == Some(Fault(v, j))
    {
      if j < i {
        assert rep.firstBad == Some(Fault(v, j));
      }
    }
  }

  class Reader {
    const v: View
    const cache: array<CacheEntry>
    const raw: array<byte>
    var clock: nat
    var hits: nat
    var misses: nat
    ghost var order: seq<nat>     // occupied entries, most recently used first
    ghost var history: seq<nat>   // blocks handed out so far

    ghost predicate Valid()
      reads this, cache
    {
      && Formed(v) && cache.Length > 0 && raw.Length == v.maxRaw
      && Consistent(v, cache[..], clock, order, history) && hits + misses == |history|
    }

    constructor (v: View, cacheBlocks: nat)
      requires Formed(v) && cacheBlocks > 0
      ensures Valid() && this.v == v && cache.Length == cacheBlocks && history == [] && fresh(cache) && fresh(raw)
    {
      this.v := v;
      cache := new CacheEntry[cacheBlocks](i => EMPTY_ENTRY);
      raw := new byte[v.maxRaw];
      clock, hits, misses, order, history := 0, 0, 0, [], [];
    }

    /** `decode_block_slot`, with this reader's buffer. */
    method DecodeBlock(bi: nat) returns (st: Status, data: seq<byte>)
      requires Formed(v) && raw.Length == v.maxRaw && bi < v.blockCount
      modifies raw
      ensures DecodeSlot(v, bi) == if st == XqOk then Success(data) else Failure(st)
    {
      hide ValidIndex, DecodeExtent, Bound;
      var at, next := FileAt(v.entries, bi) as int, FileAt(v.entries, bi + 1) as int;
      var extent := next - at;
      if extent < BLOCK_HEADER_SIZE || extent > SlotCap(v) {
        return ErrCorruptIndex, [];
      }
      if next > |v.file| {
        return ErrTruncated, [];
      }
      st, data := DecodeStaged(RawAt(v.entries, bi), v.file[at..next]);
    }

    method DecodeStaged(rawOffset: uint64, s: seq<byte>) returns (st: Status, data: seq<byte>)
      requires raw.Length == v.maxRaw && |s| >= BLOCK_HEADER_SIZE
      modifies raw
      ensures DecodeExtent(v, rawOffset, s) == if st == XqOk then Success(data) else Failure(st)
    {
      hide BlockRaw, ParseBlock, ChecksumBytes, Bound;
      data := [];
      var parsed := ParseBlock(s);
      if parsed.Failure? {
        NoOkError(s);
        return parsed.error, data;
      }
      var h := parsed.value;
      StoredFitsRaw(s, h);
      var n, k := h.storedSize as int, ChecksumSize(v.checksum);
      var t := s[BLOCK_HEADER_SIZE..];
      if h.rawOffset != rawOffset {
        return ErrCorruptBlock, data;
      }
      if h.rawSize > v.maxRaw {
        return ErrMemLimit, data;
      }
      if n + k != |t| {
        return ErrCorruptBlock, data;
      }
      if n > SlotCap(v) {
        return ErrCorruptBlock, data;
      }
      if t[n..] != ChecksumBytes(v.checksum, t[..n]) {
        return ErrCorruptBlock, data;
      }
      st, data := DecodePayload(h, t[..n]);
      if st == XqOk && |data| != h.rawSize as int {
        st := ErrCorruptBlock;
      }
    }

    lemma NoOkError(s: seq<byte>)
      ensures ParseBlock(s) != Failure(XqOk)
    {
      hide Crc32c.Crc, Ld16, Ld32, ReadBlock, Plausible;
    }

    lemma StoredFitsRaw(s: seq<byte>, h: BlockHeader)
      requires ParseBlock(s) == Success(h)
      ensures StoredFlag(h.bflags) ==> h.storedSize == h.rawSize
    {
      hide Crc32c.Crc, Ld16, Ld32, ReadBlock;
    }

    method DecodePayload(h: BlockHeader, payload: seq<byte>) returns (st: Status, data: seq<byte>)
      requires raw.Length == v.maxRaw && |payload| == h.storedSize as int && h.rawSize <= v.maxRaw
      requires StoredFlag(h.bflags) ==> h.storedSize == h.rawSize
      modifies raw
      ensures BlockRaw(Ctx(v.codec, v.checksum, v.maxRaw, 0, v.dict, 0), h, payload) == if st == XqOk then Success(data) else Failure(st)
    {
      hide DecompressIn;
      data := [];
      if StoredFlag(h.bflags) {
        return XqOk, payload;
      }
      var c := CodecOf(h.codecId);
      if c == None {
        return ErrUnsupportedCodec, data;
      }
      if DictFlag(h.bflags) && v.dict.None? {
        return ErrCorruptBlock, data;
      }
      var n;
      st, n := Dispatch.DecompressInto(v.codec, c.value, raw, payload, if DictFlag(h.bflags) then v.dict.value else [], h.rawSize as int);
      data := raw[..n];
    }

    /** The first entry with the block, or the cache's length. */
    method FindEntry(bi: nat) returns (i: nat)
      ensures i <= cache.Length && (i < cache.Length ==> cache[i].block == bi) && (i == cache.Length ==> Absent(cache[..], bi))
    {
      i := 0;
      while i < cache.Length
        invariant i <= cache.Length && forall j :: 0 <= j < i ==> cache[j].block != bi
      {
        if cache[i].block == bi {
          return;
        }
        i := i + 1;
      }
    }

    /** The entry with the smallest stamp. */
    method FindVictim() returns (victim: nat)
      requires cache.Length > 0
      ensures Oldest(cache[..], victim)
    {
      victim := 0;
      var i: nat := 1;
      while i < cache.Length
        invariant 1 <= i <= cache.Length && victim < cache.Length
        invariant forall j :: 0 <= j < i ==> cache[victim].used <= cache[j].used
      {
        if cache[i].used < cache[victim].used {
          victim := i;
        }
        i := i + 1;
      }
    }

    /** A hit: the entry becomes the most recently used. */
    method Hit(i: nat)
      requires Valid() && i < cache.Length && cache[i].block != NO_BLOCK
      modifies this`clock, this`hits, this`order, this`history, cache
      ensures Valid() && history == old(history) + [old(cache[i].block)] && hits == old(hits) + 1
      ensures cache[i].data == old(cache[i].data)
    {
      hide Consistent, Formed, DecodeSlot;
      ghost var cs, b := cache[..], cache[i].block;
      ghost var order' := HitStep(v, cs, clock, order, history, i);
      cache[i] := cache[i].(used := clock + 1);
      clock, hits := clock + 1, hits + 1;
      order, history := order', history + [b];
      assert cache[..] == Restamped(cs, i, clock);
    }

    /** `xq_reader_verify`: every block is decoded once; the stream checksum is compared only when all
        of them are good. */
    method Verify(ghost x: seq<byte>) returns (rep: VerifyReport)
      requires Formed(v) && raw.Length == v.maxRaw
      modifies raw
      ensures Tallied(v, v.blockCount, rep)
      ensures rep.sum == SumAbsent <==> !SumStored(v)
      ensures rep.sum == SumSkipped <==> SumStored(v) && rep.bad > 0
      ensures Serves(v, x) ==> rep.bad == 0 && rep.bytesVerified == |x| && (SumStored(v) ==> rep.sum == if Xxh64.Hash64(x) == v.footer.streamChecksum then SumOk else SumBad)
    {
      hide DecodeSlot, Formed, Serves, Tallied, VerifiedTo, Xxh64.Hash64, Xxh64.Hash, Words.ToU64;
      var ck := new Xxh64.State(0);
      rep := VerifyBlocks(ck, x);
      if Serves(v, x) {
        VerifiedAll(v, x, rep, ck.data);
      }
      if SumStored(v) {
        var h := ck.Final();
        JudgeIs(rep.bad, h, ck.data);
        SumLeavesTally(v, v.blockCount, rep, Judge(rep.bad, h));
        rep := rep.(sum := Judge(rep.bad, h));
      }
    }

    method VerifyBlocks(ck: Xxh64.State, ghost x: seq<byte>) returns (rep: VerifyReport)
      requires Formed(v) && raw.Length == v.maxRaw && ck.Valid() && ck.data == []
      modifies raw, ck
      ensures ck.Valid() && Tallied(v, v.blockCount, rep) && rep.sum == SumAbsent
      ensures Serves(v, x) ==> VerifiedTo(v, x, v.blockCount, rep, ck.data)
    {
      hide DecodeSlot, Formed, Serves, Tallied, VerifiedTo;
      rep := VerifyReport(0, 0, 0, None, SumAbsent);
      var i: nat := 0;
      VerifiedNothing(v, x);
      while i < v.blockCount
        invariant i <= v.blockCount && rep.sum == SumAbsent && ck.Valid()
        invariant Tallied(v, i, rep)
        invariant Serves(v, x) ==> VerifiedTo(v, x, i, rep, ck.data)
      {
        rep := VerifyOne(i, ck, rep, x);
        i := i + 1;
      }
    }

    method VerifyOne(i: nat, ck: Xxh64.State, rep0: VerifyReport, ghost x: seq<byte>) returns (rep: VerifyReport)
      requires Formed(v) && raw.Length == v.maxRaw && i < v.blockCount && ck.Valid() && Tallied(v, i, rep0)
      requires Serves(v, x) ==> VerifiedTo(v, x, i, rep0, ck.data)
      modifies raw, ck
      ensures ck.Valid() && Tallied(v, i + 1, rep) && rep.sum == rep0.sum
      ensures Serves(v, x) ==> VerifiedTo(v, x, i + 1, rep, ck.data)
    {
      hide DecodeSlot, Formed, Serves, Tallied, VerifiedTo, RawOf;
      TallyStep(v, i, rep0);
      if Serves(v, x) {
        VerifiedMore(v, x, i, rep0, ck.data);
      }
      var st, data := DecodeBlock(i);
      if st == XqOk {
        rep := rep0.(ok := rep0.ok + 1, bytesVerified := rep0.bytesVerified + |data|);
        ck.Update(data);
      } else {
        rep := rep0.(bad := rep0.bad + 1, firstBad := if rep0.firstBad == None then Some((RawOf(v, i), st)) else rep0.firstBad);
      }
      assert rep == After(v, i, rep0);
      hide After;
    }

    lemma JudgeIs(bad: nat, h: bv64, data: seq<byte>)
      requires h == Xxh64.Hash(data, 0)
      ensures Judge(bad, h) == if bad > 0 then SumSkipped else if Xxh64.Hash64(data) == v.footer.streamChecksum then SumOk else SumBad
    {
      hide Xxh64.Hash, Words.ToU64;
    }

    function Judge(bad: nat, h: bv64): Verdict {
      if bad > 0 then SumSkipped else if Words.ToU64(h) == v.footer.streamChecksum then SumOk else SumBad
    }

    /** A miss: the block replaces the least recently used one. */
    method Miss(bi: nat, data: seq<byte>) returns (victim: nat)
      requires Valid() && bi < v.blockCount && DecodeSlot(v, bi) == Success(data) && Absent(cache[..], bi)
      modifies this`clock, this`misses, this`order, this`history, cache
      ensures Valid() && history == old(history) + [bi] && misses == old(misses) + 1
      ensures victim < cache.Length && cache[victim].data == data
    {
      hide Consistent, Formed, DecodeSlot;
      victim := FindVictim();
      ghost var cs := cache[..];
      ghost var order' := MissStep(v, cs, clock, order, history, victim, bi, data);
      cache[victim] := CacheEntry(bi, clock + 1, data);
      clock, misses := clock + 1, misses + 1;
      order, history := order', history + [bi];
      assert cache[..] == Replaced(cs, victim, bi, clock, data);
    }

    /** `block_copy` by one thread at a time: the block's own bytes, from the cache or decoded into it. */
    method BlockCopy(bi: nat, within: nat, take: nat) returns (st: Status, blen: nat, out: seq<byte>)
      requires Valid() && bi < v.blockCount
      modifies this`clock, this`hits, this`misses, this`order, this`history, cache, raw
      ensures Valid()
      ensures DecodeSlot(v, bi).Success? ==> st == XqOk && blen == |DecodeSlot(v, bi).value| && out == Part(DecodeSlot(v, bi).value, within, take)
      ensures DecodeSlot(v, bi).Success? ==> history == old(history) + [bi]
      ensures DecodeSlot(v, bi).Failure? ==> st != XqOk && DecodeSlot(v, bi) == Failure(st) && history == old(history) && cache[..] == old(cache[..])
      ensures hits > old(hits) <==> !Absent(old(cache[..]), bi)
    {
      hide DecodeSlot, ValidIndex;
      var i := FindEntry(bi);
      if i < cache.Length {
        assert Good(v, cache[..][i]);
        assert cache[..][i].block == bi;
        Hit(i);
        return XqOk, |cache[i].data|, Part(cache[i].data, within, take);
      }
      var data;
      st, data := DecodeBlock(bi);
      if st != XqOk {
        return st, 0, [];
      }
      var victim := Miss(bi, data);
      blen, out := |data|, Part(cache[victim].data, within, take);
    }

    /** `xq_reader_pread`, whatever the file and whatever the cache held before: the bytes asked for, block by
        block, or the first block's error on the way. */
    method Pread(n: nat, off: uint64) returns (st: Status, out: seq<byte>)
      requires Valid()
      modifies this`clock, this`hits, this`misses, this`order, this`history, cache, raw
      ensures Valid()
      ensures var r := PreadOf(v, n, off as int); if st == XqOk then r == Success(out) else r == Failure(st)
    {
      hide Consistent, Formed, ReadFrom;
      out := [];
      if n == 0 || off >= v.rawSize {
        return XqOk, out;
      }
      var want := Min(n, v.rawSize as int - off as int);
      Ahead(v, off as int, want, []);
      while |out| < want
        invariant Valid() && |out| <= want <= v.rawSize as int - off as int
        invariant ReadFrom(v, off as int, want) == Joined(out, ReadFrom(v, off as int + |out|, want - |out|))
        decreases want - |out|
      {
        var got;
        st, got := PreadSome(off as int + |out|, want - |out|);
        if st != XqOk {
          return;
        }
        JoinMore(out, got, ReadFrom(v, off as int + |out| + |got|, want - |out| - |got|));
        out := out + got;
      }
      Ahead(v, off as int + |out|, 0, out);
      st := XqOk;
    }

    /** One round: the rest of the block that holds `at`, at most `take` bytes. */
    method PreadSome(at: uint64, take: nat) returns (st: Status, got: seq<byte>)
      requires Valid() && take > 0 && at as int + take <= v.rawSize as int
      modifies this`clock, this`hits, this`misses, this`order, this`history, cache, raw
      ensures Valid()
      ensures if st == XqOk then 0 < |got| <= take && ReadFrom(v, at as int, take) == Joined(got, ReadFrom(v, at as int + |got|, take - |got|))
              else ReadFrom(v, at as int, take) == Failure(st)
    {
      hide Consistent, DecodeSlot, ValidIndex, Part, ReadFrom;
      got := [];
      IndexEnds(v);
      var bi := Find(v.entries, v.blockCount + 1, at);
      if bi < 0 {
        return ErrCorruptIndex, got;
      }
      OneBlock(v, bi, at as int);
      var within := at as int - RawOf(v, bi) as int;
      ReadsOn(v, at as int, take);
      var blen;
      st, blen, got := BlockCopy(bi, within, take);
      if st != XqOk {
        return;
      }
      if within >= blen {
        return ErrCorruptBlock, got;
      }
      PartSize(DecodeSlot(v, bi), within, take);
    }
  }

  /** What has been read, and what reading on gives. */
  ghost function Joined(out: seq<byte>, r: Result<seq<byte>>): Result<seq<byte>> {
    match r
    case Failure(e) => Failure(e)
    case Success(more) => Success(out + more)
  }

  lemma JoinMore(out: seq<byte>, got: seq<byte>, r: Result<seq<byte>>)
    ensures Joined(out, Joined(got, r)) == Joined(out + got, r)
  {
    if r.Success? {
      assert out + (got + r.value) == out + got + r.value;
    }
  }

  lemma Ahead(v: View, at: nat, want: nat, out: seq<byte>)
    requires Formed(v) && at + want <= v.rawSize as int
    ensures Joined([], ReadFrom(v, at, want)) == ReadFrom(v, at, want)
    ensures want == 0 ==> Joined(out, ReadFrom(v, at, want)) == Success(out)
  {
    var r := ReadFrom(v, at, want);
    if r.Success? {
      assert [] + r.value == r.value;
    }
    if want == 0 {
      assert out + [] == out;
    }
  }

  lemma OneBlock(v: View, bi: nat, at: nat)
    requires Formed(v) && HoldsAt(v, bi, at) && at < v.rawSize as int
    ensures BlockAt(v, at) == bi
  {
    hide ValidIndex;
    OneBlockHolds(v.entries, v.blockCount, v.rawSize, |v.file|, at, bi, BlockAt(v, at));
  }

  lemma ReadsOn(v: View, at: nat, take: nat)
    requires Formed(v) && take > 0 && at + take <= v.rawSize as int
    ensures var bi := BlockAt(v, at);
            var within := at - RawOf(v, bi) as int;
            match DecodeSlot(v, bi)
            case Failure(e) => ReadFrom(v, at, take) == Failure(e)
            case Success(data) =>
              if within >= |data| then ReadFrom(v, at, take) == Failure(ErrCorruptBlock)
              else var got := Part(data, within, take);
                   |got| <= take && ReadFrom(v, at, take) == Joined(got, ReadFrom(v, at + |got|, take - |got|))
  {
    hide DecodeSlot, Formed, BlockAt, Part, RawOf;
    var bi := BlockAt(v, at);
    PartSize(DecodeSlot(v, bi), at - RawOf(v, bi) as int, take);
  }

  /** For a file whose blocks serve `x`, reads are exactly the bytes of `x`. */
  lemma {:induction false} ReadsInput(v: View, x: seq<byte>, at: nat, want: nat)
    requires Serves(v, x) && at + want <= |x|
    ensures ReadFrom(v, at, want) == Success(x[at..at + want])
    decreases want
  {
    hide DecodeSlot, Serves, Part, ReadFrom, RawOf;
    ServesFormed(v, x);
    if want == 0 {
      Ahead(v, at, 0, []);
      assert x[at..at + want] == [];
    } else {
      var bi := BlockAt(v, at);
      ReadsOn(v, at, want);
      RoundServes(v, x, bi, at, want);
      var got := Part(DecodeSlot(v, bi).value, at - RawOf(v, bi) as int, want);
      PartSize(DecodeSlot(v, bi), at - RawOf(v, bi) as int, want);
      ReadsInput(v, x, at + |got|, want - |got|);
      PartIsSlice(x, at, |got|);
      assert x[at..at + |got|] + x[at + |got|..at + want] == x[at..at + want];
    }
  }

  lemma ServesFormed(v: View, x: seq<byte>)
    requires Serves(v, x)
    ensures Formed(v) && v.rawSize as int == |x|
  {}

  lemma PartIsSlice(x: seq<byte>, at: nat, n: nat)
    requires at + n <= |x|
    ensures Part(x, at, n) == x[at..at + n]
  {}

  /** A whole call on such a file. */
  lemma PreadServes(v: View, x: seq<byte>, n: nat, off: nat)
    requires Serves(v, x)
    ensures Formed(v) && PreadOf(v, n, off) == Success(Part(x, off, n))
  {
    hide Formed, ServesBlock, ReadFrom;
    ServesFormed(v, x);
    if n > 0 && off < |x| {
      var want := Min(n, |x| - off);
      ReadsInput(v, x, off, want);
      assert Part(x, off, n) == x[off..off + want];
    } else {
      assert Part(x, off, n) == [];
    }
  }

  lemma PartSize(r: Result<seq<byte>>, within: nat, take: nat)
    requires take > 0
    ensures r.Success? && within < |r.value| ==> 0 < |Part(r.value, within, take)| <= take
  {}

  lemma RoundServes(v: View, x: seq<byte>, bi: nat, at: uint64, take: nat)
    requires Serves(v, x) && bi < v.blockCount && RawOf(v, bi) <= at < RawOf(v, bi + 1) && take > 0
    ensures var r, within := DecodeSlot(v, bi), at as int - RawOf(v, bi) as int;
            r.Success? && within < |r.value| && Part(r.value, within, take) == Part(x, at as int, |Part(r.value, within, take)|)
  {
    hide DecodeSlot, RawOf, Serves, Formed, Part, ServesBlock;
    BlockServes(v, x, bi);
    BlockPart(v, x, bi, at, take);
  }

  lemma BlockPart(v: View, x: seq<byte>, bi: nat, at: nat, take: nat)
    requires Formed(v) && HoldsAt(v, bi, at) && ServesBlock(v, x, bi) && take > 0
    ensures var r, within := DecodeSlot(v, bi), at - RawOf(v, bi) as int;
            && r.Success? && within < |r.value| && at + |Part(r.value, within, take)| <= RawOf(v, bi + 1) as int <= |x|
            && Part(r.value, within, take) == Part(x, at, |Part(r.value, within, take)|)
  {
    hide DecodeSlot, RawOf, Formed, Part;
    PartOfSlice(x, RawOf(v, bi) as int, RawOf(v, bi + 1) as int, at - RawOf(v, bi) as int, take);
  }

  lemma SumLeavesTally(v: View, i: nat, rep: VerifyReport, sum: Verdict)
    requires Formed(v) && Tallied(v, i, rep)
    ensures Tallied(v, i, rep.(sum := sum))
  {
    hide DecodeSlot, Formed, Fault;
  }

  /** The first `i` blocks were good, and have been hashed and counted. */
  ghost predicate VerifiedTo(v: View, x: seq<byte>, i: nat, rep: VerifyReport, data: seq<byte>)
    requires Formed(v) && i <= v.blockCount
  {
    var a := RawOf(v, i) as int;
    rep.bad == 0 && a <= |x| && rep.bytesVerified == a && data == x[..a]
  }

  lemma VerifiedNothing(v: View, x: seq<byte>)
    requires Formed(v)
    ensures VerifiedTo(v, x, 0, VerifyReport(0, 0, 0, None, SumAbsent), []) && Tallied(v, 0, VerifyReport(0, 0, 0, None, SumAbsent))
  {
    hide RawAt, FileAt, FollowsAt, DecodeSlot;
  }

  lemma VerifiedMore(v: View, x: seq<byte>, i: nat, rep: VerifyReport, data: seq<byte>)
    requires Serves(v, x) && i < v.blockCount && VerifiedTo(v, x, i, rep, data)
    ensures DecodeSlot(v, i).Success? && VerifiedTo(v, x, i + 1, After(v, i, rep), data + DecodeSlot(v, i).value)
  {
    hide DecodeSlot, RawOf, Formed, Serves;
    BlockServes(v, x, i);
    var a, b := RawOf(v, i) as int, RawOf(v, i + 1) as int;
    assert x[..a] + x[a..b] == x[..b];
  }

  lemma VerifiedAll(v: View, x: seq<byte>, rep: VerifyReport, data: seq<byte>)
    requires Serves(v, x) && VerifiedTo(v, x, v.blockCount, rep, data)
    ensures rep.bad == 0 && rep.bytesVerified == |x| && data == x
  {
    hide RawAt, FileAt, FollowsAt, ServesBlock;
  }

  lemma IndexEnds(v: View)
    requires Formed(v)
    ensures RawAt(v.entries, 0) == 0 && RawAt(v.entries, v.blockCount) == v.rawSize
  {
    hide RawAt, FileAt, FollowsAt;
  }

  lemma BlockServes(v: View, x: seq<byte>, i: nat)
    requires Serves(v, x) && i < v.blockCount
    ensures Formed(v) && ServesBlock(v, x, i)
  {}

  lemma PartOfSlice(x: seq<byte>, a: nat, b: nat, within: nat, take: nat)
    requires a <= b <= |x| && within < b - a && take > 0
    ensures var got := Part(x[a..b], within, take);
            0 < |got| <= take && a + within + |got| <= b && got == Part(x, a + within, |got|)
  {
    var hi := Min(within + take, b - a);
    var s, t := x[a..b][within..hi], x[a + within..a + hi];
    assert |s| == |t|;
    forall i | 0 <= i < |s|
      ensures s[i] == t[i]
    {}
  }

  lemma JoinParts(v: View, x: seq<byte>, off: nat, k: nat, got: seq<byte>)
    requires Serves(v, x) && off + k + |got| <= v.rawSize as int && got == Part(x, off + k, |got|)
    ensures Part(x, off, k) + got == Part(x, off, k + |got|)
  {
    hide Formed, ServesBlock;
  }

  lemma PlaceOf(cache: seq<CacheEntry>, clock: nat, order: seq<nat>, i: nat) returns (k: nat)
    requires Ordered(cache, clock, order) && i < |cache| && cache[i].block != NO_BLOCK
    ensures k < |order| && order[k] == i
  {
    assert i !in order ==> Vacant(cache, i);
    k :| 0 <= k < |order| && order[k] == i;
  }

  /** A hit reorders the blocks held; none is lost. */
  lemma HitRecent(cache: seq<CacheEntry>, order: seq<nat>, k: nat, history: seq<nat>)
    requires k < |order| && order[k] < |cache| && Held(cache, order) == Take(Recent(history), |cache|)
    ensures var b := cache[order[k]].block;
            [b] + Without(Held(cache, order), b) == Take(Recent(history + [b]), |cache|)
  {
    var b := cache[order[k]].block;
    var s := Held(cache, order);
    RecentOfTaken(history, b, |cache|);
    assert s[k] == b;
    WithoutShrinks(s, b);
  }

  lemma {:induction false} WithoutShrinks(s: seq<nat>, b: nat)
    requires b in s
    ensures |Without(s, b)| == |s| - 1
  {
    if s[0] != b {
      assert b in s[1..];
      WithoutShrinks(s[1..], b);
    }
  }

  lemma StillCoherent(v: View, cs: seq<CacheEntry>, cs': seq<CacheEntry>, i: nat)
    requires Formed(v) && Coherent(v, cs) && |cs'| == |cs| && i < |cs| && forall j :: 0 <= j < |cs| && j != i ==> cs'[j] == cs[j]
    requires Good(v, cs'[i]) || (cs[i].block == cs'[i].block && cs[i].data == cs'[i].data)
    ensures Coherent(v, cs')
  {
    hide DecodeSlot, ValidIndex;
    assert cs[i].block == NO_BLOCK || Good(v, cs[i]);
  }

  /** Random access to what the encoder wrote: opening the file and reading gives the input's own bytes,
      unless the input is empty, its index longer than a record may be, or a memory limit too small. */
  lemma EncodedServes(d: Doc, limit: nat)
    requires DocOk(d) && FileFits(d) && (d.hint == SIZE_UNKNOWN || d.hint == |Total(d.blocks)|)
    ensures var r := OpenReader(FileBytes(d), limit);
            if d.blocks == [] then r == Failure(ErrCorruptIndex)
            else if INDEX_PREAMBLE + INDEX_ENTRY_SIZE * (|d.blocks| + 1) > RECORD_MAX then r == Failure(ErrCorruptRecord)
            else if !ReaderFits(limit, d) then r == Failure(ErrMemLimit)
            else r.Success? && Serves(r.value, Total(d.blocks))
  {
    hide OpenReader, FileBytes, DocOk, FileFits, Total, Serves, ViewFor, ReaderFits;
    if d.blocks == [] {
      EmptyInputIsRefused(d, limit);
    } else if INDEX_PREAMBLE + INDEX_ENTRY_SIZE * (|d.blocks| + 1) <= RECORD_MAX {
      EncodedFileOpens(d, limit);
      EncodedFileServes(d);
    } else {
      LongIndexIsRefused(d, limit);
    }
  }

  /** Verifying what the encoder wrote finds every block good and the stream checksum right. A stored
      checksum that happens to be 0 counts as absent. */
  method VerifyEncoded(v: View, ghost d: Doc, ghost limit: nat) returns (rep: VerifyReport)
    requires DocOk(d) && FileFits(d) && (d.hint == SIZE_UNKNOWN || d.hint == |Total(d.blocks)|)
    requires OpenReader(FileBytes(d), limit) == Success(v)
    ensures rep.ok == |d.blocks| && rep.bad == 0 && rep.firstBad == None && rep.bytesVerified == |Total(d.blocks)|
    ensures rep.sum == if d.cfg.checksum == NoChecksum || Xxh64.Hash64(Total(d.blocks)) == 0 then SumAbsent else SumOk
  {
    hide OpenReader, FileBytes, DocOk, FileFits, Total, Serves, Formed, DecodeSlot, Xxh64.Hash64, BlockSize, ReaderFits;
    EncodedServes(d, limit);
    EncodedView(d, v, limit);
    var r := new Reader(v, 1);
    rep := r.Verify(Total(d.blocks));
  }

  lemma EncodedView(d: Doc, v: View, limit: nat)
    requires DocOk(d) && FileFits(d) && (d.hint == SIZE_UNKNOWN || d.hint == |Total(d.blocks)|)
    requires OpenReader(FileBytes(d), limit) == Success(v)
    ensures Formed(v) && v.blockCount == |d.blocks| && v.checksum == d.cfg.checksum && v.footer.streamChecksum == StreamSum(d.cfg, Total(d.blocks))
  {
    hide OpenReader, FileBytes, DocOk, FileFits, Total, Serves, Formed, DocEntries, EntriesBytes, MainBytes, DocIndex,
         StreamSum, BlockSize, DictFor, ReaderFits;
    EncodedServes(d, limit);
    EncodedFileOpens(d, limit);
    FileParts(d);
  }
}
