/** A shared dictionary sampled from the input: where its windows stand
    (src/core/xq_dict.c:33-73). */
module DictSample {
  import opened Bytes

  const WIN := 0x1_0000
  const KIND_PREFIX := 1
  const KIND_SAMPLED := 2

  function SampleCount(want: uint32): nat {
    Max(1, want as int / WIN)
  }

  /** Window `i` of `n`; the product is taken in 64 bits. */
  function SampleOffset(size: uint64, n: nat, i: nat): nat
    requires size >= WIN && n > 0
  {
    if n == 1 then 0 else (size as int - WIN) * i % U64_LIMIT / (n - 1)
  }

  /** The first `k` windows one after the other. */
  function Samples(file: seq<byte>, n: nat, k: nat): (r: seq<byte>)
    requires WIN <= |file| < U64_LIMIT && k <= n && n > 0
    ensures |r| == k * WIN
  {
    if k == 0 then []
    else
      OffsetInFile(|file|, n, k - 1);
      var off := SampleOffset(|file|, n, k - 1);
      Samples(file, n, k - 1) + file[off..off + WIN]
  }

  lemma DivMonotone(a: nat, b: nat, d: nat)
    requires a <= b && d > 0
    ensures a / d <= b / d
  {
    var p, q := a / d, b / d;
    assert a == d * p + a % d && b == d * q + b % d;
    if q < p {
      MulStep(d, q, p);
    }
  }

  lemma ExactQuotient(s: nat, d: nat)
    requires d > 0
    ensures s * d / d == s
  {
    DivUnique(s * d, d, s, 0);
  }

  /** Every window lies in the file, even where the product wraps round. */
  lemma OffsetInFile(size: uint64, n: nat, i: nat)
    requires size >= WIN && i < n
    ensures SampleOffset(size, n, i) + WIN <= size
  {
    if n > 1 {
      var span: nat := size as int - WIN;
      MulMonotone(span, i, n - 1);
      assert span * i % U64_LIMIT <= span * i;
      DivMonotone(span * i % U64_LIMIT, span * (n - 1), n - 1);
      ExactQuotient(span, n - 1);
    }
  }

  lemma QuotientStep(span: nat, i: nat, d: nat, w: nat)
    requires d > 0 && w * d <= span
    ensures span * i / d + w <= span * (i + 1) / d
  {
    assert span * (i + 1) == span * i + span;
    DivMonotone(span * i + w * d, span * (i + 1), d);
    ShiftedQuotient(span * i, w, d);
  }

  /** Without wrap-around the windows do not overlap. */
  lemma WindowsAreDisjoint(size: uint64, n: nat, i: nat)
    requires n * WIN <= size && i + 1 < n && (size as int - WIN) * (n - 1) < U64_LIMIT
    ensures SampleOffset(size, n, i) + WIN <= SampleOffset(size, n, i + 1)
  {
    OffsetIs(size, n, i);
    OffsetIs(size, n, i + 1);
    hide SampleOffset;
    QuotientStep(size as int - WIN, i, n - 1, WIN);
  }

  lemma OffsetIs(size: uint64, n: nat, i: nat)
    requires size >= WIN && i < n && n > 1 && (size as int - WIN) * (n - 1) < U64_LIMIT
    ensures SampleOffset(size, n, i) == (size as int - WIN) * i / (n - 1)
  {
    var span: nat := size as int - WIN;
    var p := span * i;
    MulMonotone(span, i, n - 1);
    NoWrap(p);
    assert p % U64_LIMIT / (n - 1) == p / (n - 1);
  }

  lemma NoWrap(v: nat)
    requires v < U64_LIMIT
    ensures v % U64_LIMIT == v
  {}

  lemma ShiftedQuotient(a: nat, k: nat, d: nat)
    requires d > 0
    ensures (a + k * d) / d == a / d + k
  {
    var q := a / d;
    assert d * (q + k) == d * q + k * d;
    DivUnique(a + k * d, d, q + k, a % d);
  }

  lemma SmallerQuotient(y: nat, span: nat, d: nat)
    requires d > 0 && y < span * d
    ensures y / d < span
  {
    var q := y / d;
    assert y == d * q + y % d;
    if q >= span {
      MulMonotone(d, span, q);
    }
  }

  lemma LastOffset(span: nat, d: nat)
    requires d > 0
    ensures span * d % U64_LIMIT / d == span <==> span * d < U64_LIMIT
  {
    if span * d < U64_LIMIT {
      NoWrap(span * d);
      ExactQuotient(span, d);
    } else {
      SmallerQuotient(span * d % U64_LIMIT, span, d);
    }
  }

  /** The first window starts the file; the last one ends it exactly when the product does not wrap. */
  lemma WindowsSpanFile(size: uint64, n: nat)
    requires n > 1 && n * WIN <= size
    ensures SampleOffset(size, n, 0) == 0
    ensures SampleOffset(size, n, n - 1) + WIN == size <==> (size as int - WIN) * (n - 1) < U64_LIMIT
  {
    var span: nat, d: nat := size as int - WIN, n - 1;
    DivUnique(0, d, 0, 0);
    assert span * 0 % U64_LIMIT == 0;
    LastOffset(span, d);
  }

  /** Seventeen windows over a file of 2^62 bytes: the last one does not reach the end. */
  lemma LastWindowCanFallShort()
    ensures SampleOffset(0x4000_0000_0000_0000, 17, 16) + WIN < 0x4000_0000_0000_0000
  {
    WindowsSpanFile(0x4000_0000_0000_0000, 17);
    OffsetInFile(0x4000_0000_0000_0000, 17, 16);
  }

  lemma NoSamples(file: seq<byte>, n: nat)
    requires WIN <= |file| < U64_LIMIT && n > 0
    ensures Samples(file, n, 0) == []
  {}

  lemma OneMoreSample(file: seq<byte>, n: nat, i: nat)
    requires WIN <= |file| < U64_LIMIT && i < n
    ensures var off := SampleOffset(|file|, n, i);
            off + WIN <= |file| && Samples(file, n, i + 1) == Samples(file, n, i) + file[off..off + WIN]
  {
    OffsetInFile(|file|, n, i);
    hide SampleOffset;
  }

  /** `xq_dict_build_sampled`: a small file's front, or windows spread over a large one. */
  method BuildSampled(file: seq<byte>, want: uint32) returns (kind: nat, bytes: seq<byte>)
    requires want > 0 && |file| < U64_LIMIT
    ensures var n := SampleCount(want);
            if |file| < n * WIN then kind == KIND_PREFIX && bytes == file[..Min(|file|, want)]
            else kind == KIND_SAMPLED && bytes == Samples(file, n, n)
  {
    var n := want as int / WIN;
    if n == 0 {
      n := 1;
    }
    if |file| < n * WIN {
      return KIND_PREFIX, file[..Min(|file|, want)];
    }
    assert n * WIN >= WIN;
    hide Samples;
    NoSamples(file, n);
    var buf := new byte[n * WIN];
    var span := |file| - WIN;
    var i := 0;
    while i < n
      invariant 0 <= i <= n && buf[..i * WIN] == Samples(file, n, i)
    {
      OffsetInFile(|file|, n, i);
      var off := if n == 1 then 0 else span * i % U64_LIMIT / (n - 1);
      assert off == SampleOffset(|file|, n, i);
      OneMoreSample(file, n, i);
      Read(buf, i * WIN, file[off..off + WIN]);
      i := i + 1;
    }
    assert buf[..n * WIN] == buf[..];
    return KIND_SAMPLED, buf[..];
  }

  method Read(buf: array<byte>, at: nat, piece: seq<byte>)
    requires at + |piece| <= buf.Length
    modifies buf
    ensures buf[..at + |piece|] == old(buf[..at]) + piece
  {
    forall k | 0 <= k < |piece| {
      buf[at + k] := piece[k];
    }
  }
}
