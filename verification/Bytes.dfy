/** Fixed-width values, powers of two and little-endian loads (src/common/xq_bits.h). */
module Bytes {

  type byte = x: int | 0 <= x < 0x100
  type uint32 = x: int | 0 <= x < 0x1_0000_0000
  type uint64 = x: int | 0 <= x < 0x1_0000_0000_0000_0000

  const U64_LIMIT: int := 0x1_0000_0000_0000_0000

  /** The statuses of `xq_status` that the modelled operations return. */
  datatype Status =
    | XqOk
    | ErrDstTooSmall
    | ErrMemLimit
    | ErrBadMagic
    | ErrUnsupportedVersion
    | ErrUnsupportedCodec
    | ErrUnsupportedFeature
    | ErrCorruptHeader
    | ErrCorruptRecord
    | ErrCorruptBlock
    | ErrCorruptIndex
    | ErrCorruptFooter
    | ErrTruncated
    | ErrInternal

  datatype Result<+T> = Success(value: T) | Failure(error: Status)

  datatype Option<+T> = None | Some(value: T)

  function Min(a: int, b: int): int { if a < b then a else b }

  function Max(a: int, b: int): int { if a > b then a else b }

  function Pow2(n: nat): (r: nat)
    ensures r > 0
  {
    if n == 0 then 1 else 2 * Pow2(n - 1)
  }

  lemma {:induction false} Pow2Add(a: nat, b: nat)
    ensures Pow2(a + b) == Pow2(a) * Pow2(b)
  {
    if a > 0 {
      Pow2Add(a - 1, b);
    }
  }

  lemma Pow2Next(b: nat)
    ensures Pow2(b + 1) == 2 * Pow2(b)
  {}

  lemma {:induction false} Pow2Monotone(a: nat, b: nat)
    requires a <= b
    ensures Pow2(a) <= Pow2(b)
  {
    if a < b {
      Pow2Monotone(a, b - 1);
    }
  }

  lemma Pow2Values()
    ensures Pow2(7) == 0x80 && Pow2(8) == 0x100 && Pow2(12) == 0x1000 && Pow2(15) == 0x8000
    ensures Pow2(16) == 0x1_0000
    ensures Pow2(32) == 0x1_0000_0000
    ensures Pow2(63) == 0x8000_0000_0000_0000
    ensures Pow2(64) == U64_LIMIT
  {
    assert Pow2(4) == 16;
    assert Pow2(7) == 0x80;
    assert Pow2(8) == 0x100;
    assert Pow2(12) == 0x1000;
    assert Pow2(15) == 0x8000;
    Pow2Add(8, 8);
    Pow2Add(16, 16);
    Pow2Add(32, 32);
  }

  /** `w << s` without truncation; recursive so that proofs about it stay linear. */
  function Shl(w: nat, s: nat): nat {
    if s == 0 then w else 2 * Shl(w, s - 1)
  }

  lemma {:induction false} ShlAdd(a: nat, b: nat, s: nat)
    ensures Shl(a + b, s) == Shl(a, s) + Shl(b, s)
  {
    if s > 0 {
      ShlAdd(a, b, s - 1);
    }
  }

  lemma {:induction false} ShlShl(w: nat, a: nat, s: nat)
    ensures Shl(Shl(w, a), s) == Shl(w, a + s)
  {
    if s > 0 {
      ShlShl(w, a, s - 1);
    }
  }

  lemma {:induction false} ShlMonotone(a: nat, b: nat, s: nat)
    requires a <= b
    ensures Shl(a, s) <= Shl(b, s)
  {
    if s > 0 {
      ShlMonotone(a, b, s - 1);
    }
  }

  lemma {:induction false} ShlOne(s: nat)
    ensures Shl(1, s) == Pow2(s)
  {
    if s > 0 {
      ShlOne(s - 1);
    }
  }

  lemma {:induction false} ShlIsProduct(w: nat, s: nat)
    ensures Shl(w, s) == w * Pow2(s)
  {
    if s > 0 {
      ShlIsProduct(w, s - 1);
    }
  }

  /** `v >> n`. */
  function Shr(v: nat, n: nat): nat {
    if n == 0 then v else Shr(v / 2, n - 1)
  }

  lemma {:induction false} ShrIsDivision(v: nat, n: nat)
    ensures Shr(v, n) == v / Pow2(n)
  {
    if n > 0 {
      ShrIsDivision(v / 2, n - 1);
      DivDiv(v, 2, Pow2(n - 1));
    }
  }

  lemma {:induction false} ShrBound(v: nat, n: nat, l: nat)
    requires v < Pow2(n) && l <= n
    ensures Shr(v, l) < Pow2(n - l)
  {
    if l > 0 {
      ShrBound(v / 2, n - 1, l - 1);
    }
  }

  /** `(x / a) / b` as one division. */
  lemma DivDiv(x: nat, a: nat, b: nat)
    requires a > 0 && b > 0
    ensures a * b > 0 && (x / a) / b == x / (a * b)
  {
    var q := x / a;
    var r := q / b;
    MulPositive(a, b);
    assert x == a * q + x % a;
    assert q == b * r + q % b;
    assert a * q == a * (b * r) + a * (q % b);
    assert a * (b * r) == (a * b) * r by { MulAssoc(a, b, r); }
    assert 0 <= a * (q % b) <= a * (b - 1) by { MulMonotone(a, q % b, b - 1); }
    assert a * (b - 1) == a * b - a;
    var s := a * (q % b) + x % a;
    assert x == (a * b) * r + s && 0 <= s < a * b;
    DivUnique(x, a * b, r, s);
  }

  lemma MulPositive(a: nat, b: nat)
    requires a > 0 && b > 0
    ensures a * b > 0
  {}

  lemma MulAssoc(a: int, b: int, c: int)
    ensures a * (b * c) == (a * b) * c
  {}

  lemma MulMonotone(a: nat, b: nat, c: nat)
    requires b <= c
    ensures a * b <= a * c
  {}

  lemma DivUnique(x: int, d: nat, q: int, r: int)
    requires d > 0 && x == d * q + r && 0 <= r < d
    ensures x / d == q && x % d == r
  {
    var q' := x / d;
    assert x == d * q' + x % d;
    if q' < q {
      MulStep(d, q', q);
    } else if q < q' {
      MulStep(d, q, q');
    }
  }

  lemma MulStep(d: nat, a: int, b: int)
    requires a < b
    ensures d * a + d <= d * b
  {
    var k := b - a;
    MulMonotone(d, 1, k);
    assert d * b == d * (a + k) == d * a + d * k;
  }

  function Ld32(s: seq<byte>, i: nat): (v: uint32)
    requires i + 4 <= |s|
  {
    s[i] as int + 0x100 * s[i + 1] as int + 0x1_0000 * s[i + 2] as int + 0x100_0000 * s[i + 3] as int
  }

  function Ld64(s: seq<byte>, i: nat): (v: uint64)
    requires i + 8 <= |s|
  {
    Ld32(s, i) as int + 0x1_0000_0000 * Ld32(s, i + 4) as int
  }

  /** Two little-endian loads agree exactly when the bytes under them do. */
  lemma LowDigit(a: byte, x: int, b: byte, y: int)
    requires a as int + 0x100 * x == b as int + 0x100 * y
    ensures a == b && x == y
  {}

  lemma Ld32Injective(s: seq<byte>, i: nat, t: seq<byte>, j: nat)
    requires i + 4 <= |s| && j + 4 <= |t|
    ensures Ld32(s, i) == Ld32(t, j) <==> s[i..i + 4] == t[j..j + 4]
  {
    if Ld32(s, i) == Ld32(t, j) {
      var x2, y2 := s[i + 2] as int + 0x100 * s[i + 3] as int, t[j + 2] as int + 0x100 * t[j + 3] as int;
      var x1, y1 := s[i + 1] as int + 0x100 * x2, t[j + 1] as int + 0x100 * y2;
      LowDigit(s[i], x1, t[j], y1);
      LowDigit(s[i + 1], x2, t[j + 1], y2);
      LowDigit(s[i + 2], s[i + 3] as int, t[j + 2], t[j + 3] as int);
    }
    if s[i..i + 4] == t[j..j + 4] {
      var a, b := s[i..i + 4], t[j..j + 4];
      assert a[0] == b[0] && a[1] == b[1] && a[2] == b[2] && a[3] == b[3];
    }
  }

  lemma Ld64Injective(s: seq<byte>, i: nat, t: seq<byte>, j: nat)
    requires i + 8 <= |s| && j + 8 <= |t|
    ensures Ld64(s, i) == Ld64(t, j) <==> s[i..i + 8] == t[j..j + 8]
  {
    Ld32Injective(s, i, t, j);
    Ld32Injective(s, i + 4, t, j + 4);
    assert s[i..i + 8] == s[i..i + 4] + s[i + 4..i + 8];
    assert t[j..j + 8] == t[j..j + 4] + t[j + 4..j + 8];
    if s[i..i + 8] == t[j..j + 8] {
      assert s[i..i + 4] == s[i..i + 8][..4] && t[j..j + 4] == t[j..j + 8][..4];
      assert s[i + 4..i + 8] == s[i..i + 8][4..] && t[j + 4..j + 8] == t[j..j + 8][4..];
    }
  }
}
