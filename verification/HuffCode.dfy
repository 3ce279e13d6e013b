/** Canonical prefix codes from a table of code lengths, the construction of section 3.2.2 of
    RFC 1951 (src/common/xq_huff.c:135-156, 180-220): when a table is complete, its codes are
    prefix-free and every bit string starts with one of them. */
module HuffCode {
  import opened Bytes

  type Bits = seq<bool>

  // ----- numbers and bits

  /** The value of a bit string read most significant bit first. */
  function Msb(b: Bits): nat {
    if b == [] then 0 else 2 * Msb(b[..|b| - 1]) + if b[|b| - 1] then 1 else 0
  }

  /** The value of a bit string read least significant bit first. */
  function Lsb(b: Bits): nat {
    if b == [] then 0 else (if b[0] then 1 else 0) + 2 * Lsb(b[1..])
  }

  /** The `n` low bits of `v`, most significant first. */
  function MsbBits(v: nat, n: nat): (b: Bits)
    ensures |b| == n
  {
    if n == 0 then [] else MsbBits(v / 2, n - 1) + [v % 2 == 1]
  }

  /** The `n` low bits of `v`, least significant first. */
  function LsbBits(v: nat, n: nat): (b: Bits)
    ensures |b| == n
  {
    if n == 0 then [] else [v % 2 == 1] + LsbBits(v / 2, n - 1)
  }

  lemma {:induction false} MsbBound(b: Bits)
    ensures Msb(b) < Pow2(|b|)
  {
    if b != [] {
      MsbBound(b[..|b| - 1]);
    }
  }

  lemma {:induction false} LsbBound(b: Bits)
    ensures Lsb(b) < Pow2(|b|)
  {
    if b != [] {
      LsbBound(b[1..]);
    }
  }

  lemma {:induction false} MsbOfBits(v: nat, n: nat)
    requires v < Pow2(n)
    ensures Msb(MsbBits(v, n)) == v
  {
    if n > 0 {
      MsbOfBits(v / 2, n - 1);
      assert MsbBits(v, n)[..n - 1] == MsbBits(v / 2, n - 1);
    }
  }

  lemma {:induction false} BitsOfMsb(b: Bits)
    ensures MsbBits(Msb(b), |b|) == b
  {
    if b != [] {
      BitsOfMsb(b[..|b| - 1]);
    }
  }

  lemma {:induction false} BitsOfLsb(b: Bits)
    ensures LsbBits(Lsb(b), |b|) == b
  {
    if b != [] {
      BitsOfLsb(b[1..]);
    }
  }

  lemma {:induction false} LsbOfBits(v: nat, n: nat)
    requires v < Pow2(n)
    ensures Lsb(LsbBits(v, n)) == v
  {
    if n > 0 {
      LsbOfBits(v / 2, n - 1);
      assert LsbBits(v, n)[1..] == LsbBits(v / 2, n - 1);
    }
  }

  /** A longer string's value lies in the interval its prefix opens. */
  lemma {:induction false} MsbPrefix(p: Bits, b: Bits)
    requires p <= b
    ensures Shl(Msb(p), |b| - |p|) <= Msb(b) < Shl(Msb(p) + 1, |b| - |p|)
    decreases |b|
  {
    if |b| > |p| {
      MsbPrefix(p, b[..|b| - 1]);
    } else {
      assert p == b;
    }
  }

  // ----- length tables

  function Count(lens: seq<nat>, b: nat): (r: nat)
    ensures r <= |lens|
  {
    if lens == [] then 0
    else Count(lens[..|lens| - 1], b) + if lens[|lens| - 1] == b && b > 0 then 1 else 0
  }

  /** First code of length `b`, plus how many there are: the codes up to length `b` fill `Filled`
      of the 2^b strings of that length. */
  function Filled(lens: seq<nat>, b: nat): nat {
    if b == 0 then 0 else 2 * Filled(lens, b - 1) + Count(lens, b)
  }

  function First(lens: seq<nat>, b: nat): nat
    requires b > 0
  {
    2 * Filled(lens, b - 1)
  }

  function Code(lens: seq<nat>, i: nat): nat
    requires i < |lens| && lens[i] > 0
  {
    First(lens, lens[i]) + Count(lens[..i], lens[i])
  }

  function CodeBits(lens: seq<nat>, i: nat): (b: Bits)
    requires i < |lens|
    ensures |b| == lens[i]
  {
    if lens[i] == 0 then [] else MsbBits(Code(lens, i), lens[i])
  }

  /** No symbol is longer than `m` bits, one has `m`, and the codes fill all strings of `m` bits. */
  ghost predicate Complete(lens: seq<nat>, m: nat) {
    && m > 0
    && (forall i :: 0 <= i < |lens| ==> lens[i] <= m)
    && (exists i :: 0 <= i < |lens| && lens[i] == m)
    && Filled(lens, m) == Pow2(m)
  }

  /** The one-symbol table: a single code `0`. */
  ghost predicate Single(lens: seq<nat>, s: nat) {
    && s < |lens| && lens[s] == 1
    && forall i :: 0 <= i < |lens| && i != s ==> lens[i] == 0
  }

  // ----- monotonicity of the fill

  lemma {:induction false} FilledGrows(lens: seq<nat>, a: nat, b: nat)
    requires a <= b
    ensures Shl(Filled(lens, a), b - a) <= Filled(lens, b)
  {
    if a < b {
      FilledGrows(lens, a, b - 1);
    }
  }

  /** An unfinished fill never overflows: what a complete table leaves free below is not negative. */
  lemma {:induction false} FilledFits(lens: seq<nat>, b: nat, m: nat)
    requires b <= m && Filled(lens, m) <= Pow2(m)
    ensures Filled(lens, b) <= Pow2(b)
    decreases m
  {
    if b < m {
      FilledFits(lens, b, m - 1);
    }
  }

  lemma {:induction false} CountMonotone(lens: seq<nat>, i: nat, j: nat, b: nat)
    requires i <= j <= |lens|
    ensures Count(lens[..i], b) <= Count(lens[..j], b)
    decreases j
  {
    if i < j {
      CountMonotone(lens, i, j - 1, b);
      assert lens[..j][..j - 1] == lens[..j - 1];
    }
  }

  /** Codes of one length are numbered upwards in symbol order, below the count. */
  lemma CountStep(lens: seq<nat>, i: nat, j: nat)
    requires i < j <= |lens| && lens[i] > 0
    ensures Count(lens[..i], lens[i]) < Count(lens[..j], lens[i])
  {
    CountMonotone(lens, i + 1, j, lens[i]);
    assert lens[..i + 1][..i] == lens[..i];
  }

  lemma CodeInRange(lens: seq<nat>, i: nat, m: nat)
    requires i < |lens| && 0 < lens[i] <= m && Filled(lens, m) <= Pow2(m)
    ensures First(lens, lens[i]) <= Code(lens, i) < Filled(lens, lens[i]) <= Pow2(lens[i])
  {
    CountStep(lens, i, |lens|);
    assert lens[..|lens|] == lens;
    FilledFits(lens, lens[i], m);
  }

  // ----- prefix-freedom

  /** A longer code lies behind every interval opened by shorter ones. */
  lemma LongerIsLater(lens: seq<nat>, i: nat, j: nat, m: nat)
    requires i < |lens| && j < |lens| && 0 < lens[i] < lens[j] <= m && Filled(lens, m) <= Pow2(m)
    ensures Shl(Code(lens, i) + 1, lens[j] - lens[i]) <= Code(lens, j)
  {
    hide Filled, Code, Count, Pow2;
    CodeInRange(lens, i, m);
    CodeInRange(lens, j, m);
    var a, b := lens[i], lens[j];
    FilledGrows(lens, a, b - 1);
    ShlMonotone(Code(lens, i) + 1, Filled(lens, a), b - 1 - a);
    assert Shl(Code(lens, i) + 1, b - a) == 2 * Shl(Code(lens, i) + 1, b - a - 1);
  }

  lemma PrefixFree(lens: seq<nat>, i: nat, j: nat, m: nat)
    requires i < |lens| && j < |lens| && i != j && lens[i] > 0 && lens[j] > 0
    requires (forall k :: 0 <= k < |lens| ==> lens[k] <= m) && Filled(lens, m) <= Pow2(m)
    ensures !(CodeBits(lens, i) <= CodeBits(lens, j))
  {
    hide Filled, Count, Code, Msb, MsbBits;
    CodeInRange(lens, i, m);
    CodeInRange(lens, j, m);
    var p, b := CodeBits(lens, i), CodeBits(lens, j);
    MsbOfBits(Code(lens, i), lens[i]);
    MsbOfBits(Code(lens, j), lens[j]);
    if p <= b {
      MsbPrefix(p, b);
      if lens[i] == lens[j] {
        DifferentCodes(lens, i, j);
      } else {
        LongerIsLater(lens, i, j, m);
      }
    }
  }

  lemma DifferentCodes(lens: seq<nat>, i: nat, j: nat)
    requires i < |lens| && j < |lens| && i != j && lens[i] == lens[j] > 0
    ensures Code(lens, i) != Code(lens, j)
  {
    if i < j {
      CountStep(lens, i, j);
    } else {
      CountStep(lens, j, i);
    }
  }

  // ----- completeness

  /** The `k`-th symbol of length `b`. */
  lemma {:induction false} NthSymbol(lens: seq<nat>, b: nat, k: nat) returns (i: nat)
    requires b > 0 && k < Count(lens, b)
    ensures i < |lens| && lens[i] == b && Count(lens[..i], b) == k
  {
    var n := |lens| - 1;
    if k < Count(lens[..n], b) {
      i := NthSymbol(lens[..n], b, k);
      assert lens[..n][..i] == lens[..i];
    } else {
      i := n;
    }
  }

  /** Scanning from the shortest length up, the first length at which a string's prefix falls below
      the fill is the length of its code. */
  lemma {:induction false} CodeAbove(lens: seq<nat>, bits: Bits, b: nat, m: nat) returns (i: nat)
    requires b <= m <= |bits| && Filled(lens, m) == Pow2(m)
    requires Msb(bits[..b]) >= Filled(lens, b)
    ensures i < |lens| && 0 < lens[i] <= m && Msb(bits[..lens[i]]) == Code(lens, i)
    decreases m - b
  {
    MsbBound(bits[..m]);
    assert b < m;
    var x := Msb(bits[..b + 1]);
    assert bits[..b + 1][..b] == bits[..b];
    if x < Filled(lens, b + 1) {
      i := NthSymbol(lens, b + 1, x - First(lens, b + 1));
    } else {
      i := CodeAbove(lens, bits, b + 1, m);
    }
  }

  lemma Covered(lens: seq<nat>, bits: Bits, m: nat) returns (i: nat)
    requires Complete(lens, m) && m <= |bits|
    ensures i < |lens| && lens[i] > 0 && CodeBits(lens, i) <= bits
  {
    i := CodeAbove(lens, bits, 0, m);
    BitsOfMsb(bits[..lens[i]]);
  }
}
