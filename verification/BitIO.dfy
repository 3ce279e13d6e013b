/** The bit writer and reader behind the Huffman stage, least significant bit first
    (src/common/xq_huff.c:7-52): an accumulator that is flushed and refilled by whole bytes. */
module BitIO {
  import opened Bytes
  import opened HuffCode

  // ----- splitting and joining

  lemma {:induction false} LsbSplit(v: nat, a: nat, b: nat)
    ensures LsbBits(v, a + b) == LsbBits(v, a) + LsbBits(Shr(v, a), b)
  {
    if a > 0 {
      LsbSplit(v / 2, a - 1, b);
    }
  }

  lemma {:induction false} LsbJoin(acc: nat, n: nat, v: nat, k: nat)
    requires acc < Pow2(n)
    ensures LsbBits(acc + Shl(v, n), n + k) == LsbBits(acc, n) + LsbBits(v, k)
  {
    if n > 0 {
      LsbJoin(acc / 2, n - 1, v, k);
      assert (acc + Shl(v, n)) / 2 == acc / 2 + Shl(v, n - 1);
    }
  }

  lemma {:induction false} ShlBound(acc: nat, n: nat, v: nat, k: nat)
    requires acc < Pow2(n) && v < Pow2(k)
    ensures acc + Shl(v, n) < Pow2(n + k)
  {
    ShlMonotone(v + 1, Pow2(k), n);
    ShlAdd(v, 1, n);
    ShlOne(n);
    ShlOne(k);
    ShlShl(1, k, n);
    ShlOne(k + n);
  }

  lemma LsbByte(b: byte)
    ensures Lsb(LsbBits(b, 8)) == b as int
  {
    Pow2Values();
    LsbOfBits(b, 8);
  }

  lemma Pow2Zero()
    ensures Pow2(0) == 1
  {}

  /** The bits of a byte string. */
  function Unpack(bytes: seq<byte>): (b: Bits)
    ensures |b| == 8 * |bytes|
  {
    if bytes == [] then [] else LsbBits(bytes[0], 8) + Unpack(bytes[1..])
  }

  function ToByte(b: Bits): byte
    requires |b| <= 8
  {
    LsbBound(b);
    Pow2Values();
    Pow2Monotone(|b|, 8);
    Lsb(b)
  }

  /** The bytes of a bit string; the last one is filled up with zeros. */
  function Pack(b: Bits): (bytes: seq<byte>)
    ensures |bytes| == (|b| + 7) / 8
  {
    if b == [] then []
    else if |b| < 8 then [ToByte(b)]
    else [ToByte(b[..8])] + Pack(b[8..])
  }

  lemma {:induction false} UnpackSnoc(bytes: seq<byte>, b: byte)
    ensures Unpack(bytes + [b]) == Unpack(bytes) + LsbBits(b, 8)
  {
    if bytes == [] {
      assert [] + [b] == [b] && [b][1..] == [];
    } else {
      assert (bytes + [b])[1..] == bytes[1..] + [b];
      UnpackSnoc(bytes[1..], b);
    }
  }

  /** Whole bytes and a rest of fewer than eight bits pack into those bytes and one more. */
  lemma {:induction false} PackBytes(bytes: seq<byte>, rest: Bits)
    requires |rest| < 8
    ensures Pack(Unpack(bytes) + rest) == bytes + if rest == [] then [] else [ToByte(rest)]
  {
    var all := Unpack(bytes) + rest;
    hide LsbBits;
    if bytes == [] {
      assert all == rest;
    } else {
      PackBytes(bytes[1..], rest);
      LsbByte(bytes[0]);
      assert all[..8] == LsbBits(bytes[0], 8);
      assert all[8..] == Unpack(bytes[1..]) + rest;
      assert bytes == [bytes[0]] + bytes[1..];
    }
  }

  lemma {:induction false} PadByte(b: Bits, n: nat)
    requires |b| <= n
    ensures b <= LsbBits(Lsb(b), n)
  {
    if b != [] {
      PadByte(b[1..], n - 1);
      assert b == [b[0]] + b[1..];
    }
  }

  /** Unpacking what was packed gives the bits back, with at most seven more behind them. */
  lemma {:induction false} UnpackPack(b: Bits)
    ensures b <= Unpack(Pack(b)) && |Unpack(Pack(b))| < |b| + 8
  {
    if b != [] {
      if |b| < 8 {
        PadByte(b, 8);
        assert Pack(b)[1..] == [];
      } else {
        UnpackPack(b[8..]);
        BitsOfLsb(b[..8]);
        assert Pack(b)[1..] == Pack(b[8..]);
        assert b == b[..8] + b[8..];
      }
    }
  }

  // ----- writer

  /** More bits go in above those that wait. */
  lemma LoadBits(before: Bits, acc: nat, n: nat, v: nat, k: nat)
    requires acc < Pow2(n)
    ensures before + LsbBits(acc, n) + LsbBits(v, k) == before + LsbBits(acc + Shl(v, n), n + k)
  {
    hide LsbBits, Shl, Pow2;
    LsbJoin(acc, n, v, k);
    assert before + LsbBits(acc, n) + LsbBits(v, k) == before + (LsbBits(acc, n) + LsbBits(v, k));
  }

  lemma EighthGrows(a: nat, k: nat)
    ensures a / 8 <= (a + k) / 8
  {}

  class BitWriter {
    const buf: array<byte>
    const base: nat
    var pos: nat
    var acc: nat
    var nbits: int
    var overflow: bool
    ghost var bits: Bits  // everything put so far

    ghost predicate Valid()
      reads this, buf
    {
      && base <= pos <= buf.Length
      && 0 <= nbits < 8 && acc < Pow2(nbits)
      && (overflow <==> base + |bits| / 8 > buf.Length)
      && (overflow ==> pos == buf.Length)
      && (!overflow ==> pos == base + |bits| / 8 && bits == Unpack(buf[base..pos]) + LsbBits(acc, nbits))
    }

    constructor (buf: array<byte>, base: nat)
      requires base <= buf.Length
      ensures Valid() && bits == [] && this.buf == buf && this.base == base
    {
      this.buf, this.base, pos := buf, base, base;
      acc, nbits, overflow, bits := 0, 0, false, [];
    }

    /** Between loading bits and moving whole bytes out: as many bits as there are may be waiting. */
    ghost predicate Loaded()
      reads this, buf
    {
      && base <= pos <= buf.Length && nbits >= 0 && acc < Pow2(nbits)
      && (overflow ==> pos == buf.Length && base + |bits| / 8 > buf.Length)
      && (!overflow ==> |bits| == 8 * (pos - base) + nbits && bits == Unpack(buf[base..pos]) + LsbBits(acc, nbits))
    }

    /** Appends the `n` low bits of `value`. The accumulator stays far below 64 bits. */
    method Put(value: nat, n: nat)
      requires Valid() && n <= 15 && value < Pow2(n)
      modifies this, buf
      ensures Valid() && bits == old(bits) + LsbBits(value, n)
      ensures buf[..base] == old(buf[..base])
    {
      if n <= 0 {
        return;
      }
      hide LsbBits, Shl, Unpack, Pow2;
      ghost var before := if overflow then [] else Unpack(buf[base..pos]);
      LoadBits(before, acc, nbits, value, n);
      ShlBound(acc, nbits, value, n);
      EighthGrows(|bits|, n);
      bits := bits + LsbBits(value, n);
      acc := acc + Shl(value, nbits);
      nbits := nbits + n;
      assert Loaded();
      Drain();
    }

    /** The loop that moves whole bytes out. */
    method Drain()
      requires Loaded() && nbits <= 22
      modifies this`pos, this`acc, this`nbits, this`overflow, buf
      ensures Valid() && buf[..base] == old(buf[..base])
    {
      hide LsbBits, Unpack, Pow2;
      while nbits >= 8
        invariant Loaded() && nbits <= 22 && buf[..base] == old(buf[..base])
        decreases nbits
      {
        if pos >= buf.Length {
          overflow, nbits, acc := true, 0, 0;
          Pow2Zero();
          return;
        }
        DropByte();
      }
    }

    /** Moves the low byte of the accumulator to the buffer. */
    method DropByte()
      requires Loaded() && nbits >= 8 && pos < buf.Length
      modifies this`pos, this`acc, this`nbits, buf
      ensures Loaded() && nbits == old(nbits) - 8 && buf[..base] == old(buf[..base])
    {
      hide LsbBits, Unpack, Pow2;
      ghost var w := buf[base..pos];
      ShrBound(acc, nbits, 8);
      SplitByte(w, acc, nbits);
      buf[pos] := acc % 0x100;
      pos := pos + 1;
      assert buf[base..pos] == w + [acc % 0x100];
      acc := Shr(acc, 8);
      nbits := nbits - 8;
    }

    /** Writes the rest out, padded with zeros; succeeds exactly when everything put fits. */
    method Flush() returns (ok: bool, outLen: nat)
      requires Valid()
      modifies this, buf
      ensures ok <==> base + |Pack(old(bits))| <= buf.Length
      ensures ok ==> outLen == |Pack(old(bits))| && buf[base..base + outLen] == Pack(old(bits))
      ensures buf[..base] == old(buf[..base])
    {
      ghost var rest := LsbBits(acc, nbits);
      ghost var w := buf[base..pos];
      if nbits > 0 && !overflow {
        PackBytes(w, rest);
        LsbOfBits(acc, nbits);
      } else if !overflow {
        PackBytes(w, rest);
      }
      hide LsbBits, Unpack, Pack;
      outLen := 0;
      if nbits > 0 {
        if pos >= buf.Length {
          overflow := true;
        } else {
          ByteOf(acc, nbits);
          buf[pos] := acc % 0x100;
          pos := pos + 1;
          acc := Shr(acc, 8);
          nbits := nbits - 8;
        }
      }
      if overflow {
        return false, 0;
      }
      return true, pos - base;
    }
  }

  lemma SplitByte(w: seq<byte>, a: nat, n: nat)
    requires n >= 8
    ensures Unpack(w) + LsbBits(a, n) == Unpack(w + [a % 0x100]) + LsbBits(Shr(a, 8), n - 8)
  {
    hide LsbBits, Shr, Unpack;
    LsbSplit(a, 8, n - 8);
    LowByte(a);
    UnpackSnoc(w, a % 0x100);
  }

  lemma LowByte(a: nat)
    ensures LsbBits(a % 0x100, 8) == LsbBits(a, 8)
  {
    LsbMod(a, 8);
    Pow2Values();
  }

  lemma {:induction false} LsbMod(v: nat, m: nat)
    ensures LsbBits(v % Pow2(m), m) == LsbBits(v, m)
  {
    if m > 0 {
      LsbMod(v / 2, m - 1);
      ModHalf(v, Pow2(m - 1));
    }
  }

  lemma ModHalf(v: nat, p: nat)
    requires p > 0
    ensures (v % (2 * p)) % 2 == v % 2 && (v % (2 * p)) / 2 == (v / 2) % p
  {
    var h := v / 2;
    var q, r := h / p, h % p;
    assert h == p * q + r;
    assert v == 2 * h + v % 2;
    assert v == (2 * p) * q + (2 * r + v % 2) by {
      MulAssoc(2, p, q);
    }
    DivUnique(v, 2 * p, q, 2 * r + v % 2);
  }

  lemma ByteOf(a: nat, n: nat)
    requires 0 < n < 8 && a < Pow2(n)
    ensures a % 0x100 == a
  {
    Pow2Values();
    Pow2Monotone(n, 8);
  }

  // ----- reader

  class BitReader {
    const buf: seq<byte>
    var pos: nat
    var acc: nat
    var nbits: nat

    ghost predicate Valid()
      reads this
    {
      pos <= |buf| && nbits <= 64 && acc < Pow2(nbits)
    }

    /** The bits not consumed yet. */
    ghost function Rest(): Bits
      requires Valid()
      reads this
    {
      LsbBits(acc, nbits) + Unpack(buf[pos..])
    }

    constructor (buf: seq<byte>)
      ensures Valid() && Rest() == Unpack(buf)
    {
      this.buf, pos, acc, nbits := buf, 0, 0, 0;
    }

    /** Refills while a byte fits under bit 64. */
    method Fill()
      requires Valid()
      modifies this
      ensures Valid() && Rest() == old(Rest())
      ensures nbits > 56 || pos == |buf|
    {
      hide LsbBits, Unpack, Shl;
      while nbits <= 56
        invariant Valid() && Rest() == old(Rest())
        decreases 64 - nbits
      {
        if pos >= |buf| {
          break;
        }
        var b: byte := buf[pos];
        FillStep(acc, nbits, buf, pos);
        acc := acc + Shl(b, nbits);
        pos := pos + 1;
        nbits := nbits + 8;
      }
    }

    /** Drops `l` bits. */
    method Drop(l: nat)
      requires Valid() && l <= nbits
      modifies this
      ensures Valid() && l <= |old(Rest())| && Rest() == old(Rest())[l..]
    {
      LsbSplit(acc, l, nbits - l);
      ShrBound(acc, nbits, l);
      acc := Shr(acc, l);
      nbits := nbits - l;
    }
  }

  lemma UnpackFrom(buf: seq<byte>, pos: nat)
    requires pos < |buf|
    ensures Unpack(buf[pos..]) == LsbBits(buf[pos], 8) + Unpack(buf[pos + 1..])
  {
    hide LsbBits;
    assert buf[pos..][0] == buf[pos] && buf[pos..][1..] == buf[pos + 1..];
  }

  lemma FillStep(acc: nat, n: nat, buf: seq<byte>, pos: nat)
    requires acc < Pow2(n) && pos < |buf|
    ensures LsbBits(acc + Shl(buf[pos], n), n + 8) + Unpack(buf[pos + 1..]) == LsbBits(acc, n) + Unpack(buf[pos..])
    ensures acc + Shl(buf[pos], n) < Pow2(n + 8)
  {
    hide LsbBits, Unpack, Shl, Pow2;
    var b := buf[pos];
    Pow2Values();
    LsbJoin(acc, n, b, 8);
    ShlBound(acc, n, b, 8);
    UnpackFrom(buf, pos);
    assert LsbBits(acc, n) + (LsbBits(b, 8) + Unpack(buf[pos + 1..])) == (LsbBits(acc, n) + LsbBits(b, 8)) + Unpack(buf[pos + 1..]);
  }
}
