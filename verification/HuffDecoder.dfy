/** The decoder's flat table: validated, filled in place, and indexed by the next bits of the
    stream (src/common/xq_huff.c:45-52, 164-233). */
module HuffDecoder {
  import opened Bytes
  import opened HuffTree
  import opened HuffCode
  import opened HuffLens
  import opened HuffStream
  import opened HuffEncoder
  import opened BitIO

  // ----- slots

  /** Slot `f` of a table with `m` index bits belongs to the symbol whose code its bits start with. */
  ghost predicate Owns(lens: seq<nat>, i: nat, m: nat, f: nat) {
    StartsWith(lens, i, LsbBits(f, m))
  }

  /** The slots after symbols below `n` were entered: each holds its owner, unowned ones length 0. */
  ghost predicate FilledTo(lens: seq<nat>, m: nat, n: nat, sym: seq<nat>, len: seq<nat>) {
    && n <= |lens| && |sym| == |len| && Pow2(m) <= |len|
    && forall f :: 0 <= f < Pow2(m) ==> SlotOk(lens, m, n, f, sym[f], len[f])
  }

  ghost predicate SlotOk(lens: seq<nat>, m: nat, n: nat, f: nat, s: nat, l: nat) {
    && (l == 0 ==> forall i: nat :: i < n ==> !Owns(lens, i, m, f))
    && (l > 0 ==> s < n <= |lens| && l == lens[s] && Owns(lens, s, m, f))
  }

  lemma {:induction false} LsbPrefix(v: nat, l: nat, m: nat)
    requires l <= m
    ensures LsbBits(v, m)[..l] == LsbBits(v, l)
  {
    LsbSplit(v, l, m - l);
  }

  /** A symbol's slots are the numbers that end in its reversed code. */
  lemma OwnsMod(lens: seq<nat>, i: nat, m: nat, f: nat, rev: nat)
    requires i < |lens| && 0 < lens[i] <= m && rev == Lsb(CodeBits(lens, i))
    ensures Owns(lens, i, m, f) <==> f % Pow2(lens[i]) == rev
  {
    var l, b := lens[i], CodeBits(lens, i);
    LsbPrefix(f, l, m);
    LsbMod(f, l);
    hide CodeBits;
    LsbOfBits(f % Pow2(l), l);
    BitsOfLsb(b);
    assert Owns(lens, i, m, f) <==> b == LsbBits(f, l);
  }

  /** Stepping by `p` from one number to the next with the same remainder skips nothing. */
  lemma NothingBetween(f: nat, g: nat, p: nat)
    requires p > 0 && f <= g < f + p && f % p == g % p
    ensures f == g
  {
    var qf, qg, r := f / p, g / p, f % p;
    assert f == p * qf + r && g == p * qg + r;
    if qf < qg {
      MulStep(p, qf, qg);
    } else if qg < qf {
      MulStep(p, qg, qf);
    }
  }

  lemma NextRemainder(f: nat, p: nat)
    requires p > 0
    ensures (f + p) % p == f % p
  {
    DivUnique(f + p, p, f / p + 1, f % p);
  }

  // ----- validation

  method CheckTable(len: seq<nat>) returns (ok: bool, maxlen: nat)
    requires |len| == SYMBOLS && forall i :: 0 <= i < SYMBOLS ==> len[i] < 0x10
    ensures ok <==> Usable(len)
    ensures ok ==> maxlen == MaxLen(len) && 0 < maxlen <= MAX_BITS
  {
    hide Usable, Filled, Count;
    maxlen := 0;
    var used := 0;
    var i := 0;
    while i < SYMBOLS
      invariant 0 <= i <= SYMBOLS && used == Used(len[..i]) && maxlen == MaxLen(len[..i])
    {
      assert len[..i + 1][..i] == len[..i];
      if len[i] != 0 {
        used := used + 1;
        if len[i] > maxlen {
          maxlen := len[i];
        }
      }
      i := i + 1;
    }
    assert len[..SYMBOLS] == len;
    Acceptance(len);
    MaxLenBound(len, MAX_BITS);
    UsedNeedsLength(len);
    if used == 0 || maxlen == 0 || maxlen > MAX_BITS {
      return false, maxlen;
    }
    hide Used, MaxLen;
    var count := CountLengths(len);
    if used == 1 {
      ok := maxlen == 1;
    } else {
      ok := CheckFill(len, count, maxlen);
    }
  }

  lemma {:induction false} MaxLenBound(lens: seq<nat>, b: nat)
    requires forall i :: 0 <= i < |lens| ==> lens[i] <= b
    ensures MaxLen(lens) <= b
  {}

  lemma UsedNeedsLength(lens: seq<nat>)
    ensures Used(lens) > 0 ==> MaxLen(lens) > 0
  {
    if Used(lens) > 0 {
      var s := SomeUsed(lens);
    }
  }

  /** Halving what is left at every length; refused on an overfill or a remainder. */
  method CheckFill(len: seq<nat>, count: array<nat>, maxlen: nat) returns (ok: bool)
    requires maxlen <= MAX_BITS && count.Length == MAX_BITS + 1
    requires forall b :: 1 <= b <= MAX_BITS ==> count[b] == Count(len, b)
    ensures ok <==> Filled(len, maxlen) == Pow2(maxlen)
  {
    hide Count;
    var avail: nat := 1;
    var b := 1;
    while b <= maxlen
      invariant 1 <= b <= maxlen + 1
      invariant avail + Filled(len, b - 1) == Pow2(b - 1)
    {
      avail := avail * 2;
      if count[b] > avail {
        if Filled(len, maxlen) == Pow2(maxlen) {
          FilledFits(len, b, maxlen);
        }
        return false;
      }
      avail := avail - count[b];
      b := b + 1;
    }
    ok := avail == 0;
  }

  // ----- the table in memory

  const TABLE_SLOTS := 0x8000

  class HuffDec {
    const sym: array<nat>
    const len: array<nat>
    var maxLen: nat
    ghost var lens: seq<nat>

    ghost predicate Sized() {
      sym.Length == TABLE_SLOTS && len.Length == TABLE_SLOTS && sym != len
    }

    ghost predicate Valid()
      reads this, sym, len
    {
      && Sized() && |lens| == SYMBOLS && Usable(lens) && maxLen == MaxLen(lens) && 0 < maxLen <= MAX_BITS
      && FilledTo(lens, maxLen, SYMBOLS, sym[..], len[..])
    }

    constructor ()
      ensures Sized() && fresh(sym) && fresh(len)
    {
      sym, len, maxLen, lens := new nat[TABLE_SLOTS], new nat[TABLE_SLOTS], 0, [];
    }

    /** Accepts a stored table exactly when it is usable, and then fills the slots. */
    method Load(src: seq<byte>) returns (ok: bool)
      requires Sized() && |src| == TABLE_BYTES
      modifies this, sym, len
      ensures Sized() && (ok <==> Usable(LoadTable(src)))
      ensures ok ==> Valid() && lens == LoadTable(src)
    {
      hide Usable, FilledTo;
      var table := LoadTable(src);
      hide LoadTable;
      var good, m := CheckTable(table);
      if !good {
        return false;
      }
      lens := table;
      maxLen := m;
      Tabulate(table);
      return true;
    }

    method Tabulate(table: seq<nat>)
      requires Sized() && |table| == SYMBOLS && Usable(table) && maxLen == MaxLen(table) && 0 < maxLen <= MAX_BITS
      modifies sym, len
      ensures FilledTo(table, maxLen, SYMBOLS, sym[..], len[..])
    {
      UsableFits(table);
      Pow2Monotone(maxLen, MAX_BITS);
      Pow2Values();
      hide Usable, FilledTo, MaxLen, Filled, Count, Numbered, Pow2, First;
      var next := StartCodes(table);
      ClearSlots(Pow2(maxLen));
      FilledStart(table, maxLen, sym[..], len[..]);
      FillAll(table, next);
    }

    method ClearSlots(tsize: nat)
      requires tsize <= len.Length
      modifies len
      ensures forall f :: 0 <= f < tsize ==> len[f] == 0
    {
      forall f | 0 <= f < tsize {
        len[f] := 0;
      }
    }

    method FillAll(table: seq<nat>, next: array<nat>)
      requires Sized() && |table| == SYMBOLS && Usable(table) && maxLen == MaxLen(table) && 0 < maxLen <= MAX_BITS
      requires next != sym && next != len && Numbered(next[..], table, 0)
      requires FilledTo(table, maxLen, 0, sym[..], len[..])
      modifies sym, len, next
      ensures FilledTo(table, maxLen, SYMBOLS, sym[..], len[..])
    {
      hide Usable, MaxLen, FilledTo, Numbered, CodeBits, MsbBits, Lsb;
      var i := 0;
      while i < SYMBOLS
        invariant 0 <= i <= SYMBOLS
        invariant Numbered(next[..], table, i) && FilledTo(table, maxLen, i, sym[..], len[..])
      {
        var l := table[i];
        MaxLenAt(table, i);
        NumberNext(next[..], table, i);
        if l == 0 {
          FilledSkip(table, maxLen, i, sym[..], len[..]);
        } else {
          var c := next[l];
          next[l] := next[l] + 1;
          var rev := ReverseBits(c, l);
          FillSlots(table, i, rev);
        }
        i := i + 1;
      }
    }

    /** Enters one symbol; every slot it writes was still empty. */
    method FillSlots(table: seq<nat>, i: nat, rev: nat)
      requires Sized() && Usable(table) && i < |table| && 0 < table[i] <= maxLen <= MAX_BITS
      requires rev == Lsb(CodeBits(table, i)) && rev < Pow2(table[i])
      requires FilledTo(table, maxLen, i, sym[..], len[..])
      modifies sym, len
      ensures FilledTo(table, maxLen, i + 1, sym[..], len[..])
    {
      hide Usable, CodeBits, Lsb, Owns, FilledTo, Entered, Pow2;
      ghost var s0, l0 := sym[..], len[..];
      var l := table[i];
      var p := Pow2(l);
      var tsize := Pow2(maxLen);
      Pow2Monotone(maxLen, MAX_BITS);
      Pow2Values();
      DivUnique(rev, p, 0, rev);
      var f := rev;
      EnteredStart(table, i, maxLen, rev, s0, l0);
      while f < tsize
        invariant f % p == rev
        invariant Entered(table, i, maxLen, f, s0, l0, sym[..], len[..])
        decreases tsize - f
      {
        OwnsMod(table, i, maxLen, f, rev);
        WasEmpty(table, i, maxLen, f, s0, l0);
        EnteredAt(table, i, maxLen, f, s0, l0, sym[..], len[..]);
        assert len[f] == 0;
        EnterSlot(table, i, maxLen, f, rev, s0, l0, sym[..], len[..]);
        sym[f] := i;
        len[f] := l;
        NextRemainder(f, p);
        f := f + p;
      }
      EnteredAll(table, i, maxLen, f, s0, l0, sym[..], len[..]);
    }
  }

  lemma MaxLenAt(lens: seq<nat>, i: nat)
    requires i < |lens|
    ensures lens[i] <= MaxLen(lens)
  {}

  lemma FilledStart(lens: seq<nat>, m: nat, sym: seq<nat>, len: seq<nat>)
    requires |sym| == |len| && Pow2(m) <= |len| && forall f :: 0 <= f < Pow2(m) ==> len[f] == 0
    ensures FilledTo(lens, m, 0, sym, len)
  {}

  lemma FilledSkip(lens: seq<nat>, m: nat, n: nat, sym: seq<nat>, len: seq<nat>)
    requires FilledTo(lens, m, n, sym, len) && n < |lens| && lens[n] == 0
    ensures FilledTo(lens, m, n + 1, sym, len)
  {
    forall f | 0 <= f < Pow2(m)
      ensures SlotOk(lens, m, n + 1, f, sym[f], len[f])
    {
      assert SlotOk(lens, m, n, f, sym[f], len[f]);
      assert !Owns(lens, n, m, f);
    }
  }

  /** Slots below `f` that symbol `i` owns have been written, all others are as before. */
  ghost predicate Entered(lens: seq<nat>, i: nat, m: nat, f: nat, s0: seq<nat>, l0: seq<nat>, sym: seq<nat>, len: seq<nat>)
    requires i < |lens|
  {
    && |sym| == |len| == |s0| == |l0| && Pow2(m) <= |len|
    && forall g :: 0 <= g < Pow2(m) ==>
         if g < f && Owns(lens, i, m, g) then sym[g] == i && len[g] == lens[i] else sym[g] == s0[g] && len[g] == l0[g]
  }

  lemma EnteredStart(lens: seq<nat>, i: nat, m: nat, rev: nat, sym: seq<nat>, len: seq<nat>)
    requires i < |lens| && 0 < lens[i] <= m && rev == Lsb(CodeBits(lens, i)) && rev < Pow2(lens[i])
    requires |sym| == |len| && Pow2(m) <= |len|
    ensures Entered(lens, i, m, rev, sym, len, sym, len)
  {
    hide Owns, CodeBits, Lsb;
    forall g | 0 <= g < Pow2(m) && g < rev
      ensures !Owns(lens, i, m, g)
    {
      OwnsMod(lens, i, m, g, rev);
      DivUnique(g, Pow2(lens[i]), 0, g);
    }
  }

  /** No other symbol owns a slot of symbol `i`: codes are prefix-free. */
  lemma WasEmpty(lens: seq<nat>, i: nat, m: nat, f: nat, s0: seq<nat>, l0: seq<nat>)
    requires Usable(lens) && i < |lens| && FilledTo(lens, m, i, s0, l0) && f < Pow2(m) && Owns(lens, i, m, f)
    ensures l0[f] == 0
  {
    hide Usable;
    assert SlotOk(lens, m, i, f, s0[f], l0[f]);
    if l0[f] > 0 {
      OneStart(lens, i, s0[f], LsbBits(f, m));
    }
  }

  lemma EnteredAt(lens: seq<nat>, i: nat, m: nat, f: nat, s0: seq<nat>, l0: seq<nat>, sym: seq<nat>, len: seq<nat>)
    requires i < |lens| && Entered(lens, i, m, f, s0, l0, sym, len) && f < Pow2(m)
    ensures f < |len| == |l0| && len[f] == l0[f]
  {
    hide Owns;
  }

  lemma EnterSlot(lens: seq<nat>, i: nat, m: nat, f: nat, rev: nat, s0: seq<nat>, l0: seq<nat>, sym: seq<nat>, len: seq<nat>)
    requires i < |lens| && 0 < lens[i] <= m && rev == Lsb(CodeBits(lens, i))
    requires f < Pow2(m) && f % Pow2(lens[i]) == rev && Owns(lens, i, m, f)
    requires Entered(lens, i, m, f, s0, l0, sym, len)
    ensures Entered(lens, i, m, f + Pow2(lens[i]), s0, l0, sym[f := i], len[f := lens[i]])
  {
    hide Owns, CodeBits, Lsb;
    var p := Pow2(lens[i]);
    var s', l' := sym[f := i], len[f := lens[i]];
    forall g | 0 <= g < Pow2(m)
      ensures if g < f + p && Owns(lens, i, m, g) then s'[g] == i && l'[g] == lens[i] else s'[g] == s0[g] && l'[g] == l0[g]
    {
      OwnsMod(lens, i, m, g, rev);
      if f <= g < f + p && Owns(lens, i, m, g) {
        NothingBetween(f, g, p);
      }
    }
  }

  lemma EnteredAll(lens: seq<nat>, i: nat, m: nat, f: nat, s0: seq<nat>, l0: seq<nat>, sym: seq<nat>, len: seq<nat>)
    requires i < |lens| && lens[i] > 0 && FilledTo(lens, m, i, s0, l0) && Pow2(m) <= f
    requires Entered(lens, i, m, f, s0, l0, sym, len)
    ensures FilledTo(lens, m, i + 1, sym, len)
  {
    hide Owns;
    forall g | 0 <= g < Pow2(m)
      ensures SlotOk(lens, m, i + 1, g, sym[g], len[g])
    {
      assert SlotOk(lens, m, i, g, s0[g], l0[g]);
    }
  }

  /** With two or more symbols no slot stays empty. */
  lemma NoSlotEmpty(lens: seq<nat>, m: nat, sym: seq<nat>, len: seq<nat>, f: nat)
    requires Complete(lens, m) && FilledTo(lens, m, |lens|, sym, len) && f < Pow2(m)
    ensures len[f] > 0
  {
    var i := Covered(lens, LsbBits(f, m), m);
    assert Owns(lens, i, m, f);
    assert SlotOk(lens, m, |lens|, f, sym[f], len[f]);
  }

  // ----- decoding one symbol

  /** Looking up the next bits, seen as zeros past the end, finds the code the stream starts with;
      a code longer than what is left is not taken. */
  lemma LookupIsNext(lens: seq<nat>, m: nat, sym: seq<nat>, len: seq<nat>, acc: nat, n: nat, tail: Bits)
    requires Usable(lens) && FilledTo(lens, m, |lens|, sym, len) && (forall i :: 0 <= i < |lens| ==> lens[i] <= m)
    requires acc < Pow2(n) && (n >= m || tail == [])
    ensures acc % Pow2(m) < Pow2(m)
    ensures var f := acc % Pow2(m);
            var rest := LsbBits(acc, n) + tail;
            if len[f] == 0 || len[f] > n then NextSym(lens, rest) == None
            else len[f] <= |rest| && NextSym(lens, rest) == Some((sym[f], rest[len[f]..]))
  {
    var f := acc % Pow2(m);
    var rest := LsbBits(acc, n) + tail;
    LsbMod(acc, m);
    var w := LsbBits(acc, m);
    assert w == LsbBits(f, m);
    if n >= m {
      LsbPrefix(acc, m, n);
      assert w <= rest;
    } else {
      LsbPrefix(acc, n, m);
      assert rest <= w;
    }
    assert SlotOk(lens, m, |lens|, f, sym[f], len[f]);
    hide Usable, LsbBits, FilledTo;
    if len[f] == 0 || len[f] > n {
      forall i: nat
        ensures !StartsWith(lens, i, rest)
      {
        NotStarting(lens, i, m, f, w, rest, sym[f], len[f], n);
      }
    } else {
      PrefixesNest(CodeBits(lens, sym[f]), if n >= m then w else rest, if n >= m then rest else w);
      NextSymIs(lens, sym[f], rest);
    }
  }

  lemma NotStarting(lens: seq<nat>, i: nat, m: nat, f: nat, w: Bits, rest: Bits, s: nat, l: nat, n: nat)
    requires Usable(lens) && SlotOk(lens, m, |lens|, f, s, l) && w == LsbBits(f, m) && |w| == m
    requires i < |lens| ==> lens[i] <= m
    requires if n >= m then w <= rest else rest <= w && |rest| == n
    requires l == 0 || l > n
    ensures !StartsWith(lens, i, rest)
  {
    hide Usable, LsbBits, CodeBits;
    if StartsWith(lens, i, rest) {
      var c := CodeBits(lens, i);
      if n >= m {
        PrefixesNest(c, w, rest);
      }
      assert c <= w;
      assert Owns(lens, i, m, f);
      if l > 0 {
        OneStart(lens, i, s, w);
      }
    }
  }

  /** The symbol the rest of the stream starts with, or failure when it starts with none. */
  method DecodeOne(r: BitReader, d: HuffDec) returns (ok: bool, s: nat)
    requires r.Valid() && d.Valid()
    requires {r as object} !! {d as object, d.sym, d.len}
    modifies r
    ensures r.Valid() && d.Valid()
    ensures ok ==> NextSym(d.lens, old(r.Rest())) == Some((s, r.Rest()))
    ensures !ok ==> NextSym(d.lens, old(r.Rest())) == None
  {
    hide Usable, FilledTo, MaxLen, NextSym, LsbBits, Unpack;
    if r.nbits < MAX_BITS {
      r.Fill();
    }
    RestTail(r.buf, r.pos);
    MaxLenBounds(d.lens);
    LookupIsNext(d.lens, d.maxLen, d.sym[..], d.len[..], r.acc, r.nbits, Unpack(r.buf[r.pos..]));
    SlotsLong(d.lens, d.maxLen, d.sym[..], d.len[..]);
    var idx := r.acc % Pow2(d.maxLen);
    var l := d.len[idx];
    if l == 0 || l > r.nbits {
      return false, 0;
    }
    s := d.sym[idx];
    r.Drop(l);
    ok := true;
  }

  lemma RestTail(buf: seq<byte>, pos: nat)
    requires pos <= |buf|
    ensures pos == |buf| ==> Unpack(buf[pos..]) == []
  {}

  lemma MaxLenBounds(lens: seq<nat>)
    ensures forall i :: 0 <= i < |lens| ==> lens[i] <= MaxLen(lens)
  {}

  lemma SlotsLong(lens: seq<nat>, m: nat, sym: seq<nat>, len: seq<nat>)
    requires FilledTo(lens, m, |lens|, sym, len)
    ensures Pow2(m) <= |len| == |sym|
  {}
}
