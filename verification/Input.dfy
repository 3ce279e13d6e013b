/** The sequential decoder's refill buffer over a source that hands out its bytes in any pieces
    (src/core/xq_decoder.c:54-105, 235-247; src/core/xq_api.c:26-41). */
module Input {
  import opened Bytes

  const RBUF_SIZE := 0x4_0000

  /** A reader callback: each call yields some of what is asked for, and nothing only at the end. */
  class Source {
    const data: seq<byte>
    var pos: nat

    predicate Valid()
      reads this
    {
      pos <= |data|
    }

    constructor (data: seq<byte>)
      ensures Valid() && this.data == data && pos == 0
    {
      this.data := data;
      pos := 0;
    }

    method Read(n: nat) returns (piece: seq<byte>)
      requires Valid() && n > 0
      modifies this
      ensures Valid() && |piece| <= n && old(pos) + |piece| == pos && piece == data[old(pos)..pos]
      ensures piece == [] <==> old(pos) == |data|
    {
      var most := Min(n, |data| - pos);
      var k: nat := 0;
      if most > 0 {
        k :| 0 < k <= most;
      }
      piece := data[pos..pos + k];
      pos := pos + k;
    }
  }

  class RBuf {
    const src: Source
    const rbuf: array<byte>
    var rpos: nat
    var rlen: nat
    var srcEof: bool

    ghost predicate Valid()
      reads this, src
    {
      && rbuf.Length == RBUF_SIZE && rpos <= rlen <= RBUF_SIZE && src.Valid() && (srcEof ==> src.pos == |src.data|)
    }

    /** All bytes still to come: buffered ones first. */
    ghost function Rest(): seq<byte>
      requires Valid()
      reads this, src, rbuf
    {
      rbuf[rpos..rlen] + src.data[src.pos..]
    }

    constructor (src: Source)
      requires src.Valid()
      ensures Valid() && Rest() == src.data[src.pos..] && this.src == src && fresh(rbuf)
    {
      this.src := src;
      rbuf := new byte[RBUF_SIZE];
      rpos, rlen, srcEof := 0, 0, false;
      new;
      assert rbuf[0..0] == [];
    }

    /** Moves what is left to the front. */
    method Compact()
      requires Valid()
      modifies this`rpos, this`rlen, rbuf
      ensures Valid() && rpos == 0 && rbuf[..rlen] == old(rbuf[rpos..rlen])
    {
      ghost var kept := rbuf[rpos..rlen];
      forall i | 0 <= i < rlen - rpos {
        rbuf[i] := rbuf[rpos + i];
      }
      rlen := rlen - rpos;
      rpos := 0;
      assert rbuf[..rlen] == kept;
    }

    method Append(piece: seq<byte>)
      requires rlen + |piece| <= rbuf.Length
      modifies this`rlen, rbuf
      ensures rlen == old(rlen) + |piece| && rbuf[..rlen] == old(rbuf[..rlen]) + piece
    {
      ghost var kept := rbuf[..rlen];
      forall i | 0 <= i < |piece| {
        rbuf[rlen + i] := piece[i];
      }
      rlen := rlen + |piece|;
      assert rbuf[..rlen] == kept + piece;
    }

    /** `rbuf_fill` before the end of the source. */
    method Fill()
      requires Valid() && !srcEof && rlen - rpos < RBUF_SIZE
      modifies this`rpos, this`rlen, this`srcEof, rbuf, src
      ensures Valid() && Rest() == old(Rest())
      ensures srcEof || rlen - rpos > old(rlen - rpos)
    {
      Compact();
      ghost var kept, coming := rbuf[..rlen], src.data[src.pos..];
      var piece := src.Read(RBUF_SIZE - rlen);
      if piece == [] {
        srcEof := true;
      }
      assert coming == piece + src.data[src.pos..];
      Append(piece);
      assert kept + piece + src.data[src.pos..] == kept + coming;
    }

    /** `need`: `n` bytes in the buffer, or fewer are left. */
    method Need(n: nat) returns (ok: bool)
      requires Valid() && n <= RBUF_SIZE
      modifies this`rpos, this`rlen, this`srcEof, rbuf, src
      ensures Valid() && Rest() == old(Rest()) && (ok <==> n <= |Rest()|)
      ensures ok ==> rpos + n <= rlen && rbuf[rpos..rpos + n] == Rest()[..n]
    {
      while rlen - rpos < n
        invariant Valid() && Rest() == old(Rest())
        decreases !srcEof, n - (rlen - rpos)
      {
        if srcEof {
          return false;
        }
        Fill();
      }
      ok := true;
      FrontOf(rbuf[rpos..rlen], src.data[src.pos..], n);
      assert rbuf[rpos..rpos + n] == rbuf[rpos..rlen][..n];
    }

    lemma FrontOf(a: seq<byte>, b: seq<byte>, n: nat)
      requires n <= |a|
      ensures (a + b)[..n] == a[..n]
    {}

    method Consume(n: nat)
      requires Valid() && rpos + n <= rlen
      modifies this`rpos
      ensures Valid() && rpos == old(rpos) + n && Rest() == old(Rest())[n..]
    {
      rpos := rpos + n;
    }

    /** `read_exact`: what the buffer has, then straight from the source. */
    method ReadExact(n: nat) returns (ok: bool, out: seq<byte>)
      requires Valid()
      modifies this`rpos, this`srcEof, src
      ensures Valid() && (ok <==> n <= |old(Rest())|)
      ensures ok ==> out == old(Rest())[..n] && Rest() == old(Rest())[n..]
    {
      hide Rest;
      ghost var rest := Rest();
      var take := Min(n, rlen - rpos);
      InFront(take);
      var first := rbuf[rpos..rpos + take];
      Consume(take);
      assert rest == first + Rest();
      if take == n {
        return true, first;
      }
      UsedUp();
      var more;
      ok, more := FromSource(n - take);
      out := first + more;
      if ok {
        JoinSplit(first, more, src.data[src.pos..]);
        UsedUp();
      }
    }

    lemma InFront(n: nat)
      requires Valid() && rpos + n <= rlen
      ensures n <= |Rest()| && rbuf[rpos..rpos + n] == Rest()[..n]
    {
      FrontOf(rbuf[rpos..rlen], src.data[src.pos..], n);
      assert rbuf[rpos..rpos + n] == rbuf[rpos..rlen][..n];
    }

    lemma DropMore(s: seq<byte>, a: nat, b: nat)
      requires a <= |s| && b <= |s[a..]|
      ensures s[a..][b..] == s[a + b..]
    {}

    lemma UsedUp()
      requires Valid() && rpos == rlen
      ensures Rest() == src.data[src.pos..]
    {
      assert rbuf[rpos..rlen] == [];
    }

    lemma JoinSplit(a: seq<byte>, b: seq<byte>, c: seq<byte>)
      ensures (a + (b + c))[..|a| + |b|] == a + b && (a + (b + c))[|a| + |b|..] == c
    {}

    method FromSource(n: nat) returns (ok: bool, out: seq<byte>)
      requires Valid()
      modifies this`srcEof, src
      ensures Valid() && (ok <==> n <= |old(src.data[src.pos..])|)
      ensures ok ==> |out| == n && old(src.data[src.pos..]) == out + src.data[src.pos..]
    {
      out := [];
      ghost var start := src.pos;
      while |out| < n
        invariant Valid() && |out| <= n && start <= src.pos && out == src.data[start..src.pos]
        decreases n - |out|
      {
        if srcEof {
          return false, out;
        }
        var piece := src.Read(n - |out|);
        if piece == [] {
          srcEof := true;
          return false, out;
        }
        out := out + piece;
      }
      ok := true;
      assert src.data[start..] == out + src.data[src.pos..];
    }

    /** Drops the payload of a record nobody wants. */
    method Skip(n: nat) returns (ok: bool)
      requires Valid()
      modifies this`rpos, this`rlen, this`srcEof, rbuf, src
      ensures Valid() && (ok <==> n <= |old(Rest())|)
      ensures ok ==> Rest() == old(Rest())[n..]
    {
      var remain: nat := n;
      ghost var rest := Rest();
      hide Rest;
      while remain > 0
        invariant Valid() && remain <= n && n - remain <= |rest| && Rest() == rest[n - remain..]
        decreases remain, !srcEof, RBUF_SIZE - (rlen - rpos)
      {
        if rpos == rlen {
          if srcEof {
            return false;
          }
          Fill();
          if rpos == rlen && srcEof {
            return false;
          }
        }
        var take := Min(remain, rlen - rpos);
        DropMore(rest, n - remain, take);
        Consume(take);
        remain := remain - take;
      }
      ok := true;
    }
  }
}
