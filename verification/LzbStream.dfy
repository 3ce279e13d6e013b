/** The LZB byte stream: sequences of literals and matches, their bytes, and a reference decoder
    that copies one byte at a time inside the virtual buffer dictionary ++ output
    (src/codec/xq_codec_lzb.c:226-256, 326-397). */
module LzbStream {
  import opened Bytes
  import Varint

  const MIN_MATCH := 4

  /** Literals, then `mlen` bytes copied from `dist` back; `mlen == 0` ends the stream. */
  datatype Sequence = Sequence(lits: seq<byte>, dist: nat, mlen: nat)

  function LitCode(litlen: nat): (c: nat)
    ensures c < 0x10
  {
    Min(litlen, 15)
  }

  function MatchCode(mlen: nat): (c: nat)
    ensures c < 0x10
  {
    if mlen < MIN_MATCH then 0 else if mlen - MIN_MATCH < 14 then mlen - MIN_MATCH + 1 else 15
  }

  function Token(s: Sequence): byte {
    LitCode(|s.lits|) * 0x10 + MatchCode(s.mlen)
  }

  function LitExt(s: Sequence): seq<byte> {
    if |s.lits| >= 15 then Varint.Put(|s.lits| - 15) else []
  }

  function LengthExt(s: Sequence): seq<byte> {
    if s.mlen >= 18 then Varint.Put(s.mlen - 18) else []
  }

  function MatchBytes(s: Sequence): seq<byte> {
    if s.mlen == 0 then []
    else Varint.Put(s.dist) + LengthExt(s)
  }

  function SeqBytes(s: Sequence): seq<byte> {
    [Token(s)] + LitExt(s) + s.lits + MatchBytes(s)
  }

  function Serialize(seqs: seq<Sequence>): seq<byte> {
    if seqs == [] then [] else SeqBytes(seqs[0]) + Serialize(seqs[1..])
  }

  /** The byte `dist` back from the end of dictionary ++ output. */
  function Back(dict: seq<byte>, out: seq<byte>, dist: nat): byte
    requires 1 <= dist <= |dict| + |out|
  {
    if dist <= |out| then out[|out| - dist] else dict[|dict| + |out| - dist]
  }

  function Copy(dict: seq<byte>, out: seq<byte>, dist: nat, n: nat): (r: seq<byte>)
    requires 1 <= dist <= |dict| + |out|
    ensures |r| == |out| + n && r[..|out|] == out
    decreases n
  {
    if n == 0 then out
    else
      var r := Copy(dict, out + [Back(dict, out, dist)], dist, n - 1);
      assert r[..|out|] == r[..|out| + 1][..|out|];
      r
  }

  /** A list that ends the stream and whose matches all reach back into dictionary ++ output. */
  predicate Applicable(seqs: seq<Sequence>, dlen: nat, n: nat)
    decreases |seqs|
  {
    && seqs != []
    && var s := seqs[0];
       var n' := n + |s.lits|;
       if |seqs| == 1 then s.mlen == 0
       else s.mlen >= MIN_MATCH && 1 <= s.dist <= dlen + n' && Applicable(seqs[1..], dlen, n' + s.mlen)
  }

  /** The text a list of sequences stands for, behind the text `out` already produced. */
  function Expand(seqs: seq<Sequence>, dict: seq<byte>, out: seq<byte>): (r: seq<byte>)
    requires Applicable(seqs, |dict|, |out|)
    ensures |out| <= |r|
    decreases |seqs|
  {
    var out' := out + seqs[0].lits;
    if |seqs| == 1 then out' else Expand(seqs[1..], dict, Copy(dict, out', seqs[0].dist, seqs[0].mlen))
  }

  // ----- reference decoder

  /** Literal count of the token at `ip` and the position of the literals. */
  function ReadLits(src: seq<byte>, ip: nat): (r: Option<(nat, nat)>)
    requires ip < |src|
    ensures r.Some? ==> ip < r.value.1 <= |src|
  {
    var litlen := src[ip] as int / 0x10;
    if litlen < 15 then Some((litlen, ip + 1))
    else
      match Varint.Get(src, ip + 1)
      case None => None
      case Some((ext, next)) => if ext > U64_LIMIT - 1 - 15 then None else Some((15 + ext, next))
  }

  /** Distance and length of the match at `ip`, and the position behind it. */
  function ReadMatch(src: seq<byte>, ip: nat, mcode: nat): (r: Option<(nat, nat, nat)>)
    requires 1 <= mcode < 0x10
    ensures r.Some? ==> ip < r.value.2 <= |src| && r.value.0 > 0
  {
    match Varint.Get(src, ip)
    case None => None
    case Some((dist, next)) =>
      if dist == 0 then None
      else if mcode < 15 then Some((dist, mcode - 1 + MIN_MATCH, next))
      else
        match Varint.Get(src, next)
        case None => None
        case Some((ext, next')) =>
          if ext > U64_LIMIT - 1 - 18 then None else Some((dist, MIN_MATCH + 14 + ext, next'))
  }

  function DecodeFrom(src: seq<byte>, ip: nat, dict: seq<byte>, cap: nat, out: seq<byte>): (r: Result<seq<byte>>)
    requires |out| <= cap
    ensures r.Success? ==> |r.value| <= cap && out <= r.value
    decreases |src| - ip
  {
    if ip >= |src| then Success(out)
    else
      match ReadLits(src, ip)
      case None => Failure(ErrCorruptBlock)
      case Some((litlen, ip1)) =>
        if litlen > |src| - ip1 then Failure(ErrCorruptBlock)
        else if litlen > cap - |out| then Failure(ErrDstTooSmall)
        else
          var out1 := out + src[ip1..ip1 + litlen];
          var mcode := src[ip] as int % 0x10;
          if mcode == 0 then Success(out1)
          else
            match ReadMatch(src, ip1 + litlen, mcode)
            case None => Failure(ErrCorruptBlock)
            case Some((dist, mlen, ip2)) =>
              if dist > |out1| + |dict| then Failure(ErrCorruptBlock)
              else if mlen > cap - |out1| then Failure(ErrDstTooSmall)
              else DecodeFrom(src, ip2, dict, cap, Copy(dict, out1, dist, mlen))
  }

  function Decode(src: seq<byte>, dict: seq<byte>, cap: nat): (r: Result<seq<byte>>)
    ensures r.Success? ==> |r.value| <= cap
  {
    DecodeFrom(src, 0, dict, cap, [])
  }

  // ----- decoding undoes serialising

  lemma TokenFields(s: Sequence)
    ensures Token(s) as int / 0x10 == LitCode(|s.lits|)
    ensures Token(s) as int % 0x10 == MatchCode(s.mlen)
  {}

  lemma SliceParts(src: seq<byte>, ip: nat, a: seq<byte>, b: seq<byte>)
    requires ip + |a + b| <= |src| && src[ip..ip + |a + b|] == a + b
    ensures src[ip..ip + |a|] == a && src[ip + |a|..ip + |a| + |b|] == b
  {
    var w := src[ip..ip + |a + b|];
    assert src[ip..ip + |a|] == w[..|a|] == a;
    assert src[ip + |a|..ip + |a| + |b|] == w[|a|..] == b;
  }

  lemma FourParts(src: seq<byte>, ip: nat, t: byte, a: seq<byte>, b: seq<byte>, c: seq<byte>)
    requires var w := [t] + a + b + c; ip + |w| <= |src| && src[ip..ip + |w|] == w
    ensures src[ip] == t && src[ip + 1..ip + 1 + |a|] == a
    ensures var p := ip + 1 + |a|; src[p..p + |b|] == b && src[p + |b|..p + |b| + |c|] == c
  {
    SliceParts(src, ip, [t] + a + b, c);
    SliceParts(src, ip, [t] + a, b);
    SliceParts(src, ip, [t], a);
    assert src[ip] == src[ip..ip + 1][0];
  }

  lemma ReadsLits(src: seq<byte>, ip: nat, s: Sequence)
    requires |s.lits| < U64_LIMIT
    requires ip + 1 + |LitExt(s)| <= |src| && src[ip] == Token(s)
    requires src[ip + 1..ip + 1 + |LitExt(s)|] == LitExt(s)
    ensures ReadLits(src, ip) == Some((|s.lits|, ip + 1 + |LitExt(s)|))
  {
    TokenFields(s);
    if |s.lits| >= 15 {
      Varint.RoundTrip(src, ip + 1, |s.lits| - 15);
    }
  }

  lemma ReadsMatch(src: seq<byte>, ip: nat, s: Sequence)
    requires MIN_MATCH <= s.mlen < U64_LIMIT && 1 <= s.dist < U64_LIMIT
    requires ip + |MatchBytes(s)| <= |src| && src[ip..ip + |MatchBytes(s)|] == MatchBytes(s)
    ensures ReadMatch(src, ip, MatchCode(s.mlen)) == Some((s.dist, s.mlen, ip + |MatchBytes(s)|))
  {
    var d := Varint.Put(s.dist);
    SliceParts(src, ip, d, LengthExt(s));
    Varint.RoundTrip(src, ip, s.dist);
    if s.mlen >= 18 {
      Varint.RoundTrip(src, ip + |d|, s.mlen - 18);
    }
  }

  lemma ReadsSeq(src: seq<byte>, ip: nat, s: Sequence)
    requires |s.lits| < U64_LIMIT
    requires s.mlen == 0 || (MIN_MATCH <= s.mlen < U64_LIMIT && 1 <= s.dist < U64_LIMIT)
    requires ip + |SeqBytes(s)| <= |src| && src[ip..ip + |SeqBytes(s)|] == SeqBytes(s)
    ensures src[ip] as int % 0x10 == MatchCode(s.mlen)
    ensures ReadLits(src, ip).Some?
    ensures var (n, ip1) := ReadLits(src, ip).value;
            && n == |s.lits| && ip1 + n <= ip + |SeqBytes(s)| && src[ip1..ip1 + n] == s.lits
            && (s.mlen > 0 ==>
                  ReadMatch(src, ip1 + n, MatchCode(s.mlen)) == Some((s.dist, s.mlen, ip + |SeqBytes(s)|)))
  {
    hide Token, LitExt, MatchBytes, ReadLits, ReadMatch, LitCode, MatchCode, Varint.Put;
    TokenFields(s);
    FourParts(src, ip, Token(s), LitExt(s), s.lits, MatchBytes(s));
    hide SeqBytes;
    ReadsLits(src, ip, s);
    if s.mlen > 0 {
      ReadsMatch(src, ip + 1 + |LitExt(s)| + |s.lits|, s);
    }
  }

  lemma {:induction false} CopyLength(dict: seq<byte>, seqs: seq<Sequence>, out: seq<byte>)
    requires Applicable(seqs, |dict|, |out|) && |seqs| > 1
    ensures |out| + |seqs[0].lits| + seqs[0].mlen <= |Expand(seqs, dict, out)|
  {}

  /** Decoding the bytes of a list yields the text it stands for; bytes behind the ending token
      are never looked at. */
  lemma {:induction false} DecodeSerialize(seqs: seq<Sequence>, src: seq<byte>, ip: nat, dict: seq<byte>, cap: nat, out: seq<byte>)
    requires Applicable(seqs, |dict|, |out|)
    requires |Expand(seqs, dict, out)| <= cap && cap + |dict| < U64_LIMIT
    requires ip + |Serialize(seqs)| <= |src| && src[ip..ip + |Serialize(seqs)|] == Serialize(seqs)
    ensures |out| <= cap
    ensures DecodeFrom(src, ip, dict, cap, out) == Success(Expand(seqs, dict, out))
    decreases |seqs|
  {
    hide ReadLits, ReadMatch, SeqBytes, Copy;
    var s := seqs[0];
    SliceParts(src, ip, SeqBytes(s), Serialize(seqs[1..]));
    if |seqs| == 1 {
      ReadsSeq(src, ip, s);
    } else {
      CopyLength(dict, seqs, out);
      ReadsSeq(src, ip, s);
      DecodeSerialize(seqs[1..], src, ip + |SeqBytes(s)|, dict, cap, Copy(dict, out + s.lits, s.dist, s.mlen));
    }
  }
}
