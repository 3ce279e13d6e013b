/** Published XXH64 values, and what the hash tells of the last bytes of an input of given length
    (src/common/xq_xxh64.c:14-170, tests/test_xxh64.c:27-41). */
module XxhFacts {
  import opened Bytes
  import opened Xxh64
  import Words

  // ----- unfolding the hash

  lemma FinishOfShort(total: nat, l: Lanes, seed: bv64, s: seq<byte>, n: bv64)
    requires total < 32 && Length(total) == n
    ensures Finish(total, l, seed, s) == Avalanche(Tail(Add(Add(seed, P5), n), s))
  {
    hide Avalanche, Tail, Length, Merge, Add;
  }

  lemma FinishOfLong(total: nat, l: Lanes, seed: bv64, s: seq<byte>, n: bv64)
    requires total >= 32 && Length(total) == n
    ensures Finish(total, l, seed, s) == Avalanche(Tail(Add(Merge(l), n), s))
  {
    hide Avalanche, Tail, Length, Merge, Add;
  }

  lemma HashOfShort(s: seq<byte>, seed: bv64, n: bv64)
    requires |s| < 32 && Length(|s|) == n
    ensures Hash(s, seed) == Avalanche(Tail(Add(Add(seed, P5), n), s))
  {
    hide Stripes, Avalanche, Tail, Length, Merge, StartLanes, Finish, Add;
    assert Remainder(s) == s;
    FinishOfShort(|s|, Stripes(StartLanes(seed), s), seed, s, n);
  }

  lemma HashOfStripes(a: seq<byte>, s: seq<byte>, seed: bv64, n: bv64)
    requires |a| % 32 == 0 && |a| >= 32 && |s| < 32 && Length(|a| + |s|) == n
    ensures Hash(a + s, seed) == Avalanche(Tail(Add(Merge(Stripes(StartLanes(seed), a)), n), s))
  {
    hide Stripe, Stripes, Avalanche, Tail, Length, Merge, Remainder, StartLanes, Finish, Add;
    SplitRest(StartLanes(seed), a, s);
    FinishOfLong(|a + s|, Stripes(StartLanes(seed), a), seed, s, n);
  }

  lemma StripeParts(l: Lanes, a: seq<byte>, b: seq<byte>, c: seq<byte>, d: seq<byte>)
    requires |a| == |b| == |c| == |d| == 8
    ensures Stripe(l, a + b + c + d)
            == Lanes(Round(l.v1, Load64(a, 0)), Round(l.v2, Load64(b, 0)), Round(l.v3, Load64(c, 0)), Round(l.v4, Load64(d, 0)))
  {
    hide Round, Load64;
    var s := a + b + c + d;
    LoadMoves(a, s, 0);
    LoadMoves(b, s, 8);
    LoadMoves(c, s, 16);
    LoadMoves(d, s, 24);
  }

  lemma LoadMoves(a: seq<byte>, s: seq<byte>, i: nat)
    requires |a| == 8 && i + 8 <= |s| && s[i..i + 8] == a
    ensures Load64(s, i) == Load64(a, 0)
  {
    hide Word;
    assert forall k {:trigger a[k]} :: 0 <= k < 8 ==> a[k] == s[i + k];
  }

  lemma TailOfWord(h: bv64, a: seq<byte>, s: seq<byte>)
    requires |a| == 8
    ensures Tail(h, a + s) == Tail(MixWord(h, Load64(a, 0)), s)
  {
    hide MixWord, Word;
    LoadMoves(a, a + s, 0);
    assert (a + s)[8..] == s;
    hide Load64;
  }

  lemma TailOfHalf(h: bv64, a: seq<byte>, s: seq<byte>)
    requires |a| == 4 && |s| < 4
    ensures Tail(h, a + s) == Tail(MixHalf(h, Load32(a, 0)), s)
  {
    hide MixHalf, Word;
    assert (a + s)[4..] == s;
    assert Load32(a + s, 0) == Load32(a, 0);
    hide Load32;
  }

  lemma TailOfByte(h: bv64, b: byte, s: seq<byte>)
    requires |s| < 3
    ensures Tail(h, [b] + s) == Tail(MixByte(h, Word(b)), s)
  {
    hide MixByte, Word;
    assert ([b] + s)[1..] == s;
  }

  lemma TailOfNothing(h: bv64)
    ensures Tail(h, []) == h
  {}

  // ----- published values

  lemma Lengths()
    ensures Length(0) == 0 && Length(1) == 1 && Length(3) == 3 && Length(9) == 9 && Length(13) == 13 && Length(39) == 39
  {}

  lemma SingleBytes()
    ensures Word(0x61) == 0x61 && Word(0x62) == 0x62 && Word(0x63) == 0x63 && Word(0x39) == 0x39 && Word(0x21) == 0x21
    ensures Word(0x69) == 0x69 && Word(0x6F) == 0x6F && Word(0x6E) == 0x6E
  {}

  /** The empty string, with seeds 0 and 1. */
  lemma OfNothing()
    ensures Hash([], 0) == 0xEF46DB3751D8E999 && Hash([], 1) == 0xD5AFBA1336A3BE4B
  {
    hide Length, Tail, Hash;
    Lengths();
    HashOfShort([], 0, 0);
    HashOfShort([], 1, 0);
    TailOfNothing(Add(Add(0, P5), 0));
    TailOfNothing(Add(Add(1, P5), 0));
  }

  /** "a". */
  lemma OfA()
    ensures Hash([0x61], 0) == 0xD24EC4F1A98C6E5B
  {
    hide Length, Tail, Hash, Word;
    Lengths();
    SingleBytes();
    HashOfShort([0x61], 0, 1);
    TailOfByte(0x27D4EB2F165667C6, 0x61, []);
    TailOfNothing(0xB86597E419D4D215);
    assert [0x61] + [] == [0x61];
  }

  lemma TailOfAbc()
    ensures Tail(0x27D4EB2F165667C8, [0x61, 0x62, 0x63]) == 0xE87A46F8B9A4C39E
  {
    hide Tail, Word;
    SingleBytes();
    TailOfByte(0x27D4EB2F165667C8, 0x61, [0x62, 0x63]);
    TailOfByte(0xE6D11BDC91F0215, 0x62, [0x63]);
    TailOfByte(0x791983E9AB307069, 0x63, []);
    TailOfNothing(0xE87A46F8B9A4C39E);
    assert [0x61] + [0x62, 0x63] == [0x61, 0x62, 0x63] && [0x62] + [0x63] == [0x62, 0x63] && [0x63] + [] == [0x63];
  }

  /** "abc". */
  lemma OfAbc()
    ensures Hash([0x61, 0x62, 0x63], 0) == 0x44BC2CF5AD770999
  {
    hide Length, Tail, Hash;
    Lengths();
    HashOfShort([0x61, 0x62, 0x63], 0, 3);
    TailOfAbc();
  }

  lemma LoadDigits()
    ensures Load64([0x31, 0x32, 0x33, 0x34, 0x35, 0x36, 0x37, 0x38], 0) == 0x3837363534333231
  {}

  /** "123456789". */
  lemma OfDigits()
    ensures Hash([0x31, 0x32, 0x33, 0x34, 0x35, 0x36, 0x37, 0x38, 0x39], 0) == 0x8CB841DB40E6AE83
  {
    hide Length, Tail, Hash, Load64, Word;
    var a: seq<byte> := [0x31, 0x32, 0x33, 0x34, 0x35, 0x36, 0x37, 0x38];
    Lengths();
    LoadDigits();
    SingleBytes();
    HashOfShort(a + [0x39], 0, 9);
    TailOfWord(0x27D4EB2F165667CE, a, [0x39]);
    TailOfByte(0x37F5A72920D0BE4, 0x39, []);
    TailOfNothing(0xE200A906FCE72C58);
    assert [0x39] + [] == [0x39];
    assert a + [0x39] == [0x31, 0x32, 0x33, 0x34, 0x35, 0x36, 0x37, 0x38, 0x39];
  }

  lemma LoadHello()
    ensures Load64([0x48, 0x65, 0x6C, 0x6C, 0x6F, 0x2C, 0x20, 0x77], 0) == 0x77202C6F6C6C6548
  {}

  lemma LoadWorld()
    ensures Load32([0x6F, 0x72, 0x6C, 0x64], 0) == 0x646C726F
  {}

  lemma TailOfHello()
    ensures Tail(0x27D4EB2F165667D2, [0x48, 0x65, 0x6C, 0x6C, 0x6F, 0x2C, 0x20, 0x77, 0x6F, 0x72, 0x6C, 0x64, 0x21]) == 0x58D1372ABC5BBA66
  {
    hide Tail, Load64, Load32, Word;
    var a: seq<byte> := [0x48, 0x65, 0x6C, 0x6C, 0x6F, 0x2C, 0x20, 0x77];
    var b: seq<byte> := [0x6F, 0x72, 0x6C, 0x64];
    var c: seq<byte> := [0x21];
    LoadHello();
    LoadWorld();
    SingleBytes();
    TailOfWord(0x27D4EB2F165667D2, a, b + c);
    TailOfHalf(0x28C9D6F513D2C3F8, b, c);
    TailOfByte(0x9F3E20D5C3EA28AC, 0x21, []);
    TailOfNothing(0x58D1372ABC5BBA66);
    assert [0x21] + [] == [0x21];
    assert a + (b + c) == [0x48, 0x65, 0x6C, 0x6C, 0x6F, 0x2C, 0x20, 0x77, 0x6F, 0x72, 0x6C, 0x64, 0x21];
  }

  /** "Hello, world!": a word, the half word and a byte. */
  lemma OfHello()
    ensures Hash([0x48, 0x65, 0x6C, 0x6C, 0x6F, 0x2C, 0x20, 0x77, 0x6F, 0x72, 0x6C, 0x64, 0x21], 0) == 0xF58336A78B6F9476
  {
    hide Length, Tail, Hash;
    Lengths();
    HashOfShort([0x48, 0x65, 0x6C, 0x6C, 0x6F, 0x2C, 0x20, 0x77, 0x6F, 0x72, 0x6C, 0x64, 0x21], 0, 13);
    TailOfHello();
  }

  lemma LoadNobody()
    ensures Load64([0x4E, 0x6F, 0x62, 0x6F, 0x64, 0x79, 0x20, 0x69], 0) == 0x692079646F626F4E
  {}

  lemma LoadInspects()
    ensures Load64([0x6E, 0x73, 0x70, 0x65, 0x63, 0x74, 0x73, 0x20], 0) == 0x207374636570736E
  {}

  lemma LoadThe()
    ensures Load64([0x74, 0x68, 0x65, 0x20, 0x73, 0x70, 0x61, 0x6D], 0) == 0x6D61707320656874
  {}

  lemma LoadSpammish()
    ensures Load64([0x6D, 0x69, 0x73, 0x68, 0x20, 0x72, 0x65, 0x70], 0) == 0x706572206873696D
  {}

  lemma LoadTit()
    ensures Load32([0x65, 0x74, 0x69, 0x74], 0) == 0x74697465
  {}

  lemma LanesOfSentence(a: seq<byte>, b: seq<byte>, c: seq<byte>, d: seq<byte>)
    requires a == [0x4E, 0x6F, 0x62, 0x6F, 0x64, 0x79, 0x20, 0x69] && b == [0x6E, 0x73, 0x70, 0x65, 0x63, 0x74, 0x73, 0x20]
    requires c == [0x74, 0x68, 0x65, 0x20, 0x73, 0x70, 0x61, 0x6D] && d == [0x6D, 0x69, 0x73, 0x68, 0x20, 0x72, 0x65, 0x70]
    ensures Stripe(StartLanes(0), a + b + c + d)
            == Lanes(0x37245127A4067E4B, 0x1B302B0A818F92CF, 0xCD62D843D0580FCA, 0x1C16E43EF2142A4A)
  {
    hide Stripe, Load64, Word;
    StripeParts(StartLanes(0), a, b, c, d);
    LoadNobody();
    LoadInspects();
    LoadThe();
    LoadSpammish();
  }

  lemma MergeOfSentence()
    ensures Merge(Lanes(0x37245127A4067E4B, 0x1B302B0A818F92CF, 0xCD62D843D0580FCA, 0x1C16E43EF2142A4A)) == 0x84F22C421A11A8B5
  {
    assert MergeRound(0xC4DE2CE639FB8154, 0x37245127A4067E4B) == 0x30D40DDD00AEA144;
    assert MergeRound(0x30D40DDD00AEA144, 0x1B302B0A818F92CF) == 0xE5A1F095BF498698;
    assert MergeRound(0xE5A1F095BF498698, 0xCD62D843D0580FCA) == 0xF9CEE721E748096D;
    assert MergeRound(0xF9CEE721E748096D, 0x1C16E43EF2142A4A) == 0x84F22C421A11A8B5;
    hide MergeRound;
  }

  lemma TailOfSentence()
    ensures Tail(0x84F22C421A11A8DC, [0x65, 0x74, 0x69, 0x74, 0x69, 0x6F, 0x6E]) == 0x1D0A47483B37CC24
  {
    hide Tail, Load32, Word, Digit;
    LoadTit();
    SingleBytes();
    var r: seq<byte> := [0x65, 0x74, 0x69, 0x74];
    TailOfHalf(0x84F22C421A11A8DC, r, [0x69, 0x6F, 0x6E]);
    TailOfByte(0x9FCA0F5D0AAA110F, 0x69, [0x6F, 0x6E]);
    TailOfByte(0x769671546F21BA14, 0x6F, [0x6E]);
    TailOfByte(0xEAE9B643C5F94E52, 0x6E, []);
    TailOfNothing(0x1D0A47483B37CC24);
    assert r + [0x69, 0x6F, 0x6E] == [0x65, 0x74, 0x69, 0x74, 0x69, 0x6F, 0x6E];
    assert [0x69] + [0x6F, 0x6E] == [0x69, 0x6F, 0x6E] && [0x6F] + [0x6E] == [0x6F, 0x6E] && [0x6E] + [] == [0x6E];
  }

  /** "Nobody inspects the spammish repetition": one stripe, a half word and three bytes. */
  lemma OfSentence(a: seq<byte>, b: seq<byte>, c: seq<byte>, d: seq<byte>, r: seq<byte>)
    requires a == [0x4E, 0x6F, 0x62, 0x6F, 0x64, 0x79, 0x20, 0x69] && b == [0x6E, 0x73, 0x70, 0x65, 0x63, 0x74, 0x73, 0x20]
    requires c == [0x74, 0x68, 0x65, 0x20, 0x73, 0x70, 0x61, 0x6D] && d == [0x6D, 0x69, 0x73, 0x68, 0x20, 0x72, 0x65, 0x70]
    requires r == [0x65, 0x74, 0x69, 0x74, 0x69, 0x6F, 0x6E]
    ensures Hash(a + b + c + d + r, 0) == 0xFBCEA83C8A378BF1
  {
    hide Length, Tail, Hash, Stripe, Stripes, Merge, StartLanes;
    Lengths();
    HashOfStripes(a + b + c + d, r, 0, 39);
    StripesOfOne(StartLanes(0), a + b + c + d);
    LanesOfSentence(a, b, c, d);
    MergeOfSentence();
    TailOfSentence();
  }

  // ----- each step can be undone

  function Over1(x: bv64): bv64 { x * 614540362697595703 }

  lemma Factor1(a: bv64)
    ensures Times1(a) == a * 11400714785074694791
  {}

  lemma Back1(a: bv64)
    ensures Over1(a * 11400714785074694791) == a
  {}

  lemma OverTimes1(a: bv64)
    ensures Over1(Times1(a)) == a
  {
    hide Times1, Over1;
    Factor1(a);
    Back1(a);
  }

  lemma Times1Injective(a: bv64, b: bv64)
    requires Times1(a) == Times1(b)
    ensures a == b
  {
    hide Times1, Over1;
    OverTimes1(a);
    OverTimes1(b);
  }

  function Over2(x: bv64): bv64 { x * 839798700976720815 }

  lemma Factor2(a: bv64)
    ensures Times2(a) == a * 14029467366897019727
  {}

  lemma Back2(a: bv64)
    ensures Over2(a * 14029467366897019727) == a
  {}

  lemma OverTimes2(a: bv64)
    ensures Over2(Times2(a)) == a
  {
    hide Times2, Over2;
    Factor2(a);
    Back2(a);
  }

  lemma Times2Injective(a: bv64, b: bv64)
    requires Times2(a) == Times2(b)
    ensures a == b
  {
    hide Times2, Over2;
    OverTimes2(a);
    OverTimes2(b);
  }

  function Over3(x: bv64): bv64 { x * 16855272203555305545 }

  lemma Factor3(a: bv64)
    ensures Times3(a) == a * 1609587929392839161
  {}

  lemma Back3(a: bv64)
    ensures Over3(a * 1609587929392839161) == a
  {}

  lemma OverTimes3(a: bv64)
    ensures Over3(Times3(a)) == a
  {
    hide Times3, Over3;
    Factor3(a);
    Back3(a);
  }

  lemma Times3Injective(a: bv64, b: bv64)
    requires Times3(a) == Times3(b)
    ensures a == b
  {
    hide Times3, Over3;
    OverTimes3(a);
    OverTimes3(b);
  }

  function Over5(x: bv64): bv64 { x * 14236653164957433613 }

  lemma Factor5(a: bv64)
    ensures Times5(a) == a * 2870177450012600261
  {}

  lemma Back5(a: bv64)
    ensures Over5(a * 2870177450012600261) == a
  {}

  lemma OverTimes5(a: bv64)
    ensures Over5(Times5(a)) == a
  {
    hide Times5, Over5;
    Factor5(a);
    Back5(a);
  }

  lemma Times5Injective(a: bv64, b: bv64)
    requires Times5(a) == Times5(b)
    ensures a == b
  {
    hide Times5, Over5;
    OverTimes5(a);
    OverTimes5(b);
  }

  lemma Folded33Is(x: bv64)
    ensures Folded33(x) == x ^ (x >> 33)
  {}

  lemma FoldBack33(x: bv64)
    ensures Folded33(x ^ (x >> 33)) == x
  {}

  lemma Folded33Injective(a: bv64, b: bv64)
    requires Folded33(a) == Folded33(b)
    ensures a == b
  {
    hide Folded33;
    Folded33Is(a);
    Folded33Is(b);
    FoldBack33(a);
    FoldBack33(b);
  }

  lemma Folded32Is(x: bv64)
    ensures Folded32(x) == x ^ (x >> 32)
  {}

  lemma FoldBack32(x: bv64)
    ensures Folded32(x ^ (x >> 32)) == x
  {}

  lemma Folded32Injective(a: bv64, b: bv64)
    requires Folded32(a) == Folded32(b)
    ensures a == b
  {
    hide Folded32;
    Folded32Is(a);
    Folded32Is(b);
    FoldBack32(a);
    FoldBack32(b);
  }

  function Unfolded29(x: bv64): bv64 { x ^ (x >> 29) ^ (x >> 58) }

  lemma Folded29Is(x: bv64)
    ensures Folded29(x) == x ^ (x >> 29)
  {}

  lemma FoldBack29(x: bv64)
    ensures Unfolded29(x ^ (x >> 29)) == x
  {}

  lemma Folded29Injective(a: bv64, b: bv64)
    requires Folded29(a) == Folded29(b)
    ensures a == b
  {
    hide Folded29, Unfolded29;
    Folded29Is(a);
    Folded29Is(b);
    FoldBack29(a);
    FoldBack29(b);
  }

  lemma AvalancheInjective(a: bv64, b: bv64)
    requires Avalanche(a) == Avalanche(b)
    ensures a == b
  {
    hide Times2, Times3, Folded33, Folded32, Folded29;
    var a1, b1 := Folded33(a), Folded33(b);
    var a2, b2 := Times2(a1), Times2(b1);
    var a3, b3 := Folded29(a2), Folded29(b2);
    Folded32Injective(Times3(a3), Times3(b3));
    Times3Injective(a3, b3);
    Folded29Injective(a2, b2);
    Times2Injective(a1, b1);
    Folded33Injective(a, b);
  }

  lemma Left31Injective(a: bv64, b: bv64)
    requires Left31(a) == Left31(b)
    ensures a == b
  {}

  lemma Left27Injective(a: bv64, b: bv64)
    requires Left27(a) == Left27(b)
    ensures a == b
  {}

  lemma Left23Injective(a: bv64, b: bv64)
    requires Left23(a) == Left23(b)
    ensures a == b
  {}

  lemma Left11Injective(a: bv64, b: bv64)
    requires Left11(a) == Left11(b)
    ensures a == b
  {}

  lemma XorIs(h: bv64, a: bv64)
    ensures Xor(h, a) == h ^ a && Xor(h ^ a, h) == a && Xor(h ^ a, a) == h
  {}

  lemma XorInjective(h: bv64, a: bv64, b: bv64)
    ensures Xor(h, a) == Xor(h, b) ==> a == b
    ensures Xor(a, h) == Xor(b, h) ==> a == b
  {
    hide Xor;
    XorIs(h, a);
    XorIs(h, b);
    XorIs(a, h);
    XorIs(b, h);
  }

  function Less(a: bv64, b: bv64): bv64 { a - b }

  lemma AddIs(h: bv64, a: bv64)
    ensures Add(h, a) == h + a && Less(h + a, h) == a && Less(h + a, a) == h
  {}

  lemma AddInjective(h: bv64, a: bv64, b: bv64)
    ensures Add(h, a) == Add(h, b) ==> a == b
    ensures Add(a, h) == Add(b, h) ==> a == b
  {
    hide Add, Less;
    AddIs(h, a);
    AddIs(h, b);
    AddIs(a, h);
    AddIs(b, h);
  }

  lemma RoundInjective(acc: bv64, a: bv64, b: bv64)
    requires Round(acc, a) == Round(acc, b)
    ensures a == b
  {
    hide Times1, Times2, Left31, Add;
    var x, y := Add(acc, Times2(a)), Add(acc, Times2(b));
    Times1Injective(Left31(x), Left31(y));
    Left31Injective(x, y);
    AddInjective(acc, Times2(a), Times2(b));
    Times2Injective(a, b);
  }

  /** One word mixed in: the result tells both of the state before it and of the word. */
  lemma MixWordInjective(h: bv64, g: bv64, a: bv64, b: bv64)
    requires MixWord(h, a) == MixWord(g, b)
    ensures a == b ==> h == g
    ensures h == g ==> a == b
  {
    hide Times1, Left27, Add, Xor, Round;
    var x, y := Xor(h, Round(0, a)), Xor(g, Round(0, b));
    AddInjective(P4, Times1(Left27(x)), Times1(Left27(y)));
    Times1Injective(Left27(x), Left27(y));
    Left27Injective(x, y);
    if a == b {
      XorInjective(Round(0, a), h, g);
    }
    if h == g {
      XorInjective(h, Round(0, a), Round(0, b));
      RoundInjective(0, a, b);
    }
  }

  lemma MixHalfInjective(h: bv64, g: bv64, a: bv64, b: bv64)
    requires MixHalf(h, a) == MixHalf(g, b)
    ensures a == b ==> h == g
    ensures h == g ==> a == b
  {
    hide Times1, Times2, Left23, Add, Xor;
    var x, y := Xor(h, Times1(a)), Xor(g, Times1(b));
    AddInjective(P3, Times2(Left23(x)), Times2(Left23(y)));
    Times2Injective(Left23(x), Left23(y));
    Left23Injective(x, y);
    if a == b {
      XorInjective(Times1(a), h, g);
    }
    if h == g {
      XorInjective(h, Times1(a), Times1(b));
      Times1Injective(a, b);
    }
  }

  lemma MixByteInjective(h: bv64, g: bv64, a: bv64, b: bv64)
    requires MixByte(h, a) == MixByte(g, b)
    ensures a == b ==> h == g
    ensures h == g ==> a == b
  {
    hide Times1, Times5, Left11, Xor;
    var x, y := Xor(h, Times5(a)), Xor(g, Times5(b));
    Times1Injective(Left11(x), Left11(y));
    Left11Injective(x, y);
    if a == b {
      XorInjective(Times5(a), h, g);
    }
    if h == g {
      XorInjective(h, Times5(a), Times5(b));
      Times5Injective(a, b);
    }
  }

  // ----- words tell their bytes

  lemma DigitSmall(n: nat)
    ensures Digit(n) <= 15
  {}

  lemma DigitInjective(m: nat, n: nat)
    requires m < 16 && n < 16 && Digit(m) == Digit(n)
    ensures m == n
  {}

  lemma TwoDigits(a: bv64, b: bv64, c: bv64, d: bv64)
    requires a <= 15 && b <= 15 && c <= 15 && d <= 15
    ensures (a << 4) | b <= 0xFF
    ensures (a << 4) | b == (c << 4) | d ==> a == c && b == d
  {}

  lemma WordSmall(b: byte)
    ensures Word(b) <= 0xFF
  {
    hide Digit;
    var h, l := b as int / 16, b as int % 16;
    DigitSmall(h);
    DigitSmall(l);
    TwoDigits(Digit(h), Digit(l), 0, 0);
  }

  lemma WordInjective(a: byte, b: byte)
    requires Word(a) == Word(b)
    ensures a == b
  {
    hide Digit;
    var h, l, h', l' := a as int / 16, a as int % 16, b as int / 16, b as int % 16;
    DigitSmall(h);
    DigitSmall(l);
    DigitSmall(h');
    DigitSmall(l');
    TwoDigits(Digit(h), Digit(l), Digit(h'), Digit(l'));
    DigitInjective(h, h');
    DigitInjective(l, l');
  }

  lemma FourWords(a: bv64, b: bv64, c: bv64, d: bv64, a': bv64, b': bv64, c': bv64, d': bv64)
    requires a <= 0xFF && b <= 0xFF && c <= 0xFF && d <= 0xFF && a' <= 0xFF && b' <= 0xFF && c' <= 0xFF && d' <= 0xFF
    ensures a | (b << 8) | (c << 16) | (d << 24) <= 0xFFFF_FFFF
    ensures a | (b << 8) | (c << 16) | (d << 24) == a' | (b' << 8) | (c' << 16) | (d' << 24) ==> a == a' && b == b' && c == c' && d == d'
  {}

  lemma TwoHalves(a: bv64, b: bv64, a': bv64, b': bv64)
    requires a <= 0xFFFF_FFFF && b <= 0xFFFF_FFFF && a' <= 0xFFFF_FFFF && b' <= 0xFFFF_FFFF
    ensures a | (b << 32) == a' | (b' << 32) ==> a == a' && b == b'
  {}

  lemma Load32Injective(s: seq<byte>, t: seq<byte>, i: nat)
    requires i + 4 <= |s| && i + 4 <= |t|
    ensures Load32(s, i) <= 0xFFFF_FFFF
    ensures Load32(s, i) == Load32(t, i) ==> s[i..i + 4] == t[i..i + 4]
  {
    hide Word;
    forall b: byte
      ensures Word(b) <= 0xFF
    {
      WordSmall(b);
    }
    FourWords(Word(s[i]), Word(s[i + 1]), Word(s[i + 2]), Word(s[i + 3]),
              Word(t[i]), Word(t[i + 1]), Word(t[i + 2]), Word(t[i + 3]));
    if Load32(s, i) == Load32(t, i) {
      WordInjective(s[i], t[i]);
      WordInjective(s[i + 1], t[i + 1]);
      WordInjective(s[i + 2], t[i + 2]);
      WordInjective(s[i + 3], t[i + 3]);
    }
  }

  lemma Load64Injective(s: seq<byte>, t: seq<byte>)
    requires |s| >= 8 && |t| >= 8 && Load64(s, 0) == Load64(t, 0)
    ensures s[..8] == t[..8]
  {
    hide Load32;
    Load32Injective(s, t, 0);
    Load32Injective(s, t, 4);
    Load32Injective(t, s, 0);
    Load32Injective(t, s, 4);
    TwoHalves(Load32(s, 0), Load32(s, 4), Load32(t, 0), Load32(t, 4));
    assert s[..8] == s[0..4] + s[4..8] && t[..8] == t[0..4] + t[4..8];
  }

  // ----- the tail tells its last difference

  /** Two strings of one length that differ in exactly one unit: an eight-byte word, the four-byte one, or a byte
      behind those. */
  predicate OneUnit(s: seq<byte>, t: seq<byte>)
    decreases |s|
  {
    && |s| == |t| > 0
    && var n := if |s| >= 8 then 8 else if |s| >= 4 then 4 else 1;
       if s[..n] == t[..n] then OneUnit(s[n..], t[n..]) else s[n..] == t[n..]
  }

  lemma {:induction false} TailInjective(h: bv64, g: bv64, s: seq<byte>)
    requires Tail(h, s) == Tail(g, s)
    ensures h == g
    decreases |s|
  {
    hide MixWord, MixHalf, MixByte, Load64, Load32, Word;
    if |s| >= 8 {
      TailInjective(MixWord(h, Load64(s, 0)), MixWord(g, Load64(s, 0)), s[8..]);
      MixWordInjective(h, g, Load64(s, 0), Load64(s, 0));
    } else if |s| >= 4 {
      TailInjective(MixHalf(h, Load32(s, 0)), MixHalf(g, Load32(s, 0)), s[4..]);
      MixHalfInjective(h, g, Load32(s, 0), Load32(s, 0));
    } else if |s| >= 1 {
      TailInjective(MixByte(h, Word(s[0])), MixByte(g, Word(s[0])), s[1..]);
      MixByteInjective(h, g, Word(s[0]), Word(s[0]));
    }
  }

  lemma SameWord(s: seq<byte>, t: seq<byte>)
    requires |s| >= 8 && |t| >= 8 && s[..8] == t[..8]
    ensures Load64(s, 0) == Load64(t, 0)
  {
    LoadMoves(s[..8], s, 0);
    LoadMoves(s[..8], t, 0);
    hide Load64;
  }

  lemma SameHalf(s: seq<byte>, t: seq<byte>)
    requires |s| >= 4 && |t| >= 4 && s[..4] == t[..4]
    ensures Load32(s, 0) == Load32(t, 0)
  {
    hide Word;
    assert s[0] == s[..4][0] && s[1] == s[..4][1] && s[2] == s[..4][2] && s[3] == s[..4][3];
    assert t[0] == t[..4][0] && t[1] == t[..4][1] && t[2] == t[..4][2] && t[3] == t[..4][3];
  }

  lemma WordTells(h: bv64, s: seq<byte>, t: seq<byte>)
    requires |s| == |t| >= 8 && s[..8] != t[..8] && s[8..] == t[8..]
    ensures Tail(h, s) != Tail(h, t)
  {
    hide MixWord, MixHalf, MixByte, Load64, Load32, Word;
    var a, b := Load64(s, 0), Load64(t, 0);
    if Tail(h, s) == Tail(h, t) {
      TailInjective(MixWord(h, a), MixWord(h, b), s[8..]);
      MixWordInjective(h, h, a, b);
      Load64Injective(s, t);
    }
  }

  lemma HalfTells(h: bv64, s: seq<byte>, t: seq<byte>)
    requires 4 <= |s| == |t| < 8 && s[..4] != t[..4] && s[4..] == t[4..]
    ensures Tail(h, s) != Tail(h, t)
  {
    hide MixWord, MixHalf, MixByte, Load64, Load32, Word;
    var a, b := Load32(s, 0), Load32(t, 0);
    if Tail(h, s) == Tail(h, t) {
      assert s[0..4] == s[..4] && t[0..4] == t[..4];
      TailInjective(MixHalf(h, a), MixHalf(h, b), s[4..]);
      MixHalfInjective(h, h, a, b);
      Load32Injective(s, t, 0);
    }
  }

  lemma ByteTells(h: bv64, s: seq<byte>, t: seq<byte>)
    requires 1 <= |s| == |t| < 4 && s[..1] != t[..1] && s[1..] == t[1..]
    ensures Tail(h, s) != Tail(h, t)
  {
    hide MixWord, MixHalf, MixByte, Load64, Load32, Word;
    var a, b := Word(s[0]), Word(t[0]);
    if Tail(h, s) == Tail(h, t) {
      assert s[..1] == [s[0]] && t[..1] == [t[0]];
      TailInjective(MixByte(h, a), MixByte(h, b), s[1..]);
      MixByteInjective(h, h, a, b);
      WordInjective(s[0], t[0]);
    }
  }

  lemma {:induction false} TailTells(h: bv64, s: seq<byte>, t: seq<byte>)
    requires OneUnit(s, t)
    ensures Tail(h, s) != Tail(h, t)
    decreases |s|
  {
    hide MixWord, MixHalf, MixByte, Load64, Load32, Word;
    if |s| >= 8 {
      if s[..8] == t[..8] {
        SameWord(s, t);
        TailTells(MixWord(h, Load64(s, 0)), s[8..], t[8..]);
      } else {
        WordTells(h, s, t);
      }
    } else if |s| >= 4 {
      if s[..4] == t[..4] {
        SameHalf(s, t);
        TailTells(MixHalf(h, Load32(s, 0)), s[4..], t[4..]);
      } else {
        HalfTells(h, s, t);
      }
    } else if s[..1] == t[..1] {
      assert s[0] == s[..1][0] && t[0] == t[..1][0];
      TailTells(MixByte(h, Word(s[0])), s[1..], t[1..]);
    } else {
      ByteTells(h, s, t);
    }
  }

  /** Behind the same whole stripes, a difference in one unit of the last fewer than 32 bytes changes the hash:
      whatever the seed. */
  lemma HashTells(a: seq<byte>, s: seq<byte>, t: seq<byte>, seed: bv64)
    requires |a| % 32 == 0 && |s| < 32 && OneUnit(s, t)
    ensures Hash(a + s, seed) != Hash(a + t, seed)
  {
    hide Stripe, Stripes, Avalanche, Tail, Length, Merge, StartLanes, Finish, Add, Hash, OneUnit;
    UnitLength(s, t);
    var n := Length(|a| + |s|);
    var h := if |a| >= 32 then Add(Merge(Stripes(StartLanes(seed), a)), n) else Add(Add(seed, P5), n);
    if |a| >= 32 {
      HashOfStripes(a, s, seed, n);
      HashOfStripes(a, t, seed, n);
    } else {
      assert a + s == s && a + t == t;
      HashOfShort(s, seed, n);
      HashOfShort(t, seed, n);
    }
    TailTells(h, s, t);
    if Hash(a + s, seed) == Hash(a + t, seed) {
      AvalancheInjective(Tail(h, s), Tail(h, t));
    }
  }

  lemma UnitLength(s: seq<byte>, t: seq<byte>)
    requires OneUnit(s, t)
    ensures |s| == |t|
  {}

  // ----- as a stored number

  /** "a" again, as the number that is stored. */
  lemma StoredOfA()
    ensures Hash64([0x61]) == 0xD24EC4F1A98C6E5B
  {
    hide Hash, Words.ToU32;
    OfA();
    HalvesOfA();
    LowOfA();
    HighOfA();
  }

  lemma HalvesOfA()
    ensures Words.LowHalf(0xD24EC4F1A98C6E5B) == 0xA98C6E5B && Words.HighHalf(0xD24EC4F1A98C6E5B) == 0xD24EC4F1
  {}

  lemma LowOfA()
    ensures Words.ToU32(0xA98C6E5B) == 0xA98C6E5B
  {}

  lemma HighOfA()
    ensures Words.ToU32(0xD24EC4F1) == 0xD24EC4F1
  {}

  /** Stored hashes tell such strings apart too. */
  lemma StoredTells(a: seq<byte>, s: seq<byte>, t: seq<byte>)
    requires |a| % 32 == 0 && |s| < 32 && OneUnit(s, t)
    ensures Hash64(a + s) != Hash64(a + t)
  {
    hide Hash, Words.ToU64, OneUnit;
    HashTells(a, s, t, 0);
    if Hash64(a + s) == Hash64(a + t) {
      Words.ToU64Injective(Hash(a + s, 0), Hash(a + t, 0));
    }
  }
}
