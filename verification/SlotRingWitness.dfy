/** Output does depend on threads: an input and options of `xq_compress` for which two runs of any two or
    more workers end with different files. At every level, checksum and block size. */
module SlotRingWitness {
  import opened Bytes
  import opened Codec
  import opened Container
  import opened ContainerProof
  import opened FileSpec
  import opened Format
  import opened SlotRing
  import opened SlotRingSame
  import opened SlotRingExact
  import Bound
  import HuffSize
  import LzbExpands
  import LzbParse
  import LzeStream
  import Varint

  /** The block that LZB expands codes to fewer bytes than it has, once its LZB stream has room. */
  lemma BlockIsUnstable(cfg: Config, hi: nat)
    requires ValidConfig(cfg) && cfg.codec == Lze && cfg.dict == LzbExpands.Dict() && hi >= 391
    ensures Unstable(cfg, LzbExpands.Block(), 0, hi)
  {
    hide BlockSize, LzbExpands.Dict, LzbExpands.Block, LzeStream.LzeForm, HuffSize.FormSize, LzbParse.LzbBytes,
         ValidConfig;
    BlockSizeRange(cfg);
    LzbExpands.Expands(cfg.level);
    FormOf391();
    var lz := LzbParse.LzbBytes(LzbExpands.Block(), LzbExpands.Dict(), cfg.level);
    FourBytes();
    HuffSize.FewBytesPay(lz, LzbExpands.BYTES, Codec.Bound(Lze, BlockSize(cfg)));
  }

  lemma FourBytes()
    ensures |LzbExpands.BYTES| == 4
  {}

  lemma FormOf391()
    ensures HuffSize.FormSize(391, 3) == 278
  {
    assert Varint.Put(3) == [3];
    assert |Varint.Put(391)| == 2;
  }

  const WHOLE := 0x1000_0000

  /** LZE with a dictionary of 2^21 bytes asked for. */
  function Options(level: nat, checksum: Checksum, blockLog: nat): Bound.Params {
    Bound.Params(Lze, level, checksum, blockLog, LzbExpands.DICT_SIZE)
  }

  /** Whole blocks of any size, the dictionary in front, and the short block. */
  function Input(): (x: seq<byte>)
    ensures |x| == WHOLE + LzbExpands.SIZE
  {
    LzbExpands.Dict() + seq(WHOLE - LzbExpands.DICT_SIZE, _ => 0) + LzbExpands.Block()
  }

  lemma InputParts()
    ensures Input()[..LzbExpands.DICT_SIZE] == LzbExpands.Dict() && Input()[WHOLE..] == LzbExpands.Block()
  {
    hide LzbExpands.Dict, LzbExpands.Block;
    var zeros: seq<byte> := seq(WHOLE - LzbExpands.DICT_SIZE, _ => 0);
    PartAt([], LzbExpands.Dict(), zeros + LzbExpands.Block());
    assert [] + LzbExpands.Dict() + (zeros + LzbExpands.Block()) == Input();
    PartAt(LzbExpands.Dict() + zeros, LzbExpands.Block(), []);
    assert LzbExpands.Dict() + zeros + LzbExpands.Block() + [] == Input();
  }

  /** With these options the dictionary a one-shot compression takes from the input is the wanted one. */
  lemma ConfigOfInput(level: nat, checksum: Checksum, blockLog: nat)
    requires 1 <= level <= 12 && 12 <= blockLog <= 28
    ensures var cfg := Bound.ConfigFor(Options(level, checksum, blockLog), Input());
            ValidConfig(cfg) && cfg == Config(Lze, level, checksum, blockLog, LzbExpands.Dict())
  {
    hide LzbExpands.Dict, LzbExpands.Block, Input;
    InputParts();
    Bound.ConfigIsValid(Options(level, checksum, blockLog), Input());
  }

  lemma WholeIsBlocks(cfg: Config)
    requires ValidConfig(cfg)
    ensures WHOLE + LzbExpands.SIZE > BlockSize(cfg) && (WHOLE + LzbExpands.SIZE) % BlockSize(cfg) == LzbExpands.SIZE
  {
    BlockSizeRange(cfg);
    Pow2Add(cfg.blockLog, 28 - cfg.blockLog);
    Bound.LogRange(28);
    Pow2Values();
    Pow2Add(12, 16);
    hide Pow2;
    DivUnique(WHOLE + LzbExpands.SIZE, BlockSize(cfg), Pow2(28 - cfg.blockLog), LzbExpands.SIZE);
  }

  lemma InputIsUnstable(cfg: Config)
    requires ValidConfig(cfg) && cfg.codec == Lze && cfg.dict == LzbExpands.Dict()
    ensures RingUnstable(cfg, Input())
  {
    BlockSizeRange(cfg);
    NeedMonotone(0x1000, BlockSize(cfg));
    WholeIsBlocks(cfg);
    BlockIsUnstable(cfg, LzeStream.MidNeed(BlockSize(cfg)));
    InputParts();
    hide BlockSize, LzbExpands.Dict, LzbExpands.Block, Unstable, ValidConfig, Input;
  }

  /** So compressing the same input twice with the same options, behind the same header and dictionary
      record, does not always give the same bytes. */
  lemma ThreadsShow(level: nat, checksum: Checksum, blockLog: nat, n: nat) returns (s: State, t: State)
    requires 1 <= level <= 12 && 12 <= blockLog <= 28 && n > 1
    ensures var cfg := Bound.ConfigFor(Options(level, checksum, blockLog), Input());
            && ValidConfig(cfg) && |DictJob(cfg).payload| <= DICT_MAX
            && var front := Front(cfg, |Input()|, 1, DictJob(cfg));
               && Ends(cfg, Input(), front, s) && Ends(cfg, Input(), front, t)
               && |s.workers| == |t.workers| == n && |t.sink| < |s.sink|
  {
    ConfigOfInput(level, checksum, blockLog);
    var cfg := Bound.ConfigFor(Options(level, checksum, blockLog), Input());
    hide ValidConfig, Ends, RingUnstable, Input, Bound.ConfigFor, LzbExpands.Dict, DictJob, Front;
    DictJobSmall(cfg);
    InputIsUnstable(cfg);
    s, t := RunsDiffer(cfg, Input(), Front(cfg, |Input()|, 1, DictJob(cfg)), n);
  }
}
