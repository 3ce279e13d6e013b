# Verified model of XQ

XQ is a block compressor: a codec library (STORED, LZB, LZE), a seekable container format, a parallel
encoder, a sequential decoder, a random-access reader with a shared cache, and a repair scan. This project
models that C code in Dafny and proves what it is for. `dafny verify dfyconfig.toml` checks everything.

## How it is built

Every operation has a specification on values (sequences of bytes, trees, records) and, where the C code
works in place, a method or a class with the same fields, loops and branches that is proved equal to it on
all inputs. The theorems are about the specifications.

| files | what they model |
|---|---|
| Bytes, Varint, LzbStream, LzbParse, LzbCodec | LZB: tokens and a reference decoder; hash chains, match search, lazy parse; the compressor and decompressor over arrays |
| LzbFinds | what the search does not miss: the longest candidate, the last occurrence of a hash, literals that are new, runs |
| HuffTree, HuffLens, HuffCode, HuffKraft, HuffStream | Huffman coding on values: greedy merging, Fibonacci depth bound, length limiting, canonical codes (section 3.2.2 of RFC 1951), Kraft equality, symbol streams |
| HuffBuild, HuffEncoder, HuffDecoder, BitIO | the same over the C arrays, bit accumulators and the flat decode table |
| HuffBest | no prefix-free code does better than Huffman's tree |
| LzeStream, LzeCodec | LZE: Huffman over the LZB stream, with the reused intermediate buffer |
| Words, Crc32cTable, Crc32c, Xxh64 | CRC-32C on 32-bit vectors (the polynomial of section 12.1 of RFC 3720), XXH64 on 64-bit vectors |
| XxhFacts, Vectors | published values: XXH64, base-128 integers, the code of RFC 1951, tokens, the matcher's parameters; what XXH64 tells apart |
| Format, Index | stored structures and the index |
| Codec, Dispatch, Container, ContainerProof, FileSpec | one block's job; a file as bytes and what decoding it means |
| Coded, Layout | when a block is coded, codec by codec and in a file; where every number of a file stands |
| Encoder, Bound, DictSample | the single-threaded encoder as a class; the size bound; dictionary sampling |
| Input, Decoder, Api | the decoder as a class over a refill buffer; one-shot compression and decompression |
| Damage, Order | what a sequential decoder notices: bursts, other checksums, other headers, blocks out of order or missing, unknown records |
| SlotRing, SlotRingSafe, SlotRingProps, SlotRingLive | the parallel encoder as a state machine over its mutex regions: safety, good files, progress |
| SlotRingSame, SlotRingScript, SlotRingExact, SlotRingWitness | when its output is a function of the input alone, exactly; runs for every assignment of blocks; two runs that differ |
| LzbExpands, HuffSize | the block behind that: a parse worked out byte by byte, and the size of a body over few symbols |
| ReaderSpec, ReaderProof, Lru, Reader, ReaderMt, PreadMt | opening, decoding a block, the LRU cache, `pread`, verify; concurrent block copies and concurrent reads as state machines |
| ReaderDamage | opening, verifying and reading a file with one damaged block, or a damaged header, index or footer |
| Repair, RepairExact, RepairDamage | the salvage scan; what it makes of an undamaged file and of one damaged block |

Integers are unbounded and widths are written out where they matter: 64-bit varints, 16-bit code registers,
the wrap-around in the size bound and in the sampling offset. Bit-vectors stay inside the two checksums (`Words` holds the conversions).

## What holds only under a condition

- **Byte-identical output at any thread count** (README.md line 80, USAGE.md line 236, docs/internals.md
  line 291) holds for LZB and STORED, and for LZE on inputs of whole blocks with a dictionary no longer than
  a block. It is false of LZE in general. A context's intermediate buffer starts empty and grows to the need
  of the blocks it codes; a short last block whose LZB stream is longer than its own need is stored by a
  worker that has coded nothing yet and compressed by one that has, when that pays.
  `SlotRingExact.RunsAgreeIff` says for exactly which inputs any two runs agree,
  `SlotRingExact.RunsAreSequentialIff` for which they agree with the single-threaded encoder, and
  `SlotRingWitness.ThreadsShow` gives an input and options of `xq_compress` on which two runs differ. In every
  case the parallel file is well formed, within the size bound, and decodes to the input.
- **`xq_compress_bound` is a bound** exactly while rounding the input up to a whole block stays below 2^64
  (`Bound.BoundIsRightIff`, with an input where it fails in `Bound.BoundCanBeTooSmall`).
- **Every encoded file opens for random access** except that of the empty input, whose footer has a zero
  index offset, one whose index record would exceed the 2^40 bytes a record may have, and one for which a
  memory limit has no room (`Reader.EncodedServes`).
- **The last sampled dictionary window reaches the end of the file** exactly while its 64-bit product does
  not wrap (`DictSample.WindowsSpanFile`, `DictSample.LastWindowCanFallShort`).
- **Repairing an undamaged file gives back the original**, without a dictionary, whenever file and input are
  below 2^32 bytes and there are at most 1048560 blocks (`RepairExact.UndamagedIsExact`): bytes behind the
  blocks that look like a block header do not decode there. For every size it does exactly when the scan
  behind the blocks stops at nothing that decodes to a block from the original's end on, and the report is
  flawless as well exactly when nothing there looks like a header (`Repair.UndamagedIsRestored`).
- **Damage to a block is noticed** for certain under CRC-32C, when the changed bytes are at most four neighbours
  (`Damage.FileBurstNoticed`, `ReaderDamage.DamagedFileOpens`, `RepairDamage.BurstSpoils`). Under XXH64 it is for
  certain when they lie in one unit of the last fewer than 32 bytes (`Damage.TailUnitRefused`); for the stripes before
  those a 64-bit hash has collisions, and no such claim is made. Under either checksum acceptance means that the stored
  checksum is that of the payload (`Damage.AcceptedSum`).
- **A missing block is noticed** by sequential decoding exactly when it is not the last one
  (`Order.CutBlockNoticedIff`): neither the header's size nor the footer is compared there.
- **Huffman coding is optimal** exactly where the builder claims it: as long as the plain tree is at most fifteen
  deep (`HuffBest.BodyIsShortest`); smoothed counts give a complete code, not always the best one.
- **A block or dictionary in LZE** inside a file whose header names another codec is refused with an internal
  error: only a file's own codec makes a decoding context.
- Hash chains may contain a self-loop, as lazy evaluation enters a position twice: the invariant of
  `LzbParse.InsertClosed` has a non-strict link, and searches end because tries are counted.

## Model

| member | source | states |
|---|---|---|
| LzbParse.LzbRoundTrip | src/codec/xq_codec_lzb.c:257-397 | For every input, dictionary and level, the compressor's stream (with anything behind it, for a non-empty input) decodes with that dictionary and any capacity of at least the input's length to exactly the input: chain search, lazy move, tokens and terminator included |
| LzbCodec.CCtx.Compress | src/codec/xq_codec_lzb.c:257-324 | The compressor over its reused `head`/`chain` arrays succeeds exactly when the stream fits the buffer and then writes `LzbBytes`, a stream that depends on input, dictionary and level alone: what an earlier call left in `chain` is never read. That it codes anything is `LzbFinds.LiteralsAreNew` and `LzbFinds.RunIsSmall` |
| LzbCodec.CCtx.Prepare | src/codec/xq_codec_lzb.c:142-159 | Sizes the tables and clears `head` only; no cell of the stale `chain` can be reached afterwards |
| LzbCodec.CDict.constructor | src/codec/xq_codec_lzb.c:84-109 | Indexing a dictionary yields closed chains over all of its four-byte positions |
| LzbParse.InsertClosed | src/codec/xq_codec_lzb.c:285-289 | Entering a position keeps every reachable chain cell written during this call and every link `chain[p] <= p + 1`, also when the position has been entered before |
| LzbParse.InsertRangeClosed | src/codec/xq_codec_lzb.c:310-314 | So does entering all positions of a match |
| LzbParse.DictChainsClosed | src/codec/xq_codec_lzb.c:103-107 | The dictionary's own chains have that invariant over the whole dictionary |
| LzbParse.MatchLenMeans | src/codec/xq_codec_lzb.c:161-167 | The match length is the one number of bytes on which the two places agree and behind which they differ or the limit is reached, in both directions |
| LzbCodec.ComputeMatchLen | src/codec/xq_codec_lzb.c:161-167 | Comparing eight bytes a time and then single bytes computes that length |
| LzbParse.FindMatchSound | src/codec/xq_codec_lzb.c:177-219 | Whatever the chains hold, a match that is reported is at least four bytes long and really repeats the text that many bytes before, in the dictionary or the block |
| LzbParse.SearchBlockSound | src/codec/xq_codec_lzb.c:186-196 | Following the block's chain keeps the best match so far a real one |
| LzbCodec.SearchBlockChain | src/codec/xq_codec_lzb.c:186-196 | The loop over the array computes that search |
| LzbCodec.SearchDictChain | src/codec/xq_codec_lzb.c:198-214 | So does the second loop, over the read-only dictionary chain |
| LzbFinds.FindMatchLongest | src/codec/xq_codec_lzb.c:177-219 | The match reported is the first of the longest among the candidates of the block's chain and then the dictionary's; there is none only where every candidate agrees on fewer than four bytes |
| LzbFinds.DictVisits | src/codec/xq_codec_lzb.c:103-107 | The dictionary's candidates are the last positions in it with the hash looked for, newest first, as many as the level allows |
| LzbFinds.LastIsFound | src/codec/xq_codec_lzb.c:177-219 | The last earlier position in the block with the same hash is always a candidate, so the match is at least as long as the text agrees there, with or without a dictionary |
| LzbFinds.LiteralsAreNew | src/codec/xq_codec_lzb.c:257-324 | In the cut of any block, at every level and with any dictionary, no literal starts four bytes that stand where their hash was seen last, but for one that lazy evaluation left before a match of at least six bytes |
| LzbFinds.LazyGains | src/codec/xq_codec_lzb.c:293-305 | Lazy evaluation stays exactly when the next match is at most one byte longer, moves exactly when it is longer than that, and what is emitted ends no earlier than the match at hand |
| LzbFinds.RunBytes | src/codec/xq_codec_lzb.c:226-324 | The exact stream of up to 65536 equal bytes without a dictionary: the byte, a match of the rest one byte back, the end |
| LzbFinds.ZerosBytes | src/codec/xq_codec_lzb.c:226-324 | Sixty-four zeros come out as 1F 00 01 2D 00 at every level |
| LzbFinds.RunIsSmall | src/codec/xq_codec_lzb.c:257-324 | One byte repeated takes at most five bytes, and five more for each 65535 bytes, at every level |
| LzbCodec.ComputeFindMatch | src/codec/xq_codec_lzb.c:177-219 | The two loops together return the match the specification names, which `LzbFinds.FindMatchLongest` characterises: the first of the longest candidates of both chains, and none only where all are shorter than four bytes |
| LzbCodec.LazyMatch | src/codec/xq_codec_lzb.c:293-305 | Lazy evaluation moves by one byte exactly when the next match is more than one byte longer, and leaves the tables with the first position entered |
| LzbCodec.EmitSeq | src/codec/xq_codec_lzb.c:226-255 | A sequence's bytes are appended, or failure exactly when they do not fit; the bytes before stay |
| LzbStream.DecodeSerialize | src/codec/xq_codec_lzb.c:326-397 | Reading any list of applicable sequences back from its bytes gives the text the list stands for |
| LzbStream.Decode | src/codec/xq_codec_lzb.c:326-397 | The reference decoder is total on byte strings and never yields more than the capacity |
| LzbCodec.Decompress | src/codec/xq_codec_lzb.c:326-397 | On every byte string the in-place decoder terminates, stays within the buffer and gives the reference decoder's text or error |
| LzbCodec.CopyMatch | src/codec/xq_codec_lzb.c:380-392 | The split copy, dictionary part then overlapping block part, equals copying byte by byte in the dictionary followed by the output |
| Varint.RoundTrip | src/codec/xq_codec_lzb.c:55-82 | Reading back a written 64-bit value gives the value and stops right behind it |
| Varint.GetIsU64 | src/codec/xq_codec_lzb.c:67-82 | A value that is read always fits 64 bits |
| Varint.PutInto | src/codec/xq_codec_lzb.c:55-65 | Writes the value's bytes, or fails exactly when they do not fit |
| Varint.GetFromBytes | src/codec/xq_codec_lzb.c:67-82 | The reading loop gives the specified value and position, or fails where the specification does |
| Varint.PutLength | src/codec/xq_codec_lzb.c:55-65 | A value takes at most k bytes if and only if it is below 2^(7k) |
| Vectors.PublishedVarints | src/codec/xq_codec_lzb.c:55-65 | 300 is AC 02, and the first values of two and of three bytes |
| Vectors.VarintEdges | src/codec/xq_codec_lzb.c:67-82 | The largest 64-bit value reads back from ten bytes; eleven bytes, or a string that breaks off, are refused |
| Vectors.Tokens | src/codec/xq_codec_lzb.c:226-255 | The bytes of sequences at the edges of a token: lengths 4, 17, 18 and 20, and twenty literals |
| Vectors.CorruptStreams | src/codec/xq_codec_lzb.c:326-397 | A distance of zero, a distance beyond the text, and literals, lengths or distances that break off are corrupt |
| Vectors.OverfullStreams | src/codec/xq_codec_lzb.c:326-397 | Literals or a match that do not fit are too much; nothing decodes to nothing, and bytes behind the end are not looked at |
| Vectors.Depths | src/codec/xq_codec_lzb.c:37-45 | How many cells each level looks at |
| Vectors.TableSize | src/codec/xq_codec_lzb.c:47-52 | A table has the fewest slots, from 2^12 to 2^22, that are at least as many as bytes |
| Vectors.Hashes | src/codec/xq_codec_lzb.c:30-33 | Values of the multiplicative hash |
| HuffTree.PickIsLightest | src/common/xq_huff.c:94-98 | The scan finds the two lightest live trees |
| HuffTree.MergeGreedy | src/common/xq_huff.c:93-110 | Each merge keeps the invariant that no live tree is lighter than a child of another live tree |
| HuffTree.MergeTotal | src/common/xq_huff.c:99-109 | A merge keeps the total weight |
| HuffTree.DeepIsHeavy | src/common/xq_huff.c:93-110 | A merged tree of height h weighs at least the Fibonacci number F(h + 2) |
| HuffTree.LightIsShallow | src/common/xq_huff.c:93-124 | Counts that total less than F(18) = 2584 never give a code longer than fifteen bits |
| HuffLens.SmoothSum | src/common/xq_huff.c:128-130 | A smoothing leaves at most half the total and one more for every used symbol |
| HuffLens.SmoothHalves | src/common/xq_huff.c:128-130 | A smoothing halves every count to within one, keeps which counts are zero, and changes no order between symbols |
| HuffLens.BuildConverges | src/common/xq_huff.c:74-133 | Twelve attempts suffice whenever total + 4094 * used symbols < 2584 * 2048 |
| HuffLens.BuildConvergesTo4M | src/common/xq_huff.c:74-133 | In particular for every non-empty histogram whose counts total at most 2^22 |
| HuffLens.TreeIsComplete | src/common/xq_huff.c:93-120 | Leaf depths of the merged tree satisfy the Kraft equality, and exactly the used symbols have one |
| HuffLens.BuildIsUsable | src/common/xq_huff.c:54-156 | Whatever the histogram, lengths the builder settles on are those of a complete code of at most fifteen bits, or of a lone symbol, and exactly the used symbols have one |
| HuffBest.MergingIsBest | src/common/xq_huff.c:93-110 | However the trees of a forest are placed under one root, the weighted bits are no fewer than what merging the two lightest again and again leads to |
| HuffBest.BuildIsBest | src/common/xq_huff.c:54-133 | Unless the plain Huffman tree is deeper than fifteen, the lengths settled on cost no more bits than those of any prefix-free code for the symbols that occur |
| HuffBest.BodyIsShortest | src/codec/xq_codec_lze.c:105-140 | So no prefix-free code spells an LZB stream in fewer bits than its Huffman body has |
| HuffCode.PrefixFree | src/common/xq_huff.c:141-154 | No canonical codeword is a prefix of another, for any lengths that do not overfill |
| HuffCode.Covered | src/common/xq_huff.c:141-154 | With complete lengths every long enough bit string starts with a codeword |
| Vectors.RfcExample | src/common/xq_huff.c:141-154 | The lengths 3, 3, 3, 3, 3, 2, 4, 4 get the codes 010, 011, 100, 101, 110, 00, 1110, 1111, the example of section 3.2.2 of RFC 1951 |
| Vectors.FirstBitIsLowest | src/common/xq_huff.c:13-24 | The first bit written is the lowest of the first byte |
| Vectors.TableNibbles | src/common/xq_huff.c:158-162 | In a stored table the even symbol has the low half of its byte |
| HuffKraft.CompleteFills | src/common/xq_huff.c:185-195 | Any complete prefix code, however its words are assigned, satisfies the Kraft equality |
| HuffKraft.CanonicalIsComplete | src/common/xq_huff.c:197-213 | The canonical words for lengths that satisfy it form such a code |
| HuffKraft.AcceptedIffCompletable | src/common/xq_huff.c:164-195 | A table is accepted if and only if its lengths are those of some complete prefix code, or of one symbol of length 1 |
| HuffStream.Acceptance | src/common/xq_huff.c:173-195 | The same in the loader's own terms: one symbol with longest length 1, or two and more with the space exactly used up |
| HuffStream.OneStart | src/common/xq_huff.c:223-232 | A bit string starts with at most one codeword of a usable table |
| HuffStream.DecodeEncode | src/common/xq_huff.c:223-232 | Decoding as many symbols as were encoded gives those symbols, whatever bits follow |
| HuffStream.LoadStore | src/common/xq_huff.c:158-172 | Loading a stored table gives the lengths back |
| HuffStream.StoreLoad | src/common/xq_huff.c:158-172 | Storing a loaded table gives its 128 bytes back |
| HuffStream.BuiltTableLoads | src/common/xq_huff.c:54-221 | A table the builder made is stored, loaded back the same, and accepted |
| HuffBuild.Builder.Select | src/common/xq_huff.c:94-98 | The scan over the arrays picks what the specification picks |
| HuffBuild.Builder.MergeTwo | src/common/xq_huff.c:93-110 | One merge in the `live`/`parent`/`weight` arrays is one merge of the forest of trees |
| HuffBuild.Builder.MergeDown | src/common/xq_huff.c:92-110 | The merge loop leaves one tree, the specification's |
| HuffBuild.ClimbIsDepth | src/common/xq_huff.c:113-120 | Parents counted from a leaf up to a node are the leaf's depth below that node |
| HuffBuild.Builder.LeafLength | src/common/xq_huff.c:114-116 | The walk up from a leaf returns its depth |
| HuffEncoder.WalkLengths | src/common/xq_huff.c:112-120 | The walk writes every leaf's depth when all are within fifteen bits, and otherwise says so |
| HuffEncoder.SmoothAll | src/common/xq_huff.c:128-130 | The smoothing loop halves every used count and adds one, and leaves zeros alone |
| HuffEncoder.FirstCodes | src/common/xq_huff.c:141-145 | The 16-bit recurrence gives each length's first canonical code without wrapping |
| HuffEncoder.ReverseBits | src/common/xq_huff.c:151-152 | The 16-bit loop reverses a code's bits |
| HuffEncoder.HuffEnc.AssignCodes | src/common/xq_huff.c:135-154 | Every used symbol gets its canonical codeword, low bit first |
| HuffEncoder.HuffEnc.Build | src/common/xq_huff.c:54-156 | The builder succeeds exactly when the specification finds lengths, with those lengths and their codes |
| BitIO.BitWriter.Put | src/common/xq_huff.c:13-24 | Appends the low bits of a value to the bits written so far, through the accumulator |
| BitIO.BitWriter.Flush | src/common/xq_huff.c:26-37 | Writes out all bits, the last byte padded with zeros, or fails exactly when they do not fit |
| BitIO.UnpackPack | src/common/xq_huff.c:13-37 | Unpacking packed bits gives them back with fewer than eight more behind them |
| BitIO.BitReader.Fill | src/common/xq_huff.c:45-52 | Refilling changes no unread bit, and leaves more than 56 bits or the end of the input |
| HuffDecoder.CheckTable | src/common/xq_huff.c:166-195 | The loader's count and fill loops accept exactly the usable tables |
| HuffDecoder.HuffDec.Load | src/common/xq_huff.c:164-221 | Accepts exactly the usable tables and then fills the flat table for them |
| HuffDecoder.HuffDec.FillSlots | src/common/xq_huff.c:215-218 | One symbol's strided loop enters exactly the slots that end in its reversed code |
| HuffDecoder.WasEmpty | src/common/xq_huff.c:215-218 | Every slot a symbol is entered into was still empty: no slot is written twice |
| HuffDecoder.NoSlotEmpty | src/common/xq_huff.c:208-219 | With two or more symbols no slot of [0, 2^max_len) stays empty |
| HuffDecoder.LookupIsNext | src/common/xq_huff.c:223-232 | Looking up the low bits gives the symbol the rest of the stream starts with, or an empty or too long slot exactly when it starts with none, past the end included |
| HuffDecoder.DecodeOne | src/common/xq_huff.c:223-232 | One decode step consumes that symbol's codeword or fails |
| LzeStream.LzeRoundTrip | src/codec/xq_codec_lze.c:96-192 | Whenever compression succeeds, in raw or Huffman form and with an intermediate buffer of any size a context can have, decompression returns the input; the decoder's cap never refuses such a stream |
| LzeStream.HuffFormDecodes | src/codec/xq_codec_lze.c:121-138 | Decoding the Huffman form equals decoding the LZB stream it stands for |
| Coded.LzeTakesShorter | src/codec/xq_codec_lze.c:105-148 | With room for both, LZE takes the shorter of the stream behind a mode byte and, for streams of at least 64 bytes whose code fits, the Huffman form |
| Coded.HuffFormLayout | src/codec/xq_codec_lze.c:121-138 | The Huffman form: mode byte 1, the stream's length, 128 bytes of table, the body |
| LzeCodec.LzeCCtx.Compress | src/codec/xq_codec_lze.c:96-148 | The compressor with its reused buffer gives the specified bytes for the size the buffer has grown to |
| LzeCodec.CountBytes | src/codec/xq_codec_lze.c:114-116 | The counting loop gives the histogram |
| LzeCodec.EmitCodes | src/codec/xq_codec_lze.c:130-135 | The emit loop writes the packed codewords, or fails exactly when they do not fit |
| LzeCodec.LzeDCtx.Decompress | src/codec/xq_codec_lze.c:150-192 | The decompressor gives the reference decoder's text or error on every byte string |
| LzeCodec.LzeDCtx.DecodeAll | src/codec/xq_codec_lze.c:182-188 | The decode loop fills the buffer with the decoded symbols, or fails exactly when the stream stops being one |
| Crc32cTable.TabIsDivision | src/common/xq_crc32c.c:13-57 | Each of the 256 table entries is eight steps of division by the CRC-32C polynomial |
| Crc32c.UpdateLoop | src/common/xq_crc32c.c:59-65 | The portable loop computes the specified register |
| Crc32c.UpdateConcat | src/common/xq_crc32c.c:59-86 | Updating piece by piece gives the checksum of the concatenation |
| Crc32c.BurstDetected | src/common/xq_crc32c.c:59-65 | Two strings of one length that differ only within four consecutive bytes never share a checksum |
| Crc32c.PublishedCrcs | src/common/xq_crc32c.c:59-91 | The checksum of nothing is 0, of "a" C1D04330, of "123456789" E3069283 |
| Xxh64.State.Update | src/common/xq_xxh64.c:105-139 | Buffering and stripe loops append to what has been hashed, whatever the piece's length |
| Xxh64.State.Final | src/common/xq_xxh64.c:142-184 | The value is the one-shot hash of everything fed so far; what that is, `XxhFacts` pins by published values and by what it tells apart |
| Xxh64.HashChunks | src/common/xq_xxh64.c:36-184 | Init, updates over any chunks and final give the one-shot hash of their concatenation, the hash of `XxhFacts.OfSentence` and `XxhFacts.HashTells` |
| XxhFacts.OfNothing | src/common/xq_xxh64.c:142-184 | The hash of the empty string is EF46DB3751D8E999 with seed 0 and D5AFBA1336A3BE4B with seed 1 |
| XxhFacts.OfA | src/common/xq_xxh64.c:142-184 | Of "a": D24EC4F1A98C6E5B |
| XxhFacts.OfAbc | src/common/xq_xxh64.c:142-184 | Of "abc": 44BC2CF5AD770999 |
| XxhFacts.OfDigits | src/common/xq_xxh64.c:142-184 | Of "123456789": 8CB841DB40E6AE83 |
| XxhFacts.OfHello | src/common/xq_xxh64.c:142-184 | Of "Hello, world!", a word, a half word and a byte: F58336A78B6F9476 |
| XxhFacts.OfSentence | src/common/xq_xxh64.c:36-184 | Of "Nobody inspects the spammish repetition", 39 bytes through the four lanes: FBCEA83C8A378BF1 |
| XxhFacts.StoredOfA | src/common/xq_xxh64.c:142-184 | And as the number that is stored: that of "a" is D24EC4F1A98C6E5B |
| XxhFacts.HashTells | src/common/xq_xxh64.c:142-184 | Behind the same whole stripes, two strings of one length that differ in one eight-byte word, the four-byte half word or one byte of the last fewer than 32 bytes never share a hash, whatever the seed |
| XxhFacts.StoredTells | src/common/xq_xxh64.c:142-184 | Nor do the numbers stored for them |
| Format.HeaderRoundTrip | src/format/xq_format.c:13-68 | Parsing a file header gives h if and only if the bytes are h stored and h is acceptable |
| Format.BlockRoundTrip | src/format/xq_format.c:112-153 | The same for block headers |
| Format.FooterRoundTrip | src/format/xq_format.c:259-289 | The same for footers |
| Format.OneByteUnseals | src/format/xq_format.c:123-130 | Changing any one byte of a body and its CRC breaks the seal |
| Format.HeaderDamage | src/format/xq_format.c:28-35 | A file header with any one byte changed no longer parses |
| Format.BlockDamage | src/format/xq_format.c:123-130 | Nor does a block header |
| Format.FooterDamage | src/format/xq_format.c:268-275 | Nor does a footer |
| Layout.HeaderLayout | src/core/xq_encoder.c:108-129 | Where everything stands in the first 32 bytes of an encoded file: magic, version 1.0, size 32, flags, codec, level, checksum, block size, input size, CRC |
| Layout.DictLayout | src/core/xq_encoder.c:400-444 | The dictionary's record stands right behind the header: tag 1, flag 1, size, CRC, payload |
| Layout.BlockLayout | src/core/xq_encoder.c:181-214 | Every block stands where its entry says: magic B10C, flags, codec, both sizes, its place in the input, header CRC, payload, and the checksum of that payload |
| Layout.EndLayout | src/core/xq_encoder.c:570-576 | Behind the blocks stands the empty record 10 01 |
| Layout.IndexLayout | src/core/xq_encoder.c:576-627 | Behind that the index record: how many blocks, how many bytes of input, how many bytes of file before it, the entries |
| Layout.FooterLayout | src/core/xq_encoder.c:628-645 | The last 32 bytes: CRC, where the index stands and how long it is, or zeros, the stream checksum, and "XQFT" |
| Index.Find | src/format/xq_format.c:207-220 | Binary search returns a block whose range holds the offset, or -1 exactly behind the end |
| Index.Validate | src/format/xq_format.c:222-257 | Accepts exactly the indexes with ascending, well-sized entries that start and end right |
| Index.OneBlockHolds | src/format/xq_format.c:207-257 | In such an index no two blocks hold one offset |
| Index.EncodedIndexIsValid | src/core/xq_encoder.c:576-627 | The index of every encoded non-empty file is accepted |
| Index.EntryLeadsToBlock | src/core/xq_encoder.c:131-148 | An entry's file offset is where its block's bytes stand in the file |
| Index.EntrySlicesInput | src/core/xq_encoder.c:131-148 | An entry's raw offset is where its block stands in the input |
| Codec.CodecRoundTrip | src/core/xq_encoder.c:161-179 | For STORED, LZB and LZE alike a successful compression decompresses to its input |
| Codec.JobDecodes | src/core/xq_encoder.c:161-179 | A job's payload decodes to its block; when it is coded at all is `Coded.CodedIff` |
| Coded.CodedIff | src/core/xq_encoder.c:161-179 | A block is coded, with exactly its codec's bytes, if and only if the codec succeeds with fewer bytes than the block; otherwise it is stored as it is; the payload has the smaller of the two sizes |
| Coded.DictCodedIff | src/core/xq_encoder.c:400-444 | The same of the dictionary's own record |
| Coded.LzbCodedIff | src/core/xq_encoder.c:161-179 | For LZB that is if and only if the stream is shorter than the block: the buffer never stands in the way |
| Coded.FileHoldsSmaller | src/core/xq_encoder.c:161-214 | In an encoded file every block stands at its entry, holding the smaller of the block and the code that a context with the blocks before it makes |
| Coded.RunFileIsSmall | src/core/xq_api.c:85-114 | One byte repeated, coded by LZB in blocks of at most 65535 k + 1 bytes, makes a file of at most 132 bytes and 53 + 5 k for each block |
| Codec.StableIff | src/core/xq_encoder.c:161-179 | A block's job is the same for all buffer sizes from lo to hi, except exactly when it is an LZE block whose LZB stream is longer than lo and its own need, not longer than hi, and whose Huffman form still shrinks it |
| Dispatch.CompressInto | src/codec/xq_codec.c:7-30 | Each codec's method computes the codec's specification, whatever its context did before |
| Dispatch.DecompressInto | src/codec/xq_codec.c:7-30 | Each codec's decoder computes its specification on every byte string, and LZE refuses with an internal error where the file's own codec has made no context |
| ContainerProof.NextOnBlock | src/core/xq_decoder.c:251-324 | A written block is read back whole, whatever follows it |
| ContainerProof.NextOnDict | src/core/xq_decoder.c:151-212 | A written dictionary record is read, and decoding goes on with that dictionary |
| ContainerProof.NextOnEob | src/core/xq_decoder.c:221-227 | A written end-of-blocks record ends the stream |
| ContainerProof.PrefixDecodes | src/core/xq_decoder.c:110-382 | Any prefix of a file decodes to the whole input when it contains the end-of-blocks record, and is otherwise reported truncated |
| ContainerProof.DecodesUnderLimit | src/core/xq_decoder.c:110-212 | Under a memory limit a file decodes to the input exactly when block size, dictionary record and dictionary keep to it, and is otherwise refused for that reason |
| FileSpec.EncodedPrefixDecodes | src/core/xq_encoder.c:535-645 | The same of the file the encoder makes of an input |
| FileSpec.ChunksTotal | src/core/xq_encoder.c:535-556 | The blocks an input is cut into are the input |
| FileSpec.ChunksUnique | src/core/xq_encoder.c:535-556 | Any order of writes that fills whole blocks first gives that cutting |
| Encoder.MemSink.Write | src/core/xq_api.c:17-24 | The memory sink takes all of a write, or nothing and an error |
| Encoder.Enc.Start | src/core/xq_encoder.c:522-523 | The sink then holds header and dictionary record and nothing of the input, or the encoder has failed for want of room |
| Encoder.Enc.EmitJob | src/core/xq_encoder.c:181-214 | Emitting a job appends its block, its index entry and its bytes to the stream checksum |
| Encoder.Enc.FlushBlock | src/core/xq_encoder.c:376-398 | A flush moves the buffered bytes into a block of their own; nothing written is lost |
| Encoder.Enc.Write | src/core/xq_encoder.c:535-556 | However an input is split into writes, blocks and buffer together hold exactly what has been written |
| Encoder.Enc.Finish | src/core/xq_encoder.c:558-645 | Succeeds exactly when the file fits the sink, which then holds the file that is a function of configuration and input alone |
| Bound.AnyJobsWithinBound | src/core/xq_api.c:53-83 | Whatever payloads the codec makes of blocks and dictionary, as long as none is longer than what it codes, the file stays within a non-zero bound while rounding the size up to a block stays below 2^64 |
| Bound.BoundHolds | src/core/xq_api.c:53-83 | So does the single-threaded encoder's file, and its offsets within 64 bits |
| SlotRingProps.ParallelWithinBound | src/core/xq_api.c:53-83 | So does the file of every drained run of the parallel encoder |
| SlotRingProps.ParallelOneShot | src/core/xq_api.c:85-150 | A one-shot compression by threads, however they interleave, leaves a file within the bound that decodes to the input |
| Bound.BoundIsRightIff | src/core/xq_api.c:53-83 | A non-zero bound covers the worst case if and only if source size + block size - 1 is below 2^64 |
| Bound.BoundIsReached | src/core/xq_api.c:53-83 | When no payload is shorter than what it codes, the file of a non-empty input takes exactly the bound |
| Bound.StoredReachesBound | src/core/xq_api.c:53-83 | So does every file of the STORED codec |
| Bound.BoundCanBeTooSmall | src/core/xq_api.c:53-83 | An input size for which the bound wraps round and is too small |
| Bound.DictSizeFor | src/core/xq_dict.c:20-31 | A dictionary takes at most a quarter of the input, the requested size and the maximum, and is never shorter than the minimum |
| Bound.DictSizeIsLargest | src/core/xq_dict.c:20-31 | And it is the largest size within those limits |
| DictSample.OffsetInFile | src/core/xq_dict.c:44-64 | Every sampled window lies in the file, even where the product wraps |
| DictSample.WindowsAreDisjoint | src/core/xq_dict.c:44-64 | Without wrap-around the windows do not overlap |
| DictSample.WindowsSpanFile | src/core/xq_dict.c:44-64 | The first window starts the file; the last one ends it exactly when the 64-bit product does not wrap |
| DictSample.LastWindowCanFallShort | src/core/xq_dict.c:44-64 | A file size for which the last window stops short of the end |
| DictSample.BuildSampled | src/core/xq_dict.c:33-73 | Fills the buffer with the windows in order, or with the front of a file too small for them |
| Input.Source.Read | src/core/xq_api.c:32-41 | A read takes the next bytes and moves behind them; nothing exactly at the end |
| Input.RBuf.Fill | src/core/xq_decoder.c:54-69 | Compacting and refilling lose no byte and add some, or the source is at its end |
| Input.RBuf.Need | src/core/xq_decoder.c:71-81 | Succeeds exactly when so many bytes are left, and then shows them |
| Input.RBuf.ReadExact | src/core/xq_decoder.c:85-105 | Takes exactly the next bytes, from buffer and source, or fails exactly when fewer are left |
| Input.RBuf.Skip | src/core/xq_decoder.c:235-247 | Drops exactly so many bytes, or fails exactly when fewer are left |
| Decoder.OpenInput | src/core/xq_decoder.c:110-149 | Opens exactly the headers the container's specification opens, with the same errors, the memory limit's included |
| Decoder.Dec.TakeDict | src/core/xq_decoder.c:151-212 | Reads a dictionary record as specified: limits, length, CRC, codec and its context, hash, or the same error |
| Decoder.Dec.HandleRecord | src/core/xq_decoder.c:214-249 | A record ends the stream, gives the dictionary or is skipped, as specified |
| Decoder.Dec.TakeBlock | src/core/xq_decoder.c:275-323 | A block is checked and decoded into the block buffer as specified, or the same error, also where the block's codec lacks a context; `Damage.AcceptedSum` and `Damage.PayloadBurstRefused` say what the check notices |
| Decoder.Dec.NextBlock | src/core/xq_decoder.c:251-324 | On any bytes the step over records to a block, the end or an error is the specified one |
| Decoder.Dec.Read | src/core/xq_decoder.c:359-382 | Reads of any sizes deliver the specified stream piece by piece; its error comes when the bytes before it have been delivered, and sticks |
| Decoder.Create | src/core/xq_decoder.c:326-357 | A decoder exists exactly when the header opens under the memory limit, positioned behind it |
| Decoder.AllIsStream | src/core/xq_decoder.c:251-382 | Decoding a whole file succeeds exactly when its stream ends without error, with the stream's bytes |
| Damage.AcceptedSum | src/core/xq_decoder.c:284-293 | A block is accepted only if the four stored bytes are the CRC-32C of the payload that is there, or the eight its XXH64 |
| Damage.PayloadBurstRefused | src/core/xq_decoder.c:284-293 | A block accepted under CRC-32C is refused as corrupt with up to four neighbouring payload bytes changed |
| Damage.OtherSumRefused | src/core/xq_decoder.c:284-293 | Under any checksum it is refused with other checksum bytes |
| Damage.TailUnitRefused | src/core/xq_decoder.c:284-293 | Under XXH64 it is refused with one word, half word or byte of its payload's last fewer than 32 bytes changed |
| Damage.NextRefuses | src/core/xq_decoder.c:251-324 | The step over any stream that begins with such a block |
| Damage.HeaderByteRefused | src/core/xq_decoder.c:251-283 | So with any one byte of a block's header changed behind its magic |
| Damage.FileBurstNoticed | src/core/xq_decoder.c:251-382 | In every encoded file under CRC-32C, a burst in the payload of block i leaves the blocks before it to be delivered and then ends the decoding with a corrupt block |
| Damage.FileSumNoticed | src/core/xq_decoder.c:284-293 | So does any change of its checksum bytes, under either checksum |
| Damage.FileBlockHeaderNoticed | src/core/xq_decoder.c:251-283 | And any one other byte of its header behind the magic, without a checksum as well |
| Damage.FileHeaderNoticed | src/core/xq_decoder.c:110-149 | Any one other byte in the file's header ends the decoding at once |
| Damage.FileDictNoticed | src/core/xq_decoder.c:151-212 | A burst in the dictionary's record ends it with a corrupt record before any block |
| Damage.DecompressBurst | src/core/xq_api.c:116-150 | One-shot decompression of a file with a burst in one block's payload returns corrupt block, unless the blocks before it already overflow the buffer |
| Order.OnlyNextBlock | src/core/xq_decoder.c:262-283 | Blocks are taken in their order only: where one block should come, no other block of the file is accepted |
| Order.CutBlockNoticedIff | src/core/xq_decoder.c:251-324 | A file from which one block has been cut is refused there if and only if it was not the last |
| Order.FileEndNoticed | src/core/xq_decoder.c:221-227 | Any one byte of the record that ends the blocks changed behind its tag makes the file corrupt |
| Order.OtherRecords | src/core/xq_decoder.c:228-249 | Any other record is stepped over, unless it is marked as one that has to be understood |
| Order.SecondDict | src/core/xq_decoder.c:151-154 | A second dictionary record is refused |
| Order.LongerHeader | src/core/xq_decoder.c:110-149 | What a later version puts behind the header is stepped over |
| Api.XqCompress | src/core/xq_api.c:85-114 | Succeeds exactly when the file fits, and always for a buffer of the bound's size; the buffer then holds the encoded file, whose size and contents `Coded.FileHoldsSmaller` and `Layout` describe |
| Api.XqDecompress | src/core/xq_api.c:116-150 | On any bytes and under any memory limit: the decoded bytes when they fit, too-small when they do not, else the stream's error; for damaged files that is `Damage.DecompressBurst` |
| Api.DecodedIsDelivered | src/core/xq_api.c:116-150 | What a decoder delivers in pieces is what decoding the file at once gives |
| Api.EncodedFileDecodes | src/core/xq_api.c:85-150 | Decompressing the compressed file of any input gives the input |
| SlotRingSafe.StepKeeps | src/core/xq_encoder.c:216-310 | Every step of producer or worker keeps emit <= work <= fill <= emit + nslots, the slots' states, who works on what, what sleepers wait for, and the output so far |
| SlotRingSafe.RunsAreSafe | src/core/xq_encoder.c:216-310 | So every state of every interleaving with any number of workers, spurious wake-ups and a failing sink satisfies it |
| SlotRingProps.NoSharedSlot | src/core/xq_encoder.c:216-298 | No slot is touched by two workers, or by a worker and the producer, at a time |
| SlotRingProps.SubmittedWasFree | src/core/xq_encoder.c:277-298 | The slot being filled, and so the one submitted, is free |
| SlotRingSame.ParallelIsSequential | src/core/xq_encoder.c:181-298 | Unless some block is unstable over the buffers it can meet, every interleaving leaves sink, index, stream checksum and offset exactly as the single-threaded encoder |
| SlotRingSame.WholeBlocksAreSequential | src/core/xq_encoder.c:181-298 | No hypothesis is left when the input is whole blocks and the dictionary no longer than one, whatever the codec |
| SlotRingSame.ParallelLzbIsSequential | src/core/xq_encoder.c:181-298 | LZB needs no hypothesis at all |
| SlotRingSame.AnyTwoRunsAgree | src/core/xq_encoder.c:181-298 | Any two runs, with any numbers of workers, emit the same bytes, index and checksum input, unless a short last block behind whole ones is unstable |
| SlotRingScript.EveryAssignmentRuns | src/core/xq_encoder.c:216-298 | For every assignment of blocks to any number of workers there is a run that drains the ring with the jobs those workers' contexts make |
| SlotRingExact.RunsAgreeIff | src/core/xq_encoder.c:181-298 | All parallel runs over an input agree if and only if it has no short last block behind whole ones whose LZB stream exceeds a new context's buffer but not a used one's, and whose Huffman form shrinks it |
| SlotRingExact.RunsDiffer | src/core/xq_encoder.c:216-298 | Where there is one, two runs with any two or more workers end with files of different lengths |
| SlotRingExact.RunsAreSequentialIff | src/core/xq_encoder.c:161-298 | All parallel runs give the single-threaded encoder's bytes if and only if no block is unstable over the buffers it can meet in the ring or behind the dictionary |
| SlotRingWitness.ThreadsShow | src/core/xq_api.c:85-114 | At every level, checksum and block size: an input and options of one-shot compression for which two runs of any two or more workers, behind the same header and dictionary record, end with files of different lengths |
| SlotRingWitness.ConfigOfInput | src/core/xq_api.c:90-98 | The dictionary in that is the one taken from the input itself, its first 2^21 bytes |
| SlotRingWitness.BlockIsUnstable | src/codec/xq_codec_lze.c:96-148 | The block behind that: its LZB stream does not fit a new context's buffer and its Huffman form is shorter than the block |
| LzbExpands.Expands | src/codec/xq_codec_lzb.c:221-324 | A block of 325 bytes that comes out as 391, one more than its buffer of 390, at every level |
| LzbExpands.UnitFound | src/codec/xq_codec_lzb.c:177-219 | In it every unit is found four bytes long at the far end of a dictionary of 2^21 bytes, whatever the block's own chains hold |
| LzbFinds.InsertedLast | src/codec/xq_codec_lzb.c:103-107 | Chains over a whole dictionary lead from each head to the last position with its hash, and from each position to the one before |
| HuffSize.FewSymbols | src/common/xq_huff.c:54-156 | With n symbols in use, at most sixteen, building succeeds and no code is longer than n - 1 bits, or one bit for a lone symbol |
| HuffSize.FewBytesPay | src/codec/xq_codec_lze.c:114-140 | So a stream over few byte values takes the Huffman form, within that many bits a byte |
| SlotRingProps.ParallelFileIsGood | src/core/xq_encoder.c:181-275 | Stable or not, a drained run's output is a well-formed file for the input |
| SlotRingProps.ParallelFileDecodes | src/core/xq_encoder.c:181-275 | Stable or not, it decodes to the input, and a prefix exactly from the end-of-blocks record on |
| SlotRingLive.EnabledSteps | src/core/xq_encoder.c:181-310 | In a reachable state an enabled step reads only what has been written before |
| SlotRingLive.NoDeadlock | src/core/xq_encoder.c:216-310 | Until the threads are joined some party can take a step no spurious wake-up is needed for: no wake-up is lost |
| SlotRingLive.EveryStepNearer | src/core/xq_encoder.c:216-310 | Every step but a spurious wake-up brings the run nearer its end, in a well-founded order |
| SlotRingLive.ComesToDrained | src/core/xq_encoder.c:216-298 | From every reachable state in which the sink has not failed there is a way on that takes in the whole input and drains the ring |
| SlotRingLive.ComesToAnEnd | src/core/xq_encoder.c:216-310 | From every reachable state, failed or not, there is a way on to joined threads |
| SlotRingLive.QuitDrains | src/core/xq_encoder.c:300-310 | When the threads are joined every submitted job has been taken and done, and all workers have left |
| Reader.EncodedServes | src/core/xq_reader.c:83-343 | Opening an encoded file, under any memory limit, gives a reader that serves exactly its input, except for the empty input, an index longer than a record may be, and a limit without room, each refused with its own error |
| ReaderProof.EncodedFileOpens | src/core/xq_reader.c:83-343 | An encoded non-empty file opens, with its blocks, size, codec and dictionary, exactly when the memory limit has room for the dictionary record, the dictionary and one decode |
| ReaderProof.EncodedFileServes | src/core/xq_reader.c:378-438 | Every block of it decodes, at its index entry, to its slice of the input |
| ReaderProof.LongIndexIsRefused | src/core/xq_reader.c:111-154 | An encoded file whose index payload exceeds 2^40 bytes is refused, whatever the memory limit |
| ReaderProof.EmptyInputIsRefused | src/core/xq_reader.c:102-109 | The encoded file of an empty input is refused |
| Reader.Reader.DecodeBlock | src/core/xq_reader.c:378-438 | Decodes a block as specified from its index extent, or gives the same error; `ReaderDamage.ExtentBurstRefused` says what its checksum test notices |
| Reader.Reader.FindEntry | src/core/xq_reader.c:473-475 | Finds a cache entry with the block, or shows that none has it |
| Reader.Reader.FindVictim | src/core/xq_reader.c:504-506 | Finds an entry with the smallest stamp |
| Reader.Reader.Hit | src/core/xq_reader.c:474-487 | A hit hands out the entry's bytes, makes it the most recent and counts |
| Reader.Reader.Miss | src/core/xq_reader.c:503-520 | A miss replaces the least recently used entry, makes the new one the most recent and counts |
| Reader.Reader.BlockCopy | src/core/xq_reader.c:470-524 | A caller gets the block's own bytes from cache or decode, hits are exactly the blocks held before, and a failed decode changes nothing |
| Reader.Reader.Pread | src/core/xq_reader.c:526-557 | On any reader and whatever the cache held before: the bytes asked for, block by block, or the first block's error on the way |
| Reader.PreadServes | src/core/xq_reader.c:526-557 | On a reader that serves x that is exactly x[off .. min(off + n, size)] |
| Reader.Reader.Verify | src/core/xq_reader.c:585-636 | Counts good and bad blocks and the good blocks' bytes exactly, and names the first bad one; skips the stream checksum when there is one; on a reader that serves x it verifies size(x) bytes and compares x's hash |
| Reader.VerifyEncoded | src/core/xq_reader.c:585-636 | Verifying an encoded file finds every block good, all of the input verified, and the stream checksum right, or absent where none is stored |
| ReaderProof.WrongSizeIsRefused | src/core/xq_reader.c:111-154 | A file whose header names a wrong size of the input is refused |
| ReaderDamage.OpeningLooksAtEnds | src/core/xq_reader.c:83-343 | Opening looks at what stands before the first block and from the index on: a file that agrees there opens to the same view |
| ReaderDamage.ExtentBurstRefused | src/core/xq_reader.c:411-418 | A block that decodes under CRC-32C is corrupt with up to four neighbouring payload bytes changed |
| ReaderDamage.DamagedFileOpens | src/core/xq_reader.c:83-438 | An encoded file with such a burst in block i still opens; block i is corrupt and every other block decodes to its part of the input |
| ReaderDamage.VerifyDamaged | src/core/xq_reader.c:585-636 | Verifying it reports one bad block, where it starts in the input, and all bytes of the others; the stream checksum is skipped |
| ReaderDamage.SpoiledPread | src/core/xq_reader.c:526-557 | A read of it fails with a corrupt block if and only if it touches block i, and otherwise returns the input's bytes |
| ReaderDamage.IndexBurstNotOpened | src/core/xq_reader.c:111-154 | A file with a burst in its index does not open |
| ReaderDamage.HeaderByteNotOpened | src/core/xq_reader.c:83-109 | Nor does one with another byte in its header |
| ReaderDamage.FooterByteNotOpened | src/core/xq_reader.c:83-109 | Nor one with another byte in its footer |
| Lru.HitOrders | src/core/xq_reader.c:474-487 | A restamped entry is first in the order of use |
| Lru.HitHolds | src/core/xq_reader.c:474-487 | After a hit the cache holds the block in front of the others |
| Lru.VictimIs | src/core/xq_reader.c:504-506 | The victim is an empty entry while there is one, and then the last in the order of use |
| Lru.MissOrders | src/core/xq_reader.c:503-513 | Replacing the victim keeps the order, with the new block first |
| Lru.MissHolds | src/core/xq_reader.c:503-513 | After a miss the cache holds the new block and as many of the most recent others as it has room for |
| Lru.RecentOfTaken | src/core/xq_reader.c:470-524 | Keeping the n most recently used distinct blocks can be done step by step |
| ReaderMt.StepKeeps | src/core/xq_reader.c:445-524 | Every step of concurrent callers keeps cache coherence, slot ownership and the counters |
| ReaderMt.RunsAreSafe | src/core/xq_reader.c:445-524 | So every state of every interleaving satisfies them |
| ReaderMt.HandsOutTheBlock | src/core/xq_reader.c:470-524 | A caller gets the bytes of the block it asked for, whatever other threads do meanwhile |
| ReaderMt.OneOwner | src/core/xq_reader.c:445-468 | No decode slot has two owners |
| ReaderMt.CountersAddUp | src/core/xq_reader.c:470-524 | When no call is under way hits and misses together are the successful calls |
| ReaderMt.NoDeadlock | src/core/xq_reader.c:445-468 | While any call is under way some call can go on |
| PreadMt.ActKeeps | src/core/xq_reader.c:445-557 | Every step of any thread, inside a round or between two, keeps every call right: what it has got so far is its part of the input |
| PreadMt.HistoryIsSafe | src/core/xq_reader.c:445-557 | So every state of every interleaving of reads does |
| PreadMt.EachGetsItsSlice | src/core/xq_reader.c:526-557 | On a reader that serves x, each of any number of concurrent reads of n bytes at off returns exactly x[off .. min(off + n, size)], never an error |
| PreadMt.SomeReadGoesOn | src/core/xq_reader.c:445-557 | While a read is under way some read can go on without a spurious wake-up |
| Repair.ScanIsSound | src/core/xq_repair.c:214-276 | On any bytes: found = good + bad, recovered + missing bytes = end of output, recovered ranges increase and do not overlap, and with gap filling each byte stands at its own offset with the fill byte elsewhere |
| Repair.PlaceKeeps | src/core/xq_repair.c:241-264 | Each recovered block keeps that |
| Repair.ScanFile | src/core/xq_repair.c:214-276 | The windowed loops visit exactly the positions of the scan over the whole file, and so their report has all of the above |
| Repair.ScanWindow | src/core/xq_repair.c:223-267 | A window's inner loop is that scan up to the window's end |
| Repair.DecodeBlockAt | src/core/xq_repair.c:118-158 | Decodes a candidate as specified, or gives the same error |
| Repair.OutGrowsIff | src/core/xq_repair.c:214-276 | From any position the scan adds to the output if and only if it stops at something that decodes to a block not before the end reached |
| Repair.UndamagedIsRestored | src/core/xq_repair.c:214-276 | On an undamaged dictionary-free file the output starts with the original; it equals it if and only if the scan behind the blocks stops at nothing that decodes to a block from the original's end on; the report is flawless too if and only if nothing there looks like a block header |
| RepairExact.UndamagedIsExact | src/core/xq_repair.c:118-276 | An undamaged dictionary-free file of less than 2^32 bytes, in and out, and at most 1048560 blocks is repaired to exactly the original, whatever its CRCs and checksum happen to be |
| RepairExact.NothingBehind | src/core/xq_repair.c:118-158 | Behind the blocks of such a file, at no position of end-of-blocks record, index and footer, does anything decode as a block |
| RepairExact.RecoveredIsAlive | src/core/xq_repair.c:118-158 | Whatever the scan recovers has a plausible header and enough bytes behind it, and is stored as it is or expands to the size it names |
| RepairDamage.BurstSpoils | src/core/xq_repair.c:118-158 | A block that decodes where it stands is counted as bad with a burst in its payload, and the scan goes on right behind its header |
| RepairDamage.OneBlockLost | src/core/xq_repair.c:214-276 | Of an encoded file with such a burst, when nothing inside that block looks like a header, the scan finds every other block in its place |
| RepairDamage.LostReport | src/core/xq_repair.c:241-264 | Then the report has one bad block and all others good, and the output is the input with that block's place filled or closed up |

## Left out

- SlotRingLive.ComesToDrained: a way to the end exists and every step but a spurious wake-up is nearer to it; fair scheduling itself is not modelled
- Api.XqCompress: the path without threads; `SlotRingProps.ParallelOneShot` and `SlotRingExact.RunsAreSequentialIff` are about the other
- Decoder.Dec.TakeBlock: an LZE decoding context, where there is one, is a fresh one each time; it holds nothing but a buffer to be overwritten
- ReaderProof.EncodedFileOpens: how a memory limit with room cuts down the numbers of cache entries and decode slots; both are any positive numbers
- HuffLens.BuildConverges: sufficient, not necessary; no histogram beyond it is shown to fail
- ReaderMt.NoDeadlock: progress of some call; fairness between callers is not claimed, as a condition variable gives none
- Index.EntryLeadsToBlock: for encoded files; the reader itself does not compare a block's raw size with its index gap
- ReaderProof.EncodedFileServes: for encoded files, for the same reason
- Encoder.Enc.Finish: the index written in runs of 256 entries is one write, and record CRCs taken over pieces are taken over the whole (`Crc32c.UpdateConcat`)
- Encoder.Enc.FlushBlock: calls the job as a function; `Dispatch.CompressInto` shows that the codec methods compute it
- Decoder.Dec.NextBlock: the running stream checksum the decoder keeps for its caller is not part of the state
- Reader.Reader.BlockCopy: one caller at a time; `ReaderMt` has many; the fall-back when no decode slots could be made is not modelled
- RepairExact.UndamagedIsExact: not with a dictionary, whose record the scan would read through as well; for larger files the exact condition is the one of `Repair.UndamagedIsRestored`
- Repair.ScanFile: the dictionary is given, writes do not fail, and finding every block of an arbitrarily damaged file is not claimed
- Sinks: the memory sink fails for want of room only; the slot ring's sink may fail after any part of a block
- The Zstandard codec, a wrapper around a library that is not in the repository
- Operating-system files, memory mapping, threads themselves: a file is a byte sequence, a region under a mutex one atomic step
- The hardware CRC path; the portable loop is the definition
- Allocation failure, custom allocators, handle destruction, the encoder's memory limit
- File-to-file compression and decompression beyond their codec and container parts, including the footer comparison of the stream checksum, and user metadata records beyond being skipped
- LzbFinds.LiteralsAreNew: earlier occurrences of a hash than the last are looked at as well, as far as their links survive the double entry of lazy evaluation; which of them do is not stated
- HuffBest.BuildIsBest: nothing about how much smoothing costs where the plain tree is too deep
- RepairDamage.OneBlockLost: payload bytes that themselves look like a block header can lead the scan astray, so the theorem excludes them
- Compression ratio in general, and any claim that LZB output fits `xq_lzb_bound`
- Offsets, clocks and statistics are unbounded integers unless the C code checks them
- The command line and the benchmarks
