# Verification of the engine's allocator, codecs and protocols

A Dafny model of the parts of the engine that are easy to get wrong: the TLSF allocator and the heap
over it, the LZ4 block, HC and frame codecs, the xxHash checksums, the compressed-file container, the
ring queue, the snapshot delta codec and the entity lifecycle. `dafny verify dfyconfig.toml` checks
all of it.

- **LZ4 blocks.** `Lz4Block` says what a block means, byte by byte (`DecodeFrom`), what a well-formed
  block is, and how sequences are written. `Lz4Copy` and `Lz4Decompress` are the decoder with its fast
  loop, shortcut, wild copies and offset tables over arrays, with a prefix and an external dictionary; `Lz4Emit` and `Lz4Compress` the greedy
  compressor with the hash table that survives between inputs. `Lz4HcMatch`, `Lz4HcEmit`, `Lz4HcLazy`,
  `Lz4HcOptimal` and `Lz4Hc` are the HC match finder, its two parsers, and the state around them.
  Hash functions are arbitrary.
- **LZ4 frames.** `FrameFormat` says what a frame means, for a codec of blocks that is a function of a
  block and the 64 KB before it. `FrameDict` is the history of the decoder as it moves between the
  caller's and the decoder's memory, `FrameDecoder` the resumable decoder, `FrameStream` whole runs of
  it, with destinations that change from call to call or one that is stable. `FrameEncoding` and
  `FrameCompressor` are the streaming compressor and its bounds, `FrameOverrun` where the bound fails,
  `FrameRoundTrip` both sides together, and `FrameBlocks` shows that the block compressor and decoder
  above are such a codec. `FrameVectors` has blocks and frames byte for byte.
  A frame's content size of 0 stands for "unknown", as in the code.
- **TLSF.** `TlsfMapping` (size classes and alignment arithmetic), `TlsfBits` (bitmaps), `TlsfLists`
  (free lists), `TlsfBlocks` (the tiling of pools), `TlsfMemory` (how all of it lies in memory words)
  and `TlsfInvariant` build up to `Tlsf.Allocator`, `TlsfCheck` is what the checking functions look at. Memory is a sequence of 64-bit words; ghost fields
  hold the blocks, the free ones, the links and the pools. `Quiet` says that no block in use other than
  the named ones changes. `Heap` grows the allocator by arenas.
- **Checksums, container, protocols.** `XxHash32`, `XxHash64` and `XxChunks`; `XxDistinct32` and
  `XxDistinct64` on inputs that differ in one place (`XxApart`), `XxVectors32` and `XxVectors64` with
  published digests; `FileCodec`, `Queue` (interleaved steps of any number of threads), `Net` (one
  packet), `NetRun` (many), `NetSnapshot` (from the sender's components to the receiver's) and `Ecs`.

Where the code falls short of what one would expect of it, the condition is stated exactly:

- `tlsf_check_pool` does not look at the sentinel of a pool, and so not at its prev-free bit (`CheckPool`).
- A pool of exactly `block_size_max` bytes passes the check of `tlsf_add_pool` and belongs to row 25 of
  25 (`ClassInRange`, `TooLargeAPool`). `heap_alloc` asks for that pool exactly when the larger of its
  increment and twice the request is 2^32 to 2^32 + 7: with an increment below 4 GB, on requests of 2^31
  to 2^31 + 3 bytes and those 2^63 bytes larger (`GrowTooLarge`).
- A request within 8 bytes of 2^64 is answered with a block of 24 bytes (`AdjustServes`), and so is one
  for the alignment 2^63 (`GapRequest`).
- `packet_read_entities` reproduces the snapshot exactly when no live entity that the packet is not about
  was marked earlier in the same frame, none that it is about was removed earlier in it, and what comes
  without data is what the receiver has (`ReadEntities`). A second packet in one frame can fail both of
  the first two (`TwoInAFrame`), and a value that went back to what it was in the acknowledged snapshot,
  with another one applied in between, the third (`ValueWentBack`, `StaysBehind`).
- The queue is first-in first-out exactly if it has one slot, or nobody pushes, or nobody pops, or one
  thread pushes and one pops (`FifoExactly`); for every other case and capacity there is a run that is
  not (`TwoPushersRace`, `TwoPoppersRace`).
- A file that is compressed and decompressed comes back exactly if it has at most `LZ4_MAX_INPUT_SIZE`
  bytes, or if its size fits an `int` and the new buffer happened to hold the same bytes
  (`WriteThenRead`). A larger one gets an empty block, and from 2^31 bytes on its size is cut to an
  `int` first, so that of 2^32 + 5 bytes the first five are stored (`FileCompress`).
- `LZ4F_compressBound` counts blocks in 32 bits, and is a bound exactly while they can be counted
  (`BoundHolds`): otherwise `LZ4F_compressUpdate` writes more than it whenever none of the blocks cut from
  this input gets smaller (`Update`). Every compressor whose blocks can be decoded has such inputs, as
  there are more blocks than shorter outputs (`SomeInput`): of 2^48 bytes, sent as independent blocks,
  with a bound of 4 (`SomeOverrun`).

## Model

| member | source | states |
|---|---|---|
| Lz4Block.ExtRoundTrip | src/lz4/lz4.c:1784-1790 | The 255-chains that lengths are written in are read back as the number, ending where they end |
| Lz4Block.BlockRoundTrip | src/lz4/lz4.c:240-247 | A block made of valid sequences and a last run of literals is well formed (end-of-block rules) and decodes to exactly its data |
| Lz4Block.WellFormedDecodes | src/lz4/lz4.c:1801-1898 | Every well-formed block has a meaning, of the announced size, behind what was there before |
| Lz4Block.WellFormedUnique | src/lz4/lz4.c:1801-1898 | A block is well formed for one size only |
| Lz4Block.RepeatsIsCopyMatch | src/lz4/lz4.c:1883-1888 | The only continuation of the output that repeats it with the match's offset is the match, overlap included |
| FrameVectors.RunBlock | src/lz4/lz4.c:240-247 | For every byte the block 1F, byte, 1, 0, 0, 50 and five times the byte is well formed and decodes to the byte 25 times |
| Lz4Copy.Tables | src/lz4/lz4.c:455-456 | The tables inc32table and dec64table move a short offset to a whole number of periods, at least 4 and then at least 8 bytes back |
| Lz4Copy.CopyUsingOffset | src/lz4/lz4.c:515-550 | Copies for offsets below 16 leave the match's pattern up to its end, whatever they write behind it |
| Lz4Copy.CopyUsingOffsetBase | src/lz4/lz4.c:476-498 | The same for offsets other than 1, 2 and 4, through the two tables |
| Lz4Copy.WildCopy8 | src/lz4/lz4.c:445-455 | Copies of eight bytes continue a periodic region and write nothing beyond the stated end |
| Lz4Copy.WildCopy32 | src/lz4/lz4.c:502-510 | The same for two copies of sixteen bytes at a time |
| Lz4Decompress.FastLoop | src/lz4/lz4.c:2002-2131 | The fast loop keeps the decoding state of the byte-by-byte meaning, 32 bytes away from the end of the output, and never fails on a well-formed block |
| Lz4Decompress.Shortcut | src/lz4/lz4.c:2142-2181 | The two-stage shortcut (16 bytes of literals, 18 of match) leaves the same state as decoding the sequence |
| Lz4Decompress.CopyMatchSafely | src/lz4/lz4.c:2304-2352 | The safe loop's match copy gives the match, and refuses exactly those that end within the last five bytes |
| Lz4Decompress.DecompressGeneric | src/lz4/lz4.c:1943-2362 | For every input, prefix, external dictionary and capacity: nothing outside the output range changes; a non-negative result is the decoded size and the output is what the block means after dictionary and prefix; every well-formed block that fits is accepted (into an output of no bytes only the one-byte empty block) |
| Lz4Decompress.CopyFromDict | src/lz4/lz4.c:2267-2294 | A match that starts in the external dictionary, and one that stretches from its end into the output, overlapping what it writes or not, is the match of the whole history |
| Lz4Decompress.DecompressUsingDict | src/lz4/lz4.c:2636-2649 | The same for a dictionary anywhere in memory, in front of the output or elsewhere |
| Lz4Decompress.DecompressUnsafe | src/lz4/lz4.c:1801-1898 | The byte-by-byte decoder reads all of a well-formed block and yields the same meaning |
| Lz4Compress.CommonBytes | src/lz4/lz4.c:560-656 | How many of eight bytes agree: all of those, and the next one does not |
| Lz4Compress.Count | src/lz4/lz4.c:660-684 | The longest common run up to the limit |
| Lz4Compress.Stream.PrepareTable | src/lz4/lz4.c:857-896 | Afterwards every entry left from earlier inputs is cleared, below the current start, or too far away to be used |
| Lz4Compress.Stream.TryPosition | src/lz4/lz4.c:1013-1075 | Exactly those candidates pass that are an earlier position of the same input with the same four bytes, at most 65535 back, also where the distance is not compared |
| Lz4Compress.Stream.FindMatch | src/lz4/lz4.c:1013-1075 | The search with growing steps returns such a match, at once if the first position has one, or leaves the table fit for the next input |
| Lz4Compress.CatchUp | src/lz4/lz4.c:1077-1079 | Extending a match backwards keeps its distance, and stays behind the anchor and inside the input |
| Lz4Compress.Stream.EncodeMatches | src/lz4/lz4.c:1108-1265 | Each match is encoded with an offset in 1..65535, away from the end of the block, in the room there is, and what is written stays a list of sequences that expand to the input |
| Lz4Compress.Stream.CompressValidated | src/lz4/lz4.c:904-1308 | For any hash function, acceleration and table left behind: a non-zero result is a well-formed block of the input; without a limit at most n + n/255 + 16 bytes; all writes within the output; a run of n equal bytes, n at least 13, becomes one of 10 + (n + 230)/255 bytes, and is refused exactly if that is more than the limit |
| Lz4Compress.CompressFastReset | src/lz4/lz4.c:1384-1419 | Over any sequence of calls on one state, failed ones included, a non-zero result decodes to its own input, and a sufficient capacity never fails; runs of one byte are compressed as above, and refused exactly if they do not fit |
| Lz4Compress.CompressFast | src/lz4/lz4.c:1422-1444 | The same for a fresh state |
| Lz4Compress.RunSizeIs | src/lz4/lz4.c:904-1308 | The size of a run's block: one literal, one match, five literals |
| Lz4Emit.WriteExtensionByFours | src/lz4/lz4.c:1183-1195 | Writing four bytes of 255 at a time and correcting the position gives the length's bytes |
| Lz4Emit.EncodeLiteralRun | src/lz4/lz4.c:1081-1106 | Token, length and literals by wild copy, within bounds; refused exactly if limited and without room for them, an offset, a token and five bytes more |
| Lz4Emit.EncodeMatchCode | src/lz4/lz4.c:1110-1195 | Offset and length complete the sequence, within bounds; refused exactly if limited and without room for them, a token and five bytes more |
| Lz4Emit.EncodeLastLiterals | src/lz4/lz4.c:1271-1300 | The last literals; refused exactly if limited and without room |
| Lz4HcMatch.Tables.Insert | src/lz4/lz4hc.c:122-143 | Registers positions so that the tables never hold one at or beyond the current one |
| Lz4HcMatch.CountBack | src/lz4/lz4hc.c:145-160 | How far a match extends backwards, and that it does not go further |
| Lz4HcMatch.CountPattern | src/lz4/lz4hc.c:176-206 | The length of the run of a byte from a position on, in steps of eight and one |
| Lz4HcMatch.ReverseCountPattern | src/lz4/lz4hc.c:208-226 | The length of the run of a byte before a position, in steps of four and one |
| Lz4HcMatch.RunsMatch | src/lz4/lz4hc.c:342-410 | Two runs of the same byte match each other, which is what the pattern analysis rests on |
| Lz4HcMatch.Tables.GetWiderMatch | src/lz4/lz4hc.c:242-445 | With chain swap and pattern analysis: a longer match that is returned starts between the bounds, covers the current position and has equal bytes at a distance of at most 65535; at the second byte of a run it is the rest of the run |
| Lz4HcEmit.EncodeSequenceHc | src/lz4/lz4hc.c:472-553 | One sequence is appended to a valid list, within the output; refused exactly if limited and without room for it and what must follow |
| Lz4HcLazy.CorrectedApart | src/lz4/lz4hc.c:637-649 | Moving the second match's start leaves the first at least four bytes and keeps both matches |
| Lz4HcLazy.DecidedReplace | src/lz4/lz4hc.c:675-699 | When a third match takes over, the first is encoded and the rest is a state of the parser again, trimmed or not |
| Lz4HcLazy.DecidedThree | src/lz4/lz4hc.c:707-737 | When three matches ascend, the first is narrowed to one that can be encoded and the others remain matches |
| Lz4HcLazy.DecidedTwo | src/lz4/lz4hc.c:659-673 | Without a third match both are encoded one behind the other without overlap |
| Lz4HcLazy.CompressHashChain | src/lz4/lz4hc.c:558-792 | The lazy parser, for any hash function, limited or not: what it finishes is well formed, decodes to the source and keeps to the bound; a run of n equal bytes becomes 10 + (n + 230)/255 bytes, and is refused exactly if that is more than the limit |
| Lz4HcOptimal.ImproveMatches | src/lz4/lz4hc.c:1487-1521 | However prices decide, every entry of the table stays a literal or a match that ends at its position and is no longer than it |
| Lz4HcOptimal.SearchFurther | src/lz4/lz4hc.c:1436-1536 | The last step of the parse that it returns starts inside the table and is a genuine match or a literal |
| Lz4HcOptimal.Reverse | src/lz4/lz4hc.c:1538-1556 | The traversal back reaches position 0 and leaves a path of choices from there to the end |
| Lz4HcOptimal.CompressOptimal | src/lz4/lz4hc.c:1338-1609 | The optimal parser: what it finishes is well formed, decodes to the source and keeps to the bound; so does a run whose match is long enough to be encoded at once, with the size and the refusal of the lazy parser |
| Lz4Hc.StreamHc.Reset | src/lz4/lz4hc.c:101-118 | A new start puts all older positions out of reach |
| Lz4Hc.StreamHc.Compress | src/lz4/lz4hc.c:946-956 | At any level, over any sequence of calls on one state: a non-zero result decodes to its own input; runs of one byte, at level 10 and above those of more than 4101 bytes, have the size given above, and are refused exactly if they do not fit |
| FrameFormat.BlocksEnd | src/lz4/lz4frame.c:1670-1680 | A frame ends behind its end mark, and its content starts with what its first blocks add |
| FrameVectors.EmptyFrame | src/lz4/lz4frame.c:341-345 | A fixed frame without content, byte for byte, with its header checksum A7 and its content checksum |
| FrameVectors.FullFrame | src/lz4/lz4frame.c:1330-1377 | A fixed frame of three bytes with every optional field and all three kinds of checksums |
| FrameVectors.SkippableFrame | src/lz4/lz4frame.c:1301-1320 | A fixed skippable frame under each of the sixteen magic numbers |
| FrameDict.History.UpdateDict | src/lz4/lz4frame.c:1469-1534 | After output is delivered, whichever of the moves is taken, the dictionary ends like the last 64 KB of output and only the decoder's own buffer is written |
| FrameDict.History.UpdateDictWithinTmp | src/lz4/lz4frame.c:1494-1513 | The same during a flush, for the part of the window that is needed once the block is flushed |
| FrameDict.InFront | src/lz4/lz4frame.c:1501-1513 | Copying only 64 KB less the block's size in front of the block completes the window |
| FrameDict.History.PlaceTmpOut | src/lz4/lz4frame.c:1864-1876 | The block's place leaves room for it, and as much in front as the window needs |
| FrameDict.History.PreserveWhole | src/lz4/lz4frame.c:2042-2051 | At the end of a call a dictionary in the destination moves into the decoder's buffer and stays what it was |
| FrameDict.History.PreserveFlushing | src/lz4/lz4frame.c:2030-2041 | The same in the middle of a flush |
| FrameDecoder.Decoder.DecodeHeader | src/lz4/lz4frame.c:1290-1377 | On a well-formed frame: descriptor and size are those of the format, or the rest of the header is asked for |
| FrameDecoder.Decoder.HeaderStep | src/lz4/lz4frame.c:1589-1616 | The header is read in place or collected over several calls, with the same outcome |
| FrameDecoder.Decoder.InitStep | src/lz4/lz4frame.c:1618-1641 | Buffers that an earlier frame left are kept exactly if both are large enough for this one |
| FrameDecoder.Decoder.BlockHeaderStep | src/lz4/lz4frame.c:1643-1700 | Block headers, whole or in pieces, lead to the block that stands there |
| FrameDecoder.Decoder.CopyDirectStep | src/lz4/lz4frame.c:1702-1742 | An uncompressed block passes in any pieces; what is delivered and what is left add up to it |
| FrameDecoder.Decoder.CBlockStep | src/lz4/lz4frame.c:1781-1900 | A compressed block, in place or collected, is decoded with exactly the last 64 KB of output as its window |
| FrameDecoder.Decoder.FlushStep | src/lz4/lz4frame.c:1903-1923 | A decoded block leaves in any pieces, and the dictionary is the window again when it has |
| FrameDecoder.Decoder.SuffixStep | src/lz4/lz4frame.c:1925-1970 | The frame's end is accepted with the whole content delivered, and the context is fit for another frame |
| FrameDecoder.Decoder.SkipFrame | src/lz4/lz4frame.c:1973-2017 | A skippable frame, its size whole or in pieces, is skipped to its end without output |
| FrameDecoder.Decoder.Ahead | src/lz4/lz4frame.c:1555-1570 | In every stage what is delivered is a beginning of the content, and the input read so far lies before the frame's end |
| FrameDecoder.Decoder.Decompress | src/lz4/lz4frame.c:1555-2057 | On a well-formed frame no call fails, each adds the next bytes of the content to the destination, 0 is returned exactly with all of it delivered and the input consumed up to the frame's end; a call that is not done has used up its input or filled the destination |
| FrameDecoder.Decoder.CallerWrites | src/lz4/lz4frame.c:2022-2052 | Between calls the caller's memory may change in any way: nothing the decoder needs is in it, unless the destination was promised to be stable |
| FrameStream.DecodeInTurns | src/lz4/lz4frame.c:1536-1554 | For every well-formed frame, every cutting of input and output, and memory changed between calls: what comes out is a beginning of the content, all of it when the frame is done; useful calls finish it |
| FrameStream.DecodeInPlace | src/lz4/lz4frame.h:368-369 | With a stable destination that is filled call after call: what stands in it is always a beginning of the content, all of it when the frame is done; useful calls finish it if it has more room than content |
| FrameEncoding.HeaderRoundTrip | src/lz4/lz4frame.c:753-784 | A header that is written is read back as what was asked for, of the size its flags say |
| FrameEncoding.BlocksThrough | src/lz4/lz4frame.c:825-850 | A run of blocks means the same wherever it stands in a frame |
| FrameEncoding.DecodedAppend | src/lz4/lz4frame.c:987-1007 | Runs of blocks can be put one behind the other |
| FrameEncoding.WholeFrame | src/lz4/lz4frame.c:1151-1185 | Header, blocks, end mark and checksum are a frame of the blocks' content, with nothing left over |
| FrameEncoding.BoundHolds | src/lz4/lz4frame.c:371-396 | If and only if the number of blocks fits into 32 bits, the bound is the worst case, and what is written when no block gets smaller keeps to it; otherwise that is more than 19 bytes over it |
| FrameEncoding.BoundFails | src/lz4/lz4frame.c:371-396 | For 2^48 bytes in blocks of 64 KB the bound is 4 bytes, and 2^48 + 2^34 are written when no block gets smaller |
| FrameOverrun.SomeBlock | src/lz4/lz4frame.c:825-840 | For every compressor whose blocks can be decoded, every call and every size there is a block that it cannot make smaller |
| FrameOverrun.SomeInput | src/lz4/lz4frame.c:930-1046 | So for independent blocks there are inputs of every size of which no block gets smaller |
| FrameOverrun.SomeOverrun | src/lz4/lz4frame.c:371-396 | And for every such compressor an input of 2^48 bytes whose output is larger than the bound |
| FrameEncoding.OptimalBlockSizeId | src/lz4/lz4frame.c:351-363 | The smallest block size that holds all of the input, up to the one asked for |
| FrameEncoding.SameBound | src/lz4/lz4frame.c:436-447 | The preferences as adjusted for a whole frame have the same bound as those the caller gave, and blocks can be counted with both or with neither |
| FrameCompressor.Compressor.PrepareDict | src/lz4/lz4.c:1619-1676 | Whatever is cut off it, the dictionary stays an end of the history |
| FrameCompressor.Compressor.Continue | src/lz4/lz4.c:1639-1716 | The block is given to the compressor with an end of the history, with all of the dictionary where nothing has to be cut off it; it decodes with the window before it, and the dictionary then ends with the block |
| FrameCompressor.OneBlock | src/lz4/lz4frame.c:825-850 | A block as it is written, compressed or not, with or without checksum, reads back as its data |
| FrameCompressor.Compressor.MakeBlock | src/lz4/lz4frame.c:825-850 | What is written is one block of the data: what the compressor made of it with that dictionary if that is smaller, else the data itself |
| FrameCompressor.PackedJoin | src/lz4/lz4frame.c:987-1007 | So runs of such blocks can be put one behind the other |
| FrameCompressor.Compressor.SaveDict | src/lz4/lz4.c:1746-1770 | The end of the dictionary moves to the start of the buffer and stays an end of the history |
| FrameCompressor.Compressor.FullBlocks | src/lz4/lz4frame.c:987-996 | As many full blocks as the input holds, within their bound |
| FrameCompressor.Compressor.CompleteTmp | src/lz4/lz4frame.c:962-985 | What is collected is completed to a block, or all of the input is added to it; nothing is lost or doubled |
| FrameCompressor.Compressor.Retain | src/lz4/lz4frame.c:1009-1031 | The dictionary survives, and there is room for one more block behind tmpIn |
| FrameCompressor.Compressor.Update | src/lz4/lz4frame.c:930-1046 | The blocks sent followed by what is collected are all input so far, less than a block is collected; with blocks that can be counted the output keeps to the bound, with room left to end the frame; when none of the blocks cut from the collected bytes and this input gets smaller, the size is exact and keeps to the bound only then |
| FrameCompressor.Compressor.Flush | src/lz4/lz4frame.c:1104-1139 | Afterwards the blocks sent are all of the input; it fails exactly without room |
| FrameCompressor.Compressor.End | src/lz4/lz4frame.c:1151-1186 | Everything sent is one frame whose content is all input, block by block as the compressor makes it where that is smaller; it fails for room exactly if the flush does or the end mark and checksum do not fit behind it, never with the bound's room, and else only if the announced size is not the input's |
| FrameCompressor.Compressor.Begin | src/lz4/lz4frame.c:677-791 | The header, and a buffer that is large enough for linked blocks and for collecting one |
| FrameCompressor.Compressor.CompressFrame | src/lz4/lz4frame.c:420-463 | For every input whatever is returned is a frame of it, block by block as the compressor makes it where that is smaller; with LZ4F_compressFrameBound bytes and blocks that can be counted it succeeds and keeps to them, and when none of the input's blocks gets smaller it keeps to them only then |
| FrameRoundTrip.CompressInPieces | src/lz4/lz4frame.c:1048-1063 | Begin, updates and flushes in any order with the caller's memory changed in between, and end: one frame of all the pieces, its blocks compressed where that makes them smaller |
| FrameRoundTrip.RoundTrip | src/lz4/lz4frame.c:1536-1554 | What is fed into the compressor in any pieces comes out of the decoder in any calls |
| FrameBlocks.HistoryBehind | src/lz4/lz4.c:2083-2096 | History further back than the longest offset has no influence on what a block means |
| FrameBlocks.WindowSuffices | src/lz4/lz4.c:2636-2649 | A block made with any end of the history as dictionary means the same after the last 64 KB of it |
| FrameBlocks.WindowAccepts | src/lz4/lz4.c:2636-2649 | A well-formed one is well formed there too, and so a block of the codec |
| FrameBlocks.BlocksAreSound | src/lz4/lz4frame.c:853-871 | So compressors whose blocks are well formed and mean their data after the dictionary meet what the frame layer asks of its codec |
| FrameBlocks.IndependentBlocks | src/lz4/lz4frame.c:853-861 | Compressors that leave the dictionary aside, as for independent blocks, are such compressors |
| FrameBlocks.MakeBlock | src/lz4/lz4frame.c:825-861 | With LZ4_compress_fast itself as the compressor, what is written is one block of the data behind any history, and a run of one byte is written compressed |
| FrameBlocks.DecodeAsCodec | src/lz4/lz4.c:1943-2362 | LZ4_decompress_safe_usingDict is the frame layer's codec: of every block that the codec knows and that fits it makes what the codec says, with the dictionary in front of the output or elsewhere, and writes nowhere else |
| XxHash32.Finalize32 | src/lz4/xxhash.c:291-349 | The unrolled switch over the tail equals the loop over words and then bytes |
| XxHash32.XXH32 | src/lz4/xxhash.c:352-389 | The one-shot function equals stripes, then tail, then avalanche; what that is, the next rows say |
| XxDistinct32.DigestsApart | src/lz4/xxhash.c:270-389 | Two inputs of equal length that differ within one aligned word of four bytes, or in one byte behind the last such word, have different digests for every seed |
| XxDistinct32.FedApart | src/lz4/xxhash.c:366-377 | One word that differs within the stripes leaves exactly its own lane different, whatever follows |
| XxDistinct32.AvalancheApart | src/lz4/xxhash.c:278-286 | The final scramble is one-to-one |
| XxVectors32.Empty | src/lz4/xxhash.c:352-389 | The empty input has digest 02CC5D05 with seed 0 |
| XxVectors32.Three | src/lz4/xxhash.c:352-389 | "abc" has digest 32D153FF (and XxVectors32.Letter: "a" has 550D7456) |
| XxVectors32.Phrase | src/lz4/xxhash.c:352-389 | A published phrase of 39 bytes, two stripes and a tail of words and bytes, has digest E2293B2F |
| XxVectors32.EmptySeeded | src/lz4/xxhash.c:352-389 | With seed 9E3779B1 the empty input has digest 36B78AE7 |
| XxVectors32.Seeded | src/lz4/xxhash.c:352-389 | With that seed the phrase has digest C9E89E68 |
| XxHash32.State32.Update | src/lz4/xxhash.c:452-512 | The state after an update is the state of all bytes fed in |
| XxHash32.State32.Digest | src/lz4/xxhash.c:527-543 | The digest is the hash of all bytes fed in, though the total length is kept modulo 2^32 |
| XxHash32.HashChunks32 | src/lz4/xxhash.c:437-543 | For every list of chunks: reset, updates and digest give the hash of their concatenation |
| XxHash64.Finalize64 | src/lz4/xxhash.c:702-808 | As for XXH32 |
| XxHash64.State64.Update | src/lz4/xxhash.c:912-968 | As for XXH32 |
| XxHash64.HashChunks64 | src/lz4/xxhash.c:898-1003 | For every list of chunks: reset, updates and digest give the hash of their concatenation |
| XxDistinct64.DigestsApart | src/lz4/xxhash.c:672-842 | Two inputs of equal length that differ behind their whole stripes within one word that is read at once, or in one byte behind the last such word, have different XXH64 digests for every seed; inputs of less than 32 bytes have no stripes |
| XxDistinct64.StripedDigests | src/lz4/xxhash.c:810-842 | If they differ within one word of a stripe, exactly one lane differs, and the digests are the same if and only if the lanes are merged to the same |
| XxVectors64.Empty | src/lz4/xxhash.c:810-842 | The empty input has digest EF46DB3751D8E999 with seed 0 |
| XxVectors64.Three | src/lz4/xxhash.c:810-842 | "abc" has digest 44BC2CF5AD770999 (and XxVectors64.Letter: "a" has D24EC4F1A98C6E5B) |
| XxVectors64.Fourteen | src/lz4/xxhash.c:810-842 | "message digest", with a word of eight, one of four and two bytes, has digest 066ED728FCEEB3BE |
| XxVectors64.Phrase | src/lz4/xxhash.c:810-842 | The phrase of 39 bytes, one stripe and a tail, has digest FBCEA83C8A378BF1 |
| XxVectors64.Seeded | src/lz4/xxhash.c:810-842 | With seed 9E3779B1 it has digest 56DB22DD5B051147 |
| FileCodec.DigitsRoundTrip | src/fs.c:160-273 | A number between -10^k and 10^k in k decimal digits, those of a negative one below '0', is read back |
| FileCodec.HeaderBytes | src/fs.c:253-277 | The header byte for byte: the digits of the block's size, the most significant first, then those of the file's size, each with a newline |
| FileCodec.WriteHeader | src/fs.c:263-277 | The digit loop leaves both sizes and the newlines before the block |
| FileCodec.ReadHeader | src/fs.c:157-166 | The digit loop recovers both sizes |
| FileCodec.Work.FileCompress | src/fs.c:237-285 | A file of any size becomes a container of its size as an int and a block of that many of its bytes, or an empty block if that is negative or too large for LZ4 |
| FileCodec.Work.FileDecompress | src/fs.c:154-179 | On a container: its block is decoded into a buffer of the stored size, with a zero behind it when asked for; without a block the buffer keeps what memory held |
| FileCodec.WriteThenRead | src/fs.c:154-285 | For files of all sizes: decompressing what was compressed restores the file if and only if LZ4 accepts its size, or its size fits an int and its bytes were in memory anyway |
| TlsfMapping.ClassBounds | src/tlsf/tlsf.c:513-530 | A list holds exactly the sizes from its minimum up to the next list's |
| TlsfMapping.ClassMonotone | src/tlsf/tlsf.c:513-530 | mapping_insert is monotone |
| TlsfMapping.ClassInRange | src/tlsf/tlsf.c:995-1004 | Sizes below block_size_max, and no others, have a list |
| TlsfMapping.TooLargeAPool | src/tlsf/tlsf.c:995-1004 | The size that the check admits at its limit maps to row 25 of 25 |
| TlsfMapping.SearchSound | src/tlsf/tlsf.c:533-541 | Every block in a list at or above where the search starts is large enough |
| TlsfMapping.SearchComplete | src/tlsf/tlsf.c:533-541 | A block with a 32nd of the request to spare is in a list that the search covers |
| TlsfMapping.AdjustServes | src/tlsf/tlsf.c:492-506 | The adjusted size serves the request exactly up to 2^64 - 8 |
| TlsfMapping.AdjustPositive | src/tlsf/tlsf.c:492-506 | It is zero exactly for requests that are zero or too large |
| TlsfMapping.GapRequest | src/tlsf/tlsf.c:1126-1143 | The larger request for an alignment leaves room for the gap exactly for alignments below 2^63 |
| TlsfMapping.GapBounds | src/tlsf/tlsf.c:1150-1174 | The gap is nothing, or between a block header and the alignment plus 24 |
| TlsfBits.Ffs | src/tlsf/tlsf.c:116-121 | The lowest bit that is set |
| TlsfBits.SearchSuitable | src/tlsf/tlsf.c:543-573 | Through both bitmaps: the first list at or after the start that is not empty, or that there is none |
| TlsfBits.BitmapsAfterInsert | src/tlsf/tlsf.c:616-622 | The bits still say which lists are empty after an insertion |
| TlsfBits.BitmapsAfterRemove | src/tlsf/tlsf.c:585-601 | And after a removal |
| TlsfLists.InsertKeeps | src/tlsf/tlsf.c:605-623 | Inserting keeps the links of every list, and adds the block |
| TlsfLists.RemoveKeeps | src/tlsf/tlsf.c:576-602 | Removing from any place keeps the links of every list, and takes the block out |
| TlsfLists.OnExactlyItsList | src/tlsf/tlsf.c:877-889 | A listed block is reached from the head of its list and from no other |
| TlsfBlocks.SplitKeeps | src/tlsf/tlsf.c:647-666 | Splitting keeps the blocks tiling their pool |
| TlsfBlocks.AbsorbKeeps | src/tlsf/tlsf.c:669-676 | Merging keeps the blocks tiling their pool |
| TlsfBlocks.PoolKeeps | src/tlsf/tlsf.c:980-1027 | A new pool keeps the tiling of the others |
| Tlsf.Allocator.BlockInsert | src/tlsf/tlsf.c:634-639 | Keeps every part of the invariant and no payload is touched |
| Tlsf.Allocator.BlockRemove | src/tlsf/tlsf.c:626-631 | Likewise |
| Tlsf.Allocator.BlockSplit | src/tlsf/tlsf.c:647-666 | The second part is a free block of the rest, both headers and the link behind agree |
| Tlsf.Allocator.BlockAbsorb | src/tlsf/tlsf.c:669-676 | The block takes in its successor, and the link behind agrees |
| Tlsf.Allocator.BlockMergePrev | src/tlsf/tlsf.c:679-691 | A free predecessor takes the block in; none remains |
| Tlsf.Allocator.BlockMergeNext | src/tlsf/tlsf.c:694-707 | A free successor is taken in, and the payload of a used block stays |
| Tlsf.Allocator.BlockTrimFreeLeading | src/tlsf/tlsf.c:737-751 | The gap becomes a listed block of its own, and the rest has its size |
| Tlsf.Allocator.BlockLocateFree | src/tlsf/tlsf.c:753-781 | Returns a block that is large enough, from the first list that the search covers and that has any, or none exactly if no list that it covers has one |
| Tlsf.Allocator.Malloc | src/tlsf/tlsf.c:1115-1121 | The invariant is kept; what is handed out was free, is at least the request, from the first list that can serve it, and no other payload changes; it fails exactly if the request is zero or too large or no list that the search covers has a block, and leaves the allocator as it was |
| Tlsf.Allocator.Memalign | src/tlsf/tlsf.c:1123-1178 | The same, for the larger request that an alignment makes, and the result is a multiple of the alignment |
| Tlsf.Allocator.Free | src/tlsf/tlsf.c:1180-1193 | The block is free again, merged with its neighbours, and no other payload changes |
| Tlsf.Allocator.Realloc | src/tlsf/tlsf.c:1208-1264 | The block stays in place exactly if it, or it with a free one behind it, is large enough, and else fails exactly if a search for the new size would; the first min(old, new) bytes are preserved, in place or moved; no other payload changes; failure leaves the old block |
| Tlsf.Allocator.AddPool | src/tlsf/tlsf.c:980-1027 | Accepts exactly aligned pools of a suitable size, as one free block and a sentinel |
| Tlsf.Allocator.constructor | src/tlsf/tlsf.c:797-813 | An allocator without pools meets the invariant, whatever memory held |
| Tlsf.Allocator.Check | src/tlsf/tlsf.c:844-894 | In any memory whose lists can be followed tlsf_check finds nothing wrong exactly if every list has its bits right and holds only free blocks between used ones, of its sizes |
| Tlsf.Allocator.ListsSound | src/tlsf/tlsf.c:844-894 | So it is in every state that meets the invariant |
| TlsfCheck.CheckPool | src/tlsf/tlsf.c:827-939 | In any memory whose blocks can be followed tlsf_check_pool finds nothing wrong exactly if every block but the sentinel says rightly whether the one before it is free |
| Tlsf.Allocator.PoolSound | src/tlsf/tlsf.c:827-939 | So it is in every state that meets the invariant, for the sentinel too |
| Tlsf.Allocator.PayloadsDisjoint | src/tlsf/tlsf.c:783-794 | Live payloads do not overlap and lie within memory |
| Tlsf.Allocator.InItsList | src/tlsf/tlsf.c:886-888 | A block is free exactly if it is in the list that mapping_insert gives |
| Tlsf.Allocator.NoFreeNeighbours | src/tlsf/tlsf.c:880-883 | No two free blocks are adjacent |
| Tlsf.Allocator.AllFree | src/tlsf/tlsf.c:1180-1193 | When all blocks of a pool are free, in whatever order they became so, they are one block of the pool's size |
| Tlsf.Allocator.RoomSuffices | src/tlsf/tlsf.c:753-781 | A search cannot fail while a free block has a 32nd of the request to spare |
| Tlsf.Conserved | src/tlsf/tlsf.c:904-919 | However blocks are split and merged, sizes and overheads of a pool add up to the same |
| Heap.ArenaServes | src/heap.c:54-59 | A new arena has a 32nd more than the request it was made for |
| Heap.GrowTooLarge | src/heap.c:54-68 | The pool of a new arena is the one without a list if and only if 2^32 to 2^32 + 7 bytes are wanted; with an increment below 4 GB, if and only if the request modulo 2^63 is 2^31 to 2^31 + 3 |
| Heap.GameHeap.Grow | src/heap.c:52-72 | For arenas that are not too large in that sense: the invariant is kept, payloads stay, and a search cannot fail for a request with a 32nd to spare in the new pool, such as, with an increment of at least 4096, one below 2^31 bytes |
| Heap.GameHeap.Alloc | src/heap.c:47-79 | For every alignment below 2^63: what is returned is large enough, aligned and new; an arena is added exactly if the first search cannot serve the request and the system has memory; it fails only if the searches before and after that cannot, not when the new pool has room with a 32nd to spare, and so, for alignments up to 8, an increment of at least 4096 and less than 2^31 bytes, never if the system has memory |
| Heap.GameHeap.Release | src/heap.c:81-86 | The block is free again and no other payload changes |
| Queue.CapacityConserved | src/queue.c:37-76 | With any number of threads, in every interleaving: used, free and slots in flight add up to the capacity |
| Queue.FirstInFirstOut | src/queue.c:37-52 | With one pusher and one popper, whichever threads they are, in every interleaving, the popped items are a beginning of the pushed ones |
| Queue.OneSlotFifo | src/queue.c:37-52 | So they are with a single slot and any number of threads |
| Queue.TwoPushersRace | src/queue.c:37-43 | For every capacity of at least two and two threads that push: a run in which a slot is popped that nothing was stored in |
| Queue.TwoPoppersRace | src/queue.c:45-52 | The same for two threads that pop: a run in which the second item comes out first |
| Queue.FifoExactly | src/queue.c:37-76 | Every run is first-in first-out if and only if there is one slot, nobody pushes, nobody pops, or one thread pushes and one pops |
| NetSnapshot.SnapshotEntities | src/net.c:415-449 | Of the entities before the first invalid one exactly those are taken, in order, whose record still fits; each record stands behind those before it: type and sequence number in little-endian bytes, and each replicated component at the offset that the sizes of those below it add up to |
| NetSnapshot.GatherCarries | src/net.c:432-445 | Gathering puts every replicated component at its offset |
| NetSnapshot.SameComponents | src/net.c:432-445 | Components that gather to the same bytes are the same, as far as they are replicated |
| NetSnapshot.PacketBytes | src/net.c:451-504 | The bytes of an entity in a packet: type, sequence number, 1 and its data, or 0 |
| Net.Scatter | src/net.c:567-581 | Writing replicated bytes into components makes gathering give them back, and leaves other components alone |
| Net.AddEntities | src/net.c:451-504 | The packet has every entity of the current snapshot, each with a mark and, if it differs from the front of what is left of the acknowledged snapshot, with data |
| Net.WithoutData | src/net.c:480-498 | An entity comes without data if and only if the acknowledged snapshot has it with the same bytes and all entities in front of it there are still there in the same order; behind one that was dropped everything is sent again |
| Net.Connection.ReadEntities | src/net.c:525-595 | Applied to such a packet in any state of the receiver: the live entities are those of the current snapshot with its bytes, if and only if no other live entity was marked in this frame before, none of the snapshot's was removed in it, and those without data have it |
| Net.Exchange | src/net.c:451-595 | Both sides together, whatever was added or dropped in between, with the same condition |
| NetRun.TwoInAFrame | src/net.c:597-623 | Two packets in one frame: a live entity not marked before that only the second has is lost, and one that only the first has stays; in both cases the second is not reproduced |
| NetRun.ReproducibleWhen | src/net.c:480-498 | Between frames a packet is read well if and only if every entity without data is one that the receiver has with these bytes, whatever snapshot it applied last |
| NetRun.AckedHolds | src/net.c:459-465 | So it is when the acknowledged snapshot is the one applied last, or none is used |
| NetRun.StaysBehind | src/net.c:480-498 | An entity that comes without data, of which the receiver holds another value, is not reproduced |
| NetRun.ValueWentBack | src/net.c:451-595 | So after a value went back: the sender is at the acknowledged snapshot again, and the receiver keeps what it applied in between |
| NetRun.Session | src/net.c:415-623 | A connection from its start, one packet a frame and any of them lost, each made against the snapshot applied last or none: after every frame the receiver mirrors the snapshot it got |
| NetRun.LaggingSession | src/net.c:415-623 | The same with packets made against any earlier snapshots: while packets suit the receiver it mirrors every snapshot, and after the next packet it does so if and only if that one suits it too |
| NetSnapshot.EntriesShown | src/net.c:525-595 | A receiver that reproduces a snapshot has live copies of exactly the entities that were taken, component by component |
| NetSnapshot.ShowWorlds | src/net.c:415-623 | From the sender's components to the receiver's, over any number of frames: after each the receiver's live entities are those that the last snapshot took, with equal types, sequence numbers and replicated components, and no others |
| Ecs.System.Update | src/ecs.c:213-226 | The new state of every slot; what that means for references, the rows below say |
| Ecs.System.Add | src/ecs.c:252-266 | The first unused slot becomes pending with a new sequence number |
| Ecs.System.Remove | src/ecs.c:268-278 | A valid reference's slot is marked for removal |
| Ecs.System.IsEntityRefValid | src/ecs.c:280-285 | Whether the slot has the reference's sequence number and is used, pending additions only if they are allowed |
| Ecs.System.QueryNext | src/ecs.c:309-320 | The next slot that matches, and no matching one is skipped |
| Ecs.System.QueryLoop | src/ecs.c:297-320 | Over an unchanged system a query visits exactly the live slots whose mask contains its own, once each, in order |
| Ecs.AddTakes | src/ecs.c:252-266 | An addition fails exactly if every slot is used, and else takes the first unused one; the new reference is valid as pending only, no query visits its slot, and every other reference is valid exactly if it was |
| Ecs.RemoveWaits | src/ecs.c:268-278 | A removal makes no reference invalid yet |
| Ecs.UpdateSettles | src/ecs.c:213-226 | After an update exactly those references are valid that were, pending additions included, and whose entity was not removed |
| Ecs.AddThenUpdate | src/ecs.c:213-266 | Added and then updated, an entity is valid without pending, and queries visit its slot exactly for the masks that its own contains |
| Ecs.RemoveThenUpdate | src/ecs.c:213-278 | Removed and then updated, its reference is dead, its slot is unused, and the next addition finds a slot, this one at the latest |
| Ecs.Lifetime | src/ecs.c:213-320 | Over any run from its addition a reference is valid until the first update behind a call that removes it, without pending from the first update or that call on, and meanwhile queries visit its slot exactly from then on and for the masks that its own contains |
| Ecs.ValidOrDead | src/ecs.c:280-285 | Over every run, a reference that was valid is valid or dead, and the dead stay dead |
| Ecs.NeverValidAgain | src/ecs.c:280-285 | A reference that became invalid never becomes valid again |
| Ecs.AddedApart | src/ecs.c:252-285 | Two references from different additions never share a slot while both are valid |

## Left out

- LZ4 compression with external dictionaries and dictionary contexts, partial decoding, `fillOutput` (destSize) mode, 32-bit `byPtr` tables and big-endian branches: the block compressors are those for one contiguous input. The decoder without checks is without an external dictionary.
- HC with an external dictionary; the second dictionary segment that the HC stream keeps for linked blocks. The frame compressor's stream is that of `LZ4_compress_fast_continue`.
- In the frame layer the block codec is a function of a block and the window before it; the decoder's output range is one block, as DecodeAsCodec has it.
- `LZ4F_getFrameInfo`, `LZ4F_decompress_usingDict`, dictionaries for compression, and what the decoder does on malformed frames.
- The frame layer's checksum states are the bytes fed to them; `XxHash32` shows that this is what a digest depends on.
- `LZ4F_uncompressedUpdate` and the change between compressed and uncompressed blocks.
- Failing allocations of the frame layer; buffers of the caller that touch the frame layer's own without a byte in between; the 5 MB that `LZ4F_compressFrame` pretends to have.
- FrameDecoder.Decoder.Decompress: is about well-formed frames.
- Tlsf.Allocator.Realloc: the adjusted request must not be zero unless the size is.
- Tlsf.Allocator.Memalign: alignments of 2^63 are not served, see GapRequest.
- Tlsf.Allocator.AddPool: pools of exactly block_size_max bytes are excluded, see TooLargeAPool; what is written beyond the table of lists is not modelled.
- Heap.GameHeap.Grow: requests that lead to such a pool, those of GrowTooLarge, are excluded.
- Heap.GameHeap.Alloc: so they are here, but only if memory for a new arena is offered; alignments of 2^63 as for Memalign; the mutex is not modelled, and neither is that the path without memory leaves it locked.
- Tlsf.Allocator.Store: stands for the owner of a block, who writes only inside it.
- Net.Connection.ReadEntities: there must be room for the new entities, an entity keeps its type, and acknowledged snapshots are those with a non-negative sequence number; limits of packet sizes, timeouts and sockets are not modelled.
- NetRun.Session: nobody else changes the mirrored components or removes the mirrored entities.
- FileCodec.Work.FileDecompress: reads containers that a writer made; damaged files are not modelled, and the file handles are not either. Where the stored size is negative, or is once the zero is counted, the heap is asked for almost 2^64 bytes, and the model stops.
- Memory that is a sequence rather than an array: that of the allocator, of the frame decoder and of the frame compressor is a field that each write replaces, so that aliasing of two buffers is a matter of addresses.
- Addresses do not wrap around at 2^64; the queue's tickets and the entities' sequence numbers are unbounded.
- Hardware bit-scan variants other than the generic one, alignment branches of xxHash, user callbacks of walkers and of entity types.
- Loading and saving of games, rendering, windows, timers, threads and Vulkan.
- Compression ratio other than that of runs of one byte, speed and prices; of hash quality only what `XxDistinct32` and `XxDistinct64` say.
