# Boot image tools: a Dafny model

This project models the algorithms of the boot image tools and proves them
correct: the LZ4 library they compress with, the frame format around it, the
XXH hashes, the DER writer and reader, sparse files, and the layout of the boot
image itself. `dafny verify dfyconfig.toml` checks everything.

Everything about LZ4 blocks is stated against one small specification, the
byte-at-a-time meaning of a block (`BlockFormat.Meaning`), which follows the LZ4
Block Format Description, "Compressed block format" and "End of block
restrictions". Frames are stated against a reader of whole inputs
(`FrameFormat.ReadFrame`), which follows the LZ4 Frame Format Description
v1.6.1, "Frame Descriptor", "Data Blocks" and "Skippable Frames". DER follows
ITU-T X.690, sections 8.1.3, 8.3, 8.6, 10.1 and 11.2.2.

| file | what it models |
|---|---|
| Sizes, BlockFormat | word sizes; the meaning of a block, and how the bytes of a sequence read |
| Memory, BlockDecoder | over-copying, the overlap tables, and LZ4_decompress_generic with both of its loops |
| Matching, HashChain, MatchFinder | comparing, the HC index tables, and the search for longer matches |
| Encoding, HcOptimal, HcLazy, HcCompressor | writing sequences, the dynamic-programming parser, the lazy three-match parser, and their entry points |
| FastCompressor, FastStream | the fast hash-table compressor with all output directives, and the stream state shared by many calls |
| XxHash, XxValues | XXH32 and XXH64, one-shot and streaming; known values, and what single words do |
| FrameFormat, FrameHistory, FrameDecoder | the frame format, the history kept for linked blocks, and the resumable decoder |
| FrameEncoder, FrameBytes, FrameCodec | the buffering encoder with its bounds, frames byte by byte, and what ties frames to blocks |
| SparseFile, DictFile | sparse writing, and the ring buffer a dictionary is read through |
| Der | DER lengths, ints and bit strings, written backwards and read forwards |
| BootImage | the firmware and part loops of bootmk |

## Main results

* **Round trips.** Whatever the fast, the lazy or the optimal compressor writes,
  in any of the output directives, decodes to exactly the input it consumed; and
  with a capacity of n + n/255 + 16 each of them succeeds. The hash function and
  the number of search attempts are arbitrary. The fast and the streaming
  interface keep this over any sequence of calls on one state.
* **Repetitions are found.** The HC search is complete: no match with the newest
  earlier position of the same hash is longer than its answer, and without
  heuristics none with any position it had attempts for. Its heuristics lose
  nothing: neither changing to a better chain nor jumping inside runs of one byte
  passes over a longer match, so that with attempts enough a search forward finds
  the longest there is (at level 12, without favorDecSpeed, everywhere in the
  first 16 KB). The fast search stops at the first position it tries where its
  table offers a match. The optimal parser ends with a table in which every
  position has been visited and its match taken into account, and writes exactly
  the parse that this table holds. A run of n equal bytes takes at most
  n/255 + 16 bytes in the fast interface, and at every level of the HC interface
  without favorDecSpeed.
* **Decoder.** LZ4_decompress_generic, for every block, history and capacity,
  accepts legal blocks with exactly their meaning, and writes nowhere else. The
  code sums length bytes in 32 bits, so whatever else it accepts, short of zero
  offsets, is the meaning of the block if and only if no length field adds up to
  2^32 (`BlockDecoder.DecompressSafe`). A block of 16843020 bytes that is
  accepted for something it does not mean is given; up to 16843013 bytes the two
  ways of reading agree on everything, and with one byte more they do not.
* **Frames.** For every state of the decoding machine there is an outlook: what
  the rest of the input is going to amount to. No step ever changes it. So for
  any cut of the input into chunks and any output windows, independent or linked
  blocks, repeated calls consume exactly the frame, emit exactly its content and
  answer 0 at its end; and what is no frame is never taken for one. For linked
  blocks the dictionary always has the same last 64 KB as all content so far. A
  context may be reset at any time; exactly when that spoils the next frame is
  `FrameDecoder.DecodeAfterReset`. On the other side, blocks written and bytes
  buffered are always all input, the bounds the library announces are enough,
  and what the encoder finds in memory as its dictionary is always an end of the
  content, whatever the caller does with memory he did not promise to keep; its
  blocks are what the compression function makes of them. Both sides are tied to
  bytes: `FrameBytes` gives whole frames as they stand in a file, and exactly
  when they are read.
* **Hashes, files, DER, boot image.** Streaming hashes equal one-shot hashes for
  any cut, with known values, and no word of a stripe is ever lost; sparse writing equals plain writing if and only if a count of pending
  zeros stays below 2^32, for which 1 GB is the exact limit on buffers; DER
  values come back unchanged from their shortest encodings; and every entry of
  the boot image's table names the region that holds exactly its payload. (In
  that table, bootmk.c takes away the fixed entry before that of a missing part:
  without bl30 the one of bl2's header is gone.)

Pointers are indices into arrays, and everything decoded or written so far is
kept as ghost sequences. Machine words are written out where they can wrap:
32-bit length sums, 32-bit table indices and their subtraction, 16-bit chain
links, 32-bit skip counts, 64-bit content sizes. The configuration is the 64-bit
little-endian one. Many proofs begin with `hide` statements: they only keep the
definitions that are not needed out of the solver's way.

Where two interfaces meet, one side is a parameter. A hash function is any
function. For frames, the block decoder and the checksum are a `Codec`, with the
properties stated in `FrameDecoder.Sound` and `FrameEncoder.LooksBack`;
`FrameCodec.LegalIsSound` proves them of the specification the block decoder meets, and
`FrameCodec.BlockIsEncoding` says the same of what the encoders write. The
checksum state of a frame is the sequence of bytes hashed so far, which is what
`XxHash32.State` holds. bootmk's SHA-256 and the byte layout of its header are
any functions.

## Model

| member | source | states |
|---|---|---|
| BlockFormat.SequenceAt | lz4/doc/lz4_Block_format.md:28-107 | A sequence read at any place stays inside the block; a final one ends it, another one has an offset of two bytes and a match of at least 4 |
| BlockFormat.ReadField | lz4/lib/lz4.c:970-977 | A token field and its length bytes, as an encoder writes them, are read back as the same number |
| BlockFormat.ReadSequence | lz4/lib/lz4hc.c:462-530 | The bytes of a sequence, found anywhere in a block, are read back as exactly these literals, this offset and this match length |
| BlockFormat.ReadFinal | lz4/doc/lz4_Block_format.md:109-138 | The bytes of the last literals, at the end of a block, are read back as a final sequence with these literals and no match length |
| BlockFormat.CopyMatchShape | lz4/doc/lz4_Block_format.md:62-107 | A match copied byte by byte keeps what was there and repeats with period `offset`, also where it reads its own output |
| BlockFormat.CopyMatchUnique | lz4/doc/lz4_Block_format.md:62-107 | Whatever extends an output so that it repeats with period `offset` is that byte-by-byte copy: the criterion for every fast copy |
| BlockFormat.CopyMatchInData | lz4/lib/lz4.c:536-559 | If the input repeats with period `offset` over a stretch, decoding that match continues the input exactly |
| BlockFormat.MeaningSequence | lz4/doc/lz4_Block_format.md:28-107 | Decoding over one written sequence amounts to appending its literals and copying its match |
| BlockFormat.ProducesMore | lz4/lib/lz4hc.c:462-530 | Appending one more sequence to a partial block extends what it decodes to by that sequence, whatever comes later, and records how much output must still follow |
| BlockFormat.ProducesBlock | lz4/doc/lz4_Block_format.md:109-138 | Closing a partial block with literals makes a block that decodes to everything so far and those literals, and that meets the end-of-block restrictions if enough output follows |
| BlockFormat.SequenceInNumbers | lz4/doc/lz4_Block_format.md:28-107 | The bytes of a sequence in numbers: 16 times the literal length up to 15 and the match length less 4 up to 15, each rest in bytes of 255 and one smaller, the literals, and the offset with its low byte first |
| BlockFormat.FinalInNumbers | lz4/doc/lz4_Block_format.md:109-138 | The same for the last literals |
| BlockFormat.OneMatchBlock | lz4/doc/lz4_Block_format.md:109-138 | A block of one match means its literals, each byte of the match equal to the one `offset` before it, and the last literals; and it meets the end-of-block restrictions if and only if these are at least 5 and the match starts at least 12 bytes before the end |
| Memory.WildCopy8From | lz4/lib/lz4.c:357-366 | Copying from the block in steps of 8 delivers the wanted bytes and writes at most 7 bytes (8 for an empty copy) beyond |
| Memory.WildCopy32From | lz4/lib/lz4.c:408-419 | The same in steps of 32 |
| Memory.WildCopy8Within | lz4/lib/lz4.c:357-366 | An over-copy in steps of 8 inside the output, 8 or more apart, continues the period exactly; only the stated slack beyond is touched |
| Memory.WildCopy32Within | lz4/lib/lz4.c:408-419 | The same in steps of 32, 16 or more apart |
| Memory.WideDistanceIsMultiple | lz4/lib/lz4.c:368-369 | What `inc32table` and `dec64table` add up to is a multiple of the offset and at least 8 |
| Memory.FirstFour | lz4/lib/lz4.c:2025-2032 | The first four bytes of an overlapping match, one at a time, continue the period for every offset |
| Memory.FirstEight | lz4/lib/lz4.c:385-406 | The first eight bytes through the two tables equal the byte-by-byte copy for every offset, and leave a distance that is safe for 8-byte copies |
| Memory.EightThenRest | lz4/lib/lz4.c:385-406 | After them, a copy at the widened distance still continues the original period |
| Memory.PatternOf | lz4/lib/lz4.c:432-445 | For offsets 1, 2 and 4 the eight-byte pattern repeats the last bytes of the output |
| Memory.WordsRepeat | lz4/lib/lz4.c:450-455 | Storing that pattern again and again continues the period |
| Memory.CopyUsingOffset | lz4/lib/lz4.c:424-456 | For every offset the copy equals the byte-by-byte one, and at most 12 bytes beyond the end are touched |
| BlockDecoder.ReadVariableLength | lz4/lib/lz4.c:1625-1645 | The length is the sum of the bytes modulo 2^32; it is the format's length if no bound was hit, and at a bound it is known how far the reading got |
| BlockDecoder.LiteralLength | lz4/lib/lz4.c:1722-1728 | The literal length is the one the format gives (summed in 32 bits); it is refused only where the sequence is broken |
| BlockDecoder.MatchLength | lz4/lib/lz4.c:1764-1773 | The same for match lengths, with the 4 that are implied; refused only in a block that is not legal |
| BlockDecoder.MatchDone | lz4/lib/lz4.c:1828-1838 | Once the output repeats with the offset over the match, the decoder stands at the next sequence with the right output |
| BlockDecoder.FastLiterals | lz4/lib/lz4.c:1718-1757 | The fast loop's over-copy of literals keeps the state exact, or hands over to the safe code in a state it can go on from |
| BlockDecoder.FastMatch | lz4/lib/lz4.c:1759-1795 | The fast loop's match, with its 18-byte path for short non-overlapping matches, keeps the state exact or hands over |
| BlockDecoder.FastCopy | lz4/lib/lz4.c:1828-1838 | Its general match copy continues the period for every offset |
| BlockDecoder.FastLoop | lz4/lib/lz4.c:1712-1839 | The fast loop ends in a correct state of the safe decoder or in an error that is justified; nothing outside the output is written |
| BlockDecoder.Shortcut | lz4/lib/lz4.c:1850-1889 | The two-stage shortcut decodes what the full path would, or leaves off before the match with everything read |
| BlockDecoder.SafeLiterals | lz4/lib/lz4.c:1900-1956 | Literals are copied exactly; the last sequence is recognised if and only if it is the last |
| BlockDecoder.MustBeLast | lz4/lib/lz4.c:1934-1942 | Within the last 12 output or 8 input bytes, a block whose literals do not end it, inside the output, is not legal |
| BlockDecoder.NotLast | lz4/lib/lz4.c:1934-1942 | Where a legal block has an offset next, at least 12 bytes of output and 8 of input remain |
| BlockDecoder.SafeCopy | lz4/lib/lz4.c:1965-2055 | The match copy of the safe loop is exact for every offset and close to the end of the buffer |
| BlockDecoder.SafeLoop | lz4/lib/lz4.c:1843-2055 | The safe loop ends with the whole block decoded or in a justified error, and writes only to the output |
| BlockDecoder.DecompressGeneric | lz4/lib/lz4.c:1653-2068 | For every block, history and capacity: a legal block is accepted with exactly its byte-by-byte meaning, whatever is accepted and has no zero offset decodes to its meaning (lengths summed in 32 bits, as the code does), and no byte outside the output changes |
| BlockDecoder.FieldNoWrap | lz4/lib/lz4.c:1625-1645 | A length field is read the same with 32-bit sums and without if and only if its length bytes add up to less than 2^32 |
| BlockDecoder.MeaningFits | lz4/lib/lz4.c:1625-1645 | If no length field on the way has such a sum, the block has the same meaning with 32-bit sums and without |
| BlockDecoder.SumsFitOf | lz4/lib/lz4.c:1625-1645 | A block that decodes to less than 4 GB in the format has no such sum |
| BlockDecoder.SequenceShort | lz4/lib/lz4.c:1625-1645 | In a block of at most 16843013 bytes a sequence is read alike both ways, but for the length of a match after which nothing follows |
| BlockDecoder.MeaningShort | lz4/lib/lz4.c:1625-1645 | Every block of at most 16843013 bytes, behind any history, has the same meaning with 32-bit sums and without |
| BlockDecoder.SizeIsExact | lz4/lib/lz4.c:1625-1645 | One byte more, and there is a block that, behind one byte of history, means more than 4 GB but is read as 20 bytes |
| BlockDecoder.SumsMatter | lz4/lib/lz4.c:1625-1645 | A block that decodes with 32-bit sums decodes to the same without if and only if all its length sums fit: nothing but the length bytes has to be looked at |
| BlockDecoder.LegalFits | lz4/lib/lz4.c:1625-1645 | Every legal block, of any size, is legal and means the same with 32-bit sums |
| BlockDecoder.LengthSumWraps | lz4/lib/lz4.c:1625-1645 | A block of 16843020 bytes whose sums do not fit, which is legal with 32-bit sums, means something else |
| BlockDecoder.AcceptsWrappingBlock | lz4/lib/lz4.c:2073-2079 | That block is accepted, as 25 bytes that it does not mean |
| BlockDecoder.DecompressSafe | lz4/lib/lz4.c:2073-2079 | Legal blocks decode to their meaning; what is accepted is the meaning of the block if and only if the length sums fit and no zero offset is met; writes stay in the output |
| BlockDecoder.OneMatchLegal | lz4/doc/lz4_Block_format.md:109-138 | Such a block, with a capacity of just its content, is legal if and only if at least 5 literals follow the match, and match and literals are at least 12 bytes together |
| BlockDecoder.DecodeOneMatch | lz4/lib/lz4.c:2073-2079 | Each of these is decoded, on a buffer of just its size, to exactly that content |
| BlockDecoder.DecodeBack | lz4/lib/lz4.c:2073-2079 | A block that encodes the first n bytes of an input gives exactly these bytes back |
| Matching.Count | lz4/lib/lz4.c:536-559 | The result is exactly the length of the longest common stretch up to the limit |
| Matching.FirstDifference | lz4/lib/lz4.c:463-530 | The first differing byte of two different words is where the bit count says |
| Matching.CountBack | lz4/lib/lz4hc.c:137-152 | The result is exactly how far both regions agree backwards inside their bounds |
| Matching.CountPattern | lz4/lib/lz4hc.c:169-199 | The result is exactly how far a four-byte pattern continues |
| Matching.ReverseCountPattern | lz4/lib/lz4hc.c:201-219 | The result is exactly for how many bytes, within the bound, the pattern precedes the position |
| HashChain.Context.InitStream | lz4/lib/lz4hc.c:966-988 | Any state becomes a valid clean one whose tables will be cleared |
| HashChain.Context.ResetFast | lz4/lib/lz4hc.c:998-1010 | A reused context is clean and valid again: a dirty one will have its tables cleared, a clean one keeps its tables and its index |
| HashChain.Context.InitInternal | lz4/lib/lz4hc.c:99-113 | A new session starts with an empty history 64 KB past the last index used; past 1 GB it clears the tables and restarts at 64 KB, and otherwise the tables stay |
| HashChain.Context.ClearTables | lz4/lib/lz4hc.c:93-97 | All heads are 0 and all links are the longest possible |
| HashChain.NewLink | lz4/lib/lz4hc.c:125-132 | The distance stored for a position leads to the latest earlier position with the same hash, or out of the window |
| HashChain.Context.NoAlias | lz4/lib/lz4hc.c:125-132 | Two positions within one window never share a slot of the 16-bit chain index |
| HashChain.Context.InsertOne | lz4/lib/lz4hc.c:125-132 | One insertion keeps every head and every link in the window exact |
| HashChain.Context.Insert | lz4/lib/lz4hc.c:115-135 | All positions before `ip` are inserted, and heads and links stay exact |
| HashChain.Context.DataGrows | lz4/lib/lz4hc.c:115-135 | Exactness is kept when more input becomes visible |
| HashChain.WalkFromPosition | lz4/lib/lz4hc.c:407-408 | Following the links from a position visits exactly the earlier positions in the window with the same hash |
| HashChain.Context.ChainIsExact | lz4/lib/lz4hc.c:256-273 | From the head on, the chain visits exactly the earlier positions in the window with the same hash, newest first |
| MatchFinder.TryCandidate | lz4/lib/lz4hc.c:279-293 | A candidate replaces the best match only by a longer one that is byte-equal, close enough and inside the limits; and afterwards no match with it, however widened, is longer than the best |
| MatchFinder.QuickTests | lz4/lib/lz4hc.c:282-284 | The two quick tests fail only for candidates whose match, however widened, is no longer than the best one |
| MatchFinder.CountedAll | lz4/lib/lz4hc.c:285-287 | What was counted in both directions is the longest match with this candidate within the limits |
| MatchFinder.LinkLosesNothing | lz4/lib/lz4hc.c:407-408 | Following the chain of the word some bytes behind a candidate passes over no match that reaches those bytes |
| MatchFinder.SwapAhead | lz4/lib/lz4hc.c:312-336 | So changing to the chain of any position of the best match, as far as longer ones must reach, loses no longer match |
| MatchFinder.BestChain | lz4/lib/lz4hc.c:312-336 | The chain-swap step is the furthest jump among the first 17 positions of the match at least, or further, and chainPos is a position that has it; 1 and the old position if there is none |
| MatchFinder.RunsMatch | lz4/lib/lz4hc.c:372-404 | Two runs of the same byte match each other over their common length, without being compared |
| MatchFinder.TestRepeat | lz4/lib/lz4hc.c:337-349 | The source is found to be a run of one byte, of the length recorded, or not |
| MatchFinder.MeasureRun | lz4/lib/lz4hc.c:350-369 | The run around a candidate is measured in both directions, exactly up to the limit forwards, and never below the lowest index |
| MatchFinder.RunJumpAhead | lz4/lib/lz4hc.c:370-379 | If the run around a candidate is long enough, all matches with later positions of it are shorter than the one with the position from which it ends together with the run of the source |
| MatchFinder.RunIsWorth | lz4/lib/lz4hc.c:380-398 | If it is shorter, or goes on further, no match with any of its positions is longer than the lengths of the two runs say |
| MatchFinder.RunSkipAhead | lz4/lib/lz4hc.c:380-403 | So taking that length and going on behind the run loses no longer match |
| MatchFinder.UseRun | lz4/lib/lz4hc.c:370-404 | Jumping inside runs, and taking a match length from the lengths of runs alone, keeps the best match correct; searching forward it does exactly one of these two |
| MatchFinder.PatternStep | lz4/lib/lz4hc.c:337-405 | The whole repeated-byte analysis keeps the best match correct, moves to earlier indices and, searching forward, loses no longer match |
| MatchFinder.NextCandidate | lz4/lib/lz4hc.c:312-408 | Every way to the next candidate keeps the best match correct and never makes it shorter; searching forward none of them passes over a longer match; without heuristics it is exactly the next link; index subtraction never underflows |
| MatchFinder.Turn | lz4/lib/lz4hc.c:273-408 | One turn: no match with the candidate is longer than the best one afterwards, and, searching forward, all longer matches are with the positions still to come |
| MatchFinder.SearchChain | lz4/lib/lz4hc.c:273-410 | After the whole search, a longer length than asked for covers the current position, is byte-equal, 1 to 65535 away and within the limits; no match with the head of the chain is longer, nor, without heuristics, with any of the first `maxNbAttempts` of the chain; a search forward with attempts enough ends with the longest there is |
| MatchFinder.InsertAndGetWiderMatch | lz4/lib/lz4hc.c:235-442 | The same for the complete function, stated over the input: no match with the newest earlier position of the same hash is longer, whatever heuristics are on; without them none with any of the newest `maxNbAttempts` of the window, and if there are no more than that, no match at all; and with pattern analysis and chain swap on, a search forward with an attempt for each earlier position of the window finds the longest match there is |
| MatchFinder.TablesSay | lz4/lib/lz4hc.c:256-273 | The head and the chain in the tables are the newest and all earlier positions of the window with the hash of the current one |
| MatchFinder.NoneAtAll | lz4/lib/lz4hc.c:235-442 | Every match of a position, of any length, is with one of these: a search that has compared all of them has found the longest there is |
| MatchFinder.RunIsFound | lz4/lib/lz4hc.c:235-442 | In a run of one byte, a search forward finds nothing at the first byte, and everything that is left at any other |
| Encoding.PutLength | lz4/lib/lz4.c:970-977 | The written length bytes are those of the format |
| Encoding.PutLengthByPairs | lz4/lib/lz4hc.c:515-521 | Two at a time they are the same |
| Encoding.PutLengthByWords | lz4/lib/lz4.c:1061-1071 | Four at a time, over-written and corrected, they are the same |
| Encoding.SequenceBudget | lz4/lib/lz4.c:959-1074 | 255 times the bytes written never exceeds 256 times the bytes consumed: every sequence keeps it, and it makes n + n/255 + 16 the worst case |
| Encoding.EncodeSequence | lz4/lib/lz4hc.c:459-530 | The bytes appended are exactly the sequence; on overflow the output before is intact, and the capacity was below the worst case and below what the two checks ask for |
| Encoding.EncodedMore | lz4/lib/lz4hc.c:459-530 | A block prefix that encodes the input up to the anchor still does so, up to the end of the match, after one more usable match |
| Encoding.EmitMatch | lz4/lib/lz4hc.c:459-530 | Both together: writing a usable match moves the anchor, keeps the budget and takes exactly the size of the sequence |
| Encoding.BlockDone | lz4/lib/lz4.c:1142-1168 | Closing with the last literals makes a block that decodes to the input up to its end, and meets the end rules |
| Encoding.LastLiterals | lz4/lib/lz4.c:1142-1168 | For all three output directives: the block is complete and within the capacity; limitedOutput fails only when the literals do not fit, below the worst-case bound; fillOutput takes as many as fit, and leaves at most 1 + capacity/65025 bytes |
| Encoding.FittingFills | lz4/lib/lz4.c:1146-1151 | Reckoning the length bytes for more literals than then fit costs that much and no more |
| Encoding.BlockEncodes | lz4/lib/lz4.c:1142-1168 | Such a block encodes the input for the decoder |
| HcOptimal.FindLongerMatch | lz4/lib/lz4hc.c:1256-1275 | A match that is found is usable at the position: equal bytes, distance, end-of-block distances; and none with the newest earlier position of the same hash is longer, but for lengths cut to 18 |
| HcOptimal.SetFirst | lz4/lib/lz4hc.c:1328-1362 | The first prices describe steps of a valid parse: literals at their own price, and the first match in every length behind the literals before it |
| HcOptimal.SetLiterals | lz4/lib/lz4hc.c:1398-1413 | Exactly where literals after the position are cheaper they take the place of what was there; nothing else changes |
| HcOptimal.SetMatches | lz4/lib/lz4hc.c:1415-1449 | Exactly where a length of the match is not dearer, or new, it takes the place of what was there; the table stays one of valid steps, and its end moves exactly with the full length |
| HcOptimal.SettledStays | lz4/lib/lz4hc.c:1364-1464 | A match that has been taken into account stays so: later turns change no entry up to it and raise no price |
| HcOptimal.UpdatesSettle | lz4/lib/lz4hc.c:1398-1459 | The three updates of a turn take the match found into account: no position it reaches is dearer than with it, or with up to three literals |
| HcOptimal.TakeMatch | lz4/lib/lz4hc.c:1398-1459 | The three updates together: entries up to the position stay, no price up to the end rises, and the match is taken into account |
| HcOptimal.Visit | lz4/lib/lz4hc.c:1364-1460 | One turn: the next position is not dearer, or a search was made and either found nothing longer than asked for, or was long enough to end the parse, or has been taken into account; no price up to the end rises |
| HcOptimal.Explore | lz4/lib/lz4hc.c:1364-1470 | Whatever the prices are, the table always describes valid steps, and the choice made ends a valid parse: a match that is long enough, or the entry of a complete table, in which every position before the end has been visited; no price exceeds that of the first match |
| HcOptimal.RunStays | lz4/lib/lz4hc.c:1364-1460 | In a run of one byte, whatever is found, the table keeps the prices of the first match, which is only replaced by the one that starts a byte later where that costs the same |
| HcOptimal.ParseFollows | lz4/lib/lz4hc.c:1466-1485 | The chain of entries that leads to the choice is a parse: valid steps, each starting where the one before ends, from 0 to the end |
| HcOptimal.ReverseTraversal | lz4/lib/lz4hc.c:1466-1485 | The in-place reverse traversal leaves exactly the steps of this parse at the positions where they start |
| HcOptimal.EncodeParse | lz4/lib/lz4hc.c:1486-1498 | Writing them consumes exactly the parsed input, with exactly the sequences of the parse, literals waiting for the next match; or some match does not fit |
| HcOptimal.EncodeBest | lz4/lib/lz4hc.c:1328-1498 | All together: the sequences written are those of the parse chosen from a complete table that is nowhere dearer than the first match |
| HcOptimal.CompressOptimal | lz4/lib/lz4hc.c:1278-1538 | For every input, budget and search setting: the output decodes to the input consumed (all of it unless fillOutput, which fills the capacity), obeys the end rules and the capacity, fails only below the worst-case bound, and the parser terminates; a run of n equal bytes takes at most n/255 + 16 |
| HcLazy.StepMain | lz4/lib/lz4hc.c:571-577 | A first match that no other with the candidates searched exceeds; or one position forward, and then there is none of 4 bytes |
| HcLazy.AfterSearch2 | lz4/lib/lz4hc.c:587-604 | Whichever way the second match goes, the three matches held keep their order and lengths |
| HcLazy.StepSearch2 | lz4/lib/lz4hc.c:578-604 | From `_Search2` on: the first match is written in full, and the search near its end found no longer one; or nothing is written and a longer one is held, which starts no earlier |
| HcLazy.FitOk | lz4/lib/lz4hc.c:606-621 | Shortening the first match in favour of the second keeps both usable |
| HcLazy.WriteBoth | lz4/lib/lz4hc.c:632-642 | Both matches are written, the first up to where the second starts |
| HcLazy.DropSecond | lz4/lib/lz4hc.c:644-674 | A second match without room is dropped, and the third takes its place correctly |
| HcLazy.WriteFirst | lz4/lib/lz4hc.c:676-706 | Of three ascending matches the first is written and the others move up |
| HcLazy.StepSearch3 | lz4/lib/lz4hc.c:606-706 | From `_Search3` on: both matches are written, the first up to the second, and the search near the end found no longer one; or a longer one is held, and at most the first has been written, or a first part of it |
| HcLazy.MainLoop | lz4/lib/lz4hc.c:565-708 | Every jump keeps the invariant, and the loop terminates because the reach of the matches grows |
| HcLazy.CompressHashChain | lz4/lib/lz4hc.c:532-746 | For every input, output directive and number of attempts: the output decodes to the input consumed, within the capacity, and fails only below the worst-case bound; fillOutput fills the capacity; a run of n equal bytes takes at most n/255 + 16 |
| HcCompressor.CompressGeneric | lz4/lib/lz4hc.c:758-821 | Both parsers behind one interface: a result encodes the input, and there is one whenever the capacity reaches the bound |
| HcCompressor.CompressFastReset | lz4/lib/lz4hc.c:896-911 | On a state used before in any way, a result still encodes its own source alone; at every level a run of n equal bytes is compressed, into n/255 + 16 bytes at most, with any capacity that has them |
| HcCompressor.CompressDestSize | lz4/lib/lz4hc.c:936-943 | On any state, used or not: at most the target is written, something if the target is at least 1, and it decodes to exactly the input reported as consumed; unless that is all, at most 1 + target/65025 bytes are left of the target |
| HcCompressor.RoundTrip | lz4/lib/lz4hc.c:896-926 | For every level, compressing with enough room and decompressing gives the input back |
| FastCompressor.FindMatch | lz4/lib/lz4.c:892-953 | The search ends exactly at the first of the positions it tries, one apart and then further and further, where the table as it then is offers an earlier position within reach with four equal bytes; the table stays consistent |
| FastCompressor.TryEntry | lz4/lib/lz4.c:938-950 | An entry is used if and only if it passes the index checks and four bytes agree |
| FastCompressor.CatchUp | lz4/lib/lz4.c:955-957 | Backward extension keeps the match and its distance, stays above the anchor and the lowest position, and goes on as far as bytes agree |
| FastCompressor.FindAndPutLiterals | lz4/lib/lz4.c:871-984 | Either a match with its literals is at hand, or only last literals remain; and a lack of room is only reported below the worst-case bound |
| FastCompressor.CountCovers | lz4/lib/lz4.c:1023-1034 | Counting again from the token on covers what catching up had found |
| FastCompressor.ReducedFits | lz4/lib/lz4.c:1035-1042 | The shortened match code leaves exactly the room for the last literals |
| FastCompressor.ClearPositions | lz4/lib/lz4.c:1043-1055 | After rewinding, the table no longer mentions positions at or beyond the new one |
| FastCompressor.MeasureMatch | lz4/lib/lz4.c:1013-1060 | The match length to be written is usable, fits when the output is limited, and is exactly how far the bytes agree unless fillOutput cuts it |
| FastCompressor.EncodeMatch | lz4/lib/lz4.c:996-1078 | The match is written in that length and the anchor moves behind it; or in limitedOutput it does not fit |
| FastCompressor.PutMatch | lz4/lib/lz4.c:986-1078 | A match and its literals are appended exactly |
| FastCompressor.TestNext | lz4/lib/lz4.c:1081-1138 | The position after a match is entered and starts the next sequence, without literals, if and only if the table offers a match there |
| FastCompressor.RunOffers | lz4/lib/lz4.c:861-953 | At the second byte of a run the table offers the first |
| FastCompressor.MainLoop | lz4/lib/lz4.c:865-1140 | The loop keeps all of this and terminates |
| FastCompressor.Compress | lz4/lib/lz4.c:789-1177 | For any hash function, both table types and all output directives: the output decodes to the input consumed, within capacity and bound; 0 is returned only below the bound; fillOutput fills the capacity; the table ends consistent; a run of n equal bytes takes at most n/255 + 16 |
| FastStream.Stream.PrepareTable | lz4/lib/lz4.c:739-785 | A kept table has only entries out of reach of the new input, or the offset gap of 64 KB; otherwise it is cleared |
| FastStream.Stream.CompressGeneric | lz4/lib/lz4.c:789-1177 | The shared state stays sound: every entry is an index handed out before |
| FastStream.Stream.CompressFastReset | lz4/lib/lz4.c:1211-1245 | Over any sequence of calls on one state, also failing ones: each non-zero output decodes alone to its own source, and with the bound as capacity there is one; a run of n equal bytes fits n/255 + 16 |
| FastStream.Stream.ResetStreamFast | lz4/lib/lz4.c:1375-1377 | Afterwards the stream is sound, clean and without dictionary |
| FastStream.RenormedEntries | lz4/lib/lz4.c:1465-1482 | Renormalisation keeps the distance of every entry that can still be used and makes all others unusable |
| FastStream.Stream.RenormDictT | lz4/lib/lz4.c:1465-1482 | It happens exactly when the index would pass 2 GB, and has that effect on the table |
| FastStream.Stream.PrefixEntries | lz4/lib/lz4.c:939-945 | In prefix mode the remaining entries are within what `prefixIdxLimit` and the distance test admit |
| FastStream.Stream.CompressFastContinue | lz4/lib/lz4.c:1485-1525 | A block compressed behind its prefix decodes behind the same prefix to exactly the new input, and the stream can go on, with all of the prefix but what lies 64 KB before the block, and the block |
| FastStream.CompressFast | lz4/lib/lz4.c:1248-1264 | One-shot: a result encodes the whole source, and the bound is always enough; for a run of n equal bytes n/255 + 16 is |
| FastStream.CompressDestSize | lz4/lib/lz4.c:1292-1325 | At most the target is written, for a target of at least 1 always something, and it decodes to exactly the input reported as consumed; unless that is all, at most 1 + target/65025 bytes are left of the target |
| FastStream.RoundTrip | lz4/lib/lz4.c:1248-1264 | Compressing into the bound and decompressing gives the input back, for every hash function |
| FastStream.StreamDecode.DecompressSafeContinue | lz4/lib/lz4.c:2225-2262 | A legal block behind what has been decoded before is decoded to its meaning, directly behind it; any accepted block is, if and only if its length sums fit and no zero offset is met |
| FastStream.StreamRoundTrip | lz4/lib/lz4.c:1485-2262 | Any number of contiguous blocks, cut anywhere: as long as all compress, decoding reproduces the input; with the bound as room all do |
| XxStripes.AbsorbInParts | lz4/lib/xxhash.c:450-512 | Absorbing data in two parts, with the rest of the first put before the second, is absorbing it at once |
| XxHash32.SwitchIsSteps | lz4/lib/xxhash.c:306-345 | Each case of the fall-through switch is the loop of 4-byte steps and then single bytes |
| XxHash32.Finalize | lz4/lib/xxhash.c:290-348 | The switch computes that loop |
| XxHash32.OneShot | lz4/lib/xxhash.c:351-389 | The one-shot function, specified over the whole input |
| XxHash32.State.Update | lz4/lib/xxhash.c:451-512 | The state after an update is that of all data so far: accumulators, partial stripe, length modulo 2^32, sticky flag |
| XxHash32.LengthAdds | lz4/lib/xxhash.c:464-465 | The flag for at least 16 bytes stays right although the length wraps |
| XxHash32.State.Digest | lz4/lib/xxhash.c:526-543 | The digest is the hash of all data so far |
| XxHash32.HashInPieces | lz4/lib/xxhash.c:437-543 | Reset, any updates, digest equals the one-shot hash of the concatenation |
| XxValues32.HashOfNothing | lz4/lib/xxhash.c:351-389 | XXH32 of nothing, with seed 0, is 0x02CC5D05 |
| XxValues32.HashOfAbc | lz4/lib/xxhash.c:290-348 | XXH32 of "abc" is 0x32D153FF |
| XxValues32.HashOfSentence | lz4/lib/xxhash.c:267-389 | XXH32 of 39 bytes that take two stripes, a word and three single bytes is 0xE2293B2F |
| XxValues32.RoundTells | lz4/lib/xxhash.c:267-273 | A round gives different results for any two inputs, and for any two accumulators |
| XxValues32.OneWordMatters | lz4/lib/xxhash.c:364-377 | Inputs of equal length that differ in one word of their stripes, and nowhere else, always leave different accumulators |
| XxHash64.SwitchIsSteps | lz4/lib/xxhash.c:723-803 | The same for the 32 cases of the 64-bit switch: 8-byte, one 4-byte, single-byte steps |
| XxHash64.OneShot | lz4/lib/xxhash.c:810-852 | The one-shot function of 64 bits |
| XxHash64.State.Update | lz4/lib/xxhash.c:911-968 | The 64-bit state after an update is that of all data so far |
| XxHash64.State.Digest | lz4/lib/xxhash.c:981-1003 | Below 2^64 bytes the digest is the hash of all data so far |
| XxHash64.HashInPieces | lz4/lib/xxhash.c:898-1003 | Reset, any updates, digest equals the one-shot hash, below 2^64 bytes |
| XxValues64.HashOfNothing | lz4/lib/xxhash.c:810-852 | XXH64 of nothing, with seed 0, is 0xEF46DB3751D8E999 |
| XxValues64.HashOfAbc | lz4/lib/xxhash.c:701-803 | XXH64 of "abc" is 0x44BC2CF5AD770999 |
| XxValues64.HashOfSentence | lz4/lib/xxhash.c:672-852 | XXH64 of 39 bytes that take a stripe, four bytes and three single ones is 0xFBCEA83C8A378BF1 |
| XxValues64.HashOfWord | lz4/lib/xxhash.c:716-721 | XXH64 of "repetition", which takes eight bytes at once and two single ones, is 0xF1E1CFC19C6D1B97 |
| XxValues64.RoundTells | lz4/lib/xxhash.c:672-678 | A round of 64 bits tells any two inputs apart, and any two accumulators |
| XxValues64.OneWordMatters | lz4/lib/xxhash.c:823-837 | The same for inputs that differ in one 8-byte word of their stripes |
| FrameHistory.RecentOfJoin | lz4/lib/lz4frame.c:1286-1349 | The last 64 KB after appending depend only on the last 64 KB before |
| FrameHistory.HistoryBrought | lz4/lib/lz4frame.c:1316-1328 | With as much history copied in front of a block as computed, the buffer up to the end of the block is as good as all that was decoded |
| FrameHistory.BytesBefore | lz4/lib/lz4frame.c:1319-1323 | Which bytes the copied ones are, seen from the content |
| FrameHistory.MemcpyWithin | lz4/lib/lz4frame.c:1331-1335 | History moves exactly, and nothing else in the buffer; callers must show that source and destination do not overlap |
| FrameHistory.Window.StayInDst | lz4/lib/lz4frame.c:1290-1303 | While output is contiguous, or the caller's buffer shows 64 KB of it, the dictionary lies there and is as good as the content |
| FrameHistory.Window.BringHistory | lz4/lib/lz4frame.c:1316-1328 | Otherwise, while a block is being flushed, history is put in front of it without losing what later blocks need |
| FrameHistory.Window.AppendToTmp | lz4/lib/lz4frame.c:1330-1348 | Output written directly is copied behind the dictionary, shortened first if the buffer is too small |
| FrameHistory.Window.UpdateDirect | lz4/lib/lz4frame.c:1286-1349 | After any direct output, the dictionary has the same last 64 KB as all content |
| FrameHistory.Window.UpdateWithin | lz4/lib/lz4frame.c:1286-1349 | After flushing any part of a block, dictionary and rest of the block together do |
| FrameHistory.Window.Flushed | lz4/lib/lz4frame.c:1690-1700 | Once a block is flushed completely, so does the dictionary alone |
| FrameHistory.Window.MakeRoom | lz4/lib/lz4frame.c:1647-1659 | The block to come is placed behind the history, with room for the largest one |
| FrameHistory.Window.Preserve | lz4/lib/lz4frame.c:1805-1835 | At the end of a call the history moves to the decoder's own buffer, so that the caller may reuse his |
| FrameDecoder.Dctx.DecodeHeader | lz4/lib/lz4frame.c:1109-1196 | Whatever has been gathered of a header, decoding it leaves the outlook over the rest of the input unchanged, or the input is no frame |
| FrameDecoder.NewRoom | lz4/lib/lz4frame.c:1431-1444 | Buffers kept from an earlier frame that are large enough for the output are large enough for the blocks |
| FrameDecoder.Dctx.AtInit | lz4/lib/lz4frame.c:1429-1453 | Buffers are made or kept; the outlook stays |
| FrameDecoder.Dctx.AtStoreFrameHeader | lz4/lib/lz4frame.c:1413-1427 | Gathering header bytes across calls |
| FrameDecoder.Dctx.AtStoreBlockHeader | lz4/lib/lz4frame.c:1455-1480 | Gathering block header bytes across calls |
| FrameDecoder.Dctx.DecodeBlockHeader | lz4/lib/lz4frame.c:1482-1508 | What a block header announces |
| FrameDecoder.DirectStep | lz4/lib/lz4frame.c:1510-1542 | An uncompressed block passed on in any parts is the block |
| FrameDecoder.Dctx.AtCopyDirect | lz4/lib/lz4frame.c:1510-1542 | Passing on an uncompressed block, as much as input and room allow |
| FrameDecoder.Dctx.AtGetBlockChecksum | lz4/lib/lz4frame.c:1544-1573 | Checking it |
| FrameDecoder.CompressedBlock | lz4/lib/lz4frame.c:1575-1616 | A compressed block gathered in any way decodes or is rejected as a whole |
| FrameDecoder.Dctx.Decode | lz4/lib/lz4frame.c:1618-1684 | Decoding with the dictionary at hand is decoding with all content as history |
| FrameDecoder.Dctx.AtStoreCBlock | lz4/lib/lz4frame.c:1585-1684 | Gathering a compressed block across calls, checking and decoding it |
| FrameDecoder.Dctx.DecodeToTmp | lz4/lib/lz4frame.c:1647-1684 | Without room in the caller's buffer the block is decoded behind the history |
| FrameDecoder.Dctx.AtFlushOut | lz4/lib/lz4frame.c:1686-1705 | Flushing as much as there is room for |
| FrameDecoder.Dctx.AtGetSuffix | lz4/lib/lz4frame.c:1707-1722 | Announced content size, and whether a checksum follows |
| FrameDecoder.Dctx.AtStoreSuffix | lz4/lib/lz4frame.c:1724-1754 | Gathering and checking the content checksum |
| FrameDecoder.Dctx.AtStoreSFrameSize | lz4/lib/lz4frame.c:1756-1789 | Gathering the size of a skippable frame |
| FrameDecoder.Dctx.AtSkipSkippable | lz4/lib/lz4frame.c:1791-1801 | Skipping it in any parts |
| FrameDecoder.Dctx.Step | lz4/lib/lz4frame.c:1396-1803 | Every step of the machine keeps the outlook over the whole rest of the input, or ends the frame exactly, or proves the input bad; a step that neither takes nor gives anything leads to a lower stage |
| FrameDecoder.Dctx.SaveHistory | lz4/lib/lz4frame.c:1805-1835 | The end of the call changes neither outlook nor output |
| FrameDecoder.Dctx.Decompress | lz4/lib/lz4frame.c:1371-1840 | One call: it takes all its input or fills all its room unless the frame is over, appends exactly the next content, keeps the outlook, answers 0 only at the end of a frame, and writes nowhere else |
| FrameDecoder.Dctx.AnyBuffer | lz4/lib/lz4frame.c:1805-1835 | Without stableDst, the next call may use any buffer |
| FrameDecoder.Dctx.Starved | lz4/lib/lz4frame.c:1371-1840 | A machine that waits with nothing more to come has seen only the beginning of a frame |
| FrameDecoder.DecodeFrame | lz4/lib/lz4frame.c:1371-1840 | For independent and linked blocks, any input, any cut into chunks and any non-empty windows: repeated calls consume exactly the frame and emit exactly its content; anything that is no frame is rejected; they always come to an end |
| FrameDecoder.Dctx.Reset | lz4/lib/lz4frame.c:1093-1098 | A reset, at any time, leaves a context that can decode, with whatever remained of the content size still held |
| FrameFormat.OwedSpoils | lz4/lib/lz4frame.c:1707-1715 | With anything still held, no blocks come to the end of a frame; what would have is refused |
| FrameFormat.ResetMatters | lz4/lib/lz4frame.c:1093-1190 | A frame is decoded the same if and only if nothing is held, or its header states a content size, or it is skippable; otherwise it is refused |
| FrameBytes.OnlyTheseBegin | lz4/lib/lz4frame.c:1117-1136 | What begins neither with 04 22 4D 18 nor with 50 to 5F, 2A 4D 18 is no frame |
| FrameBytes.SkippableFrame | lz4/lib/lz4frame.c:1117-1129 | A skippable frame in bytes: its size in four bytes, the lowest first, and that many bytes of no concern |
| FrameBytes.DescriptorIsChecked | lz4/lib/lz4frame.c:1139-1174 | A descriptor with another version, a reserved bit or an unknown block size is refused |
| FrameBytes.HeaderBytesAreRead | lz4/lib/lz4frame.c:1139-1196 | Every header in bytes, with the flags 20, 10, 08, 04 and 01, the block size, eight bytes of content size, four of dictionary ID and the second byte of the checksum, is read as exactly that |
| FrameBytes.PlainFrame | lz4/doc/lz4_Frame_format.md:60-110 | A frame of one stored block, byte by byte: for each of the four block sizes it is read, as its data, if and only if these are at most 64 KB, 256 KB, 1 MB or 4 MB |
| FrameBytes.CheckedFrame | lz4/doc/lz4_Frame_format.md:160-300 | The same with content size, block checksum and content checksum: it is read if and only if the size is right, the header byte is right, and both checksums are |
| FrameBytes.TwoBlockFrame | lz4/doc/lz4_Frame_format.md:155-165 | Two compressed blocks, byte by byte: the second is decoded behind the first if the descriptor says 40, and alone if it says 60 |
| FrameDecoder.DecodeAfterReset | lz4/lib/lz4frame.c:1093-1840 | The same for a context reset in any state, also after an error: it decodes the frame as a new context does exactly in these cases, and rejects it in all others |
| FrameEncoder.OptimalBSID | lz4/lib/lz4frame.c:304-317 | The smallest block size that holds the input if the requested one is larger, and otherwise the requested one |
| FrameEncoder.BoundIsSpace | lz4/lib/lz4frame.c:324-349 | The bound is the space of all full blocks, of the rest if it is to be written, and of the end of the frame; its 32-bit block count does not wrap for any input that fits in memory |
| FrameEncoder.OptimalBound | lz4/lib/lz4frame.c:351-401 | The bound for the caller's preferences equals the one for the rewritten ones |
| FrameEncoder.HeaderIsRead | lz4/lib/lz4frame.c:671-701 | A header that is written is read back as exactly the same descriptor |
| FrameEncoder.BlockCarries | lz4/lib/lz4frame.c:739-761 | A block that is written takes the content of a frame exactly one block further, whatever follows; it is what the compression function makes of the data with an end of the content as dictionary, and the data themselves only if that makes nothing |
| FrameEncoder.MadeOn | lz4/lib/lz4frame.c:823-925 | Blocks made like that, followed by others, are again blocks made like that |
| FrameEncoder.SameEncoding | lz4/lib/lz4.c:1485-1545 | A block encoded against the end of the content decodes against all of it |
| FrameEncoder.Cctx.Prepare | lz4/lib/lz4.c:1500-1517 | Dropping a tiny dictionary, or the part of one that the block overwrites, leaves an end of the content; a dictionary the block follows is not touched |
| FrameEncoder.Cctx.Remember | lz4/lib/lz4.c:1519-1555 | The dictionary grows by a block that follows it and is replaced by any other; either way it is, in memory, an end of the content |
| FrameEncoder.Cctx.Compress | lz4/lib/lz4.c:1485-1555 | The block is what the compression function makes of it with what is in memory at the dictionary, unless that is tiny or overwritten; so it is encoded against the content |
| FrameEncoder.Cctx.MakeBlock | lz4/lib/lz4frame.c:739-761 | The block that is written carries the content one block further, with the source and the dictionary read from memory; it never needs more room than header, input and checksum |
| FrameEncoder.Cctx.AllAfter | lz4/lib/lz4.c:1519-1555 | A dictionary with all of the last 64 KB of the content still has them after a block if and only if the block follows it, or has 64 KB itself, or is the first |
| FrameEncoder.Cctx.Forget | lz4/lib/lz4.c:1519-1555 | Two blocks of 4 bytes from different places, and the dictionary is the second alone |
| FrameEncoder.Cctx.LocalSaveDict | lz4/lib/lz4.c:1588-1602 | The last 64 KB of the dictionary are moved, byte for byte, to the start of the buffer, also from inside the buffer |
| FrameEncoder.Cctx.SaveToTmp | lz4/lib/lz4frame.c:893-910 | The saved dictionary lies in front of the place for the next block, which has room; it is not empty if it was not |
| FrameEncoder.Cctx.TmpBlock | lz4/lib/lz4frame.c:852-868 | A block from the buffer stays there as dictionary, right in front of the next place; a dictionary that had all of the last 64 KB keeps having it |
| FrameEncoder.Cctx.KeepInLimits | lz4/lib/lz4frame.c:904-910 | Moving the place back into limits moves the dictionary with it, unchanged |
| FrameEncoder.Cctx.Append | lz4/lib/lz4frame.c:846-858 | Input put behind what is buffered leaves the dictionary as it is |
| FrameEncoder.Cctx.Begin | lz4/lib/lz4frame.c:600-702 | The header is at most 19 bytes; the context starts empty, with a buffer large enough for its preferences |
| FrameEncoder.Cctx.JoinTmp | lz4/lib/lz4frame.c:845-852 | A short input joins what is in the buffer |
| FrameEncoder.Cctx.CompleteTmp | lz4/lib/lz4frame.c:853-869 | Otherwise the block begun in the buffer is completed from the input and written |
| FrameEncoder.Cctx.WriteBlocks | lz4/lib/lz4frame.c:871-891 | All full blocks of the input, and with autoFlush the rest; the dictionary is then in the memory of the caller |
| FrameEncoder.Cctx.MoveTmpIn | lz4/lib/lz4frame.c:893-910 | The dictionary survives unchanged: in front of the new place, or in the memory of the caller if he keeps it |
| FrameEncoder.Cctx.Settle | lz4/lib/lz4frame.c:893-918 | Also after the rest of the input was buffered: the same dictionary, outside what was written and in front of it, and what is buffered is the end of the content |
| FrameEncoder.Cctx.Update | lz4/lib/lz4frame.c:823-925 | The blocks written followed by the buffer are all input so far; less than a block is buffered; no more is written than the bound; it fails only without that capacity. The dictionary is an end of the content wherever it lies, in memory of the caller only by his promise, and it keeps all of the last 64 KB without autoFlush and stableSrc |
| FrameEncoder.Cctx.Flush | lz4/lib/lz4frame.c:936-972 | All content is then in blocks, for at most header, content and checksum, and the dictionary goes on; without a begun frame nothing happens |
| FrameEncoder.BoundOfEnd | lz4/lib/lz4frame.c:324-349 | The bound for no input covers a block of whatever is buffered and the end of the frame |
| FrameEncoder.Cctx.End | lz4/lib/lz4frame.c:984-1018 | The frame is ended with all content; it succeeds with that bound if the announced size is right, and only then; without a begun frame it writes a lone end mark |
| FrameEncoder.Cctx.CompressFrame | lz4/lib/lz4frame.c:373-420 | With the frame bound of the caller's preferences it succeeds, and the output is a frame of exactly the input: 04 22 4D 18, the flags and the block size of the rewritten preferences, blocks made by the compression function, and the end |
| FrameEncoder.Session | lz4/lib/lz4frame.c:600-1018 | Any updates and flushes between begin and end make a frame of exactly what was written, although the caller overwrites every piece of memory he did not promise to keep: it begins 04 22 4D 18 with the flags and the block size asked for, and all its blocks are what the compression function makes of the data |
| FrameBytes.MadeFrameIs | lz4/lib/lz4frame.c:671-701 | Every frame of the encoder is, in bytes, the header of its settings, its blocks, four zeros and the checksum |
| FrameBytes.BlockIs | lz4/lib/lz4frame.c:739-761 | Every block of the encoder is, in bytes, its size with the lowest byte first and the highest bit set if it is stored, its bytes, and their checksum |
| FrameCodec.MeaningBehind | lz4/lib/lz4.c:1653-2068 | What a block means with some history it means with more before it; behind 64 KB, more history changes neither outcome nor output |
| FrameCodec.LegalIsSound | lz4/lib/lz4.c:2307-2320 | The block decoder, as specified, is what the frame layer needs: sizes respected, only the last 64 KB of history matter, and more history does no harm |
| FrameCodec.BlockIsEncoding | lz4/lib/lz4frame.c:764-795 | The blocks this project's encoders write are encodings in the sense of the frame layer |
| FrameCodec.FrameRoundTrip | lz4/lib/lz4frame.c:373-1840 | What any session of updates and flushes wrote is what any sequence of decoding calls returns, and not a byte beyond the frame is taken |
| FrameCodec.ResetExample | lz4/lib/lz4frame.c:1093-1098 | A header that announces 5 bytes, a reset, and then an empty frame without a content size is rejected |
| SparseFile.PutsMore | lz4/programs/lz4io.c:836-876 | Two parts written sparsely one after the other are their concatenation written sparsely |
| SparseFile.ZerosAreCounted | lz4/programs/lz4io.c:840-872 | A buffer of zeros only adds its size to the count, modulo 2^32 |
| SparseFile.GigabytesAreSafe | lz4/programs/lz4io.c:832-843 | The count never wraps over any sequence of buffers of at most 1 GB, and stays at 2 GB at most |
| SparseFile.PendingGrows | lz4/programs/lz4io.c:832-843 | Each buffer of more than 1 GB of zeros leaves more of them pending, until the count wraps |
| SparseFile.OneGigabyteIsExact | lz4/programs/lz4io.c:832-843 | No sequence of buffers of at most a given size makes the count wrap if and only if that size is at most 1 GB |
| SparseFile.PutPiece | lz4/programs/lz4io.c:840-872 | Leading zeros of a segment or of the last bytes become pending and the rest is written |
| SparseFile.WriteSparse | lz4/programs/lz4io.c:839-876 | The whole buffer is put to the file, with the count that its zeros amount to |
| SparseFile.FwriteSparse | lz4/programs/lz4io.c:816-880 | What the file will hold grows by exactly the buffer unless the count of pending zeros wraps |
| SparseFile.FwriteSparseEnd | lz4/programs/lz4io.c:882-891 | Pending zeros at the end give the file its full length |
| SparseFile.WriteAll | lz4/programs/lz4io.c:816-891 | Any sequence of buffers leaves the file that plain writing leaves if and only if the count of pending zeros, which is a function of the buffers, never wraps; each time it does costs 2^32 bytes at least; for buffers of at most 1 GB it never does |
| SparseFile.FourGigabytesLost | lz4/programs/lz4io.c:840-843 | One buffer of 2^32 zeros leaves an empty file |
| DictFile.CreateDict | lz4/programs/lz4io.c:491-547 | The ring buffer yields exactly the last 64 KB of the file, or all of it, whether or not seeking worked |
| Der.Spelling | mbedtls/library/asn1parse.c:163-182 | Any big-endian spelling of a number is its shortest one after zeros |
| Der.LengthIsShortest | mbedtls/library/asn1write.c:43-105 | The length octets written are the shortest a reader accepts for that length, and no others are as short |
| Der.WriteLen | mbedtls/library/asn1write.c:43-105 | It succeeds exactly when there is room, puts exactly these octets before the cursor, and writes nowhere else; above 2^32 - 1 it refuses |
| Der.WriteTag | mbedtls/library/asn1write.c:107-115 | The same for one tag octet |
| Der.WriteTaggedInt | mbedtls/library/asn1write.c:235-262 | For every non-negative int: tag, shortest length, shortest non-negative content, exactly when there is room |
| Der.PackedByte | mbedtls/library/asn1write.c:357-375 | Packed bits agree with the source bytes, with the unused bits cleared |
| Der.WriteBitstring | mbedtls/library/asn1write.c:350-381 | The element holds exactly the bits given, with the unused bits zero, exactly when there is room |
| Der.TrailingZeros | mbedtls/library/asn1write.c:320-345 | Zero bits at the end never change a named bit string |
| Der.WriteNamedBitstring | mbedtls/library/asn1write.c:307-348 | What is written is the bit string without its zeros at the end |
| Der.GetLen | mbedtls/library/asn1parse.c:51-107 | It succeeds exactly when length octets stand at the cursor and enough bytes follow, and returns what they say |
| Der.GetTag | mbedtls/library/asn1parse.c:109-122 | The same with a tag before |
| Der.FitsInt | mbedtls/library/asn1parse.c:170-175 | The two tests on length and top bit are exactly "does not fit an int" |
| Der.GetTaggedInt | mbedtls/library/asn1parse.c:143-185 | It succeeds exactly on a non-negative int that fits, however it is spelt, and consumes exactly the element |
| Der.GetBitstring | mbedtls/library/asn1parse.c:220-248 | It succeeds exactly on a bit string with at most 7 unused bits that ends the input |
| Der.IntRoundTrip | mbedtls/library/asn1write.c:235-262 | A written int is read back, and exactly the written bytes are consumed |
| Der.IntIsShortest | mbedtls/library/asn1write.c:235-262 | No accepted spelling of an int is shorter than the written one, and none other is as short |
| Der.BitstringRoundTrip | mbedtls/library/asn1write.c:350-381 | A bit string is written exactly when there is room, and read back bit for bit, with exactly the written bytes consumed |
| BootImage.RoundsUp | bootmk.c:148-152 | The size of a firmware body is the file from 0x60 on, rounded up to 16 KB, and 0 for files up to 0x60 |
| BootImage.BodyIsFile | bootmk.c:148-159 | The body is that part of the file and zeros; only if up to 0x60 bytes stick out beyond the rounded size are they left out |
| BootImage.AcceptsInBytes | bootmk.c:160-167 | A firmware file that is read whole is accepted if and only if 40 44 46 4D stands at 0x20 and it begins with the digest of all from there on |
| BootImage.FileCopy | lib.c:64-87 | Exactly the bytes asked for are copied if they are there, and otherwise none |
| BootImage.PayloadInBytes | bootmk.c:237-258 | The payload of a part begins at 0x490, or at 0x590 with "BL3X-HDR", 0x100 and 0x12348765 at their places, and 0x290 later for bl30 |
| BootImage.FixedOnePart | bootmk.c:283-290 | A missing part `no` takes away the fixed entry no + 3, the one before its own, and no other |
| BootImage.Maker.AddFirmware | bootmk.c:148-183 | A file is taken exactly if magic and digest are right, and its entry is the next region, with the digest of its body |
| BootImage.Maker.Record | bootmk.c:166-178 | The entry, the digest and the bytes kept for the image agree |
| BootImage.Maker.CollectFirmware | bootmk.c:134-186 | After the first loop the table describes the bodies of exactly the accepted files, in order |
| BootImage.Maker.WriteBl2 | bootmk.c:218-236 | bl2 and the header are followed by exactly the bodies in the table |
| BootImage.Maker.WritePart | bootmk.c:237-291 | Each part, also a missing one, gets the next region, which holds exactly its payload; of the other entries only no + 3 is taken away, for a missing part |
| BootImage.Maker.Finish | bootmk.c:304-305 | Rewriting the header touches no region |
| BootImage.Maker.Make | bootmk.c:126-305 | The image is bl2, header and bodies, and the table is right |
| BootImage.EveryRegionHolds | bootmk.c:174-272 | Every entry of a right table names the region with exactly its body |
| BootImage.RegionsFollow | bootmk.c:134-179 | The regions follow each other without gaps from 0x4000 on, up to the end |
| BootImage.RegionsAreDisjoint | bootmk.c:134-272 | No two regions overlap |
| BootImage.BootMk | bootmk.c:126-305 | In the finished image the header stands at 0x10000, and every accepted firmware file and every part stands, byte for byte, where its entries say: at 0x10000 plus the offset; firmware entries have the digest of their bodies; unused entries are zero, and the five fixed ones are at 0x188 plus multiples of 0x468, of that size, or zero for a part that is missing |

## Left out

- External dictionaries, attached dictionary contexts and double-dictionary decoding (lz4.c, lz4hc.c): they multiply cases without a new idea; LZ4_loadDict and the HC streaming calls go with them. LZ4F_compressBegin_usingCDict and LZ4F_decompress_usingDict are modelled without a dictionary.
- The `byPtr` table type, big-endian and unaligned-access variants, and compiler-specific bit counting (LZ4_NbCommonBytes is given by its result).
- LZ4_decompress_safe_partial and LZ4_decompress_fast: the first is a different contract, the second is declared unchecked and deprecated.
- Error codes: success or failure only, since the value depends on the path taken. Allocation failures.
- How good whole parses are: entries of the price table that are replaced later, and positions skipped by the parser or by the heuristics of the search, make neither the optimal nor the lazy parser the best. What is proved is what each search and each turn of the table achieves.
- MatchFinder.InsertAndGetWiderMatch: with pattern analysis or chain swap on, and looking back or with fewer attempts than earlier positions in the window, nothing is said of the candidates after the newest.
- XXH on null pointers, and XXH64 at 2^64 bytes and more, where its length wraps.
- LZ4F_getFrameInfo, LZ4F_compressFrame's stack context, and the compression levels of frames: any compression function that is faithful is allowed.
- FrameEncoder.Cctx.Compress: the dictionary is the one segment LZ4_compress_fast_continue has and LZ4_saveDict saves. An HC stream may also look at the segment before it, which is not modelled; nor is what LZ4_renormDictT takes off a dictionary beyond its last 64 KB, which no block can refer to. Two arrays of the caller never follow each other in memory.
- Negative ints, MPIs, sequences, named-data lists and the truncation of a written length to int in mbedtls.
- Options, stat, fopen, file names, timestamps and nonces of the tools; SHA-256 itself; uuids and the fip entries of the boot header, which are constants or copied through; the option slot beyond the last one that the first loop of bootmk.c also visits.
- lib.c beyond file_copy, aesni.c and arc4.c.
- BlockDecoder.DecompressSafe: a zero offset is outside the format, so that nothing is said of the output of a block that meets one.
- BlockDecoder.DecompressGeneric: of the dictionary directives, noDict and withPrefix64k; a block that is neither legal nor refused is only said to decode to its meaning.
- FastStream.Stream.CompressFastContinue: the first block of a stream is compressed as one with an empty prefix, because an empty external dictionary amounts to that; blocks have to be contiguous.
- FastStream.StreamDecode.DecompressSafeContinue: prefix mode only, as contiguous output makes it.
- HcCompressor.CompressDestSize: says nothing of the context afterwards, which the source gives up as well.
- FrameDecoder.DecodeFrame: starts from a context that is new, has just finished a frame or has been reset. The content hash is modelled by the bytes hashed. With stableDst the caller keeps his promise about the buffer: `FrameDecoder.Dctx.Decompress` then asks that the new window does not lie over the dictionary.
- FrameDecoder.Dctx.Decompress: the block decoder's outcome depends on the block and the last 64 KB of history alone, also for blocks that are not legal.
- FrameEncoder.Cctx.Update: inputs of at most 2^47 bytes, more than can be addressed; the 32-bit block count of the bound would wrap at 2^48.
- SparseFile.FwriteSparse: failing seeks and writes end the program and are not modelled. The callers pass decoded blocks of a few megabytes, far below the 1 GB of `SparseFile.OneGigabyteIsExact`.
- Der.WriteTaggedInt: the non-negative ints; lengths are unbounded numbers.
- BootImage.BootMk: bl2 has at least 0x10000 bytes, parts reach their payload, firmware files are smaller than 2 GB and fit the table's 32-bit offsets together.
- BootImage.Maker.WritePart: of an entry, offset and size; the other fields are constants or copied from the part.
- BootImage.Maker.AddFirmware: of an entry, offset, size and digest; the 0x40 bytes that are copied from the file are left out.
