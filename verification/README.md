# The native compression and cipher code of BungeeCord, modelled and proved in Dafny

BungeeCord's native modules carry a modified zlib (DEFLATE, RFC 1951, with a 64-bit bit buffer, four-byte hashing and
vector copies) and a part of Mbed TLS. This project models their algorithms and proves what they are for:

* **Compression and decompression are inverse.** `deflate.c` finds matches in a sliding window, `trees.c` builds
  Huffman codes and writes blocks, `inftrees.c` builds decoding tables and `inflate.c` decodes with a machine that can
  stop anywhere. Each is proved against a definition of its own, and the definitions meet in `WholeStream.RoundTrip`:
  what is compressed is decompressed to itself.
* **The space set aside for decoding tables is enough, and no less would be.** `inftrees.h` takes 1332 and 592 from an
  exhaustive search; `TableSpace` proves both numbers for all codes. The round trip needs no condition because of it.
* **The code lengths are optimal**: Huffman's theorem holds of the trees that `trees.c` builds, and the depth as tie
  breaker makes them the lowest of the optimal trees, so the length limit costs nothing whenever it can.
* **The fast forms refine the simple ones**: decoding tables, word-wise comparison, chunked copies, both fast decoding
  loops, slicing by four, deferred reduction.
* **Montgomery multiplication and exponentiation** are modular multiplication and exponentiation.
* **ARIA and XTS** decryption undoes encryption.

Code that changes state is a class or a method over arrays, proved against functions on values; what the source
promises is then proved about those functions. The state of the decoder is tied to the definition `Inflation` by ghost
fields: the methods of `Inflater`, `InflateFast`, `InflateChunk` and `Inflate` only ever do steps of that definition.

Files by component:

* arithmetic and bits: `Arithmetic`, `Sums`, `Bits`, `BitWriter`, `BitReader`
* canonical codes and tables: `HuffmanCode`, `DecodingTable`, `InfTrees`, `TableSpace`, `CodeLookup`, `TreeTables`,
  `CanonicalTrees`
* the format of RFC 1951: `DeflateFormat`
* building trees: `HuffmanTree`, `TreeHeap`, `TreeBuild`, `LengthLimit`, `BitLengths`, `HuffmanOptimal`,
  `HuffmanHeight`, `ShortestCode`, `TreeCodes`
* blocks: `RunLengths`, `BlockSymbols`, `DeflateBlock`, `BlockHeader`, `FlushBlock`, `Encoder`
* matches: `Lz77`, `WordCompare`, `MatchSearch`, `Deflate`
* decoding: `Inflation`, `Inflater`, `InflateFast`, `WideInput`, `InflateChunk`, `Inflate`, `Window`, `ChunkCopy`
* both directions together: `SymbolRoundTrip`, `BlockRoundTrip`, `BlockStream`, `WholeStream`
* large numbers: `Limbs`, `BignumCore`, `Montgomery`, `Montmul`, `ExpMod`, `ModRaw`
* checksums and ciphers: `Crc`, `CrcRemainder`, `Adler`, `AriaBoxes`, `Aria`, `AriaBytes`, `Xts`

## Where the code and its comments disagree

* `fill_window` (deflate.c:1457-1463) is said to keep searches from reading bytes that were never written. It does not:
  when the window slides before `high_water` has reached its end, the copy also moves bytes that were never written
  into the lower half, below `high_water`. `Deflate.HighWaterExample` is a run in which the next search reads such a byte, `Deflate.Compressor.FillWindow`
  says exactly when there are any, and `Deflate.Compressor.InitialisedGap` where the bytes are. The symbols are right all
  the same, because a match never reaches beyond the lookahead.
* `inflate_fast` is said to be entered with fewer than 8 bits held (inffast.c:27 and 290). In LEN up to 14 bits of an
  unfinished code may be held from the call before. What the code relies on is weaker and always holds: fewer than 8
  bits, or a code that is not complete yet. `InflateFast.NeverBeforeEntry` is proved from that.
* `mbedtls_mpi_core_exp_mod` needs R^2 mod N for the R of N's limbs, and its table holds the powers A^i; two comments
  (bignum_core.c:646 and 680) say otherwise.
* In `build_tree` the forced node can also be 2, not only 0 or 1 (trees.c:620).
* `build_bl_tree` can never end its loop below 3, because the first nonzero length is always sent as itself.

## Model

| member | source | states |
|---|---|---|
| InfTrees.InflateTable | Waterfall/BungeeCord/native/zlib/inftrees.c:32-306 | For every vector of code lengths: -1 exactly when the lengths over-subscribe the code space, or leave some of it unused other than in a code of a single bit for literals or distances; 1 exactly when the table would pass the space limit; otherwise the table built in place decodes the code: bits that start with the canonical reversed codeword of a symbol give that symbol and its length through root and sub-table, all others give the invalid marker. Nothing outside the entries that the code needs is changed. |
| InfTrees.CodesLeft | Waterfall/BungeeCord/native/zlib/inftrees.c:130-138 | The check of the lengths finds exactly how much of the code space is left, and is negative exactly when it is over-subscribed. |
| InfTrees.SortSymbols | Waterfall/BungeeCord/native/zlib/inftrees.c:140-147 | The symbols are sorted by code length and then by number. |
| InfTrees.BackwardIncrement | Waterfall/BungeeCord/native/zlib/inftrees.c:241-250 | Incrementing the reversed code adds one to the code that it stands for. |
| InfTrees.Replicate | Waterfall/BungeeCord/native/zlib/inftrees.c:232-239 | An entry is put at every index that ends with its code, and nowhere else. |
| InfTrees.NextCode | Waterfall/BungeeCord/native/zlib/inftrees.c:241-257 | The next code in the order of the loop is the next canonical codeword: the codes leave no gap and do not overlap. |
| HuffmanCode.PrefixFree | Waterfall/BungeeCord/native/zlib/trees.c:542-574 | No two codewords of a vector of lengths whose Kraft sum is at most 1 begin alike. |
| HuffmanCode.SentCodeCovers | Waterfall/BungeeCord/native/zlib/trees.c:542-574 | A word starts with the bits of a codeword as they are sent exactly when its reversal lies in the interval of the symbol. |
| BignumCore.Add | Waterfall/BungeeCord/native/mbedtls/library/bignum_core.c:361-378 | Sum and carry, over any number of limbs, with the operands allowed to be the same. |
| BignumCore.Sub | Waterfall/BungeeCord/native/mbedtls/library/bignum_core.c:403-419 | Difference and borrow, over any number of limbs, with the operands allowed to be the same. |
| BignumCore.Mla | Waterfall/BungeeCord/native/mbedtls/library/bignum_core.c:421-459 | D + b * S with the carry out of the top, for S shorter or longer than D. |
| BignumCore.MontmulInit | Waterfall/BungeeCord/native/mbedtls/library/bignum_core.c:464-474 | The Newton iteration ends with the negated inverse of the lowest limb modulo the radix, for every odd modulus. |
| Montmul.Round | Waterfall/BungeeCord/native/mbedtls/library/bignum_core.c:487-497 | One round divides exactly by the radix and keeps the accumulator below N + B. |
| Montmul.Montmul | Waterfall/BungeeCord/native/mbedtls/library/bignum_core.c:476-527 | X = A * B * R^-1 mod N with X < N, for every odd N, every number of limbs, every A and every B < N, also when X is N; the final carry without a borrow never occurs. |
| ExpMod.PrecomputeWindow | Waterfall/BungeeCord/native/mbedtls/library/bignum_core.c:612-638 | The table holds the powers A^0 to A^(welem - 1) in Montgomery form. |
| ExpMod.TableLookup | Waterfall/BungeeCord/native/mbedtls/library/bignum_core.c:544-555 | Reading all entries copies exactly the one that is asked for. |
| ExpMod.Exponentiate | Waterfall/BungeeCord/native/mbedtls/library/bignum_core.c:689-738 | The loop over the bits of the exponent gives the Montgomery form of a^E for every window size, and ends. |
| ExpMod.ExpMod | Waterfall/BungeeCord/native/mbedtls/library/bignum_core.c:652-739 | X is the Montgomery form of a^E mod N for every odd N, every exponent of any number of limbs and every largest window size. |
| ModRaw.ToMontRep | Waterfall/BungeeCord/native/mbedtls/library/bignum_mod_raw.c:151-166 | X becomes its Montgomery form in place, for every odd modulus and every X. |
| ModRaw.FromMontRep | Waterfall/BungeeCord/native/mbedtls/library/bignum_mod_raw.c:168-184 | X becomes the number that it is the Montgomery form of. |
| ModRaw.PlainPower | Waterfall/BungeeCord/native/mbedtls/library/bignum_core.c:652-739 | Into Montgomery form, to a power as `ExpMod` takes it, and out again gives the residue of the power itself, for every base, exponent and odd modulus. |
| TreeHeap.DownHeap | Waterfall/BungeeCord/native/zlib/trees.c:420-443 | Moving an entry down restores the heap order below it and permutes the heap. |
| TreeBuild.DeflateState.Combine | Waterfall/BungeeCord/native/zlib/trees.c:629-657 | Joining again and again the two nodes that come first by frequency and then by depth ends with one tree over exactly the used symbols, recorded in the order of frequency at the end of the heap, with every father noted. |
| TreeBuild.DeflateState.ForceCodes | Waterfall/BungeeCord/native/zlib/trees.c:610-622 | At least two symbols are in use afterwards, and the two length counters are corrected by exactly the forced codes. |
| LengthLimit.Repair | Waterfall/BungeeCord/native/zlib/trees.c:500-511 | The overflow loop makes the Kraft sum exactly 1 and keeps the number of codes, given that the excess is half the overflow. |
| BitLengths.OverflowIsExcess | Waterfall/BungeeCord/native/zlib/trees.c:474-495 | After the first pass the Kraft excess is exactly half of `overflow`, so the repair always has leaves to move. |
| BitLengths.Reassign | Waterfall/BungeeCord/native/zlib/trees.c:513-531 | The second pass gives every leaf one of the repaired lengths, longer ones to the leaves that were joined earlier, and corrects `opt_len` to the new cost. |
| HuffmanTree.LeavesAtLimit | Waterfall/BungeeCord/native/zlib/trees.c:500-511 | If some father is at the limit, more leaves than fathers are, so there is always a code of the greatest length when lengths were cut. |
| BitLengths.GenBitlen | Waterfall/BungeeCord/native/zlib/trees.c:455-532 | The lengths form a complete code (Kraft sum exactly 1) with no length beyond the limit, exactly the used symbols have one, `bl_count` tells them, and `opt_len` and `static_len` grow by exactly what all symbols take. Without overflow the lengths are the levels of the tree; with it some code has exactly the greatest length, and lengths never grow in the order in which symbols were joined. |
| TreeCodes.BiReverse | Waterfall/BungeeCord/native/zlib/trees.c:1199-1209 | The bits are reversed. |
| TreeCodes.GenCodes | Waterfall/BungeeCord/native/zlib/trees.c:542-574 | Every symbol with a length gets its canonical codeword, in the order in which it is sent. |
| HuffmanOptimal.TreeIsLeast | Waterfall/BungeeCord/native/zlib/trees.c:446-454 | Huffman's theorem: of all lengths that leave room for a code of the used symbols, none takes fewer bits than the levels of a tree that always joined two least nodes. |
| HuffmanOptimal.RarerIsLower | Waterfall/BungeeCord/native/zlib/trees.c:446-454 | In such a tree a rarer symbol is never nearer to the root than a more frequent one. |
| ShortestCode.TreeIsOptimal | Waterfall/BungeeCord/native/zlib/trees.c:446-454 | The bit lengths are optimal, as the comment says: with the extra bits counted too, no lengths of at least one bit that leave room for the used symbols cost less. |
| HuffmanHeight.DepthsAreHeights | Waterfall/BungeeCord/native/zlib/trees.c:642-643 | The depths kept in 8 bits are the heights of the nodes: with fewer than 2^16 uses no depth wraps, because each two levels double the least frequency. |
| HuffmanHeight.HeightBound | Waterfall/BungeeCord/native/zlib/trees.c:406-412 | What the depth as tie breaker is for: of all codes that take the least, the tree's own has the shortest longest codeword. |
| ShortestCode.AttainableIsNotDeep | Waterfall/BungeeCord/native/zlib/trees.c:406-412 | So if any code that takes the least obeys the limit, no level of the tree is cut. |
| ShortestCode.FallingIsRarest | Waterfall/BungeeCord/native/zlib/trees.c:513-520 | Lengths that are given out along the end of the heap are never shorter for a rarer symbol. |
| TreeCodes.BuildTree | Waterfall/BungeeCord/native/zlib/trees.c:584-666 | From any frequencies (their sums wrap at 16 bits, the depths at 8) to a complete canonical code within the limit in which all used symbols have codewords; `opt_len` and `static_len` grow by the exact cost. If the frequencies add up to less than 2^16, rarer symbols never have shorter codes, and no other code takes less if none reaches the limit or if any of the codes that take the least obeys the limit. |
| BlockHeader.BlockTotals | Waterfall/BungeeCord/native/zlib/trees.c:974-997 | The counters of a block add up to its symbols and its end, so those of any symbol buffer stay below 2^16. |
| TableSpace.TableSizeIs | Waterfall/BungeeCord/native/zlib/inftrees.c:104-305 | The size of the table of any complete code follows from the numbers of its codes of each length: the root, and for each level of the sub-tables the open nodes, rounded up to whole sub-tables. |
| TableSpace.LensFit | Waterfall/BungeeCord/native/zlib/inftrees.h:38-51 | No code of up to 286 symbols that the decoder accepts needs more than the 1332 entries set aside for literals and lengths at a root of 10 bits. The source takes this from an exhaustive search. |
| TableSpace.DistsFit | Waterfall/BungeeCord/native/zlib/inftrees.h:38-51 | No code of up to 30 symbols needs more than the 592 entries for distances at a root of 9 bits. |
| TableSpace.LensFull | Waterfall/BungeeCord/native/zlib/inftrees.h:38-51 | There is a code of 285 symbols that needs all 1332 entries. |
| TableSpace.DistsFull | Waterfall/BungeeCord/native/zlib/inftrees.h:38-51 | There is one of 29 symbols that needs all 592. |
| TreeTables.TableForTree | Waterfall/BungeeCord/native/zlib/inftrees.c:32-306 | A table for a tree that was just built is never rejected, as a code or, with the decoder's root sizes, for its size; looking up the codeword of a used symbol gives the symbol, whatever follows it. |
| BitWriter.Writer.SendBits | Waterfall/BungeeCord/native/zlib/trees.c:178-194 | The bits sent so far are followed by exactly the bits of the value, across the 64-bit buffer and the stored words. |
| BitWriter.Writer.BiFlush | Waterfall/BungeeCord/native/zlib/trees.c:1214-1227 | No bit is lost or added, and at most seven stay in the buffer. |
| BitWriter.Writer.BiWindup | Waterfall/BungeeCord/native/zlib/trees.c:1232-1250 | The bits are followed by zeros up to a whole byte. |
| RunLengths.ScanTree | Waterfall/BungeeCord/native/zlib/trees.c:672-711 | Counts exactly how often each item occurs that is sent for the lengths. |
| RunLengths.SendTree | Waterfall/BungeeCord/native/zlib/trees.c:717-762 | Sends exactly those items. |
| RunLengths.TwoTreesRoundTrip | Waterfall/BungeeCord/native/zlib/inflate.c:983-1029 | Expanding the items of the literal lengths followed by those of the distance lengths gives both vectors back, for all lengths below 16. |
| DeflateBlock.SymbolBuffer.TallyDist | Waterfall/BungeeCord/native/zlib/trees.c:974-997 | Recording a match appends it to the buffer, keeps the counters in step with the buffer and tells when the block is full. |
| DeflateBlock.CompressBlock | Waterfall/BungeeCord/native/zlib/trees.c:1002-1150 | Sends the codewords and extra bits of exactly the symbols in the buffer, and the end of the block. |
| BlockHeader.BuildBlTree | Waterfall/BungeeCord/native/zlib/trees.c:768-796 | The third tree has codewords for all items of both vectors, the last length sent is the last one that is not zero, and `opt_len` grows by exactly the header's length. |
| BlockHeader.PlanBlock | Waterfall/BungeeCord/native/zlib/trees.c:884-905 | `opt_len` is exactly the number of bits of the header, the symbols and the end of the block with the three trees built; `static_len` is what the counters predict for the fixed trees; the trees are complete canonical codes. |
| BlockHeader.SendAllTrees | Waterfall/BungeeCord/native/zlib/trees.c:803-827 | Sends the three counts, the ordered lengths and both vectors. |
| FlushBlock.SendStoredBlock | Waterfall/BungeeCord/native/zlib/trees.c:832-844 | Sends the kind, padding to a whole byte, the length, its complement and the bytes (copy_block in lines 1256-1277 included). |
| FlushBlock.SendBestBlock | Waterfall/BungeeCord/native/zlib/trees.c:886-957 | Plans, chooses and sends: the stored form exactly when it is at least as short as both others, the bits sent are 3 + `opt_len` or 3 + `static_len`, and never more than the fixed trees take, rounded to bytes. At level 0 the bytes are copied if they are there, and the fixed trees are used if not. |
| FlushBlock.InitBlock | Waterfall/BungeeCord/native/zlib/trees.c:376-389 | The counters, lengths and buffer are those of an empty block, so the next block can be recorded. |
| FlushBlock.FlushBlock | Waterfall/BungeeCord/native/zlib/trees.c:874-968 | A whole call: the block in its best form, the state for the next block, and for the last block zeros up to a whole byte. |
| SymbolRoundTrip.SymbolRun | Waterfall/BungeeCord/native/zlib/inflate.c:1068-1238 | The bits of one symbol take the decoder through LEN, LENEXT, DIST, DISTEXT, MATCH and LIT back to LEN with exactly the symbol's bytes put out. |
| SymbolRoundTrip.BodyRun | Waterfall/BungeeCord/native/zlib/inflate.c:1068-1238 | The bits of a block's symbols and its end make the decoder put out what the symbols stand for and leave it at the next block header. |
| CanonicalTrees.GuardedCanonical | Waterfall/BungeeCord/native/zlib/trees.c:686-686 | The lengths up to the last used symbol, which are all that is sent, are a complete code with the same codewords. |
| BlockRoundTrip.HeaderRun | Waterfall/BungeeCord/native/zlib/inflate.c:944-1064 | The header of a dynamic block gives the decoder exactly the lengths of both trees, and it accepts them. |
| BlockRoundTrip.StaticCarries | Waterfall/BungeeCord/native/zlib/inflate.c:890-899 | A block with the fixed trees is decoded to its symbols' bytes behind those of the blocks before. |
| BlockRoundTrip.DynamicCarries | Waterfall/BungeeCord/native/zlib/inflate.c:944-1238 | So is a block with its own trees. |
| BlockRoundTrip.StoredCarries | Waterfall/BungeeCord/native/zlib/inflate.c:911-943 | A stored block is decoded to its bytes. |
| BlockRoundTrip.StreamInflates | Waterfall/BungeeCord/native/zlib/inflate.c:875-880 | A stream that ends with its last block, filled up to a byte, inflates to exactly what its blocks carry, whatever follows it. |
| Encoder.Encoder.RoomForBlock | Waterfall/BungeeCord/native/zlib/deflate.c:278-317 | A pending buffer of four bytes for each symbol always has room for the block in the buffer, in every form. |
| Encoder.Encoder.WriteBlock | Waterfall/BungeeCord/native/zlib/trees.c:874-968 | Writing a block and moving it to the output extends the stream of blocks by exactly what the block stands for: its symbols, or its bytes if they are copied at level 0; the last block ends the stream. Above level 0 no other form of the block would be shorter. |
| BlockStream.StreamCarries | Waterfall/BungeeCord/native/zlib/inflate.c:873-1238 | The decoder puts out exactly the bytes of all blocks of a stream. |
| BlockStream.EncodedInflates | Waterfall/BungeeCord/native/zlib/inflate.c:873-1238 | Bytes that encode data as a stream of blocks inflate to exactly the data, whatever follows them. |
| WholeStream.DeflateAll | Waterfall/BungeeCord/native/zlib/deflate.c:692-962 | For every input, level 0 to 9, window, memory level and strategy (at level 0 with the run-length strategy, for windows that the pending buffer can take), with the blocks cut where the compressor flushes them and their bytes taken from its window: what is put out encodes the input as a stream of blocks, each in its best form, and the decoder gives the input back, whatever follows the stream. |
| WholeStream.RoundTrip | Waterfall/BungeeCord/native/zlib/inflate.c:645-1340 | inflate(deflate(x)) = x: compressing any data with any parameters and calling the decoder, in either build, with the stream and room for one byte more than the data returns that the stream has ended, with exactly the data in the output. |
| WordCompare.FirstDifference | Waterfall/BungeeCord/native/zlib/deflate.c:1261-1275 | The lowest set bit of the exclusive or of two words is in the first byte in which they differ. |
| Deflate.Compressor.constructor | Waterfall/BungeeCord/native/zlib/deflate.c:258-339 | After deflateInit2_ and lm_init all invariants below hold, for the empty stream; only the heads of the chains were cleared, and the links hold anything. |
| Deflate.DeflateInit | Waterfall/BungeeCord/native/zlib/deflate.c:201-339 | A compressor exactly for the parameters that are accepted, with window bits 8 raised to 9 and level -1 meaning 6. |
| Deflate.Compressor.InsertString | Waterfall/BungeeCord/native/zlib/deflate.c:165-171 | For every hash function: the position becomes the head of its chain, its link is the head before, and nothing else changes; the chains only lead to earlier positions, and only through links that were written. |
| Deflate.Compressor.BulkInsert | Waterfall/BungeeCord/native/zlib/deflate.c:173-181 | So for every position of a stretch, one after the other. |
| MatchSearch.HeadIsLast | Waterfall/BungeeCord/native/zlib/deflate.c:159-164 | The head of a chain is the most recent position with its key. |
| MatchSearch.LinkIsBefore | Waterfall/BungeeCord/native/zlib/deflate.c:159-171 | The link of a position is the one that was the head of its chain before, unless its place was taken since. |
| Deflate.Compressor.CompareWords | Waterfall/BungeeCord/native/zlib/deflate.c:1261-1283 | Comparing by words gives exactly the number of equal bytes, at most 258. |
| Deflate.Compressor.LongestMatch | Waterfall/BungeeCord/native/zlib/deflate.c:1194-1296 | The search ends, and what it returns beyond the best length before is a true match within reach and within the lookahead, whatever is in the chains. Length and start are exactly what following the chain gives, for as many links as the budget allows. |
| Deflate.Compressor.SearchIsLongest | Waterfall/BungeeCord/native/zlib/deflate.c:1270-1296 | That is at least as long as every match at a candidate up to the first one long enough to stop at; all its bytes are equal, and the next one is not. |
| Deflate.Compressor.Slide | Waterfall/BungeeCord/native/zlib/deflate.c:1362-1417 | Every position in the chains becomes itself less the window size, or empty; the window still holds the input. |
| Deflate.Compressor.ReadBuf | Waterfall/BungeeCord/native/zlib/deflate.c:1433-1434 | The window holds the input read so far, and the stream is only read further. |
| Deflate.Compressor.FillWindow | Waterfall/BungeeCord/native/zlib/deflate.c:1336-1493 | The window holds the input from `base` on, there is room for a search, the last match keeps its distance modulo 2^32, `high_water` is raised exactly as far as the zeroing goes, and all bytes below it were stored to if and only if they were before and no slide happened while it was short of the window's end, or the data reach beyond the middle. The chains are those from before, lowered if the window slid, with the pending positions entered that now have four bytes. |
| Deflate.Compressor.InitialisedGap | Waterfall/BungeeCord/native/zlib/deflate.c:1457-1489 | The only bytes below `high_water` that may never have been stored to lie between the end of the data and the middle of the window. |
| Deflate.Compressor.ReadsStored | Waterfall/BungeeCord/native/zlib/deflate.c:1457-1463 | If all bytes below `high_water` were stored to, so was every byte that a search can read. |
| Deflate.Compressor.FindRun | Waterfall/BungeeCord/native/zlib/deflate.c:1838-1850 | The run is exactly as long as the byte before repeats, at most 258, or 0 if that is less than 3 bytes; the last byte read is the first that differs or the one behind the longest run. |
| Deflate.Compressor.RleSymbol | Waterfall/BungeeCord/native/zlib/deflate.c:1836-1868 | A symbol is recorded; no byte that was never stored to is read if all up to the end of the longest run were stored to, and one is read if the byte at that end was not and all before it repeat. |
| Deflate.HighWaterExample | Waterfall/BungeeCord/native/zlib/deflate.c:1457-1463 | A run of deflate_rle with a window of 512: 765 zeros and a flush, then 258 zeros more. The next search does read a byte below `high_water` that was never stored to: the promise of the comment is false. |
| Deflate.Compressor.FastSymbol | Waterfall/BungeeCord/native/zlib/deflate.c:1610-1664 | The symbol recorded is the match that the search from the current chain finds, if it has four bytes, or else the byte. |
| Deflate.Compressor.DeflateFast | Waterfall/BungeeCord/native/zlib/deflate.c:1589-1675 | The literals and matches so far stand for exactly the input consumed so far; lengths are 4 to 258 and distances at most the window size less 262; unless more input or output is needed, all input is consumed. Every symbol is the one that the search prescribes. |
| Deflate.Compressor.SlowSymbol | Waterfall/BungeeCord/native/zlib/deflate.c:1704-1789 | The match found one byte before is recorded exactly if the search, done only when it is short enough, finds no longer one here; else that byte is. |
| Deflate.Compressor.DeflateSlow | Waterfall/BungeeCord/native/zlib/deflate.c:1682-1805 | The same with lazy matching: all but the one pending byte is stood for, a match found before the window slid keeps its right distance modulo 2^32, and every symbol is the one that the two searches prescribe. |
| Deflate.Compressor.DeflateRle | Waterfall/BungeeCord/native/zlib/deflate.c:1812-1879 | The same for runs of one byte, at distance 1: a run of four bytes or more is always taken, in its whole length. No byte is read that was never stored to if all below `high_water` were stored to and the window is not slid while the mark is short of its end. |
| Deflate.Compressor.DeflateHuff | Waterfall/BungeeCord/native/zlib/deflate.c:1885-1918 | The same with literals only, so that a block has as many symbols as bytes. |
| Deflate.Compressor.DeflateStored | Waterfall/BungeeCord/native/zlib/deflate.c:1525-1580 | The same at level 0: every block is no longer than its length field and the pending buffer allow, and is written out before the window can lose its beginning. |
| Deflate.Compressor.BlockBytes | Waterfall/BungeeCord/native/zlib/deflate.c:1499-1508 | Whenever a block is flushed and `block_start` is not negative, the bytes in the window from `block_start` to `strstart` are exactly those that the block's symbols stand for behind the blocks before, and fewer than 65536. |
| Deflate.Compressor.FlushBlock | Waterfall/BungeeCord/native/zlib/deflate.c:1499-1508 | The block is written out with those bytes, or none if `block_start` is negative, marked as the last one as the caller says, and above level 0 in the shortest form; the next block starts at `strstart`. |
| Deflate.Compressor.DeflateSome | Waterfall/BungeeCord/native/zlib/deflate.c:925-927 | Whichever function the strategy or the level selects, a call keeps what the next one relies on, and ends with the last block written exactly with Z_FINISH. |
| Deflate.Compressor.RunToEnd | Waterfall/BungeeCord/native/zlib/deflate.c:692-940 | Finishing ends, however often the output is full in between: the last block is written out, and the symbols of all blocks stand for exactly the whole input, for every level, strategy, hash function and size; each is the one that the strategy or the level prescribes. |
| ChunkCopy.ChunkcopyCore | Waterfall/BungeeCord/native/zlib/chunkcopy.h:104-119 | Copies the bytes chunk by chunk, with the uneven part first; stores stay within the rounded-up length. |
| ChunkCopy.ChunkcopyCoreSafe | Waterfall/BungeeCord/native/zlib/chunkcopy.h:129-158 | The same without storing at or beyond the limit. |
| ChunkCopy.ChunkunrollRelaxed | Waterfall/BungeeCord/native/zlib/chunkcopy.h:170-182 | Doubling the distance keeps the source fixed and the bytes periodic, until it is a chunk or all that is left. |
| ChunkCopy.ChunkcopySafeUgly | Waterfall/BungeeCord/native/zlib/chunkcopy.h:431-448 | Either form is the overlapping copy byte by byte, with nothing stored at or beyond the limit, once the distance is a chunk or all that is left. |
| ChunkCopy.ChunkcopyUnrolled | Waterfall/BungeeCord/native/zlib/inffast_chunk.c:298-299 | After that a copy by whole chunks, or by either form of chunkcopy_safe_ugly, is the overlapping copy byte by byte, with nothing stored at or beyond the limit. |
| ChunkCopy.ChunksetCore | Waterfall/BungeeCord/native/zlib/chunkcopy.h:282-346 | Filling by repeated vectors repeats the last bytes for every period below 16. |
| ChunkCopy.ChunkcopyLappedRelaxed | Waterfall/BungeeCord/native/zlib/chunkcopy.h:394-402 | With room behind, the result is the overlapping copy byte by byte. |
| ChunkCopy.ChunkcopyLappedSafe | Waterfall/BungeeCord/native/zlib/chunkcopy.h:413-428 | For every distance and length from 1 up: exactly the overlapping copy byte by byte, nothing before the output changed, nothing stored at or beyond the limit. |
| ChunkCopy.LappedIsByteCopy | Waterfall/BungeeCord/native/zlib/chunkcopy.h:404-412 | The property determines the bytes: there is only one overlapping copy. |
| Window.History.Update | Waterfall/BungeeCord/native/zlib/inflate.c:402-467 | After the update the window, read in order, is the last bytes of what was kept followed by what was put out. |
| Window.KeepsLast | Waterfall/BungeeCord/native/zlib/inflate.c:402-467 | So after any number of updates it holds the last bytes of all the output. |
| Window.History.GetDictionary | Waterfall/BungeeCord/native/zlib/inflate.c:1356-1377 | Returns the kept bytes, oldest first. |
| Window.History.BackFromEnd | Waterfall/BungeeCord/native/zlib/inflate.c:1177-1206 | The index arithmetic of MATCH finds the byte that lies the given distance back. |
| Inflation.StepKeeps | Waterfall/BungeeCord/native/zlib/inflate.c:873-1238 | Every step of the decoder, for every state and all bits, keeps the state valid, uses only bits that are there and only adds to the output. |
| Inflation.StepMore | Waterfall/BungeeCord/native/zlib/inflate.c:563-643 | More input does not change a step that was possible without it. |
| Inflation.SameEnd | Waterfall/BungeeCord/native/zlib/inflate.c:563-643 | Where the decoder ends on an input does not depend on how it got there. |
| Inflation.EarlierOutput | Waterfall/BungeeCord/native/zlib/inflate.c:563-643 | What was put out after a part of the input is the beginning of what the whole input gives. |
| Inflation.FixedTreesValid | Waterfall/BungeeCord/native/zlib/inflate.c:284-325 | The fixed codes are complete. |
| DeflateFormat.FixedCodeword | Waterfall/BungeeCord/native/zlib/inflate.c:294-301 | Length and codeword of each of the 288 symbols of the fixed tree are those of the table in section 3.2.6 of RFC 1951. |
| DeflateFormat.FixedDistance | Waterfall/BungeeCord/native/zlib/inflate.c:302-310 | The codeword of a distance code in the fixed tree is its number, in five bits. |
| DeflateFormat.BlockKinds | Waterfall/BungeeCord/native/zlib/inflate.c:873-909 | A block begins with the bit of the last block and two bits for its kind (section 3.2.3 of RFC 1951). |
| DeflateFormat.StoredHeader | Waterfall/BungeeCord/native/zlib/inflate.c:911-925 | A stored block is accepted exactly if the second half of its header is the first with every bit inverted (section 3.2.4 of RFC 1951). |
| DeflateFormat.TableHeader | Waterfall/BungeeCord/native/zlib/inflate.c:944-962 | The counts are 5, 5 and 4 bits, and 257, 1 and 4 more than they say (section 3.2.7 of RFC 1951). |
| DeflateFormat.OrderOfLengths | Waterfall/BungeeCord/native/zlib/inflate.c:963-972 | The lengths of the code length codes come in the order 16, 17, 18, 0, 8, 7 and so on. |
| DeflateFormat.RepeatCodes | Waterfall/BungeeCord/native/zlib/inflate.c:983-1029 | Codes below 16 are lengths; 16 repeats the last one 3 to 6 times, 17 and 18 zero 3 to 10 and 11 to 138 times; too many, or nothing to repeat, is an error. |
| DeflateFormat.LiteralsAndLengths | Waterfall/BungeeCord/native/zlib/inftrees.c:61-66 | Symbols are bytes, the end of the block, or lengths with the extra bits of section 3.2.5 of RFC 1951, given by a formula. |
| DeflateFormat.Distances | Waterfall/BungeeCord/native/zlib/inftrees.c:67-74 | So are distances. |
| CodeLookup.LookupDecodes | Waterfall/BungeeCord/native/zlib/inflate.c:1083-1096 | The answer of the tables is final as soon as it uses no more bits than there are. |
| BitReader.BitReader.FindCode | Waterfall/BungeeCord/native/zlib/inflate.c:1083-1100 | Pulling bytes until the tables give an answer finds exactly the first code of the bits, or runs out of input with none. |
| Inflater.Inflater.constructor | Waterfall/BungeeCord/native/zlib/inflate.c:125-243 | The state after initialisation is that of the decoder before any input. |
| Inflater.Inflater.BuildTrees | Waterfall/BungeeCord/native/zlib/inflate.c:1034-1064 | Tables are built exactly for the pairs of trees that the decoder accepts. |
| Inflater.Inflater.DoMatch | Waterfall/BungeeCord/native/zlib/inflate.c:1175-1232 | Without vector copies: copying a part of a match from the window or the output, byte by byte and as far as there is room, is as many single steps. |
| InflateChunk.DoMatchChunk | Waterfall/BungeeCord/native/zlib/inflate.c:1175-1217 | With vector copies the same holds, and nothing is stored before the output position or at or beyond its end. |
| Inflate.Run | Waterfall/BungeeCord/native/zlib/inflate.c:679-1294 | Going through the modes until it must stop, with either fast loop, the fields always mean a state that the decoder reaches on the input read. |
| Inflate.Inflate | Waterfall/BungeeCord/native/zlib/inflate.c:645-1340 | One call, of the build with vector copies or without: the output is extended by exactly what the decoder puts out, nothing before it or beyond the caller's room changes (and, without vector copies, nothing behind what was put out), the return value is exactly that of the mode, of `finish` and of whether there was progress, and the window gets the end of the output exactly when it is in use or the decoder will go on. |
| Inflate.InPieces | Waterfall/BungeeCord/native/zlib/inflate.c:563-643 | For every cutting of the input into pieces and every sequence of room in the output, the concatenated output is that of the decoder's state; once the decoder has finished, that is what it puts out on the whole input. |
| Inflate.InAnyPieces | Waterfall/BungeeCord/native/zlib/inflate.c:563-643 | A decoder that finished, however it was called, ends in the state that the input means. |
| Inflate.SameOutput | Waterfall/BungeeCord/native/zlib/inflate.c:563-643 | Two decoders that finished with the same input in different pieces have put out the same and end in the same mode. |
| Inflate.OutputSoFar | Waterfall/BungeeCord/native/zlib/inflate.c:563-643 | A decoder that has not finished has put out the beginning of what the whole input means. |
| InflateFast.FastSymbol | Waterfall/BungeeCord/native/zlib/inffast.c:101-288 | One round reads at most 6 bytes, puts out at most 258 and is a run of the slow states. |
| InflateFast.NeverBeforeEntry | Waterfall/BungeeCord/native/zlib/inffast.c:290-294 | The whole bytes that were read too early never reach back before the entry. |
| InflateFast.InflateFast | Waterfall/BungeeCord/native/zlib/inffast.c:48-308 | The fast form ends where the slow states would be: same output, same bits used, same mode, with fewer than 8 bits held. |
| WideInput.LoadBits | Waterfall/BungeeCord/native/zlib/inffast_chunk.c:151-154 | Bits that are read a second time are the same ones, so inclusive or completes the word. |
| WideInput.LoadExcess | Waterfall/BungeeCord/native/zlib/inffast_chunk.c:74-86 | A load of 8 bytes that counts as 6 keeps what is held beyond the counted bits equal to the input that follows. |
| WideInput.MakeReady | Waterfall/BungeeCord/native/zlib/inffast_chunk.c:193-204 | Loading only when there are too few bits is enough for every code and its extra bits, with at most one load for a symbol. |
| InflateChunk.CopyWindowMatch | Waterfall/BungeeCord/native/zlib/inffast_chunk.c:240-306 | A match that begins in the window is copied right, in one, two or three pieces, also where `wnext` stands for the window's end, with nothing stored outside the room. |
| InflateChunk.WideSymbol | Waterfall/BungeeCord/native/zlib/inffast_chunk.c:149-341 | One round reads at most 6 bytes more, puts out at most 258, stores nothing outside the room and is a run of the slow states. |
| InflateChunk.WideGiveBack | Waterfall/BungeeCord/native/zlib/inffast_chunk.c:343-347 | The whole bytes counted too early are given back and the bits beyond are dropped: what is held is exactly the bits of the decoder's state, fewer than 8. |
| InflateChunk.InflateFastChunk | Waterfall/BungeeCord/native/zlib/inffast_chunk.c:94-363 | The fast loop with wide input and vector copies also ends where the slow states would be, and stores nothing before the output position or at or beyond its end. |
| Crc.Crc32Little | Waterfall/BungeeCord/native/zlib/crc32.c:376-407 | Slicing by four with the tables built in place is the checksum bit by bit, for every start address and length. |
| Crc.UpdateIsBits | Waterfall/BungeeCord/native/zlib/crc32.c:130-170 | The byte-wise definition is the one-bit-at-a-time definition. |
| CrcRemainder.ChecksumIsRemainder | Waterfall/BungeeCord/native/zlib/crc32.c:101-129 | The inverted checksum is what is left when the message as a polynomial over GF(2), lowest bit of each byte first, is divided by x^32 + x^26 + x^23 + x^22 + x^16 + x^12 + x^11 + x^10 + x^8 + x^7 + x^5 + x^4 + x^2 + x + 1, with the register all ones at the start. |
| CrcRemainder.OneRemainder | Waterfall/BungeeCord/native/zlib/crc32.c:101-129 | There is only one such remainder. |
| Crc.XOnes | Waterfall/BungeeCord/native/zlib/crc32.c:385-405 | The register starts and ends with every bit inverted. |
| Crc.MatrixTimes | Waterfall/BungeeCord/native/zlib/crc32.c:456-470 | A matrix for k zero bits times a register appends k zero bits. |
| Crc.MatrixSquare | Waterfall/BungeeCord/native/zlib/crc32.c:473-481 | Squaring doubles the number of zero bits. |
| Crc.ConcatenatedCrc | Waterfall/BungeeCord/native/zlib/crc32.c:484-537 | The checksum of a concatenation is that of the first part moved over the second part's zero bits, combined with that of the second. |
| Crc.Crc32Combine | Waterfall/BungeeCord/native/zlib/crc32.c:484-537 | Combining the checksums of two byte strings gives the checksum of their concatenation, for every pair of strings. |
| Aria.AInvolution | Waterfall/BungeeCord/native/mbedtls/library/aria.c:166-188 | The diffusion layer undoes itself. |
| Aria.LayersInverse | Waterfall/BungeeCord/native/mbedtls/library/aria.c:198-219 | The two substitution layers undo each other. |
| Aria.Context.SetKeyDec | Waterfall/BungeeCord/native/mbedtls/library/aria.c:470-500 | The round keys are reversed, those in the middle sent through the diffusion layer. |
| Aria.Context.CryptEcb | Waterfall/BungeeCord/native/mbedtls/library/aria.c:505-557 | The loop over pairs of rounds is the cipher with one round after the other. |
| AriaBytes.CryptIsCipher | Waterfall/BungeeCord/native/mbedtls/library/aria.c:505-557 | That is the cipher of RFC 5794 byte by byte: in odd rounds the boxes S1, S2 and their inverses, in even rounds the inverses first, then the sums of seven bytes each; for all round keys and any number of rounds. |
| AriaBytes.Diffused | Waterfall/BungeeCord/native/mbedtls/library/aria.c:142-188 | The diffusion layer on words gives the sixteen sums of section 2.4.3 of RFC 5794. |
| AriaBoxes.Box1 | Waterfall/BungeeCord/native/mbedtls/library/aria.c:224-248 | The first box is an affine map of the inverse in GF(2^8). |
| AriaBoxes.Box2 | Waterfall/BungeeCord/native/mbedtls/library/aria.c:250-274 | So is the second. |
| Aria.DecryptEncrypt | Waterfall/BungeeCord/native/mbedtls/library/aria.c:470-557 | For every round keys, 12, 14 or 16 rounds and every block: encryption under the transformed keys undoes it. |
| Aria.EncryptDecrypt | Waterfall/BungeeCord/native/mbedtls/library/aria.c:470-557 | The same for the methods that change the context in place. |
| Xts.MulXIsTimesX | Waterfall/BungeeCord/native/mbedtls/library/aes.c:1058-1071 | The tweak is multiplied by x in GF(2^128). |
| Xts.TimesXReduces | Waterfall/BungeeCord/native/mbedtls/library/aes.c:1066-1067 | The polynomial is x^128 + x^7 + x^2 + x + 1. |
| Xts.ElementBytes | Waterfall/BungeeCord/native/mbedtls/library/aes.c:1063-1070 | Byte k has the coefficients of x^(8k) to x^(8k + 7). |
| Xts.CryptXts | Waterfall/BungeeCord/native/mbedtls/library/aes.c:1076-1176 | The method returns the source's errors and otherwise fills the output: every block is what the cipher makes of it between two additions of its own tweak, the encrypted data unit number times x^i; with a rest, the last two blocks change places, with the two tweaks in the other order for decryption. |
| Xts.DecryptEncrypt | Waterfall/BungeeCord/native/mbedtls/library/aes.c:1076-1176 | For every cipher and its inverse and every length from 16 bytes up, decryption undoes encryption. |
| Adler.Adler32 | Waterfall/BungeeCord/native/zlib/adler32.c:69-142 | The sums with deferred reduction are the per-byte definition, with no overflow of 32 bits on the way. |
| Adler.BaseIsPrime | Waterfall/BungeeCord/native/zlib/adler32.c:14-14 | The modulus is a prime number. |
| Adler.BaseIsLargest | Waterfall/BungeeCord/native/zlib/adler32.c:14-14 | There is no larger one below 2^16. |
| Adler.NmaxIsLargest | Waterfall/BungeeCord/native/zlib/adler32.c:16-17 | `NMAX` is the largest number of bytes whose sums fit 32 bits. |
| Adler.PlainSums | Waterfall/BungeeCord/native/zlib/adler32.c:69-142 | As plain numbers: the low half is the start value and the sum of the bytes, the high half the sum in which each byte counts as often as there are bytes from it to the end. |
| Adler.Adler32Simd | Waterfall/BungeeCord/native/zlib/adler32_simd.c:77-218 | So are the sums by blocks of 32 bytes. |
| Adler.BothForms | Waterfall/BungeeCord/native/zlib/adler32_simd.c:77-218 | The two forms agree on every input. |
| Adler.Adler32Combine | Waterfall/BungeeCord/native/zlib/adler32.c:145-171 | Combining two checksums gives the checksum of the concatenation, for every length; a negative length gives 0xffffffff. |

## Left out

Parts of the modelled files that the model does not have:

- Headers and trailers of zlib and gzip streams, dictionaries set by the caller, deflateReset, deflateParams, deflateTune, deflateBound and the flush points other than the end of the stream: the model is a raw stream at one level and strategy.
- WholeStream.DeflateAll: at level 0 with the run-length strategy, windows of more bits than the memory level and 6: the source then copies blocks of up to two windows through a pending buffer of 2^(memory level + 8) bytes, which need not be enough. At level 0 it also asserts that a block's bytes are there, which the other strategies do not ensure; the model does what the code does without assertions, and uses the fixed trees.
- WholeStream.RoundTrip: the same windows at level 0 with the run-length strategy.
- flush_pending with too little room in the output, and the detection of text: the encoder model has room for every block. Whether the output is full after a block is left open in all the functions that find symbols.
- The symbol buffer overlaying the pending buffer (deflate.c:278-311): they are separate arrays.
- `opt_len` and `static_len` are integers without a width, where the source has 64 bits; frequencies wrap at 16 bits and depths at 8, as in the source.
- The hash function, a machine instruction: the model has any function of four bytes in its place. `insert` is bounded as in the source; the wrap of `max_insert - strstart` near the end of the input is modelled and harmless.
- Failed allocation, the null window buffer of adler32, and the version check of the init functions.
- inflate: windows smaller than 32K, the HEAD to DICT and CHECK to LENGTH modes, Z_BLOCK and Z_TREES, inflateSync, inflatePrime, inflateMark and the fields only they use; the window is allocated from the start; the pass-through modes LEN_ and COPY_ are merged into LEN and COPY; the fixed tables are built as under BUILDFIXED, inffixed.h is not part of this model.
- inffast_chunk.c without INFLATE_CHUNK_READ_64LE: the loop with vector copies that reads byte by byte.
- The vector instructions of adler32_simd.c are modelled as sums, those of chunkcopy.h as copies of 16 bytes; crc32_simd.c and crc32_big are not part of this model.
- The AES block cipher, its key schedule and ARIA's encryption key schedule: XTS is proved for every block cipher that has an inverse, ARIA for every sequence of round keys.
- Deflate.Compressor.FillWindow: does not promise that all bytes below `high_water` were stored to, because that is false of the code; it says exactly when they were.
- ExpMod.ExpMod: the working space is a parameter, and constant-time behaviour and the clearing of secrets are not modelled.
- Inflate.Inflate: the positions in the input are sequences of bytes still to be read, not pointers. With vector copies the bytes behind what was put out, within the caller's room, may change.
- Inflater.Inflater.BuildTrees: the decoding tables are taken from the shared array as values when decoding of a block starts; the source keeps pointers into it. Nothing writes to the array until the next block.
