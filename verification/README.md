# DEFLATE, checksums, UTF-8 and packet framing

A Dafny 4.11 model of the algorithmic core of this repository: the DEFLATE coder and decoder of the bundled zlib 1.2.7
(`deps/zlib`), its two checksums, the UTF-8 library (`deps/utf8cpp`) and the packet reassembly of the Discord client
(`src/client/Client/ClientSocket.cpp`). `dafny verify dfyconfig.toml` checks all of it.

The main results, each for all inputs:

- **inflate undoes deflate.** Whatever the input, however it is cut into calls of `deflate` with whatever flushes and output
  space, for the Huffman-only, RLE, fast and lazy strategies with any tuning, and however the compressed bytes and the output
  space are cut into calls of `inflate`, the output is the input and all compressed bytes are taken: exactly when the code tables
  of every dynamic block in those bytes stay below the decoder's limits (`RoundTrip.ThereAndBack`). With Z_FIXED there is no
  condition.
- **Without that condition it does not.** The tests in `inftrees.c` use `>=`, so a code that needs exactly the space kept is
  refused: `Enough.RefusedAtTheLimit` gives a complete code for each of the two limits. `LimitText.NotRestored` carries the first
  through the whole encoder: a text that `deflate` with Z_RLE and memLevel 9 turns, however it is cut, into a stream `inflate`
  refuses. This takes that frequencies which are powers of two leave `build_tree` no choice (`Dyadic.TreeAsked`), that
  `_tr_flush_block` then prefers the dynamic block (`LimitBlock.LimitRefused`), and that `deflate_rle` makes exactly one sequence
  of symbols of a text (`RunCoding.Determined`).
- **Cuts do not matter to inflate** (`InflateCuts.SameBytes`, `InflateCuts.TwoWays`), and its fast loop refines the slow one
  (`InflateFast.InflateFast`). Both are proved against one reference machine for RFC 1951 (`Rfc1951.Step`) that knows only the
  whole bit stream: every mode of the switch, the bit accumulator, the two-level tables, the circular window and the unrolled
  loops are shown to follow its single run.
- **Every strategy of deflate loses nothing, and misses nothing it looks for.** Expanding the symbols gives exactly the input
  consumed (`Deflate.Deflater.DeflateSlow` and its three siblings). With `deflate_fast` and `deflate_slow` the symbols are those of
  a log of searches: no string that was inserted and is in reach is passed over unless the chain limit or a match of nice length
  ends the search (`MatchChoice.NotMissed`), and lazy evaluation adopts a match exactly when the next position has none longer
  (`MatchChoice.LazyRule`). This rests on the hash-chain invariant in both directions, sound and without gaps, kept by insertion and
  by the window slide, and on the third byte that `longest_match` never compares (`RollingHash.ThirdByte`).
- **A flush keeps its promise.** Every call with a flush leaves its mark where it was asked for (`RoundTrip.Deflated`,
  `FlushPoints.MarkOfCall`); the bytes complete at that moment are enough for `inflate` to return exactly the text so far
  (`FlushPoints.Flushing`); and after Z_FULL_FLUSH a new decoder can start at the mark and returns the rest
  (`FlushPoints.Resuming`).
- **build_tree is optimal, and its length limit exact.** The heap-built tree has the least weighted length any prefix code can
  have (`MakeTree.GrownOptimal`, from `HuffmanCost.LowerBound`), and since ties go to the lower subtree, no code as cheap has a
  shorter longest code word (`MakeTree.GrownLowest`, from `LowestTree.LowestHeight`): the limit is exceeded only if every cheapest
  code exceeds it. The overflow loop then ends with all lengths within the limit and a Kraft sum of exactly one, having moved down
  the deepest leaves first (`LengthCounts.Spread`, `LengthCounts.LoweredUnique`, `BitLengths.GenBitlen`).
- **Cost prediction is exact**: a dynamic block takes `opt_len + 3` bits and a fixed one `static_len + 3`
  (`FlushBlock.MakePlan`), and `_tr_flush_block` sends the form chosen from these numbers, which is the smallest
  (`FlushBlock.SmallestForm`).
- **inflate_table is exact**: its return code is characterised for every length vector, and a table it builds resolves every bit
  string to the symbol of the canonical code (`InflateTable.InflateTable`).
- **Checksums**: the byte-wise and both word-wise CRC loops equal the bit-serial register, which has the residue 0x2144df1c
  (`CrcValues.Residue`); `crc32_combine` and `adler32_combine` give the checksum of the concatenation, and Adler-32 never exceeds
  32 bits between reductions.
- **UTF-8**: `validate_next` accepts exactly the grammar of RFC 3629; the conversions are mutual inverses on well-formed text and
  throw exactly on ill-formed text; what `replace_invalid` makes of each octet, and when it throws, is exact
  (`Utf8Checked.ReplaceInvalid` against `Utf8Checked.FateOf`).
- **Framing**: what reaches `ReadDataHandler` depends on the octets of the connection only, not on how they arrive.

## How the model is built

Modules follow the source files. Code that updates buffers in place is a class or a method over arrays with the loops of the
source; each is proved against functions on values, and the laws are lemmas about those functions. Shifts and masks on unsigned
numbers are the recursive functions `Shl`, `Shr`, `Low` and `Rev` of `Bits`; words of the CRC are their 32 bits. Where `|=` joins
disjoint bits the model adds. Alphabet sizes, length limits, window sizes and hash widths are parameters within the bounds the
source states, so the theorems are not finite checks.

- Format: `Bits`, `BitStream`, `Canon`, `Rfc1951`, `Lz77`, `MatchCodes`, `CodeLengthCoding`, `LongestRuns`, `Block`; what
  the RFC says of its constants, apart from the definitions the model computes with: `FormatFacts`.
- `inftrees.c`: `SymbolOrder`, `DecodeTable`, `InflateTable`, `Enough`; the text at its limit: `LimitBlock`, `LimitText`.
- `inflate.c`, `inffast.c`: `Lookup`, `Window`, `BitReader`, `InflateState`, `InflateSteps`, `InflateModes`, `InflateFast`,
  `InflateCall`, `InflateCuts`.
- `trees.c`: `BitWriter`, `GenCodes`, `NodeHeap`, `HuffmanCost`, `LowestTree`, `TreeForest`, `TreeWeights`, `TreeHeights`,
  `TreePaths`, `BuildTree`, `LengthCounts`, `BitLengths`, `LimitTies`, `TreeCost`, `MakeTree`, `Dyadic`, `BlockCost`, `SendBlock`,
  `FlushBlock`.
- `deflate.c`: `RollingHash`, `HashChains`, `MatchFinder`, `MatchChoice`, `RunCoding`, `BlockList`, `Deflate`; the two ends
  together: `BlockStream`, `Compress`, `RoundTrip`, `FlushPoints`.
- `crc32.c`: `CrcRegister`, `Crc32`, `CrcCombine`, `CrcValues`; `adler32.c`: `Adler32`.
- utf8cpp: `Utf8`, `Utf8Checked`; client: `Framing`, `ClientSocket`.

What the code does where its documentation says otherwise, or says nothing:

- A code that needs exactly ENOUGH_LENS or ENOUGH_DISTS entries is refused, although the space would suffice
  (deps/zlib/inftrees.c:211-213, deps/zlib/inftrees.c:280-282; `Enough.RefusedAtTheLimit`), so there are texts that do not come
  back (`LimitText.NotRestored`).
- The overflow loop moves down the deepest leaves first, but `gen_bitlen` then deals the lengths out along the
  list, which is in order of frequency and not of depth: where a symbol stands behind a deeper one of the same frequency, symbols
  that could keep their length do not (deps/zlib/trees.c:546-564; `BitLengths.KeepsIsInOrder` says exactly when they do,
  `LimitTies.TiedList` gives a list where they do not).
- `utf8::next` throws `invalid_code_point` with the value 0, never the offending number: `validate_next` sets the code point only
  on success (deps/utf8cpp/utf8/checked.h:139-151; `Utf8Checked.NumberLost` in general, `Utf8Checked.SurrogateReported` at an
  input).
- `utf8::prior` accepts a lead octet followed by more trail octets than it needs; it undoes `next`, but does not check that it
  lands where it started (deps/utf8cpp/utf8/checked.h:163-175). `Utf8Checked.Prior` says exactly when it does,
  `Utf8Checked.PriorPassesOver` gives an input where it does not.
- `adler32` called with a single byte and a start value whose second half is not below 65521 can return one that is not either
  (deps/zlib/adler32.c:78-84; the exact condition is in `Adler32.Adler32`, an input in `Adler32.HalfTooLarge`).
- `ClientSocket::SendPacket` queues an empty buffer in front of a packet that needs more than 4096 octets
  (src/client/Client/ClientSocket.cpp:248-275).

## Model

| member | source | states |
|---|---|---|
| Canon.MatchUnique | deps/zlib/trees.c:575-607 | The codes gen_codes assigns are prefix-free: no bit string starts with the codes of two symbols, whenever the lengths are not over-subscribed. |
| Canon.MatchExists | deps/zlib/trees.c:575-607 | If the lengths are complete, every bit string starts with some code. |
| Canon.CodeBounds | deps/zlib/trees.c:589-602 | The code of a symbol has exactly as many bits as its length says. |
| GenCodes.BiReverse | deps/zlib/trees.c:1152-1162 | The loop reverses the code's bits. |
| GenCodes.GenCodes | deps/zlib/trees.c:575-607 | Every symbol gets its reversed canonical code, with the 16-bit truncation never losing a bit. |
| GenCodes.CodeIsRank | deps/zlib/trees.c:588-602 | The code next_code hands out is the canonical one: first code of the length plus the number of earlier symbols of that length. |
| MatchCodes.InitLengthCodes | deps/zlib/trees.c:257-270 | _length_code and base_length as generated map every match length to the length code of the format, 258 to code 285. |
| MatchCodes.InitDistCodes | deps/zlib/trees.c:272-288 | _dist_code (256 direct and 256 scaled entries) and base_dist map every distance to its code. |
| MatchCodes.DCode | deps/zlib/deflate.h:305-306 | d_code finds the code of every distance below 32768 in the 512-entry table. |
| MatchCodes.LengthRoundTrip | deps/zlib/trees.c:1076-1083 | Code, base and extra bits of the encoder give back each of the 256 lengths under the decoder's tables. |
| MatchCodes.DistRoundTrip | deps/zlib/trees.c:1084-1093 | The same for each of the 32768 distances. |
| CodeLengthCoding.SendTree | deps/zlib/trees.c:750-795 | The loop emits exactly the run-length symbols of the specification Encode. |
| CodeLengthCoding.ScanTree | deps/zlib/trees.c:705-744 | bl_tree frequencies rise by exactly the number of times each symbol is sent. |
| LongestRuns.SendsLongest | deps/zlib/trees.c:705-795 | Both loops use the longest runs there are: up to 138 zeros, up to six copies of the length before, single lengths only where a run is shorter than three. |
| CodeLengthCoding.RoundTrip | deps/zlib/trees.c:750-795 | Decoding the symbols by the CODELENS rules gives the length vector back; repeat counts fit their 2-, 3- or 7-bit fields and no repeat-previous comes first. |
| CodeLengthCoding.RoundTripTwo | deps/zlib/inflate.c:935-981 | The two trees sent one after the other decode to the concatenation of the two vectors. |
| BitWriter.Writer.SendBits | deps/zlib/trees.c:188-225 | The bits sent so far are followed by exactly the value's bits, across the 16-bit buffer boundary. |
| BitWriter.Writer.Flush | deps/zlib/trees.c:1167-1179 | Nothing is lost and fewer than 8 bits stay in the buffer. |
| BitWriter.Writer.Windup | deps/zlib/trees.c:1184-1197 | Fewer than 8 padding bits are added and the output is whole bytes. |
| BitWriter.Writer.CopyBlock | deps/zlib/trees.c:1203-1224 | Padding, LEN, its complement and the bytes, in this order. |
| InflateTable.CheckLengths | deps/zlib/inftrees.c:130-138 | left becomes negative exactly for over-subscribed lengths and is otherwise what is missing from a complete code. |
| InflateTable.SortSymbols | deps/zlib/inftrees.c:140-147 | work lists the symbols by length, then by symbol, each once. |
| InflateTable.BackwardIncrement | deps/zlib/inftrees.c:241-250 | The loop computes the increment that carries from the top bit downwards; NextHuff says what it means for the code. |
| InflateTable.NextHuff | deps/zlib/inftrees.c:241-256 | The increment leads from each symbol's reversed code to the next one's, and from the last code of a complete set to zero. |
| InflateTable.SubtableBits | deps/zlib/inftrees.c:268-276 | The loop over count[] finds the length of the longest code that shares the root entry. |
| InflateTable.Replicate | deps/zlib/inftrees.c:232-239 | Exactly the indices whose low bits equal the code are filled. |
| InflateTable.EnterSymbol | deps/zlib/inftrees.c:216-239 | One more symbol is resolved by the table, all earlier ones still are, and nothing outside the current table is written. |
| InflateTable.OpenSubtable | deps/zlib/inftrees.c:259-289 | A new sub-table is linked from its root entry without disturbing earlier entries; it is refused exactly when the size reaches the limit. |
| InflateTable.FillTables | deps/zlib/inftrees.c:215-290 | After the loop every symbol of the code resolves to its entry, or the routine reports that the space does not suffice, exactly when the total size reaches the limit. |
| InflateTable.InflateTable | deps/zlib/inftrees.c:106-306 | Return codes exactly; on 0, looking up any bits that start with the code of s yields the entry of s and drops lens[s] bits, bits that start with no code reach the invalid-code entry, and no entry outside the counted ones is written. |
| InflateTable.AcceptedFacts | deps/zlib/inftrees.c:132-138 | Which length vectors pass: complete ones, and single one-bit codes for lengths and distances. |
| InflateTable.FitsFacts | deps/zlib/inftrees.c:211-213 | Refusal for space depends only on the lengths: the total of all tables against the limit. |
| Enough.RefusedAtTheLimit | deps/zlib/inftrees.c:278-282 | For each of the two limits a complete code within 15 bits, of all 286 or all 30 symbols, that needs exactly ENOUGH_LENS or ENOUGH_DISTS entries and is refused by the `>=` test. |
| Enough.SizeIs | deps/zlib/inftrees.c:259-289 | The exact number of entries after each symbol of these two codes. |
| Enough.BlockRefused | deps/zlib/inflate.c:935-1018 | Whatever its literals and pairs, a dynamic block of the format with these trees ends in the error of CODELENS. |
| Rfc1951.Linear | deps/zlib/inflate.c:604-1251 | The reference machine is deterministic: all runs from one configuration lie on one line. |
| Rfc1951.DecodeUnique | deps/zlib/inflate.c:1030-1048 | At most one symbol starts a bit string. |
| Rfc1951.OutputGrows | deps/zlib/inflate.c:604-1251 | Bytes once written never change. |
| Lz77.CopyIsText | deps/zlib/inflate.c:1155-1166 | Copying byte by byte from an overlapping distance continues the text. |
| Block.BodyBack | deps/zlib/trees.c:1058-1103 | The symbols of compress_block are read back as the same literals and pairs, then end-of-block. |
| Block.HeaderBack | deps/zlib/trees.c:836-860 | Everything send_all_trees sends is read back by TABLE, LENLENS and CODELENS; it ends in the two trees if their tables fit, else in an error. The order of the code length code is that of the format (FormatFacts.SentInOrder). |
| Block.DynamicRoundTrip | deps/zlib/inflate.c:896-1121 | A dynamic block expands to its tokens and consumes exactly its bits when the tables are built, and fails otherwise. |
| Block.FixedRoundTrip | deps/zlib/inflate.c:842-851 | The same for fixed blocks, without condition. |
| Block.StoredRoundTrip | deps/zlib/inflate.c:863-895 | A stored block gives its bytes back. |
| Block.FixedComplete | deps/zlib/trees.c:290-307 | The fixed codes are complete. |
| FormatFacts.OrderByDistance | deps/zlib/inflate.c:624-625 | The order of the code length code: 16, 17, 18, 0, and then the lengths by their distance from 8, the lower one first. |
| FormatFacts.SentInOrder | deps/zlib/inflate.c:914-922 | The length sent i-th is that of the i-th symbol of this order; symbols not reached have none. |
| FormatFacts.FixedCodesListed | deps/zlib/trees.c:290-307 | The fixed codes are those section 3.2.6 of RFC 1951 lists: 00110000 to 10111111, 110010000 to 111111111, 0000000 to 0010111 and 11000000 to 11000111, and the number itself in five bits for distances. |
| FormatFacts.LengthTable | deps/zlib/inftrees.c:60-66 | Bases and extra bits of the length codes: from the ninth on the extra bits grow by one with every four codes and each base follows where the code before ends; 258 has its own code. |
| FormatFacts.DistanceTable | deps/zlib/inftrees.c:67-75 | The same for distances, growing with every two codes. |
| FormatFacts.RunsRead | deps/zlib/inflate.c:947-975 | Symbols 16, 17 and 18 stand for 3 to 6, 3 to 10 and 11 to 138 lengths, the extra bits all zero for the first and all one for the last. |
| SendBlock.CompressBlock | deps/zlib/trees.c:1058-1103 | The loop over the symbol buffers sends the bits of the tokens and end-of-block. |
| SendBlock.SendAllTrees | deps/zlib/trees.c:836-860 | Counts, code length code in bl_order (FormatFacts.OrderByDistance) and both run-length coded trees go out as the header the decoder reads. |
| Lookup.Found | deps/zlib/inflate.c:1030-1047 | When the table entry found needs no more bits than are held, it is the symbol the code defines, whatever follows. |
| Lookup.NotFound | deps/zlib/inflate.c:1030-1044 | When it needs more, no symbol can be told from the bits held. |
| Window.SlidingWindow.Update | deps/zlib/inflate.c:378-426 | The circular window holds exactly the last min(total, wsize) bytes of all output; whave is wsize or wnext is whave. |
| Window.CutIndependent | deps/zlib/inflate.c:1124-1132 | The test MATCH and the fast loop make on a distance gives the same verdict for all cuts of the output exactly when the distance is at most the window size. |
| BitReader.Reader.NeedBits | deps/zlib/inflate.c:498-502 | Bits are pulled without losing the position; it fails exactly when the input ends before. |
| BitReader.Reader.Accumulator | deps/zlib/inflate.c:488-502 | The accumulator never needs more than 32 bits, and what it holds is below 2 to the number of bits held. |
| BitReader.Reader.Take | deps/zlib/inflate.c:505-513 | BITS and DROPBITS read the next field of the stream. |
| BitReader.Reader.ByteBits | deps/zlib/inflate.c:516-520 | The bits up to the byte boundary are skipped. |
| BitReader.Reader.Find | deps/zlib/inflate.c:1030-1047 | The two-level lookup with PULLBYTE in between gives a symbol or runs out of input. |
| BitReader.Reader.TakeExtra | deps/zlib/inflate.c:1069-1078 | The extra bits, if any, are the next field of the stream; without enough input nothing is consumed. |
| BitReader.Reader.GiveBack | deps/zlib/inffast.c:309-313 | Unused whole bytes go back to the input; fewer than 8 bits stay. |
| InflateModes.Inflater.DoType | deps/zlib/inflate.c:825-862 | One step of the reference machine per block type, or starvation with nothing lost. |
| InflateModes.Inflater.DoStored | deps/zlib/inflate.c:863-878 | Byte alignment; LEN accepted exactly when NLEN is its complement. |
| InflateModes.Inflater.DoCopy | deps/zlib/inflate.c:879-895 | As many bytes as input and space allow are copied; what remains is still to copy. |
| InflateModes.Inflater.DoTable | deps/zlib/inflate.c:896-913 | The three counts, refused above 286 length or 30 distance codes. |
| InflateModes.Inflater.DoLenLens | deps/zlib/inflate.c:914-934 | The code length code in the transmitted order (FormatFacts.SentInOrder), its table, or the error when inflate_table refuses it. |
| InflateModes.Inflater.DoCodeLens | deps/zlib/inflate.c:935-1018 | All code lengths with their repeats, then both tables; every error is the reference machine's error. |
| InflateModes.Inflater.DoLen | deps/zlib/inflate.c:1020-1068 | One literal/length symbol: the mode, length and extra bits the format assigns to it, or the reference machine's error; starved without loss. |
| InflateModes.Inflater.DoLenExt | deps/zlib/inflate.c:1069-1078 | The length with its extra bits. |
| InflateModes.Inflater.DoDist | deps/zlib/inflate.c:1079-1105 | One distance symbol: base and extra bits, or the error for codes 30 and 31 and for unused codes. |
| InflateModes.Inflater.DoDistExt | deps/zlib/inflate.c:1106-1121 | The distance with its extra bits. |
| InflateModes.Inflater.DoMatch | deps/zlib/inflate.c:1122-1166 | Copying from window or output is the reference machine's match, cut wherever the space ends. |
| InflateModes.Inflater.DoLit | deps/zlib/inflate.c:1167-1172 | One literal is written when there is space; otherwise nothing changes. |
| InflateFast.FastCopy | deps/zlib/inffast.c:187-281 | All the copy loops, with window wrap-around and the unrolled direct copy, equal the byte-by-byte copy. |
| InflateFast.FastSymbol | deps/zlib/inffast.c:120-306 | One round of the loop is a run of the reference machine, takes at most 6 input bytes and writes at most 258 output bytes. |
| InflateFast.InflateFast | deps/zlib/inffast.c:67-324 | The fast loop follows the reference machine, never passes either buffer end, and leaves with fewer than 8 bits held. |
| InflateCall.BuildFixed | deps/zlib/inflate.c:260-301 | The fixed tables decode the fixed codes. |
| InflateCall.Round | deps/zlib/inflate.c:637-1221 | Each round of the switch either advances the reference machine and a measure, or stops where nothing can be done. |
| InflateCall.Inflate | deps/zlib/inflate.c:604-1251 | A call follows the reference machine, stops only at the end, an error, missing input or missing space, and returns Z_STREAM_END, Z_DATA_ERROR or Z_BUF_ERROR exactly then. |
| InflateCuts.StepBeyond | deps/zlib/inflate.c:488-502 | A step not possible with a prefix of the input would go beyond that prefix, or is an error. |
| InflateCuts.OneEnd | deps/zlib/inflate.c:604-1251 | Two runs stopped by the same limits have written the same bytes and end together. |
| InflateCuts.SameBytes | deps/zlib/inflate.c:604-1251 | Two decoders offered the same input and space in any pieces have delivered the same bytes, both or neither at the end, with the same total_in there. |
| InflateCuts.Delivers | deps/zlib/inflate.c:604-1251 | A decoder offered all of a well-formed stream has delivered what the stream stands for. |
| InflateCuts.Feed | deps/zlib/inflate.c:604-1251 | Any sequence of calls stays on the one run of the reference machine. |
| InflateCuts.TwoWays | deps/zlib/inflate.c:604-1251 | Cut independence as two sequences of calls on one stream. |
| NodeHeap.PqDownHeap | deps/zlib/trees.c:453-476 | The hole moves down until the heap property holds again; the same nodes stay in the heap. |
| NodeHeap.TopIsLeast | deps/zlib/trees.c:439-453 | The top of the heap is least by frequency, then depth. |
| BuildTree.PqRemove | deps/zlib/trees.c:432-437 | The node taken off is first among all by frequency and then by depth, and the rest is again a heap of the same nodes. |
| BuildTree.Collect | deps/zlib/trees.c:632-641 | The heap holds exactly the symbols of non-zero frequency. |
| BuildTree.ForceTwo | deps/zlib/trees.c:643-655 | At least two codes, forced symbols of frequency one, with opt_len and static_len adjusted by exactly their cost. |
| BuildTree.Heapify | deps/zlib/trees.c:657-660 | The heap property holds for every node, over the same nodes. |
| BuildTree.JoinTwo | deps/zlib/trees.c:666-688 | The two nodes that come first by frequency and then by depth get a new father whose frequency is their sum and whose depth is one more than the greater of theirs; depth stays the height of every subtree, never above 22, and the forest invariant is kept. |
| TreeHeights.JoinHeights | deps/zlib/trees.c:675-680 | A join keeps depth the height of every subtree, a leaf having none; a subtree of height h has at least the (h+2)-nd Fibonacci number as frequency, so the byte never wraps. |
| TreeHeights.JoinIsLowest | deps/zlib/trees.c:443-445 | Joining the two nodes that come first by frequency and depth does not change the height the tree will have. |
| TreeForest.Join | deps/zlib/trees.c:666-688 | Every node is listed or live, once; the list is by non-increasing frequency; fathers come after their sons are taken; each father has two sons. |
| TreeForest.ForestListed | deps/zlib/trees.c:666-695 | The finished list names all 2n-1 nodes once, each father before its sons. |
| TreeWeights.JoinIsHuffman | deps/zlib/trees.c:666-688 | One join is one step of Huffman's algorithm on the multiset of weights. |
| HuffmanCost.LowerBound | deps/zlib/trees.c:609-617 | No lengths that satisfy the Kraft inequality cost less than Huffman's algorithm. |
| LowestTree.LowestHeight | deps/zlib/trees.c:439-445 | Of all lengths of the least cost, none keeps all leaves above the height the algorithm ends with when ties go to the lower subtree. |
| TreePaths.PathLength | deps/zlib/trees.c:510-517 | The weighted depth of all leaves is the sum of all joined frequencies. |
| TreePaths.Optimal | deps/zlib/trees.c:617-699 | The depths of the tree cost no more than any other prefix code's lengths. |
| MakeTree.GrownOptimal | deps/zlib/trees.c:617-699 | The tree build_tree grows has minimal weighted length for its frequencies. |
| MakeTree.GrownLowest | deps/zlib/trees.c:439-441 | Of all codes as cheap as the tree build_tree grows none has a shorter longest code: the worst case is minimal. |
| Dyadic.Unique | deps/zlib/trees.c:609-617 | When the frequencies are the powers of two of a complete code, only that code has minimal cost. |
| Dyadic.DepthsComplete | deps/zlib/trees.c:510-517 | The depths of the leaves of a grown tree have Kraft sum exactly one. |
| Dyadic.TreeAsked | deps/zlib/trees.c:617-699 | For such frequencies the tree has the depths they ask for, whatever the order of equal ones. |
| MakeTree.GrowTree | deps/zlib/trees.c:662-690 | The list ends with all 2n-1 nodes, each once, fathers first, by non-increasing frequency; the frequencies joined add up to the total of Huffman's algorithm. |
| MakeTree.Build | deps/zlib/trees.c:617-699 | Lengths complete and within max_length, canonical codes, max_code, and opt_len and static_len raised by exactly the cost of the symbols, forced ones included; the lengths are the depths of the tree while these respect the limit, and otherwise shortened as gen_bitlen does. |
| LengthCounts.Spread | deps/zlib/trees.c:533-544 | The overflow loop ends with the Kraft sum exact and as many leaves as before; in each step the leaf moved down is one of the greatest length below max_length that has any, so lengths shorter than the first that loses a leaf keep their counts, and those between it and the limit are left with at most two leaves. |
| LengthCounts.SomeShorter | deps/zlib/trees.c:541-542 | There is always a shorter leaf to move down: at most 2^max_length leaves whose Kraft sum exceeds one do not all have max_length bits. |
| LengthCounts.LoweredUnique | deps/zlib/trees.c:533-544 | The counts after the overflow loop are determined by those before it: there is one way to lower the deepest leaves to a Kraft sum of one. |
| BitLengths.FirstPass | deps/zlib/trees.c:505-527 | Every father's length is read after it was written; clamped nodes number twice the Kraft excess. |
| BitLengths.Reassign | deps/zlib/trees.c:546-564 | Lengths are dealt out again by decreasing frequency, and opt_len follows exactly. |
| BitLengths.GenBitlen | deps/zlib/trees.c:488-565 | All lengths are at most max_length with Kraft sum exactly one, opt_len counts them, and unlimited depths are kept when nothing overflows; when something does, the counts of the depths clamped to the limit are lowered from the deepest leaves on, the lengths are dealt out along the list, and leaves less deep than the first length that lost one keep their depth exactly when the list has them in order. |
| BitLengths.KeepsIsInOrder | deps/zlib/trees.c:546-564 | Leaves less deep than the first length that lost one keep their depth exactly when no such leaf stands behind a deeper one on the list. |
| LimitTies.TiedList | deps/zlib/trees.c:546-564 | A list in order of frequency, every father before its sons, on which with max_length 4 not all of them do. |
| BitLengths.LimitedComplete | deps/zlib/trees.c:488-565 | The lengths form a complete code. |
| TreeCost.ListCost | deps/zlib/trees.c:519-526 | The cost summed over the node list is the cost summed over the symbols. |
| BlockCost.BodyCost | deps/zlib/trees.c:974-988 | The symbols of a block take exactly the sum of frequency times (length plus extra bits). |
| BlockCost.HeaderCost | deps/zlib/trees.c:812-824 | The header takes exactly the bits build_bl_tree adds to opt_len. |
| FlushBlock.InitBlock | deps/zlib/trees.c:409-422 | All frequencies zero but end-of-block. |
| FlushBlock.Tally | deps/zlib/trees.c:1008-1053 | One more symbol in the buffers with its codes counted; the return value says when the buffer is full. |
| FlushBlock.MakeCodes | deps/zlib/trees.c:617-699 | Every symbol that occurs gets a code, at exactly the predicted cost; frequencies that are powers of two of a complete code get that code. |
| FlushBlock.BuildBlTree | deps/zlib/trees.c:801-829 | The code length code, the last index needed in bl_order, and the header's exact cost. |
| FlushBlock.MakePlan | deps/zlib/trees.c:917-942 | opt_len + 3 and static_len + 3 are the exact sizes of the dynamic and the static block. |
| FlushBlock.SendStored | deps/zlib/trees.c:865-877 | Type bits, padding to the byte boundary, lengths and bytes. |
| FlushBlock.SendAlign | deps/zlib/trees.c:892-901 | _tr_align sends an empty fixed block and leaves fewer than 8 bits in the buffer. |
| FormatFacts.AlignMarkBits | deps/zlib/trees.c:892-901 | The empty block of _tr_align is ten bits, all zero but the one that says fixed. |
| FormatFacts.SyncMarkBits | deps/zlib/trees.c:865-877 | The empty stored block is three zero bits, padding, and the octets 00 00 ff ff. |
| FlushBlock.SmallestForm | deps/zlib/trees.c:941-983 | The form chosen is the smallest in bytes: stored exactly when its bytes and four more take no more than either other form, dynamic only where that is smaller than fixed. |
| FlushBlock.FlushBlock | deps/zlib/trees.c:907-1002 | The block goes out in the form chosen by the predicted byte counts, at level 0 stored while its bytes are there; its bits are exactly those of that form; a last block ends on a byte boundary; counters are reset. |
| RollingHash.ThreeForget | deps/zlib/deflate.c:161-167 | The hash of a string depends on its last three bytes only. |
| RollingHash.ThirdByte | deps/zlib/deflate.c:1245-1252 | Equal hashes and two equal bytes imply an equal third byte, when the hash is at least 8 bits wide and shifts out after three steps. |
| HashChains.ChainsInsert | deps/zlib/deflate.c:181-189 | INSERT_STRING keeps the chain invariant: every entry names a string of its bucket, heads are the newest, and no string of the bucket lies between two that are linked. |
| HashChains.ChainsSlid | deps/zlib/deflate.c:1424-1447 | A slide keeps it: every surviving link names the same bytes wsize lower, and none is skipped. |
| HashChains.ChainStep | deps/zlib/deflate.c:1282-1283 | Following a link within the distance limit reaches the next earlier string of the same bucket. |
| MatchFinder.Finder.InsertString | deps/zlib/deflate.c:181-189 | The string enters its chain, and the old head is the newest string with the same hash. |
| MatchFinder.Finder.Compare | deps/zlib/deflate.c:1245-1266 | The match length found is a real repetition, and the longest up to MAX_MATCH. |
| MatchFinder.Finder.LongestMatch | deps/zlib/deflate.c:1146-1287 | The strings visited are the newest of the bucket, ended by max_chain (a quarter of it from good_match on), by the limit with none in reach left out, or by the first match of nice length; a length above the previous best comes with the nearest match_start whose bytes really repeat so long, within the lookahead and the distance limit; none of the strings visited agrees longer. |
| MatchChoice.LongestFound | deps/zlib/deflate.c:1146-1287 | What the search in the window returns, in terms of the text alone: which earlier strings were compared, and the nearest longest repetition among them. |
| MatchChoice.NotMissed | deps/zlib/deflate.c:1137-1287 | A string inserted and in reach that repeats k bytes is not missed: what is found is as long, unless the search was cut short by the chain limit or by a match of nice length. |
| MatchFinder.Finder.Slide | deps/zlib/deflate.c:1417-1449 | The upper half moves down with head and prev, keeping history and chains. |
| MatchFinder.Finder.ReadBuf | deps/zlib/deflate.c:1074-1099 | Up to size bytes of the input are appended to the text. |
| MatchFinder.Finder.FillWindow | deps/zlib/deflate.c:1388-1530 | It slides exactly when strstart has reached the limit, reads until the window is full or the input used up, ends with strstart <= window_size - MIN_LOOKAHEAD and with enough lookahead or no input; text grows by what was read, and no string in the window is dropped or left out. |
| MatchFinder.Finder.Forget | deps/zlib/deflate.c:929-936 | After CLEAR_HASH and the reset of a full flush no string is on a chain and strstart is 0; history and position are kept. |
| Deflate.Deflater.FlushBlockOnly | deps/zlib/deflate.c:1536-1545 | The block gets its symbols and, while they are in the window, exactly the bytes the symbols stand for. |
| Deflate.Deflater.PutMark | deps/zlib/deflate.c:921-926 | The empty block of a flush, aligned or stored, is the last one and stands where the text ends; the symbols still cover the text. |
| Deflate.Deflater.PutFullMark | deps/zlib/deflate.c:924-938 | A full flush: the empty stored block, no string on a chain, and from then on nothing reaches back before this place. |
| Deflate.Deflater.DeflateHuff | deps/zlib/deflate.c:1932-1965 | All symbols are literals, and expanding them gives exactly the input consumed. |
| Deflate.Deflater.DeflateRle | deps/zlib/deflate.c:1859-1926 | The same with runs of distance one; without flushes in between the symbols are the one sequence of longest runs the text has, in full blocks. |
| RunCoding.Determined | deps/zlib/deflate.c:1880-1913 | A text has only one sequence of literals and longest runs, so the output of deflate_rle does not depend on how the input is cut. |
| RunCoding.RunsOn | deps/zlib/deflate.c:1872-1878 | A symbol chosen with more than MAX_MATCH bytes of lookahead stays right whatever follows. |
| RunCoding.NeatRuns | deps/zlib/deflate.c:1880-1913 | Symbols whose runs stand between a literal and a different one are those deflate_rle chooses for their text. |
| Deflate.Deflater.DeflateFast | deps/zlib/deflate.c:1626-1720 | The symbols expand to the input consumed and are those of a log: at every position a search among all strings inserted and in reach, and the match it finds, as long as it is, taken at once; looking at less than MIN_LOOKAHEAD bytes only at the end of the input of a call that flushes. |
| Deflate.Deflater.DeflateSlow | deps/zlib/deflate.c:1728-1851 | The symbols expand to the input consumed, the byte before strstart possibly still open, and are those of a log: at every position a search among all strings of the text in reach, for more than the pending match; the pending match goes out when it is not beaten, and otherwise the open byte. |
| MatchChoice.LazyRule | deps/zlib/deflate.c:1723-1727 | Of the symbols of deflate_slow, every pair is the match found at its position and not beaten at the next one, and every literal stands where no match of three bytes was found or the next position had a longer one. |
| MatchChoice.LazyMore | deps/zlib/deflate.c:1728-1851 | The choices made do not depend on text that comes later. |
| BlockStream.BlockBack | deps/zlib/inflate.c:825-1172 | One block in whichever form is read back, or fails exactly when its tables do not fit. |
| BlockStream.StreamBack | deps/zlib/inflate.c:825-1172 | Any number of blocks is read back as the text of all their symbols, or the machine fails exactly when some table does not fit. |
| BlockStream.StreamEnd | deps/zlib/inflate.c:825-832 | A finished stream leads to the end at the next byte boundary. |
| Compress.StaticInit | deps/zlib/trees.c:234-314 | The generated tables and static trees are those of the format. |
| Compress.Encoder.Send | deps/zlib/trees.c:907-1002 | A block of any symbols in range through the back end, in the form its exact sizes select; or the empty block of a flush. |
| Compress.SendAll | deps/zlib/trees.c:907-1002 | The bytes of a finished list of blocks are the bits of the blocks, one after another, and at most 7 padding bits; each block has the form its exact sizes select. |
| RoundTrip.Call | deps/zlib/deflate.c:880-943 | A piece of the input with any flush parameter, the call repeated for as long as the output is full: the text grows by the piece; with Z_PARTIAL_FLUSH, Z_SYNC_FLUSH and Z_FULL_FLUSH the last block is the mark asked for, at the end of the text, and with the other parameters none is added; after Z_FULL_FLUSH no string is on a chain; a block that is not full ends only where a call flushes; with Z_FINISH the blocks stand for all of the text. |
| RoundTrip.Strategize | deps/zlib/deflate.c:897-903 | Whichever strategy runs, it stops for lack of input, for lack of output space having made progress, or at the end. |
| RoundTrip.Flushed | deps/zlib/deflate.c:921-938 | Z_PARTIAL_FLUSH adds the empty block of _tr_align, Z_SYNC_FLUSH and Z_FULL_FLUSH an empty stored one, Z_BLOCK none; after Z_FULL_FLUSH no string is on a chain and matches may reach back to the end of the text only. |
| RoundTrip.Deflated | deps/zlib/deflate.c:663-974 | For every input in any pieces with any flushes, every strategy and tuning, and output space running out after any blocks and calls, the bytes produced encode the input in blocks of the forms their exact sizes select; the marks are those of the flushing calls in order, each where its text ends, repeated calls with nothing new left out; no symbol after a full flush reaches back before it; other blocks are full or end where a call flushes; the symbols are those the strategy chooses. |
| FlushPoints.MarkOfCall | deps/zlib/deflate.c:921-938 | Every call with a flush that is heard has its mark among the blocks, and the text before the mark is what was passed up to that call. |
| FlushPoints.MarkBytes | deps/zlib/trees.c:865-901 | When the mark has been sent the bytes that are complete reach into it; with Z_SYNC_FLUSH and Z_FULL_FLUSH they are all of the bits. |
| FlushPoints.AtMark | deps/zlib/deflate.c:921-938 | A decoder offered bytes that end inside the mark has delivered exactly the text before it. |
| FlushPoints.Flushing | deps/zlib/deflate.c:921-938 | inflate, given in any cuts what deflate has sent when a flush is complete, returns exactly the text up to the flush. |
| FlushPoints.AfterFullFlush | deps/zlib/deflate.c:927-938 | After a full flush the rest of the bytes is the encoding of the rest of the text. |
| FlushPoints.Resuming | deps/zlib/deflate.c:927-938 | A new decoder that starts there returns the rest of the text, exactly when every dynamic block of the rest has tables that fit. |
| RoundTrip.Restored | deps/zlib/inflate.c:604-1251 | A decoder offered those bytes reaches the end exactly when every dynamic block's tables fit, and has then delivered the text and taken all bytes. |
| RoundTrip.Inflated | deps/zlib/inflate.c:604-1251 | inflate undoes deflate for all inputs and all cuts of input and output, exactly when every dynamic block's tables fit. |
| LimitBlock.LimitRefused | deps/zlib/trees.c:907-1002 | Symbols with the frequencies of the code at ENOUGH_LENS: build_tree chooses that code, _tr_flush_block sends the block with it, and the decoder refuses it. |
| LimitBlock.LimitTree | deps/zlib/trees.c:617-699 | The literal/length tree built for such symbols is that code. |
| LimitText.IsAtLimit | deps/zlib/trees.c:1008-1053 | 32767 symbols, as many as the buffer of memLevel 9 takes, with exactly these frequencies. |
| LimitText.FirstBlock | deps/zlib/deflate.c:1859-1926 | deflate_rle makes these symbols of the text they stand for, all in its first block, however the text is cut. |
| LimitText.Refused | deps/zlib/inftrees.c:278-282 | The stream of that text has a dynamic block whose table does not fit. |
| LimitText.NotRestored | deps/zlib/deflate.c:663-974 | What deflate makes of that text with Z_RLE and memLevel 9, in any pieces, inflate does not restore, in any pieces. |
| CrcRegister.ZerosLinear | deps/zlib/crc32.c:64-89 | The shift register is linear over GF(2). |
| CrcRegister.RegisterWord | deps/zlib/crc32.c:64-89 | Feeding up to 32 bits one by one equals adding them as a number and letting the register run. |
| CrcRegister.RegisterAffine | deps/zlib/crc32.c:355-408 | The data's contribution does not depend on the start value. |
| Crc32.MakePoly | deps/zlib/crc32.c:105-108 | Bit 31 - n is set exactly for the exponents n of the polynomial. |
| Crc32.MakeCrcTable | deps/zlib/crc32.c:105-129 | All eight tables: the CRC of a byte followed by zero to three zero bytes, and their byte reversals. |
| Crc32.FourTables | deps/zlib/crc32.c:241-243 | Four table entries give the register after 32 bits. |
| Crc32.Bytewise | deps/zlib/crc32.c:200-236 | The byte-wise loop equals the bit-serial CRC of section 8 of RFC 1952, whose values CrcValues fixes. |
| Crc32.Little | deps/zlib/crc32.c:240-278 | So does the little-endian word loop, for every length and alignment. |
| Crc32.Big | deps/zlib/crc32.c:280-320 | So does the big-endian loop on the byte-swapped register. |
| Crc32.Crc32 | deps/zlib/crc32.c:204-236 | Whichever loop is selected; a null buffer gives 0. The value for every buffer is tied down by CrcValues.Residue, CrcValues.OfZero and CrcValues.OfFigures. |
| CrcValues.Residue | deps/zlib/crc32.c:204-236 | A buffer followed by its own CRC, lowest octet first, has the CRC 0x2144df1c, for every buffer and start value. |
| CrcValues.OfZero | deps/zlib/crc32.c:204-236 | The CRC of the octet 0 is 0xd202ef8d. |
| CrcValues.OfFigures | deps/zlib/crc32.c:204-236 | The CRC of the figures 123456789 is 0xcbf43926. |
| CrcCombine.Times | deps/zlib/crc32.c:327-341 | The loop over the bits of vec gives the sum of the columns they select. |
| CrcCombine.Square | deps/zlib/crc32.c:344-352 | The operator of k zero bits becomes the operator of 2k. |
| CrcCombine.ApplyZeros | deps/zlib/crc32.c:369-403 | The squaring loop applies exactly len zero bytes. |
| CrcCombine.Combine | deps/zlib/crc32.c:355-408 | crc(A ++ B) from crc(A), crc(B) and the length of B, for all byte strings and start values. |
| Adler32.Mod28 | deps/zlib/adler32.c:29-39 | Without division, exactly the remainder mod 65521 on 28-bit values. |
| Adler32.Mod | deps/zlib/adler32.c:40-44 | The same on 32-bit values. |
| Adler32.Mod63 | deps/zlib/adler32.c:45-57 | The same on 63-bit values. |
| Adler32.NmaxIsLargest | deps/zlib/adler32.c:15-16 | NMAX is the largest number of bytes whose sums fit 32 bits. |
| Adler32.AddBytes | deps/zlib/adler32.c:104-127 | The sums without reduction stand for the definition's sums and stay below 2^32. |
| Adler32.Adler32 | deps/zlib/adler32.c:65-133 | adler32 equals the per-byte definition of section 8.2 of RFC 1950 for every length and every checksum; for a start value with halves not below 65521 it continues from the halves reduced, except that a single byte whose sum is not reduced by one subtraction leaves 65521 too much in the second half, exactly then. |
| Adler32.HalfTooLarge | deps/zlib/adler32.c:78-84 | From 0xfffffff0 the single byte 0 leads to 0xfffefff0, whose second half is not below 65521. |
| Adler32.Combine | deps/zlib/adler32.c:136-162 | The checksum of a concatenation from the two checksums and the length, for every start value; 0xffffffff for a negative length. |
| Utf8.ValidateNext | deps/utf8cpp/utf8/core.h:222-272 | Result, iterator and code point of the scan; nothing changed on failure. |
| Utf8.ScanExact | deps/utf8cpp/utf8/core.h:98-272 | Accepted are exactly the sequences of section 4 of RFC 3629, taken whole, with the code point they spell. |
| Utf8.ScanEncoded | deps/utf8cpp/utf8/checked.h:72-96 | Reading what append wrote gives the code point back. |
| Utf8.EncodeAllInjective | deps/utf8cpp/utf8/checked.h:248-264 | The octets of a text determine its code points. |
| Utf8.FindInvalid | deps/utf8cpp/utf8/core.h:287-303 | The longest prefix that is a text; everything exactly when the octets are one. |
| Utf8Checked.Append | deps/utf8cpp/utf8/checked.h:72-96 | The octets of a valid code point, nothing and an exception for any other number. |
| Utf8Checked.Next | deps/utf8cpp/utf8/checked.h:136-154 | Value, position and exception of next. |
| Utf8Checked.Prior | deps/utf8cpp/utf8/checked.h:162-175 | prior undoes every successful next; a successful prior lands where it started exactly when the octets it passed are the length of the sequence it found; otherwise exactly which exception. |
| Utf8Checked.PriorPassesOver | deps/utf8cpp/utf8/checked.h:162-175 | On 0x41 0x80 prior returns to 0 without an exception, although next from there ends at 1. |
| Utf8Checked.NumberLost | deps/utf8cpp/utf8/checked.h:150-151 | Whenever next finds an invalid code point, the exception carries 0 and not the number spelled. |
| Utf8Checked.SurrogateReported | deps/utf8cpp/utf8/checked.h:136-154 | The surrogate spelled 0xed 0xa0 0x80 is reported as the code point 0. |
| Utf8Checked.ReplaceInvalid | deps/utf8cpp/utf8/checked.h:98-127 | With a valid replacement the output is determined octet by octet: octets of well-formed sequences are kept, an ill-formed sequence becomes one mark, every stray octet a mark of its own, and a sequence cut off by the end nothing; the output is a text, a text is unchanged, and it throws exactly when there is a cut sequence. With an invalid replacement it stops at the first octet to be replaced, and which exception it throws. |
| Utf8Checked.MendedLength | deps/utf8cpp/utf8/checked.h:98-127 | The output has as many octets as are kept, and one mark for each octet that is marked. |
| Utf8Checked.Utf32To8 | deps/utf8cpp/utf8/checked.h:248-255 | All code points up to the first invalid one. |
| Utf8Checked.Utf8To32 | deps/utf8cpp/utf8/checked.h:257-264 | The code points that spell the text; throws exactly when the octets are no text. |
| Utf8Checked.Utf8To16 | deps/utf8cpp/utf8/checked.h:233-246 | The UTF-16 words of the code points that spell the text; throws exactly when the octets are no text. |
| Utf8Checked.PairOrder | deps/utf8cpp/utf8/checked.h:233-246 | The surrogate pairs come in the order of the code points, so they are those of section 2.1 of RFC 2781. |
| Utf8Checked.Utf16To8 | deps/utf8cpp/utf8/checked.h:206-231 | The octets of a UTF-16 text; throws exactly when the words are none. |
| Utf8Checked.From32 | deps/utf8cpp/utf8/checked.h:248-264 | utf8to32 undoes utf32to8. |
| Utf8Checked.To32 | deps/utf8cpp/utf8/checked.h:248-264 | utf32to8 undoes utf8to32. |
| Utf8Checked.From16 | deps/utf8cpp/utf8/checked.h:206-246 | utf8to16 undoes utf16to8. |
| Utf8Checked.To16 | deps/utf8cpp/utf8/checked.h:206-246 | utf16to8 undoes utf8to16. |
| Framing.HeaderBack | src/shared/DiscordPacketHeader.h:30-40 | Size and opcode written by the sender are read by the receiver: the size with its highest octet first, the opcode with its lowest first. |
| Framing.OnePacket | src/shared/DiscordPacketHeader.h:57-58 | A packet is delivered exactly when its opcode is below 8 and its payload at most 9997 octets. |
| Framing.PacketsBack | src/client/Client/ClientSocket.cpp:109-166 | Any packets are read back in order, up to the first out of range or not answered with Ok. |
| ClientSocket.Converted | src/client/Client/ClientSocket.cpp:172-174 | The conversions read network order and little-endian order on either machine. |
| ClientSocket.ClientSocket.ReadHeaderHandler | src/client/Client/ClientSocket.cpp:168-185 | The header is converted once, checked, and the payload buffer sized. |
| ClientSocket.ClientSocket.ReadHandler | src/client/Client/ClientSocket.cpp:109-166 | After any chunk the socket stands where the octets one by one lead. |
| ClientSocket.ClientSocket.SendPacket | src/client/Client/ClientSocket.cpp:240-275 | Header and payload are queued in one buffer, after an empty one when they exceed 4096 octets. |
| ClientSocket.Session | src/client/Client/ClientSocket.cpp:109-166 | What is delivered depends on the octets alone, not on the chunks. |
| ClientSocket.Converse | src/client/Client/ClientSocket.cpp:109-275 | Packets sent and cut into any chunks reach the handler as those packets, in order, up to the first that is refused or not answered with Ok. |
| RoundTrip.ThereAndBack | deps/zlib/deflate.c:663-974 | deflate then inflate as one statement over every input, every piece and flush, every strategy and every cut: the bytes encode the input with its marks and the symbols of the strategy, and it is restored exactly when every dynamic block in them has tables that fit; with Z_FIXED no condition remains. |
| MatchFinder.Finder.CatchUp | deps/zlib/deflate.c:1468-1487 | Exactly the strings left over from the last call are inserted, as far as their bytes are there. |
| MatchFinder.Finder.TryMatch | deps/zlib/deflate.c:1240-1266 | A candidate that passes the four comparisons agrees in the third byte, which is never compared. |
| Deflate.Deflater.RunLength | deps/zlib/deflate.c:1880-1898 | The run found repeats the byte before strstart and is the longest up to MAX_MATCH and the lookahead. |
| Deflate.Deflater.LazySearch | deps/zlib/deflate.c:1758-1784 | With a candidate in reach and a pending match below max_lazy the search is made and its longest match found; it counts unless it is at most five bytes long and filtered, or three bytes long and more than TOO_FAR away; without a candidate in reach no string inserted there has the same hash. |
| Deflate.Deflater.SlowStep | deps/zlib/deflate.c:1750-1835 | The pending match is emitted exactly when there is one of three bytes or more and the search found none longer, otherwise the open byte exactly when there is one, otherwise nothing; all bytes stay accounted for. |
| FlushBlock.SendDynamic | deps/zlib/trees.c:979-988 | Type bits, trees and symbols of a dynamic block. |
| FlushBlock.SendFixed | deps/zlib/trees.c:974-978 | Type bits and symbols of a fixed block. |
| CrcCombine.OneBit | deps/zlib/crc32.c:369-375 | The matrix of one zero bit: the polynomial and the units. |
| Utf8.EncodeWellFormed | deps/utf8cpp/utf8/checked.h:72-96 | What append writes is in the grammar. |
| ClientSocket.MessageBuffer.Write | src/common/Utilities/MessageBuffer.h:93-100 | The data follows what is in the buffer. |
| ClientSocket.MessageBuffer.Normalize | src/common/Utilities/MessageBuffer.h:68-82 | The unread bytes move to the front. |
| ClientSocket.ClientSocket.ReadDataHandler | src/client/Client/ClientSocket.cpp:187-192 | The packet takes opcode and payload and leaves an empty buffer. |

## Left out

- The zlib and gzip wrappers around the raw stream (HEAD to DICT, CHECK, LENGTH): DONE follows TYPE directly.
- deflate_stored (level 0 of deflate; _tr_flush_block has its level 0), Z_TREES, and the dictionary, prime, sync, copy, tune and parameter-change calls.
- avail_out on the deflate side is an arbitrary function of the number of blocks handed over, and at the end of a call part of its input; the bits of the blocks are put together after the strategies have returned, so the bytes still in pending_buf at each return are not modelled.
- The overlay of pending_buf with d_buf and l_buf: the symbol buffers are separate arrays.
- WIN_INIT zeroing and high_water (deps/zlib/deflate.c:1494-1526): the model's window is initialised when it is made.
- Allocation failure, and the lazy allocation of the inflate window: the window exists from the start and is 32K.
- detect_data_type, DEBUG counters, and the builds FASTEST, UNALIGNED_OK, ASMV, ASMINF, INFLATE_STRICT and the invalid-distance option.
- InflateModes.Inflater: the tables in use are kept as sequences beside the array inflate_table fills; the copy loops of a call append to a sequence for the output buffer instead of writing through next_out.
- MakeTree.Build: heap, depth and bl_count are passed in fresh for each tree rather than reused from the state; the Freq/Code and Dad/Len unions are two arrays each.
- Compress.StaticInit: the static distance tree has codes for all 32 five-bit patterns; the source stores the 30 that are used.
- LimitText.NotRestored: for ENOUGH_LENS; for ENOUGH_DISTS there is the code (Enough.RefusedAtTheLimit) and the block (Enough.BlockRefused), not a text.
- MatchFinder.Finder.Compare: one comparison per round; the source unrolls eight between its tests of strend, which MAX_MATCH - 2 being a multiple of eight makes equivalent.
- Adler32.AddBytes: one byte per round instead of sixteen.
- ClientSocket.ClientSocket: the handler is any function of the packets delivered so far; authentication, logging, locks, write completion and read errors are not modelled.
- Utf8Checked.Next: an iterator at the end of its range is excluded, since the source dereferences it.
- advance, distance, the iterator class, byte order marks and unchecked.h of utf8cpp: they would only add easy members.
- The rest of the repository (configuration, OpenSSL wrappers, fmt, exception reports, timers, sockets): no algorithm of its own.
