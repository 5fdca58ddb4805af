# Entropy coding and buffering of libjpeg-turbo, modelled and proved

This project models the parts of libjpeg-turbo 2.0.1 (`bootstrap/apps/external/libjpeg-turbo`) where compressed bits
are made and read, and the buffer controllers and small protocols around them, and proves that they do what
Recommendation ITU-T T.81 | ISO/IEC 10918-1 and the library's own comments promise.

* **Adaptive arithmetic coding** (`ProbabilityTable`, `IntervalCoder`, `ArithEncoder`, `ArithDecoder`,
  `ArithBinarise`, `ArithMcuEncoder`, `ArithMcuDecoder`, `ArithScan`, `ArithScanEncoder`, `ArithScanDecoder`,
  `ArithFormat`). The reference is the exact coding interval, an integer of unbounded length. The encoder's C register
  with its carry stack, pending zeros and buffer byte is proved to spell the interval's low end at every step; the
  decoder's offset register is proved to hold the distance of the code string from it. From this follow lockstep over
  any run, the shortest termination, and the round trip of whole scans with restarts.
* **Huffman tables** (`PrefixCode`, `CanonicalCode`, `DerivedTables`, `DecodingTables`, `EncodingTables`,
  `CodeLengths`, `SymbolMerging`, `MergedTrees`, `HuffmanLengths`, `KraftInequality`, `LengthLimit`, `SizedTables`,
  `OptimalTable`, `CountedSymbols`, `HuffmanFormat`). Canonical codes, the derived tables of both sides with the exact
  condition for accepting a specification, and table generation: sizes that are optimal among all prefix codes and
  attained by one, the exact condition for failing and how many symbols are safe, limiting to sixteen bits, and
  acceptance by the rest of the library.
* **Bit streams** (`CodeString`, `BitStream`, `Chunks`, `BitReader`, `CodedItems`). A source that may run dry at any
  byte, byte stuffing, markers, made-up zeros, and symbol decoding by lookahead or bit by bit.
* **Progressive AC refinement** (`PhuffWriter`, `RefineSpec`, `RefineEncoding`, `RefineEncoder`, `RefineDecoder`,
  `RefineResume`, `RefineRoundTrip`, `RefineSymbols`, `RefineScan`, `RefineFormat`): EOB runs, correction bits, ZRL
  folding, the two passes of the encoder, suspension with undo in the decoder, and the round trip under any chunking.
* **Progressive first AC pass** (`FirstPass`, `FirstPassEncoder`, `FirstPassDecoder`, `FirstPassScan`) and **whole
  scripts of AC scans** (`ProgressiveAc`): the point transform, EOB runs across blocks, two passes and chunking; and
  that the AC scans of any legal script, run through their bytes one on top of the other, convey each coefficient to
  the precision last sent.
* **Sequential Huffman coding** (`SequentialSpec`, `SequentialScan`, `SequentialWriter`, `SequentialEncoder`,
  `SequentialDecoder`, `FastDecoder`, `SequentialScanDecoder`, `SequentialRoundTrip`, `SequentialGather`,
  `SequentialSymbols`, `SequentialOptimal`, `SequentialFormat`): restart intervals, slow and fast decoding with
  fallback, input in chunks, and the statistics pass.
* **Row buffers** (`RowLists`, `ContextRows`, `ContextController`, `PrepRing`): the aliasing row lists of the
  decompressor's main controller and the compressor's ring, under any chunking by their callers.
* **Arithmetic and protocols** (`Arithmetic`, `Reciprocal`, `ScanScript`, `ScriptValidation`, `SimpleProgression`,
  `IccProfile`, `IccReader`).

Round trips alone would hold of any two coders that agree with each other. The `..Format` modules and the lemmas named
`..Law` fix the coded format itself, for either side alone and in plain numbers: the estimation table, bins and
contexts, the zigzag path, code assignment, symbols, value and sign bits, runs, markers, scripts and the counts of
generated tables.

Conventions. An error exit of the library is a `None` or a false result. The data source is a byte string that has
arrived and one still to arrive; the sink only grows. Bit operations are written as arithmetic (an `|` on disjoint
bits is a sum, `x >> n` a division rounding down). The statistics areas of the arithmetic coder lie behind one another
in one array. Register widths are modelled where they bound or wrap anything: 16-bit coefficients and predictions, the
32-bit bit buffers (`MIN_GET_BITS` 25), the 27-bit C register, 16- and 32-bit DCT elements, byte counts in ICC
markers.

Where the code falls short of its documentation: `jdmainct.c` promises a full row group of context with the last row
duplicated at the bottom, but the postponed row group before a last iMCU row with fewer rows than a row group is shown
padding rows; `ContextRows.FullContextIff` gives the exact condition, `ContextRows.SeventeenRows` an image that fails
it, and `ContextRows.Neighbours` what holds always.

## Model

| member | source | states |
|---|---|---|
| ProbabilityTable.JpegAritab | bootstrap/apps/external/libjpeg-turbo/jaricom.c:36-157 | Every state leads only to states of the table, and only 113 leads to itself for both decisions, with no switch |
| ProbabilityTable.TableWords | bootstrap/apps/external/libjpeg-turbo/jaricom.c:36-157 | All 114 entries, packed, are the words written out in hexadecimal |
| ProbabilityTable.SwitchLaw | bootstrap/apps/external/libjpeg-turbo/jaricom.c:36-157 | The sense flips just in the states whose less probable successor is the more probable one or the state itself |
| ProbabilityTable.MpsLaw | bootstrap/apps/external/libjpeg-turbo/jaricom.c:36-157 | Along more probable symbols Qe falls strictly, except in state 13 |
| ProbabilityTable.LpsLaw | bootstrap/apps/external/libjpeg-turbo/jaricom.c:36-157 | Along less probable symbols Qe never falls, except out of states 0, 14, 36 and 64 |
| ProbabilityTable.UnpackWord | bootstrap/apps/external/libjpeg-turbo/jaricom.c:32-33 | The byte fields the coders peel off the packed word are the switch and LPS index, the MPS index and Qe |
| IntervalCoder.FixedEstimate | bootstrap/apps/external/libjpeg-turbo/jaricom.c:147-156 | The fixed-estimate state 113 is absorbing and is reached from no other state |
| IntervalCoder.SplitValid | bootstrap/apps/external/libjpeg-turbo/jcarith.c:238-265 | The subinterval of either decision is not empty and lies inside the interval, and bins stay valid |
| IntervalCoder.RenormValid | bootstrap/apps/external/libjpeg-turbo/jcarith.c:267-317 | Renormalisation ends with 0x8000 <= A <= 0x10000 and an interval that still fits the code space |
| IntervalCoder.DecideIsUnique | bootstrap/apps/external/libjpeg-turbo/jdarith.c:124-186 | A code string lies in the interval after a decision exactly if it lay in the interval before and decoding takes that decision |
| IntervalCoder.Replay | bootstrap/apps/external/libjpeg-turbo/jdarith.c:115-191 | Any code string inside the final interval of a run makes the decoder take every decision of the run, in order |
| ArithFormat.SplitLaw | bootstrap/apps/external/libjpeg-turbo/jcarith.c:238-265 | The interval is split into A - Qe below and Qe above, Qe being the upper half of the packed word; the more probable symbol is below unless that part is the smaller one |
| ArithFormat.EstimateLaw | bootstrap/apps/external/libjpeg-turbo/jcarith.c:229-265 | The bin moves to the state and sense in the packed word: after a less probable symbol always, after a more probable one when the interval got below 0x8000 |
| ArithFormat.RenormLaw | bootstrap/apps/external/libjpeg-turbo/jcarith.c:267-317 | Renormalisation doubles low end and width together until the width is back at 0x8000 |
| ArithFormat.InsideLaw | bootstrap/apps/external/libjpeg-turbo/jdarith.c:124-160 | Whole bytes lie in an interval as their big-endian number does |
| ArithFormat.StartLaw | bootstrap/apps/external/libjpeg-turbo/jcarith.c:352-359 | At the start of a scan and behind each restart the interval is [0, 0x10000) |
| ArithFormat.FreshLaw | bootstrap/apps/external/libjpeg-turbo/jcarith.c:859-891 | A scan starts with every bin in state 0 but for the fixed bin in state 113 |
| ArithFormat.ClearLaw | bootstrap/apps/external/libjpeg-turbo/jcarith.c:337-350 | A restart zeroes the 64 DC and 256 AC bins of the scan's components and nothing else |
| ArithFormat.RestartLaw | bootstrap/apps/external/libjpeg-turbo/jcarith.c:694-703 | A restart comes before every MCU whose number is a positive multiple of the interval |
| ArithFormat.RestartPredictionLaw | bootstrap/apps/external/libjpeg-turbo/jcarith.c:340-346 | At the start and behind a restart predictions and contexts are zero |
| ArithFormat.FileLaw | bootstrap/apps/external/libjpeg-turbo/jcarith.c:331-335 | Segments are separated by FF and D0 to D7 in turn |
| ArithEncoder.NoEarlyCarry | bootstrap/apps/external/libjpeg-turbo/jcarith.c:271-289 | While only stacked FF bytes are pending the register cannot overflow, so no carry is lost |
| ArithEncoder.Encoder.CarryHasBuffer | bootstrap/apps/external/libjpeg-turbo/jcarith.c:274-284 | No overflow can happen before a byte sits in the buffer |
| ArithEncoder.Encoder.PlaceByte | bootstrap/apps/external/libjpeg-turbo/jcarith.c:272-312 | Pending zeros, buffer and stacked FFs with the register's top, carry included, denote the old number shifted by a byte |
| ArithEncoder.Encoder.CarryBuffer | bootstrap/apps/external/libjpeg-turbo/jcarith.c:275-285 | A carry adds one to the pending number, ends in the buffer byte, and turns stacked FFs into pending zeros |
| ArithEncoder.Encoder.ByteOut | bootstrap/apps/external/libjpeg-turbo/jcarith.c:271-315 | Byte output keeps output and registers spelling the exact low end of the interval, with C below 2^27 + 2^24 |
| ArithEncoder.Encoder.Renormalise | bootstrap/apps/external/libjpeg-turbo/jcarith.c:267-317 | Renormalisation with byte output realises the exact interval renormalisation |
| ArithEncoder.Encoder.ArithEncode | bootstrap/apps/external/libjpeg-turbo/jcarith.c:225-317 | Encoding one decision moves the exact coding interval, bins included, by exactly that decision |
| ArithEncoder.FinalPoint | bootstrap/apps/external/libjpeg-turbo/jcarith.c:144-151 | The value chosen at termination lies in the interval and ends in fifteen zero bits |
| ArithEncoder.RoundestExact | bootstrap/apps/external/libjpeg-turbo/jcarith.c:144-151 | It is also the value with the most trailing zeros in the exact interval, not just in the register |
| ArithEncoder.Encoder.FinishPass | bootstrap/apps/external/libjpeg-turbo/jcarith.c:139-198 | Termination writes stuffed data that lies in the final interval, does not end in a zero byte, and is no longer than any other string of bytes in that interval |
| ArithEncoder.Encoder.EmitFinalBytes | bootstrap/apps/external/libjpeg-turbo/jcarith.c:184-197 | Leaving out final zero bytes drops no nonzero bit |
| ArithEncoder.AllCodesAreLonger | bootstrap/apps/external/libjpeg-turbo/jcarith.c:217-221 | Data without a final zero byte whose value is the roundest in the interval are the shortest code for it |
| ArithDecoder.Decoder.NextData | bootstrap/apps/external/libjpeg-turbo/jdarith.c:127-157 | Data bytes come unstuffed, and zeros for ever once a marker was met |
| ArithDecoder.HoldsDecision | bootstrap/apps/external/libjpeg-turbo/jdarith.c:172-186 | Comparing the decoder's offset register with the shifted split point is comparing the code string with the exact split point |
| ArithDecoder.Decoder.Renormalise | bootstrap/apps/external/libjpeg-turbo/jdarith.c:123-160 | The decoder's renormalisation and input leave A >= 0x8000 and follow the exact interval |
| ArithDecoder.Decoder.ArithDecode | bootstrap/apps/external/libjpeg-turbo/jdarith.c:115-191 | One decision is the one the code string determines, and interval and bins move as the encoder's did |
| ArithBinarise.DcRange | bootstrap/apps/external/libjpeg-turbo/jcarith.c:721-763 | All bins of a DC difference within +-32768 lie in the statistics areas |
| ArithBinarise.ContextLaw | bootstrap/apps/external/libjpeg-turbo/jcarith.c:721-763 | A difference leaves context 0 up to half of 2^L, else 4 or 8 by its sign, and 8 more above 2^U |
| ArithFormat.DcLaw | bootstrap/apps/external/libjpeg-turbo/jcarith.c:721-763 | The bins and values of all decisions of a DC difference: zero, sign, category from bin 20, bits 14 bins above |
| ArithFormat.AcMagnitudeLaw | bootstrap/apps/external/libjpeg-turbo/jcarith.c:783-818 | The bins and values of all decisions of an AC magnitude |
| ArithFormat.AcLaw | bootstrap/apps/external/libjpeg-turbo/jcarith.c:765-820 | From any coefficient: the end of block if only zeros follow, else a decision for each zero, the sign in the fixed bin, the magnitude with 189 or 217 by Kx, and what follows |
| ArithFormat.PredictionLaw | bootstrap/apps/external/libjpeg-turbo/jcarith.c:710-763 | Each block of an MCU is coded from its difference to its component's last DC value, in its component's areas, contexts and conditioning |
| ArithMcuEncoder.EncodeDcDiff | bootstrap/apps/external/libjpeg-turbo/jcarith.c:721-763 | A DC difference is coded by the decisions of Figure F.4, and leaves the context of section F.1.4.4.1.2 |
| ArithMcuEncoder.EncodeAc | bootstrap/apps/external/libjpeg-turbo/jcarith.c:765-820 | The AC coefficients of any block are coded by the decisions of Figure F.5 |
| ArithMcuDecoder.DecodeDcDiff | bootstrap/apps/external/libjpeg-turbo/jdarith.c:536-582 | Awaiting the decisions of a difference within +-32768, the decoder takes them all, never meets the magnitude overflow, and returns the difference and its context |
| ArithMcuDecoder.DecodeAcMagnitude | bootstrap/apps/external/libjpeg-turbo/jdarith.c:604-618 | Awaiting the decisions of a magnitude up to 32768, the decoder returns it and never overflows |
| ArithMcuDecoder.DecodeAcRun | bootstrap/apps/external/libjpeg-turbo/jdarith.c:592-603 | Awaiting a run of zeros, the decoder finds the coefficient behind it and never runs past the spectrum |
| ArithMcuDecoder.DecodeAc | bootstrap/apps/external/libjpeg-turbo/jdarith.c:584-621 | Awaiting the decisions of a block, the decoder takes exactly these and restores every AC coefficient |
| ArithScanEncoder.EncodeBlocks | bootstrap/apps/external/libjpeg-turbo/jcarith.c:710-823 | The blocks of an MCU are coded with the predictions and contexts of their components |
| ArithScanEncoder.ScanEncoder.EmitRestart | bootstrap/apps/external/libjpeg-turbo/jcarith.c:325-359 | A restart terminates the segment, writes the marker, and resets statistics, predictions and interval |
| ArithScanEncoder.ScanEncoder.EncodeMcu | bootstrap/apps/external/libjpeg-turbo/jcarith.c:686-823 | Encoding one more MCU keeps every closed segment's data and the open interval those of the MCUs sent, restarts included |
| ArithScanEncoder.ScanEncoder.FinishScan | bootstrap/apps/external/libjpeg-turbo/jcarith.c:139-198 | All segments of the finished scan carry the MCUs sent |
| ArithScanDecoder.DecodeBlock | bootstrap/apps/external/libjpeg-turbo/jdarith.c:536-621 | Awaiting a block, the decoder restores all its coefficients, prediction wrapped to 16 bits included |
| ArithScanDecoder.ScanDecoder.ProcessRestart | bootstrap/apps/external/libjpeg-turbo/jdarith.c:199-230 | A restart resets interval, statistics and predictions to where the encoder's were, and expects the next marker number |
| ArithScanDecoder.ScanDecoder.DecodeMcu | bootstrap/apps/external/libjpeg-turbo/jdarith.c:505-624 | The decoder follows the scan: the next MCU comes out as it was sent |
| ArithScanDecoder.EncodeFile | bootstrap/apps/external/libjpeg-turbo/jcarith.c:686-823 | The file is the segments' stuffed code strings with numbered restart markers between them |
| ArithScanDecoder.DecodeFile | bootstrap/apps/external/libjpeg-turbo/jdarith.c:505-624 | From the bytes and the number of MCUs alone every MCU comes out |
| ArithScanDecoder.RoundTrip | bootstrap/apps/external/libjpeg-turbo/jcarith.c:686-823 | Arithmetic coding round trip: any MCUs with DC differences within +-32768, any restart interval, any marker behind the scan: every coefficient is restored |
| CanonicalCode.CanonicalIsPrefixFree | bootstrap/apps/external/libjpeg-turbo/jchuff.c:257-281 | The codes of section C.2 form a prefix code whenever the counts are legal |
| CanonicalCode.NoWordOfOnes | bootstrap/apps/external/libjpeg-turbo/jchuff.c:274-279 | No string of one bits starts with a code word, so padding is never a symbol |
| HuffmanFormat.BitsLaw | bootstrap/apps/external/libjpeg-turbo/jchuff.c:354-357 | Bits go out from the most significant one |
| HuffmanFormat.BytesLaw | bootstrap/apps/external/libjpeg-turbo/jchuff.c:345-363 | Bits fill bytes in order, each from its most significant bit |
| CodeString.StuffLaw | bootstrap/apps/external/libjpeg-turbo/jchuff.c:345-352 | An FF byte is followed by a zero, every other byte stands alone |
| HuffmanFormat.LengthsLaw | bootstrap/apps/external/libjpeg-turbo/jchuff.c:246-260 | bits[l] words have length l, shorter ones first |
| HuffmanFormat.CodesLaw | bootstrap/apps/external/libjpeg-turbo/jchuff.c:262-281 | The first code is zero; each next is one more, shifted left by the growth in length |
| HuffmanFormat.TableLaw | bootstrap/apps/external/libjpeg-turbo/jchuff.c:283-306 | Word p is code p in its length and stands for huffval[p] |
| HuffmanFormat.ValuesLaw | bootstrap/apps/external/libjpeg-turbo/jchuff.c:290-305 | A table can encode exactly if its values differ and, for DC, are at most 15 |
| DerivedTables.CodeOverflow | bootstrap/apps/external/libjpeg-turbo/jchuff.c:274-279 | A code outgrows its length exactly when the counts up to it exceed the code space |
| DerivedTables.MakeSizes | bootstrap/apps/external/libjpeg-turbo/jchuff.c:246-260 | The code lengths of Figure C.1, rejected exactly if there are more than 256 |
| DerivedTables.MakeCodes | bootstrap/apps/external/libjpeg-turbo/jchuff.c:262-281 | The codes of Figure C.2, rejected exactly if the counts do not describe a legal code |
| DerivedTables.Tabulate | bootstrap/apps/external/libjpeg-turbo/jchuff.c:283-306 | Every listed symbol gets its code and length, all others length 0; rejected exactly if a symbol is too large or listed twice |
| DerivedTables.MakeCDerived | bootstrap/apps/external/libjpeg-turbo/jchuff.c:221-306 | An encoding table exists exactly if the counts are legal and the symbols can be listed, and it holds the canonical codes |
| DecodingTables.MakeLookup | bootstrap/apps/external/libjpeg-turbo/jdhuff.c:240-261 | Every eight bits that start with a short word have that word's entry, all others the mark for long codes |
| DecodingTables.MakeRows | bootstrap/apps/external/libjpeg-turbo/jdhuff.c:219-238 | Largest code and offset of every length, with the sentinel behind |
| DecodingTables.MakeDDerived | bootstrap/apps/external/libjpeg-turbo/jdhuff.c:158-275 | A decoding table exists exactly if the counts are legal and, for DC, no symbol exceeds 15, and it decodes the canonical code |
| DecodingTables.LookupFinds | bootstrap/apps/external/libjpeg-turbo/jdhuff.h:191-212 | On any bits, the lookahead entry is the code word they start with, or says that none of up to eight bits does |
| DecodingTables.MaxcodeTells | bootstrap/apps/external/libjpeg-turbo/jdhuff.c:470-486 | In the bit-sequential search maxcode tells whether a word of that length is there, and valoffset finds its symbol |
| PrefixCode.ReadBack | bootstrap/apps/external/libjpeg-turbo/jdhuff.h:191-212 | A code word followed by anything is read back as its symbol |
| HuffmanFormat.ReadLaw | bootstrap/apps/external/libjpeg-turbo/jdhuff.c:451-486 | Bits that begin with a word read as its symbol; seventeen bits that begin with none are dropped for a 0 |
| MergedTrees.MergeLaw | bootstrap/apps/external/libjpeg-turbo/jchuff.c:912-958 | One merge: the lightest symbol, the next lightest, of equal ones the last; their counts are added and all symbols below get one bit more |
| CodeLengths.MergeLightest | bootstrap/apps/external/libjpeg-turbo/jchuff.c:940-942 | From any code lengths one gets lengths for the counts with the two lightest merged that cost less by at least their sum |
| KraftInequality.PrefixCodesFit | bootstrap/apps/external/libjpeg-turbo/jchuff.c:912-958 | Kraft's inequality for any prefix code |
| SymbolMerging.FindLeast | bootstrap/apps/external/libjpeg-turbo/jchuff.c:913-933 | The least nonzero count, the last of equal ones, leaving out one symbol |
| SymbolMerging.BumpChain | bootstrap/apps/external/libjpeg-turbo/jchuff.c:943-957 | Exactly the symbols of one tree branch get one bit longer |
| SymbolMerging.MergeTwo | bootstrap/apps/external/libjpeg-turbo/jchuff.c:939-957 | One merge keeps the chains a forest whose Kraft sums are one and keeps the partial solution unbeaten |
| HuffmanLengths.AssignLengths | bootstrap/apps/external/libjpeg-turbo/jchuff.c:912-958 | The code sizes found are those of Huffman's procedure with the code's tie rule; they form one tree over the symbols in use, cost no more than any lengths that satisfy Kraft's inequality, and are the lengths of a prefix code |
| MergedTrees.HeavyMerged | bootstrap/apps/external/libjpeg-turbo/jchuff.c:939-957 | Merging keeps deep trees heavy: a symbol n levels deep needs a weight of the Fibonacci number n + 2, and every other tree weighs at least the one before |
| MergedTrees.DeepestMerged | bootstrap/apps/external/libjpeg-turbo/jchuff.c:907-910 | Merging keeps the pseudo-symbol at least as deep as every other symbol, through ties and whatever trees are picked |
| MergedTrees.SpelledMerged | bootstrap/apps/external/libjpeg-turbo/jchuff.c:939-957 | A zero before the words of one tree and a one before those of the other keep a prefix code of exactly the code sizes |
| HuffmanLengths.SizesOfCounts | bootstrap/apps/external/libjpeg-turbo/jchuff.c:907-910 | Whatever the counts: some prefix code has exactly the sizes assigned, no symbol is longer than the pseudo-symbol, and a code of n bits takes more than n symbols and a total count of the Fibonacci number n + 2 |
| KraftInequality.OptimalAmongPrefixCodes | bootstrap/apps/external/libjpeg-turbo/jchuff.c:899-958 | Huffman optimality: no prefix code for the symbols in use, pseudo-symbol included, costs less |
| LengthLimit.MovePair | bootstrap/apps/external/libjpeg-turbo/jchuff.c:983-994 | One adjustment of Figure K.3: of the words of length i a pair is taken, one goes to i - 1, the other beside the word of the greatest length up to i - 2; Kraft sum and number of words stay |
| LengthLimit.LimitLengths | bootstrap/apps/external/libjpeg-turbo/jchuff.c:983-994 | The counts are those Figure K.3 gives; no length is above 16, the Kraft sum is still one and the number of words unchanged |
| LengthLimit.K3Law | bootstrap/apps/external/libjpeg-turbo/jchuff.c:983-994 | Each step of Figure K.3 changes just the counts at i, i - 1, j + 1 and j, with j the greatest length up to i - 2 that has a word; shorter lengths keep their counts |
| LengthLimit.SeventeenSymbols | bootstrap/apps/external/libjpeg-turbo/jchuff.c:983-994 | Counts 1, 2, 4, .. of seventeen symbols: one word of each length up to 14, none of 15, four of 16 |
| LengthLimit.DropLast | bootstrap/apps/external/libjpeg-turbo/jchuff.c:996-999 | Taking out the pseudo-symbol leaves one unused word of the greatest length |
| OptimalTable.CountLengths | bootstrap/apps/external/libjpeg-turbo/jchuff.c:960-970 | Symbols are counted by code size; it fails exactly if a size exceeds 32 |
| OptimalTable.SortSymbols | bootstrap/apps/external/libjpeg-turbo/jchuff.c:1004-1017 | Every real symbol in use is listed once, shorter sizes first |
| OptimalTable.TableIsLegal | bootstrap/apps/external/libjpeg-turbo/jchuff.c:1001-1017 | Limited counts with distinct symbols make a specification that the table makers accept |
| SizedTables.LengthsAreSizes | bootstrap/apps/external/libjpeg-turbo/jchuff.c:960-1017 | A table made of the counts of code sizes and of the symbols in their order gives each symbol its size for length |
| OptimalTable.LastIsPseudo | bootstrap/apps/external/libjpeg-turbo/jchuff.c:996-999 | The word taken off the longest length is the pseudo-symbol's own unless a size exceeds sixteen |
| OptimalTable.GenOptimalTable | bootstrap/apps/external/libjpeg-turbo/jchuff.c:887-1022 | From counts of 1 to 254 symbols: the sizes are optimal, attained by a prefix code and fill the code space; it fails exactly if one exceeds 32; else the table is legal, its counts are those of the sizes adjusted by Figure K.3 less the pseudo-symbol's word, its values just the symbols counted by size and then value |
| CountedSymbols.LightAreCodable | bootstrap/apps/external/libjpeg-turbo/jchuff.c:960-970 | Fewer than 9227464 symbols sent, however distributed, never need a code of more than 32 bits |
| CountedSymbols.FewAreCodable | bootstrap/apps/external/libjpeg-turbo/jchuff.c:960-970 | Nor do at most 32 different symbols |
| BitStream.PayloadOfStuffed | bootstrap/apps/external/libjpeg-turbo/jdhuff.c:320-360 | Stuffed data followed by a marker read as the original data, and the marker is found |
| BitReader.Reader.FetchByte | bootstrap/apps/external/libjpeg-turbo/jdhuff.c:320-360 | The next data byte unstuffed, the marker that ends the data, or nothing yet |
| BitReader.Reader.FillBitBuffer | bootstrap/apps/external/libjpeg-turbo/jdhuff.c:302-399 | Refilling neither loses nor invents a bit; behind a marker zeros are made up, and the flag is raised only when they are |
| BitReader.Reader.GetBits | bootstrap/apps/external/libjpeg-turbo/jdhuff.h:151-166 | The next bits of the stream, or suspension with nothing consumed |
| BitReader.Reader.SlowDecode | bootstrap/apps/external/libjpeg-turbo/jdhuff.c:451-486 | From any length below which no word matches, the bit-sequential search reads one symbol of the code |
| BitReader.Reader.HuffDecode | bootstrap/apps/external/libjpeg-turbo/jdhuff.h:191-212 | One symbol is read as the prefix code says, by lookahead or bit by bit |
| HuffmanFormat.FetchLaw | bootstrap/apps/external/libjpeg-turbo/jdhuff.c:320-360 | FF bytes before a zero are one data byte FF, before another byte a marker |
| HuffmanFormat.PaddingLaw | bootstrap/apps/external/libjpeg-turbo/jchuff.c:463-480 | Segments are filled up with ones, and zeros are made up behind them |
| PhuffWriter.Writer.EmitBits | bootstrap/apps/external/libjpeg-turbo/jcphuff.c:328-363 | The bits follow those sent before, stuffed; size 0 is the missing-code error |
| PhuffWriter.Writer.EmitSymbol | bootstrap/apps/external/libjpeg-turbo/jcphuff.c:380-388 | The symbol is counted in the statistics pass, else its code word is sent; it fails exactly if it has none |
| PhuffWriter.Writer.EmitBufferedBits | bootstrap/apps/external/libjpeg-turbo/jcphuff.c:396-407 | The buffered correction bits follow in order |
| PhuffWriter.Writer.FlushBits | bootstrap/apps/external/libjpeg-turbo/jcphuff.c:367-372 | The segment's bytes are the code words and bits sent, filled up with fewer than eight ones |
| RefineEncoder.CountZeroes | bootstrap/apps/external/libjpeg-turbo/jcphuff.c:170-185 | The number of trailing zeros of a nonzero mask, and the mask without them |
| RefineEncoder.Prepare | bootstrap/apps/external/libjpeg-turbo/jcphuff.c:791-878 | Absolute values, sign and nonzero masks, and the position of the last newly nonzero coefficient |
| RefineFormat.MagLaw | bootstrap/apps/external/libjpeg-turbo/jcphuff.c:791-812 | The point transform divides the magnitude by 2^Al and drops the rest |
| RefineFormat.LastNewLaw | bootstrap/apps/external/libjpeg-turbo/jcphuff.c:807-811 | EOB is the last coefficient of the band that turns nonzero, or the first of the band |
| RefineFormat.SignLaw | bootstrap/apps/external/libjpeg-turbo/jcphuff.c:899-904 | The bits behind the symbols of size 1 of a block are, in order, 1 for each new coefficient above zero and 0 for each below |
| RefineFormat.NextLaw | bootstrap/apps/external/libjpeg-turbo/jcphuff.c:861-914 | Up to the next new coefficient: run and size 1 in one symbol, the sign, then bit Al of each coefficient passed that was nonzero |
| RefineFormat.ZeroRunLaw | bootstrap/apps/external/libjpeg-turbo/jcphuff.c:868-879 | 0xF0 for sixteen zeros with the corrections passed; nothing is sent behind the last new coefficient |
| RefineFormat.RunLaw | bootstrap/apps/external/libjpeg-turbo/jcphuff.c:415-436 | A run of n blocks is symbol 16 b for 2^b <= n, the low b bits, and the correction bits |
| RefineFormat.ScanLaw | bootstrap/apps/external/libjpeg-turbo/jcphuff.c:982-994 | A run ends at 0x7FFF blocks, above 937 correction bits, or with a block that sends something |
| RefineEncoder.Encoder.EmitEobrun | bootstrap/apps/external/libjpeg-turbo/jcphuff.c:415-436 | The pending run and its correction bits are sent and both emptied; fails exactly if a code is missing |
| RefineEncoder.Encoder.CodeBlock | bootstrap/apps/external/libjpeg-turbo/jcphuff.c:924-984 | A block's symbols with their correction bits, ZRLs folded into a final end of band, are those of Figure G.7 |
| RefineEncoder.Encoder.EncodeMcu | bootstrap/apps/external/libjpeg-turbo/jcphuff.c:939-994 | After every block the items sent are those of the blocks so far; EOBRUN stays below 0x7FFF, corrections within 1000 bits, and no corrections are held without a run |
| RefineSpec.CorrectIsIdempotent | bootstrap/apps/external/libjpeg-turbo/jdphuff.c:566-576 | Correcting a coefficient twice is correcting it once, for both signs |
| RefineSpec.DecodeAgain | bootstrap/apps/external/libjpeg-turbo/jdphuff.c:508-651 | Decoding a block again over what an interrupted attempt left gives the same block, run and stream position |
| RefineDecoder.DecodeEvent | bootstrap/apps/external/libjpeg-turbo/jdphuff.c:530-560 | One symbol with its sign bit or run length bits |
| RefineFormat.EventLaw | bootstrap/apps/external/libjpeg-turbo/jdphuff.c:556-578 | A symbol of size 1 and a bit are a new coefficient, positive for a 1; 0xF0 is sixteen zeros; 16 b and b bits a run of 2^b plus these |
| RefineFormat.NewCoefficientLaw | bootstrap/apps/external/libjpeg-turbo/jdphuff.c:562-607 | Reading it behind a run of zeros stores 2^Al for a 1 and its negative for a 0 |
| RefineFormat.OneCoefficientLaw | bootstrap/apps/external/libjpeg-turbo/jdphuff.c:562-607 | So for a whole block with one new coefficient |
| RefineFormat.CorrectionLaw | bootstrap/apps/external/libjpeg-turbo/jdphuff.c:583-600 | A correction bit of 1 adds 2^Al to the magnitude for either sign, a 0 nothing |
| RefineDecoder.Undo | bootstrap/apps/external/libjpeg-turbo/jdphuff.c:645-651 | The coefficients made nonzero in this attempt, and no others, are zero again |
| RefineDecoder.RefineBlock | bootstrap/apps/external/libjpeg-turbo/jdphuff.c:508-651 | A completed call refines the block as the bit string says; a suspended one leaves at most corrections of coefficients that were nonzero before |
| RefineResume.ScanDecoder.DecodeMcu | bootstrap/apps/external/libjpeg-turbo/jdphuff.c:531-651 | A completed call refines the block as the stream says; a suspended call leaves run and stream as they were |
| RefineResume.ScanDecoder.Deliver | bootstrap/apps/external/libjpeg-turbo/jdphuff.c:508-651 | Bytes that arrive change nothing about the stream that is logically ahead |
| RefineResume.DecodeResumed | bootstrap/apps/external/libjpeg-turbo/jdphuff.c:508-651 | Suspension transparency for an MCU: however often decoding suspends, block, EOBRUN and stream end up as after one uninterrupted decode |
| RefineResume.DecodeScan | bootstrap/apps/external/libjpeg-turbo/jdphuff.c:508-651 | Suspension transparency for a scan cut into any chunks |
| RefineRoundTrip.Refinable | bootstrap/apps/external/libjpeg-turbo/jdphuff.c:566-576 | A coefficient is known to be nonzero exactly if its refined magnitude exceeds one, and its correction bit makes up the difference |
| RefineRoundTrip.ScanReads | bootstrap/apps/external/libjpeg-turbo/jdphuff.c:508-643 | What the encoder's items spell decodes into the goal, across shared runs, ZRLs and forced flushes |
| RefineScan.EncodeBlocks | bootstrap/apps/external/libjpeg-turbo/jcphuff.c:893-1031 | A scan of blocks is sent as the items of the format, exactly if none lacks a code |
| RefineScan.GatherScan | bootstrap/apps/external/libjpeg-turbo/jcphuff.c:893-1031 | The statistics pass counts every symbol as often as the output pass sends it |
| RefineScan.DecodeFile | bootstrap/apps/external/libjpeg-turbo/jdphuff.c:508-643 | From the bytes and the table alone, cut into any chunks: coefficients known to bit Ah become known to bit Al = Ah - 1 |
| RefineScan.RoundTrip | bootstrap/apps/external/libjpeg-turbo/jdphuff.c:508-643 | Refinement round trip: any blocks, any legal table with the symbols needed, any chunks: coefficients known to bit Ah become known to bit Al = Ah - 1; it fails exactly if the table is refused or lacks a code |
| RefineSymbols.ScanFew | bootstrap/apps/external/libjpeg-turbo/jcphuff.c:888-994 | A refinement scan sends at least one symbol, at most 64 for a block, and only symbols of size 0 or 1 |
| RefineScan.EncodeOptimal | bootstrap/apps/external/libjpeg-turbo/jcphuff.c:1039-1079 | Two passes over any blocks always give a table and the bytes of the scan: no code needs more than 32 bits and no symbol lacks one |
| RefineScan.OptimalRoundTrip | bootstrap/apps/external/libjpeg-turbo/jcphuff.c:917-1079 | What the two passes write makes coarse coefficients known one bit further, under any chunking, and never fails |
| FirstPassEncoder.PrepareFirst | bootstrap/apps/external/libjpeg-turbo/jcphuff.c:559-612 | Point-transformed magnitudes, their bits and the mask of nonzero coefficients |
| RefineFormat.FirstLaw | bootstrap/apps/external/libjpeg-turbo/jcphuff.c:620-650 | From any coefficient: 0xF0 for every sixteen zeros, run and size in one symbol, the value divided by 2^Al towards zero, and what follows |
| RefineFormat.FirstScanLaw | bootstrap/apps/external/libjpeg-turbo/jcphuff.c:687-719 | Blocks of zeros are counted in a run of up to 0x7FFF; any other block ends it and begins the next one if its last coefficient is zero |
| RefineFormat.FirstRangeLaw | bootstrap/apps/external/libjpeg-turbo/jcphuff.c:634-638 | Accepted are magnitudes below 1024 times 2^Al |
| RefineFormat.ReadFirstLaw | bootstrap/apps/external/libjpeg-turbo/jdphuff.c:407-434 | Reading one symbol stores a value times 2^Al behind its run, passes sixteen coefficients, or ends the band for a run of blocks |
| FirstPassEncoder.EncodeMcuFirst | bootstrap/apps/external/libjpeg-turbo/jcphuff.c:661-719 | Items sent and items to come stay those of the scan of Figure G.3 with its EOB runs; it fails exactly on a value out of range or a missing code |
| FirstPassDecoder.DecodeMcuFirst | bootstrap/apps/external/libjpeg-turbo/jdphuff.c:391-446 | A completed call stores what the bits say; a suspended one leaves run and stream as they were and only coefficients the full decode stores |
| FirstPassDecoder.DecodeScanFirst | bootstrap/apps/external/libjpeg-turbo/jdphuff.c:391-446 | Suspension transparency for a scan cut into any chunks |
| FirstPass.FirstReads | bootstrap/apps/external/libjpeg-turbo/jdphuff.c:391-446 | What the encoder's items spell is read as the truncated coefficients, across shared EOB runs and ZRLs |
| FirstPassScan.DecodeFile | bootstrap/apps/external/libjpeg-turbo/jdphuff.c:391-446 | From the bytes and the table alone, cut into any chunks, bands of zeros become the coefficients known to bit Al |
| FirstPassScan.RoundTrip | bootstrap/apps/external/libjpeg-turbo/jcphuff.c:653-730 | First-pass round trip: bands of zeros become known to bit Al; it fails exactly if the table is refused or lacks a code or a value is out of range |
| RefineSymbols.FirstScanFew | bootstrap/apps/external/libjpeg-turbo/jcphuff.c:620-719 | A first pass in range sends at least one symbol, at most 64 for a block, and only symbols of size up to 10 |
| FirstPassScan.OptimalRoundTrip | bootstrap/apps/external/libjpeg-turbo/jcphuff.c:653-1079 | Two passes with a generated table fail exactly if a value is out of range or a code needs more than 32 bits; else the coefficients arrive, under any chunking |
| SequentialSpec.ExtendValue | bootstrap/apps/external/libjpeg-turbo/jdhuff.h:191-232 | Extending the sign of the bits sent for a value gives the value back |
| SequentialSpec.ReadAcBack | bootstrap/apps/external/libjpeg-turbo/jdhuff.c:606-640 | What is sent from any coefficient on is read back, ZRLs and end of block included |
| ZigZag.ZigZagLaw | bootstrap/apps/external/libjpeg-turbo/jutils.c:56-67 | The zigzag order walks the diagonals from the corner, turning at the edges |
| SequentialFormat.ValueLaw | bootstrap/apps/external/libjpeg-turbo/jchuff.c:519-545 | A value of n bits is sent as itself, or plus 2^n - 1 if negative |
| SequentialFormat.AcLaw | bootstrap/apps/external/libjpeg-turbo/jchuff.c:550-602 | From any coefficient: 0xF0 for every sixteen zeros, run and size in one symbol, the value, and what follows; symbol 0x00 if only zeros follow |
| SequentialSpec.EobLaw | bootstrap/apps/external/libjpeg-turbo/jchuff.c:597-602 | Symbol 0x00 is sent once if the last coefficient is zero and else never, and comes last; the only other symbol of size 0 is 0xF0 |
| SequentialFormat.BlockLaw | bootstrap/apps/external/libjpeg-turbo/jchuff.c:505-610 | A block's bits: the word for the size of its DC difference, the difference, its AC coefficients, and the word of 0x00 at the end if the last is zero |
| SequentialFormat.McuLaw | bootstrap/apps/external/libjpeg-turbo/jchuff.c:662-690 | An MCU's blocks in order, each predicted from the last of its component |
| SequentialFormat.SegmentsLaw | bootstrap/apps/external/libjpeg-turbo/jchuff.c:618-706 | Each segment holds as many MCUs as the restart interval says, and begins with predictions of zero |
| SequentialFormat.FileLaw | bootstrap/apps/external/libjpeg-turbo/jchuff.c:618-636 | Segments are separated by FF and D0 to D7 in turn, which is what the decoder waits for |
| SequentialFormat.ExtendLaw | bootstrap/apps/external/libjpeg-turbo/jdhuff.c:492-504 | Bits read are the value if the first is one, and 2^n - 1 too much if it is zero |
| SequentialFormat.ReadAcLaw | bootstrap/apps/external/libjpeg-turbo/jdhuff.c:604-625 | Reading one symbol: 0x00 ends the block, 0xF0 passes sixteen coefficients, others store a value behind their run |
| SequentialFormat.ReadBlockLaw | bootstrap/apps/external/libjpeg-turbo/jdhuff.c:581-597 | The DC coefficient is the prediction plus the difference read, in sixteen bits |
| SequentialFormat.RangeLaw | bootstrap/apps/external/libjpeg-turbo/jchuff.c:753-817 | The statistics pass accepts DC differences below 2048 and AC coefficients below 1024 in magnitude |
| SequentialWriter.Writer.EmitBits | bootstrap/apps/external/libjpeg-turbo/jchuff.c:404-417 | With the 32-bit buffer no bit is lost: at most 15 are pending after every emission |
| SequentialWriter.Writer.FlushBits | bootstrap/apps/external/libjpeg-turbo/jchuff.c:463-480 | The last byte is filled with ones and the segment carries exactly the bits written |
| SequentialEncoder.EncodeBlock | bootstrap/apps/external/libjpeg-turbo/jchuff.c:505-610 | A block is sent as the code words and value bits of sections F.1.2.1 and F.1.2.2 |
| SequentialEncoder.Encoder.EmitRestart | bootstrap/apps/external/libjpeg-turbo/jchuff.c:618-636 | A restart closes the segment with RSTn and forgets the predictions |
| SequentialEncoder.Encoder.EncodeMcu | bootstrap/apps/external/libjpeg-turbo/jchuff.c:643-706 | Sent and remaining bits stay those of the whole scan, segment by segment, for any restart interval |
| SequentialEncoder.Encoder.FinishPass | bootstrap/apps/external/libjpeg-turbo/jchuff.c:714-733 | The closed segments and the last one carry all bits of the scan |
| SequentialDecoder.DecodeBlock | bootstrap/apps/external/libjpeg-turbo/jdhuff.c:578-643 | A completed block is what the bits say; a suspended one only has coefficients the full decode would store |
| SequentialDecoder.DecodeBlocks | bootstrap/apps/external/libjpeg-turbo/jdhuff.c:572-645 | The same for the blocks of an MCU with their predictions |
| SequentialScan.ReadMcuBack | bootstrap/apps/external/libjpeg-turbo/jdhuff.c:561-654 | The bits sent for an MCU, whatever follows, are read back as its blocks and predictions |
| SequentialScan.ReadMcuAgain | bootstrap/apps/external/libjpeg-turbo/jdhuff.c:561-654 | Decoding an MCU again over what an interrupted attempt left gives the same result |
| FastDecoder.FastReader.Fill | bootstrap/apps/external/libjpeg-turbo/jdhuff.c:406-442 | Two GET_BYTEs leave the logical stream as it was, markers read through included |
| FastDecoder.FastReader.HuffDecode | bootstrap/apps/external/libjpeg-turbo/jdhuff.h:214-232 | On an assigned code the fast macro reads the same symbol as the slow path |
| FastDecoder.BlocksFast | bootstrap/apps/external/libjpeg-turbo/jdhuff.c:672-745 | The fast block loop decodes what the bits say, reading zeros behind a marker |
| SequentialScanDecoder.ScanDecoder.ProcessRestart | bootstrap/apps/external/libjpeg-turbo/jdhuff.c:527-552 | Suspends, loses sync, or begins the next segment behind exactly the expected RSTn modulo 8 |
| SequentialScanDecoder.ScanDecoder.DecodeMcuSlow | bootstrap/apps/external/libjpeg-turbo/jdhuff.c:561-654 | A completed MCU is what the stream says; a suspended one leaves all permanent state as it was |
| SequentialScanDecoder.ScanDecoder.DecodeMcuFast | bootstrap/apps/external/libjpeg-turbo/jdhuff.c:658-752 | The attempt decodes the same blocks; if it met a marker, position, register and predictions are untouched |
| SequentialScanDecoder.ScanDecoder.DecodeBody | bootstrap/apps/external/libjpeg-turbo/jdhuff.c:774-795 | Fast path refines slow path: trying the fast path first ends like the slow path alone, fallback included |
| SequentialScanDecoder.ScanDecoder.DecodeMcu | bootstrap/apps/external/libjpeg-turbo/jdhuff.c:762-797 | One MCU with its restart, waiting, loss of sync and data running out included |
| SequentialRoundTrip.McuCleanBack | bootstrap/apps/external/libjpeg-turbo/jdhuff.h:214-232 | Everything the encoder sends meets assigned codes only, so the fast path may be used on it |
| SequentialRoundTrip.Attempt | bootstrap/apps/external/libjpeg-turbo/jdhuff.c:762-797 | One attempt at the next MCU: it comes out and the decoder stands before the rest, or the decoder waits, restart passed or not, in a state from which the MCU still comes out |
| SequentialRoundTrip.DecodeNext | bootstrap/apps/external/libjpeg-turbo/jdhuff.c:762-797 | However often the source runs dry, the next MCU comes out and the decoder stands before the remaining ones, restart markers between them included |
| SequentialRoundTrip.DecodeFile | bootstrap/apps/external/libjpeg-turbo/jdhuff.c:762-797 | From the bytes, tables and number of MCUs alone, cut into any chunks, every MCU comes out |
| SequentialRoundTrip.RoundTrip | bootstrap/apps/external/libjpeg-turbo/jchuff.c:643-733 | Sequential round trip: any MCUs, any restart interval, any legal tables covering the symbols, any chunks: the file is stuffed, padded, restart-marked segments, and decoding it returns every coefficient |
| SequentialGather.HtestBlock | bootstrap/apps/external/libjpeg-turbo/jchuff.c:753-817 | A block's symbols are counted, symbol 0 exactly if coefficient 63 is zero; it fails exactly if a value is out of range |
| SequentialGather.GatherBlocks | bootstrap/apps/external/libjpeg-turbo/jchuff.c:844-851 | The blocks of an MCU are counted into the tables of their components |
| SequentialOptimal.Gatherer.EncodeMcuGather | bootstrap/apps/external/libjpeg-turbo/jchuff.c:826-854 | Predictions and restart count move as in the output pass, without output |
| SequentialOptimal.GatherScan | bootstrap/apps/external/libjpeg-turbo/jchuff.c:826-854 | The pass succeeds exactly if all values are in range, and counts each symbol as often as it is sent |
| SequentialSymbols.AllFew | bootstrap/apps/external/libjpeg-turbo/jchuff.c:753-817 | A scan in range sends with each table at least one symbol if it is in use, at most 64 for a block, AC sizes up to 10 |
| SequentialOptimal.MakeTable | bootstrap/apps/external/libjpeg-turbo/jchuff.c:1058-1064 | A table is made from counts exactly if no code needs more than 32 bits, and has a code for every symbol counted |
| SequentialOptimal.FinishPassGather | bootstrap/apps/external/libjpeg-turbo/jchuff.c:1029-1066 | One table from each set of counts in use, legal and with a code for every symbol counted; it fails exactly if some code needs more than 32 bits |
| SequentialOptimal.AllCovered | bootstrap/apps/external/libjpeg-turbo/jchuff.c:643-706 | Tables that have the symbols counted can send every MCU |
| SequentialOptimal.ScanCounts | bootstrap/apps/external/libjpeg-turbo/jchuff.c:1029-1066 | Counts of a scan in range are as table generation wants them, and DC tables never fail |
| SequentialOptimal.LightScan | bootstrap/apps/external/libjpeg-turbo/jchuff.c:960-970 | With up to 144179 blocks AC tables do not fail either |
| SequentialOptimal.TwoPassRoundTrip | bootstrap/apps/external/libjpeg-turbo/jchuff.c:643-1066 | Gather agrees with encode: two passes fail exactly if a value is out of range or an AC code needs more than 32 bits; else no symbol lacks a code and decoding returns the MCUs, under any chunking |
| RowLists.MakeFunnyPointers | bootstrap/apps/external/libjpeg-turbo/jdmainct.c:170-210 | Both lists in their starting state: last four row groups of the second swapped, first row repeated above the first |
| RowLists.SetWraparoundPointers | bootstrap/apps/external/libjpeg-turbo/jdmainct.h:46-71 | From the starting state to wrapped ends in both lists |
| RowLists.SetBottomPointers | bootstrap/apps/external/libjpeg-turbo/jdmainct.c:214-246 | The last real row stands for the two row groups behind it, and the nonempty row groups are counted |
| RowLists.Receive | bootstrap/apps/external/libjpeg-turbo/jdmainct.c:339-346 | An iMCU row stored through a list leaves the last two row groups of the one before untouched |
| RowLists.SeenLoaded | bootstrap/apps/external/libjpeg-turbo/jdmainct.c:99-107 | Row groups other than the last of an iMCU row are seen with their neighbours |
| RowLists.SeenTrimmed | bootstrap/apps/external/libjpeg-turbo/jdmainct.c:237-244 | Row groups of the last iMCU row are seen with the last row repeated |
| RowLists.SeenPostponed | bootstrap/apps/external/libjpeg-turbo/jdmainct.c:352-391 | The postponed row group is seen through the other list with the next iMCU row's first row group below |
| RowLists.Swapped | bootstrap/apps/external/libjpeg-turbo/jdmainct.c:76-107 | What one list calls its last two row groups the other calls the two behind its end |
| RowLists.WindowLaw | bootstrap/apps/external/libjpeg-turbo/jdmainct.c:52-58 | A window's rows are those of the image, the first above it and the last below it |
| ContextRows.FrameOfImage | bootstrap/apps/external/libjpeg-turbo/jdmaster.c:318-326 | The heights of any image give every component the same numbers of iMCU rows and row groups |
| ContextRows.Neighbours | bootstrap/apps/external/libjpeg-turbo/jdmainct.c:52-58 | In every window shown each image row has the adjacent rows above and below it, edge rows duplicated |
| ContextRows.ShownLaw | bootstrap/apps/external/libjpeg-turbo/jdmainct.c:52-58 | Every entry of every window shown: the row itself, the first above the image, below it the last, or padding for the postponed row groups |
| ContextRows.FullContextIff | bootstrap/apps/external/libjpeg-turbo/jdmainct.c:52-58 | A full row group of duplicated context is shown for every row group exactly if the image has one iMCU row or its last one holds at least a row group; otherwise the postponed row group sees padding rows |
| ContextRows.SeventeenRows | bootstrap/apps/external/libjpeg-turbo/jdmainct.c:52-58 | An image of 17 rows is one that fails it |
| ContextController.MainController.StartPass | bootstrap/apps/external/libjpeg-turbo/jdmainct.c:253-285 | A pass starts with the first row group of the image |
| ContextController.MainController.PostProcess | bootstrap/apps/external/libjpeg-turbo/jdmainct.c:356-380 | Whatever number of row groups is taken, those are shown, in order |
| ContextController.MainController.ProcessCurrent | bootstrap/apps/external/libjpeg-turbo/jdmainct.c:374-395 | The current iMCU row without its last row group, then the switch to the other list |
| ContextController.MainController.ProcessData | bootstrap/apps/external/libjpeg-turbo/jdmainct.c:331-396 | Any call keeps the row groups shown those of the image, once each and in order, and a call with data and room shows at least one more until all are shown |
| ContextController.MainController.InOrder | bootstrap/apps/external/libjpeg-turbo/jdmainct.c:331-396 | After any calls the windows shown are the first ones of the image, never more than there are, and all of them once the last iMCU row is used up |
| PrepRing.PrepController.CreateContextBuffer | bootstrap/apps/external/libjpeg-turbo/jcprepct.c:262-302 | Five row groups of pointers wrap around the three of the ring |
| PrepRing.SeesContext | bootstrap/apps/external/libjpeg-turbo/jcprepct.c:241-244 | When a row group is downsampled the wrapped view shows it with its neighbours, edge rows replicated |
| PrepRing.PrepController.TakeRows | bootstrap/apps/external/libjpeg-turbo/jcprepct.c:206-230 | Rows taken in follow in the ring, the first row repeated above the image |
| PrepRing.PrepController.ExpandBottomEdge | bootstrap/apps/external/libjpeg-turbo/jcprepct.c:103-114 | The last row is repeated up to the stop |
| PrepRing.PrepController.PreProcess | bootstrap/apps/external/libjpeg-turbo/jcprepct.c:195-257 | Any number of input rows and output row groups at a time; it returns only with the output full or the input used up before the bottom |
| PrepRing.PrepController.InOrder | bootstrap/apps/external/libjpeg-turbo/jcprepct.c:195-257 | Whatever the chunking, the downsampler was given each row group once, in order, in full context; while rows are to come, just those with a row group below them |
| PrepRing.Run | bootstrap/apps/external/libjpeg-turbo/jcprepct.c:195-257 | A whole image in chunks of any sizes: every row group asked for is given once the rows are in, and exactly those with a row group below them before |
| Reciprocal.Flss | bootstrap/apps/external/libjpeg-turbo/jcdctmgr.c:81-109 | The number of significant bits of a 16-bit value |
| Reciprocal.Reckon | bootstrap/apps/external/libjpeg-turbo/jcdctmgr.c:168-204 | For every divisor from 2 to 65535 reciprocal and correction make up for the rounding error, and the reciprocal fits its element |
| Reciprocal.Exact | bootstrap/apps/external/libjpeg-turbo/jcdctmgr.c:115-150 | With such a reciprocal the shifted product is the truncated quotient of x + d / 2 by d, and the product does not overflow |
| Reciprocal.RoundedNearest | bootstrap/apps/external/libjpeg-turbo/jcdctmgr.c:440-474 | That quotient is the nearest multiple, halves away from zero |
| Reciprocal.HalvesExact | bootstrap/apps/external/libjpeg-turbo/jcdctmgr.c:152-167 | The upper half of the product times the scale, upper half again, is the same quotient when the shift is more than sixteen |
| Reciprocal.ComputeReciprocal | bootstrap/apps/external/libjpeg-turbo/jcdctmgr.c:168-221 | The table entries of any divisor from 1 to 65535 serve it, as stored in signed elements; with 16-bit elements the result says when the scale serves it by upper halves |
| Reciprocal.Quantize | bootstrap/apps/external/libjpeg-turbo/jcdctmgr.c:407-438 | Every coefficient within +-32767 is divided with exact rounding |
| ScriptValidation.CheckBand | bootstrap/apps/external/libjpeg-turbo/jcmaster.c:264-283 | The progression check of a component's band, moving on what was sent |
| ScriptValidation.CheckProgressive | bootstrap/apps/external/libjpeg-turbo/jcmaster.c:233-285 | A scan passes exactly if it is in range and goes on where the scans before left off |
| ScriptValidation.ValidateScript | bootstrap/apps/external/libjpeg-turbo/jcmaster.c:179-310 | A script passes exactly if it is acceptable, and progressive exactly if its first scan is not a whole one |
| ScanScript.LegalLaw | bootstrap/apps/external/libjpeg-turbo/jcmaster.c:218-275 | When a progressive scan may follow others, in numbers |
| ScanScript.ProgressiveLaw | bootstrap/apps/external/libjpeg-turbo/jcmaster.c:201-303 | A progressive script is acceptable exactly if each scan is legal after those before and each component's DC is sent |
| ScanScript.SequentialLaw | bootstrap/apps/external/libjpeg-turbo/jcmaster.c:278-308 | A sequential script is acceptable exactly if it sends whole components, each in one scan of at most four |
| ScanScript.RefusedScripts | bootstrap/apps/external/libjpeg-turbo/jcmaster.c:249-275 | Scripts that are refused: AC before DC, DC with AC, AC of two components, components out of order, Al 11, a pass twice, a refinement of nothing, two bits at once |
| ScanScript.UpdateRefines | bootstrap/apps/external/libjpeg-turbo/jdphuff.c:299-643 | What a first or refinement pass makes of a coefficient that stands at the precision the scan expects is the original truncated to the new precision |
| ScanScript.Meaning | bootstrap/apps/external/libjpeg-turbo/jcmaster.c:264-283 | After an accepted script every decoded coefficient is the original truncated to the precision last sent, 0 if nothing was sent |
| ScanScript.PrefixMeaning | bootstrap/apps/external/libjpeg-turbo/jcmaster.c:264-283 | So after any prefix of it |
| ScanScript.TruncatedLaw | bootstrap/apps/external/libjpeg-turbo/jdphuff.c:299-643 | What a pass leaves: DC rounded down and AC towards zero to a multiple of 2^Al |
| ProgressiveAc.GoalIsUpdate | bootstrap/apps/external/libjpeg-turbo/jdphuff.c:391-643 | What decoding the bytes of an AC scan gives is what the rules for coefficients say |
| ProgressiveAc.OneScan | bootstrap/apps/external/libjpeg-turbo/jcphuff.c:653-1079 | One AC scan through generated table and bytes: it fails exactly on a first pass out of range or with a code of more than 32 bits |
| ProgressiveAc.RunScript | bootstrap/apps/external/libjpeg-turbo/jcmaster.c:264-283 | The AC scans of a legal script through real bytes, one on top of the other: after as many as can be sent every AC coefficient is the original truncated to the precision last sent |
| SimpleProgression.SimpleProgression | bootstrap/apps/external/libjpeg-turbo/jcparam.c:472-537 | The script fills exactly the space reckoned for it |
| SimpleProgression.YccLaw | bootstrap/apps/external/libjpeg-turbo/jcparam.c:504-525 | The ten scans for YCbCr, written out |
| SimpleProgression.ScriptLaw | bootstrap/apps/external/libjpeg-turbo/jcparam.c:526-537 | Every scan of any other script, written out |
| SimpleProgression.ScriptComplete | bootstrap/apps/external/libjpeg-turbo/jcparam.c:472-537 | For every number of components it is acceptable and progressive, and ends with every coefficient exact |
| IccProfile.WriteIccProfile | bootstrap/apps/external/libjpeg-turbo/jcicc.c:49-105 | A profile is split into markers of at most 65519 bytes of data, numbered in single bytes; only an empty one is refused |
| IccProfile.FormatLaw | bootstrap/apps/external/libjpeg-turbo/jcicc.c:67-103 | Code, identifier, number, total and bytes of each marker, written out |
| IccProfile.ReadLaw | bootstrap/apps/external/libjpeg-turbo/jdicc.c:38-54 | What is taken for a marker of a profile, and where its number, total and data are |
| IccProfile.AnyOrder | bootstrap/apps/external/libjpeg-turbo/jdicc.c:38-54 | Markers of a profile in any order are complete and join to it |
| IccProfile.TooLong | bootstrap/apps/external/libjpeg-turbo/jcicc.c:62-65 | The markers of a profile of more than 255 parts are never complete |
| IccReader.CheckMarkers | bootstrap/apps/external/libjpeg-turbo/jdicc.c:103-129 | The first pass succeeds exactly if there are ICC markers with consistent counts and distinct valid numbers |
| IccReader.LayOut | bootstrap/apps/external/libjpeg-turbo/jdicc.c:131-145 | Parts are laid out in order; it fails exactly if one is missing |
| IccReader.FillIn | bootstrap/apps/external/libjpeg-turbo/jdicc.c:157-170 | The second pass puts every part in its place |
| IccReader.ReadIccProfile | bootstrap/apps/external/libjpeg-turbo/jdicc.c:74-171 | The joined profile is returned exactly if the markers are complete, consistent and not all empty |
| IccReader.RoundTrip | bootstrap/apps/external/libjpeg-turbo/jdicc.c:74-171 | ICC round trip: a profile comes back whatever the order of its markers and the other markers between them, exactly if it has at most 255 times 65519 bytes; a longer one is rejected |

## Left out

- RefineScan.RoundTrip: coefficients lie within +-32767, because the encoder's 16-bit absolute value of -32768 wraps.
- SequentialRoundTrip.RoundTrip: coefficients lie within +-32767 and the tables have every symbol needed; the encoder itself does not check for missing codes.
- SequentialScanDecoder.ScanDecoder.DecodeMcu: without a restart interval the fast path is tried, and its agreement with the slow path needs assigned codes, no FF byte written with padding FFs, and data that end in a marker.
- FastDecoder.BlocksFast: the 64-bit buffer variant, which fills six bytes at a time, is not modelled.
- SequentialWriter.Writer.EmitBits: the 64-bit buffer variant is not modelled; it needs at most 57 bits pending when it is flushed.
- OptimalTable.GenOptimalTable: counts have at least one and at most 254 real symbols and total less than 1000000000, the threshold of its search.
- SequentialOptimal.TwoPassRoundTrip: every component has a block in each MCU, as the MCU layout of a scan provides, and 64 times the number of blocks stays below the same threshold.
- RefineScan.EncodeOptimal: at least one block, and 64 times the number of blocks below the same threshold.
- ArithScanDecoder.RoundTrip: DC differences lie within +-32768; larger ones are rejected by the decoder.
- SequentialScanDecoder.ScanDecoder.ProcessRestart: recovery from a wrong marker is up to the data source and only appears as a lost result.
- RefineResume.ScanDecoder.DecodeMcu: restart markers inside progressive scans are not modelled; a scan is one segment.
- RefineEncoder.Encoder.EncodeMcu: the same; the restart branch at its beginning is left out.
- FirstPassEncoder.EncodeMcuFirst: the same.
- FirstPassDecoder.DecodeMcuFirst: the same.
- ScanScript.UpdateRefines: what a DC pass conveys is taken from the original coefficient by coefficient, not from decoded bits; for AC passes ProgressiveAc.GoalIsUpdate makes the connection.
- ProgressiveAc.RunScript: the blocks of one component, all of them in each of its scans; DC scans leave the AC coefficients alone.
- PrepRing.PrepController.PreProcess: all components are buffered alike, so one ring stands for all; rows hold row numbers instead of samples.
- ContextController.MainController.ProcessData: rows hold row numbers instead of samples, and the postprocessor takes whole row groups.
- Reciprocal.Quantize: -32768 is not covered; its negation does not fit a 16-bit element.
- IccReader.ReadIccProfile: saved markers are given; saving them, allocation failure and 32-bit overflow of the total are not modelled.
- Output suspension of the Huffman encoders, the SIMD routines, and components whose coefficients are not needed.
- The four progressive procedures of the arithmetic coder on each side.
- Marker writing and parsing other than restart markers, colour conversion, DCT, sampling, and the command line programs: straight-line or outside this layer.
