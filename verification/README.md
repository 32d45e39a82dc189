# The JPEG compressor's coding, controllers and scripts, and the Unicode transcoder

This project models the entropy-coding half of the JPEG compressor in
`practice_dd/EX07-02_jpegtofb/src` (`jchuff.c`, `jcphuff.c`), the controllers that feed it
(`jcprepct.c`, `jcmainct.c`, `jccoefct.c`, `jcmaster.c`, `jcapistd.c`, `jcapimin.c`), scan scripts
(`jcmaster.c`, `jcparam.c`), and the Unicode converters of `convertutf.c`. The decoders of
`jdhuff.c` and `jdphuff.c` (sections F.2 and G.2 of ITU-T T.81) are the specification of the
entropy coders. Run `dafny verify dfyconfig.toml` here to check everything.

Code that works step by step is modelled by classes, arrays and loops (`BitWriter`, `TokenSink`,
`HuffEncoder`, `HuffStatistics`, `PhuffEncoder`, `ScriptParams`, `Master`, `PrepController`,
`MainController`, `CoefController`, and the table generator and converters over arrays). Each
is proved against functions on values, and the laws are lemmas about these functions.

## How it fits together

- **Huffman tables.** `HuffmanTables`: canonical codes, their derivation in place, and decoding.
  `HuffmanOptimality`, `HuffmanForest`, `CodeLengths`, `OptimalTable`: the table generator is optimal,
  bounded by Fibonacci numbers, limited to 16 bits, and always yields an accepted table.
- **Bits and tokens.** `BitStrings`, `BitWriter`, `EntropySegments`, `Coding`, `TokenSink`: symbols and
  raw bits become stuffed bytes with restart markers. What is emitted is a sequence of tokens, so
  that an output pass and a statistics pass can be compared.
- **Coefficients.** `RunLength`, `AcRefinement`, `AcScans`, `Scans`, `ScanStreams`: the coder and the
  decoder of every kind of scan as functions, and the round trip of a whole scan. `EobRuns`: when
  end-of-band runs are cut, which decoding does not tell.
- **Encoders.** `SequentialEncoder`, `SequentialStatistics`, `SequentialScan`, `ProgressiveEncoder`,
  `ProgressiveScan`: the encoders in place, with suspension, restarts and statistics. `ScanSymbols`,
  `SymbolTotals`, `OptimizedScans`: which symbols a scan counts, and the tables made from the counts.
  `StreamGrowth`, `ScanSizes`: how long a stream is.
- **Scripts.** `ScanScript`, `ScriptRules`, `SimpleProgression`, `ScriptDecoding`: which scripts are
  accepted, and what a decoder knows after them.
- **Controllers.** `Geometry`, `ScanSetup`, `CoefController`, `ScanBlocks`, `ScanLayout`, `PrepController`,
  `MainController`, `CompressionPasses`.
- **End to end.** `McuSink`, `CodingPass`: the controller drives the entropy coder, whose destination
  may suspend, or whose refusal is fatal. `Pictures`, `ScanCompression`: from the DCT blocks of a
  picture through controller, entropy coder and decoder of a whole script, back to the blocks.
  `CoefficientRanges`, `BufferRoom`, `OutputRooms`: what makes it succeed or fail.
- **Unicode.** `Unicode`, `UnicodeLaws`, `LenientText`, `ConvertUtf`.

## Where code and documentation disagree

The model follows the code.

- `isLegalUTF8` sets no lower bound on the second byte after ED and F4 (`LegalTooMuch`,
  `LegalExactly`, `EncodeAfterDecode`), although the header says that all illegal sequences are
  errors.
- A strict conversion from UTF-32 to UTF-16 passes over a value above 10FFFF instead of leaving the
  source there (`PassesOver`); `StopsAtIllegal` says exactly when it stops.
- From UTF-32 to UTF-8 a value above 10FFFF is replaced in strict mode too. There, and in the strict
  conversion to UTF-16, the error is forgotten if the target fills up later (`ForgetsError`,
  `ForgetsErrorIn16`). `Need` is the room a conversion asks for, and `ErrorReported` is the exact
  condition: an illegal value is reported if and only if there is that much room. Conversion in
  pieces can lose the error altogether (`LostInPieces`); `LostExactly` and `LostOnResuming` say exactly
  when.
- A comment in `jcmarker.c` (lines 98-104) says that multi-pass modes are not supported with a
  destination that suspends, but nothing rejects them. Only the first pass may suspend, and only if it
  is an output pass of the sequential coder; in the passes of `jpeg_finish_compress` a refusal is a
  fatal error (`jcapimin.c:171-172`), as it always is in the progressive coder (`jcphuff.c:210-211`)
  and for markers. `CodeScript` states the exact condition under which it goes well: all that is
  written after the first pass never uses up the room left for it (`FitsRoom`). `InRangeScript` and
  `EnoughRoom` give a room that is enough; `LongScanFails`, `ManyRestartsFail` and `SecondScanFails`
  inputs for which it is not.
- The comment in `jchuff.c` wonders why code length changes need not be considered when symbols are
  listed. Without such changes the lengths are kept because the pseudo-symbol is always among the
  deepest (`JoinedDeepest`, `LengthsKept`); with them the table is still accepted
  (`GenOptimalTable`).

## What is a parameter

- `jpeg_natural_order` is any permutation of 0 to 63 that fixes 0; the DCT, colour conversion and
  downsampling are arbitrary functions. A suspending destination has a buffer of arbitrary size and is
  emptied after each suspension of the first pass; the room it has when `jpeg_finish_compress` is
  called, and the number of bytes of the headers before each scan, are arbitrary. In `CompressionPasses`
  and the controllers a coder that refuses is an arbitrary answer to successive calls.
- ERREXIT is a failure outcome. 8-bit samples; 64 coefficients; four components in a scan; ten blocks
  in an MCU.
- The table generator is modelled for counts that total at most 10^9 (the cutoff of its search), for
  at least one and at most 254 real symbols. Without a real symbol there is no code length to drop
  (`NothingInUse`), and a table nobody uses is not generated; and the scans that the coders accept
  never count more symbols (`ScanExpected`, `CountsFew`), so nothing of this is asked of a scan.
- A first pass that may suspend needs room for any one MCU in the emptied buffer, because otherwise no
  number of calls would complete it; `RoomForEach` and `InRangeRoomy` give sufficient sizes.
- UTF-32 values are non-negative, although the type is signed.

## Model

| member | source | states |
|---|---|---|
| HuffmanTables.MakeCDerivedTbl | practice_dd/EX07-02_jpegtofb/src/jchuff.c:178-264 | `jpeg_make_c_derived_tbl` succeeds exactly when the table number is legal, a table is installed, there are at most 256 codes, every code fits its length without being all ones, and the symbols are distinct and in range; the derived table then holds the canonical code of every listed symbol and length 0 for the others |
| HuffmanTables.FillSizes | practice_dd/EX07-02_jpegtofb/src/jchuff.c:210-219 | figure C.1 in place: the array holds the code lengths in order, terminated by 0; failure exactly when they overrun 256 |
| HuffmanTables.FillCodes | practice_dd/EX07-02_jpegtofb/src/jchuff.c:224-239 | figure C.2 in place: consecutive codes, doubled at each longer length; failure exactly when some code would reach all ones |
| HuffmanTables.FillEncodingTables | practice_dd/EX07-02_jpegtofb/src/jchuff.c:248-263 | figure C.3 in place: failure exactly on an out-of-range or repeated symbol, otherwise each symbol has the code of its position and no other symbol has one |
| HuffmanTables.PrefixFree | practice_dd/EX07-02_jpegtofb/src/jchuff.c:210-263 | in every accepted table no code is a prefix of the code of another symbol |
| HuffmanTables.CodeShape | practice_dd/EX07-02_jpegtofb/src/jchuff.c:232-236 | in every accepted table every code has 1 to 16 bits, denotes its number, and contains a zero bit |
| HuffmanTables.DecodeInvertsCode | practice_dd/EX07-02_jpegtofb/src/jdhuff.c:397-433 | reading bit by bit against maxcode and valoffset recovers every coded symbol, whatever bits follow it |
| HuffmanTables.PositionsPrefixFree | practice_dd/EX07-02_jpegtofb/src/jchuff.c:224-239 | codes at two positions of an ascending, fitting length list: neither begins with the other |
| CodeLengths.DerivedCanonical | practice_dd/EX07-02_jpegtofb/src/jchuff.c:224-263 | code number j of length l is the first code of that length plus j, the first one being twice what follows the last shorter code, and belongs to the symbol that many places after those with shorter codes |
| CodeLengths.AcceptedExactly | practice_dd/EX07-02_jpegtofb/src/jchuff.c:203-263 | a table is accepted if and only if it lists at most 256 symbols, its code lengths leave some of the 65536 slots of 16 bits free, and the symbols are distinct, and at most 15 for DC |
| CodeLengths.FitsIffKraft | practice_dd/EX07-02_jpegtofb/src/jchuff.c:232-236 | the check on canonical codes succeeds if and only if the Kraft sum of the lengths is below 1 |
| Coding.HuffmanSound | practice_dd/EX07-02_jpegtofb/src/jdhuff.c:397-433 | any set of accepted tables forms a code that reads back every symbol it can write |
| HuffmanOptimality.Exchange | practice_dd/EX07-02_jpegtofb/src/jchuff.c:730-776 | giving the longer of two code lengths to the lighter symbol keeps the Kraft inequality and costs nothing |
| HuffmanOptimality.PairUp | practice_dd/EX07-02_jpegtofb/src/jchuff.c:730-776 | any lengths that satisfy the Kraft inequality can be rearranged, at no cost, so that the two lightest symbols share the longest length |
| HuffmanOptimality.MergeBound | practice_dd/EX07-02_jpegtofb/src/jchuff.c:756-759 | lengths for the weights give lengths for the merged weights that are cheaper by the merged weight |
| HuffmanOptimality.LowerBoundStep | practice_dd/EX07-02_jpegtofb/src/jchuff.c:756-759 | a merge of the two lightest keeps the lower bound on the cost of every code |
| HuffmanForests.PathDistinct | practice_dd/EX07-02_jpegtofb/src/jchuff.c:761-775 | following `others[]` from a root to its end never meets a symbol twice |
| HuffmanForests.JoinedGrown | practice_dd/EX07-02_jpegtofb/src/jchuff.c:756-776 | one merge keeps the links, the weight and the Kraft sum 1 of every tree, the Fibonacci bounds, the depth of the pseudo-symbol, the cost and the lower bound |
| HuffmanForests.JoinedDeepest | practice_dd/EX07-02_jpegtofb/src/jchuff.c:723-726 | after every merge no symbol is deeper than the pseudo-symbol 256, thanks to how ties are resolved |
| HuffmanForests.GrownOptimal | practice_dd/EX07-02_jpegtofb/src/jchuff.c:730-776 | when one tree is left the depths form a complete code that no assignment of lengths satisfying the Kraft inequality beats; depth d needs a total of Fibonacci(d + 2) |
| HuffmanForests.CodeSizesOptimal | practice_dd/EX07-02_jpegtofb/src/jchuff.c:730-776 | the code sizes of the procedure, as a function of the counts, are optimal |
| OptimalTables.FindSmallest | practice_dd/EX07-02_jpegtofb/src/jchuff.c:731-751 | the search finds the smallest nonzero frequency up to the cutoff, the larger symbol number winning ties, or reports that there is none |
| OptimalTables.Lengthen | practice_dd/EX07-02_jpegtofb/src/jchuff.c:761-766 | the walk along a chain adds one bit to exactly the symbols of the chain and ends at its last symbol |
| OptimalTables.MergeTrees | practice_dd/EX07-02_jpegtofb/src/jchuff.c:756-775 | the first tree takes in the second: frequencies, code sizes and links after a merge are those of the joined tree |
| OptimalTables.MergeTwo | practice_dd/EX07-02_jpegtofb/src/jchuff.c:730-776 | one turn of the loop takes the least nonzero frequency and the next, larger symbol numbers winning ties, and adds the second to the first; it stops when only one tree is left |
| OptimalTables.MergeAll | practice_dd/EX07-02_jpegtofb/src/jchuff.c:730-776 | the whole merge loop terminates with the code sizes of the procedure as a function, which are optimal for the counts, pseudo-symbol included |
| OptimalTables.CountLengths | practice_dd/EX07-02_jpegtofb/src/jchuff.c:778-788 | fails exactly when a code is over 32 bits, otherwise counts every length; no 8-bit count wraps around |
| CodeLengths.PairAvailable | practice_dd/EX07-02_jpegtofb/src/jchuff.c:801-812 | while a code is over 16 bits there are at least two of that length and a code at least two bits shorter |
| CodeLengths.LimitLengths | practice_dd/EX07-02_jpegtofb/src/jchuff.c:801-812 | the adjustment, as a function of the length counts, ends with no code over 16 bits, the Kraft sum 1 and the number of codes unchanged; it changes nothing if no code was longer |
| CodeLengths.SplitPair | practice_dd/EX07-02_jpegtofb/src/jchuff.c:801-812 | one turn replaces a pair of codes of the longest length by one a bit shorter, and the longest code at least two bits shorter by two a bit longer |
| CodeLengths.DropLongest | practice_dd/EX07-02_jpegtofb/src/jchuff.c:814-817 | exactly one code of the largest length still in use is removed |
| CodeLengths.DroppedFits | practice_dd/EX07-02_jpegtofb/src/jchuff.c:814-817 | with that slot free the canonical codes fit, and one code is left for every real symbol |
| OptimalTables.ListSymbols | practice_dd/EX07-02_jpegtofb/src/jchuff.c:822-834 | the symbols with codes are listed once each, by increasing code size, those of the same code size by increasing number, without the pseudo-symbol |
| OptimalTables.GenOptimalTable | practice_dd/EX07-02_jpegtofb/src/jchuff.c:704-838 | `jpeg_gen_optimal_table` assigns the code sizes of the procedure, which are optimal, fails exactly when one is over 32, and otherwise leaves the table that is a function of them, which `jpeg_make_c_derived_tbl` accepts: the counted symbols and no others, by increasing code size and then by number |
| OptimalTables.LengthsKept | practice_dd/EX07-02_jpegtofb/src/jchuff.c:814-834 | unless some code is over 16 bits, the table gives every symbol the length Huffman's procedure found: what is dropped is the code of the pseudo-symbol itself |
| OptimalTables.NoOverflow | practice_dd/EX07-02_jpegtofb/src/jchuff.c:783-784 | counts that total less than Fibonacci(35) = 9227465 never cause the overflow error |
| OptimalTables.CodesForCounted | practice_dd/EX07-02_jpegtofb/src/jchuff.c:822-834 | the table derived from a generated one has a code for a symbol if and only if the symbol was counted |
| OptimalTables.DerivedOptimal | practice_dd/EX07-02_jpegtofb/src/jchuff.c:722-834 | without codes over 16 bits the derived code lengths are optimal among all codes that also reserve the slot of the pseudo-symbol |
| OptimalTables.AcceptedForDC | practice_dd/EX07-02_jpegtofb/src/jchuff.c:255-263 | a generated table whose symbols are at most 15 is accepted as a DC table |
| OptimalTables.NothingInUse | practice_dd/EX07-02_jpegtofb/src/jchuff.c:814-817 | counts without any real symbol leave no code length in use, so that the search for the largest has nothing to stop at |
| BitStrings.ExtendMagnitude | practice_dd/EX07-02_jpegtofb/src/jdhuff.c:440-460 | EXTEND recovers a coefficient of either sign from its category and appended bits |
| BitOutput.BitWriter.EmitBits | practice_dd/EX07-02_jpegtofb/src/jchuff.c:301-336 | appends exactly the low bits of the code, stuffing a zero after every FF; refused exactly when the completed bytes do not fit; the incomplete byte keeps fewer than 8 bits |
| BitOutput.BitWriter.FlushBits | practice_dd/EX07-02_jpegtofb/src/jchuff.c:339-347 | fills the last byte with ones and empties the accumulator |
| BitOutput.HoldsAppend | practice_dd/EX07-02_jpegtofb/src/jchuff.c:313-319 | masking, aligning and merging new bits appends them to the held ones |
| BitOutput.HoldsByte | practice_dd/EX07-02_jpegtofb/src/jchuff.c:321-330 | the byte taken from the accumulator is its first eight bits, and the 32-bit shift keeps the rest |
| EntropySegments.StuffedHasNoMarker | practice_dd/EX07-02_jpegtofb/src/jchuff.c:324-327 | every FF of stuffed data is followed by 00 |
| EntropySegments.SplitScan | practice_dd/EX07-02_jpegtofb/src/jdhuff.c:466-505 | splitting a scan at its restart markers FF D0 to FF D7, which come in turn, and undoing the stuffing recovers the padded segments |
| EntropySegments.UnpackPadded | practice_dd/EX07-02_jpegtofb/src/jchuff.c:339-347 | padding adds fewer than eight bits and loses none |
| RunLength.BandRoundTrip | practice_dd/EX07-02_jpegtofb/src/jdphuff.c:355-437 | the band decoder follows the run-length coder to just past the last nonzero coefficient, ZRLs included |
| AcRefinement.RefineView | practice_dd/EX07-02_jpegtofb/src/jcphuff.c:648-656 | one refinement bit, or a newly nonzero sign, turns what is known of a coefficient at one bit position into what is known at the next |
| AcRefinement.RefineRoundTrip | practice_dd/EX07-02_jpegtofb/src/jdphuff.c:489-635 | the refinement decoder follows the refinement coder through all ZRLs, new coefficients and correction bits of a block |
| AcScans.StepBounded | practice_dd/EX07-02_jpegtofb/src/jcphuff.c:713-722 | one block keeps at most 937 correction bits waiting and the run below 7FFF; while its bits join, 1000 bits suffice and the run needs at most 14 bits |
| AcScans.RunBounded | practice_dd/EX07-02_jpegtofb/src/jcphuff.c:713-722 | these bounds hold between any two blocks of any run |
| AcScans.RunRoundTrip | practice_dd/EX07-02_jpegtofb/src/jdphuff.c:355-437 | any run of blocks, with end-of-band runs and correction bits that span blocks, is decoded exactly |
| AcScans.LoudBlock | practice_dd/EX07-02_jpegtofb/src/jcphuff.c:695-722 | a block with symbols ends the pending run and may start another, and the decoder agrees |
| AcScans.QuietBlock | practice_dd/EX07-02_jpegtofb/src/jcphuff.c:713-722 | a block without symbols only lengthens the pending run, and the decoder agrees |
| EobRuns.QuietBlocks | practice_dd/EX07-02_jpegtofb/src/jcphuff.c:642-658 | the blocks without symbols are exactly those in which no coefficient of the band becomes nonzero, in terms of coefficients and powers of two |
| EobRuns.QuietJoins | practice_dd/EX07-02_jpegtofb/src/jcphuff.c:713-722 | such a block writes nothing and lengthens the run by one if and only if the run does not become 7FFF and no more than 937 correction bits wait; otherwise the run goes out, this block included |
| EobRuns.LoudFlushes | practice_dd/EX07-02_jpegtofb/src/jcphuff.c:678-708 | any other block sends out the pending run and then its symbols, and starts a run of its own unless the last coefficient of the band ends it |
| EobRuns.OneRunSymbol | practice_dd/EX07-02_jpegtofb/src/jcphuff.c:315-339 | fewer than 7FFF such blocks with at most 937 correction bits are coded by exactly one symbol |
| EobRuns.FullRun | practice_dd/EX07-02_jpegtofb/src/jcphuff.c:541-545 | 7FFF empty blocks of a first scan are coded at once by the symbol E0 and its 14 bits, with nothing pending |
| Scans.DcRefineView | practice_dd/EX07-02_jpegtofb/src/jcphuff.c:591-593 | OR-ing one more bit into the known part of a DC coefficient of either sign gives its arithmetic shift at the next position |
| Scans.SequentialRoundTrip | practice_dd/EX07-02_jpegtofb/src/jdhuff.c:548-594 | a sequential block decodes to itself, and its DC value becomes the next prediction |
| Scans.IntervalRoundTrip | practice_dd/EX07-02_jpegtofb/src/jdphuff.c:284-635 | a restart interval of any kind of scan, read with predictions that start at 0 and no run owed, decodes to the refined blocks |
| ScanStreams.RestartIntervals | practice_dd/EX07-02_jpegtofb/src/jchuff.c:489-522 | however long the scan, the restart counters cut it into exactly its restart intervals, each coded from a fresh state |
| ScanStreams.ChunkAt | practice_dd/EX07-02_jpegtofb/src/jchuff.c:489-522 | MCU number i is number i modulo the interval of restart interval i / interval, and only the last interval may be short |
| ScanStreams.RunIsScan | practice_dd/EX07-02_jpegtofb/src/jcphuff.c:426-430 | checking coefficients MCU by MCU, with predictions carried and reset, is checking restart interval by restart interval |
| ScanStreams.ScanRoundTrip | practice_dd/EX07-02_jpegtofb/src/jdphuff.c:226-275 | decoding the bytes of a scan, of any kind and with any restart interval and sound code, every interval from predictions 0, rebuilds exactly what the scan refines |
| CoefficientOutput.EmitDiff | practice_dd/EX07-02_jpegtofb/src/jchuff.c:360-391 | a DC difference is emitted as its category symbol and appended bits, refused for categories over 11 |
| CoefficientOutput.EmitCoef | practice_dd/EX07-02_jpegtofb/src/jchuff.c:401-433 | a nonzero coefficient is emitted as ZRLs, its run/category symbol and appended bits, refused for categories over 10 |
| SequentialEncoding.EncodeOneBlock | practice_dd/EX07-02_jpegtofb/src/jchuff.c:352-443 | one block goes out as the tokens of section F.1.2; a suspension happens only for lack of room, an error only for a coefficient out of range or a missing code |
| SequentialEncoding.HuffEncoder.EncodeMcu | practice_dd/EX07-02_jpegtofb/src/jchuff.c:475-525 | a completed MCU moves the saved state by exactly one MCU; a suspended one changes nothing at all, and happens only when the MCU does not fit |
| SequentialEncoding.HuffEncoder.FinishPass | practice_dd/EX07-02_jpegtofb/src/jchuff.c:532-552 | the stream is completed to the bytes of the scan, if and only if the destination, when it may not be emptied, has room for them |
| SequentialScans.EncodeScan | practice_dd/EX07-02_jpegtofb/src/jchuff.c:475-552 | a whole scan succeeds exactly when all coefficients are in range, all symbols have codes and the final flush fits the emptied buffer, and however often the destination suspends the bytes depend on the MCUs alone |
| SequentialScans.ScanDecodes | practice_dd/EX07-02_jpegtofb/src/jdhuff.c:515-625 | from zeroed blocks and predictions 0 in every interval the decoder rebuilds every block of a sequential scan |
| SequentialStatistics.HtestOneBlock | practice_dd/EX07-02_jpegtofb/src/jchuff.c:571-636 | the statistics pass counts exactly the symbols `encode_one_block` emits, and rejects exactly the blocks it rejects |
| SequentialStatistics.HuffStatistics.EncodeMcu | practice_dd/EX07-02_jpegtofb/src/jchuff.c:644-673 | it goes through the same states as the output pass, restarts included, and its counts are those of the same symbols |
| SequentialScans.GatherScan | practice_dd/EX07-02_jpegtofb/src/jchuff.c:644-673 | after a whole scan the counts are the occurrences of each symbol in what an output pass emits |
| TokenSinks.TokenSink.EmitSymbol | practice_dd/EX07-02_jpegtofb/src/jcphuff.c:280-289 | a symbol is counted or written; a symbol without code is an error |
| TokenSinks.TokenSink.CloseSegment | practice_dd/EX07-02_jpegtofb/src/jcphuff.c:353-357 | a restart pads the open segment and writes marker RSTn, or leaves the counts as they are |
| TokenSinks.CompleteGrows | practice_dd/EX07-02_jpegtofb/src/jchuff.c:321-330 | more tokens never make fewer bytes complete |
| StreamGrowth.FinishedGrows | practice_dd/EX07-02_jpegtofb/src/jcphuff.c:203-215 | the stream of a scan is at least as long as what was complete on the way, so that a refusal anywhere means that the whole does not fit |
| ProgressiveEncoding.PhuffEncoder.EmitEobrun | practice_dd/EX07-02_jpegtofb/src/jcphuff.c:315-339 | the pending run and its correction bits go out and are cleared; the safety check on 14 bits never fails |
| ProgressiveEncoding.PhuffEncoder.EmitBufferedBits | practice_dd/EX07-02_jpegtofb/src/jcphuff.c:296-308 | the correction bits go out one by one, in order |
| ProgressiveEncoding.PhuffEncoder.StartMcu | practice_dd/EX07-02_jpegtofb/src/jcphuff.c:346-368 | a restart flushes the pending run, closes the segment and resets predictions, run and buffer |
| ProgressiveEncoding.PhuffEncoder.EncodeMcuDcFirst | practice_dd/EX07-02_jpegtofb/src/jcphuff.c:376-455 | a first DC scan: every MCU moves the state and the output as the specification says; it fails only on a coefficient out of range or a missing code |
| ProgressiveEncoding.PhuffEncoder.EncodeMcuAcFirst | practice_dd/EX07-02_jpegtofb/src/jcphuff.c:463-561 | a first AC scan: every MCU moves state and output as the specification says, with its end-of-band runs |
| ProgressiveEncoding.PhuffEncoder.EncodeMcuDcRefine | practice_dd/EX07-02_jpegtofb/src/jcphuff.c:570-610 | a DC refinement scan: every MCU adds one bit for each block and leaves predictions alone |
| ProgressiveEncoding.PhuffEncoder.EncodeMcuAcRefine | practice_dd/EX07-02_jpegtofb/src/jcphuff.c:617-738 | an AC refinement scan: every MCU moves state and output as the specification says, with its pending run and buffered correction bits |
| ProgressiveEncoding.PhuffEncoder.Magnitudes | practice_dd/EX07-02_jpegtofb/src/jcphuff.c:642-658 | the pre-pass finds the shifted magnitudes and the last newly nonzero coefficient |
| ProgressiveEncoding.PhuffEncoder.RefineLoop | practice_dd/EX07-02_jpegtofb/src/jcphuff.c:662-711 | the main loop emits exactly the symbols, signs and correction bits up to the last new coefficient and keeps the rest for the end-of-band run |
| ProgressiveEncoding.PhuffEncoder.JoinRun | practice_dd/EX07-02_jpegtofb/src/jcphuff.c:713-722 | trailing coefficients join the pending run, which is forced out when its counter or its buffer might overflow |
| ProgressiveEncoding.PhuffEncoder.FinishPass | practice_dd/EX07-02_jpegtofb/src/jcphuff.c:745-784 | the end of a pass flushes the pending run, and completes the stream or the counts; it fails exactly on a missing code or a destination that refuses |
| ProgressiveScans.EncodeScan | practice_dd/EX07-02_jpegtofb/src/jcphuff.c:203-784 | one pass succeeds exactly when coefficients are in range and, in an output pass, all symbols have codes and a destination that cannot be emptied never fills up: its refusal is fatal; the bytes are those of the scan, or the counts those of its symbols |
| ProgressiveScans.ScanDecodes | practice_dd/EX07-02_jpegtofb/src/jdphuff.c:284-635 | a successful output pass is decodable from whatever the earlier scans left |
| OptimizedScans.TailoredCodable | practice_dd/EX07-02_jpegtofb/src/jchuff.c:309-311 | with tables that have codes for exactly the counted symbols no counted symbol lacks a code |
| OptimizedScans.GenerateBook | practice_dd/EX07-02_jpegtofb/src/jchuff.c:845-880 | one row of counts of a scan becomes a table accepted for its use, with codes for exactly the counted symbols, if and only if the procedure stays within 32 bits |
| OptimizedScans.MadeFrom | practice_dd/EX07-02_jpegtofb/src/jchuff.c:722-880 | the code derived from a generated table is a function of the counts alone |
| OptimizedScans.MadeWrites | practice_dd/EX07-02_jpegtofb/src/jchuff.c:845-880 | so the tables of a scan write what the code made from its counts writes |
| OptimizedScans.SameOutput | practice_dd/EX07-02_jpegtofb/src/jchuff.c:301-336 | two codes that write alike make the same bytes of a scan |
| ScanSymbols.ScanExpected | practice_dd/EX07-02_jpegtofb/src/jchuff.c:360-433 | in every mode and with every restart interval a scan within the coefficient limits emits only DC symbols up to 11 and AC symbols with a category up to 10 |
| OptimizedScans.CountsFew | practice_dd/EX07-02_jpegtofb/src/jchuff.c:778-788 | no table of such a scan counts more symbols than an 8-bit length count can hold |
| OptimizedScans.LowShallow | practice_dd/EX07-02_jpegtofb/src/jchuff.c:783-784 | totals below Fibonacci(35) keep the codes of every table within 32 bits |
| SymbolTotals.ScanSyms | practice_dd/EX07-02_jpegtofb/src/jchuff.c:571-636 | a scan emits at most 68 symbols for each block, and one for each MCU, whatever its restarts |
| SymbolTotals.SmallScan | practice_dd/EX07-02_jpegtofb/src/jchuff.c:783-784 | so a scan of a moderate number of blocks has totals below Fibonacci(35) |
| OptimizedScans.ProgressiveTables | practice_dd/EX07-02_jpegtofb/src/jcphuff.c:766-806 | statistics and tables of a progressive scan: success exactly if all coefficients are in range and the procedure stays within 32 bits, and then no symbol lacks a code |
| OptimizedScans.EncodeProgressive | practice_dd/EX07-02_jpegtofb/src/jcphuff.c:766-806 | both passes over a progressive scan: the output pass never meets a missing code; success exactly if all coefficients are in range and no code is over 32 bits |
| OptimizedScans.SequentialTables | practice_dd/EX07-02_jpegtofb/src/jchuff.c:845-880 | statistics and tables of a sequential scan, with the same guarantee |
| OptimizedScans.EncodeSequential | practice_dd/EX07-02_jpegtofb/src/jchuff.c:845-880 | both passes over a sequential scan: the output pass never meets a missing code; success exactly if all coefficients are in range and no code is over 32 bits |
| ScanScripts.ValidateScript | practice_dd/EX07-02_jpegtofb/src/jcmaster.c:129-261 | `validate_script` accepts a script if and only if it is valid, and tells progressive from sequential |
| ScriptRules.ValidExactly | practice_dd/EX07-02_jpegtofb/src/jcmaster.c:129-261 | the valid scripts in terms of the scans alone: components, bands and bit positions within their limits, DC before AC, every later scan of a coefficient the next bit after the last scan that sent it, and no component without DC |
| ScanScripts.CheckBand | practice_dd/EX07-02_jpegtofb/src/jcmaster.c:211-225 | the bit-position table is updated for the band exactly when every coefficient may be continued |
| ScanScripts.CheckProgression | practice_dd/EX07-02_jpegtofb/src/jcmaster.c:186-226 | one scan is accepted if and only if it may follow the ones before it, and the table then records it |
| ScanScripts.CheckSequential | practice_dd/EX07-02_jpegtofb/src/jcmaster.c:228-239 | a sequential scan is accepted if and only if it sends whole blocks of components not sent before |
| SimpleProgressions.ScriptParams.SimpleProgression | practice_dd/EX07-02_jpegtofb/src/jcparam.c:536-608 | the script is written into as many entries as were computed, reusing the old space when it suffices and otherwise allocating at least ten entries |
| ScriptRules.ColorScans | practice_dd/EX07-02_jpegtofb/src/jcparam.c:575-596 | the ten scans for YCbCr, parameter by parameter |
| ScriptRules.PlainScans | practice_dd/EX07-02_jpegtofb/src/jcparam.c:598-608 | the scans for all other images, parameter by parameter, for every number of components |
| SimpleProgressions.FillDcScans | practice_dd/EX07-02_jpegtofb/src/jcparam.c:508-530 | one interleaved DC scan if the components fit a scan, else one for each; other entries stay |
| SimpleProgressions.FillScans | practice_dd/EX07-02_jpegtofb/src/jcparam.c:489-506 | one scan for each component; other entries stay |
| SimpleProgressions.SimpleScriptComplete | practice_dd/EX07-02_jpegtofb/src/jcparam.c:572-606 | for every number of components the script is accepted, is progressive, and leaves no bit of any coefficient unsent |
| ScriptDecoding.BlockMoves | practice_dd/EX07-02_jpegtofb/src/jcmaster.c:210-226 | what a valid script lets the decoder know of a block is what the next scan presumes, and afterwards what the script says |
| ScriptDecoding.ScanMoves | practice_dd/EX07-02_jpegtofb/src/jcmaster.c:210-226 | one decoded scan turns what is known of every block into what the script says, blocks outside the scan untouched |
| ScriptDecoding.ScriptRoundTrip | practice_dd/EX07-02_jpegtofb/src/jcphuff.c:297-759 | for every script in order and every image in range, decoding the first scans one after another succeeds and rebuilds each DC as its arithmetic shift and each AC as sign times shifted magnitude at the last bit position sent |
| ScriptDecoding.KnownNumber | practice_dd/EX07-02_jpegtofb/src/jcphuff.c:405-505 | what is known of a coefficient sent down to a bit: of DC the largest multiple of that power of two not above it, of AC the nearest multiple toward zero |
| ScriptDecoding.CompleteScriptLossless | practice_dd/EX07-02_jpegtofb/src/jcmaster.c:242-254 | a script that leaves nothing unsent transmits the image without loss |
| CompressionPasses.MakeJob | practice_dd/EX07-02_jpegtofb/src/jcmaster.c:542-589 | the script is validated, and a progressive image optimizes its tables; a script-less image is one scan of at most four components |
| CompressionPasses.FirstScanFresh | practice_dd/EX07-02_jpegtofb/src/jcmaster.c:214-218 | a valid script does not begin with a refinement scan |
| CompressionPasses.Master.PrepareForPass | practice_dd/EX07-02_jpegtofb/src/jcmaster.c:400-471 | the pass has its scan's parameters loaded; it gathers statistics in the first pass and the optimization passes, which a DC refinement scan skips; headers are written at once or postponed to the first scanlines |
| CompressionPasses.Master.FinishPass | practice_dd/EX07-02_jpegtofb/src/jcmaster.c:502-535 | the next pass and scan follow; statistics become the tables of their scan |
| CompressionPasses.Master.FinishCompress | practice_dd/EX07-02_jpegtofb/src/jcapimin.c:146-176 | the remaining passes end successfully if and only if no row of an output pass among them is refused, and the file then holds every scan exactly once, in order, under its own header, parameters and tables; at a refusal, which is fatal, it holds exactly the scans before it and the rows before it |
| CompressionPasses.Master.Compress | practice_dd/EX07-02_jpegtofb/src/jcapimin.c:146-176 | a whole compression, from the first pass on, with the same two outcomes |
| CompressionPasses.EachScanInPlace | practice_dd/EX07-02_jpegtofb/src/jcmaster.c:455-463 | the file is one frame header, then the output of each scan, at a place of its own |
| CompressionPasses.FileEntries | practice_dd/EX07-02_jpegtofb/src/jcmaster.c:400-463 | entry by entry: the frame header, then for each scan its header and its rows in order, coded with the tables made for it unless none are made or it refines DC |
| Preprocessing.CreateContextBuffer | practice_dd/EX07-02_jpegtofb/src/jcprepct.c:266-306 | row pointers from one group above to one group below the buffer wrap around |
| Preprocessing.NextGroup | practice_dd/EX07-02_jpegtofb/src/jcprepct.c:250-256 | advancing to the next row group with wraparound keeps the window in place |
| Preprocessing.RowBefore | practice_dd/EX07-02_jpegtofb/src/jcprepct.c:234-240 | the row that the bottom padding copies is the last row entered, through a wrapped pointer if need be |
| Preprocessing.PrepController.TakeContextRows | practice_dd/EX07-02_jpegtofb/src/jcprepct.c:207-229 | input rows, and at the top the first row repeated, extend the window by exactly what was taken |
| Preprocessing.PrepController.EmitContextGroup | practice_dd/EX07-02_jpegtofb/src/jcprepct.c:243-257 | the group downsampled is that of the image rows of the groups above, at and below it |
| Preprocessing.PrepController.PreProcessContext | practice_dd/EX07-02_jpegtofb/src/jcprepct.c:194-258 | for every image height and chunking of rows, each output group sees its own and its neighbour groups, top and bottom rows repeated |
| Preprocessing.PrepController.PreProcessData | practice_dd/EX07-02_jpegtofb/src/jcprepct.c:127-184 | without context each output group is its own rows, the last one completed; below the image the last output rows are repeated |
| Preprocessing.PrepController.ExpandOutput | practice_dd/EX07-02_jpegtofb/src/jcprepct.c:172-183 | the output is filled with copies of the last row of each component |
| Preprocessing.OutBelow | practice_dd/EX07-02_jpegtofb/src/jcprepct.c:169-183 | all groups below the image repeat the last group of the image |
| Preprocessing.RowsBelow | practice_dd/EX07-02_jpegtofb/src/jcprepct.c:169-183 | every group below the image repeats, of each component, the last row of the last group that begins inside the image |
| Preprocessing.OwnRows | practice_dd/EX07-02_jpegtofb/src/jcprepct.c:127-184 | without context a group that begins inside the image is made of its own image rows, by number, the last image row standing in for those below |
| Preprocessing.ContextRows | practice_dd/EX07-02_jpegtofb/src/jcprepct.c:194-258 | with context a group is made of the image rows of three groups, by number, the first and last image row standing in for those above and below |
| MainControl.MainController.ProcessData | practice_dd/EX07-02_jpegtofb/src/jcmainct.c:112-158 | iMCU rows are accepted once each, in order; the row counter never underflows and is one short exactly while suspended; the call stops only for lack of rows or because the compressor refused |
| MainControl.MainController.HandOver | practice_dd/EX07-02_jpegtofb/src/jcmainct.c:134-156 | a refusal keeps the full buffer and takes back one row; an acceptance gives it back |
| MainControl.Compressor.WriteScanlines | practice_dd/EX07-02_jpegtofb/src/jcapistd.c:76-111 | `next_scanline` advances by the rows taken and never passes the image height; fewer rows are taken only on a refusal |
| MainControl.Compressor.DoneIffAccepted | practice_dd/EX07-02_jpegtofb/src/jcapistd.c:102-110 | `next_scanline` equals the image height exactly when every iMCU row has been accepted, and iMCU row t was accepted as the output groups 8 t to 8 t + 7 |
| Geometry.InitialSetup | practice_dd/EX07-02_jpegtofb/src/jcmaster.c:77-90 | sampling factors outside 1 to 4 are rejected; the maxima are the largest factors |
| Geometry.NestedRoundUp | practice_dd/EX07-02_jpegtofb/src/jcmaster.c:99-106 | ceil(ceil(a h / m) / h) = ceil(a / m) |
| Geometry.ComponentGrid | practice_dd/EX07-02_jpegtofb/src/jcmaster.c:93-123 | every component is cut into the same number of MCU columns and rows, of which only the last are incomplete |
| Geometry.LeastBlocks | practice_dd/EX07-02_jpegtofb/src/jcmaster.c:93-123 | a component is the least number of 8 by 8 blocks wide and high that covers it, and the image the least number of MCUs |
| ScanSetups.PerScanSetup | practice_dd/EX07-02_jpegtofb/src/jcmaster.c:307-389 | the setup has the dimensions, membership and restart interval of the scan; it fails exactly for no or over four components or more than ten blocks |
| CoefControl.CoefController.TransformRow | practice_dd/EX07-02_jpegtofb/src/jccoefct.c:170-188 | a block row of an MCU: transforms, then dummy blocks with the DC value of the last one |
| CoefControl.CoefController.TransformMcu | practice_dd/EX07-02_jpegtofb/src/jccoefct.c:167-200 | an MCU built on the fly is that of the padded image |
| CoefControl.CoefController.CompressData | practice_dd/EX07-02_jpegtofb/src/jccoefct.c:142-217 | the pass-through mode hands over exactly the MCUs of the iMCU row; on a suspension the counters stand at the MCU that the coder refused |
| McuSinks.McuSink.EncodeMcu | practice_dd/EX07-02_jpegtofb/src/jchuff.c:475-525 | behind `encode_mcu` the encoder is always in the state of a run over the MCUs accepted so far; it suspends only if its destination has no room for the bytes the MCU would complete |
| ScanSetups.NextOfScan | practice_dd/EX07-02_jpegtofb/src/jccoefct.c:153-217 | the MCUs before a position of the counters are the first ones of the scan, and the one at the position is the next |
| ScanBlocks.PaddedStands | practice_dd/EX07-02_jpegtofb/src/jccoefct.c:170-200 | what stands at any place of a component: its block; right of it a block with the DC value of the last block of the row and nothing else; below it one with the DC value of the last block of the lowest real row of the cell and nothing else |
| ScanBlocks.InterleavedBlock | practice_dd/EX07-02_jpegtofb/src/jccoefct.c:153-217 | place by place, the MCUs that an interleaved scan hands over: row by row of the image, in an MCU component by component, and of each component row by row, dummy blocks as above |
| ScanBlocks.SingleBlock | practice_dd/EX07-02_jpegtofb/src/jcmaster.c:307-335 | the MCUs of a one-component scan are its real blocks, row by row, and no others |
| CodingPasses.OneCall | practice_dd/EX07-02_jpegtofb/src/jccoefct.c:202-211 | a call that suspends, followed by emptying the destination, has done an MCU or at least emptied a buffer that was not empty |
| CodingPasses.RunPass | practice_dd/EX07-02_jpegtofb/src/jccoefct.c:142-395 | a pass in any buffer mode ends, however often the coder suspends, with exactly the MCUs of the scan accepted; it fails only at an MCU that cannot be coded |
| CodingPasses.RunOnce | practice_dd/EX07-02_jpegtofb/src/jcapimin.c:160-175 | a pass of `jpeg_finish_compress` ends with exactly the MCUs of the scan accepted, or for good at an MCU that cannot be coded or that the destination refuses |
| CoefControl.CoefController.SaveRealRow | practice_dd/EX07-02_jpegtofb/src/jccoefct.c:280-295 | a saved block row with its dummy blocks at the right edge; all other rows are kept |
| CoefControl.CoefController.SaveDummyRow | practice_dd/EX07-02_jpegtofb/src/jccoefct.c:301-318 | a saved dummy row: within each MCU the DC value of the last block above |
| CoefControl.CoefController.SaveStrips | practice_dd/EX07-02_jpegtofb/src/jccoefct.c:256-320 | the strip of every component is in the virtual arrays, earlier strips kept |
| CoefControl.CoefController.CompressOutput | practice_dd/EX07-02_jpegtofb/src/jccoefct.c:340-395 | the full-image mode hands over exactly the MCUs of the iMCU row, and resumes where it was refused |
| CoefControl.CoefController.CompressFirstPass | practice_dd/EX07-02_jpegtofb/src/jccoefct.c:244-328 | the first pass saves the strip and hands over the same MCUs; redone after a suspension it changes nothing |
| CoefControl.ControllersAgree | practice_dd/EX07-02_jpegtofb/src/jccoefct.c:142-395 | both modes, whatever suspended them, have handed over the same MCUs in the end |
| ScanLayouts.LayoutDistinct | practice_dd/EX07-02_jpegtofb/src/jccoefct.c:363-384 | no block is in two places of a scan |
| ScanLayouts.RealHasPlace | practice_dd/EX07-02_jpegtofb/src/jcmaster.c:318-373 | every real block of a component of the scan is in some MCU |
| ScanLayouts.IdInside | practice_dd/EX07-02_jpegtofb/src/jccoefct.c:430-437 | every block of an MCU is inside the padded array, and a real block in a scan of one component |
| ScanLayouts.LayoutSuits | practice_dd/EX07-02_jpegtofb/src/jcmaster.c:307-389 | the MCUs of a scan that was set up are what decoding a script relies on |
| Pictures.MakeImage | practice_dd/EX07-02_jpegtofb/src/jccoefct.c:430-437 | every picture has an image that holds its padded components |
| Pictures.GatheredIsScan | practice_dd/EX07-02_jpegtofb/src/jccoefct.c:363-384 | the blocks at the ids of a scan, in zigzag order, are the MCUs that the controllers hand over |
| Pictures.PictureRoundTrip | practice_dd/EX07-02_jpegtofb/src/jcphuff.c:297-759 | for every picture, every script in order and streams written for its scans, decoding them in order yields of every real block exactly what was sent |
| Pictures.PictureLossless | practice_dd/EX07-02_jpegtofb/src/jcparam.c:572-606 | with a script that leaves nothing unsent every real block comes back exactly |
| Pictures.PictureReturned | practice_dd/EX07-02_jpegtofb/src/jdhuff.c:575-590 | and coefficient by coefficient: what is decoded at zigzag position k is the coefficient of the picture at the natural position of k |
| CoefficientRanges.ScanFits | practice_dd/EX07-02_jpegtofb/src/jchuff.c:376-421 | blocks with DC from -1024 to 1023 and AC from -1023 to 1023 are within the coder limits in every kind of scan and with every restart interval |
| CoefficientRanges.PictureFits | practice_dd/EX07-02_jpegtofb/src/jchuff.c:376-420 | of a picture whose transformed blocks are in that range every scan is within the limits, dummy blocks included |
| BufferRoom.FedSize | practice_dd/EX07-02_jpegtofb/src/jchuff.c:321-336 | an MCU within the limits completes at most 528 bytes for each block, stuffing included, and five more |
| BufferRoom.RoomForEach | practice_dd/EX07-02_jpegtofb/src/jchuff.c:475-525 | a buffer with more room than that lets every MCU through once it is emptied, whatever the tables and restarts |
| ScanSizes.ScanSize | practice_dd/EX07-02_jpegtofb/src/jchuff.c:321-347 | with codes of at most 16 bits the stream of a scan of any kind within the limits takes at most 528 bytes for each block and two for each MCU, stuffing, restarts and end-of-band runs included |
| ScanSizes.ScanAtLeast | practice_dd/EX07-02_jpegtofb/src/jchuff.c:352-443 | a scan of any kind but a progressive AC scan takes at least a bit for each block |
| ScanSetups.McuCount | practice_dd/EX07-02_jpegtofb/src/jcmaster.c:307-372 | a scan has as many MCUs as its MCU rows and columns make |
| ScanCompression.CollectMcus | practice_dd/EX07-02_jpegtofb/src/jccoefct.c:142-395 | a controller in any buffer mode hands over the MCUs of the scan, and leaves the picture in the virtual arrays |
| ScanCompression.CodeThrough | practice_dd/EX07-02_jpegtofb/src/jccoefct.c:202-211 | a first pass that writes: controller and sequential encoder together, with a destination that may suspend at any MCU and is emptied then, write byte for byte the stream of an uninterrupted run, and succeed exactly if all coefficients are in range, all symbols have codes and the last flush, which may not suspend, has room |
| ScanCompression.CodeOnce | practice_dd/EX07-02_jpegtofb/src/jcapimin.c:160-175 | a later pass of the sequential coder, where a refusal is fatal: success exactly if the scan can be coded and its whole stream never uses up the room that is left |
| ScanCompression.WriteMarkers | practice_dd/EX07-02_jpegtofb/src/jcmarker.c:108-118 | marker bytes are written exactly if they do not use up the room: a refusal is fatal |
| ScanCompression.OutputPass | practice_dd/EX07-02_jpegtofb/src/jcapimin.c:160-175 | an output pass of a scan of any kind after the first pass: success exactly if all coefficients are in range, all symbols have codes, and the room, not emptied, is not used up; then the stream, and so much less room |
| ScanCompression.FirstPass | practice_dd/EX07-02_jpegtofb/src/jccoefct.c:142-328 | the first pass of a script with given tables, in which the coder may suspend: success exactly if the scan can be coded and its last flush has room |
| ScanCompression.MakeTables | practice_dd/EX07-02_jpegtofb/src/jchuff.c:845-880 | the statistics pass over a scan: success exactly if its coefficients are in range and no code is over 32 bits, and then tables that write what the counts determine |
| ScanCompression.CodeScan | practice_dd/EX07-02_jpegtofb/src/jcapimin.c:160-175 | one scan of `jpeg_finish_compress`, with given tables or with tables made from its counts: success exactly if it can be coded and headers and stream together do not use up the room, and then the stream that its decoder relies on |
| ScanCompression.CodeScans | practice_dd/EX07-02_jpegtofb/src/jcapimin.c:146-176 | the scans of a script in order, the first pass saving the image and the others reading it: success exactly if each scan can be coded and, with a destination that may suspend, all that `jpeg_finish_compress` writes fits the room left for it |
| ScanCompression.CodeScript | practice_dd/EX07-02_jpegtofb/src/jcapimin.c:146-176 | all scans of a valid script decode to what the script sent, or, if it is complete, to the coefficients of the picture itself; success exactly as above: the first pass may suspend, every refusal after it, or of the progressive coder, is fatal |
| OutputRooms.InRangeCodes | practice_dd/EX07-02_jpegtofb/src/jchuff.c:376-420 | with coefficients in range and totals below Fibonacci(35) a scan can always be coded |
| OutputRooms.InRangeReady | practice_dd/EX07-02_jpegtofb/src/jchuff.c:778-788 | with coefficients in range and a moderate number of blocks nothing else is needed for a scan to be coded with tables made for it |
| OutputRooms.InRangeRoomy | practice_dd/EX07-02_jpegtofb/src/jchuff.c:475-525 | to suspend at any MCU of a first pass that writes, a buffer of 528 bytes for each block of an MCU and six more is enough, and 5286 bytes always are |
| OutputRooms.SizeWithin | practice_dd/EX07-02_jpegtofb/src/jchuff.c:321-347 | with given or made tables, the stream of a scan takes at most 528 bytes for each block and two for each MCU, and its last flush two |
| OutputRooms.InRangeScript | practice_dd/EX07-02_jpegtofb/src/jcapimin.c:146-176 | for every picture in range of moderate size and every script, made tables and room for headers, 528 bytes for each block, two for each MCU and the end-of-image marker are enough for success |
| OutputRooms.EnoughRoom | practice_dd/EX07-02_jpegtofb/src/jcapimin.c:146-176 | and with given tables that have all symbols; for a single scan five bytes at the end suffice |
| OutputRooms.SingleScanRoom | practice_dd/EX07-02_jpegtofb/src/jcapimin.c:177-178 | a single scan with given tables needs at the end more room than its last flush and two bytes, and in the buffer more than its headers |
| OutputRooms.HeadersCount | practice_dd/EX07-02_jpegtofb/src/jcapimin.c:160-175 | every header byte of a scan written at the end counts toward the room |
| OutputRooms.LongScanFails | practice_dd/EX07-02_jpegtofb/src/jcapimin.c:171-172 | with given tables a scan after the first with eight blocks for each byte of the room always fails |
| OutputRooms.ManyRestartsFail | practice_dd/EX07-02_jpegtofb/src/jcphuff.c:210-211 | in any mode and with any tables, a scan after the first pass whose restart markers alone fill the room fails |
| OutputRooms.SecondScanFails | practice_dd/EX07-02_jpegtofb/src/jcapimin.c:171-172 | two one-component scans of an image of 1648 by 1648 samples, with a buffer of 5287 bytes that suffices to suspend in the first pass, always fail in the second |
| Unicode.RunEncoded | practice_dd/EX07-02_jpegtofb/src/convertutf.c:62-521 | on well-formed text every converter, strict or lenient, converts exactly the characters that fit the target and stops between characters |
| Unicode.ReadEncoded | practice_dd/EX07-02_jpegtofb/src/convertutf.c:344-363 | what one encoding form reads back is what it encoded, whatever follows |
| Unicode.Sum8Inverts | practice_dd/EX07-02_jpegtofb/src/convertutf.c:352-363 | the shifted sum less the magic offset decodes what RFC 3629 encodes, and the sequence is legal |
| LenientTexts.LeadingOnes | practice_dd/EX07-02_jpegtofb/src/convertutf.c:175-184 | the table of trailing bytes tells from the leading ones of a first byte how many follow |
| LenientTexts.Utf8Examples | practice_dd/EX07-02_jpegtofb/src/convertutf.c:270-275 | the examples of section 7 of RFC 3629 |
| LenientTexts.Utf16Examples | practice_dd/EX07-02_jpegtofb/src/convertutf.c:99-107 | the example of section 5 of RFC 2781, and the first and last values |
| UnicodeLaws.FittingGreedy | practice_dd/EX07-02_jpegtofb/src/convertutf.c:94-98 | the characters converted fit the target, and one more would not |
| UnicodeLaws.RoundTrip | practice_dd/EX07-02_jpegtofb/src/convertutf.c:62-521 | there and back again between any two forms is the identity on all sequences of scalar values |
| UnicodeLaws.LegalExactly | practice_dd/EX07-02_jpegtofb/src/convertutf.c:296-321 | `isLegalUTF8` accepts the grammar of RFC 3629 and, beyond it, exactly the sequences with a second byte below 80 after ED or F4 |
| UnicodeLaws.LegalTooMuch | practice_dd/EX07-02_jpegtofb/src/convertutf.c:309-311 | the bytes ED 00 80 are accepted and decode to B000, whose encoding is EB 80 80 |
| UnicodeLaws.EncodeAfterDecode | practice_dd/EX07-02_jpegtofb/src/convertutf.c:309-311 | encoding undoes decoding of an accepted sequence if and only if it is not ED or F4 with a second byte below 80 |
| UnicodeLaws.WellFormedRoundTrip | practice_dd/EX07-02_jpegtofb/src/convertutf.c:337-521 | decoding to UTF-16 or UTF-32 and encoding again gives back every well-formed UTF-8 text |
| UnicodeLaws.AcceptedRoundTrip | practice_dd/EX07-02_jpegtofb/src/convertutf.c:463-521 | a UTF-8 text that converts without error is given back if and only if it is well-formed |
| UnicodeLaws.WellFormedEncodes | practice_dd/EX07-02_jpegtofb/src/convertutf.c:296-321 | every text by the grammar of RFC 3629 is the encoding of a sequence of scalar values |
| UnicodeLaws.DirectIsIndirect | practice_dd/EX07-02_jpegtofb/src/convertutf.c:215-403 | direct conversion between UTF-8 and UTF-16 of any input, strict or lenient, equals conversion through UTF-32 in output, position and result |
| UnicodeLaws.Resumed | practice_dd/EX07-02_jpegtofb/src/convertutf.c:94-98 | a conversion that stopped for lack of room and is resumed takes and writes what one with the room from the start does; the results agree unless the first call had noted an error and the second reports none |
| UnicodeLaws.LostOnResuming | practice_dd/EX07-02_jpegtofb/src/convertutf.c:87-98 | from UTF-32 the result of a resumed conversion that came to an end differs from that of one with the same room exactly when what the first call took holds a value to be reported and the rest does not |
| UnicodeLaws.InPieces | practice_dd/EX07-02_jpegtofb/src/convertutf.c:265-269 | conversion in pieces, each with a fresh target, takes and writes what one conversion with any room that is enough does; the results agree exactly unless an earlier piece noted an error and the last reports none |
| UnicodeLaws.LostExactly | practice_dd/EX07-02_jpegtofb/src/convertutf.c:438-447 | from UTF-32 the result of pieces that came to an end differs from that of one conversion exactly when what was taken before the last call holds a value to be reported and the rest does not |
| UnicodeLaws.LostInPieces | practice_dd/EX07-02_jpegtofb/src/convertutf.c:438-447 | 110000 41 in pieces of three bytes and one passes for a text without errors |
| UnicodeLaws.RoomToSpare | practice_dd/EX07-02_jpegtofb/src/convertutf.c:94-98 | a conversion that did not run out of room is the same with more room |
| UnicodeLaws.StopsAtIllegal | practice_dd/EX07-02_jpegtofb/src/convertutf.c:74-98 | for every text and every room a strict conversion from UTF-32 to UTF-16 leaves the source at the first illegal value if and only if it gets there and that is a surrogate or there is no room left |
| UnicodeLaws.PassesOver | practice_dd/EX07-02_jpegtofb/src/convertutf.c:87-92 | 110000 followed by 41 converts to 41 alone, all input taken |
| UnicodeLaws.RunsOut | practice_dd/EX07-02_jpegtofb/src/convertutf.c:62-521 | for every text, form, mode and room the target is reported exhausted if and only if the room is less than the conversion needs |
| LenientTexts.LenientReplaces | practice_dd/EX07-02_jpegtofb/src/convertutf.c:82-96 | a lenient conversion from UTF-32 takes and writes, in any room, what it would of the text with every value that cannot be written replaced by FFFD: to UTF-16 surrogates and values over 10FFFF, to UTF-8 the latter |
| LenientTexts.LenientWrites | practice_dd/EX07-02_jpegtofb/src/convertutf.c:410-459 | with room for it, the output is the encoding of the text so replaced, and an error is reported exactly for a value over 10FFFF converted to UTF-8 |
| LenientTexts.LenientLossless | practice_dd/EX07-02_jpegtofb/src/convertutf.c:111-164 | a lenient conversion from UTF-16 to UTF-32 loses nothing, unpaired surrogates included, and stops only at the end, a full target, or a high surrogate that ends the text |
| UnicodeLaws.NeedEncoded | practice_dd/EX07-02_jpegtofb/src/convertutf.c:94-98 | for well-formed text that need is the length of its other encoding |
| UnicodeLaws.ErrorReported | practice_dd/EX07-02_jpegtofb/src/convertutf.c:62-107 | for every text, target form, mode and room a conversion from UTF-32 reports an error in the text if and only if there is all the room it needs |
| UnicodeLaws.ForgetsError | practice_dd/EX07-02_jpegtofb/src/convertutf.c:438-447 | to UTF-8 with room for three bytes, the error of 110000 is forgotten when 41 finds the target full |
| UnicodeLaws.ForgetsErrorIn16 | practice_dd/EX07-02_jpegtofb/src/convertutf.c:87-98 | in a strict conversion to UTF-16 with room for one unit, the error of 110000 is forgotten when 42 finds the target full |
| ConvertUtf.ConvertUTF32toUTF16 | practice_dd/EX07-02_jpegtofb/src/convertutf.c:62-107 | over buffers: source and target positions, units written and result are those of the conversion of the text; the rest of the target is untouched |
| ConvertUtf.ConvertUTF16toUTF32 | practice_dd/EX07-02_jpegtofb/src/convertutf.c:111-164 | positions, units written and result are those of the conversion of the text, surrogate pairs taken together |
| ConvertUtf.ConvertUTF16toUTF8 | practice_dd/EX07-02_jpegtofb/src/convertutf.c:215-281 | positions, bytes written and result are those of the conversion of the text, though bytes are written from the last to the first |
| ConvertUtf.ConvertUTF32toUTF8 | practice_dd/EX07-02_jpegtofb/src/convertutf.c:410-459 | positions, units written and result are those of the conversion of the text; the rest of the target is untouched |
| ConvertUtf.ConvertUTF8toUTF16 | practice_dd/EX07-02_jpegtofb/src/convertutf.c:337-403 | positions, units written and result are those of the conversion of the text, backing up over a whole sequence when the target is full |
| ConvertUtf.ConvertUTF8toUTF32 | practice_dd/EX07-02_jpegtofb/src/convertutf.c:463-521 | positions, units written and result are those of the conversion of the text; the rest of the target is untouched |
| ConvertUtf.IsLegalUTF8 | practice_dd/EX07-02_jpegtofb/src/convertutf.c:296-321 | looking at the bytes from the last to the first decides legality |
| ConvertUtf.IsLegalUTF8Sequence | practice_dd/EX07-02_jpegtofb/src/convertutf.c:327-333 | a sequence is legal exactly when a character can be read there |
| ConvertUtf.PutBytes | practice_dd/EX07-02_jpegtofb/src/convertutf.c:270-275 | the bytes written backwards are the UTF-8 encoding of the character |
| ConvertUtf.ReadUTF8 | practice_dd/EX07-02_jpegtofb/src/convertutf.c:344-364 | the next character is read, or the reason why not, and is always a scalar value |

## Left out

- OptimalTables.GenOptimalTable: when codes are over 16 bits it is shown that the adjusted table is accepted and complete, not how far from optimal it is; the source does not claim optimality there.
- UnicodeLaws.Resumed: where a value was passed over, the second call must have some room, because passing over a value asks for room it does not use.
- UnicodeLaws.InPieces: of calls whose room ran out altogether only those are compared with one call in which no error was noted; a value passed over needs room it does not use.
- SequentialScans.EncodeScan: with a suspending destination, an emptied buffer must have room for any one MCU; `BufferRoom.RoomForEach` says how much is enough.
- ScanCompression.CodeScript: a first pass that may suspend is required to have room for any one MCU in the emptied buffer; in `jpeg_finish_compress` nothing of the kind is required.
- ScanCompression.CodeScan: the statistics pass and the progressive coder are fed the MCUs that the controller handed over, not MCU by MCU; of headers and markers only the number of bytes counts, and with made tables the file header, written when compression starts, is not among them.
- CompressionPasses.Master.FinishCompress: headers are single entries of the file and are not refused; `ScanCompression.WriteMarkers` says when their bytes are.
- CompressionPasses.Master.Compress: what the scan data of an iMCU row is, is left to the controllers and coders; here a row is one entry of the file.
- Preprocessing.PrepController.PreProcessContext: the components of a row are kept together as one row; the loops over components do the same to each.
- ConvertUtf.PutBytes: OR-ing marks into disjoint bits is written as addition.
- Coefficient arrays in `CoefControl` hold block values, not pointers into virtual memory, so swapping to backing store is not modelled.
- Integer widths are modelled where they matter: the 32-bit bit accumulator, the 8-bit length counts, the 16-bit limit on restart intervals. Other C integers are unbounded here.
- The limit of three components (`jmorecfg.h`) is not imposed; the number of components is arbitrary.
- The application, drivers and socket samples of the repository.
- Colour conversion, DCT and quantisation, marker contents, memory pools, the arithmetic coder, raw-data input and transcoding entry points.
- The decoders' handling of corrupt data.
