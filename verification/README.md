# Verification of the JPEG compressor's entropy coding and control

This project models the entropy-coding stack of the Independent JPEG Group's library in `jpeg/`, the
compressor control around it, and the decoder's side of sequential Huffman coding and of progressive
AC scans, and proves that they do what ITU-T T.81 (ISO/IEC 10918-1) and the library's own comments
promise. Run
`dafny verify dfyconfig.toml` to check everything.

Code that updates state in place is modelled in place: `jpeg_gen_optimal_table` works on the arrays
`freq`, `others`, `codesize` and `bits`; the encoders, the decoder, the preprocessor and the
controllers are classes with the fields of the C structures. Each method is proved against a
specification function or predicate, and the main results are lemmas about those specifications.

- **Huffman tables** (`HuffmanTree`, `HuffmanOptimal`, `HuffmanMerge`, `HuffmanPseudo`, `LengthLimiting`,
  `OptimalTable`, `CodeSpace`, `CanonicalCode`, `DerivedTables`): the merge loop with its chains, the length limiting of
  section K.2, the canonical code of Annex C, and the encoder's and decoder's derived tables with the lookahead.
- **Bits and bytes** (`BitString`, `ByteStream`, `BitWriter`, `BitReader`): byte-stuffed bit output and
  input, both of which can be suspended.
- **Sequential coding** (`Coefficients`, `BlockCoding`, `ScanCoding`, `SequentialEncoder`, `ScanDecoding`,
  `MarkerReading`, `SequentialDecoder`, `SequentialRoundTrip`, `LostMarker`, `ScanRuns`, `Statistics`,
  `OptimizedCoding`): blocks, MCUs, restart intervals, the round trip, what is decoded when a restart
  marker is lost, and the statistics pass.
- **Progressive coding** (`ProgressiveCoding`, `ProgressiveReplay`, `ProgressiveEncoder`, `ProgressiveDc`,
  `ProgressiveDcStatistics`): AC and DC scans with end-of-band runs and correction bits. What the tokens
  of a scan mean is defined by replaying them as `jdphuff.c` does (section G.2); tokens that are not of
  the kind it would take end the replay.
- **Progressive decoding** (`ProgressiveDecoding`, `ProgressiveDecoder`, `ProgressiveRoundTrip`,
  `ProgressiveScans`, `ProgressiveRuns`): AC scans bit by bit, the undoing of a block that is cut short,
  restarts, and the way from the bytes of all scans of a band back to its coefficients.
- **Control** (`ScanScript`, `SimpleProgression`, `PassControl`, `TableNeeds`): scan scripts and passes, and
  which scans need a Huffman table.
- **Streaming** (`FrameGeometry`, `McuOrder`, `CoefController`, `DummyBlocks`, `Preprocessing`, `MainControl`,
  `Smoothing`): the ring buffer of the preprocessor, the smoothing downsamplers, row accounting, and
  the two ways in which the coefficient controller presents MCUs to the entropy coder.
- **All together** (`ImageRoundTrip`): from DCT blocks through the controller, the statistics pass, the
  generated tables and the output pass to the decoder, and back.

A destination or source that suspends is one whose callback returns FALSE without taking or
delivering data. For the encoder this is a number of free bytes; for the decoder, the part of the
input that has arrived so far. The coefficient controller and the entropy coder, as seen by the
controllers above them, are objects that accept or refuse according to an arbitrary list of answers.
The forward DCT is an arbitrary function of component, iMCU row and sample position.

`BitString.Word` and bytes are sequences of bits; C's 24-bit and 32-bit buffers are numbers with the
masking and shifting written out, and `BitWriter.MergeBits` proves that the bitwise or of the source is
an addition there. Right shifts of negative values are arithmetic, as `IRIGHT_SHIFT` has them.

## Model

| member | source | states |
|---|---|---|
| HuffmanMerge.FindLightest | jpeg/jchuff.c:731-751 | Of all symbols other than the one passed over, the one found has the least nonzero frequency, the largest such symbol among ties; -1 only if there is none of at most 1000000000 |
| HuffmanMerge.DeepenChain | jpeg/jchuff.c:761-775 | Along a chain of others[], exactly the symbols of the chain get one bit longer; the end of the chain is returned |
| HuffmanMerge.MergeStep | jpeg/jchuff.c:757-775 | Merging the two lightest branches keeps the invariant of the loop: the chains partition the counted symbols into disjoint acyclic lists, each live frequency is the sum of its chain's original counts, and the code sizes on a chain are the leaf depths of one code tree |
| HuffmanMerge.MergeBalanced | jpeg/jchuff.c:730-776 | No live branch ever weighs less than either branch that went into another one, which is what makes weights grow like Fibonacci numbers |
| HuffmanMerge.MergeAll | jpeg/jchuff.c:728-776 | The loop ends, with code sizes that are the leaf depths of one code tree over exactly the counted symbols, at the total cost of the greedy procedure; no code is longer than the pseudo-symbol's |
| HuffmanPseudo.DeepestMerge | jpeg/jchuff.c:722-776 | Each merge of the two lightest branches keeps the pseudo-symbol at a deepest leaf of its branch and no other branch higher than that one, since its count of 1 is the least and ties go to the largest symbol |
| HuffmanTree.TreeKraft | jpeg/jchuff.c:728-776 | The leaf depths of a code tree satisfy Kraft's equality, so each chain and in the end the whole code fills its code space |
| HuffmanOptimal.HuffmanIsOptimal | jpeg/jchuff.c:715-728 | No code tree over the same counts costs less than the greedy merge procedure: the code is optimal before length limiting |
| OptimalTable.DepthBound | jpeg/jchuff.c:707-784 | If the counts with the pseudo-symbol sum to less than 9227465, Fibonacci number 35, no code size exceeds 32, so the overflow exit cannot be reached |
| OptimalTable.CountLengths | jpeg/jchuff.c:778-788 | Fails exactly if some code size exceeds 32; else bits[k] counts the symbols of size k, and no 8-bit counter wraps |
| OptimalTable.LongestIsPaired | jpeg/jchuff.c:801-805 | With a full code space, the number of codes of the longest length over 16 is even, and the search for a shorter code to split ends at a length of at least 1 |
| OptimalTable.AdjustOnce | jpeg/jchuff.c:803-810 | The code that is split is one of the longest codes at least two bits shorter than the longest; two codes of the longest length go, one gets one bit shorter, and no other entry changes |
| OptimalTable.AdjustKeepsComplete | jpeg/jchuff.c:807-810 | One adjustment of section K.2 keeps Kraft's equality and the number of codes |
| OptimalTable.LimitLengths | jpeg/jchuff.c:801-812 | Afterwards no length exceeds 16, Kraft's equality and the number of codes are kept, all entries fit a byte, and a table already within 16 bits is not changed; code space is taken from the longest of the short lengths first, no shorter length giving up a code while a longer one has one left |
| LengthLimiting.KeepsTheRule | jpeg/jchuff.c:801-812 | Splitting the longest of the shorter codes keeps that rule |
| LengthLimiting.OnlyOne | jpeg/jchuff.c:801-812 | There is just one complete code of at most 16 bits that comes about from given lengths by that rule |
| OptimalTable.DropPseudo | jpeg/jchuff.c:814-817 | One code of the longest length is given up, after which exactly that one code is unused |
| OptimalTable.GenOptimalTable | jpeg/jchuff.c:705-838 | For 1 to 254 counted symbols: fails exactly if an optimal code is longer than 32 bits, never if the counts stay below Fibonacci number 35; else the table has sum(bits) distinct symbols, which are the counted ones, in order of code size and then of their value, lengths of at most 16, and just one code left over; the lengths are those of the code sizes limited by the rule of section K.2, with the longest given up; if no code size exceeds 16, each symbol's length in the table is its code size |
| OptimalTable.OnlyTable | jpeg/jchuff.c:778-817 | The code sizes allow just one such bits[] |
| OptimalTable.LengthsAreSizes | jpeg/jchuff.c:814-834 | When nothing had to be limited, the lengths that bits[] gives to the symbols in their order are their code sizes: the code given up is the pseudo-symbol's, so the table is as optimal as the sizes |
| OptimalTable.SizesAreOptimal | jpeg/jchuff.c:715-776 | The code sizes from which the table is made cost no more than those of any other code tree over the counts |
| CanonicalCode.PrefixFree | jpeg/jchuff.c:221-239 | Codes are in increasing order of length, and a later code cut to the length of an earlier one is greater than it |
| CanonicalCode.CodesCountUp | jpeg/jchuff.c:221-239 | The first code is 0, and each one is the code before it plus one, with as many zeros appended as it is longer |
| CanonicalCode.NoWordIsAPrefix | jpeg/jchuff.c:221-239 | In an accepted table no code word is the beginning of another |
| CanonicalCode.CodeFits | jpeg/jchuff.c:232-236 | Every code fits its length and none is all ones |
| CanonicalCode.StopsAtCodeLength | jpeg/jdhuff.c:213-228 | On a stream that begins with a symbol's code, decoding by maxcode stops at just that code's length, and valoffset leads to just that symbol |
| CanonicalCode.StopsOnACode | jpeg/jdhuff.c:410-432 | Conversely, wherever decoding stops by length 16 on any stream, what has been read is the code of the symbol that valoffset leads to |
| CanonicalCode.LateStart | jpeg/jdhuff.c:398-432 | Starting the bit-by-bit loop at a later length gives the same result if no shorter code matches; on garbage it stops at length 17 from any start |
| DerivedTables.ListSizes | jpeg/jchuff.c:208-219 | Fails exactly if the lengths promise more than 256 codes; else lists the length of each code |
| DerivedTables.ListCodes | jpeg/jchuff.c:221-239 | Fails exactly if the lengths leave no code unused at some length; else lists the canonical codes |
| DerivedTables.MakeCDerivedTbl | jpeg/jchuff.c:178-264 | Accepts exactly the tables that exist, have lengths of a code with a code to spare, and list every symbol at most once and in range; then each listed symbol has its code and all others have size 0 |
| DerivedTables.EncodableIs | jpeg/jchuff.c:248-263 | In range means at most 15 in a DC table |
| DerivedTables.FillLookahead | jpeg/jdhuff.c:230-251 | Every 8-bit pattern that begins with a code of at most 8 bits is looked up as that symbol and length, every other pattern as 0 |
| DerivedTables.MakeDDerivedTbl | jpeg/jdhuff.c:148-266 | Accepts exactly the existing tables with lengths of a code with a code to spare and, for DC, symbols of at most 15; then maxcode, valoffset and the lookahead tables describe the canonical code |
| BitWriter.MergeBits | jpeg/jchuff.c:313-319 | Left-justifying new bits in the 24-bit buffer and merging them with at most 7 old ones by bitwise or puts the new bits right behind the old ones, with zeros below |
| BitWriter.WorkingState.EmitBits | jpeg/jchuff.c:301-336 | The output is the concatenation of all bits so far, with a zero byte after each FF and at most 7 bits pending; suspends exactly if a suspending destination would have no room left; size 0 is the missing code error |
| BitWriter.WorkingState.FlushBits | jpeg/jchuff.c:339-347 | The partial byte is filled up with ones, and nothing stays in the buffer |
| BitWriter.WorkingState.EndSegment | jpeg/jchuff.c:450-468 | The last byte of the segment is filled up with ones, then FF and D0 plus the number of the restart marker follow, unstuffed |
| ByteStream.EveryFFStuffed | jpeg/jchuff.c:321-333 | Every FF in the entropy-coded data is followed by a zero; without these zeros there is one byte for every 8 bits |
| ByteStream.ByteIs | jpeg/jchuff.c:313-333 | The first bit of a byte is its most significant one |
| ByteStream.UnpackPacked | jpeg/jdhuff.c:306-357 | Reading stuffed bytes gives back the bits they were packed from, and goes on behind them |
| ByteStream.NextByteIs | jpeg/jdhuff.c:318-357 | On any input: FF followed by 0, after any number of further FFs, is a data byte FF; followed by another code, it is that marker; FFs at the end of what has arrived tell nothing yet |
| BitReader.Reader.Fill | jpeg/jdhuff.c:291-389 | The buffer is filled to the bits asked for from the segment's own bits, zeros being made up only beyond its end and then noted; a call that suspends changes nothing; once a marker has been met no call suspends |
| BitReader.Reader.GetBits | jpeg/jdhuff.h:138-145 | Takes exactly the next n bits of the segment, or zeros beyond its end |
| BitReader.Reader.SlowDecode | jpeg/jdhuff.c:397-433 | Entered at any length that no shorter code precludes, takes the same symbol and the same bits as decoding from length 1; garbage takes 17 bits and gives 0 |
| BitReader.GarbageIsZero | jpeg/jdhuff.c:410-432 | Bits that begin with no code are taken for symbol 0 and 17 of them are passed |
| BitReader.LookupIsDecoding | jpeg/jdhuff.h:176-196 | The lookahead tables give the symbol and length of bit-by-bit decoding, or tell that the code is longer than 8 bits |
| BitReader.Reader.HuffDecode | jpeg/jdhuff.h:176-196 | Whether by lookahead, by the slow loop from length 9, or near the end of the data from length 1: the same symbol and the same bits as bit-by-bit decoding |
| Coefficients.OrdersInverse | jpeg/jutils.c:25-64 | jpeg_natural_order and jpeg_zigzag_order are inverse permutations |
| Coefficients.ZigzagPath | jpeg/jutils.c:53-64 | The natural order starts at the upper left corner and runs along the diagonals of the block, up and down in turn, changing over at the edges |
| Coefficients.PastTheEnd | jpeg/jutils.c:43-64 | Positions up to 79, to which damaged data can lead, are all that of coefficient 63 |
| Coefficients.CountBits | jpeg/jchuff.c:370-376 | The loop counts the bits of a magnitude |
| Coefficients.ExtendInverts | jpeg/jdhuff.c:436-447 | HUFF_EXTEND gives back every nonzero value from its size category and the bits appended for it |
| Coefficients.AppendedBits | jpeg/jchuff.c:363-392 | The bits appended for a positive value spell it; for a negative one of n bits they spell it plus 2^n - 1 |
| BlockCoding.SymbolRoundTrip | jpeg/jchuff.c:352-443 | The code of any coded symbol decodes to the symbol, whatever follows |
| BlockCoding.AcRoundTrip | jpeg/jdhuff.c:569-592 | From any position with any pending run of zeros, decoding what the AC part is coded as gives back the coefficients, runs over 15 and the end of block included, and uses up exactly its bits |
| BlockCoding.DcRoundTrip | jpeg/jdhuff.c:550-565 | The DC difference comes back and exactly its bits are used up |
| BlockCoding.CoefficientLimits | jpeg/jchuff.c:377-421 | A block is in range exactly if its DC difference is less than 2048 and every AC coefficient less than 1024, of either sign |
| SequentialEncoder.EncodeOneBlock | jpeg/jchuff.c:352-443 | Writes exactly the tokens of the block; a coefficient out of range, an uncoded symbol and lack of room are each reported only when they are the case |
| SequentialEncoder.HuffEncoder.EncodeMcu | jpeg/jchuff.c:475-525 | An MCU is written as a whole or nothing changes, so a refused call can be repeated; with valid tables and coefficients it is refused exactly if a suspending destination would be left without room |
| SequentialEncoder.HuffEncoder.FinishPass | jpeg/jchuff.c:532-552 | The file is the finished segments and the flushed last one; fails exactly if there is no room |
| SequentialEncoder.EmitRestart | jpeg/jchuff.c:450-468 | The segment ends with its marker, no DC prediction carries over, and lack of room is reported exactly when it is the case |
| ScanCoding.RestartPlaces | jpeg/jchuff.c:488-522 | Over a whole scan, a restart marker comes before exactly the MCUs whose number is a positive multiple of restart_interval, and the markers are numbered 0 to 7 over and over |
| SequentialRoundTrip.EverySegmentFilled | jpeg/jchuff.c:339-347 | In the finished file the last byte of every segment is filled with ones, and each segment but the last is followed by its marker |
| ScanDecoding.AcAbsorbs | jpeg/jdhuff.c:580-586 | Storing a coefficient before decoding that will store it anyway changes nothing, which is why a suspended MCU can be decoded again into the same area |
| ScanDecoding.AcSamePath | jpeg/jdhuff.c:569-613 | How far decoding gets does not depend on what is in the block, nor on whether coefficients are stored |
| SequentialDecoder.DecodeOneBlock | jpeg/jdhuff.c:548-615 | The coefficients and the DC prediction are those of the specification; a block that suspends can be decoded again into what has been stored of it, with the same result |
| MarkerReading.MarkerReader.NextMarker | jpeg/jdmarker.c:872-915 | Finds the marker that ends the data; what has been passed before a suspension is not read again |
| MarkerReading.MarkerReader.Resync | jpeg/jdmarker.c:1190-1232 | One of the next two restart markers is left unread, as is a marker that is none; one of the two before, or an invalid one, is skipped and the next marker looked for; the expected or any other restart marker is passed; and the outcome is the same however often the source suspends |
| ScanDecoding.RecoveryRules | jpeg/jdmarker.c:1203-1218 | The same rules for the search as a whole: where it ends, and whether the marker there is passed |
| ScanDecoding.NothingStored | jpeg/jdhuff.c:492-534 | Once the data of an interval have run out nothing more is stored, not even in the next intervals, until a marker is passed |
| LostMarker.OneMarkerLost | jpeg/jdmarker.c:1139-1232 | If one restart marker of a file is missing, all MCUs before it, and all from the next marker on, are decoded as they were and at their own places; only the interval behind the lost marker is damaged |
| MarkerReading.MarkerReader.ReadRestartMarker | jpeg/jdmarker.c:1111-1137 | Passes the expected marker, otherwise recovers; then the next number is expected |
| SequentialDecoder.HuffDecoder.ProcessRestart | jpeg/jdhuff.c:467-498 | Drops the rest of the segment, passes the marker and resets predictions and counter; a suspended call can be repeated with the same outcome |
| SequentialDecoder.HuffDecoder.DecodeMcu | jpeg/jdhuff.c:516-627 | However the input is divided by suspensions, the MCU and the saved state are those of one uninterrupted call on the whole input; with all input there it never suspends before a marker |
| SequentialRoundTrip.BlockRoundTrip | jpeg/jdhuff.c:548-615 | A block comes back from its bits for every choice of wanted coefficients, with the same DC prediction on both sides |
| SequentialRoundTrip.ScanRoundTrip | jpeg/jchuff.c:352-552 | For any MCUs in range, any restart interval and tables that code every needed symbol: decoding the flushed bytes followed by any marker gives back every wanted coefficient of every MCU, with DC predictions reset at the same MCUs on both sides |
| ScanRuns.EncodeScan | jpeg/jchuff.c:475-525 | Over any pattern of suspensions each MCU is written exactly once, so the bytes do not depend on the pattern |
| ScanRuns.DecodeScan | jpeg/jdhuff.c:516-627 | Over any division of the input into arrivals, the MCUs are those of one uninterrupted run, and none is missing once all input has arrived |
| Statistics.HtestOneBlock | jpeg/jchuff.c:571-636 | Counts exactly the symbols that encode_one_block sends, and fails exactly if a coefficient is out of range |
| Statistics.TallyIs | jpeg/jchuff.c:591-641 | Each counter goes up by just the number of times that its symbol occurs |
| Statistics.Gatherer.EncodeMcuGather | jpeg/jchuff.c:644-673 | Keeps each counter equal to how often its symbol has occurred in all MCUs so far, with predictions reset where the output pass resets them |
| Statistics.Gatherer.FinishPassGather | jpeg/jchuff.c:845-880 | Makes one table for each set of counters in use, none from clobbered counts |
| Statistics.PassesAgree | jpeg/jchuff.c:644-673 | If all tokens that the statistics pass has counted have codes, the output pass can code every MCU: both passes go through the same symbols, across restarts |
| Statistics.CountableTally | jpeg/jchuff.c:722-745 | The counts of any pass are such as jpeg_gen_optimal_table needs: at least one symbol, at most 254 of them, and a sum within its search limit |
| OptimizedCoding.AcceptedTable | jpeg/jchuff.c:814-834 | A generated table has exactly sum(bits) values and is accepted by both jpeg_make_c_derived_tbl and jpeg_make_d_derived_tbl |
| OptimizedCoding.CodedSymbol | jpeg/jchuff.c:178-264 | Every counted symbol has a code of at least one bit in the derived table |
| OptimizedCoding.OptimisedTablesNeverFail | jpeg/jchuff.c:844-880 | With the tables made from a statistics pass over any MCUs in range, the output pass over the same MCUs never meets a symbol without a code |
| OptimizedCoding.EveryTableUsed | jpeg/jchuff.c:849-878 | In a scan of at least one MCU every table that finish_pass_gather works on has counts |
| ProgressiveReplay.FirstReplays | jpeg/jcphuff.c:484-545 | A block of an AC first scan comes back from its tokens, with the run of zeros that the decoder has not heard of yet |
| ProgressiveReplay.RefineReplays | jpeg/jcphuff.c:645-722 | A block of an AC refinement scan comes back from its tokens: correction bits go to the coefficients they belong to, new coefficients get their sign, and zero runs folded into an end of band leave the rest to be corrected |
| ProgressiveReplay.BandsReplay | jpeg/jcphuff.c:315-339 | Whatever length a pending end-of-band run will have when it is announced, the blocks before and within it come back |
| ProgressiveReplay.IntervalReplays | jpeg/jcphuff.c:463-561 | Replaying a restart interval through the decoding procedure of section G.2 gives each coefficient of the band down to bit Al, and uses up all tokens and every end-of-band run |
| ProgressiveReplay.IntervalsReplay | jpeg/jcphuff.c:346-368 | However a scan is divided into restart intervals, its blocks come back: no end-of-band run goes on in the next interval |
| ProgressiveReplay.ScansReplay | jpeg/jcphuff.c:617-738 | After a first scan for any bit and refinement scans with Ah = Al + 1 down to bit Al, each in restart intervals of its own, sign and magnitude shifted by Al of every coefficient of every block are known, and coefficients outside the band are untouched |
| ProgressiveReplay.KnownExactly | jpeg/jcphuff.c:617-738 | After the scan for bit 0 the coefficients are the original ones |
| ProgressiveReplay.FewCorrections | jpeg/jcphuff.c:690-722 | A block leaves at most 63 correction bits, and leaves some only if it joins an end-of-band run |
| ProgressiveReplay.RunGrows | jpeg/jcphuff.c:715-721 | A block that sends nothing makes the end-of-band run longer by one; the run is announced before a block that does send something, and at once when it is 32767 blocks long or more than 937 correction bits wait |
| ProgressiveReplay.LastNewIsNew | jpeg/jcphuff.c:645-658 | The position up to which zero-run symbols are sent is that of the last coefficient that becomes nonzero, or 0 |
| ProgressiveReplay.BandLimits | jpeg/jcphuff.c:523-529 | A first scan accepts exactly coefficients that are less than 1024, of either sign, when shifted |
| ProgressiveReplay.AlwaysBounded | jpeg/jcphuff.c:713-722 | After any blocks: EOBRUN < 0x7FFF, BE <= 937, and BE > 0 only if EOBRUN > 0 |
| ProgressiveEncoder.PhuffEncoder.EmitSymbol | jpeg/jcphuff.c:280-289 | Counts the symbol or sends its code, and fails exactly if an output pass has no code for it |
| ProgressiveEncoder.PhuffEncoder.EmitBufferedBits | jpeg/jcphuff.c:296-308 | Sends the buffered correction bits in order, each once |
| ProgressiveEncoder.PhuffEncoder.EmitEobrun | jpeg/jcphuff.c:315-339 | Announces the run and its correction bits; under the bound on the run the size category never exceeds 14, so the error exit cannot be reached |
| ProgressiveEncoder.PhuffEncoder.EmitRestart | jpeg/jcphuff.c:346-368 | The pending run is announced before the interval is flushed and its marker written; a statistics pass announces it as well |
| ProgressiveEncoder.PhuffEncoder.BetweenMcus | jpeg/jcphuff.c:713-722 | Between MCUs the run can grow by one and the correction-bit buffer has room for another block, so that writes stay below 1000 |
| ProgressiveEncoder.PhuffEncoder.EncodeFirst | jpeg/jcphuff.c:463-561 | Sends exactly the tokens of the block in an AC first scan, with the pending run announced before the first of them; fails only on a coefficient out of range or an uncoded symbol |
| ProgressiveEncoder.PhuffEncoder.EncodeRefine | jpeg/jcphuff.c:617-738 | Sends exactly the tokens of the block in an AC refinement scan; its correction bits are appended to those of the pending run until a symbol goes out, and symbols stay below 256 |
| ProgressiveEncoder.PhuffEncoder.EncodeMcu | jpeg/jcphuff.c:463-738 | From MCU to MCU the bytes, counts, run and buffered bits are exactly those of the blocks so far, restart intervals of the given length included; the only failures are a coefficient out of range and, in an output pass, an uncoded symbol |
| ProgressiveEncoder.PhuffEncoder.FinishPass | jpeg/jcphuff.c:745-759 | The file is the restart intervals with their markers and the last one with its run announced and its last byte padded |
| ProgressiveEncoder.PhuffEncoder.FinishPassGather | jpeg/jcphuff.c:766-806 | The table is made from the counts of the scan including the last run, and never fails for a scan of moderate size |
| ProgressiveEncoder.ProgressiveTablesNeverFail | jpeg/jcphuff.c:280-289 | With the table made from the statistics of the same blocks, the output pass of an AC scan never meets an uncoded symbol, in any restart interval and at any point of it |
| ProgressiveDecoding.CorrectedOnce | jpeg/jdphuff.c:565-582 | A correction is made once: with the test of the bit, adding it again changes nothing, and a corrected coefficient never becomes zero, even where it wraps around 16 bits |
| ProgressiveDecoding.BandAgain | jpeg/jdphuff.c:524-610 | A refined block can be decoded again after any of its coefficients has been corrected already, with the same result: what is read depends only on which coefficients are zero |
| ProgressiveDecoding.FirstAgain | jpeg/jdphuff.c:356-432 | In a first scan, storing beforehand a coefficient that will be stored anyway changes nothing |
| ProgressiveDecoder.PassZeros | jpeg/jdphuff.c:562-582 | Passes the zeros that a symbol tells of, correcting the others; wherever the source suspends, the block without its new coefficients can be decoded again |
| ProgressiveDecoder.RefineSymbols | jpeg/jdphuff.c:536-592 | The symbols of a block as specified; the noted places are those of the coefficients that have become nonzero, at most 64 |
| ProgressiveDecoder.Undo | jpeg/jdphuff.c:627-632 | Exactly the noted coefficients become zero |
| ProgressiveDecoder.RefineBlock | jpeg/jdphuff.c:490-633 | Decodes the block of a refinement scan as specified; a call that suspends leaves the same coefficients zero as before, and decoding its block again from the beginning gives what an uninterrupted call would have given |
| ProgressiveDecoder.FirstBlock | jpeg/jdphuff.c:356-432 | Decodes the block of a first scan as specified; a block that suspends can be decoded again |
| ProgressiveDecoder.PhuffDecoder.ProcessRestart | jpeg/jdphuff.c:227-260 | Drops the rest of the segment and of the end-of-band run and passes the marker; a suspended call can be repeated with the same outcome |
| ProgressiveDecoding.RunIsDropped | jpeg/jdphuff.c:227-260 | No end-of-band run goes on behind a restart, and once the data have run out no block is changed until a marker is passed |
| ProgressiveDecoder.PhuffDecoder.DecodeMcu | jpeg/jdphuff.c:356-633 | However the input is divided by suspensions, the block and the saved state are those of one uninterrupted call on the whole input, restarts and damaged data included; with all input there it never suspends before a marker |
| ProgressiveRoundTrip.FirstComes | jpeg/jdphuff.c:356-432 | Wherever a first-scan block's tokens stand in a stream of bits, decoding the bits gives what replaying the tokens gives, and ends behind them |
| ProgressiveRoundTrip.RefineComes | jpeg/jdphuff.c:490-633 | The same for a refined block with its correction bits |
| ProgressiveScans.BandRoundTrip | jpeg/jcphuff.c:463-759 | For any blocks in range, any restart interval and tables that code every needed symbol: decoding the file of an AC scan, first or refinement, on top of what earlier scans have left gives each coefficient of the band down to bit Al, and every segment ends with its marker |
| ProgressiveScans.EveryPartFilled | jpeg/jcphuff.c:266-274 | In the file of an AC scan the last byte of every restart interval is filled with ones, and each but the last is followed by its marker |
| ProgressiveScans.OwnTableRoundTrip | jpeg/jcphuff.c:766-806 | With the table made from the scan's own statistics the output pass never fails, and its file decodes with that table to the band's coefficients down to bit Al |
| ProgressiveScans.FilesComeBack | jpeg/jcphuff.c:617-738 | From bytes to coefficients: after decoding the files of a first scan and its refinement scans down to bit Al, each with tables and restart intervals of its own, every coefficient of the band is known down to bit Al, at bit 0 exactly, and all others are untouched |
| ProgressiveRuns.ReadScan | jpeg/jdphuff.c:356-633 | Over any division of the input into arrivals, the blocks of an AC scan are those of one uninterrupted run, and none is missing once all input has arrived |
| ProgressiveDc.FirstDcReplays | jpeg/jcphuff.c:376-455 | Replaying a DC first scan as decode_mcu_DC_first does gives every DC coefficient rounded down to bit Al |
| ProgressiveDc.RefineDcReplays | jpeg/jcphuff.c:570-610 | Replaying a DC refinement scan adds exactly one bit to every DC coefficient |
| ProgressiveDc.DcScansReplay | jpeg/jdphuff.c:286-483 | After a first scan for any bit and refinement scans down to bit 0, each in restart intervals of its own, every DC coefficient is exact |
| ProgressiveDc.DcLimits | jpeg/jcphuff.c:424-430 | A DC first scan accepts exactly differences of less than 2048, of either sign |
| ProgressiveDc.DcEncoder.EncodeMcu | jpeg/jcphuff.c:376-455 | The bytes are those of the DC values so far, interval by interval; a refinement scan cannot fail, a first scan fails only if some difference is out of range or some symbol has no code |
| ProgressiveDcStatistics.DcGatherer.EncodeMcu | jpeg/jcphuff.c:376-455 | In a statistics pass each counter stays equal to how often its symbol occurs; fails exactly if a difference is out of range |
| ProgressiveDcStatistics.DcGatherer.FinishPassGather | jpeg/jcphuff.c:766-806 | One table for each DC table number of the scan, none from clobbered counts |
| ProgressiveDcStatistics.DcTablesNeverFail | jpeg/jcphuff.c:280-289 | With these tables the output pass of the DC first scan never meets an uncoded symbol or a difference out of range |
| ProgressiveDcStatistics.GatherPass | jpeg/jcphuff.c:376-455 | A statistics pass over any MCUs succeeds exactly if no difference is out of range, and has cut them into the restart intervals of the output pass |
| ProgressiveDcStatistics.OutputPass | jpeg/jcphuff.c:280-289 | With the tables made from the statistics of the same MCUs, every call of the output pass of a DC first scan is Done |
| ScanScript.ValidateScript | jpeg/jcmaster.c:129-261 | Accepts exactly the scripts in which every scan continues what earlier scans have sent and every component is sent; otherwise names the first scan that is wrong; tells whether the script is progressive |
| ScanScript.SentByOneMore | jpeg/jcmaster.c:205-226 | What a scan changes in the table of what has been sent |
| ScanScript.StepRules | jpeg/jcmaster.c:166-247 | What every scan of an accepted script keeps to: one to four components in order; if progressive, a band within 0 to 63 with DC coefficients by themselves and AC coefficients of one component, bits of at most 10, and for each coefficient either its first bits or exactly the next one |
| ScanScript.StepAllowed | jpeg/jcmaster.c:166-247 | Conversely, any scan that keeps to these rules may come next |
| ScanScript.AcceptedScripts | jpeg/jcmaster.c:148-259 | A script is accepted exactly if it has scans, all of them keep to the rules, of the kind that the first scan decides, and the DC coefficients of every component are sent |
| ScanScript.NextScanSendsNextBit | jpeg/jcmaster.c:214-225 | In an accepted progressive script, consecutive scans of a coefficient send consecutive bits |
| ScanScript.BitsDescend | jpeg/jcmaster.c:214-225 | No bit of a coefficient is sent twice, and later scans send lower bits |
| ScanScript.FirstScanStartsAtZero | jpeg/jcmaster.c:215-218 | The first scan of a coefficient sends all its bits down to Al at once |
| ScanScript.DcBeforeAc | jpeg/jcmaster.c:211-213 | A scan of AC coefficients comes after a DC scan of the same component |
| ScanScript.SequentialOnce | jpeg/jcmaster.c:232-259 | In an accepted sequential script each component is sent exactly once |
| SimpleProgression.SimpleProgression | jpeg/jcparam.c:537-608 | Fills exactly num_scans entries for any number of components with the recommended scans, and the script is accepted, progressive, and ends with every coefficient of every component at bit 0 |
| SimpleProgression.ColourAsListed | jpeg/jcparam.c:577-597 | Components, band and bits of each of the ten scans for YCbCr images |
| SimpleProgression.GeneralAsListed | jpeg/jcparam.c:598-609 | Place, band and bits of the six scans of each component for all other images |
| SimpleProgression.FillDcScans | jpeg/jcparam.c:508-528 | One scan of all components if they fit into one, else one scan for each |
| SimpleProgression.FillScans | jpeg/jcparam.c:489-506 | One scan of the band for each component, in order |
| PassControl.Master.PrepareForPass | jpeg/jcmaster.c:401-475 | Sets up the pass that comes next, skips the statistics pass of a scan exactly if it is a DC refinement, writes headers only for output passes, and uses scan_number only while it is in range |
| PassControl.Master.RunPass | jpeg/jcmaster.c:503-535 | From a prepared pass to the end of it: either the next pass can be prepared, or everything has been output, in total_passes passes |
| PassControl.Master.Compress | jpeg/jcapimin.c:147-181 | For every script and both settings of optimize_coding, the events are the expected ones: every scan's statistics (unless skipped), header and output, in order, the frame header before the first scan header; a scan has its statistics pass once if coding is optimised, and none only if it is a DC refinement other than the first pass; the number of passes is total_passes, once or twice the number of scans |
| PassControl.OutputOnce | jpeg/jcmaster.c:401-535 | In the expected order each scan is output exactly once and the frame header is written exactly once |
| PassControl.HeaderBeforeOutput | jpeg/jcmaster.c:456-462 | Each scan's output comes right after the header of that scan |
| PassControl.FrameHeaderFirst | jpeg/jcmaster.c:458-461 | The frame header comes before every scan header, with at most the first scan's statistics before it |
| PassControl.StatisticsFirst | jpeg/jcmaster.c:431-447 | Where a statistics pass is not skipped, it comes before the scan's output and after the outputs of all earlier scans |
| PassControl.StatisticsOnce | jpeg/jcmaster.c:431-447 | The expected events have one statistics pass for each scan with AC coefficients or a first scan, and none for a later DC refinement |
| TableNeeds.DcRefinementNeedsNone | jpeg/jcphuff.c:570-610 | The scans without a statistics pass send no Huffman symbol |
| TableNeeds.DcFirstNeedsOne | jpeg/jcphuff.c:376-455 | A DC first scan sends a symbol of the table of its first block's component |
| TableNeeds.AcNeedsOne | jpeg/jcphuff.c:617-738 | Every AC scan, refinements included, sends a symbol, so it does need a table |
| PassControl.OutputsInOrder | jpeg/jcmaster.c:503-535 | Scans are output in the order of the script |
| PassControl.EventIn | jpeg/jcmaster.c:401-535 | Nothing happens but what belongs to some scan of the script |
| FrameGeometry.InitialSetup | jpeg/jcmaster.c:45-124 | Refuses exactly images of more than 65500 samples either way, with more than 10 components or with sampling factors over 4, and empty ones; otherwise each component is just as many blocks wide and high as its share of the image takes, and divides into the same number of MCU columns and rows as all others |
| FrameGeometry.RoundedTwice | jpeg/jutils.c:71-77 | Rounding a component's width up to blocks and then to MCUs gives what rounding the image's width up to MCUs gives |
| FrameGeometry.Parts | jpeg/jcmaster.c:365-371 | All MCUs of a row but the last are full, the last has between 1 and all of its blocks, and rounding up pads it to a whole one |
| McuOrder.EveryBlockOnce | jpeg/jccoefct.c:160-217 | A scan has every real block of its components exactly once, no block twice, and no block of another component; the others are the dummy blocks that complete the MCUs of an interleaved scan, and a scan of one component has none |
| McuOrder.RealRowsAre | jpeg/jcmaster.c:330-371 | The block rows counted as real in each iMCU row are those within the component's height |
| McuOrder.McuNumber | jpeg/jccoefct.c:152-217 | MCUs come row by row and from left to right: which MCU of which row the k-th one is |
| CoefController.MembershipNamesComponents | jpeg/jcmaster.c:372-378 | For each block of every MCU, MCU_membership names the component that the block is of |
| CoefController.Controller.StartPass | jpeg/jcmaster.c:307-380 | Refuses exactly scans of no or too many components or, if interleaved, of MCUs of more than 10 blocks |
| CoefController.Controller.LoadBlockRow | jpeg/jccoefct.c:174-206 | A row of an MCU is real blocks, then dummies like the last one; below the image, dummies like the last block of the MCU's row above |
| DummyBlocks.PaddingRules | jpeg/jccoefct.c:160-197 | A block in the image is what the DCT has made; one to its right has no AC coefficients and the DC value of the block before; one below it none and the DC value of the last block of the same MCU in the row above |
| DummyBlocks.DummiesCostNothing | jpeg/jccoefct.c:160-166 | Every dummy block of every MCU is coded, right behind a block of its component, as a DC difference of zero and an end of block |
| CoefController.Controller.CompressData | jpeg/jccoefct.c:142-218 | On return, whether completed or suspended, exactly the MCUs before the recorded position have been taken, each once and in order |
| CoefController.Controller.StoreComponent | jpeg/jccoefct.c:258-321 | A component's part of an iMCU row is stored with its dummy blocks at the right and at the bottom, and earlier rows are kept |
| CoefController.Controller.CompressOutput | jpeg/jccoefct.c:340-395 | The same from the virtual arrays, for a scan of any components |
| CoefController.Controller.CompressFirstPass | jpeg/jccoefct.c:244-327 | All components are stored, in the scan or not, and the MCUs put out are the same; after a suspension the row is stored again |
| CoefController.BothWays | jpeg/jccoefct.c:142-395 | For every scan, and however often the entropy coder suspends on either way, one pass and several passes present the same MCU sequence, dummy blocks included |
| ImageRoundTrip.PresentedFit | jpeg/jccoefct.c:142-395 | Every MCU presented has as many blocks as MCU_membership lists, and 16-bit DC values in dummy blocks as well |
| ImageRoundTrip.ImageComesBack | jpeg/jchuff.c:475-552 | For any image, scan and restart interval: with tables made from the scan's own statistics the output pass never fails, and decode_mcu on the file gives back every block of every MCU in the order in which the coefficient controller presented them |
| CoefController.AllPasses | jpeg/jccoefct.c:340-395 | For any list of scans, each scan's MCUs are presented in full from what the first pass has kept |
| Preprocessing.Prep.CreateContextBuffer | jpeg/jcprepct.c:267-305 | The pointers above and below the ring lead to its last and first row group |
| Preprocessing.Prep.PreProcessContext | jpeg/jcprepct.c:195-259 | Whenever row group g is downsampled, its window holds image rows (g-1)v to (g+2)v-1 clamped to the image, for any height and any division of the input; no row is lost or taken twice |
| Preprocessing.Prep.PreProcessData | jpeg/jcprepct.c:128-185 | Row group g holds image rows gv to (g+1)v-1 clamped to the image, and below the image copies of the last group |
| Preprocessing.Prep.ExpandBottomEdge | jpeg/jcprepct.c:105-115 | The row before the gap is copied into it, across the wrap-around of the ring, and no other row changes |
| MainControl.Compressor.ProcessData | jpeg/jcmainct.c:113-158 | The row counter is the number of rows that the preprocessor has taken, less one while an iMCU row is refused, and never falls below zero; otherwise all rows offered have been taken |
| MainControl.Compressor.WriteScanlines | jpeg/jcapistd.c:77-111 | Over any calls and refusals, next_scanline is the rows taken less one while refused; the count returned is at most num_lines, except that it is 1 exactly when a refusal is resumed with num_lines 0 and the row accepted; the end of the image is never reported while an iMCU row is refused, and then every iMCU row of the image has been accepted once and in order |
| MainControl.ResumeWithoutRows | jpeg/jcapistd.c:60-111 | The exception occurs: a call with no rows that resumes after a refusal returns 1 |
| Smoothing.ExpandRightEdge | jpeg/jcsample.c:86-104 | The last sample of each row is repeated to the right and nothing else changes |
| Smoothing.FullsizeSmooth | jpeg/jcsample.c:392-453 | With the sliding column sums, each output sample is the direct 3 by 3 weighted average of the image with its edges repeated |
| Smoothing.NearestAverage | jpeg/jcsample.c:409-416 | That average is the nearest integer, halves upwards, to the sum of the eight samples around times SF and the sample itself times 1 - 8 SF, with SF = smoothing_factor / 1024 |
| Smoothing.NearestSample | jpeg/jcsample.c:418-452 | Samples outside the image are those of its nearest edge |
| Smoothing.SmoothedInRange | jpeg/jcsample.c:409-416 | The weights add up to 65536 and are not negative, so each output sample lies between the least and the greatest sample around it |
| Smoothing.H2V2Smooth | jpeg/jcsample.c:292-382 | Each output sample is the direct weighted average of four samples and their neighbours in the image with its edges repeated |
| Smoothing.NearestAverage2 | jpeg/jcsample.c:308-322 | That average is the nearest integer to the weighted sum in which four samples have weight (1 - 5 SF) / 4 each, the eight at their edges SF / 2 and the four at their corners SF / 4 |
| Smoothing.AverageInRange | jpeg/jcsample.c:308-322 | The weighted average of h2v2 smoothing lies between the least and the greatest of its samples, so it fits a sample |
| Smoothing.AverageOfSmoothed | jpeg/jcsample.c:308-322 | Before rounding, h2v2 smoothing is the average of the four samples that full-size smoothing would give |
| Smoothing.WindowHolds | jpeg/jcprepct.c:226-245 | The window of the preprocessor's ring is what the smoothing downsamplers read, so their output is an average over the image itself |

## Left out

- Huffman statistics: `jpeg_gen_optimal_table` is proved for counts whose sum is at most 1000000000, where its searches start, and for 1 to 254 counted symbols, beyond which its 8-bit counters could wrap; `Statistics.CountableTally` proves that the statistics passes stay within the second limit.
- The first two parts of `jpeg_make_c_derived_tbl` and `jpeg_make_d_derived_tbl`, which are the same code, are one pair of methods here.
- Progressive decoding of DC scans is modelled as what it does to coefficients, token by token, without its bit reading, its restarts and its suspension.
- The statistics pass of a DC refinement scan, which counts nothing and which the pass control skips, is not modelled.
- Overflow of C's `int` in the DC prediction of damaged data is not modelled; coefficients are stored as 16-bit values.
- Warnings, trace messages, progress reports and the counting of discarded bytes change no result.
- The comment on `jpeg_write_scanlines` (jpeg/jcapistd.c:60-76) promises at most num_lines rows written; the code reports 1 when it is called with none after a refusal and the withheld row is then accepted. The model follows the code, and `MainControl.Compressor.WriteScanlines` states that this is the only exception.
- Restart intervals given in MCU rows, checks of the sample precision and of the width of an input row, and raw-data input are not modelled.
- In multi-pass mode `MCU_buffer` holds pointers into the virtual arrays; the model copies the blocks, which the entropy coder only reads.
- Virtual arrays are plain two-dimensional arrays; swapping them to disk is not modelled.
- Colour conversion, the plain downsamplers, the DCT, quantization, marker writing, the decompressor beyond entropy decoding, and code for undefined switches are not part of this model.
- File sources and destinations, memory pools and the command-line programs are not part of this model.
