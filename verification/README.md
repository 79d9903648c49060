# A verified model of the mozjpeg compressor

This project models, in Dafny, the parts of the compressor whose correctness cannot be seen by
reading one function, and proves what they are for.  Each component is modelled in the form of its
source: objects whose fields are updated become classes, loops over arrays become methods with
invariants, tables and formulas become functions.  Every such method is proved against a
specification, and lemmas state what the specification means.

**Arithmetic coding** (jcarith.c, jdarith.c, jaricom.c). Built in layers. `IdealCoder` is an interval coder
with unbounded integers on one side and a real-valued code point on the other, and shows that decoding
inverts encoding. `ArithEncoder` is the encoder with its registers, its pending carry, its stacked 0xFF and
0x00 bytes and its byte stuffing, `ArithDecoder` the decoder with its floating cut point; both are proved to
follow the ideal coder step by step, for any state of the statistics bins. `ArithRoundTrip` joins them over
the bytes. `Binarization`, `DcSyntax`, `AcSyntax`, `RefineSyntax` and `ScanCoding` treat the decisions of
the five MCU routines over any binary channel, and `ArithFigures` states them position by position with the
bins of Tables F.4 and F.5 of ITU-T T.81; `McuEncoder` and `McuDecoder` are those routines; `ArithScan` and
`ProgressiveImage` run whole scans and whole progressive scripts through encoder, bytes and decoder.

**Huffman tables** (jchuff.c, jdhuff.c). `HuffmanForest` is what one merge of the tree construction does and
what every merge keeps; `HuffmanTree` is the construction in place, with its `others` chains; `HuffmanOrder`
the order of ties, `HuffmanDepth` the depth of trees, `HuffmanLimit` the limit of 16 bits, `SymbolOrder` the
list by code length, `DerivedTable` the canonical codes and `HuffmanTable` all of it from counts to codes.

**Huffman coded scans** (jchuff.c, jcphuff.c). Two bit buffers of different width, the gathering and the
output pass, runs of empty blocks across blocks with held-back correction bits. Decoders follow sections
F.2.2 and G.2 of ITU-T T.81 as jdhuff.c and jdphuff.c do; `HuffFigures` states what is sent token by token.
`HuffScan.OptimizedScan` and `PhuffScan.OptimizedPass` go from blocks to bytes and back, and `PhuffImage`
puts the scans of a whole progressive script together.

**Quantization** (jcdctmgr.c). `Reciprocal` is the division by multiplication and shift. `TrellisAc` and
`TrellisDc` are the two dynamic programs with their backtracking; `TrellisRow` puts them together for a row
of blocks. Rates are tied to the encoder: what the trellis counts is the length of what it sends.
`TrellisReach` shows that the few candidates lose nothing against all values with as many bits.

**Scans and passes** (jcparam.c, jcmaster.c, jcapimin.c). `SearchScript` fills the list of trial scans,
`SearchOutcome` says which of them the sizes call for and what the outcome is, `SearchCosts` which scans the
compared sizes belong to, `ScanSearch` is the search that compares sizes, jumps over scans and copies the
chosen ones, `ScanChoice` shows when the outcome is a legal script; `ScanScript` is the validation of
scripts and `ScriptHistory` what it amounts to. `PassLog` is the numbering of passes and what it implies,
`PassMaster` the pass machine with the loop that drives it, `SimpleScript` the scripts used without a
search.

**Rows** (jcprepct.c, jcmainct.c, jcapistd.c). `PrepController` is the buffer of three row groups with its
aliased row pointers, `MainController` the iMCU row buffer with suspension; both are proved against
"downsample the clamped image".

## Findings

Places where the code does less than one might expect, each with its exact condition.

- The arithmetic decoder takes its error exit exactly when a DC difference exceeds 2^15 in magnitude
  (`DcSyntax.ReadDcInverts`, `ProgressiveImage.TransmitScript`).  16-bit coefficients alone do not exclude
  that (`ArithScan.LargeDifference`); DC values within 15 bits do (`ProgressiveImage.SmallDcReadable`).
- The divisor of compute_reciprocal is a 16-bit parameter that receives eight times a quantization value.
  Quantization is exact exactly for values below 8192; for a multiple of 8192 the parameter is zero and
  jcdctmgr.c:247 divides by it (`Reciprocal.StepWhole`).
- With trellis quantization on and no trellis loop, a trellis pass takes the number of an output pass and all
  later passes are two numbers late.  The work then ends one scan too early (`PassMaster.OnlyScanLost`), unless
  a jump of the search sets the number anew; `PassMaster.Compress` says exactly when.  `PassMaster.NoJumpAtAll`
  has sizes for which the search does not jump.
- The scan search reads dc_scan_opt_mode when the list is made and again when scans are copied.  If only one of
  the two values is zero, chroma DC coefficients are sent twice or never, and only then is the script not legal
  and complete (`ScanChoice.ChoiceIsLegal`).
- A table from counts fails exactly when a code would be longer than 32 bits.  Fewer than 9227464 counted
  symbols never get there (`HuffmanDepth.LeastOf33`), and that many do: 33 symbols with Fibonacci counts end
  in the error exit (`HuffmanTable.TableFromCounts`, `HuffmanTable.LongestCountsShape`).

## Model

A path is relative to the root of the repository.

| member | source | states |
|---|---|---|
| ProbabilityTable.AllRows | jaricom.c:41-154 | All 114 states have an estimate between 1 and 0x7FFF and successors inside the table, which is all the coder relies on |
| ProbabilityTable.EstimatesAdapt | jaricom.c:39-154 | In every row but the reserved one a more probable symbol lowers the estimate, except in row 13, and a less probable symbol raises it, except in exactly the rows that exchange the two symbols |
| ProbabilityTable.SenseAfter | jcarith.c:240-268 | The more probable symbol changes sides exactly after a less probable one in a row marked for it, and the next state is the one the row lists for what was coded |
| ProbabilityTable.FixedStays | jaricom.c:150-154 | The state reserved for decisions of probability one half never adapts |
| IdealCoder.SplitFills | jcarith.c:244-269 | The two sub-intervals do not overlap and fill the interval; the one at the top is Qe wide |
| IdealCoder.LargerForMoreProbable | jcarith.c:246-265 | The conditional exchange: for every table, state and normalized width the more probable symbol has the larger sub-interval and, of two equal ones, the lower |
| IdealCoder.EstimatedIfRenormalized | jcarith.c:254-268 | A bin adapts exactly when renormalization is due |
| IdealCoder.NarrowNests | jcarith.c:244-274 | A code value inside the interval after a decision, conditional exchange and renormalization included, was inside it before |
| IdealCoder.DecideInvertsSplit | jdarith.c:159-190 | For a code value in the sub-interval the encoder chose, the decoder chooses the same decision, the same next state of the bin and the same offset |
| IdealCoder.DecodingInvertsEncoding | jdarith.c:114-191 | Any code value inside the last interval makes the decoder return every decision, and leaves both sides with the same statistics; sections D.1 and D.2 of T.81 |
| CodeBytes.NumberCarry | jcarith.c:278-289 | Turning stacked 0xFF bytes into zeros and adding one to the byte before them is adding one to the number they spell |
| CodeBytes.UnstuffStuffed | jdarith.c:125-146 | Dropping the zero after each 0xFF and stopping at the first marker gives back the stuffed bytes, whatever follows them |
| CodeBytes.StuffedFFIsFollowedByZero | jcarith.c:297-316 | Inside entropy-coded bytes every 0xFF is followed by 0x00 |
| CodeBytes.MarkerEndsCode | jdarith.c:129-145 | Any number of fill bytes and a marker end the code; nothing after them is read |
| ArithEncoder.ShiftRepresents | jcarith.c:271-275 | Shifting A and C left and counting CT down keeps the digits moved out, then C, equal to the bottom of the ideal interval |
| ArithEncoder.CompleteByteBound | jcarith.c:275-293 | When CT reaches zero the byte above bit 19 is at most 0x11F: a carry is at most one, and the byte left after a carry is not 0xFF |
| ArithEncoder.CarryHasRoom | jcarith.c:278-289 | If all pending bytes are 0xFF and none is buffered no carry arises: none ever leaves the first byte of the code |
| ArithEncoder.RoundestCode | jcarith.c:150-155 | The value finish_pass picks lies in the interval and ends in as many zero bits as any value of it can, up to sixteen |
| ArithEncoder.ArithEncoder.CarryOver | jcarith.c:278-289 | With a carry the bytes written are the pending zeros and the buffered byte plus one, the stacked 0xFF bytes turn into pending zeros, and no written code byte is an unstuffed trailing zero |
| ArithEncoder.ArithEncoder.ReleaseBytes | jcarith.c:297-314 | Without a carry the bytes written and the zeros still pending are exactly the digits determined so far |
| ArithEncoder.ArithEncoder.AppendByte | jcarith.c:277-316 | Whichever of the three branches is taken, one digit is added and the number grows to 256 times itself plus the byte with its carry |
| ArithEncoder.ArithEncoder.Renorm | jcarith.c:271-320 | Registers, pending bytes and output afterwards stand for the renormalized ideal interval |
| ArithEncoder.ArithEncoder.Encode | jcarith.c:228-321 | One decision: registers, bytes and every bin go to exactly the state the ideal coder has after it, and the representation invariant holds |
| ArithEncoder.ArithEncoder.Finish | jcarith.c:142-203 | The output is the stuffed code, its last code byte is not zero, and as a fraction it is exactly the roundest value of the final interval |
| ArithEncoder.ArithEncoder.AddFinalCarry | jcarith.c:157-188 | The carry out of the shifted C is added to the pending bytes, no digit is lost and no trailing zero written |
| ArithDecoder.ArithDecoder.constructor | jdarith.c:735-737 | C, A and CT all start so that the first decision sees the whole unit interval and the whole code as the offset |
| ArithDecoder.ArithDecoder.GetByte | jdarith.c:73-84 | The next byte of the source; a source that has run out goes on with an end-of-image marker |
| ArithDecoder.ArithDecoder.NextCodeByte | jdarith.c:125-146 | The next code byte with stuffing removed, and zeros for ever once a marker was met |
| ArithDecoder.ArithDecoder.Renorm | jdarith.c:122-157 | Reading bytes as CT runs out, with the two initial bytes, leaves C, A and CT standing for the doubled ideal offset |
| ArithDecoder.ArithDecoder.Decode | jdarith.c:114-191 | Decision, bin and registers are exactly those of the ideal decoder on the code bytes still unread |
| ArithRoundTrip.CodeRoundTrips | jdarith.c:114-191 | For every sequence of bins and decisions and any bytes that lie in the final interval: the decoder returns the decisions, and after each of them every bin is in the state the encoder had |
| ArithRoundTrip.WriteCode | jcarith.c:142-321 | arith_encode for each decision and finish_pass: stuffed bytes without a trailing zero, inside the final interval, and no byte string in that interval is shorter |
| ArithRoundTrip.RoundTrip | jdarith.c:114-191 | Decisions written, closed, followed by any marker and read back are the same decisions, and both sides end with the same statistics |
| ArithRoundTrip.ShortestCode | jcarith.c:142-203 | The rounding and the dropping of trailing zero bytes together give the shortest code there is |
| ArithRoundTrip.EveryCodeInside | jcarith.c:901-907 | Before the first decision the interval holds every byte string and nothing else |
| Coefficients.MagRefines | jcarith.c:642-668 | Each refinement bit halves the magnitude sent before and adds one bit to what the decoder knows |
| Coefficients.DcRefines | jcarith.c:561-589 | The same for the DC point transform, which shifts arithmetically |
| Coefficients.PointTransforms | jcarith.c:401-406 | What a decoder can know: of an AC coefficient the multiple of 2^Al next to it toward zero, of a DC coefficient the one next to it below |
| HuffFigures.ProductOfShift | jdarith.c:312-316 | Shifting up by Al is multiplying by 2^Al |
| Binarization.ReadMagnitudeInverts | jdarith.c:543-569 | Category and low bits of a magnitude read back exactly when it is below 2^15 after subtracting one, and the error exit is taken exactly otherwise |
| DcSyntax.ReadDcInverts | jdarith.c:530-571 | Over any channel that delivers them the decisions of a DC difference give the prediction modulo 2^16 and the same dc_context, exactly when the difference is at most 2^15 in magnitude |
| DcSyntax.Conditioning | jcarith.c:412-445 | Section F.1.4.4.1.2: the next difference has context 0 exactly if this one, d, has 2 abs(d) at most 2^L; 4 or 8 by its sign if it is larger but abs(d) is at most 2^U; 12 or 16 if it is larger than both bounds |
| ArithFigures.DcDecisionsAt | jcarith.c:408-426 | Figures F.4, F.6 and F.7 with Table F.4: the decisions of the differences 0, 1 and -1, with their bins |
| ArithFigures.DcMagnitudeAt | jcarith.c:414-450 | Any larger difference: S0, its sign, SP or SN, the category in unary from X1 = 20 on, and its binary digits 14 bins further |
| DcSyntax.StoredDc | jdarith.c:312-316 | The 16-bit coefficient stored from the prediction modulo 2^16 is the point transform |
| AcSyntax.ReadAcInverts | jdarith.c:350-391 | From any position of a band on, decoding inverts coding over every 16-bit coefficient, and neither error exit is taken |
| AcSyntax.BandRoundTrips | jcarith.c:462-554 | A band coded and read back into a zero band holds each coefficient at its point transform and leaves the others alone |
| ArithFigures.AcRun | jcarith.c:503-523 | Figure F.5 from any position: no end of block, one decision per zero up to the next coefficient that is not zero, that it is not, its sign on the fixed bin, its magnitude, and on behind it |
| ArithFigures.AcMagnitudeAt | jcarith.c:524-528 | Magnitudes 1 and 2: one or two decisions on one bin |
| ArithFigures.AcLargeAt | jcarith.c:524-545 | Larger magnitudes: two ones on the first bin, then category and digits at 189 for positions up to Kx and at 217 above |
| ArithFigures.AcEnd | jcarith.c:546-551 | The end of block is said behind the last coefficient that is not zero, unless it is the last of the band; a band of zeros is nothing else |
| ArithFigures.ZerosRunOff | jdarith.c:352-363 | The decoder takes its spectral overflow exit, with the block unchanged, when zeros reach the end of the band without an end of block |
| ArithFigures.OversizeFails | jdarith.c:370-384 | It takes its magnitude overflow exit for any magnitude above 2^15 |
| RefineSyntax.SameEarlierEnd | jcarith.c:620-640 | The end of block of the previous stage that the encoder finds in the original is the one the decoder finds in what it knows |
| RefineSyntax.RefinementRoundTrips | jdarith.c:435-497 | A refinement of a band known down to the bit above brings each coefficient to its next approximation, newly nonzero ones with their sign |
| RefineSyntax.DcRefinementRoundTrips | jdarith.c:402-428 | The bit sent, set in the known DC value, is the DC value one bit more exact |
| ArithFigures.RefineRunAt | jcarith.c:642-671 | Figure G.10 from any position: the end-of-block decision only behind EOBx, then the zeros, then the lowest bit of a coefficient known before or, for a new one, that it is new and its sign |
| ArithFigures.RefineEnd | jcarith.c:673-679 | The end of block of a refinement scan, as in a first one |
| ArithFigures.RefineStart | jcarith.c:620-640 | EOBx is the last coefficient whose magnitude before was not zero |
| ArithFigures.RefineRunOff | jdarith.c:484-492 | The spectral overflow exit of a refinement scan |
| ScanCoding.BlockRoundTrips | jdarith.c:249-624 | In each of the five modes a block read over a channel that delivers its decisions is what the mode promises, with the same predictions and contexts on both sides, exactly if its DC difference is readable |
| ScanCoding.ScanRoundTrips | jdarith.c:504-624 | The same for every sequence of MCUs: success exactly if all DC differences are at most 2^15 in magnitude, and then every block as promised |
| BinAreas.DcArea | jcarith.c:716-765 | The bins visited for a DC difference stay inside the DC_STAT_BINS of the table |
| BinAreas.AcArea | jcarith.c:767-820 | The bins visited for a band stay inside the AC_STAT_BINS of the table or are the fixed bin |
| BinAreas.ScanCodable | jcarith.c:371-824 | No decision of any scan addresses a bin outside the statistics areas |
| McuEncoder.McuEncoder.EncodeDc | jcarith.c:403-450 | The decisions sent, and the prediction and dc_context left, are those of the DC syntax, whose context is what DcSyntax.Conditioning says of the difference |
| McuEncoder.McuEncoder.EncodeAc | jcarith.c:488-551 | With the search for the end of block, the decisions sent are those of the AC syntax |
| McuEncoder.McuEncoder.EncodeAcRefine | jcarith.c:596-682 | With both end-of-block searches, the decisions sent are those of the refinement syntax |
| McuEncoder.McuEncoder.EncodeBlocks | jcarith.c:689-824 | Any number of blocks in any mode: exactly the decisions of the scan are encoded, in order |
| McuDecoder.McuDecoder.DcDifference | jdarith.c:530-571 | Loops and error exit compute the DC syntax read over the decoder |
| McuDecoder.McuDecoder.DecodeAc | jdarith.c:350-391 | Loops and error exits compute the AC syntax read over the decoder |
| McuDecoder.McuDecoder.DecodeAcRefine | jdarith.c:458-493 | Loops and error exit compute the refinement syntax read over the decoder |
| McuDecoder.McuDecoder.DecodeBlocks | jdarith.c:504-624 | Any number of blocks: blocks, decoder state and error flag are those of the scan syntax; after an error nothing more is read |
| ArithScan.ScanThroughBytes | jdarith.c:504-624 | The decoder on the bytes of the encoder, with any marker behind them, succeeds exactly when every DC difference is readable and then delivers what the scan promises |
| ArithScan.LargeDifference | jdarith.c:543-552 | Two blocks with the smallest and the largest 16-bit DC value are a scan the decoder rejects |
| ArithScan.ScanRoundTrip | jcarith.c:689-824 | start_pass, the MCU routine and finish_pass, then the decoder: success exactly for readable scans, and then every block as the scan promises |
| ArithScan.ScanStartAt | jcarith.c:869-899 | A scan starts with every bin at state 0 except the fixed one at 113, and with predictions and contexts 0 |
| ScanScript.ValidateScript | jcmaster.c:269-440 | A script is accepted as progressive exactly if every scan is legal after those before it and every component has DC data: components ordered, bands in range, first scans with Ah 0, refinements one bit at a time |
| ScanScript.CheckScan | jcmaster.c:332-431 | One scan passes the checks exactly if it is legal, and the updated last_bitpos is what it has then sent |
| ScanScript.BitsInOrder | jcmaster.c:371-387 | In an accepted script the first scan that sends a coefficient has Ah 0 and each later one sends exactly the bit below the scan before it: the Al values of a coefficient go down by one |
| ScriptHistory.LegalByHistory | jcmaster.c:269-440 | The rules without a table of bit positions: a progressive script is accepted exactly if every scan has one to four components in order and either DC coefficients alone or a band of one component, AC only after DC, Ah 0 where nothing was sent before and otherwise Ah the last Al sent and Al one less, neither above 10 or, for 12-bit samples, 13, and every DC coefficient is sent |
| ScriptHistory.FirstScanTells | jcmaster.c:300-322 | The first scan of an acceptable progressive script is a first DC scan and never taken for a sequential or lossless one, which are those with coefficients 0 to 63 and those with Se 0 and Ss not |
| ProgressiveImage.ScanKnown | jdarith.c:249-497 | Blocks decoded in a legal scan put into the image leave every coefficient known down to the last Al sent for it |
| ProgressiveImage.SmallDcReadable | jdarith.c:543-552 | DC values within 15 bits keep every scan of every script away from the error exit |
| ProgressiveImage.TransmitScript | jcmaster.c:332-431 | Every scan of an accepted script encoded, decoded and applied in order: no error exactly if every scan is readable, then each coefficient equals its point transform at the last Al sent for it, and a script down to Al 0 gives the image itself |
| HuffmanCost.SmallestLongest | jchuff.c:1008-1029 | Any prefix code can be changed, at no cost, so that the two smallest counts have the longest codes, of equal length |
| HuffmanCost.MergeLengths | jchuff.c:1031-1057 | A prefix code for separate counts gives one for the merged counts that costs their sum less: merging the two smallest loses nothing |
| HuffmanCost.FrequentNotLonger | jchuff.c:1005-1057 | In a code that no prefix code for the counts beats, the more frequent of two symbols never has the longer code |
| HuffmanForest.JoinGrown | jchuff.c:1031-1057 | A merge keeps: each tree counts its symbols, each tree is full, and what was spent so far plus the best still possible is a lower bound for every prefix code |
| HuffmanForest.JoinCountable | jchuff.c:1012-1040 | No count ever reaches the sentinels 1000000000 and 1000000001 |
| HuffmanForest.GrownOptimal | jchuff.c:1031-1057 | When one tree is left its Kraft sum is exactly one and no prefix code for the counts has a smaller weighted length |
| HuffmanOrder.FirstInFirstOut | jchuff.c:1012-1029 | Because of the tie-break towards larger indices and merged trees kept at the smaller index, merged trees are merged again in the order they were made |
| HuffmanOrder.LastDeepest | jchuff.c:1012-1057 | Symbol 256, the last one with the count 1, gets a code no shorter than any other |
| HuffmanDepth.JoinTall | jchuff.c:1031-1057 | A merge keeps the bound that a tree with a symbol d steps down counts at least the d-th Fibonacci number |
| HuffmanDepth.LeastOf33 | jchuff.c:1059-1067 | A code of 33 bits needs counts of at least 9227465 |
| HuffmanDepth.JoinOnStairs | jchuff.c:1012-1057 | With counts that fall like a Fibonacci sequence every merge takes the tree of all symbols merged so far and the next bare symbol, so the last symbol sinks by one each time |
| HuffmanTree.GroupNonzero | jchuff.c:993-1003 | The counts of the occurring symbols, in order, are at the front of the array, and nz_index tells which they are |
| HuffmanTree.SelectTwo | jchuff.c:1008-1033 | The one scan finds both smallest counts, the larger index among equals, or finds that one tree is left |
| HuffmanTree.Descend | jchuff.c:1042-1056 | Following others[] adds one to the code length of exactly the symbols of the tree and ends at its last symbol |
| HuffmanTree.MergeTrees | jchuff.c:1031-1057 | The three arrays updated in place hold the joined forest |
| HuffmanTree.FindCodeSizes | jchuff.c:1005-1057 | The loop ends with a Kraft sum of one, minimal weighted length among all prefix codes, the longest code at the last symbol, and lengths bounded by the counts; with Fibonacci counts of n symbols the last length is n - 1 |
| HuffmanLimit.CountLengths | jchuff.c:1059-1067 | bits[] counts the codes of each length; the error exit is taken exactly if one is longer than 32 |
| HuffmanLimit.ReplacePair | jchuff.c:1092-1101 | The search for a shorter prefix ends at the longest length below i - 1 in use; one code of that length is split, two of length i leave and one of length i - 1 comes, and nothing else changes; the number of codes and the full code space are kept |
| HuffmanLimit.LimitLengths | jchuff.c:1080-1102 | As many codes as before, none over 16 bits, the code space still full. Counts within 16 bits are untouched; otherwise the lengths below some length are untouched, that length has fewer codes than before, and from there on every length has as many codes as any 16-bit code for as many symbols can have that is the same in all shorter lengths |
| HuffmanLimit.LimitDetermined | jchuff.c:1080-1102 | Those conditions leave one result: two limited counts of the same code lengths are equal |
| HuffmanLimit.TightBest | jchuff.c:1091-1101 | If at no length a code more would leave room for the rest, no full 16-bit code that is the same in all shorter lengths has more codes of the next one |
| HuffmanLimit.DropPseudoSymbol | jchuff.c:1104-1107 | One code less at the largest length in use and nothing else |
| SymbolOrder.BitPositions | jchuff.c:1069-1078 | Each length starts in the list after all symbols with shorter codes |
| SymbolOrder.ListSymbols | jchuff.c:1109-1120 | huffval lists every symbol once, by code length and then by value |
| CanonicalCode.PrefixFree | jchuff.c:278-296 | Of the codes counted up by length, none is the start of another |
| CanonicalCode.NextCode | jchuff.c:278-296 | Figure C.2 code by code: the first is all zeros, each other one is the one before it plus one, with zeros appended if it is longer |
| CanonicalCode.CodeFits | jchuff.c:278-296 | Each code fits its length and is not all ones |
| DerivedTable.GenerateCodes | jchuff.c:278-296 | The codes are those of Figure C.2, and the error exit is taken exactly when a length runs out of code space |
| DerivedTable.MakeDerivedTable | jchuff.c:235-322 | A table is built exactly for legal bits[] and huffval, and then gives each listed symbol its code and every other symbol length 0 |
| DerivedTable.LegalTableMeans | jchuff.c:265-333 | The tables accepted are those with at most 256 canonical codes that fit their lengths without being all ones, for distinct symbols within the limit |
| DerivedTable.SymbolsTellApart | jchuff.c:298-321 | In an accepted table a code has at most 16 bits, is not all ones and is not the start of the code of another symbol |
| HuffmanTable.GenOptimalTable | jchuff.c:965-1124 | Code lengths no prefix code beats; an error exactly if one is over 32, never for total counts below 9227464, and always for the counts given with that total; otherwise a legal table of 16-bit codes for the symbols sorted by those lengths, whose counts are those lengths limited as LimitLengths does, without one of the longest |
| HuffmanTable.CountsDetermined | jchuff.c:1080-1113 | The code lengths determine every count of the table |
| HuffmanTable.FallingStaircase | jchuff.c:993-1057 | For every number of symbols there are counts whose longest code is as long as their total allows: total plus one is the least count for that length |
| HuffmanTable.LongestCountsShape | jchuff.c:1059-1067 | 33 symbols with a total of 9227464, the smallest that reaches the error exit, are within what the construction takes |
| HuffmanTable.TableAccepted | jchuff.c:265-321 | jpeg_make_c_derived_tbl never rejects a table built from counts |
| HuffmanTable.EveryOccurringCoded | jchuff.c:298-321 | A symbol has a code, of 1 to 16 bits, exactly if its count is not zero |
| HuffmanTable.UnlimitedBest | jchuff.c:1069-1120 | If no length had to be limited the codes of the table have the optimal lengths, although 256 was removed |
| HuffmanTable.TableFromCounts | jchuff.c:1131-1170 | Counts to encoding table: fails exactly if an optimal code length is over 32, as it does for the counts given; otherwise legal, with the lengths limited as in GenOptimalTable, and exactly the occurring symbols have codes |
| HuffDecode.MakeDecoderTable | jdhuff.c:205-223 | maxcode and valoffset are the largest code of each length and the distance from code to list index, for exactly the legal tables |
| HuffDecode.SymbolDecoded | jdhuff.c:435-471 | The code of a symbol followed by any bits is decoded to that symbol, with those bits left |
| HuffSyntax.ExtendInverts | jdhuff.c:479-489 | HUFF_EXTEND of the low bits sent for a value is the value |
| HuffFigures.ValueAt | jcphuff.c:503-537 | The category is the number of binary digits of the magnitude; the bits are the value or, if negative, all ones minus the magnitude |
| HuffFigures.ComplementBits | jcphuff.c:513-518 | All ones minus a number is that number with every bit inverted |
| HuffSyntax.ReadBandInverts | jdphuff.c:403-428 | Runs over 15, symbols and values of a band read back to each coefficient at its point transform up to the last nonzero one |
| HuffFigures.BandRunAt | jcphuff.c:617-647 | Figures F.2 and F.3 from any position: a symbol 0xF0 for each 16 zeros, then 16 times the rest plus the category of the next coefficient, its bits, and on behind it |
| HuffFigures.SequentialBlockAt | jchuff.c:568-720 | A block: category and bits of the DC difference, the AC coefficients, and symbol 0 exactly if the last one is zero |
| HuffBlocks.UnitsRoundTrip | jdhuff.c:551-653 | The tokens of sequential, DC first and DC refinement scans give back every block as the scan promises, from any source that delivers them |
| HuffAcFirst.PendingRun | jcphuff.c:409-431 | A run of empty blocks goes out as one symbol before the next block that is not empty, when it is full, or at the end |
| HuffFigures.EobTokensAt | jcphuff.c:409-425 | A run e with 2^n at most e and below 2^(n+1) is sent as symbol 16 n and the n bits of e below the leading one |
| HuffFigures.FirstScanBlockAt | jcphuff.c:692-721 | A block without coefficients sends nothing until the run is 32767; any other one has the run sent before it and starts a new one unless its last coefficient is not zero |
| HuffAcFirst.RoundTrips | jdphuff.c:365-442 | Any number of blocks with runs across them: every coefficient at its point transform and all tokens used up |
| HuffAcRefine.RefineReads | jcphuff.c:918-1017 | The decoder that waits for the next symbol follows an encoder that holds back zeros and correction bits, across every restart of the search for a run |
| HuffAcRefine.BusyBlock | jcphuff.c:863-916 | A block with a newly nonzero coefficient first flushes the run and bits held back, and otherwise codes as if nothing had been |
| HuffFigures.NewCoefAt | jcphuff.c:897-912 | Figure G.7 at the next new coefficient after up to 15 zeros: the waiting run with its bits, symbol 16 r + 1, a one for a positive sign, the corrections passed over, and on with nothing waiting |
| HuffFigures.LongGapAt | jcphuff.c:870-881 | After 16 zeros or more, if a new coefficient is still to come: the waiting run with its bits, symbol 0xF0, the corrections so far |
| HuffFigures.CorrectionsAre | jcphuff.c:890-896 | The corrections are the lowest bits of the coefficients that were not zero before, in order |
| HuffFigures.QuietBlockAt | jcphuff.c:989-1000 | A block without new coefficients only adds to the run and to the bits held back, which are sent exactly when the run is 32767 or more than 937 of the 1000 bits are used |
| HuffAcRefine.RefinementsRoundTrip | jdphuff.c:501-650 | Any number of blocks refined with batched end-of-band runs and deferred correction bits: every coefficient at its next approximation and all tokens used up |
| BitPacking.Append | jcphuff.c:322-358 | What was packed before never changes, and appending needs only the bits of the last partial byte |
| BitPacking.PaddedWhole | jchuff.c:483-537 | Padding with ones completes the last byte |
| FlushTest.ByteTest | jchuff.c:371 | On one byte: high bit set and high bit of the sum clear |
| FlushTest.WordConstants | jchuff.c:371 | The masks of the test at eight bytes are the two constants of the source |
| FlushTest.SomeFFExact | jchuff.c:370-391 | The mask and carry expression is nonzero exactly if one of the eight bytes is 0xFF |
| PhuffBitBuffer.PhuffBitBuffer.EmitBits | jcphuff.c:322-358 | The bits appended are the low bits of the code, first bit first; output is the stuffed packing of all bits appended; size 0 is the error exit and appends nothing |
| PhuffBitBuffer.PhuffBitBuffer.FlushBits | jcphuff.c:361-367 | The last byte is filled up with ones and nothing is left over |
| PhuffBitBuffer.PaddedBySeven | jcphuff.c:361-367 | Appending seven ones writes the same bytes as filling the last byte with ones |
| HuffBitBuffer.HuffBitBuffer.Flush | jchuff.c:364-391 | Both paths write the eight bytes of the word, each 0xFF with a zero after it |
| HuffBitBuffer.FilledWord | jchuff.c:412-420 | The shifted buffer with the top of the code holds exactly the pending bits and the leading bits of the code, whatever stale high bits there were |
| HuffBitBuffer.HuffBitBuffer.PutAndFlush | jchuff.c:412-420 | A full word goes out and the rest of the code starts the next one |
| HuffBitBuffer.HuffBitBuffer.PutBits | jchuff.c:422-432 | The bits appended are those of the code, and the output is the stuffed packing of all bits appended |
| HuffBitBuffer.HuffBitBuffer.PutCode | jchuff.c:434-439 | Code and value bits are appended in this order although they are merged into one word first |
| HuffBitBuffer.HuffBitBuffer.FlushBits | jchuff.c:483-537 | The same padding with ones as the other buffer, and the output is the stuffed packing of everything |
| HuffEncoder.HtestOneBlock | jchuff.c:830-896 | Each symbol is counted as often as the encoder sends it for the block; the error exit is taken exactly if a coefficient is out of range |
| HuffEncoder.EncodeOneBlock | jchuff.c:567-679 | The bits appended are those of the symbols and values of the block under the tables; the error exit is taken exactly if a coefficient is out of range |
| HuffScan.GatherScan | jchuff.c:904-960 | For any sequence of blocks the counts are the number of uses of each symbol in what the output pass sends, unless some coefficient is out of range |
| HuffScan.SendScan | jchuff.c:711-825 | The bytes are the stuffed packing of the bits of exactly these symbols and values, padded with ones, unless some coefficient is out of range |
| HuffScan.FewEnough | jchuff.c:965-970 | Counts of a scan leave two symbols unused and stay below the sentinels, so that the table construction applies to them |
| HuffScan.BuildTables | jchuff.c:1131-1170 | With tables built from the counts no symbol sent has code length 0; an error only if some optimal code is over 32 bits, never below 9227464 tokens |
| HuffScan.BytesDeliver | jdhuff.c:435-471 | The stuffed, padded bytes of any list of tokens, with anything behind them that ends the code, deliver those tokens to a decoder with the tables |
| HuffScan.ReadBackWhole | jdhuff.c:551-653 | Bytes and any marker behind them, read with the same tables, give back every block |
| HuffScan.OptimizedScan | jchuff.c:904-1170 | Gather, build tables, send: what comes out, with any marker behind it, decodes to the blocks; an error if a coefficient is out of range, and otherwise only if an optimal code is over 32 bits |
| PhuffEncoder.PhuffEncoder.EmitSymbol | jcphuff.c:374-383 | The same symbol is counted for its table in the gathering pass and sent in the output pass |
| PhuffEncoder.PhuffEncoder.EmitEobrun | jcphuff.c:409-431 | Run symbol, run length bits and all held-back correction bits go out, and nothing is held back afterwards |
| PhuffEncoder.PhuffEncoder.EncodeDcFirst | jcphuff.c:490-546 | One block: the prediction moves on and exactly the tokens of the difference go out; the error exit is taken exactly if the difference is out of range |
| PhuffEncoder.PhuffEncoder.EncodeDcRefine | jcphuff.c:763-770 | One block: the bit at Al of the DC value |
| PhuffEncoder.PhuffEncoder.EncodeMcuAcFirst | jcphuff.c:648-737 | One block: exactly the tokens of the syntax, and the run carried on as the syntax carries it; the error exit is taken exactly if a coefficient of the band is out of range |
| PhuffEncoder.PhuffEncoder.RefineBand | jcphuff.c:863-988 | Correction bits appended in place behind those of earlier blocks never exceed MAX_CORR_BITS and are those the syntax holds back |
| PhuffEncoder.PhuffEncoder.EncodeMcuAcRefine | jcphuff.c:918-1017 | One block: tokens, run and held-back bits as in the syntax; between blocks EOBRUN is below 0x7FFF and BE leaves room for the bits of another block |
| PhuffScan.PassRoundTrips | jdphuff.c:300-650 | First or refinement scan of DC or AC coefficients: any number of blocks recovered from the tokens, any source |
| PhuffScan.GatherPass | jcphuff.c:1045-1085 | The counts of the gathering pass are the uses of each symbol of each table in the tokens of the scan; it ends early exactly if a coefficient is out of range |
| PhuffScan.OutputPass | jcphuff.c:1024-1043 | The bytes are the stuffed packing of the bits of exactly the tokens of the scan, padded with ones |
| PhuffScan.OptimizedPass | jcphuff.c:179-280 | Gather, build the tables, send, in any of the four modes: with any marker behind them the bytes decode to what the scan promises of every block; an error if a coefficient is out of range, and otherwise only if an optimal code is over 32 bits |
| PhuffImage.ScanAdds | jdphuff.c:300-650 | One legal scan, decoded on top of what is known, leaves every coefficient known down to the last Al sent for it |
| PhuffImage.SendScript | jcphuff.c:1024-1085 | Every scan of a script gathered, given its tables and sent: an error if a coefficient is out of range in some scan, and otherwise only if an optimal code is over 32 bits |
| PhuffImage.ScriptRoundTrips | jcmaster.c:332-431 | Data and tables of all scans of an accepted script, read with any marker after each scan: each coefficient equals its point transform at the last Al sent for it, and a script down to Al 0 gives the image itself |
| PhuffImage.InRangeAcceptable | jcphuff.c:518-523 | Coefficients of at most max_coef_bits bits, DC values of as many and a sign: no scan of the image takes the error exit, whatever its Al |
| Reciprocal.Flss | jcdctmgr.c:134-162 | The number of significant bits, through all mask and shift steps |
| Reciprocal.PowerOfTwo | jcdctmgr.c:252-255 | With a power of two the halved reciprocal and the shift by one less divide exactly and fit their words |
| Reciprocal.BelowHalf | jcdctmgr.c:256-257 | With the reciprocal rounded down and the correction raised by one, multiplying and shifting divides exactly |
| Reciprocal.AboveHalf | jcdctmgr.c:258-260 | With the reciprocal rounded up, multiplying and shifting divides exactly |
| Reciprocal.ComputeReciprocal | jcdctmgr.c:224-273 | For every divisor from 1 to 65535 and words of 16 bits or more the entries stored divide every admissible input exactly, and fit a word |
| Reciprocal.Quantize | jcdctmgr.c:654-725 | Every coefficient becomes the quotient of the plain division, rounded with halves away from zero, sign kept |
| Reciprocal.QuantizeBlock | jcdctmgr.c:308-331 | Table and quantizer together: each coefficient is the rounded quotient by the step left of eight times its quantization value |
| Reciprocal.StepWhole | jcdctmgr.c:322-326 | That step is eight times the quantization value, and so divides as it should, exactly for values below 8192; it is zero exactly for multiples of 8192 |
| Reciprocal.RoundedIsNearest | jcdctmgr.c:711-719 | The quotient is a nearest one, halves are rounded away from zero, and opposite numbers have opposite quotients |
| TrellisCosts.RateIsBitsSent | jcdctmgr.c:1831-1850 | The rate the trellis counts for a block is the length of the codes and values the encoder would send |
| TrellisCosts.QValNearest | jcdctmgr.c:1787-1797 | The quotient the candidates are built around is the multiple of the step nearest to the magnitude, the larger of two, unless that is beyond the largest coefficient, which it is then |
| TrellisCosts.CandidateNearest | jcdctmgr.c:1799-1810 | Of all values with the same number of bits, of either sign, none is nearer to the coefficient than the candidate with that number of bits |
| TrellisCosts.RoundingIsChosen | jcdctmgr.c:1787-1810 | A block of nearest multiples, with halves rounded up and the largest coefficient where the nearest multiple is beyond it, is among the choices |
| TrellisReach.ReplacedCosts | jcdctmgr.c:1799-1810 | Every block whose coefficients need no more bits than their nearest multiples can be replaced by an admissible one that costs no more: the same number of bits sent, no coefficient further away |
| TrellisReach.AdmissibleInReach | jcdctmgr.c:1799-1810 | Every admissible block is such a block, at the same cost |
| TrellisAc.SearchPosition | jcdctmgr.c:1770-1864 | After a position each accumulated cost is the least over all candidates and all earlier nonzero positions, and the links lead to it |
| TrellisAc.NoPathCostsLess | jcdctmgr.c:1814-1864 | No block that ends with a nonzero value at a position has a prefix cheaper than the accumulated cost there |
| TrellisAc.PathCosts | jcdctmgr.c:1043-1058 | The path the links give costs exactly the accumulated cost |
| TrellisAc.FindBlockEobPosition | jcdctmgr.c:1462-1504 | The last position chosen, or no coefficient at all, has the smallest total of all ends, with the end-of-block code counted only where one is sent |
| TrellisAc.ZeroTrailingCoefficients | jcdctmgr.c:1043-1058 | Of the band exactly the backtracked path is left |
| TrellisAc.KeptPath | jcdctmgr.c:1866-1881 | The block left costs exactly what the search reported and ends at the position reported |
| TrellisAc.OptimizeBlock | jcdctmgr.c:1770-1881 | No admissible block, and no block at all whose coefficients need no more bits than their nearest multiples and whose symbols have codes, has a smaller rate plus distortion; coefficients outside the band are untouched |
| TrellisDc.NumCandidates | jcdctmgr.c:1030-1033 | An odd number of candidates between three and nine, so that there is a middle one |
| TrellisDc.CandidatesByStep | jcdctmgr.c:1030-1033 | Nine candidates for steps up to 10, seven up to 15, five up to 30, three above |
| TrellisDc.CandidatesAround | jcdctmgr.c:1639-1650 | The candidates are the nearest multiple of the step and as many numbers on either side, cut off at the largest coefficient, with the sign of the coefficient |
| TrellisDc.DistBlends | jcdctmgr.c:1649-1670 | The distortion is the squared error of the block and, where a row lies above, of the difference to the error above, in the proportion of the given weight |
| TrellisDc.FillEntry | jcdctmgr.c:1640-1689 | The cost of a candidate is that of the cheapest chain of candidates that ends in it, and the link goes to that chain |
| TrellisDc.DcBitsAreSent | jcdctmgr.c:1134-1139 | The rate counted for a DC difference is the length of its code and value |
| TrellisDc.Cheapest | jcdctmgr.c:2014-2019 | The smallest final accumulated cost is the minimum over all candidate sequences |
| TrellisDc.Backtrack | jcdctmgr.c:2020-2026 | The DC coefficients written back, last block first, are a minimum-cost sequence; nothing else changes |
| TrellisDc.OptimizeDc | jcdctmgr.c:1630-1690 | Over any number of blocks the DC values left are a cheapest sequence of candidates, and last_dc_val is its last value |
| TrellisRow.QuantizeTrellis | jcdctmgr.c:1527-2035 | For a row of blocks no admissible choice of AC bands and DC candidates has a smaller total rate plus distortion, and no band in reach of its nearest multiples is cheaper |
| TrellisRow.EncoderSends | jcdctmgr.c:1831-1850 | The symbols whose lengths the trellis adds are those the sequential encoder sends after the DC difference |
| ScriptRows.SendsMore | jcmaster.c:332-431 | Legal scripts put one after the other are legal and lead on from where the first one stopped |
| ScriptRows.SendSplit | jcmaster.c:332-431 | A band sent in two parts is legal and leaves all AC coefficients at the same bit |
| ScriptRows.SendsLegal | jcmaster.c:332-440 | Scans that lead from nothing to all DC coefficients sent are a script validate_script accepts |
| SearchScript.SearchProgression | jcparam.c:734-853 | For gray and YCbCr images the list of 23 or 64 trial scans, each place holding the scan that select_scans expects there; for all others none |
| SearchScript.PlanPlaces | jcmaster.c:779-783 | From the plan select_scans computes the places 12, 23, 26 and 42 where the parts of the list begin |
| SearchScript.LumaTrials | jcparam.c:795-811 | The luma part written out: point transforms 0 to 3 split at 8 with the refinement scans between them, then the whole band and the splits at 2, 8, 5, 12 and 18 |
| SearchScript.ChromaTrials | jcparam.c:818-842 | The chroma part for either component: DC scans, point transforms 0 to 2 split at 8, refinements, the whole band |
| SearchScript.ChromaSplitTrials | jcparam.c:844-849 | The chroma splits at 2, 8, 5, 12 and 18 |
| SearchScript.FillDcScans | jcparam.c:706-727 | One interleaved DC scan or one per component, and nothing else of the list changes |
| SimpleScript.RecommendedIsLegal | jcparam.c:860-1007 | Every recommended script, for any number of components and each variant, is accepted by validate_script and leaves every coefficient at bit 0 |
| SimpleScript.SimpleProgression | jcparam.c:860-1007 | The number of scans computed beforehand is the number filled in, and they are the recommended ones |
| ScanChoice.LumaPartsLead | jcmaster.c:916-921 | The luma scans copied send the whole band once, down to the bit chosen |
| ScanChoice.SharedBitsLead | jcmaster.c:948-955 | The refinement scans common to luma and chroma send each remaining bit once |
| ScanChoice.ChoiceIsLegal | jcmaster.c:898-962 | For every choice of the search the scans copied are accepted by validate_script and send every bit of every coefficient once, exactly if dc_scan_opt_mode was zero or not zero alike when the list was made and when scans are copied |
| ScanChoice.DcSentTwice | jcmaster.c:904-914 | A list made with mode 0 and copied with another mode sends the chroma DC coefficients twice, which validate_script rejects |
| ScanChoice.DcNeverSent | jcmaster.c:904-914 | A list made with another mode and copied with mode 0 never sends them |
| SearchOutcome.AlStopLeast | jcmaster.c:786-804 | The point transform before the one the search stops at is the smallest of all that are tried |
| SearchOutcome.BestSplit | jcmaster.c:805-829 | The split kept is the first of the smallest of all tried so far |
| SearchOutcome.SplitEndRule | jcmaster.c:822-829 | The search for a split ends after the second if none is best so far, after the third unless the second is, after the fourth unless the fourth is smaller, and otherwise after the fifth |
| SearchCosts.LumaAlSends | jcmaster.c:786-803 | What is compared for a luma point transform is the total size of trial scans that legally take luma from nothing to bit 0: both parts of its band and every refinement scan below |
| SearchCosts.ChromaAlSends | jcmaster.c:843-865 | The same for both chroma components |
| SearchCosts.LumaSplitSends | jcmaster.c:805-820 | What is compared for a luma split is the total size of scans that legally send all its AC coefficients down to the point transform chosen |
| SearchCosts.ChromaSplitSends | jcmaster.c:867-887 | The same for both chroma components |
| SearchCosts.LumaChoiceLeast | jcmaster.c:779-833 | Of the ways of sending luma that were tried, the one with the point transform chosen has the smallest total size, and of the splits tried the one chosen has |
| SearchCosts.ChromaChoiceLeast | jcmaster.c:835-896 | The same for chroma, and of the two ways to send the chroma DC coefficients the one kept is no larger |
| SearchCosts.CopiedSize | jcmaster.c:898-960 | What is copied has the size the comparisons added up: DC scans, the parts of the splits, and each refinement scan below the point transforms once |
| SearchOutcome.OnlyTriedCount | jcmaster.c:773-896 | Choice, jumps and the set of scans tried depend on the sizes of the scans tried alone |
| ScanSearch.LumaAlTaken | jcmaster.c:786-798 | With a point transform whose scans and refinements (SearchCosts.LumaAlSends) are smaller than those of the one before, everything known stays right and the search goes on |
| ScanSearch.LumaAlLeft | jcmaster.c:799-802 | The first point transform that is not smaller ends the luma trials: the jump to scan 12 leaves out exactly the scans of later ones |
| ScanSearch.LumaSplitsLeft | jcmaster.c:822-829 | The jump over the remaining luma splits is made at exactly the first split whose stop test holds |
| ScanSearch.ChromaDcDecided | jcmaster.c:834-838 | Interleaved chroma DC is chosen exactly if it is no larger than two separate scans |
| ScanSearch.ChromaAlLeft | jcmaster.c:861-864 | The first chroma point transform that is not smaller ends those trials, by a jump to scan 42 |
| ScanSearch.ChromaSplitsLeft | jcmaster.c:886-893 | The jump over the remaining chroma splits is made at exactly the first split whose stop test holds |
| ScanSearch.SearchEnds | jcmaster.c:773-896 | In the end exactly the trial scans that the sizes call for were coded, the choice is the one they call for, and the pass number was set anew exactly if they call for a jump |
| ScanSearch.NeverJumped | jcmaster.c:799-893 | If no comparison has jumped when the last trial scan is next, none of the sizes calls for a jump, whatever the size of that scan |
| ScanSearch.LumaRan | jcmaster.c:902-925 | Every luma scan the choice needs had its output pass |
| ScanSearch.ChromaRan | jcmaster.c:904-946 | Every chroma scan the choice needs had its output pass |
| ScanSearch.CopiedAsCoded | jcmaster.c:738-771 | The buffer of a scan holds it with the point transform the final choice has |
| ScanSearch.Search.Compare | jcmaster.c:773-896 | For every size: the scans coded are those the sizes call for so far, each choice is the smallest of those tried, summed over all scans it stands for, and a jump is reported exactly when the pass number is set anew |
| ScanSearch.Search.CopyChosen | jcmaster.c:898-955 | Exactly the scans of the choice are copied, in script order, each one coded before |
| ScanSearch.Search.SelectScans | jcmaster.c:773-962 | The size of the scan just coded is recorded; the next scan and the last-pass flag follow, and after the last trial scan the destination holds the chosen script |
| PassLog.TrellisPair | jcmaster.c:451-468 | A gathering pass and the trellis pass after it are for the same component and band |
| PassLog.TrellisPassesMade | jcmaster.c:451-468 | Each component, and each part of its band if there are two, is requantized exactly as often as there are trellis loops |
| PassLog.OwnStatistics | jcmaster.c:451-468 | Whatever is requantized is a component of the frame, and the pass directly before gathered the statistics of the same component and band |
| PassLog.AfterOutput | jcmaster.c:996-1007 | After an output pass and a jump to any later scan the next gathering pass has the number its scan gives it |
| PassLog.BeginOutput | jcmaster.c:646-680 | An output pass of scan s has number base+2s+1 and follows its gathering pass, unless the scan refines DC |
| PassLog.EveryOutputGathered | jcmaster.c:645-665 | Every output pass is for a scan of the script with its components and band and, unless the scan refines DC coefficients, comes right after the pass that gathered the statistics of that scan, with the number set aside for it |
| PassMaster.Master.constructor | jcmaster.c:1042-1148 | Pass numbers and totals start so that the first pass is the main pass of component 0 |
| PassMaster.Master.SelectScanParameters | jcmaster.c:443-515 | Component and band of a pass before the scans follow from its number alone; afterwards the parameters are those of the scan, with the point transform found by the search |
| PassMaster.Master.PrepareForPass | jcmaster.c:612-715 | Every pass has the kind, component, band and scan its number calls for, also when a DC refinement skips gathering |
| PassMaster.Master.SelectScans | jcmaster.c:773-904 | After a jump the pass number is the one of the scan jumped to, also if passes were late before; is_last_pass is set at the jump to the last trial scan |
| PassMaster.Master.FinishOutput | jcmaster.c:996-1034 | After an output pass the state fits the next scan and pass, or the work has ended |
| PassMaster.Master.FinishPass | jcmaster.c:968-1035 | From every pass, with any number of trellis loops, the next one has the number and kind expected, or the work has ended |
| PassMaster.Master.HowItEnded | jcapimin.c:190-223 | How the passes end depends on the settings and the sizes alone |
| PassMaster.Compress | jcapimin.c:176-228 | For any settings, script and scan sizes the loop ends. It ends right after the last output pass, with every scan output in order or with a search every scan tried and the choice the sizes call for, exactly if trellis quantization is off, has a loop, or the search jumps; otherwise one scan too early. Each component and band gets its trellis passes |
| PassMaster.CompressSearching | jcapimin.c:190-223 | For any sizes of the trial scans and any settings the scans in the destination are those the sizes call for, or none if the passes end too early; they are a legal script that leaves no bit out exactly if the passes end right and the DC mode was not changed |
| PassMaster.OnlyScanLost | jcmaster.c:1119-1139 | One scan with trellis quantization and no loops: no scan is ever output |
| PassMaster.NoJumpAtAll | jcmaster.c:786-893 | Sizes for which the search never jumps, so that with no trellis loops it copies nothing |
| ContextBuffer.StoreOne | jcprepct.c:213-234 | A row stored at the next place of the circular buffer keeps the rows of the group and its neighbours where they belong |
| ContextBuffer.LastStored | jcprepct.c:239-246 | The row before the next one, taken through the pointers, is the last one stored, also at index -1 when the buffer has just wrapped |
| RowWindows.ClampedIsNearest | jcprepct.c:222-246 | Outside the image the downsampler is shown the nearest row |
| RowWindows.ContextGroupAt | jcprepct.c:248-253 | With context rows the r-th output row of a group is made from the group, the one above and the one below |
| RowWindows.SimpleGroupAt | jcprepct.c:169-176 | Without them it is made from the group alone |
| RowWindows.LastRowGoesOn | jcprepct.c:177-190 | Below the image the last output row is repeated |
| ContextBuffer.WindowThrough | jcprepct.c:248-253 | Through the pointers, the group with the groups above and below it is the window of the image clamped to its first and last row |
| ContextBuffer.Advance | jcprepct.c:254-260 | Advancing with wraparound makes the group below the group |
| PrepController.MakePointers | jcprepct.c:270-310 | Five row groups of pointers alias three: the last one above and the first one below |
| PrepController.Prep.PadBottom | jcprepct.c:239-246 | Copying the last row downwards fills the group with the clamped image |
| PrepController.Prep.PreProcessContext | jcprepct.c:201-263 | Rows are converted once and in order; every output group is the downsampled clamped image; it stops only when the output is full or the rows are used up |
| PrepController.Prep.PreProcessData | jcprepct.c:135-196 | The same without context; the output is padded to the bottom by repeating the last output row |
| PrepController.Prep.PreProcess | jcprepct.c:85-106 | In either mode what is converted is the image from the top and what is output are its row groups in order |
| MainController.IMcuRowsCover | jcmaster.c:255-260 | The number of iMCU rows, a division rounding up, is the least that holds every row of the image |
| MainController.IMcuRowAt | jcmainct.c:90-127 | An iMCU row is eight row groups in order, and the number of them is the one that ends with the last row |
| MainController.Main.SendRow | jcmainct.c:104-127 | A refused iMCU row stays in the buffer, with the last line handed back once, and is offered again; an accepted one is the next iMCU row of the image |
| MainController.Main.ProcessData | jcmainct.c:83-128 | However lines are split into calls and wherever the compressor refuses, the buffer, the rows sent and the lines taken fit together; all lines are taken unless suspended |
| MainController.Main.WriteScanlines | jcapistd.c:90-128 | The lines accepted advance next_scanline so that the next call continues the image |
| MainController.Main.DoneExactly | jcmainct.c:104-127 | next_scanline reaches the height exactly when every iMCU row was accepted, and then every row was converted and each iMCU row sent is that of the image |

## Left out

What the preconditions of the model ask of a caller comes first; then what is modelled more simply than
the code does it, by member where a contract is weaker for it; then what is not modelled at all.

- Error exits: where the source calls ERREXIT on its caller's data (a coefficient out of range, a size over the limits, a symbol without a code) a routine of the model returns a failure, sets a sticky flag or has a precondition named here; what longjmp leaves behind is not modelled.
- HuffmanTable.GenOptimalTable: asks for at most 254 different symbols and counts that add up to less than 10^9, because bits[] has 8-bit entries and the source uses 1000000000 and 1000000001 as sentinels; scans are asked for fewer than 10^9 symbols and values for the same reason.
- Reciprocal.QuantizeBlock: quantization values that are multiples of 8192 are excluded; the source then divides by zero (jcdctmgr.c:247).
- TrellisAc.OptimizeBlock: COST_INFINITY must be at least the cost of sending no coefficient of the block; costs are exact reals and lambda and weights are given, so float rounding is not covered, nor is the overflow of the squared difference for very large steps.
- TrellisDc.OptimizeDc: costs are exact reals and weights given, as in the AC part.
- ProgressiveImage.TransmitScript: after a scan with an error the model stops, while the source leaves the rest of that scan alone and goes on with the next; the order of blocks in a scan is any order that has each block once, so the dummy blocks that complete the MCUs at the edges of an image are not modelled.
- PhuffImage.SendScript: blocks of a scan in any order that has each once, as in arithmetic coding, and tables for all four numbers although a scan uses few of them; the check of the decoder against overflow of the DC prediction is never met by what was sent and not modelled.
- ScanScript.ValidateScript: a script whose first scan is sequential or lossless is told apart from a progressive one but not checked further.
- PassMaster.Compress: passes are events with their parameters; what a pass does to coefficients is in the other components.
- ScanSearch.Search.SelectScans: a scan buffer is identified with the scan it holds, its bytes are not modelled, and sizes do not wrap at the width of unsigned long.
- MainController.Main.ProcessData: one component; the output buffer holds its row groups whole.
- PrepController.Prep.PreProcess: one component; color conversion is the identity and the downsampler any function of the rows it is shown.
- Blocks are values that methods return or sequences of coefficients in zigzag order; the in-place update of a block in virtual arrays and the index through jpeg_natural_order are not modelled.
- The statistics areas are one array of bins for all tables, a table row is a record instead of packed bits, and an error in the decoder is a flag instead of ct = -1.
- emit_byte of the arithmetic encoder writes always; its suppression during trellis passes is left out.
- The bit buffers write to an unbounded output: local buffers, dump_buffer, the speculative second byte of EMIT_BYTE and suspension of the destination are left out.
- The AC routines of jcphuff.c find nonzero positions by scanning; the zerobits masks, count_zeroes and the prepared absolute values stand for the same positions.
- The Huffman decoders read a sequence of bits; the lookahead table and the refilling of the decoder's buffer are left out.
- The small candidate lists of the trellis are computed by functions; the trellis copies each block to a work array and back.
- The fourth table of divisors (scale), used by SIMD code alone, is not specified.
- Restart intervals and restart markers: off throughout.
- Compression with given tables instead of optimal ones in the pass machine, and transcoding, whose pass pattern differs.
- Cross-block optimization of end-of-block runs in the trellis, trellis speed levels above 0 and the trellis for arithmetic coding.
- Requantization of the source coefficients by norm_src and norm_coef, deringing, and the discrete cosine transforms.
- SIMD code and the variants for 32-bit words.
- Color conversion, downsampling arithmetic, raw data input and lossless mode.
- Marker writing and reading, data sources and destinations, memory management.
- Decompressor output: upsampling, smoothing, skipping and cropping.
