# Verified model of the JPEG compressor and the camera preview

The Android library vendors the compression half of libjpeg-turbo 1.5.0, with the
arithmetic coder in both directions, and feeds it from a multi-threaded camera
preview. This project models five parts of that code in Dafny and proves what they
are for. References to T.81 are to ITU-T Recommendation T.81.

**Arithmetic coding** (jcarith.c, jdarith.c, jaricom.c). An unbounded interval coder
(`IntervalCoder`) is the reference. The encoder's registers with carry propagation,
stacked 0xFFs and deferred zeros (`EncoderRegisters`) and the decoder's registers with
their floating cut point (`DecoderRegisters`) both refine it, which gives the round
trip of decisions (`CoderRoundTrip`). On top come the binarisation of coefficients
(`Binarisation`, `AcBand`), MCUs and scans of all five kinds with restarts
(`McuCoding`, `ScriptBins`, `ScanCoding`), the bins that the decoder can reach on any
input (`DecoderBins`), what it does after an error (`DecoderErrors`), the range of
differences that comes back (`ExactRange`), and whole progressive and sequential
scripts (`ScanScript`, `Progression`, `SequentialImage`). `LosslessImage` applies them
to every frame with any sampling factors. The classes of `ArithEncoder` and
`ArithDecoder` are the imperative code, each method tied to that specification.

**Huffman coding** (jchuff.c, jcphuff.c, jdhuff.c, jdphuff.c). The merge loop is proved
optimal among all prefix codes (`HuffmanOptimality`, `HuffmanTree`), then limited to 16
bits (`LengthLimit`), stored (`HuffmanTable`) and turned into canonical codes
(`DerivedTable`). Bit buffers are in `BitPacking`. What a scan sends is a sequence of
items (`HuffItems`, `PhuffItems`); the encoder classes (`HuffEncoder`, `PhuffEncoder`)
count the same items in the gathering pass that they send in the output pass
(`HuffTwoPass`, `PhuffTwoPass`). `HuffFlush` says when the bytes of a sequential scan
are right. The decoders of jdhuff.c and jdphuff.c, on bits (`HuffReading`,
`PhuffReading`, `PhuffScan`), recover what the encoders send, for a scan, for a whole
progressive script (`PhuffProgression`) and for every frame (`HuffmanImage`).

A round trip holds for any choice that encoder and decoder share. Which choice the code
makes is stated on its own, by position and without the functions that compute it: the
statistics and the interval (`CoderRules`), the bins (`BinRules`), the merges, the
shortened codes and the code words (`HuffmanRules`), end-of-band runs (`EobRules`),
symbols, predictions and restarts (`ScanRules`), dummy blocks (`DummyBlocks`), and the
legal scripts (`ScriptRules`).

**Compression control** (jcmaster.c, jcparam.c, jcapimin.c, jcapistd.c, jcmainct.c,
jcprepct.c, jccoefct.c, jctrans.c). `PassControl` is the pass state machine,
`McuGeometry` the sizes, `McuBlocks` and `CoefControllers` the three coefficient
controllers that must send one stream, `StoredImage` the way from that stream through
either entropy coder back to the image, `RowPreprocessing` the ring buffer of context
rows, `ScanlineInput` the path from scanlines to MCUs with suspension, and
`SimpleProgression` the recommended script.

**Division by reciprocal** (jcdctmgr.c) is `Reciprocal`.

**Frame ownership** (UVCPreview.cpp, objectarray.h). `FrameOwnership` is a state
machine in which the steps of the USB callback, the preview thread, the capture thread
and any number of application threads interleave, `FrameSteps` says where each step
sends a frame, and `ObjectArray` is the container.

`Numbers` and `Sums` hold the arithmetic that the others share.

Code that updates state step by step is a class or a method with loops, as in the
source, and its contract equates the new state with a function of the old one; the
properties are lemmas about these functions. Error exits (ERREXIT) are failure
results. Where the source's comment and its code differ, the model follows the code.

Results that needed a condition, with the exact condition proved:

* With 64-bit words `flush_bits` can lose bits. What a scan writes is given exactly for
  both word sizes (`HuffEncoder.Encoder.EncodeScan`); it is right if and only if the
  pending bits at each flush are clean, a function of code sizes and MCUs
  (`HuffFlush.LosslessExactly`). That always holds with 32-bit words, and with
  end-of-block codes of at most 10 bits (`HuffFlush.ShortEndsLoseNothing`).
  `HuffFlush.LosingScan` is a scan with legal tables that loses bits.
* A table with a code over 32 bits is an error exit of `jpeg_gen_optimal_table`. It is
  taken if and only if Huffman's algorithm gives such a length
  (`HuffmanTable.GenOptimalTable`), for which counts must add up to 9227465 at least,
  the Fibonacci number of that depth (`HuffmanTable.SafeIsCodable`).
* `jpeg_gen_optimal_table` needs a real symbol with a count, a total of at most 10^9
  and at most 254 real symbols. The last always holds for JPEG alphabets
  (`HuffTwoPass.AlphabetFits`).
* `quantval << 3` fits 16 bits if and only if `quantval <= 8191`
  (`Reciprocal.IslowExact`).
* A DC difference over 0x8000 is encoded but cannot be decoded
  (`Binarisation.DcOverflows`); a segment is read back if and only if it has none
  (`ExactRange.SegmentReadsExactly`), and 16-bit coefficients can have one
  (`ExactRange.ExtremesFail`).
* `jpeg_write_scanlines` returns more than it was given if and only if it is called
  with no rows while suspended and the suspension ends
  (`ScanlineInput.Compressor.WriteScanlines`, `ScanlineInput.ResumeWithoutRows`).

## Model

| member | source | states |
|---|---|---|
| `ProbabilityTable.Unpack` | libuvccamera/src/main/jni/libjpeg-turbo-1.5.0/jaricom.c:32 | the packing of a table row loses nothing: estimate, next states and MPS switch come back from the packed word |
| `ProbabilityTable.AritabValid` | libuvccamera/src/main/jni/libjpeg-turbo-1.5.0/jaricom.c:34-156 | every row of jpeg_aritab has an estimate in 1 .. 0x7FFF, and its successors stay inside the table |
| `IntervalCoder.ChoicesAgree` | libuvccamera/src/main/jni/libjpeg-turbo-1.5.0/jcarith.c:237-262 | when the decoder sees the code value in the sub-interval that the encoder chose, it takes the same decision, keeps the same width and makes the same change of statistics, conditional exchange included |
| `IntervalCoder.InRun` | libuvccamera/src/main/jni/libjpeg-turbo-1.5.0/jcarith.c:221-314 | a number inside the interval reached after a run of decisions was inside the interval before it |
| `CoderRules.EncodeMoves` | libuvccamera/src/main/jni/libjpeg-turbo-1.5.0/jcarith.c:232-262 | what arith_encode does to a bin, given its table row: after a less probable value Next_Index_LPS, and the MPS flips if and only if Switch_MPS is set; after a more probable one that leaves A below 0x8000 Next_Index_MPS; else nothing; no other bin changes |
| `CoderRules.DecodeMoves` | libuvccamera/src/main/jni/libjpeg-turbo-1.5.0/jdarith.c:149-184 | the same for arith_decode on any input |
| `CoderRules.PartsOfInterval` | libuvccamera/src/main/jni/libjpeg-turbo-1.5.0/jcarith.c:237-262 | the upper part of the interval has the width Qe; the more probable value never has the narrower part, and has the lower one unless that was narrower |
| `EncoderRegisters.CarryHasRoom` | libuvccamera/src/main/jni/libjpeg-turbo-1.5.0/jcarith.c:270-282 | a carry out of the C register never finds the byte buffer empty |
| `EncoderRegisters.CarryFront` | libuvccamera/src/main/jni/libjpeg-turbo-1.5.0/jcarith.c:271-282 | propagating a carry through the buffer and the stacked 0xFF bytes adds exactly one to the number that the pending bytes denote, and keeps their count |
| `EncoderRegisters.ByteOutDenotes` | libuvccamera/src/main/jni/libjpeg-turbo-1.5.0/jcarith.c:264-313 | moving a byte out of C (carry, deferred zeros, stacking) leaves the interval that all registers together denote unchanged; the bounds 2^27 before and 2^27 + 2^24 after the first byte are part of this invariant |
| `EncoderRegisters.RenormDenotes` | libuvccamera/src/main/jni/libjpeg-turbo-1.5.0/jcarith.c:264-313 | the renormalisation loop of the registers is the renormalisation of the unbounded interval |
| `EncoderRegisters.EncodeAllRefines` | libuvccamera/src/main/jni/libjpeg-turbo-1.5.0/jcarith.c:221-314 | after every sequence of decisions, emitted bytes, deferred zeros, buffer, stacked 0xFFs and C denote the exact base of the interval, and A its width |
| `EncoderRegisters.FinishInside` | libuvccamera/src/main/jni/libjpeg-turbo-1.5.0/jcarith.c:135-196 | the bytes that finish_pass leaves, read with zeros behind them, lie inside the final interval, and do not end with a zero byte |
| `CoderRules.EndsWithZeros` | libuvccamera/src/main/jni/libjpeg-turbo-1.5.0/jcarith.c:135-146 | the code that ends a segment has as many trailing zero bits as any number in the final interval |
| `ByteSource.StuffHidesMarkers` | libuvccamera/src/main/jni/libjpeg-turbo-1.5.0/jcarith.c:148-193 | every 0xFF that is written is followed by a 0x00, so data never looks like a marker |
| `ByteSource.SegmentMarker` | libuvccamera/src/main/jni/libjpeg-turbo-1.5.0/jdarith.c:123-139 | the next marker that a reader finds after a stuffed segment is the one that ends it |
| `ByteSource.AheadAfterMarker` | libuvccamera/src/main/jni/libjpeg-turbo-1.5.0/jdarith.c:120-121 | once a marker was hit, the decoder reads zeros for ever |
| `DecoderRegisters.DecideValid` | libuvccamera/src/main/jni/libjpeg-turbo-1.5.0/jdarith.c:149-184 | on arbitrary input 0 <= c < a * 2^ct holds after each decision, and the statistics stay inside the table |
| `DecoderRegisters.DecodeSynced` | libuvccamera/src/main/jni/libjpeg-turbo-1.5.0/jdarith.c:108-185 | a decoder in step with the encoder returns the encoded decision and stays in step, although its registers use another layout with a moving cut point |
| `CoderRoundTrip.StartSynced` | libuvccamera/src/main/jni/libjpeg-turbo-1.5.0/jdarith.c:116-149 | two bytes into a finished segment the decoder is in step with the encoder, whatever marker and data follow |
| `CoderRoundTrip.DecisionRoundTrip` | libuvccamera/src/main/jni/libjpeg-turbo-1.5.0/jcarith.c:135-314 | for every table, initial statistics and sequence of decisions, decoding the finished segment with the same bins gives back the decisions, and both sides end with the same statistics |
| `Binarisation.DcRead` | libuvccamera/src/main/jni/libjpeg-turbo-1.5.0/jdarith.c:531-565 | Decode_DC_DIFF inverts Encode_DC_DIFF for differences up to 0x8000 in magnitude, with the same conditioning category |
| `Binarisation.DcOverflows` | libuvccamera/src/main/jni/libjpeg-turbo-1.5.0/jdarith.c:542-549 | for every larger difference the decoder reports a magnitude overflow |
| `AcBand.AcFromRead` | libuvccamera/src/main/jni/libjpeg-turbo-1.5.0/jdarith.c:322-389 | the decoder's loops recover every coefficient of a band |
| `AcBand.EobAgrees` | libuvccamera/src/main/jni/libjpeg-turbo-1.5.0/jcarith.c:616-634 | EOBx computed by the encoder from the true coefficients and by the decoder from what it has so far agree wherever they matter |
| `AcBand.RefFromRead` | libuvccamera/src/main/jni/libjpeg-turbo-1.5.0/jdarith.c:429-491 | the refinement decoder adds exactly the next bit of every coefficient of the band |
| `McuCoding.BlockReads` | libuvccamera/src/main/jni/libjpeg-turbo-1.5.0/jdarith.c:498-618 | one block of any of the five scan types: the decoder reaches the target value, with the encoder's predictions |
| `McuCoding.McuReads` | libuvccamera/src/main/jni/libjpeg-turbo-1.5.0/jcarith.c:682-817 | one MCU: decode_mcu and its progressive versions invert encode_mcu and its versions, with equal dc_context and last_dc_val |
| `McuCoding.McuReadsExactly` | libuvccamera/src/main/jni/libjpeg-turbo-1.5.0/jdarith.c:542-549 | with AC coefficients of at most 15 bits, an MCU is read back if and only if its DC differences are within 0x8000 |
| `ExactRange.SegmentReadsExactly` | libuvccamera/src/main/jni/libjpeg-turbo-1.5.0/jdarith.c:542-549 | a whole segment of 16-bit coefficients, of any kind of scan, is decoded without error if and only if all of its DC differences are within 0x8000 |
| `ExactRange.ExtremesFail` | libuvccamera/src/main/jni/libjpeg-turbo-1.5.0/jdarith.c:542-549 | with 16-bit coefficients the range can be left: the scan of DC -0x8000 followed by 0x7FFF is encoded, and a new decoder that reads its bytes ends in error |
| `BinRules.DcTreeIs` | libuvccamera/src/main/jni/libjpeg-turbo-1.5.0/jcarith.c:708-754 | the decisions of a DC difference and their bins: zero at S0, sign at S0 + 1, SP or SN, the unary category from X1 = 20 on, and the low bits of |v| - 1, most significant first, 14 bins behind the last of these |
| `BinRules.ContextIs` | libuvccamera/src/main/jni/libjpeg-turbo-1.5.0/jcarith.c:739-743 | the conditioning category: 0 up to 2^L / 2, then 4 or 8 by sign, and 12 or 16 for |v| above 2^U |
| `BinRules.AcTreeIs` | libuvccamera/src/main/jni/libjpeg-turbo-1.5.0/jcarith.c:515-545 | the decisions of an AC coefficient and their bins: sign in the fixed bin, 3k - 1 twice, and the tree from 189 for k <= Kx, from 217 above |
| `BinRules.BandStep` | libuvccamera/src/main/jni/libjpeg-turbo-1.5.0/jcarith.c:496-549 | between two coefficients of a band: one decision that the band goes on, one for each zero, and one at the next coefficient |
| `BinRules.SingleCoefficient` | libuvccamera/src/main/jni/libjpeg-turbo-1.5.0/jcarith.c:756-813 | all AC decisions, in the bins of the component's own table, of a block with one coefficient in the band |
| `BinRules.RefineStep` | libuvccamera/src/main/jni/libjpeg-turbo-1.5.0/jcarith.c:637-671 | the same in a refinement scan, where the end of the band is asked only above EOBx |
| `BinRules.RefineScript` | libuvccamera/src/main/jni/libjpeg-turbo-1.5.0/jcarith.c:616-634 | EOBx is the last coefficient that was nonzero before the scan, EOB the last that is nonzero after it |
| `BinRules.DcOfBlock` | libuvccamera/src/main/jni/libjpeg-turbo-1.5.0/jcarith.c:700-743 | the difference is taken to last_dc_val of the block's component, in the area of its DC table and with its category; the value becomes last_dc_val, and the difference the category |
| `BinRules.ShiftsRound` | libuvccamera/src/main/jni/libjpeg-turbo-1.5.0/jcarith.c:391-491 | the point transform rounds DC down and AC towards zero |
| `BinRules.SegmentStarts` | libuvccamera/src/main/jni/libjpeg-turbo-1.5.0/jcarith.c:330-352 | start_pass and each restart zero the 64 bins of the DC tables and the 256 bins of the AC tables that the kind of scan uses, and no others |
| `BinRules.ScanStarts` | libuvccamera/src/main/jni/libjpeg-turbo-1.5.0/jcarith.c:870-921 | both coders start a scan with empty registers, restart number 0 and the first interval ahead |
| `ScriptBins.DcScriptWithin` | libuvccamera/src/main/jni/libjpeg-turbo-1.5.0/jcarith.c:700-754 | every bin that a DC decision uses lies below 49 in its statistics area |
| `ScriptBins.AcScriptWithin` | libuvccamera/src/main/jni/libjpeg-turbo-1.5.0/jcarith.c:756-813 | every bin that an AC decision uses lies below 245 in its statistics area, or is the fixed bin |
| `ExactRange.ShortScript` | libuvccamera/src/main/jni/libjpeg-turbo-1.5.0/jcarith.c:700-813 | the decisions of any 16-bit coefficients, also of differences out of range, stay inside the statistics areas |
| `DecoderBins.DcConfined` | libuvccamera/src/main/jni/libjpeg-turbo-1.5.0/jdarith.c:519-562 | on any input, Decode_DC_DIFF neither changes nor depends on any bin outside the 49 of its area and the fixed bin |
| `DecoderBins.AcFromConfined` | libuvccamera/src/main/jni/libjpeg-turbo-1.5.0/jdarith.c:322-389 | on any input, the AC loops neither change nor depend on any bin outside the 245 of their area and the fixed bin |
| `DecoderBins.RefFromConfined` | libuvccamera/src/main/jni/libjpeg-turbo-1.5.0/jdarith.c:429-491 | the same for the refinement decoder |
| `DecoderBins.DecodeMcuConfined` | libuvccamera/src/main/jni/libjpeg-turbo-1.5.0/jdarith.c:243-618 | the same for a whole MCU of any of the five kinds: only bins in the areas of the scan's own tables, below 49 and below 245, and the fixed bin |
| `ScanCoding.EncoderWritesStream` | libuvccamera/src/main/jni/libjpeg-turbo-1.5.0/jcarith.c:321-356 | the encoder's restart counter cuts a scan into segments with markers RST0 .. RST7 in rotation, each coded with fresh statistics and predictions |
| `ScanCoding.ScanRoundTrip` | libuvccamera/src/main/jni/libjpeg-turbo-1.5.0/jdarith.c:192-224 | for all five scan types, every restart interval and all codable MCUs, the decoder recovers the scan's contribution to every block, ends with the encoder's statistics and predictions, and finds the marker that follows |
| `ScanScript.Validate` | libuvccamera/src/main/jni/libjpeg-turbo-1.5.0/jcmaster.c:176-308 | a script is accepted as progressive, or as sequential, if and only if it satisfies a declarative description: components in order, DC before AC, every coefficient one bit position at a time from its first Al downwards, DC sent for all components |
| `ScriptRules.ProgressiveIsLegal` | libuvccamera/src/main/jni/libjpeg-turbo-1.5.0/jcmaster.c:204-295 | which progressive scripts are legal, about the scans themselves: limits of the parameters, DC values before AC coefficients, Ah = 0 in the first scan of a coefficient and exactly the next bit in each later one, DC values of every component in the end |
| `ScriptRules.SequentialIsLegal` | libuvccamera/src/main/jni/libjpeg-turbo-1.5.0/jcmaster.c:268-308 | which sequential scripts are: all coefficients in every scan, and every component in exactly one |
| `Progression.SuccessiveApproximation` | libuvccamera/src/main/jni/libjpeg-turbo-1.5.0/jcarith.c:364-675 | over every accepted progressive script, each decoded coefficient is the true one truncated at the Al of the last scan that sent it ((x>>Al)<<Al for DC, towards zero for AC), hence exact once Al = 0 has been sent |
| `Progression.SmallIsCodable` | libuvccamera/src/main/jni/libjpeg-turbo-1.5.0/jdarith.c:243-491 | coefficients of at most 14 bits and sign satisfy the codability condition of every scan |
| `LosslessImage.FrameNumbered` | libuvccamera/src/main/jni/libjpeg-turbo-1.5.0/jcmaster.c:137-163 | the blocks of every frame that initial_setup accepts, dummy blocks included, can be numbered as the theorems about whole images ask |
| `LosslessImage.CompleteScriptIsLossless` | libuvccamera/src/main/jni/libjpeg-turbo-1.5.0/jcarith.c:364-675 | for every frame with any sampling factors, every legal script that ends with Al = 0, all tables, conditioning values and restart intervals, and coefficients of at most 14 bits: coding the image and decoding the scans gives back every real block |
| `LosslessImage.RecommendedScriptIsLossless` | libuvccamera/src/main/jni/libjpeg-turbo-1.5.0/jcparam.c:468-540 | in particular with the script of jpeg_simple_progression and the probability table of the repository |
| `SequentialImage.SequentialExact` | libuvccamera/src/main/jni/libjpeg-turbo-1.5.0/jcarith.c:682-817 | over every script that validate_script accepts as sequential, arithmetic coding gives back every real block, whatever the division into scans |
| `SequentialImage.HuffmanSequentialExact` | libuvccamera/src/main/jni/libjpeg-turbo-1.5.0/jchuff.c:643-707 | the same with Huffman coding, from the bytes that the encoder writes with 32 or 64-bit words, if no flush loses bits |
| `LosslessImage.SequentialScriptIsLossless` | libuvccamera/src/main/jni/libjpeg-turbo-1.5.0/jcarith.c:682-817 | for every frame with any sampling factors, every sequential script, all tables, conditioning values and restart intervals: arithmetic coding gives back every real block |
| `HuffmanImage.SequentialHuffmanIsLossless` | libuvccamera/src/main/jni/libjpeg-turbo-1.5.0/jchuff.c:643-707 | the same with Huffman tables that have codes for what the scans send, as optimised tables do, and flushes that lose no bits |
| `HuffmanImage.ProgressiveHuffmanIsLossless` | libuvccamera/src/main/jni/libjpeg-turbo-1.5.0/jcphuff.c:377-807 | for every frame, every complete progressive script and tables that have codes for what the scans send, as optimised tables do: Huffman coding gives back every real block |
| `StatisticsAreas.ResetAreas` | libuvccamera/src/main/jni/libjpeg-turbo-1.5.0/jcarith.c:330-352 | the statistics areas of the scan's tables are zeroed, and predictions and contexts with them; everything else is untouched |
| `ArithEncoder.Encoder.StartPass` | libuvccamera/src/main/jni/libjpeg-turbo-1.5.0/jcarith.c:824-900 | start_pass takes the encoder to the start state of the scan specification |
| `ArithDecoder.Decoder.StartPass` | libuvccamera/src/main/jni/libjpeg-turbo-1.5.0/jdarith.c:625-727 | start_pass takes the decoder to the start state of the scan specification |
| `ArithEncoder.Encoder.ArithEncode` | libuvccamera/src/main/jni/libjpeg-turbo-1.5.0/jcarith.c:221-314 | the imperative encoder's whole state after one decision is that of the register specification |
| `ArithEncoder.Encoder.FinishPass` | libuvccamera/src/main/jni/libjpeg-turbo-1.5.0/jcarith.c:135-196 | the bytes written at the end of a pass are those of the register specification, stuffed |
| `ArithEncoder.Encoder.EncodeMcu` | libuvccamera/src/main/jni/libjpeg-turbo-1.5.0/jcarith.c:682-817 | encode_mcu and the four progressive routines, with restarts, take the encoder from one state of the scan specification to the next |
| `ArithDecoder.Decoder.ArithDecode` | libuvccamera/src/main/jni/libjpeg-turbo-1.5.0/jdarith.c:108-185 | the imperative decoder returns the decision of the register specification and reaches its state |
| `ArithDecoder.Decoder.ProcessRestart` | libuvccamera/src/main/jni/libjpeg-turbo-1.5.0/jdarith.c:192-224 | process_restart takes the decoder to the next segment, or to the error state when the marker is not the expected one |
| `ArithDecoder.Decoder.DecodeMcu` | libuvccamera/src/main/jni/libjpeg-turbo-1.5.0/jdarith.c:498-618 | decode_mcu and the four progressive routines change the coefficient blocks, in place, as the scan specification says, also on corrupt data |
| `DecoderErrors.ByteRead` | libuvccamera/src/main/jni/libjpeg-turbo-1.5.0/jdarith.c:116-141 | on any input a byte other than 0xFF is read as it is, 0xFF with fill bytes and 0x00 as 0xFF, and from 0xFF with a marker, or the end of the data, on only zeros are read |
| `DecoderErrors.MagnitudeOverflow` | libuvccamera/src/main/jni/libjpeg-turbo-1.5.0/jdarith.c:364-375 | on any input the category overflows if and only if every decision up to 0x8000 is one |
| `DecoderErrors.SpectralOverflow` | libuvccamera/src/main/jni/libjpeg-turbo-1.5.0/jdarith.c:348-357 | zeros up to the end of the band are an error, and the block keeps what it has |
| `DecoderErrors.RefinementOverflow` | libuvccamera/src/main/jni/libjpeg-turbo-1.5.0/jdarith.c:480-487 | the same in a refinement scan |
| `DecoderErrors.AfterError` | libuvccamera/src/main/jni/libjpeg-turbo-1.5.0/jdarith.c:259 | after an error MCUs are left alone and only counted, except in DC refinement scans |
| `DecoderErrors.RestartRecovers` | libuvccamera/src/main/jni/libjpeg-turbo-1.5.0/jdarith.c:193-234 | whatever went wrong, the expected restart marker puts the decoder into the state of a new segment without error |
| `HuffmanOptimality.KraftInequality` | libuvccamera/src/main/jni/libjpeg-turbo-1.5.0/jchuff.c:886-958 | every prefix code satisfies the Kraft inequality |
| `HuffmanOptimality.NoPrefixCodeIsCheaper` | libuvccamera/src/main/jni/libjpeg-turbo-1.5.0/jchuff.c:886-958 | the cost of merging the two least counts repeatedly is a lower bound for every prefix code on the symbols with a count |
| `HuffmanTree.FindLeast` | libuvccamera/src/main/jni/libjpeg-turbo-1.5.0/jchuff.c:910-935 | the search returns the least count, the largest symbol among equals, or -1 if none is left |
| `HuffmanTree.CodeSizes` | libuvccamera/src/main/jni/libjpeg-turbo-1.5.0/jchuff.c:904-958 | codesize[] is the length table of a complete code, and no prefix code on the symbols with a count, the pseudo-symbol 256 included, is cheaper |
| `HuffmanTree.SizesBounded` | libuvccamera/src/main/jni/libjpeg-turbo-1.5.0/jchuff.c:904-968 | the lengths grow like Fibonacci numbers: a symbol gets more than d bits only if the counts add up to the Fibonacci weight of depth d+1 at least |
| `HuffmanRules.MergesSmallest` | libuvccamera/src/main/jni/libjpeg-turbo-1.5.0/jchuff.c:904-958 | each round merges the two least counts, among equals those of the largest symbols, adds the second to the first, and makes every code of both branches longer by one |
| `HuffmanRules.PseudoLongest` | libuvccamera/src/main/jni/libjpeg-turbo-1.5.0/jchuff.c:893-902 | symbol 256 gets the count 1, and no real symbol gets a longer code |
| `LengthLimit.TallyComplete` | libuvccamera/src/main/jni/libjpeg-turbo-1.5.0/jchuff.c:960-968 | the numbers of codes per length of a complete code have a Kraft sum of one and count every symbol |
| `LengthLimit.CountLengths` | libuvccamera/src/main/jni/libjpeg-turbo-1.5.0/jchuff.c:960-968 | bits[] counts the codes of each length modulo 256; a length over 32 is the error exit |
| `LengthLimit.LongestPaired` | libuvccamera/src/main/jni/libjpeg-turbo-1.5.0/jchuff.c:970-992 | at the longest length the number of codes is even, so pairs can be removed |
| `LengthLimit.ShorterExists` | libuvccamera/src/main/jni/libjpeg-turbo-1.5.0/jchuff.c:984-986 | the search for a shorter code to split always succeeds |
| `LengthLimit.AdjustBalanced` | libuvccamera/src/main/jni/libjpeg-turbo-1.5.0/jchuff.c:982-991 | one adjustment keeps the Kraft sum of one and the number of codes |
| `LengthLimit.LimitLengths` | libuvccamera/src/main/jni/libjpeg-turbo-1.5.0/jchuff.c:982-1000 | the adjustment ends with no length over 16, then drops the pseudo-symbol's code |
| `HuffmanRules.TakesLongestPrefix` | libuvccamera/src/main/jni/libjpeg-turbo-1.5.0/jchuff.c:982-991 | one adjustment at length i takes its prefix from the greatest length j <= i - 2 in use: two codes leave i, one comes to i - 1, one leaves j, two come to j + 1, and all other counts stay |
| `HuffmanRules.FromTheLongest` | libuvccamera/src/main/jni/libjpeg-turbo-1.5.0/jchuff.c:982-991 | adjustments go on at the greatest length until no code has it, and then at the next one, down to 17 |
| `HuffmanRules.TwoTooLong` | libuvccamera/src/main/jni/libjpeg-turbo-1.5.0/jchuff.c:982-991 | the final counts in closed form when the only codes over 16 bits are two of length 17 |
| `HuffmanRules.LongestDropped` | libuvccamera/src/main/jni/libjpeg-turbo-1.5.0/jchuff.c:994-997 | the code taken away for the pseudo-symbol is one of the greatest length in use, and nothing else changes |
| `LengthLimit.ShortCodesKept` | libuvccamera/src/main/jni/libjpeg-turbo-1.5.0/jchuff.c:982-992 | codes that already fit 16 bits are not changed |
| `LengthLimit.PseudoDropped` | libuvccamera/src/main/jni/libjpeg-turbo-1.5.0/jchuff.c:994-997 | without the pseudo-symbol one code less remains and the Kraft sum is below one |
| `HuffmanTable.RankedMembers` | libuvccamera/src/main/jni/libjpeg-turbo-1.5.0/jchuff.c:1005-1016 | huffval[] lists exactly the real symbols with a code, each once, shorter codes first |
| `HuffmanRules.SymbolsAscend` | libuvccamera/src/main/jni/libjpeg-turbo-1.5.0/jchuff.c:1005-1016 | huffval[] is sorted by code length, and by symbol among equal lengths |
| `HuffmanTable.FinalBitsFit` | libuvccamera/src/main/jni/libjpeg-turbo-1.5.0/jchuff.c:982-1002 | the stored bits[] describe one code per real symbol with a count, none over 16 bits |
| `HuffmanTable.GenOptimalTable` | libuvccamera/src/main/jni/libjpeg-turbo-1.5.0/jchuff.c:886-1020 | jpeg_gen_optimal_table computes lengths of an optimal complete code, a function of the counts, and stores them limited to 16 bits; it fails if and only if one of them is over 32, and never with fewer than 9227465 counts |
| `HuffmanTable.SafeIsCodable` | libuvccamera/src/main/jni/libjpeg-turbo-1.5.0/jchuff.c:960-968 | counts of less than 9227465 in all, the pseudo-symbol included, never give a length over 32 |
| `DerivedTable.MakeDerivedTable` | libuvccamera/src/main/jni/libjpeg-turbo-1.5.0/jchuff.c:221-307 | jpeg_make_c_derived_tbl accepts a table if and only if it is legal (no more than 256 symbols, codes fit with the all-ones word free, no duplicate or oversized symbol), and then derives the canonical codes |
| `DerivedTable.DerivedCode` | libuvccamera/src/main/jni/libjpeg-turbo-1.5.0/jchuff.c:251-306 | the derived words are a prefix code without an all-ones word, on exactly the listed symbols |
| `HuffmanRules.EntriesOfLength` | libuvccamera/src/main/jni/libjpeg-turbo-1.5.0/jchuff.c:251-263 | huffsize[]: bits[l] entries of huffval[] get codes of length l, in order |
| `HuffmanRules.FirstCode` | libuvccamera/src/main/jni/libjpeg-turbo-1.5.0/jchuff.c:265-288 | the first code word is all zeros |
| `HuffmanRules.NextCodeWord` | libuvccamera/src/main/jni/libjpeg-turbo-1.5.0/jchuff.c:265-288 | each code word is the one before it plus one, with as many zeros behind it as its length grows |
| `DerivedTable.GeneratedTableAccepted` | libuvccamera/src/main/jni/libjpeg-turbo-1.5.0/jchuff.c:290-306 | a generated table is accepted if and only if its symbols are in range (15 for DC), and it covers exactly the symbols with a count |
| `BitPacking.BitWriter.EmitBits` | libuvccamera/src/main/jni/libjpeg-turbo-1.5.0/jchuff.c:345-409 | the macro writer, with 32 or 64 bits, appends the code to the bit stream; bytes written so far are stuffed |
| `BitPacking.BitWriter.EmitCode` | libuvccamera/src/main/jni/libjpeg-turbo-1.5.0/jchuff.c:386-409 | a code and its extra bits are appended together |
| `BitPacking.BitWriter.FlushBits` | libuvccamera/src/main/jni/libjpeg-turbo-1.5.0/jchuff.c:463-483 | flush_bits pads with ones to a byte; of the pending bits it loses all above the last w-7 (w = 64: the 57th), and this is exactly what is written |
| `BitPacking.CleanIsKept` | libuvccamera/src/main/jni/libjpeg-turbo-1.5.0/jchuff.c:463-483 | what flush_bits keeps of a run is the run itself if and only if the pending bits above the last w-7 are zeros; with at most w-7 pending bits they are |
| `BitPacking.AlignedWriter.EmitBits` | libuvccamera/src/main/jni/libjpeg-turbo-1.5.0/jcphuff.c:229-265 | emit_bits of the progressive encoder appends the code to the bit stream; size 0 is the error exit |
| `BitPacking.SameBytes` | libuvccamera/src/main/jni/libjpeg-turbo-1.5.0/jcphuff.c:229-274 | any sequence of codes, packed and flushed by the macro writer and by emit_bits of the progressive encoder: the bytes are equal with 32-bit words, and with 64-bit words if and only if the flush is clean, a condition on the codes |
| `BitPacking.FourCodesLose` | libuvccamera/src/main/jni/libjpeg-turbo-1.5.0/jchuff.c:463-483 | four codes after which the two writers differ with 64-bit words |
| `HuffItems.ScanRegular` | libuvccamera/src/main/jni/libjpeg-turbo-1.5.0/jchuff.c:753-818 | after the range check, every symbol of a scan is in its table's alphabet |
| `ScanRules.McuPredicted` | libuvccamera/src/main/jni/libjpeg-turbo-1.5.0/jchuff.c:664-690 | each block of an MCU is coded with the tables of its component, and its DC is predicted from the block before it in the component |
| `ScanRules.CoefIs` | libuvccamera/src/main/jni/libjpeg-turbo-1.5.0/jchuff.c:562-585 | a coefficient after r zeros: one symbol 0xF0 for every 16 of them, the symbol of the rest and the size, and the low bits of v, or of v - 1 if negative |
| `ScanRules.NextCoef` | libuvccamera/src/main/jni/libjpeg-turbo-1.5.0/jchuff.c:562-601 | the AC part of a block is the row of its nonzero coefficients, each with the zeros before it |
| `ScanRules.EndOfBlock` | libuvccamera/src/main/jni/libjpeg-turbo-1.5.0/jchuff.c:603-607 | zeros at the end of a block are one symbol 0, and a block that ends in a coefficient has none |
| `ScanRules.PadsWithOnes` | libuvccamera/src/main/jni/libjpeg-turbo-1.5.0/jchuff.c:466-484 | flush_bits adds ones up to the next whole byte, and none to whole bytes |
| `ScanRules.ScanIsSegments` | libuvccamera/src/main/jni/libjpeg-turbo-1.5.0/jchuff.c:619-703 | a sequential scan is cut after every restart_interval MCUs, if more follow: the segments are coded from zero predictions, padded, and separated by the markers 0xD0 .. 0xD7 in turn |
| `HuffEncoder.Encoder.HtestOneBlock` | libuvccamera/src/main/jni/libjpeg-turbo-1.5.0/jchuff.c:753-818 | the gathering pass accepts a block if and only if its coefficients are in range, and counts exactly its symbols |
| `HuffEncoder.Encoder.GatherScan` | libuvccamera/src/main/jni/libjpeg-turbo-1.5.0/jchuff.c:826-855 | over a whole scan with restarts, the counts are the uses of each symbol in the scan |
| `ScanRules.UsesAre` | libuvccamera/src/main/jni/libjpeg-turbo-1.5.0/jchuff.c:761-816 | a symbol is counted once for each place at which it is sent |
| `HuffEncoder.Encoder.EncodeOneBlock` | libuvccamera/src/main/jni/libjpeg-turbo-1.5.0/jchuff.c:505-611 | the output pass sends exactly the symbols and extra bits that the gathering pass counts |
| `HuffEncoder.Encoder.EncodeScan` | libuvccamera/src/main/jni/libjpeg-turbo-1.5.0/jchuff.c:643-707 | the bytes written for a scan, exactly, with 32 or 64-bit words: each interval's codes and extra bits, less what its flush loses, stuffed and separated by the restart markers |
| `HuffFlush.LosslessExactly` | libuvccamera/src/main/jni/libjpeg-turbo-1.5.0/jchuff.c:463-483 | the bytes written are the ones that a decoder needs if and only if no interval ends with a set bit above the last 57 pending ones, a function of the code sizes and the MCUs |
| `HuffFlush.ShortEndsLoseNothing` | libuvccamera/src/main/jni/libjpeg-turbo-1.5.0/jchuff.c:369-483 | nothing is lost with 32-bit words, nor with 64-bit words if the coefficients are in range and no end-of-block code is longer than 10 bits |
| `HuffFlush.LosingScan` | libuvccamera/src/main/jni/libjpeg-turbo-1.5.0/jchuff.c:463-707 | a scan of one MCU with two zero blocks and two tables that jpeg_make_c_derived_tbl accepts, whose codes are the ones derived from them, sent through the encoder with 64-bit words: its bytes are wrong |
| `HuffTwoPass.AlphabetFits` | libuvccamera/src/main/jni/libjpeg-turbo-1.5.0/jchuff.c:886-902 | a JPEG alphabet has at most 254 symbols, so bits[] cannot wrap |
| `HuffTwoPass.OptimisedScan` | libuvccamera/src/main/jni/libjpeg-turbo-1.5.0/jchuff.c:1027-1062 | gathering, table generation and output together: success if and only if the coefficients are in range and no optimal length is over 32; then every symbol of the output pass has a code in a prefix code, the bytes are known exactly, and decode to the MCUs unless a flush loses bits |
| `HuffTwoPass.SafeScan` | libuvccamera/src/main/jni/libjpeg-turbo-1.5.0/jchuff.c:960-968 | a scan in which every table is used less than 9227464 times never meets the error of a length over 32 |
| `HuffReading.ExtendIs` | libuvccamera/src/main/jni/libjpeg-turbo-1.5.0/jdhuff.c:496-500 | the extra bits of a coefficient and HUFF_EXTEND are inverse |
| `HuffReading.BlockRead` | libuvccamera/src/main/jni/libjpeg-turbo-1.5.0/jdhuff.c:554-646 | decode_mcu_slow recovers a block from what encode_one_block sends for it |
| `HuffReading.HuffmanScanRoundTrip` | libuvccamera/src/main/jni/libjpeg-turbo-1.5.0/jdhuff.c:520-797 | sequential Huffman coding is lossless: for every restart interval, decoding the bytes of a scan gives back its MCUs |
| `PhuffItems.McuCodeBounded` | libuvccamera/src/main/jni/libjpeg-turbo-1.5.0/jcphuff.c:464-739 | between MCUs EOBRUN < 0x7FFF, at most 937 correction bits are buffered, and bits are only buffered with a run pending |
| `PhuffItems.EobRunFits` | libuvccamera/src/main/jni/libjpeg-turbo-1.5.0/jcphuff.c:316-330 | an EOB run has at most 14 extra bits, so the check in emit_eobrun never fires |
| `EobRules.McuOnlyExtends` | libuvccamera/src/main/jni/libjpeg-turbo-1.5.0/jcphuff.c:537-726 | an MCU of zeros, or in a refinement scan without a newly nonzero coefficient, only lengthens the pending run by one and buffers its correction bits; the run is sent then if and only if it has reached 0x7FFF or more than 937 bits are buffered |
| `EobRules.McuStartsRun` | libuvccamera/src/main/jni/libjpeg-turbo-1.5.0/jcphuff.c:537-548 | an MCU that has one leaves a run of one with the correction bits behind it if anything follows in the band, else nothing |
| `EobRules.ZeroScan` | libuvccamera/src/main/jni/libjpeg-turbo-1.5.0/jcphuff.c:537-548 | any number of zero bands of a first scan are sent as full runs of 0x7FFF and one run of the rest |
| `EobRules.OneRun` | libuvccamera/src/main/jni/libjpeg-turbo-1.5.0/jcphuff.c:537-548 | a first scan of fewer than 0x7FFF zero bands without a restart is a single run |
| `EobRules.RunSymbol` | libuvccamera/src/main/jni/libjpeg-turbo-1.5.0/jcphuff.c:316-340 | a run is sent as the position of its top bit, as many bits below it, and the buffered correction bits |
| `ScanRules.DcMcuPredicted` | libuvccamera/src/main/jni/libjpeg-turbo-1.5.0/jcphuff.c:398-446 | a first DC scan codes the shifted DC value of each block against that of the block before it in the component |
| `ScanRules.ProgressiveIsSegments` | libuvccamera/src/main/jni/libjpeg-turbo-1.5.0/jcphuff.c:348-452 | a progressive scan of each kind is the row of its segments; a pending run is sent before the marker |
| `PhuffEncoder.Encoder.EmitEobrun` | libuvccamera/src/main/jni/libjpeg-turbo-1.5.0/jcphuff.c:316-340 | the pending run is sent with its extra bits and the buffered correction bits, and cleared |
| `PhuffEncoder.Encoder.EncodeAcFirst` | libuvccamera/src/main/jni/libjpeg-turbo-1.5.0/jcphuff.c:464-562 | encode_mcu_AC_first sends the items of the block and leaves the pending run that the specification says |
| `PhuffEncoder.Encoder.EncodeAcRefine` | libuvccamera/src/main/jni/libjpeg-turbo-1.5.0/jcphuff.c:618-739 | the same for encode_mcu_AC_refine; no correction bit is written outside the buffer of 1000 |
| `PhuffEncoder.Encoder.EncodeScan` | libuvccamera/src/main/jni/libjpeg-turbo-1.5.0/jcphuff.c:377-807 | a scan in either pass: gathered counts are the uses of the symbols that the output pass sends, and the bytes are those of the symbols, over all restarts |
| `PhuffTwoPass.FinishPassGather` | libuvccamera/src/main/jni/libjpeg-turbo-1.5.0/jcphuff.c:764-807 | finish_pass_gather_phuff makes one optimal table for each table of the scan, DC or AC according to the band and none for a DC refinement; it fails if and only if an optimal length is over 32, and otherwise every symbol of the output pass has a code |
| `PhuffTwoPass.OptimisedScan` | libuvccamera/src/main/jni/libjpeg-turbo-1.5.0/jcphuff.c:108-807 | both passes over a progressive scan: success if and only if the coefficients are in range and no optimal length is over 32; then no missing-code error can occur, the bytes are those of the symbols, and decoding them adds the scan's contribution to every block |
| `PhuffTwoPass.SafeScan` | libuvccamera/src/main/jni/libjpeg-turbo-1.5.0/jcphuff.c:764-807 | a progressive scan in which every table of its kind is used less than 9227464 times never meets the error of a length over 32 |
| `PhuffReading.FirstBlockRead` | libuvccamera/src/main/jni/libjpeg-turbo-1.5.0/jdphuff.c:362-440 | decode_mcu_AC_first reads a block back from what encode_mcu_AC_first sends, with any end-of-band run pending before and after it |
| `PhuffReading.RefineBlockRead` | libuvccamera/src/main/jni/libjpeg-turbo-1.5.0/jdphuff.c:496-640 | decode_mcu_AC_refine puts exactly the next bit of every coefficient of the band into the block, whatever correction bits and runs are pending |
| `PhuffScan.PhuffScanRoundTrip` | libuvccamera/src/main/jni/libjpeg-turbo-1.5.0/jdphuff.c:233-640 | for all four kinds of scan and every restart interval, decoding the bytes of a scan, end-of-band runs over many MCUs included, adds exactly its contribution to every block |
| `PhuffProgression.HuffmanSuccessiveApproximation` | libuvccamera/src/main/jni/libjpeg-turbo-1.5.0/jdphuff.c:291-640 | over every accepted progressive script, coded with Huffman tables, each decoded coefficient is the true one truncated at the Al of the last scan that sent it |
| `Reciprocal.Flss` | libuvccamera/src/main/jni/libjpeg-turbo-1.5.0/jcdctmgr.c:82-110 | flss(d) = k if and only if 2^(k-1) <= d < 2^k, and 0 for 0 |
| `Reciprocal.ReciprocalExact` | libuvccamera/src/main/jni/libjpeg-turbo-1.5.0/jcdctmgr.c:172-221 | for every divisor 1 .. 65535 and word size 16 or 32, multiplying by the reciprocal and shifting divides exactly with rounding, for all |x| <= 2^14 |
| `Reciprocal.ComputeReciprocal` | libuvccamera/src/main/jni/libjpeg-turbo-1.5.0/jcdctmgr.c:172-221 | reciprocal, correction and shift make that division exact, each entry fits its type and other entries keep their values; the result says whether the scale entry does what the shift entry does, which it then does with SIMD |
| `Reciprocal.Quantize` | libuvccamera/src/main/jni/libjpeg-turbo-1.5.0/jcdctmgr.c:407-478 | every coefficient becomes sign(x) * floor((|x| + floor(d/2)) / d) |
| `Reciprocal.RoundsToNearest` | libuvccamera/src/main/jni/libjpeg-turbo-1.5.0/jcdctmgr.c:407-478 | that quotient is the nearest one with the sign of x, and the larger of two in magnitude |
| `Reciprocal.IslowExact` | libuvccamera/src/main/jni/libjpeg-turbo-1.5.0/jcdctmgr.c:258-276 | the divisor quantval << 3 keeps its value in 16 bits if and only if quantval <= 8191; 8192 gives 0 |
| `Reciprocal.IslowDivisors` | libuvccamera/src/main/jni/libjpeg-turbo-1.5.0/jcdctmgr.c:258-276 | start_pass_fdctmgr for JDCT_ISLOW: with steps of 1 to 8191 the table divides exactly by eight times each step |
| `Reciprocal.QuantizeIslow` | libuvccamera/src/main/jni/libjpeg-turbo-1.5.0/jcdctmgr.c:258-478 | table and quantiser together: each coefficient is the rounded quotient by eight times its step |
| `SimpleProgression.ScriptLegal` | libuvccamera/src/main/jni/libjpeg-turbo-1.5.0/jcparam.c:468-540 | for every number of components the recommended script is accepted as progressive and ends with Al = 0 for every coefficient of every component |
| `SimpleProgression.PlainOrder` | libuvccamera/src/main/jni/libjpeg-turbo-1.5.0/jcparam.c:526-538 | every entry of the all-purpose script: DC but for one bit, the bands 1-5 and then 6-63 of every component but for two bits, the higher of these, the last DC bit, the last AC bits |
| `SimpleProgression.ColorOrder` | libuvccamera/src/main/jni/libjpeg-turbo-1.5.0/jcparam.c:502-524 | the ten entries of the script for YCbCr |
| `SimpleProgression.SimpleProgression` | libuvccamera/src/main/jni/libjpeg-turbo-1.5.0/jcparam.c:468-540 | the script is written into exactly num_scans entries, in the old space if it is large enough |
| `McuGeometry.BlocksPerMcu` | libuvccamera/src/main/jni/libjpeg-turbo-1.5.0/jcmaster.c:147-153 | width_in_blocks rounded up to the sampling factor is MCUs_per_row times the factor, for all sizes and factors |
| `McuGeometry.InitialSetup` | libuvccamera/src/main/jni/libjpeg-turbo-1.5.0/jcmaster.c:81-171 | the frame is accepted if and only if its dimensions, precision, counts and sampling factors are legal; the maximal factors are the largest ones, and the sizes in blocks are computed |
| `McuGeometry.PerScanSetup` | libuvccamera/src/main/jni/libjpeg-turbo-1.5.0/jcmaster.c:354-436 | a scan is accepted if and only if it has 1 to 4 components and, when interleaved, at most 10 blocks per MCU; its MCUs then cover the blocks of each component exactly, MCU_membership names the component of each block, and restart_in_rows becomes the restart interval |
| `McuGeometry.MembershipAt` | libuvccamera/src/main/jni/libjpeg-turbo-1.5.0/jcmaster.c:412-426 | MCU_membership names the components in the order of the scan, each as often as it has blocks in an MCU |
| `McuGeometry.RestartRows` | libuvccamera/src/main/jni/libjpeg-turbo-1.5.0/jcmaster.c:430-435 | restart_in_rows times MCUs_per_row, but at most 65535, replaces the restart interval if positive |
| `PassControl.EveryScanIsWritten` | libuvccamera/src/main/jni/libjpeg-turbo-1.5.0/jcmaster.c:447-582 | the pass sequence writes every scan once, in the order of the script |
| `PassControl.GatheredFirst` | libuvccamera/src/main/jni/libjpeg-turbo-1.5.0/jcmaster.c:479-513 | a scan is written straight after gathering for it if and only if tables are optimised and the scan uses one, which only DC refinement does not, or is the first of a full compression; nothing else is gathered |
| `PassControl.Master.FinishCompress` | libuvccamera/src/main/jni/libjpeg-turbo-1.5.0/jcapimin.c:161-196 | the loop makes exactly the required passes, ends with pass_number = total_passes, and fails if and only if Huffman optimisation was asked of the arithmetic coder |
| `PassControl.Compress` | libuvccamera/src/main/jni/libjpeg-turbo-1.5.0/jcmaster.c:589-640 | the same for a whole compression or transcoding |
| `McuBlocks.DctMcu` | libuvccamera/src/main/jni/libjpeg-turbo-1.5.0/jccoefct.c:167-200 | compress_data builds the reference MCU: real blocks, and dummy blocks with the DC of the last real block beside or above them |
| `DummyBlocks.McuShowsBlock` | libuvccamera/src/main/jni/libjpeg-turbo-1.5.0/jccoefct.c:167-200 | every block of the reference MCU by position: the block of the image that belongs there, or, right of width_in_blocks or below the last real row, 63 zero AC entries with the DC of the block before it in the MCU |
| `DummyBlocks.StreamShowsBlock` | libuvccamera/src/main/jni/libjpeg-turbo-1.5.0/jccoefct.c:142-218 | the same at its place in the stream of the whole scan |
| `McuBlocks.CopyMcu` | libuvccamera/src/main/jni/libjpeg-turbo-1.5.0/jctrans.c:319-349 | the transcoder builds the same MCU |
| `McuBlocks.StoreComponent` | libuvccamera/src/main/jni/libjpeg-turbo-1.5.0/jccoefct.c:256-320 | compress_first_pass stores rows in which every MCU finds its blocks, dummies included |
| `DummyBlocks.StoredDummies` | libuvccamera/src/main/jni/libjpeg-turbo-1.5.0/jccoefct.c:280-312 | every stored block beyond the real ones has 63 zero AC entries |
| `McuBlocks.StoredShows` | libuvccamera/src/main/jni/libjpeg-turbo-1.5.0/jccoefct.c:340-379 | what was stored once shows the MCUs of every later scan, interleaved or not |
| `McuBlocks.OutputMcu` | libuvccamera/src/main/jni/libjpeg-turbo-1.5.0/jccoefct.c:368-379 | compress_output builds the same MCU from the stored rows |
| `CoefControllers.Controller.CompressData` | libuvccamera/src/main/jni/libjpeg-turbo-1.5.0/jccoefct.c:142-218 | suspended or not, the MCUs accepted so far are a prefix of the reference stream, at the position that the counters give |
| `CoefControllers.Controller.CompressFirstPass` | libuvccamera/src/main/jni/libjpeg-turbo-1.5.0/jccoefct.c:244-327 | the same, and the iMCU row is stored for later passes |
| `CoefControllers.Controller.OutputPass` | libuvccamera/src/main/jni/libjpeg-turbo-1.5.0/jcapimin.c:175-190 | a later pass sends the reference stream of its own scan |
| `CoefControllers.Transcoder.CompressOutput` | libuvccamera/src/main/jni/libjpeg-turbo-1.5.0/jctrans.c:291-365 | the transcoder's accepted MCUs are a prefix of the same reference stream |
| `CoefControllers.OneStream` | libuvccamera/src/main/jni/libjpeg-turbo-1.5.0/jctrans.c:212-217 | with the same blocks and scan, the three controllers have sent the same MCUs when they are done |
| `CoefControllers.FrameFits` | libuvccamera/src/main/jni/libjpeg-turbo-1.5.0/jcmaster.c:147-153 | all components of an accepted frame have as many MCU columns as the frame, which is what the stored rows and the interleaved scans rely on |
| `StoredImage.StreamIsGathered` | libuvccamera/src/main/jni/libjpeg-turbo-1.5.0/jccoefct.c:340-400 | the MCUs that the controllers send in a scan, interleaved or not, are the blocks of the image in the order of the scan, dummy blocks included |
| `StoredImage.SentImageComesBack` | libuvccamera/src/main/jni/libjpeg-turbo-1.5.0/jccoefct.c:340-400 | from the DCT to the decoder: over every complete legal script the arithmetic coder codes what the controllers send, and decoding it gives back every real block of the image |
| `StoredImage.SequentialImageComesBack` | libuvccamera/src/main/jni/libjpeg-turbo-1.5.0/jccoefct.c:142-400 | the same over every sequential script |
| `StoredImage.HuffmanImageComesBack` | libuvccamera/src/main/jni/libjpeg-turbo-1.5.0/jccoefct.c:142-400 | the same over every sequential script with Huffman coding: each scan codes what the controllers send, and its bytes give back every real block of the image if the tables serve and no flush loses bits |
| `StoredImage.ProgressiveImageComesBack` | libuvccamera/src/main/jni/libjpeg-turbo-1.5.0/jccoefct.c:340-400 | the same over every complete progressive script with Huffman coding |
| `RowPreprocessing.CreateContextBuffer` | libuvccamera/src/main/jni/libjpeg-turbo-1.5.0/jcprepct.c:268-308 | the five-group pointer array wraps around the three-group buffer |
| `RowPreprocessing.GroupSees` | libuvccamera/src/main/jni/libjpeg-turbo-1.5.0/jcprepct.c:197-262 | the rows that a downsampling step must see, one by one: those of its group, and of the groups around it in context mode; above the image its first row, below it its last |
| `RowPreprocessing.GroupBelow` | libuvccamera/src/main/jni/libjpeg-turbo-1.5.0/jcprepct.c:172-186 | without context rows, groups below the image repeat the last row made of the last group in it |
| `RowPreprocessing.PrepController.PreProcessContext` | libuvccamera/src/main/jni/libjpeg-turbo-1.5.0/jcprepct.c:197-262 | every downsampling step sees its own row group and the true image rows above and below, the first and last row replicated at the edges, for any height and any chunking |
| `RowPreprocessing.PrepController.PreProcessData` | libuvccamera/src/main/jni/libjpeg-turbo-1.5.0/jcprepct.c:130-188 | the same without context rows, with the last downsampled row repeated below the image |
| `ScanlineInput.Compressor.ProcessData` | libuvccamera/src/main/jni/libjpeg-turbo-1.5.0/jcmainct.c:77-123 | process_data_simple_main keeps preprocessor, strip buffer and coefficient controller in agreement; a suspension un-counts one row, and the counter cannot underflow |
| `ScanlineInput.Compressor.WriteScanlines` | libuvccamera/src/main/jni/libjpeg-turbo-1.5.0/jcapistd.c:77-112 | next_scanline reaches image_height if and only if the last iMCU row is compressed; without suspension all rows passed are taken; the count is at most num_lines, except that a call without rows, made while suspended, returns 1 if and only if it ends the suspension |
| `ScanlineInput.ResumeWithoutRows` | libuvccamera/src/main/jni/libjpeg-turbo-1.5.0/jcapistd.c:77-112 | a concrete run in which a call with no rows returns 1 |
| `ScanlineInput.StripSees` | libuvccamera/src/main/jni/libjpeg-turbo-1.5.0/jcmainct.c:77-103 | the strip buffer for iMCU row i holds row groups 8i to 8i + 7 of the image: every row that the downsampler sees for them, by its number |
| `ScanlineInput.ImageFinished` | libuvccamera/src/main/jni/libjpeg-turbo-1.5.0/jcapistd.c:77-112 | then every MCU of the image was accepted once and in order |
| `ScanlineInput.ChunkingDoesNotMatter` | libuvccamera/src/main/jni/libjpeg-turbo-1.5.0/jcmainct.c:77-123 | two compressions of the same image send the same MCUs, however rows were divided into calls and whenever the entropy coder suspended |
| `ObjectArray.ObjectArray.Put` | libuvccamera/src/main/jni/UVCCamera/objectarray.h:66-74 | put appends, growing when full, and ignores NULL |
| `ObjectArray.ObjectArray.Remove` | libuvccamera/src/main/jni/UVCCamera/objectarray.h:78-85 | remove takes out one element and keeps the order of the others |
| `ObjectArray.ObjectArray.RemoveObject` | libuvccamera/src/main/jni/UVCCamera/objectarray.h:89-96 | the first occurrence leaves and the order of the others is kept; without one nothing changes |
| `ObjectArray.ObjectArray.Last` | libuvccamera/src/main/jni/UVCCamera/objectarray.h:101-106 | last takes the last element, or returns NULL from an empty array |
| `ObjectArray.ObjectArray.Clear` | libuvccamera/src/main/jni/UVCCamera/objectarray.h:125-128 | clear empties the array and goes back to the minimal capacity |
| `FrameOwnership.StepKeepsInvariant` | libuvccamera/src/main/jni/UVCCamera/UVCPreview.cpp:403-457 | every step of every thread keeps: each live frame has exactly one holder (pool, FIFO, slot, a thread, or dropped after stop), FIFO <= 4, pool <= 6, frames leave the FIFO in order of arrival, no mutex held twice |
| `FrameOwnership.EveryStateIsSafe` | libuvccamera/src/main/jni/UVCCamera/UVCPreview.cpp:701-875 | so it holds in every state of every interleaving of any number of threads |
| `FrameOwnership.RecycledOnce` | libuvccamera/src/main/jni/UVCCamera/UVCPreview.cpp:125-135 | a frame about to be recycled or freed is nowhere else |
| `FrameOwnership.LockOrder` | libuvccamera/src/main/jni/UVCCamera/UVCPreview.cpp:109-135 | a thread that is waited for waits, if at all, for pool_mutex, whose holder never waits: no cycle of waiting threads |
| `FrameSteps.EnqueueStep` | libuvccamera/src/main/jni/UVCCamera/UVCPreview.cpp:420-432 | addPreviewFrame appends the frame if the preview runs and fewer than four wait, else recycles it |
| `FrameSteps.TakeStep` | libuvccamera/src/main/jni/UVCCamera/UVCPreview.cpp:434-447 | waitPreviewFrame takes the oldest frame if and only if the preview runs and there is one |
| `FrameSteps.FifoGuarded` | libuvccamera/src/main/jni/UVCCamera/UVCPreview.cpp:420-457 | nothing else changes the FIFO, and nothing without preview_mutex |
| `FrameSteps.StoreStep` | libuvccamera/src/main/jni/UVCCamera/UVCPreview.cpp:701-712 | addCaptureFrame puts the frame into the slot if the preview runs, recycling the one that is there; else it lets the frame go |
| `FrameSteps.TakeSlotStep` | libuvccamera/src/main/jni/UVCCamera/UVCPreview.cpp:717-731 | waitCaptureFrame takes the frame out of the slot if and only if the preview runs and there is one |
| `FrameSteps.SlotGuarded` | libuvccamera/src/main/jni/UVCCamera/UVCPreview.cpp:701-749 | nothing else changes the slot, and nothing without capture_mutex |
| `FrameSteps.PutStep` | libuvccamera/src/main/jni/UVCCamera/UVCPreview.cpp:125-135 | recycle_frame keeps the frame if the pool holds fewer than six, else frees it |
| `FrameSteps.PopStep` | libuvccamera/src/main/jni/UVCCamera/UVCPreview.cpp:109-122 | get_frame takes the last frame of the pool, and allocates only if there is none |
| `FrameSteps.DrawnIsStored` | libuvccamera/src/main/jni/UVCCamera/UVCPreview.cpp:512-660 | every frame that the preview thread draws goes on to addCaptureFrame, whatever the other threads do in between and whether or not it was converted |
| `FrameSteps.HandleStep` | libuvccamera/src/main/jni/UVCCamera/UVCPreview.cpp:805-877 | do_capture_surface gets one frame for the surface and keeps it; do_capture_callback gets another if there is a callback |
| `FrameSteps.TakenIsRecycled` | libuvccamera/src/main/jni/UVCCamera/UVCPreview.cpp:805-877 | every frame that the capture thread takes out of the slot goes on to recycle_frame |
| `FrameSteps.Undisturbed` | libuvccamera/src/main/jni/UVCCamera/UVCPreview.cpp:403-457 | while a thread holds a mutex, no step of another thread changes the FIFO, the slot or the pool that the mutex guards |

## Left out

- Blocks are held in zigzag order, so `jpeg_natural_order` does not appear.
- The probability table is a parameter of the coder that must satisfy `ValidTable`; `ProbabilityTable.AritabValid` shows that jpeg_aritab does.
- The statistics areas of all tables lie in one array, and the fixed bin behind them.
- Coefficients are unbounded integers; the truncation to JCOEF is not modelled.
- ArithDecoder.Decoder.ProcessRestart: `read_restart_marker` is reduced to finding the next marker; jdmarker.c, with its resynchronisation, is not part of this model.
- ArithDecoder.Decoder.ArithDecode: input never suspends, because the source manager is a byte sequence; jdarith.c treats a suspension as an error.
- Marker segments (DHT, DAC, SOS, SOF and the rest) are neither written nor parsed; a scan is followed by some marker and any data.
- Output buffers are unbounded, so `dump_buffer`, the local buffer of encode_mcu_huff and the suspension inside the entropy encoders are not modelled; suspension appears as MCUs that are refused as a whole.
- The look-ahead tables of jdhuff.c (`jpeg_make_d_derived_tbl`, `HUFF_DECODE`) and decode_mcu_fast are not modelled: the decoder models find symbols by their code words. On bits that no encoder wrote they give up, where the code warns and goes on.
- HuffTwoPass.OptimisedScan: that the bytes decode is claimed only when `HuffFlush.NothingLost` holds, because otherwise, with 64-bit words, it is false.
- HuffEncoder.Encoder.EncodeScan: the counts of all tables are one two-dimensional array, copied before each call of jpeg_gen_optimal_table.
- BitPacking.AlignedWriter.EmitBits: the bits of put_buffer above the 24 in use are not modelled.
- HuffEncoder.Encoder.EncodeOneBlock: differences and coefficients have at most 16 bits, as in the source's `int` temporaries; the SIMD version is not modelled.
- Colour conversion acts on each row alone and is the identity here; the downsampler is represented by the rows that it sees.
- The DCT is a function from the strip buffer to blocks; SIMD and floating-point versions are not modelled.
- Virtual block arrays are indexed by iMCU row, as access_virt_barray hands them out; memory management is not modelled.
- `jpeg_write_raw_data`, progress monitors and the global state checks of the API are not modelled.
- The quality scaling and default tables of jcparam.c would only add easy members.
- UVCPreview: `init_pool`, which is never called, the destructor, failing allocations and the contents of frames are not modelled. Starting and joining threads is over-approximated by threads that may begin at any time; whether a conversion succeeds, a window is set or a frame is MJPEG is arbitrary.
- FrameOwnership.EveryStateIsSafe: safety only; condition signals can be lost, so no progress is claimed. Flags read without a mutex are read in one step with the data beside them.
