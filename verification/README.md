# Verified models of the codec's bit-exact parts

These Dafny modules model parts of the Opus implementation in which a mistake shows up only on rare
input: two parsers with their writers, the sparse and streaming arithmetic of the neural network code,
the soft clipper, and the bookkeeping of the encoder. Every operation is a method with the source's
loops and branches, and its contract ties the result to a function that describes the whole effect.
The lemmas then say what these functions are good for.

`dafny verify dfyconfig.toml` checks the whole project.

## Packet extensions

`src/extensions.rs` writes and reads extensions in the padding of a code 3 packet (section 3.2.5 of
RFC 6716). A frame's extensions that recur in all later frames are written once, followed by a repeat
indicator and by payloads only; the last long extension may lose its length.

- `ExtensionSyntax` has the extent of one extension. `ExtensionDecoding` is a reference decoder with a
  single position that keeps the list of id bytes it would replay. It yields a trace: extensions, and
  then the end or an error.
- `ExtensionIterator` is the source's iterator with its two cursors. `Remaining()` is the trace that it
  still has to hand out; every step takes the head off that trace. The source region of a repeat is
  described by marks between its items, so replaying it cannot fail and ends exactly at the indicator.
- `ExtensionEncoding` describes the written bytes frame by frame. `ExtensionFrames`, `ExtensionWriter`,
  `ExtensionRepeats` and `ExtensionGenerator` are the source's generator with its index arrays on an
  unordered list; `Generate` writes exactly the described bytes.
- `ExtensionReading` and `ExtensionRoundTrip` show that the reference decoder reads those bytes back.
- `ExtensionLimits` holds for all bytes whatsoever: how much can come out, that it can be written again,
  and what a frame limit leaves out. `ExtensionParsing` has the counting and parsing functions.
  `ExtensionTheorems` puts generator, iterator and parsers together.
- `ExtensionFormat` says that what is read is exactly what can be written, in the shortest form, and what
  padding behind the data does. `ExtensionItems` has the items that the writer never writes: padding between
  extensions, repeats of nothing, and items that are cut short. `ExtensionLayout` has the written bytes
  themselves, for all the ways in which the extensions of two frames can meet.

Two findings. The frame limit is looked at when a repeat ends, but only if a caller has already been
handed part of that repeat (the `resumed` argument of `Replay`). So a limited iteration can fail in bytes
that belong to frames nobody wants: `LimitAfterRepeat` has two inputs that hand out the same extension, of
which only the one with the repeat then fails, and `LateErrorIff` says that this is impossible exactly when
all frames are wanted, or none. The unlimited iteration fails there too (`FrameLimit`). The other finding:
an iterator for 0 frames whose limit is raised afterwards hands out extensions of frame 0; `FrameLimitIff`
and `InFramesIff` have the input and the exact condition.

## Ogg pages

`OggChecksum` relates the table-driven checksum of `src/oggreader.rs` to bit-by-bit division and to the
remainder of a polynomial (section 6 of RFC 3533), and proves that every burst of up to 32 bits at any bit
position is detected. `OggReader` reads pages from a stream that hands out pieces of any size and may fail
at any time. `OggExample` has the generator polynomial, the check value and the places of the fields in
literal numbers. `OggIntegrity` is about damaged pages, and about pages made from segments and read back.
The error for a payload that is too large can never occur.

## Soft clipping

`SoftClipping` describes one channel of `opus_pcm_soft_clip_impl` over real numbers; `SoftClipper` is the
loop over interleaved samples in place, with both limiters. `SoftClipLaws` gives the result of carrying over
and of a single region as formulas. The vector limiter can report that no sample is out of range, and then
no region is looked for: that changes nothing as long as the memory is at most 2 (`HintIff`), and it never
exceeds 0.25 (1 + 2.4e-7).

## Sparse and streaming kernels

`SparseKernels` has the index validator, the sparse kernel and the dense kernels, over integers. The
validator is modelled with 32-bit wrap-around, which turns out to do no harm. The quantized kernels take
real inputs and scales around the same integer sums; `SparseLaws` bounds their distance from the real
product and has the layouts of weights, as `ConvolutionLaws` has those of the convolutions.
`Convolution2d` has the general two-dimensional convolution and the one written out for 3 by 3. They need
the last row of output to fit, and no more. The debug assertion in front of them (`src/nnet.rs:226`) wants
a whole stride for every row, which can be more than the rows need if and only if there are rows and they
are shorter than the stride (`StrideNeeded`). The call in `src/pitchdnn.rs:130-139` is such a case: the
assertion fails there if the layer has all eight channels that the buffer has room for, and not if it has
fewer (`PitchRows`). `StreamingConvolution` has the convolutions with memory, `DelayLine` the encoder's
delay buffer; both keep the end of a stream that began with zeros (`Streams`).

## Deep redundancy

`RangeCoding` treats the range coder as intervals: the decoder learns some value inside the interval that
was encoded, any one. The width of the range is real, so that encoder and decoder count the same bits.
`DredLaplace` codes integers, `DredStream` whole redundancy frames: the encoder sends as many chunks as
fit and end with speech (`SentMost`), and all of them arrive if and only if the last one begins before the
last byte (`AllArrive`); `ChunkLost` has a frame whose only chunk is sent and does not arrive. A limit of
14 on the quantizer level with levels that begin at 14 and rise is the one case in which encoder and
decoder would disagree (`SameLevels`); the encoder's callers always pass 15. `DredLaws` has levels,
distributions and codes in literal numbers. `DredLatents` is about when latents are computed and which
offsets they get. The header's offset is a number that is not negative; that holds for all runs of frames
if and only if the encoder is at most 630 samples behind (`DelayAllowed`), and `LateRun` is a run with
631. The encoder's callers are at most 64 behind.

## Weights and budgets

`WeightBlob` has the writer of the build script and the parser of the library, `Utf8` the bytes that are
text (section 4 of RFC 3629). The writer cuts names off after 43 bytes. If that is inside a character, and
only then, the parser refuses the whole blob (`BlobRefused`); `LongNameRefused` has such a name.
`WeightLaws` says what an entry and a character are, byte by byte. `PacketBudget` divides the bytes of a
packet among frames under the header sizes of section 3.2 of RFC 6716.

## Model

| member | source | states |
|---|---|---|
| ExtensionSyntax.SkipExtensionPayload | src/extensions.rs:33-98 | moves the cursor by exactly the payload's extent, or fails exactly where that extent is malformed |
| ExtensionSyntax.SkipExtension | src/extensions.rs:100-117 | the same for an id byte and its payload |
| ExtensionSyntax.ExtentIsLocal | src/extensions.rs:100-117 | the extent of an extension whose length is written does not depend on what comes after it |
| ExtensionFormat.ReadIsWritten | src/extensions.rs:33-117 | what is read as an extension is byte for byte what the writer writes for its id and payload |
| ExtensionFormat.ExtentIff | src/extensions.rs:33-117 | an extension is read if and only if one was written there that ends in time |
| ExtensionFormat.OpenPayload | src/extensions.rs:60-68 | a long payload without a length runs up to the bytes reserved for what follows, or fails if there are too few |
| ExtensionFormat.ZeroEnds | src/extensions.rs:46-68 | a zero byte ends the data, whatever follows it |
| ExtensionFormat.ZerosOnly | src/extensions.rs:46-68 | any number of zeros is empty padding |
| ExtensionFormat.ZerosBehindData | src/extensions.rs:46-68 | zeros behind data in which everything tells where it ends change nothing |
| ExtensionItems.PaddingInside | src/extensions.rs:271-293 | a byte 1, and two bytes 3 and 0, between extensions change nothing, not even in a later repeat |
| ExtensionItems.PaddingForgotten | src/extensions.rs:178-192 | whatever follows, it does not depend on the padding among the items that may be repeated |
| ExtensionItems.ItemRead | src/extensions.rs:321-349 | where an extension was written, it is handed out, and decoding goes on behind it |
| ExtensionItems.ItemMissing | src/extensions.rs:271-280 | where none was written, decoding fails |
| ExtensionItems.SeparatorIs | src/extensions.rs:282-307 | a separator of any form leads to the later frame, ends the data behind the limit, or fails behind the packet |
| ExtensionItems.RepeatedRead | src/extensions.rs:193-231 | where the payload of a repeated extension was written, it is handed out for the later frame |
| ExtensionItems.RepeatedMissing | src/extensions.rs:200-212 | where it was not, decoding fails |
| ExtensionItems.NothingRepeated | src/extensions.rs:238-247 | a repeat of nothing, or in the last frame, only moves to the same or to the next frame, and ends the data if there is none |
| ExtensionIterator.OpusExtensionIterator.constructor | src/extensions.rs:137-156 | a new iterator has the whole decoding of its data before it |
| ExtensionIterator.OpusExtensionIterator.Reset | src/extensions.rs:158-171 | so has one that was reset |
| ExtensionIterator.OpusExtensionIterator.SetFrameMax | src/extensions.rs:173-175 | sets the limit and nothing else |
| ExtensionIterator.OpusExtensionIterator.StepSource | src/extensions.rs:180-200 | stepping through a repeat source never fails and finds the next listed id byte, never an indicator or a frame separator |
| ExtensionIterator.OpusExtensionIterator.ReplayItem | src/extensions.rs:180-236 | one replayed item takes the head off the replay, with the dropped length restored |
| ExtensionIterator.OpusExtensionIterator.NextRepeat | src/extensions.rs:177-248 | a repeat hands out its next extension, fails where the replay fails, or ends and goes back to reading |
| ExtensionIterator.OpusExtensionIterator.ReadItem | src/extensions.rs:265-351 | one item at the main cursor takes the head off the decoding |
| ExtensionIterator.OpusExtensionIterator.NextExtension | src/extensions.rs:250-354 | hands out exactly the head of what remains, ends exactly where it ends and fails exactly where it fails |
| ExtensionIterator.OpusExtensionIterator.Find | src/extensions.rs:356-365 | hands out the first remaining extension with that id and stops behind it; a negative length is an error |
| ExtensionWriter.WriteExtensionPayload | src/extensions.rs:472-518 | writes length and payload bytes, or finds that they do not fit, with or without a buffer |
| ExtensionWriter.WriteExtension | src/extensions.rs:520-542 | the same with the id byte |
| ExtensionFormat.ShortestLast | src/extensions.rs:520-542 | no bytes that end the data say the same as the last extension in fewer bytes: it has no length |
| ExtensionFormat.OnlyForm | src/extensions.rs:520-542 | no other bytes that tell where they end say the same as any other extension |
| ExtensionFormat.WrittenSays | src/extensions.rs:520-542 | what is written says its id and payload |
| ExtensionFormat.ShortestSeparator | src/extensions.rs:645-663 | no separator that moves as far is shorter |
| ExtensionFrames.ScanExtensions | src/extensions.rs:558-589 | accepts exactly the valid lists, and finds the first and last extension of every frame |
| ExtensionRepeats.FindRepeats | src/extensions.rs:600-639 | the pointers of all later frames end behind the longest stretch that recurs in every one of them, and stay if there is none |
| ExtensionEncoding.RepeatEndIs | src/extensions.rs:600-639 | that stretch is maximal: everything in it recurs, and the next one does not |
| ExtensionGenerator.WriteRepeats | src/extensions.rs:689-705 | writes the payloads of all later frames and counts each extension once |
| ExtensionGenerator.WriteNext | src/extensions.rs:641-711 | writes separator, extension and, in its place, the repeat |
| ExtensionGenerator.WriteFrame | src/extensions.rs:595-712 | after a frame, both pointers of every later frame are the same, behind what the repeat wrote for it, and name extensions of their own frame |
| ExtensionGenerator.WriteFrames | src/extensions.rs:590-714 | all frames are written, and every input extension exactly once |
| ExtensionGenerator.LeftAll | src/extensions.rs:714-714 | the extensions left at the start are all of the input |
| ExtensionGenerator.Generate | src/extensions.rs:544-728 | the exact result and bytes: fails exactly for invalid input or too little room, returns the same length without a buffer, pads in front, and leaves everything behind `len` alone |
| ExtensionLayout.OneExtension | src/extensions.rs:641-728 | a single extension is its id byte and its payload |
| ExtensionLayout.OneFrame | src/extensions.rs:641-728 | two extensions of a frame: only the first one has a length |
| ExtensionLayout.NextFrame | src/extensions.rs:643-651 | a byte 2 leads to the next frame |
| ExtensionLayout.LaterFrame | src/extensions.rs:652-663 | a byte 3 and a number lead to a later one |
| ExtensionLayout.Different | src/extensions.rs:641-728 | two frames with different extensions, with a separator between them |
| ExtensionLayout.Repeated | src/extensions.rs:674-711 | two frames with the same kind: once with a length, the byte 4, and the other payload without one |
| ExtensionLayout.RepeatedShort | src/extensions.rs:616-630 | short extensions are repeated if their sizes agree, and otherwise written again |
| ExtensionLayout.RepeatedThenMore | src/extensions.rs:674-711 | more to come in the first frame: the byte 5, and lengths are kept |
| ExtensionLayout.RepeatedShortThenMore | src/extensions.rs:674-711 | more to come in the second frame behind short extensions: the byte 4 leads there |
| ExtensionLayout.RepeatedLongThenMore | src/extensions.rs:674-711 | more to come in the second frame behind long ones: the byte 5, and a separator |
| ExtensionReading.RepeatRead | src/extensions.rs:177-248 | replaying the source of a repeat consumes exactly the payloads written for the later frames and yields their extensions |
| ExtensionRoundTrip.RepeatBlockRead | src/extensions.rs:265-351 | a written repeat is read back as the extensions of all later frames, whether or not its last length was dropped |
| ExtensionRoundTrip.FramesRead | src/extensions.rs:250-354 | from every frame boundary the decoder reads what was written for the frames from there on |
| ExtensionRoundTrip.RoundTrip | src/extensions.rs:544-728 | padding and then the written bytes: the decoding never fails and gives every frame its extensions in order |
| ExtensionLimits.CountBound | src/extensions.rs:250-354 | n bytes of any content yield at most n extensions for each frame |
| ExtensionLimits.LimitedFrames | src/extensions.rs:214-216 | everything handed out is below the limit and is a valid extension with exactly its payload |
| ExtensionLimits.FrameLimit | src/extensions.rs:173-175 | on all bytes and for every limit, exactly the extensions below it are handed out, in order, and the end is without an error if that of the unlimited iteration is |
| ExtensionLimits.FrameLimitIff | src/extensions.rs:173-175 | that holds for all bytes if and only if there are frames or none are wanted |
| ExtensionLimits.LimitAfterRepeat | src/extensions.rs:237-262 | two inputs for the first frame of two: behind a separator the iteration ends, behind a repeat that hands out nothing it fails |
| ExtensionLimits.LateErrorIff | src/extensions.rs:237-262 | no bytes make a limited iteration fail at what it comes to in a frame that is not wanted, if and only if all frames are wanted or none |
| ExtensionLimits.DecodeStops | src/extensions.rs:250-354 | an error is always found while the reader is in one of the frames |
| ExtensionLimits.InFramesIff | src/extensions.rs:331-333 | only extensions of the packet's frames come out, for all bytes, if and only if there are frames or none are wanted |
| ExtensionParsing.CountExtensions | src/extensions.rs:368-383 | the number of extensions before the end or the first error |
| ExtensionParsing.CountExt | src/extensions.rs:385-408 | the number of extensions of every frame, and nothing else in the array is changed |
| ExtensionParsing.Parse | src/extensions.rs:410-428 | the extensions in stream order, and which error, with what has been stored by then |
| ExtensionParsing.Cumulate | src/extensions.rs:441-454 | counts become first positions, unless one is negative |
| ExtensionParsing.Place | src/extensions.rs:458-467 | the next extension goes to the next free place of its frame |
| ExtensionParsing.ParseExt | src/extensions.rs:430-470 | the exact result for any counts; with those that CountExt finds, the extensions sorted by frame |
| ExtensionParsing.FitsIff | src/extensions.rs:461-464 | with matching counts everything fits if and only if the array is large enough |
| ExtensionParsing.SortedCount | src/extensions.rs:430-470 | sorting by frame has a place for every extension |
| ExtensionTheorems.SortedIsSort | src/extensions.rs:430-470 | the sorted list is in frame order and a permutation of what the iteration hands out |
| ExtensionParsing.SortedAt | src/extensions.rs:430-470 | within a frame the sorted list keeps the order of the iteration |
| ExtensionTheorems.GeneratedRead | src/extensions.rs:544-728 | iterating over generated bytes, padded or not, never fails and gives each frame its own input in input order, and nothing else |
| ExtensionTheorems.GeneratedParsed | src/extensions.rs:385-470 | generate, count and parse give the input back: identical for input in frame order, frame by frame otherwise |
| ExtensionTheorems.GeneratedFound | src/extensions.rs:366-470 | counting and parsing find each generated extension once, in all the frames and in the first `len` bytes only |
| ExtensionTheorems.ParsedRegenerated | tests/extensions.rs:418-482 | whatever bytes were parsed, what came out is valid input, and generating and parsing it again gives every frame the same |
| OggChecksum.GenerateChecksumTable | src/oggreader.rs:416-437 | every entry is its index shifted eight times with reduction |
| OggChecksum.UpdateChecksum | src/oggreader.rs:411-414 | a table look-up does what dividing in eight bits does |
| OggChecksum.TableStep | src/oggreader.rs:411-414 | the same as a fact about words |
| OggChecksum.DivideIsRemainder | src/oggreader.rs:411-437 | bitwise division gives the sum of the powers of x that the message names, reduced by the generator polynomial |
| OggChecksum.ChecksumIsRemainder | src/oggreader.rs:331-358 | the checksum is the remainder of the message polynomial |
| OggExample.GeneratorDivides | src/oggreader.rs:416-437 | the division leaves nothing of x^32 + x^26 + x^23 + x^22 + x^16 + x^12 + x^11 + x^10 + x^8 + x^7 + x^5 + x^4 + x^2 + x + 1 |
| OggExample.CheckValue | src/oggreader.rs:411-437 | the digits 1 to 9 have the checksum 0x89a1897f |
| OggChecksum.DivideInjective | src/oggreader.rs:411-414 | no message bits make two different registers equal |
| OggChecksum.BurstDetected | src/oggreader.rs:331-358 | sequences of equal length that differ only within 32 consecutive bits, at any bit position, have different checksums |
| OggReader.ReadExactFrom | src/oggreader.rs:397-408 | fills the buffer with the next bytes however the stream divides them, or finds where the stream ends or fails |
| OggReader.OggReader.ReadTable | src/oggreader.rs:287-293 | reads header and segment table, or finds that the stream ends or fails first |
| OggReader.PayloadFits | src/oggreader.rs:295-307 | no segment table exceeds the payload buffer |
| OggReader.OggReader.ReadSegments | src/oggreader.rs:309-329 | the payload is in the buffer and the segment infos tile it; whole segments are counted even if a later one fails |
| OggReader.WholeUpTo | src/oggreader.rs:309-329 | a stream that stops inside a segment leaves exactly the earlier ones counted |
| OggReader.OggReader.PageChecksum | src/oggreader.rs:331-350 | the checksum of the page with its checksum field taken as zero |
| OggReader.OggReader.ParseNextPage | src/oggreader.rs:284-388 | the page that the stream holds at this position, or exactly its error, unless a read fails; after any outcome the byte count is that of the whole parts read |
| OggExample.SealedIs | src/oggreader.rs:331-351 | which bytes are checked, and which four bytes they are compared with |
| OggExample.FieldsAre | src/oggreader.rs:361-374 | every field of a header, the low byte first |
| OggExample.TwoSegments | src/oggreader.rs:284-329 | a page of two segments in literal bytes, and the same page cut short |
| OggExample.CountedMost | src/oggreader.rs:309-329 | after any outcome the byte count is the end of the last part that was read to its end |
| OggReader.OggReader.Get | src/oggreader.rs:92-98 | the bytes of a segment, for exactly the segments that exist |
| OggReader.WholePage | src/oggreader.rs:284-388 | where the bytes of a page are in a stream, that page is found, and refused exactly when its checksum is wrong |
| OggIntegrity.DamageDetected | src/oggreader.rs:331-358 | no accepted page becomes another accepted one by a burst of up to 32 bits outside its checksum field or by any change inside it |
| OggIntegrity.SealedPageRead | src/oggreader.rs:284-388 | a page made from any segments is accepted wherever it is, and its segments come back |
| SoftClipping.PeakBent | src/opus.rs:105-110 | the largest sample of a region comes out at 1 - (m - 1) 2.4e-7 |
| SoftClipping.StrengthBound | src/opus.rs:106-107 | the coefficient is at most 0.25 (1 + 2.4e-7) |
| SoftClipping.SignedBend | src/opus.rs:105-117 | every sample of a region comes out within [-1, 1], with its sign, no larger than before |
| SoftClipping.LaterStart | src/opus.rs:87-103 | only the first region can reach back to the start of the frame |
| SoftClipping.RegionSample | src/opus.rs:81-130 | a region leaves all samples up to its end in range and the rest alone, ramp included |
| SoftClipping.Crossed | src/opus.rs:92-101 | every region is longer than nothing, so the loop over regions ends |
| SoftClipping.ClipBounds | src/opus.rs:41-139 | all samples come out in [-1, 1] with their signs, and the memory is small enough for the next frame |
| SoftClipping.ClipNothing | src/opus.rs:41-139 | a frame in range after a frame in range is not changed |
| SoftClipping.ClipNegated | src/opus.rs:41-139 | turning the waveform upside down turns the result upside down |
| SoftClipLaws.CarriedOver | src/opus.rs:46-55 | a frame in range: the nonlinearity goes on exactly up to the first sample that is not on the other side, and nothing else happens |
| SoftClipLaws.OneRegion | src/opus.rs:81-138 | a frame with one region out of range: every sample as a formula, with the ramp, and which coefficient is kept |
| SoftClipLaws.LimitedAt2 | src/celt/math.rs:380-390 | the limiter cuts off at 2 |
| SoftClipping.HintIff | src/opus.rs:57-79 | leaving out the search for regions is right for every frame in range if and only if the memory is at most 2 |
| SoftClipper.Carry | src/opus.rs:42-55 | continues the last coefficient up to the first zero crossing |
| SoftClipper.Scan | src/opus.rs:62-74 | the first sample out of range |
| SoftClipper.FindEnd | src/opus.rs:92-101 | the end of the region, and the first of its largest samples |
| SoftClipper.Ramp | src/opus.rs:119-130 | the running offset adds the ramp that its closed form says, limited to [-1, 1] |
| SoftClipper.Region | src/opus.rs:81-130 | one region of one channel, all other channels untouched |
| SoftClipper.Limit2CheckWithin1Neon | src/celt/math/aarch64_neon.rs:9-78 | limits every sample, although blocks without need are left alone, and reports exactly whether all were in [-1, 1] |
| SoftClipper.ClipChannel | src/opus.rs:42-138 | one channel of a frame and its new coefficient, with or without the search for regions, all other channels untouched |
| SoftClipper.OpusPcmSoftClip | src/opus.rs:16-140 | every channel is clipped by itself, samples behind the frame and unused memory stay, and unusable arguments change nothing, with either limiter |
| SoftClipper.HintUnseen | src/opus.rs:57-79 | with a memory of at most 2 the whole frame is the same with either limiter |
| SoftClipper.FrameClipped | src/opus.rs:16-140 | the whole interleaved frame is in [-1, 1] with its signs, and so will be the next one |
| SoftClipLaws.FrameCarried | src/opus.rs:42-138 | the same for a channel of an interleaved frame in range, with either limiter |
| SparseKernels.ValidateSparseIdx | src/dred_rdovae_dec.rs:674-706 | accepts exactly the well-formed indices and counts their blocks, wrap-around included |
| SparseLaws.OneGroup | src/dred_rdovae_dec.rs:684-704 | for eight rows: the number of blocks, and that many multiples of four inside the matrix |
| SparseLaws.GroupsJoin | src/dred_rdovae_dec.rs:684-704 | groups follow one another |
| SparseKernels.OffsetTest | src/dred_rdovae_dec.rs:691-697 | the wrapping comparison refuses exactly the offsets that are not multiples of four inside the row |
| SparseKernels.RowsLeft | src/dred_rdovae_dec.rs:684-704 | a well-formed index is used up exactly when the rows are |
| SparseKernels.Sgemv | src/nnet.rs:278-287 | the dense product |
| SparseLaws.WrapIs | src/dred_rdovae_dec.rs:680-703 | wrapped sums are the 32-bit integers that differ by a multiple of 2^32 |
| SparseLaws.DenseLayout | src/nnet.rs:278-287 | a matrix is stored column after column |
| SparseKernels.SparseSgemv8x4 | src/nnet.rs:289-343 | every row is the sum of its blocks; all indices stay in bounds, and index and weights are used up exactly |
| SparseLaws.BlockLayout | src/nnet.rs:289-343 | two groups of blocks with all their products written out |
| SparseKernels.BlockRowIs | src/nnet.rs:301-339 | four terms are the whole row of a block's matrix |
| SparseKernels.SparseRowIs | src/nnet.rs:289-343 | the kernel's sums are rows of the matrix times the input |
| SparseKernels.SparseIsDense | src/nnet.rs:278-343 | for every accepted index the sparse and the dense product agree on the expanded matrix |
| SparseKernels.ExpandedExpands | src/nnet.rs:289-343 | every accepted index and its weights have such a matrix |
| SparseKernels.FullSparse | src/nnet.rs:426-492 | an index of all blocks is one that the validator accepts, with the weights that the dense kernel uses |
| SparseKernels.FullIs | src/nnet.rs:426-492 | there is such an index for every number of rows and columns |
| SparseKernels.SparseCgemv8x4 | src/nnet.rs:354-424 | the sparse kernel on quantized inputs gives the scaled sparse product |
| SparseKernels.QuantizedNear | src/nnet.rs:345-352 | inputs in [-1, 1] are quantized to the nearest 127th |
| SparseLaws.QuantizedIs | src/nnet.rs:345-352 | rounded half up, and cut off at -128 and 127 |
| SparseLaws.QuantizationError | src/nnet.rs:354-492 | for inputs in [-1, 1] a quantized product is 127 times the real one, but for half a unit for every unit of weight |
| SparseKernels.CgemvSums | src/nnet.rs:426-492 | the sums of the dense kernel are those of the sparse product for an index of all blocks |
| SparseKernels.Cgemv8x4 | src/nnet.rs:426-492 | the dense kernel on quantized inputs gives the scaled sparse product for an index of all blocks |
| Convolution2d.Conv2dFloat | src/nnet.rs:130-158 | every output is the sum over channels, steps and taps, except where a later row covers it; what lies between and behind the rows stays |
| ConvolutionLaws.SingleWeight | src/nnet.rs:145-157 | a single weight 1 moves one row of the input to one row of the output |
| Convolution2d.AllRows | src/nnet.rs:142-144 | rows that are no longer than the stride do not cover each other, so every output is the convolution |
| Convolution2d.StrideNeeded | src/nnet.rs:226-226 | the assertion asks for no more than the rows need, for every output, if and only if there are no rows or they are as long as the stride |
| Convolution2d.PitchRows | src/pitchdnn.rs:101-139 | up to eight rows fit into the buffer, and only for eight would a whole stride for each not fit |
| Convolution2d.NineTaps | src/nnet.rs:176-190 | the nine written-out terms are all taps of a channel |
| Convolution2d.Conv2d3x3Float | src/nnet.rs:160-194 | the written-out form computes the same convolution, in bounds |
| Convolution2d.ConvolvedOnce | src/nnet.rs:237-260 | so both forms leave the same output |
| Streams.LastOn | src/opus_encoder.rs:1855-1893 | what the end of a stream is after more samples |
| DelayLine.Encoder.PreparePcmBuffer | src/opus_encoder.rs:1738-1825 | the scratch buffer is the end of the stream and then the frame, or there is no room |
| DelayLine.Encoder.UpdateDelayBuffer | src/opus_encoder.rs:1827-1907 | on both branches the delay buffer becomes the end of the longer stream |
| DelayLine.GainFade | src/opus_encoder.rs:2227-2267 | every value gets the gain of its sample, and nothing else changes |
| DelayLine.GainEnds | src/opus_encoder.rs:2244-2266 | a fade begins with the first gain and ends with the second |
| DelayLine.GainFromSilence | src/opus_encoder.rs:2244-2260 | from silence the gain is the square of the window |
| DelayLine.Encoder.PrepareSilkPrefill | src/opus_encoder.rs:2322-2384 | the history becomes silence and a fade, except for the part that goes before the next frame, which stays |
| DelayLine.Encoder.PrefilledIs | src/opus_encoder.rs:2337-2374 | which part is silent, which is faded and which stays |
| DelayLine.FadeInAt | src/opus_encoder.rs:2356-2374 | the same, value by value |
| DelayLine.Encoder.EncodeFrame | src/opus_encoder.rs:2471-2485 | over any run of frames of any sizes, filtered and prepared in between, the delay buffer is the end of the stream of filtered frames behind what was prepared last |
| StreamingConvolution.ComputeGenericConv1d | src/nnet.rs:609-638 | the layer sees the last inputs of the whole stream, and the memory keeps what the next call needs |
| StreamingConvolution.ComputeGenericConv1dDilation | src/nnet.rs:640-678 | without dilation the end of the whole stream; with it, chunk i is the input of dilation (ksize - 1 - i) steps ago, zeros before the stream began, and zeros between for sizes that are no multiple |
| StreamingConvolution.TapValue | src/nnet.rs:659-665 | every value of every tap, by its place in the whole stream |
| StreamingConvolution.NewestValue | src/nnet.rs:666 | the last values are the new input, behind zeros |
| StreamingConvolution.NeedIs | src/nnet.rs:655-677 | how much of the stream is remembered |
| StreamingConvolution.UndilatedChunks | src/nnet.rs:655-665 | the end of a stream is the same chunks with dilation 1 |
| RangeCoding.EcEnc.Encode | src/celt/entenc.rs:101-125 | narrows the range to the interval and counts the bits of the whole code |
| RangeCoding.EcDec.Update | src/celt/entdec.rs:85-127 | narrows the same range by the same amount, so that the count is the same |
| DredLaws.RangeShared | src/celt/entenc.rs:111-124 | neighbouring intervals share the range without a rest |
| DredLaws.IlogIs | src/celt/entcode.rs:154-175 | the digits of a number in base 2 |
| RangeCoding.BitsGrow | src/celt/entcode.rs:177-179 | more symbols never take fewer bits |
| RangeCoding.EcDec.DecIcdf16 | src/celt/entdec.rs:166-184 | finds the symbol that was encoded from any value in its interval |
| DredLaplace.DigitsCodable | src/dred_encoder.rs:405-412 | every digit has a frequency for every decay in the tables |
| DredLaplace.SignsCodable | src/dred_encoder.rs:391-394 | every sign has a frequency if and only if the probability of zero is neither 0 nor almost 1 |
| DredLaplace.LaplacePrefixFree | src/dred_encoder.rs:390-424 | no code of an integer begins another one's |
| DredLaws.SignIs | src/dred_encoder.rs:391-394 | the three signs in literal intervals |
| DredLaws.TailIs | src/dred_encoder.rs:403-412 | what remains for the digits behind each digit |
| DredLaws.TailsOfHalf | src/dred_encoder.rs:403-412 | two distributions in literal numbers |
| DredLaws.DigitIs | src/celt/entenc.rs:177-193 | a digit is what its tail has more than the next one |
| DredLaws.EscapeDigits | src/dred_encoder.rs:414-422 | a magnitude is as many sevens as it has, and the rest |
| DredLaws.NumberIs | src/dred_encoder.rs:395-422 | a number is its sign, and its magnitude less one |
| DredLaplace.EcLaplaceEncodeP0 | src/dred_encoder.rs:390-424 | appends the code of the integer |
| DredLaplace.EcLaplaceDecodeP0 | src/celt/laplace.rs:146-178 | finds the encoded integer and stops at the end of its code |
| DredStream.QmaxPartition | src/dred.rs:291-302 | the intervals of the levels partition the range |
| DredStream.EncodeHeader | src/dred_encoder.rs:475-500 | appends the header |
| DredStream.DecodeHeader | src/dred.rs:282-302 | finds q0, dQ and the offset again, and the level limit wherever it is expressible |
| DredLaws.HeaderIs | src/dred_encoder.rs:475-500 | the header in literal intervals |
| DredStream.LevelsRise | src/dred_encoder.rs:558-566 | later chunks are never quantized more finely |
| DredLaws.LevelNearest | src/dred_encoder.rs:558-566 | a chunk gets the level nearest to its slope, and the limit exactly if that is not below it |
| DredStream.SameLevels | src/dred.rs:254-262 | encoder and decoder agree on all levels if and only if the limit is not 14 with levels rising from 14 |
| DredStream.EncodeLatents | src/dred_encoder.rs:381-388 | appends the codes of the values that are not skipped |
| DredStream.DecodeLatents | src/dred.rs:238-252 | finds them again, with zeros for the skipped ones |
| DredLaws.SkippedIff | src/dred.rs:243-247 | which values are left out, and the code of the others |
| DredStream.FrameCodable | src/dred_encoder.rs:436-556 | every interval of a frame can be encoded |
| DredStream.EncodeFrame | src/dred_encoder.rs:436-556 | the bytes and the code of as many chunks as can be sent, within the byte limit, or nothing |
| DredLaws.FrameIs | src/dred_encoder.rs:502-532 | a frame with its state and two chunks in literal intervals, each with the row of its level |
| DredLaws.ChunksIff | src/dred_encoder.rs:518-519 | which chunks may be sent |
| DredLaws.BytesHold | src/dred_encoder.rs:552-552 | as few bytes as hold the bits |
| DredStream.SentMost | src/dred_encoder.rs:501-550 | no larger number of chunks fits, ends with speech and is not a single late one; the number sent does |
| DredStream.DecodeFrame | src/dred.rs:264-336 | everything up to where the decoder stops arrives: offset, state and chunks, with table rows in bounds; too much data is refused |
| DredLaws.AskedIff | src/dred.rs:313-316 | which chunks the decoder is asked for |
| DredLaws.ArrivingGoesOn | src/dred.rs:316-319 | the decoder goes on while 8 bits are left |
| DredLaws.ArrivingStops | src/dred.rs:316-319 | and stops at the first chunk with fewer |
| DredLaws.ArrivedAs | src/dred.rs:238-253 | an arrived chunk is the one that was sent, with 0 for what was left out |
| DredStream.AllArrive | src/dred.rs:312-335 | the decoder finds all chunks that were sent if and only if it is asked for them and the last one begins before the last byte |
| DredStream.SkippedLost | src/dred.rs:238-246 | a last chunk without coded values takes no bits and never arrives |
| DredStream.ChunkLost | src/dred.rs:316-318 | a frame whose only chunk is sent, in two bytes, and of which the decoder finds nothing |
| DredStream.BitsInside | src/dred.rs:315-318 | the decoder has used as many bits after a chunk as the encoder had |
| DredLatents.DredEnc.Step | src/dred_encoder.rs:316-352 | a step keeps position and offsets in agreement |
| DredLaws.PositionNearest | src/dred_encoder.rs:308-310 | the position is the nearest multiple of 40 samples |
| DredLaws.LatentsKept | src/dred_encoder.rs:297-297 | 52 latents are kept |
| DredLatents.DredEnc.ComputeLatents | src/dred_encoder.rs:300-354 | over any run of calls with any delay: the offsets add up to the position of the newest latent, the first one is where the call began, raised by 8 for every frame while it is below 6, and so at most the larger of 13 and the position that the delay alone has; the buffer never overflows |
| DredLatents.OffsetsDetermined | src/dred_encoder.rs:344-348 | position and bounds leave only one possibility for the two offsets |
| DredLatents.DredEnc.FrameStart | src/dred_encoder.rs:455-479 | skips exactly the latents without speech; the header's offset always fits, and is at least 16 minus that of the newest latent |
| DredLatents.DelayAllowed | src/dred_encoder.rs:478-479 | after any call in a state that frames of whole 2.5 ms reach, the header's offset is not negative, if and only if the encoder is at most 630 samples behind |
| DredLatents.FillReachable | src/dred_encoder.rs:77-90 | with such frames, what waits in the buffer is 11 samples more than a multiple of 40 |
| DredLatents.LateRun | src/dred_encoder.rs:300-479 | two calls after reset with a delay of 631 samples, after which the header's offset would be -1 |
| WeightBlob.WriteWeightEntry | oporus-deep-plc-weights/build.rs:940-994 | header, payload and padding, or a refusal of empty and of too large arrays |
| WeightLaws.EntryIs | oporus-deep-plc-weights/build.rs:951-991 | a written entry byte by byte |
| WeightBlob.Parse | src/dnn_weights.rs:29-77 | all entries of a valid blob, and an error for an invalid one |
| WeightLaws.FoundIsEntry | src/dnn_weights.rs:31-73 | everything that is found is an entry, whatever its first 12 bytes are |
| WeightLaws.EntryIsFound | src/dnn_weights.rs:31-73 | every entry is found, with its name, its payload and its end |
| WeightLaws.EntryIff | src/dnn_weights.rs:31-73 | so the parser fails exactly where there is none |
| WeightLaws.CharIff | src/dnn_weights.rs:53-54 | bytes are a character of text if and only if they encode a code point that is no surrogate |
| WeightLaws.TextIff | src/dnn_weights.rs:53-54 | text is empty, or a character and then text |
| WeightBlob.Find | src/dnn_weights.rs:79-81 | the first array of that name |
| WeightBlob.RequireBytes | src/dnn_weights.rs:83-95 | the bytes of the first array of that name, an error if there is none, and another if its size is wrong |
| WeightBlob.NameKept | oporus-deep-plc-weights/build.rs:975-983 | a name survives if and only if it has at most 43 bytes and no zero byte |
| Utf8.Cut | src/dnn_weights.rs:53-54 | the front of a text is text if and only if it is not cut before a continuation byte |
| WeightBlob.EntryRead | src/dnn_weights.rs:31-73 | a written entry is found with its payload if and only if what was kept of its name is UTF-8, and the next one begins right behind it |
| WeightBlob.WeightsRoundTrip | src/dnn_weights.rs:29-77 | parsing what was written gives all arrays in order, without padding, if and only if all names are UTF-8 as far as they were kept |
| WeightBlob.NameRefused | oporus-deep-plc-weights/build.rs:975-983 | what is kept of a text is text unless the name has more than 43 bytes, no zero among them, and a continuation byte next |
| WeightBlob.BlobRefused | src/dnn_weights.rs:53-54 | the parser refuses what the writer wrote if and only if one of the names is cut inside a character |
| WeightBlob.LongNameRefused | src/dnn_weights.rs:53-54 | a name of 42 letters and one of two bytes makes all arrays of the blob unreadable |
| WeightBlob.ArraysAtMost | src/dnn_weights.rs:31-73 | every array found uses up at least 64 bytes |
| PacketBudget.HeaderFits | src/opus_encoder.rs:4357-4361 | what is set aside for the header is enough for every combination of frame sizes |
| PacketBudget.HeaderNeeded | src/opus_encoder.rs:4357-4361 | and it is needed by some |
| PacketBudget.SmallPackets | src/opus_encoder.rs:4494-4503 | the sizes of packets of one and two frames |
| PacketBudget.LargerPackets | src/opus_encoder.rs:4494-4503 | and of three |
| PacketBudget.ShareKept | src/opus_encoder.rs:4399-4402 | a frame that keeps to its share leaves no less for each of the others |
| PacketBudget.ShareIs | src/opus_encoder.rs:4399-4402 | as much as all that are left can have, and for the last one all there is |
| PacketBudget.EncodeFrames | src/opus_encoder.rs:4348-4496 | shares lie in the scratch buffer behind the frames already there and are at least 2 bytes, the merged packet fits, fewer than 2 bytes for each frame are refused, and every other error is one of a frame or of the rate |
| PacketBudget.TriedIs | src/opus_encoder.rs:4402-4483 | which limit a frame is tried with, and when it is tried again |
| PacketBudget.DivisibleIff | src/opus_encoder.rs:4365-4371 | how many bytes are too few |
| PacketBudget.MaxDataIs | src/opus_encoder.rs:3926-3927 | how many bytes of a buffer are used |
| PacketBudget.ScratchFits | src/opus_encoder.rs:4365-4376 | for every buffer the sum of the shares fits into the scratch buffer: the error for that can never occur |

## Left out

- The bytes that the range coder makes, SILK, CELT, the repacketizer apart from its packet sizes, and the packet parser: the models use intervals with their bits, sizes and byte ranges instead.
- Floating-point rounding: samples are real numbers, network weights and inputs are integers, latents are already quantized.
- ExtensionIterator.OpusExtensionIterator.NextExtension: says nothing of calls after an error that left `curr_len` at 0 or more, because errors are not sticky: the source cursor has already moved. A negative `curr_len` keeps failing, as stated.
- ExtensionParsing.ParseExt: with counts that do not belong to the data, frames may share positions; which extension is left there is not stated. The source has a debug assertion against it.
- ExtensionSyntax.SkipExtension: conversions between `i32` and `usize` are left out; lengths are at most `i32::MAX` by precondition, as the source asserts.
- SparseKernels.SparseSgemv8x4: the eight rows of a block are a loop instead of eight statements. The quantized kernels run it on integers, and scale afterwards; numbers are not limited to eight bits.
- SoftClipper.OpusPcmSoftClip: the lanes of the vector limiter are taken one after the other; the overflow of frame size times channels is not modelled.
- OggReader.OggReader.ParseNextPage: the fields of the identification header are not read. Where a read may fail is up to the stream.
- DelayLine.Encoder.EncodeFrame: the filter may be any; the conversion of prepared samples to 16 bits is not modelled.
- StreamingConvolution.ComputeGenericConv1dDilation: a single tap with dilation above 1 is excluded, because there the source's length of what to move is negative, and it panics or wraps around.
- DredStream.DecodeFrame: the values are decoded only from streams that the encoder made; scaling them back is not modelled.
- DredLatents.DredEnc.ComputeLatents: sample conversion, the network and the clearing of the fill count while redundancy is off are not modelled.
- DredLatents.DredEnc.FrameStart: voice activity is a predicate on the latent, and no bound of the activity memory is claimed.
- DredStream.EncodeFrame: the search for the first latent is `FrameStart`; what the range coder does when its buffer is full is not modelled, because the encoder then goes back.
- WeightBlob.Parse: conversions between integer widths cannot fail and are left out.
- PacketBudget.EncodeFrames: the frame encoder is a parameter, with an outcome for each of its calls; switching between modes and frames without speech are not modelled.
- Resampling, feature extraction, tonality analysis, control requests, tables, file access and tracing.
