# sdrtrunk sample and MP3 converters in Dafny

This project models five small converters of sdrtrunk, the software-defined
radio trunking decoder, and proves what they promise.

- **ScalarPackedSampleConverter** (`ScalarPacked`): unpacks Airspy samples
  packed as two 12-bit values in three bytes, sums them and folds the
  buffer's mean into a running DC bias.
- **VectorUnpackedSampleConverter** (`VectorUnpacked`): unpacks Airspy
  samples stored one per two bytes, with a loop over groups of L vector
  lanes followed by a scalar tail. L is the lane count of the preferred
  vector species and a parameter of the model.
- **ByteNativeBufferFactory** (`ByteNative`): copies a buffer of unsigned
  8-bit samples, folds its mean into the DC bias and wraps the copy, its
  timestamp and the updated bias.
- **MP3AudioConverter** (`Mp3Converter`): resamples audio packets unless the
  rate is 8 kHz, feeds each packet's PCM bytes to the LAME encoder in chunks
  of at most B bytes (B is the encoder's PCM buffer size), collects every
  non-empty block of encoded frames and finishes the encoder once per call.
  `flush` finishes it on its own.
- **MP3SilenceGenerator** (`Mp3Silence`): encodes silence and releases only
  whole MP3 frames of 144 bytes, carrying a partial frame over to the next
  call.

Shared pieces:

- `JavaTypes`: Java's `byte` and `short`, the masks and narrowing casts, and
  the `Result` that stands for an exception.
- `Nio`: the part of `java.nio.ByteBuffer` the converters use.
- `DcFilter`: the single-pole DC filter `avg += (now - avg) * 0.007`, over
  reals.
- `Lame`: the LAME encoder and the resampler as oracles. Each answer is an
  arbitrary, fixed function of every call made so far. Two assumptions are
  made: the encoder never writes past the buffer it is handed, and its PCM
  buffer size is positive (see "## Left out").

The converters that change state in place are classes whose methods carry
`modifies` clauses and loops with invariants. Each method is proved against
a specification function, and the lemmas prove the listed properties of
those functions.

The MP3 converter's list of encoded blocks is a `seq<seq<int8>>`. Its loops
are specified by `EncodeFrom` (one packet) and `EncodePackets` (all
packets), both as functions of the encoder's call history.

An empty buffer gives the DC bias NaN: the code divides 0 by 0, and the bias
then stays NaN for good (`DcFilter.NaNIsSticky`). The converters model this
as written; "## Findings" records it.

## Model

| member | source | states |
|---|---|---|
| JavaTypes.Unsigned | src/main/java/io/github/dsheirer/buffer/airspy/ScalarPackedSampleConverter.java:49 | `b & 0xFF` lies in [0, 256) |
| JavaTypes.UnsignedKeepsLowBits | src/main/java/io/github/dsheirer/buffer/airspy/ScalarPackedSampleConverter.java:49 | `b & 0xFF` has the same low eight bits as `b` |
| JavaTypes.ToShort | src/main/java/io/github/dsheirer/buffer/airspy/ScalarPackedSampleConverter.java:49 | the `(short)` cast leaves every value in the short range unchanged |
| JavaTypes.ToShortKeepsLowBits | src/main/java/io/github/dsheirer/buffer/airspy/VectorUnpackedSampleConverter.java:68 | the `(short)` cast differs from its operand by a multiple of 2^16, i.e. keeps the low 16 bits |
| JavaTypes.Min | src/main/java/io/github/dsheirer/audio/convert/MP3AudioConverter.java:79 | `FastMath.min` is at most both operands and equal to one of them |
| JavaTypes.SumAppend | src/main/java/io/github/dsheirer/buffer/airspy/ScalarPackedSampleConverter.java:51-55 | the `long` accumulator over two runs of shorts is the sum of the two partial sums |
| JavaTypes.SumBounds | src/main/java/io/github/dsheirer/buffer/airspy/ScalarPackedSampleConverter.java:51-55 | a sum of n values in [0, hi] lies in [0, n * hi] |
| JavaTypes.Concat | src/main/java/io/github/dsheirer/audio/convert/MP3SilenceGenerator.java:59 | reference definition: the blocks of `convert`'s list laid end to end, which is the byte array `generate` goes on with |
| Nio.ByteBuffer.Get | src/main/java/io/github/dsheirer/buffer/airspy/ScalarPackedSampleConverter.java:45-47 | absolute `get(index)` returns the byte at index exactly when index is below the limit, else raises IndexOutOfBounds; the buffer is not changed |
| Nio.ByteBuffer.GetInto | src/main/java/io/github/dsheirer/buffer/ByteNativeBufferFactory.java:36 | relative bulk `get(dst)` succeeds exactly when dst fits in the remaining bytes, copies the bytes from the position and advances it by dst's length; on underflow nothing moves |
| DcFilter.Centered12BitDc | src/main/java/io/github/dsheirer/buffer/airspy/ScalarPackedSampleConverter.java:59-60 | the instantaneous DC is NaN exactly for an empty buffer; with samples in [0, 4095] and a non-negative scale it is finite and lies in [-2048 * scale, 2047 * scale]; a buffer whose mean is the mid level 2048 has DC 0 |
| DcFilter.MeanBounds | src/main/java/io/github/dsheirer/buffer/ByteNativeBufferFactory.java:55 | the mean of n > 0 values in [0, hi] lies in [0, hi] |
| DcFilter.Step | src/main/java/io/github/dsheirer/buffer/airspy/ScalarPackedSampleConverter.java:61-62 | the update is NaN exactly when either operand is; otherwise the distance to the instantaneous DC shrinks by the factor 1 - 0.007 |
| DcFilter.StepApproaches | src/main/java/io/github/dsheirer/buffer/airspy/ScalarPackedSampleConverter.java:61-62 | one update never overshoots: the new estimate lies between the old one and the instantaneous DC, strictly closer to the latter |
| DcFilter.Settle | src/main/java/io/github/dsheirer/buffer/airspy/ScalarPackedSampleConverter.java:59-62 | reference definition: the bias after k buffers with the same instantaneous DC, one update per buffer |
| DcFilter.SettleIsGeometric | src/main/java/io/github/dsheirer/buffer/airspy/ScalarPackedSampleConverter.java:29 | fed a constant DC c for k buffers, the distance to c is (1 - 0.007)^k times the initial one |
| DcFilter.NaNIsSticky | src/main/java/io/github/dsheirer/buffer/airspy/ScalarPackedSampleConverter.java:59-62 | once the estimate is NaN it stays NaN whatever later buffers hold |
| DcFilter.EmptyBufferPoisonsBias | src/main/java/io/github/dsheirer/buffer/airspy/ScalarPackedSampleConverter.java:59-62 | as written, one empty buffer makes the estimate NaN, and it stays NaN for any number of later buffers |
| DcFilter.GuardedStaysFinite | src/main/java/io/github/dsheirer/buffer/airspy/ScalarPackedSampleConverter.java:59-62 | with the evidently intended update (an empty buffer leaves the estimate alone), an empty buffer is a no-op and a finite estimate stays finite over any run of buffers |
| DcFilter.SettlesWithinOnePercent | src/main/java/io/github/dsheirer/buffer/airspy/ScalarPackedSampleConverter.java:29 | after 700 buffers of constant DC the estimate is within 1% of the initial distance from it (the settling the gain's comment promises) |
| ScalarPacked.FirstValue | src/main/java/io/github/dsheirer/buffer/airspy/ScalarPackedSampleConverter.java:49 | the first value of a triple is a 12-bit value |
| ScalarPacked.SecondValue | src/main/java/io/github/dsheirer/buffer/airspy/ScalarPackedSampleConverter.java:53 | the second value of a triple is a 12-bit value |
| ScalarPacked.ValueFields | src/main/java/io/github/dsheirer/buffer/airspy/ScalarPackedSampleConverter.java:49-53 | the first value holds b1 in bits 4-11 and b2's top nibble in bits 0-3; the second holds b2's low nibble in bits 8-11 and b3 in bits 0-7 |
| ScalarPacked.TripleValues | src/main/java/io/github/dsheirer/buffer/airspy/ScalarPackedSampleConverter.java:45-53 | triple t (bytes 3t, 3t+1, 3t+2) yields exactly its first and second value, unchanged by the casts |
| ScalarPacked.Unpacked | src/main/java/io/github/dsheirer/buffer/airspy/ScalarPackedSampleConverter.java:41-47 | k triples yield 2k values |
| ScalarPacked.UnpackedAt | src/main/java/io/github/dsheirer/buffer/airspy/ScalarPackedSampleConverter.java:43-53 | slots 2t and 2t+1 of the unpacked values are triple t's first and second value |
| ScalarPacked.TripleSumStep | src/main/java/io/github/dsheirer/buffer/airspy/ScalarPackedSampleConverter.java:51-55 | each pass adds both of its triple's values to the accumulator |
| ScalarPacked.TripleSumIsSum | src/main/java/io/github/dsheirer/buffer/airspy/ScalarPackedSampleConverter.java:51-55 | the accumulator equals the sum of both values of every triple |
| ScalarPacked.Unpack12 | src/main/java/io/github/dsheirer/buffer/airspy/ScalarPackedSampleConverter.java:41-53 | reference definition: the intended unpacking, both values of every complete triple in order |
| ScalarPacked.TripleSum | src/main/java/io/github/dsheirer/buffer/airspy/ScalarPackedSampleConverter.java:51-55 | reference definition: the accumulator after t passes, both values of each triple added |
| ScalarPacked.ConvertedSamples | src/main/java/io/github/dsheirer/buffer/airspy/ScalarPackedSampleConverter.java:41-56 | reference definition: the array convert returns as written, even slot 2t holding triple t's second value and odd slots 0 |
| ScalarPacked.Unpack12Range | src/main/java/io/github/dsheirer/buffer/airspy/ScalarPackedSampleConverter.java:41-53 | capacity / 3 * 2 values come out (a trailing partial triple is ignored), each in [0, 4095] |
| ScalarPacked.AccumulatorBounds | src/main/java/io/github/dsheirer/buffer/airspy/ScalarPackedSampleConverter.java:51-55 | 0 <= accumulator <= 4095 * samples.length |
| ScalarPacked.AsWrittenSlots | src/main/java/io/github/dsheirer/buffer/airspy/ScalarPackedSampleConverter.java:50-54 | as written, slot 2t ends holding triple t's second value and slot 2t+1 keeps 0 |
| ScalarPacked.AsWrittenKeepsSecondValues | src/main/java/io/github/dsheirer/buffer/airspy/ScalarPackedSampleConverter.java:50-54 | the returned array has the length of the unpacked values, keeps each second value at the even slot and 0 at the odd slot |
| ScalarPacked.AsWrittenLosesFirstValue | src/main/java/io/github/dsheirer/buffer/airspy/ScalarPackedSampleConverter.java:50-54 | bytes 0x12 0x34 0x56 pack 0x123 and 0x456, but convert returns [0x456, 0] |
| ScalarPacked.PackTriple | src/main/java/io/github/dsheirer/buffer/airspy/ScalarPackedSampleConverter.java:49-53 | the packing of two 12-bit values is three bytes |
| ScalarPacked.TripleRoundTrip | src/main/java/io/github/dsheirer/buffer/airspy/ScalarPackedSampleConverter.java:49-53 | unpacking a packed triple gives back both 12-bit values |
| ScalarPacked.Pack12 | src/main/java/io/github/dsheirer/buffer/airspy/ScalarPackedSampleConverter.java:41-53 | packing 2k 12-bit values gives 3k bytes |
| ScalarPacked.Unpack12RoundTrip | src/main/java/io/github/dsheirer/buffer/airspy/ScalarPackedSampleConverter.java:41-55 | unpacking inverts the packing: every sequence of 12-bit value pairs comes back unchanged |
| ScalarPacked.ScalarPackedSampleConverter.constructor | src/main/java/io/github/dsheirer/buffer/airspy/ScalarPackedSampleConverter.java:29-30 | the converter starts with the bias 0 |
| ScalarPacked.ScalarPackedSampleConverter.Convert | src/main/java/io/github/dsheirer/buffer/airspy/ScalarPackedSampleConverter.java:33-65 | fails with IndexOutOfBounds exactly when the limit is below the last complete triple, then with the bias unchanged; otherwise returns a fresh array equal to the as-written samples and updates the bias once with the accumulator's DC |
| ScalarPacked.ScalarPackedSampleConverter.UnpackTriples | src/main/java/io/github/dsheirer/buffer/airspy/ScalarPackedSampleConverter.java:41-56 | the loop fills the fresh array with the as-written samples and ends with the accumulator equal to the sum over every triple, or fails exactly when a read passes the limit |
| ScalarPacked.ScalarPackedSampleConverter.ConvertTriple | src/main/java/io/github/dsheirer/buffer/airspy/ScalarPackedSampleConverter.java:45-55 | one pass reads three bytes at offset, stores only the second value at x (the first store is overwritten) and adds both values to the accumulator |
| ScalarPacked.ScalarPackedSampleConverter.GetAverageDc | src/main/java/io/github/dsheirer/buffer/airspy/ScalarPackedSampleConverter.java:67-71 | returns the current bias and changes nothing |
| VectorUnpacked.Sample | src/main/java/io/github/dsheirer/buffer/airspy/VectorUnpackedSampleConverter.java:77 | `((b2 & 0x0F) << 8) | (b1 & 0xFF)` is a 12-bit value |
| VectorUnpacked.SampleFields | src/main/java/io/github/dsheirer/buffer/airspy/VectorUnpackedSampleConverter.java:77 | a sample holds the low byte in bits 0-7 and the high byte's low nibble in bits 8-11 |
| VectorUnpacked.UnpackedSamples | src/main/java/io/github/dsheirer/buffer/airspy/VectorUnpackedSampleConverter.java:45-78 | capacity / 2 samples come out (an odd trailing byte is ignored); sample i is a 12-bit value whose low eight bits are byte 2i and whose top four bits are the low nibble of byte 2i + 1 |
| VectorUnpacked.SampleSumSplit | src/main/java/io/github/dsheirer/buffer/airspy/VectorUnpackedSampleConverter.java:68-79 | the sum over a range of samples splits at any midpoint |
| VectorUnpacked.SampleSumBounds | src/main/java/io/github/dsheirer/buffer/airspy/VectorUnpackedSampleConverter.java:68-79 | k samples add up to a value in [0, 4095 * k] |
| VectorUnpacked.SampleSumIsSum | src/main/java/io/github/dsheirer/buffer/airspy/VectorUnpackedSampleConverter.java:79 | the sum over samples 0 .. hi - 1 is the sum of the unpacked array's prefix |
| VectorUnpacked.LoopBound | src/main/java/io/github/dsheirer/buffer/airspy/VectorUnpackedSampleConverter.java:56 | `loopBound(n)` is the largest multiple of L not above n: it is at most n and within L of it |
| VectorUnpacked.LoopBoundIsMultiple | src/main/java/io/github/dsheirer/buffer/airspy/VectorUnpackedSampleConverter.java:56 | `loopBound(n)` is n / L * L |
| VectorUnpacked.Vector | src/main/java/io/github/dsheirer/buffer/airspy/VectorUnpackedSampleConverter.java:66-67 | each lane of `bytes1.or(bytes2 << 8)` equals bytes1[j] + 256 * bytes2[j], a 12-bit value: the shifted nibble shares no bit with the low byte, so the OR adds |
| VectorUnpacked.ReduceAdd | src/main/java/io/github/dsheirer/buffer/airspy/VectorUnpackedSampleConverter.java:68 | `reduceLanes(ADD)` equals the exact lane sum modulo 2^16 |
| VectorUnpacked.VectorLanesAreSamples | src/main/java/io/github/dsheirer/buffer/airspy/VectorUnpackedSampleConverter.java:62-67 | with freshly filled scratch arrays, lane j of the vector is the scalar sample first + j: the lane loop and the tail compute the same per-sample value |
| VectorUnpacked.LaneSum | src/main/java/io/github/dsheirer/buffer/airspy/VectorUnpackedSampleConverter.java:68 | the exact sum of a group's lanes is the sum of its samples |
| VectorUnpacked.ExactGroupSumsAreSampleSum | src/main/java/io/github/dsheirer/buffer/airspy/VectorUnpackedSampleConverter.java:56-68 | over whole groups the exact group sums add up to the sum of the samples |
| VectorUnpacked.WrappedGroupSums | src/main/java/io/github/dsheirer/buffer/airspy/VectorUnpackedSampleConverter.java:56-70 | reference definition: the accumulator after the lane loop, each group adding its `reduceLanes(ADD)` short |
| VectorUnpacked.AsWrittenAccumulator | src/main/java/io/github/dsheirer/buffer/airspy/VectorUnpackedSampleConverter.java:56-79 | reference definition: the accumulator as the code computes it, wrapped group sums over the lane loop and exact samples over the tail |
| VectorUnpacked.CorrectedAccumulatorIsSum | src/main/java/io/github/dsheirer/buffer/airspy/VectorUnpackedSampleConverter.java:56-79 | with exact group sums the accumulator is the sum of all samples, for every lane count L |
| VectorUnpacked.WrappedIsExactForNarrowVectors | src/main/java/io/github/dsheirer/buffer/airspy/VectorUnpackedSampleConverter.java:68 | for L * 4095 <= 32767 each wrapped group sum is exact |
| VectorUnpacked.AsWrittenExactForNarrowVectors | src/main/java/io/github/dsheirer/buffer/airspy/VectorUnpackedSampleConverter.java:56-79 | for L <= 8 the accumulator as written is the sum of all samples |
| VectorUnpacked.AllOnesSum | src/main/java/io/github/dsheirer/buffer/airspy/VectorUnpackedSampleConverter.java:77 | bytes of 0xFF encode samples of 4095 |
| VectorUnpacked.AllOnesGroup | src/main/java/io/github/dsheirer/buffer/airspy/VectorUnpackedSampleConverter.java:56-79 | one group of L all-0xFF samples: the exact sum is 4095 * L, the accumulator as written is that sum wrapped to a short |
| VectorUnpacked.WrappedGroupLosesOverflow | src/main/java/io/github/dsheirer/buffer/airspy/VectorUnpackedSampleConverter.java:68 | with 16 lanes and 32 bytes of 0xFF the samples add up to 65520 but the accumulator as written is -16 |
| VectorUnpacked.VectorUnpackedSampleConverter.constructor | src/main/java/io/github/dsheirer/buffer/airspy/VectorUnpackedSampleConverter.java:33-35 | the converter holds the lane count and scale and starts with the bias 0 |
| VectorUnpacked.VectorUnpackedSampleConverter.Convert | src/main/java/io/github/dsheirer/buffer/airspy/VectorUnpackedSampleConverter.java:38-89 | fails with IndexOutOfBounds exactly when the limit is below 2 * (capacity / 2), then with the bias unchanged; otherwise returns a fresh array holding every sample, whatever L, and updates the bias once with the accumulator as the code computes it |
| VectorUnpacked.VectorUnpackedSampleConverter.LaneGroups | src/main/java/io/github/dsheirer/buffer/airspy/VectorUnpackedSampleConverter.java:56-70 | the lane loop stores sample i at every index below loopBound(n) and accumulates the wrapped group sums, or fails exactly when a read passes the limit |
| VectorUnpacked.VectorUnpackedSampleConverter.ConvertGroup | src/main/java/io/github/dsheirer/buffer/airspy/VectorUnpackedSampleConverter.java:58-69 | one group stores samples samplesOffset .. + L - 1, leaves every other index alone and returns the group sum wrapped to a short |
| VectorUnpacked.VectorUnpackedSampleConverter.FillScratch | src/main/java/io/github/dsheirer/buffer/airspy/VectorUnpackedSampleConverter.java:60-64 | the inner loop overwrites every lane of both scratch arrays with the group's low bytes and high nibbles before any is read |
| VectorUnpacked.VectorUnpackedSampleConverter.Tail | src/main/java/io/github/dsheirer/buffer/airspy/VectorUnpackedSampleConverter.java:72-80 | the tail stores sample i at every index from loopBound(n) on, leaves the lane loop's indices alone and adds the exact samples to the accumulator |
| VectorUnpacked.VectorUnpackedSampleConverter.GetAverageDc | src/main/java/io/github/dsheirer/buffer/airspy/VectorUnpackedSampleConverter.java:91-95 | returns the current bias and changes nothing |
| ByteNative.UnsignedSum | src/main/java/io/github/dsheirer/buffer/ByteNativeBufferFactory.java:50-53 | reference definition: the sum of `sample & 0xFF` over the copy, the value calculateDc's loop accumulates |
| ByteNative.UnsignedSumBounds | src/main/java/io/github/dsheirer/buffer/ByteNativeBufferFactory.java:50-53 | the sum of `sample & 0xFF` over n bytes lies in [0, 255 * n] |
| ByteNative.UnsignedSumConstant | src/main/java/io/github/dsheirer/buffer/ByteNativeBufferFactory.java:50-53 | n equal bytes b add up to n * (b & 0xFF) |
| ByteNative.UnsignedByteDc | src/main/java/io/github/dsheirer/buffer/ByteNativeBufferFactory.java:55-57 | the instantaneous DC is NaN exactly for an empty copy; with the bytes' sum in [0, 255 * n] it is finite and lies in [-127/128, 1]; a copy whose mean is 127 has DC 0 |
| ByteNative.UnsignedByteDcRange | src/main/java/io/github/dsheirer/buffer/ByteNativeBufferFactory.java:55-57 | for a non-empty copy the instantaneous DC lies in [-127/128, 1] |
| ByteNative.UnsignedByteDcOfConstant | src/main/java/io/github/dsheirer/buffer/ByteNativeBufferFactory.java:55-57 | a copy of constant bytes b has the DC ((b & 0xFF) - 127) / 128, so 127 is the zero level |
| ByteNative.ByteNativeBufferFactory.constructor | src/main/java/io/github/dsheirer/buffer/ByteNativeBufferFactory.java:29-30 | the factory starts with the bias 0 |
| ByteNative.ByteNativeBufferFactory.GetBuffer | src/main/java/io/github/dsheirer/buffer/ByteNativeBufferFactory.java:33-39 | succeeds exactly when the whole buffer remains; then the position reaches capacity, the fresh copy equals the buffer's bytes, the bias is updated once from the copy and the result carries the copy, the timestamp and the updated bias; on underflow nothing changes |
| ByteNative.ByteNativeBufferFactory.CalculateDc | src/main/java/io/github/dsheirer/buffer/ByteNativeBufferFactory.java:46-60 | folds the mean of `sample & 0xFF` over the copy into the bias exactly once |
| Lame.LameEncoder.constructor | src/main/java/io/github/dsheirer/audio/convert/MP3AudioConverter.java:52 | a fresh encoder has made no calls |
| Lame.LameEncoder.EncodeBuffer | src/main/java/io/github/dsheirer/audio/convert/MP3AudioConverter.java:87 | records the chunk it was handed; throws exactly when the encoder does; otherwise returns the number of bytes written, at most the output buffer's length, and the buffer starts with them |
| Lame.LameEncoder.EncodeFinish | src/main/java/io/github/dsheirer/audio/convert/MP3AudioConverter.java:106 | records one finish call; throws exactly when the encoder does; otherwise returns the number of bytes written to the front of the buffer |
| Lame.RealResampler.constructor | src/main/java/io/github/dsheirer/audio/convert/MP3AudioConverter.java:56 | a fresh resampler has seen no packets |
| Lame.RealResampler.Resample | src/main/java/io/github/dsheirer/audio/convert/MP3AudioConverter.java:68 | records the packet list and returns the resampler's answer to it |
| Mp3Converter.ChunksCover | src/main/java/io/github/dsheirer/audio/convert/MP3AudioConverter.java:77-89 | the chunks of a packet laid end to end are the packet from the cursor on: contiguous, without gaps or overlaps |
| Mp3Converter.ChunkSizes | src/main/java/io/github/dsheirer/audio/convert/MP3AudioConverter.java:79-89 | every chunk has 1 to B bytes and all but the last have exactly B |
| Mp3Converter.ChunkCount | src/main/java/io/github/dsheirer/audio/convert/MP3AudioConverter.java:85-89 | there are ceil(len / B) chunks, none exactly for an empty packet |
| Mp3Converter.ChunkCallsAreChunks | src/main/java/io/github/dsheirer/audio/convert/MP3AudioConverter.java:85-89 | the encodeBuffer calls hand the chunks to the encoder one each, in order |
| Mp3Converter.Chunks | src/main/java/io/github/dsheirer/audio/convert/MP3AudioConverter.java:77-89 | reference definition: the chunks of min(buffer length, remaining) bytes the loop hands to encodeBuffer |
| Mp3Converter.ChunkCalls | src/main/java/io/github/dsheirer/audio/convert/MP3AudioConverter.java:85-89 | reference definition: the encodeBuffer calls the loop makes when none throws |
| Mp3Converter.Appended | src/main/java/io/github/dsheirer/audio/convert/MP3AudioConverter.java:93-95 | an encoder answer adds at most one list entry, one exactly when the call wrote at least one byte, and then that entry is exactly those bytes; conservation of the bytes is `Mp3Converter.AppendedKeepsFrames` |
| Mp3Converter.AppendedKeepsFrames | src/main/java/io/github/dsheirer/audio/convert/MP3AudioConverter.java:93-95 | the entry for an answer keeps every byte written by a call that did not throw and adds none, and is never an empty array |
| Mp3Converter.Emitted | src/main/java/io/github/dsheirer/audio/convert/MP3AudioConverter.java:93-95 | reference definition: the list entries a run of calls produces, in call order |
| Mp3Converter.EmittedAppend | src/main/java/io/github/dsheirer/audio/convert/MP3AudioConverter.java:73-111 | the entries produced by two runs of calls are those of the first followed by those of the second |
| Mp3Converter.EmittedNonEmpty | src/main/java/io/github/dsheirer/audio/convert/MP3AudioConverter.java:93-95 | no list entry is empty |
| Mp3Converter.EncodeFrom | src/main/java/io/github/dsheirer/audio/convert/MP3AudioConverter.java:77-103 | the chunk loop only adds calls to the encoder's history |
| Mp3Converter.EncodePackets | src/main/java/io/github/dsheirer/audio/convert/MP3AudioConverter.java:73-104 | the packet loop only adds calls to the encoder's history |
| Mp3Converter.EncodeFromCalls | src/main/java/io/github/dsheirer/audio/convert/MP3AudioConverter.java:83-103 | a packet's calls are a prefix of its chunk calls, at least one when the packet is non-empty, all of them when none throws |
| Mp3Converter.EncodeFromStopsAtThrow | src/main/java/io/github/dsheirer/audio/convert/MP3AudioConverter.java:83-103 | a packet reports a throw exactly when its last call threw, and every call before that was answered: an exception abandons the rest of the packet |
| Mp3Converter.EncodeFromEmits | src/main/java/io/github/dsheirer/audio/convert/MP3AudioConverter.java:85-98 | one packet keeps the list and appends the non-empty answers to its calls in call order |
| Mp3Converter.EncodePacketsEmits | src/main/java/io/github/dsheirer/audio/convert/MP3AudioConverter.java:73-104 | all packets append the non-empty answers to all their calls: packet order, then chunk order |
| Mp3Converter.ChunkCallsAreBufferCalls | src/main/java/io/github/dsheirer/audio/convert/MP3AudioConverter.java:87 | the chunk loop makes only encodeBuffer calls |
| Mp3Converter.EncodePacketsCallsOnlyBuffers | src/main/java/io/github/dsheirer/audio/convert/MP3AudioConverter.java:73-104 | the packet loop makes only encodeBuffer calls |
| Mp3Converter.EveryPacketIsStarted | src/main/java/io/github/dsheirer/audio/convert/MP3AudioConverter.java:83-103 | the first chunk of every non-empty packet reaches the encoder whatever earlier packets threw: the exception scope is one packet |
| Mp3Converter.PacketsWithoutThrowsCallEveryChunk | src/main/java/io/github/dsheirer/audio/convert/MP3AudioConverter.java:73-104 | when nothing throws the encoder sees every chunk of every packet, packet by packet |
| Mp3Converter.ConvertRunFinishesOnce | src/main/java/io/github/dsheirer/audio/convert/MP3AudioConverter.java:106-114 | convert makes exactly one encodeFinish call, after all encodeBuffer calls, and fails exactly when that call throws |
| Mp3Converter.ConvertRunEmits | src/main/java/io/github/dsheirer/audio/convert/MP3AudioConverter.java:73-114 | what convert returns is the non-empty answers to all its calls in call order, ending with the finish |
| Mp3Converter.ConvertRun | src/main/java/io/github/dsheirer/audio/convert/MP3AudioConverter.java:73-114 | reference definition: the encoder history and result of one convert call, the packet loop followed by the finish |
| Mp3Converter.MP3AudioConverter.constructor | src/main/java/io/github/dsheirer/audio/convert/MP3AudioConverter.java:50-60 | a resampler is present exactly when the rate is not 8 kHz; the output buffer is fresh and getPCMBufferSize() long |
| Mp3Converter.MP3AudioConverter.Convert | src/main/java/io/github/dsheirer/audio/convert/MP3AudioConverter.java:62-115 | the resampler (if any) sees the packet list once; the encoder's calls and the result are those of the conversion of the resampled (or unchanged) packets, each packet encoded as the PCM bytes of its own conversion |
| Mp3Converter.MP3AudioConverter.ConvertPackets | src/main/java/io/github/dsheirer/audio/convert/MP3AudioConverter.java:73-104 | the packet loop leaves the encoder history and list the packet specification gives |
| Mp3Converter.MP3AudioConverter.EncodePacket | src/main/java/io/github/dsheirer/audio/convert/MP3AudioConverter.java:77-103 | the chunk loop inside its try leaves the encoder history and list the chunk specification gives |
| Mp3Converter.MP3AudioConverter.EncodeChunk | src/main/java/io/github/dsheirer/audio/convert/MP3AudioConverter.java:87-97 | one encodeBuffer call on the chunk; an entry is appended exactly when bytes were written, and it is a copy of those bytes |
| Mp3Converter.MP3AudioConverter.Flush | src/main/java/io/github/dsheirer/audio/convert/MP3AudioConverter.java:117-132 | makes one finish call into a getMP3BufferSize() buffer; returns an empty list when nothing was written, else a singleton of exactly the written bytes; an encoder exception propagates |
| Mp3Silence.Merge | src/main/java/io/github/dsheirer/audio/convert/MP3SilenceGenerator.java:86-106 | merge is null exactly when both inputs are; its bytes are a's followed by b's, a null side contributing none |
| Mp3Silence.Align | src/main/java/io/github/dsheirer/audio/convert/MP3SilenceGenerator.java:61-83 | reference definition: generate's branches on the merged carry and encoded bytes, as the released bytes and the new carry |
| Mp3Silence.AlignConserves | src/main/java/io/github/dsheirer/audio/convert/MP3SilenceGenerator.java:61-80 | released bytes followed by the new carry are the old carry followed by the encoded bytes |
| Mp3Silence.AlignReleasesWholeFrames | src/main/java/io/github/dsheirer/audio/convert/MP3SilenceGenerator.java:63-80 | a release happens exactly when at least 144 bytes are merged, is a positive multiple of 144 and is all whole frames of the merged data |
| Mp3Silence.AlignKeepsPartialFrame | src/main/java/io/github/dsheirer/audio/convert/MP3SilenceGenerator.java:63-80 | the carry stays null or 1 to 143 bytes: the merged length modulo 144 |
| Mp3Silence.AlignOfNothing | src/main/java/io/github/dsheirer/audio/convert/MP3SilenceGenerator.java:63-83 | with nothing merged, generate releases nothing and leaves the carry alone |
| Mp3Silence.Session | src/main/java/io/github/dsheirer/audio/convert/MP3SilenceGenerator.java:52-84 | reference definition: successive generate calls, each aligning the carry left by the previous one |
| Mp3Silence.SessionConserves | src/main/java/io/github/dsheirer/audio/convert/MP3SilenceGenerator.java:61-80 | over any run of calls the released bytes followed by the final carry are the initial carry followed by all encoded bytes |
| Mp3Silence.SessionAligns | src/main/java/io/github/dsheirer/audio/convert/MP3SilenceGenerator.java:61-80 | over any run of calls the released bytes are whole frames and the final carry is a partial frame |
| Mp3Silence.ThreeCallExample | src/main/java/io/github/dsheirer/audio/convert/MP3SilenceGenerator.java:61-80 | encoded lengths 100, 50, 200 from no carry release nothing, 144 and 144 bytes and carry 100, 6 and 62 |
| Mp3Silence.MP3SilenceGenerator.constructor | src/main/java/io/github/dsheirer/audio/convert/MP3SilenceGenerator.java:41-45 | builds the converter for the rate with no carry |
| Mp3Silence.MP3SilenceGenerator.Generate | src/main/java/io/github/dsheirer/audio/convert/MP3SilenceGenerator.java:52-84 | converts one packet of `length` zero samples; an encoder exception propagates and leaves the carry alone; otherwise the result and the new carry are the frame alignment of the old carry and the encoded bytes |

## Left out

- Float arithmetic: the DC filter is over reals. `0.007f`, float division and rounding are not modelled; the 0/0 NaN is.
- `AirspyBufferIterator.SCALE_SIGNED_12_BIT_TO_FLOAT` is not part of this model; it is the constructor parameter `scale`.
- `ByteNativeBuffer`'s constructor is not part of this model; the result is the record (copy, timestamp, bias).
- SIMD hardware: a lane group is a loop over L lanes, `loopBound(n) = n - n % L`, and `reduceLanes(ADD)` is a 16-bit wrapping sum.
- LAME internals, `LameFactory` and `RealResampler` are foreign libraries. They are oracles whose answers may be any function of the calls made so far.
- A PCM buffer size of 0 is excluded (`LameEncoder.Valid` requires it to be positive). With size 0, `inputChunkSize` stays 0 and the chunk loop of `convert` (MP3AudioConverter.java:79-89) never advances, so a non-empty packet loops until `encodeBuffer` throws. The model does not capture that non-terminating case.
- Negative return codes of LAME are not modelled: an answer is bytes written (at most the buffer length) or an exception.
- `ConversionUtils.convertToSigned16BitSamples` is a foreign float conversion; it is the parameter `toSigned16`.
- `MP3Setting` and `AudioSampleRate`'s audio formats are constant tables; the rate is an enumeration of the three rates.
- Logging (`mLog`), `MP3FrameInspector` and the `main` benchmark methods are not modelled.
- Mp3Silence.MP3SilenceGenerator.Generate: takes the number of silent samples, not the duration in milliseconds, because converting the duration is floating point.
- Mp3Silence.MP3SilenceGenerator.Generate: `convert`'s `List<byte[]>` is assigned to a `byte[]` in the code. The model lays the list's blocks end to end (`Concat`) rather than modelling the type mismatch.
- Mp3Converter.MP3AudioConverter.EncodePacket: takes each packet's PCM bytes as a value, not an array, since they are only read.
- Mp3Converter.MP3AudioConverter.Convert: the list entries are values, so the aliasing-freedom of `Arrays.copyOf` (later reuse of the output buffer cannot change an entry) holds by construction rather than being proved.
- Mp3Converter.MP3AudioConverter.Convert: the exception scope and the chunk and call counts are stated by the lemmas about `EncodeFrom`, `EncodePackets` and `ConvertRun`, not by the method's own contract.
- ScalarPacked.ScalarPackedSampleConverter.Convert: the order of the reads is not stated. The contract states the values read, that the buffer is not changed, and that any read at or past the limit throws.
- VectorUnpacked.VectorUnpackedSampleConverter.Convert: that each output index is written once is not stated. The contract states the final contents of every index.
- `ByteBuffer.wrap` is modelled only as the constructor `Nio.ByteBuffer.Wrap`, which builds the buffers the converters read; its only caller in the repository is a `main` benchmark.
- The loops of `convert` in both Airspy converters, and of `MP3AudioConverter.convert`, are split into helper methods for one loop pass each (`ConvertTriple`, `ConvertGroup`, `FillScratch`, `EncodeChunk`).

## Findings

| source | as written | input that shows it | evidently intended | confidence | as-written member | corrected member |
|---|---|---|---|---|---|---|
| src/main/java/io/github/dsheirer/buffer/airspy/ScalarPackedSampleConverter.java:50-54 | both values of a triple are stored at `samples[x]`, so the first is overwritten and odd slots stay 0 | bytes 0x12 0x34 0x56 give [0x456, 0] | `samples[x + 1]` for the second value, giving [0x123, 0x456], the inverse of the 12-bit packing | high; not executed | ScalarPacked.AsWrittenLosesFirstValue | ScalarPacked.Unpack12RoundTrip |
| src/main/java/io/github/dsheirer/buffer/airspy/VectorUnpackedSampleConverter.java:68 | `reduceLanes(ADD)` on a `ShortVector` sums in 16 bits, so a group of more than 8 lanes can wrap | 16 lanes (256-bit vectors), 32 bytes of 0xFF: the samples add up to 65520, the accumulator gets -16 | the exact sum of the group's lanes, e.g. widened before the reduction | medium (needs a lane count above 8); not executed | VectorUnpacked.WrappedGroupLosesOverflow | VectorUnpacked.CorrectedAccumulatorIsSum |
| src/main/java/io/github/dsheirer/buffer/airspy/ScalarPackedSampleConverter.java:59-62 | the mean `dcAccumulator / samples.length` is taken even for an empty buffer, and the float 0/0 is NaN, which every later update keeps | a buffer of capacity 0 (the same holds for both other converters) | an empty buffer leaves the running bias unchanged | medium (needs an empty buffer); not executed | DcFilter.EmptyBufferPoisonsBias | DcFilter.GuardedStaysFinite |

The converters' methods model the code as written. The corrected definitions
are `Unpack12` (whose sum the scalar accumulator already computes, see
`ScalarPacked.TripleSumIsSum`), `CorrectedAccumulator` and `GuardedUpdate`;
the lemmas prove the intended properties about them.
