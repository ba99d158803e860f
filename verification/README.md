# yEnc codec: a verified model

A Dafny 4.11 model of a yEnc codec written in Go: the incremental decoder and encoder, their AVX2
forms, the CRC-32 arithmetic that lets four streams share the work, and the objects around them: the
stream encoder, the body of an NNTP response, and the buffer between the network and the decoder.

Each fast form is an imperative method over arrays, with the source's branches, lookahead, step-backs,
overlapping stores and rewinds, proved against a byte-at-a-time reference. What the codec is for is then
proved about the references.

| files | what they hold |
|---|---|
| `YencMachine`, `YencFormat`, `GenericDecoder` | the seven-state byte machine with its two ends; what a body means, position by position; decodeGeneric |
| `BitMasks`, `CompactLut`, `MachineWindows`, `Avx2Decoder`, `SimdDecoder` | fixEqMask, the compaction table, the 64-byte kernel, the driver |
| `ColumnEncoder`, `EncodedForm`, `EncodingLaws`, `GenericEncoder` | the column automaton, lazy and eager; the layout of its output; round trip, line shape, length, splitting; encodeGeneric |
| `Expansion`, `ExpandTables`, `Avx2Cursor`, `Avx2Encoder`, `SimdEncoder` | both expansions, both rewinds, where the kernel stops, the kernel, the driver |
| `Crc32`, `CrcPolynomial`, `CrcCombine`, `CrcMultiStream` | the register, its value as a remainder, multiplication modulo the CRC polynomial, the four streams |
| `Bytes`, `Words` | bytes, 64-bit words, and what both sides share |
| `YencHeaders`, `EncoderWriter`, `ResponseBody`, `UuBody` | the lines around a body, written and read; Encoder; Response with either kind of body |
| `Deliveries`, `ReadBuffers`, `EndToEnd` | what a reader brings, readBuffer, and what a reader of an encoder's output gets |

`dafny verify dfyconfig.toml` checks everything.

## How to read it

A decoder's contract is the predicate `YencMachine.Decodes`. decodeGeneric leaves a CR LF at the very end
of its input unconsumed and the vector driver may stop elsewhere, so the contract is not that everything
is consumed: either the machine's end was met at the machine's own position, or everything the machine
emits was emitted and the bytes left over take the returned state, silently, to where the machine is.
`Resume` turns that into an equation for every continuation.

The lazy automaton of `ColumnEncoder` breaks a line when the next byte arrives, as encodeGeneric does; the
eager one breaks it as soon as it is full, as the AVX2 kernel does. Its column `Filled` is the state
that encodeGeneric cannot express in its column counter.

Four definitions that everything else refers to are tied to statements in plain numbers that do not
refer to them: the machine to `YencFormat.DecodeMeans`, which says for every byte position what it stands
for and where a body ends; the automaton to `EncodedForm.EncodeIsLayout` and `EncodedPlaced`, by which
nothing is escaped that need not be; the shift register to `CrcPolynomial.RegisterIsRemainder`, long
division by the polynomial with its fifteen exponents; and the header's and the trailer's lines to
`YencHeaders.LinesExample` and to what processYencHeader reads out of them.

Lanes are sequences, and a lane mask is a sequence of booleans except where an addition carries across
lanes (`FixEqMask`, on 64-bit words). Labels reached by goto are loops or methods.

## What turned out not to hold, and exactly when it does

* Encoding in two calls, the second of something, is encoding in one exactly when the first does not end
  on a last-column byte (`EncodingLaws.SplitLaw`, and `SplitExample` for an input); a stream of one-byte
  calls that reaches the last column never breaks a line again (`ByteCallsNeverBreak`).
* The AVX2 encoder writes one line break more than encodeGeneric, exactly when its kernel consumes
  everything (`SimdEncoder.AgainstGeneric`). That is when the last 65 bytes are a line, a batch is loaded
  at its start, and none is loaded too late to be reloaded before it (`Avx2Cursor.TakesAllWhen`, in terms
  of the line size, the column and the source): only with lines of 65 to 129 columns (`TakesAllOnly`), and
  `TakesAllExample` is an input. The driver's test for a trailing blank is then never true.
* decodeYenc gives back three bytes at a terminator, which is more than it was given exactly when
  the terminator is split over two slices: `ResponseBody.TerminatorGivenBack`, and `SplitExample` for an
  input. At a control line it never is. Over a whole call, where every delivery is read at once and Data
  takes all that is read, that is exactly when a delivery ends inside the terminator:
  `ReadBuffers.ArticleWhen`, and `SplitRunExample` for two runs.
* decodeYenc makes no progress on a slice exactly when the slice is a lone `=` at a line's start, or a
  lone CR LF in a state that scans it: `ResponseBody.ProgressUnlessStuck`, and `StuckExample` for both. Where
  a buffer that is not full has room for just those bytes, longer input does not help
  (`ReadBuffers.ReadBuffer.CutShortStays`), and the read fails in the end. A buffer with room for the body
  and three bytes more never comes to that (`RoomForAll`); one with room for the body and one byte more
  always does, however the body is delivered (`ReadBuffers.NeverDelivered`, and `EndToEnd.CutShortExample`
  for a run). With headers that tell the part's size, a part of 10 MiB less one byte is such a body in
  the buffer made for it, and parts smaller by two bytes or more never are (`EndToEnd.HonestHeaders`).
* A body whose bytes have all arrived need not be delivered: those that come with a read error stay in the
  window undecoded. Where the delivery with the first error is one that a single read returns, the end of a
  body is found exactly when the bytes before that delivery hold it, unless the response is cut short
  (`ReadBuffers.DeliveredWhen`). Of a delivery too large for one read the last piece is lost; then
  `BodyDelivered` and `NothingDelivered` bound from both sides what is found. `LossExample` is a body lost
  with its error.
* No line of a closed encoder's output ends in a raw tab or space, exactly when no blank was let go by a
  final Write of nothing: `EncoderWriter.WriteAll`, for every run of Writes and either encoder, and
  `EmptyWriteExample` for an input.

## Model

| member | source | states |
|---|---|---|
| YencMachine.Resume | decoder_generic.go:3-230 | A call that keeps the decoder's promise can be resumed: whatever follows, decoding input and continuation at once is the call's output followed by decoding the unconsumed bytes and the continuation; at an end, nothing after it matters. |
| YencMachine.DecodersAgree | decoder_simd.go:10-136 | Two decoders keeping the promise on one input give the same bytes and the same end, at an end the same position and state, and otherwise equal decodings of every continuation from where each stopped. |
| YencMachine.DecodeConcat | decoder.go:82-106 | The machine over a concatenation is the machine over the first part, continued in the state it reached, or stopped where it stopped. |
| YencFormat.DecodeMeans | decoder.go:82-106 | For every body, in plain numbers and by position: a byte after an unescaped 61 stands for itself less 106; 13, 10, 61 and a 46 right after 13 10 for nothing; any other for itself less 42; and decoding stops right after the first 61 121 or the first 46 13 10 at a line's start, and nowhere else. |
| YencFormat.EnteredMeans | decoder_generic.go:21-104 | Every state is one that bytes meaning nothing lead to from the start, so decoding from it is part of decoding a body. |
| GenericDecoder.EnterState | decoder_generic.go:21-104 | The jump into any of the seven states ends either with the promise kept and all input used or an end met, or at the scanning loop with nothing pending that the loop cannot see. |
| GenericDecoder.NewlineAhead | decoder_generic.go:110-164 | The lookahead at CR LF finds exactly the machine's ends and line-start sequences; where it goes on, its step-backs leave the loop on the next byte to scan. |
| GenericDecoder.DotAhead | decoder_generic.go:112-146 | After a line's first dot: the terminator ends the article, `=` starts a control line or an escape, and any other byte is decoded with the dot removed. |
| GenericDecoder.EscapeAhead | decoder_generic.go:129-143 | After a line's first `=`: a `y` ends the body, any other byte is emitted unescaped, and a CR is looked at again. |
| GenericDecoder.EscapedByte | decoder_generic.go:167-174 | An escape pair emits one byte; an escaped CR is re-examined and still counts as CR. |
| GenericDecoder.ScanBody | decoder_generic.go:106-179 | The scanning loop terminates despite its step-backs and follows the machine. |
| GenericDecoder.ScanTail | decoder_generic.go:181-229 | The last two bytes, each with the lookahead left to it; exactly a final CR LF is given back. |
| GenericDecoder.NewlineHeldBack | decoder_generic.go:186-190 | Giving back a final CR LF in StateCRLF keeps the promise. |
| GenericDecoder.DecodeGeneric | decoder_generic.go:3-230 | For every state and source decodeGeneric keeps the promise, produces no more than it consumes, writes nothing but its output, and leaves unconsumed nothing but a final CR LF. |
| BitMasks.FixEqMaskRecurs | decoder_simd_amd64.go:397-413 | The addition's carry chain solves the scan's recurrence on a whole word: a bit is kept exactly if it is set and its lower neighbour, or the carry, is not kept. |
| BitMasks.FixEqMaskMarksStarters | decoder_simd_amd64.go:397-413 | For every 64-lane mask and carry, fixEqMask marks exactly the `=` bytes a left-to-right scan takes as escape characters. |
| BitMasks.ApartAreStarters | decoder_simd_amd64.go:325-344 | Where no `=` follows another or the carry, every `=` is an escape character, so fixEqMask may be skipped. |
| BitMasks.ChainedIsScan | decoder_simd_amd64.go:325-344 | Over any number of blocks, each taking the last one's bit 63 as its carry and some taking the short cut, the chained masks are one scan of the whole. |
| CompactLut.BuildCompactLut | decoder_simd_amd64.go:45-60 | The in-place loops fill every one of the 32768 rows with the lanes its mask leaves clear, in order, then lanes to drop. |
| CompactLut.RowCompacts | decoder_simd_amd64.go:369-376 | Shuffling 16 bytes by their mask's row brings the unmasked bytes to the front, in order. |
| CompactLut.FifteenBitsSuffice | decoder_simd_amd64.go:372-373 | Ignoring the 16th mask bit changes only bytes past the unmasked ones. |
| CompactLut.StoreCompacted | decoder_simd_amd64.go:369-389 | Four overlapping 16-byte stores leave exactly the unmasked bytes of the block in order, as many as popcount says, and touch nothing outside the 64 bytes. |
| MachineWindows.NoEndYet | decoder_simd_amd64.go:225-273 | Where no end sequence begins in the window the machine takes its step without stopping. |
| MachineWindows.SeenNext | decoder_simd_amd64.go:195-323 | What a block needs to know of the machine's state at a lane is determined by the bytes before it, and survives a step. |
| Avx2Decoder.SpecialLaneIsMembership | decoder_simd_amd64.go:67-82 | Shuffle, minimum and comparison select exactly CR, LF and `=`, and a dot exactly in the lane a minimum of 0 marks. |
| Avx2Decoder.MatchEndIsEnd | decoder_simd_amd64.go:238-255 | The 16-bit `=y` comparisons and shifts match, lane by lane, exactly the four sequences that end a body. |
| Avx2Decoder.LineStarts | decoder_simd_amd64.go:289-323 | Marks exactly the dots to strip inside the block and finds whether a control line is in it. |
| Avx2Decoder.MarkDots | decoder_simd_amd64.go:195-323 | A block is either given up because an end begins in it, or its stuffed dots join the mask and the next block's minimum knows about a dot at its edge. |
| Avx2Decoder.Unescape | decoder_simd_amd64.go:325-367 | Both ways to the escaped lanes agree: escaped bytes leave the mask and get -106, all others -42, the carry included. |
| Avx2Decoder.LanesRun | decoder_simd_amd64.go:166-391 | Lanes computed in parallel are the machine's 64 steps: the unmasked values are what it emits. |
| Avx2Decoder.DecodeBlocks | decoder_simd_amd64.go:109-393 | For every source, escape carry and line-start mask, the kernel's output and cursor are the machine's, and the two values it returns describe the machine's state there. It stops at the first block in which an end begins, or where no whole block with four bytes behind it is left; all stores stay within what it consumes. |
| SimdDecoder.EntryChecks | decoder_simd.go:53-103 | The driver's look at the first bytes meets an end exactly where the machine does within them, and otherwise translates the state for the kernel. |
| SimdDecoder.Handover | decoder_simd.go:116-125 | The state rebuilt from the kernel's two return values continues as the machine would. |
| SimdDecoder.DecodeSimd | decoder_simd.go:10-136 | For every source, state and alignment of the source, prefix, kernel and scalar tail together keep the decoder's promise, write nothing outside the source's length, and leave unconsumed nothing but a final CR LF. |
| ColumnEncoder.EncodeConcat | encoder_generic.go:36-144 | The automaton over a concatenation is the automaton over the parts with the column carried. |
| ColumnEncoder.EagerIsSettled | encoder_simd_amd64.go:118-428 | The eager encoder is the lazy one plus the break of a line that is full. |
| ColumnEncoder.EagerThenLazy | encoder_simd.go:28-45 | Encoding a front eagerly and the rest lazily is encoding all of it lazily. |
| EncodedForm.EncodeIsLayout | encoder_generic.go:36-144 | For every line size, start column and source the output is a layout given in plain numbers, from the front: a byte takes two columns, 61 and itself plus 106, exactly where its plain form must not stand; a break, 13 10, comes where a line is full and a byte follows. |
| EncodedForm.EncodedPlaced | encoder_generic.go:44-128 | Read off the output: a 61 stands only before a byte whose plain form is 0, 10, 13 or 61, or 9 or 32 in a line's first or last column, or 46 in its first; no such byte stands plain; and lines break where they are full and nowhere else. |
| EncodedForm.ClosedForm | encoder_generic.go:131-140 | doEnd escapes a 9 or 32 in the last place and changes nothing else. |
| EncodingLaws.EncodedDecodes | encoder_generic.go:36-144 | From every start column the encoding of every source decodes to that source, with no end and no dot removed on the way. |
| EncodingLaws.ClosedDecodes | encoder_generic.go:131-140 | Escaping a blank in the last place changes the encoding and not what it decodes to. |
| EncodingLaws.RoundTrip | encoder_generic.go:36-144 | For every source, line size and doEnd: the encoding followed by a control line decodes to exactly the source and stops just after its `=y`. |
| EncodingLaws.ControlLineEnds | decoder_generic.go:148-156 | 13 10 61 121 101 110 100 after any body that has not ended, at a line's end or inside one, stops the decoder four bytes on, with what the body decodes to. |
| EncodingLaws.EncodedLength | encoder.go:198-211 | From every column, n bytes encode to at most 2n + 2 + 2 (2n / lineSize). |
| EncodingLaws.LineShape | encoder_generic.go:44-129 | From column 0 the output is lines joined by CR LF: completed ones have lineSize or lineSize + 1 bytes and no blank at their end, CR, LF and NUL occur in none, and none starts with a dot, tab or space. |
| EncodingLaws.ClosedShape | encoder_generic.go:131-140 | With doEnd the last line ends in no raw tab or space either. |
| EncodingLaws.SplitLaw | encoder_generic.go:101-115 | Two calls, the second of something, give the bytes of one if and only if the first does not end on a last-column byte. |
| EncodingLaws.SplitExample | encoder_generic.go:101-115 | Three zeros in lines of two columns: one call breaks the line, two calls do not. |
| EncodingLaws.ByteCallsNeverBreak | encoder_generic.go:101-115 | One-byte calls from the last column on write no line break, however many follow. |
| GenericEncoder.LutsDecide | encoder_generic.go:9-30 | A table entry is 0 exactly for the bytes its rule says, and otherwise holds the bytes to write. |
| GenericEncoder.PutBreak | encoder_generic.go:117-128 | One four-byte store writes the break and the line's first byte, escaped if need be. |
| GenericEncoder.MaxLengthSuffices | encoder.go:198-211 | maxLength leaves room for every encoding from every column, and for the widest store past its end. |
| GenericEncoder.Batches | encoder_generic.go:58-82 | Batches of eight that ignore the column, and the rewind of one that overshot, leave the automaton's bytes and column. |
| GenericEncoder.FillLine | encoder_generic.go:84-99 | Byte by byte to the column before the last, or to the end of the source. |
| GenericEncoder.EndLine | encoder_generic.go:101-128 | The last column's byte, unless an escape pair covered it, then the break and the next line's first byte. |
| GenericEncoder.EncodeGeneric | encoder_generic.go:36-144 | For every line size, start column and source, the bytes are the automaton's, every store is in bounds, and the column left forgets only that a last-column byte filled the line. |
| Expansion.CutIsUnique | encoder_simd_amd64.go:287-304 | At most one number of source bytes expands to a given width without splitting an escape pair. |
| Expansion.MarksCut | encoder_simd_amd64.go:287-304 | Counting marks behind a point, and stepping back one byte where the point is inside a pair, finds that number. |
| Expansion.OneFlagCut | encoder_simd_amd64.go:354-374 | With at most one escape, comparing with its distance from the end finds the same number. |
| ExpandTables.BuildExpandLut | encoder_simd_amd64.go:59-76 | The in-place loops fill all 65536 rows with the lanes' indices, a marker before every flagged one. |
| ExpandTables.RowExpands | encoder_simd_amd64.go:265-275 | Shuffling 16 bytes by their row and merging `=` at its markers is their byte-by-byte expansion. |
| ExpandTables.StoreExpanded | encoder_simd_amd64.go:277-285 | Four overlapping 32-byte stores leave the whole expansion of 64 bytes. |
| ExpandTables.EqMaskIsMarks | encoder_simd_amd64.go:287-297 | The shifted sign masks are, bit for bit, the marks of where `=` stands in the expansion. |
| ExpandTables.FastExpands | encoder_simd_amd64.go:320-350 | With at most one escape, blending with the load shifted by one, the additive table and the spilled byte is the same expansion. |
| ExpandTables.StoreEol | encoder_simd_amd64.go:397-405 | The table word's four bytes are the last column's encoding and a break, and its bit 27 the width. |
| ExpandTables.EscapeFlagIsMembership | encoder_simd_amd64.go:104-112 | Absolute value, saturated addition and shuffle select exactly the bytes escaped inside a line, and in a line's first lane those escaped there. |
| Avx2Encoder.SlowRewind | encoder_simd_amd64.go:287-304 | The popcount arithmetic over both halves lands on the unique cut. |
| Avx2Encoder.FastRewind | encoder_simd_amd64.go:354-374 | So does the arithmetic with leading zeros. |
| Avx2Encoder.ExpandBatch | encoder_simd_amd64.go:227-352 | Either path writes the 64 bytes' expansion as if inside a line. |
| Avx2Encoder.CutEager | encoder_simd_amd64.go:287-304 | The bytes in front of the cut are the eager encoder's, up to its last column. |
| Avx2Encoder.CutIsLineEnd | encoder_simd_amd64.go:287-310 | Where a batch overflows, the cut is where the eager automaton ends the line. |
| Avx2Encoder.EncodeBlocks | encoder_simd_amd64.go:118-428 | For every line size, start column and source, the kernel consumes exactly what the cursor walk of Avx2Cursor says, has written the eager encoding of it, in bounds, and if it consumed everything it stands at column 0. |
| Avx2Cursor.TakesAllWhen | encoder_simd_amd64.go:118-428 | The kernel consumes everything if and only if the source ends with a line of 65 bytes that starts where a batch is loaded, and no batch before it is left without the bytes for another: a condition on line size, column and source alone. |
| Avx2Cursor.TakesAllOnly | encoder_simd_amd64.go:211-214 | So it can only with lines of 65 to 129 columns. |
| Avx2Cursor.TakesAllExample | encoder_simd_amd64.go:395-428 | 130 zeros in lines of 65 columns: it does. |
| Avx2Cursor.LeavesExample | encoder_simd_amd64.go:211-223 | 129 zeros in lines of 65 columns from column 1 end with such a line, and are not taken: one byte too few for the first batch. |
| SimdEncoder.EncodeSimd | encoder_simd.go:5-46 | What encodeGeneric delivers, unless the kernel takes everything; then the lazy encoding of a full line, one break more, and column 0. An empty source leaves everything as it was. |
| SimdEncoder.AgainstGeneric | encoder_simd.go:28-45 | The same bytes as encodeGeneric if and only if the kernel does not take everything, and then the same column; otherwise exactly one CR LF more and column 0, and only with lines of 65 to 129 columns. |
| SimdEncoder.FullEndsUnblank | encoder_simd.go:30-41 | Where the kernel took everything there is no trailing blank to escape. |
| EndToEnd.VectorRoundTrip | encoder_simd.go:5-46 | The vector encoder's output, extra break or not, decodes to the source and stops at the control line. |
| Crc32.RawIsRegister | crc32_combine.go:28-34 | The register over bytes is the shift register fed one message bit at a time, as section 8 of RFC 1952 orders them. |
| CrcPolynomial.PolyBits | crc32_combine.go:29-34 | Bit 31 - k of the register's polynomial is the coefficient of x^k, for the exponents 32, 26, 23, 22, 16, 12, 11, 10, 8, 7, 5, 4, 2, 1 and 0. |
| CrcPolynomial.RegisterIsRemainder | crc32_combine.go:18-28 | From every start value and for every message the register is the remainder of a long division by that polynomial: of the message times x^32, the start value added to its head. |
| CrcPolynomial.CheckValue | crc32_multistream_other.go:7-10 | The checksum of the digits 1 to 9 is CBF43926. |
| Crc32.TableStep | crc32_combine.go:29-34 | A table look-up and a shift are eight steps of the register. |
| Crc32.RawUpdate | crc32_combine.go:28-34 | The loop over the table computes the register's value after every byte. |
| Crc32.RawConcat | crc32_combine.go:24 | raw(init, a followed by b) is raw(raw(init, a), b). |
| Crc32.RawSplits | crc32_combine.go:25 | raw(init, data) is raw(init, zeros) plus raw(0, data). |
| Crc32.UpdateConcat | crc32_multistream_other.go:7-10 | The checksum of a concatenation continues from the checksum of its first part. |
| CrcCombine.Clmul32 | crc32_clmul_generic.go:6-15 | The 32 conditional shifts compute the product of polynomials over GF(2). |
| CrcCombine.ProductSwap | crc32_clmul_generic.go:5-15 | The carry-less product is commutative. |
| CrcCombine.ProductLinear | crc32_clmul_generic.go:5-15 | And linear in its first argument, hence in both. |
| CrcCombine.ReduceHalf | crc32_combine.go:38-41 | Running the low word through the register and adding the high word is reduction: halving an even product is one step of the register. |
| CrcCombine.ProductIsTimes | crc32_combine.go:37-41 | What crcMul computes is multiplication modulo the CRC polynomial, defined by Horner's rule. |
| CrcCombine.CrcMul | crc32_combine.go:37-41 | The method is that multiplication, for all registers. |
| CrcCombine.TimesSwap | crc32_combine.go:36-41 | It is commutative, with 0x80000000 as its unit. |
| CrcCombine.TimesAssoc | crc32_combine.go:36-41 | And associative. |
| CrcCombine.TimesStep | crc32_combine.go:27-28 | And commutes with the one-bit step. |
| CrcCombine.TimesShifts | crc32_combine.go:27-47 | crcMul(a, shiftZeros(0x80000000, n)) is shiftZeros(a, n), for every register and every n. |
| CrcCombine.ShiftZeros | crc32_combine.go:44-47 | The register after n zero bytes. |
| CrcMultiStream.InstructionIsRaw | crc32_multistream_arm64.s:31-43 | CRC32X on a little-endian word is the register over its eight bytes. |
| CrcMultiStream.Crc32IeeeQuad | crc32_multistream_arm64.s:12-48 | The interleaved loop advances each of four registers over its own quarter. |
| CrcMultiStream.Combine | crc32_combine.go:27-28 | A register moves over a block as its product with the block length's factor, plus the block's own register. |
| CrcMultiStream.InitQuarterK | crc32_multistream_arm64.go:22-27 | Each factor is 1 moved over its quarter length. |
| CrcMultiStream.CrcUpdate | crc32_multistream_arm64.go:33-52 | For every initial value and every length, through both chunk sizes and the remainder, it is the plain CRC. |
| EncoderWriter.WriteCarries | encoder.go:110-147 | After a Write of something, through either encoder, body and held byte still decode to all bytes written, whether the held byte will be escaped or not, and no blank stands unheld at the end. |
| EncoderWriter.EmptyWriteCarries | encoder.go:110-118 | A Write of nothing keeps the payload, but lets a held blank go where a Close would leave it raw before a line break. |
| EncoderWriter.EmptyWriteExample | encoder.go:110-118 | A byte, a byte that encodes to a tab, and a Write of nothing leave a raw tab before the trailer's line break. |
| EncoderWriter.EncodedBreaks | encoder_generic.go:84-129 | Encoding on from any column after text whose lines end in no blank ends no line in a blank, however the calls were split. |
| EncoderWriter.ClosedCarries | encoder.go:163-172 | The closed body decodes to the payload and stops at the control line after it, and its lines, the last included, end in no raw blank if and only if a blank was held and so escaped, or the body does not end in one. |
| EncoderWriter.Encoder.Write | encoder.go:92-150 | The payload grows by p, with its checksum and count, and body and held byte by exactly what p encodes to, in a scalar build and in a vector build; a blank is let go exactly by a Write of nothing after a held one. |
| EncoderWriter.Encoder.Close | encoder.go:154-183 | What is written in the end, and that the error says exactly whether the declared size was met. |
| EncoderWriter.Encoder.Reset | encoder.go:67-86 | A metadata field out of its bounds is refused, unless headers are off, and changes nothing; otherwise back to a new encoder's state, over any writer. |
| YencHeaders.HexReads | encoder.go:170 | The digits of %0*x read from left to right as the number, in exactly so many places. |
| YencHeaders.DecimalReads | encoder.go:185-196 | The digits of %d read back as the number, for every number of 64 bits. |
| YencHeaders.TrailerBegins | encoder.go:170 | The trailer begins with the bytes of CR LF `=yend size=`. |
| YencHeaders.LinesExample | encoder.go:185-196 | The three lines around a part that is the byte `a`, byte by byte. |
| YencHeaders.BeginReads | response.go:498-509 | Of the first line processYencHeader reads the sizes and numbers written, and the name if and only if it has no NUL, CR or LF. |
| YencHeaders.PartReads | response.go:510-524 | Of the second line, the part's offset and size. |
| YencHeaders.EndReads | response.go:525-536 | Of the last line, the checksum and the size. |
| YencHeaders.SingleReads | response.go:498-509 | Of a file in one part, the size, and that its body follows, unless a part number can be seen in its name. |
| YencHeaders.WholeFileReads | response.go:525-536 | Of its last line, a checksum under the other key, in either case and of up to eight digits. |
| YencHeaders.IntMeans | response.go:553-565 | ParseInt of digits, with a sign or without, is the number or the nearest of 64 bits. |
| YencHeaders.ReadLines | response.go:497-537 | The three lines written and read give the metadata back, and metaError accepts the part exactly with its size and its checksum. |
| YencHeaders.HeaderReader.MetaError | response.go:50-70 | A part is accepted exactly with both its lines, its size, declared by part or by file, and its checksum, if one was declared. |
| EncoderWriter.ClosedOutput | encoder.go:154-183 | Between header and trailer stands a body that decodes to the concatenated Writes and stops at the trailer, which has their checksum; no line ends in a raw blank exactly when none was let go. |
| EncoderWriter.WriteAll | encoder.go:92-183 | For every metadata and every sequence of Writes, none and empty ones included: the body is all that the Writes encode to, a blank at its very end escaped unless it was let go; what stands around it, that it decodes to the concatenation, its checksum and verdict, and that a line ends in a raw blank if and only if the last Write of something encoded to one at its end and only Writes of nothing followed. |
| ResponseBody.BackUpKeepsFaith | response.go:368-383 | Whatever decoder was called: while the body goes on, backing up over an `=` at a line's start and replaying it from StateCRLF is where the machine is; at an end the marker is given back. |
| ResponseBody.BackUpLeaves | response.go:368-374 | While the body goes on, what is not consumed is nothing, a final `=` or a final CR LF, and no more was decoded than was consumed. |
| ResponseBody.ControlIsSilent | response.go:375-378 | A slice that a control line ends decodes to at least two bytes fewer than it used. |
| ResponseBody.ControlGivenBack | response.go:375-378 | The bytes 3D 79 of a control line are in the slice it ends. |
| ResponseBody.TerminatorGivenBack | response.go:379-382 | The terminator's three bytes are in the slice if and only if it was not entered in the middle of the terminator. |
| ResponseBody.SplitExample | response.go:379-382 | A slice holding only the terminator's last byte is reported as -2 bytes consumed. |
| ResponseBody.ProgressUnlessStuck | response.go:360-374 | With either decoder nothing is consumed if and only if the slice is a lone `=` at a line's start or a lone CR LF in a state that scans it. |
| ResponseBody.StuckExample | response.go:360-374 | A lone `=` from StateCRLF and a lone CR LF from StateNone are decoded to nothing and given back whole. |
| ResponseBody.OnwardFed | response.go:346-386 | One call on any leading part of what was not consumed moves the decoding of the whole stream on, or ends it with all it decodes to. |
| ResponseBody.ControlBegins | response.go:375-378 | At a control line the unconsumed stream starts with `=y`. |
| ResponseBody.SplitIsSomewhere | response.go:379-382 | Only a split terminator makes decodeYenc give back more than it was given. |
| ResponseBody.Response.ComputeExpectedSize | response.go:285-301 | 64 more than the headers claim, except where that is below 1 KiB or above 10 MiB. |
| ResponseBody.Response.EnsureData | response.go:310-331 | The data stays; how much is decoded and how large the buffer is are fixed: what room is left if that is not enough for all, and a larger buffer only where none is left. |
| ResponseBody.Response.DecodeYenc | response.go:346-386 | Through the scalar or the vector decoder: the data grows by what the slice decodes to, checksum and count follow it, the report keeps faith with the machine, and while the body goes on at most a final `=` or CR LF is left. |
| UuBody.DecodeGroups | response.go:456-485 | The loop decodes group after group, and says exactly whether the line ran out first. |
| UuBody.GroupsCount | response.go:456-485 | It ran out if and only if there are fewer groups of four characters than groups of three bytes declared, and then three bytes come out for every whole group; otherwise as many as declared. |
| UuBody.GroupMeans | response.go:468-480 | The four characters' bits, highest first, are the three bytes' bits. |
| UuBody.KindMeans | response.go:410-422 | In plain numbers, which lines end a body and which are skipped. |
| UuBody.CharsRoundTrip | response.go:456-480 | Every byte sequence comes back from its groups of four characters, whether zeros are written as spaces or as backticks. |
| UuBody.LineRoundTrip | response.go:417-486 | A line of 1 to 63 bytes, uuencoded by either kind of encoder and dot-stuffed, is neither end nor junk nor bad and decodes to its bytes. |
| UuBody.CutLineIsBad | response.go:424-485 | Every shorter beginning of such a line is marked bad or as having run out, unless it is a signature. |
| UuBody.FullLineShows | response.go:404-407 | A line of 45 bytes has 61 characters and begins with `M`, so it starts a body without a begin line. |
| UuBody.NameIsTaken | response.go:391-401 | The name on a begin line, after any spaces, permissions and spaces. |
| UuBody.Response.DecodeUu | response.go:388-495 | What each kind of line does to the response, in and out of body mode. |
| UuBody.Response.DecodeLines | response.go:417-492 | For every list of such lines, exactly the concatenated data is appended and nothing is marked bad. |
| ReadBuffers.ReadBuffer.Advance | readBuffer.go:28-36 | The window loses exactly the bytes consumed. |
| ReadBuffers.ReadBuffer.Compact | readBuffer.go:38-45 | The window's bytes survive the overlapping move to the start. |
| ReadBuffers.ReadBuffer.EnsureWriteSpace | readBuffer.go:47-77 | Room for at least a byte behind the same window, or an error exactly when the window fills a buffer of 8 MiB; the buffer grows only when the window fills it, to twice its size within that. |
| ReadBuffers.ReadBuffer.ReadMore | readBuffer.go:79-88 | Exactly what the reader gave is appended, error or not. |
| Deliveries.TallyReads | readBuffer.go:79-88 | A read keeps the books: read and still to come are together what there was, an error that comes with bytes has not been met before its last one, and then what came with it is exactly what has not been fed. |
| Deliveries.PunctualReads | readBuffer.go:79-88 | Where the delivery with the first error fits behind two bytes left over, nothing of it is read before the error. |
| Deliveries.MarkedReads | readBuffer.go:90-127 | Where every delivery fits so, reads end where deliveries do. |
| Deliveries.MarkedEnds | response.go:379-382 | A feed that meets the terminator began inside it if and only if a delivery ends there. |
| ReadBuffers.ReadBuffer.FeedUntilDone | readBuffer.go:90-129 | For every script of deliveries the loop ends, with the window holding what was read and not consumed, none lost or repeated: at the end of the body, at a terminator given back too far, or with a failed read. By then the response has decoded all that came before the error, unless it was cut short, and what came with the error is in the window; of an error that comes with bytes, no end is found past the last of them, nor past the first where they are read at once. |
| ReadBuffers.ReadBuffer.CutShortStays | readBuffer.go:110-127 | A response that has room for only an `=` or a CR LF is as stuck on every longer stream. |
| ReadBuffers.ReadBuffer.RoomForAll | response.go:285-331 | It takes a buffer that does not hold the body and three bytes more. |
| ReadBuffers.BodyDelivered | readBuffer.go:90-129 | Where the bytes that come without an error hold a control line, the response gets their one-shot decoding, its checksum and its length, and the window starts at `=y`, unless the response is cut short; and it is not if its buffer takes three bytes more than the body. |
| ReadBuffers.NothingDelivered | readBuffer.go:90-129 | Where the bytes up to and with the first error hold no end, the read fails. |
| ReadBuffers.DeliveredWhen | readBuffer.go:90-129 | Where the delivery with the first error is read at once, and unless the response is cut short: an end is found if and only if the bytes before that delivery hold one, and otherwise exactly those bytes are decoded. |
| ReadBuffers.ArticleWhen | response.go:379-382 | Where every delivery is read at once and Data takes all of it: at a terminator the call gives back too much if and only if a delivery ends inside it, and otherwise ends well. |
| ReadBuffers.NeverDelivered | response.go:322-331 | A body that leaves Data room for exactly one byte is cut short, however it is delivered. |
| ReadBuffers.SplitRunExample | response.go:379-382 | The terminator alone, in one delivery and in two: only the second gives back too much. |
| ReadBuffers.LossExample | readBuffer.go:93-99 | An empty body that comes together with an error is lost, although its bytes decode to an end. |
| ReadBuffers.DecodeBody | decoder.go:58-72 | From a new response, whatever was in the window and however the rest is delivered, with either decoder: how the call ends, and the one-shot decoding if its end comes before an error and the buffer takes three bytes more. |
| EndToEnd.WrittenIsRead | encoder.go:92-183 | A closed encoder's body, read in any pieces as far as past its trailer's `=y`, arrives as the bytes written, with the encoder's own checksum and count, unless the response is cut short; it is not if its buffer takes three bytes more, and always if exactly one. |
| EndToEnd.PartAccepted | response.go:50-70 | With the header read before and the trailer after it, the checksum expected is the one computed, and the part is accepted if and only if as many bytes were written as declared, which is Close's own verdict. |
| EndToEnd.CutShortExample | response.go:322-331 | 1023 zeros in a buffer of 1024 bytes, all in one delivery: the read fails. |

## Left out

- The NEON kernels (decoder_simd_arm64.go, encoder_simd_arm64.go): a second instance of the kernels' contracts.
- The C library and its bindings: foreign code.
- Vector instructions: their lane-wise meaning is modelled, not the instructions; the mask test that picks a path is stated over lanes.
- Aliasing of source and destination: a source is a value, so decoding in place over it is not modelled.
- I/O errors of the encoder's writer, mutexes and error texts: the writer is the sequence of bytes written; the reader is a script of deliveries, each of any size and with or without an error.
- The line reader of a response (status line, format detection, cutting the stream into lines): many cases, shallow properties. FeedUntilDone therefore ends where the body does, in place of the line after it, and HeaderReader is given whole lines.
- Capacity beyond what is asked for: a buffer has exactly the length requested, where append may round it up.
- ResponseBody.Response.DecodeYenc: where a slice lies in memory is arbitrary, and chosen anew for every call.
- UuBody.Response: the source has one Response for both kinds of body. A response holds one kind, so each class has the fields its kind uses, and Data grows by append here.
- ReadBuffers.DeliveredWhen: a delivery is what one read returns; one that does not fit is handed over in pieces, with the error on the last. Which of its bytes come before the error then depends on the window, and only BodyDelivered and NothingDelivered apply.
- EncoderWriter.Encoder.Write: a writer that fails is not modelled; and the line shape of a stream written in several calls is not stated beyond its blanks, since SplitLaw shows that lines may come out longer.
- EncoderWriter.Encoder.Close: a writer that fails is not modelled.
- EncoderWriter.Encoder.Reset: the header's numbers are integers of any size; what is read back of them is stated for 64 bits.
- UuBody.NameOn: skips ASCII digits only, where the source skips every Unicode digit.
- SimdDecoder.DecodeSimd: the alignment of the source's address is a parameter.
- GenericEncoder.EncodeGeneric: the source is not empty, since at column 0 its first byte is read without a test; the line size is at least 1, as computing the buffer's length requires, and the start column at least 0.
- Crc32.Table: the table is a function, not filled in at start-up.
