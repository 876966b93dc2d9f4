# UniGif in Dafny

A model of UniGif, a GIF decoder for Unity written in C#, and proofs about
it. The model follows the decoding pipeline of the library and its example
playback component:

- **Bit reader** (`bitreader.dfy`, module `BitReader`): `GetNumeral` and
  `ToNumeral` read an n-bit value, least significant bit first, at any bit
  offset of a `BitArray`, bits past the end reading as 0.
- **Document model** (`gifconst.dfy`, module `GifConst`): the records of a
  parsed GIF file and the NETSCAPE2.0 loop count getter.
- **Block parser** (`formatter.dfy`, `formatter_props.dfy`): `SetGifData`,
  `SetGifHeader`, `SetGifBlock` and the five block readers walk a byte cursor
  through a GIF87a/GIF89a file. Each C# routine is a method proved equal to a
  function that defines the same grammar; the properties (header acceptance,
  field decoding, round trips of encoded blocks, the loop's termination and
  its failure cases, lists growing only at their end) are lemmas about those
  functions.
- **LZW decompressor** (`lzw.dfy`, `lzw_props.dfy`): `DecodeGifLZW` and
  `InitDictionary`, as a method with its loop over an output array, proved
  equal to a step function on the decoder's variables; lemmas state the
  clear and end codes, the handling of codes at or past the dictionary size,
  the width growth and the forced reset at width 12, the output framing and
  an input whose last entry overruns the output.
- **Interlace reorder** (`interlace.dfy`): `SortInterlaceGifData` with its
  four passes over an array, proved equal to a reordering function; lemmas
  state that the passes partition the positions, that every read is in
  bounds and no two positions read the same byte, and how the source's row
  counter differs from the row order of Appendix E of GIF89a.
- **Frame compositor** (`decoder.dfy`, `decoder_props.dfy`): `DecodeTexture`,
  `GetDecodedData`, `CreateTexture2D`, `SetTexturePixelRow` and the small
  per-frame getters. A frame is a sequence of RGBA pixels of the logical
  screen's size, texture row y showing GIF row height - 1 - y.
- **Entry point** (`unigif.dfy`): `GetTextureList`.
- **Playback** (`playback.dfy`): the `UniGifImage` component as a class
  whose methods update its fields: `Play`, `Stop`, `Pause`, `Resume`,
  `Clear`, the `Playing` branch of `Update`, and the state changes around
  a load.

Exceptions that escape the C# code (an index past the end of an array or
list, a member access on `null`, an allocation of negative size) are modelled
as explicit `Fault` values rather than excluded by preconditions; exceptions
that `SetGifBlock` catches become its `false` result.

The code is modelled as written, and where the GIF89a grammar and the code
part ways the code wins:

- the background colour always has alpha 255 and, without a colour table
  flag, there is no background colour at all (no black fallback);
- after a frame with disposal method 3 the next frame starts from frame
  i - 2, with no search for an earlier frame;
- a colour index past the end of the table leaves the pixel unchanged;
- the Graphic Control Extension's block size byte is stored but never
  checked;
- the source's de-interlacing assigns the first pixel of each row k >= 1 to
  row k - 1 (`Interlace.RowQuirk`, `Interlace.NarrowImage`);
- a byte that starts no known block leaves the cursor where it is, and the
  next pass of the block loop reports failure.

`UniGif.cs` and `UniGifImage.cs` call versions of `DecodeTexture` and of the
frame record that differ from the ones in the decoder; the model composes
the decoder as it is defined in `UniGifDecoder.cs`. Delays are whole
hundredths of a second, and the playback clock is an integer in the same
unit passed to `Play` and `Update`.

## Model

| member | source | states |
|---|---|---|
| Common.ToUInt16 | Assets/UniGif/UniGifFormatter.cs:76-79 | the two bytes at i and i + 1 read little-endian: the result is below 65536, its low byte is b[i] and its high byte b[i + 1] |
| BitReader.ToNumeral | Assets/UniGif/UniGifExtension.cs:39-55 | 0 for a null array or one longer than 32 bits; otherwise the array's bits as a 32-bit two's complement `int`, bit i weighing 2^i |
| BitReader.GetNumeral | Assets/UniGif/UniGifExtension.cs:15-33 | the sum of bit(s + i) * 2^i for i < n, bits past the end counting 0, as a C# `int`; 0 when n > 32; in [0, 2^n) when 1 <= n <= 31 |
| BitReader.NumeralReadsOnlyWindow | Assets/UniGif/UniGifExtension.cs:19-30 | two arrays that agree on bits s .. s + n - 1 give the same result |
| BitReader.NumeralBound | Assets/UniGif/UniGifExtension.cs:17-32 | for 1 <= n <= 31 the result lies in [0, 2^n) |
| BitReader.NumeralPastEnd | Assets/UniGif/UniGifExtension.cs:21-24 | a read starting at or past the end of the array returns 0 |
| BitReader.NumeralPadded | Assets/UniGif/UniGifExtension.cs:21-30 | a read running past the end equals the read of only the bits that exist (zero padding) |
| BitReader.NumeralRoundTrip | Assets/UniGif/UniGifExtension.cs:15-33 | v < 2^n written least significant bit first at any offset s, aligned or not, reads back as v |
| GifConst.ApplicationExtension.LoopCount | Assets/UniGif/UniGifConst.cs:246-257 | the loop count is always in [0, 65535] |
| GifConst.LoopCountCases | Assets/UniGif/UniGifConst.cs:250-255 | 0 without sub-blocks, with a first sub-block shorter than 3 bytes or not starting with 0x01; otherwise data[1] + 256 * data[2] |
| GifConst.LoopCountRoundTrip | Assets/UniGif/UniGifConst.cs:246-257 | an extension whose first sub-block is the looping block for n reports n, whatever follows |
| GifConst.LoopCountIgnoresLaterBlocks | Assets/UniGif/UniGifConst.cs:250-255 | appending sub-blocks after the first never changes the loop count |
| GifConst.Append | Assets/UniGif/UniGifFormatter.cs:276-279 | adding to a lazily created list: the new element is last, the old elements precede it, and a null list becomes the one-element list |
| Formatter.ColorResolutionIsField | Assets/UniGif/UniGifFormatter.cs:86-112 | the colour-resolution switch equals bits 6-4 of the packed byte plus one |
| Formatter.TableSizeRange | Assets/UniGif/UniGifFormatter.cs:117-119 | the table size 2^((packed & 7) + 1) lies between 2 and 256 |
| Formatter.DisposalIsField | Assets/UniGif/UniGifFormatter.cs:317-330 | the disposal switch is bits 4-2 of the packed byte when they are 1, 2 or 3, and 0 otherwise |
| Formatter.SubBlocksAt | Assets/UniGif/UniGifFormatter.cs:256-280 | a sub-block sequence that is read ends past its start and inside the buffer |
| Formatter.AppendAllSnoc | Assets/UniGif/UniGifFormatter.cs:554-557 | adding sub-blocks one at a time to a lazily created list is adding them all |
| Formatter.ParseImageBlock | Assets/UniGif/UniGifFormatter.cs:196-286 | an image block that is read ends past its start and inside the buffer |
| Formatter.ParseGraphicControlExtension | Assets/UniGif/UniGifFormatter.cs:288-357 | a graphic control extension takes exactly 8 bytes |
| Formatter.ParseCommentExtension | Assets/UniGif/UniGifFormatter.cs:359-404 | a comment extension that is read ends past its start and inside the buffer |
| Formatter.ParsePlainTextExtension | Assets/UniGif/UniGifFormatter.cs:406-488 | a plain text extension that is read ends past its start and inside the buffer |
| Formatter.ParseApplicationExtension | Assets/UniGif/UniGifFormatter.cs:490-559 | an application extension that is read ends past its start and inside the buffer |
| Formatter.BlockStep | Assets/UniGif/UniGifFormatter.cs:146-179 | one pass of the block loop never moves the cursor back, and a pass that does not move it leaves the document as it was |
| Formatter.ReadColorTable | Assets/UniGif/UniGifFormatter.cs:132-135 | the table loop returns the triples the grammar defines, or none when it runs past the buffer |
| Formatter.ReadSubBlocks | Assets/UniGif/UniGifFormatter.cs:256-280 | the sub-block loop returns the sub-blocks and end cursor the grammar defines |
| Formatter.SetGifHeader | Assets/UniGif/UniGifFormatter.cs:52-139 | the header routine computes the header the grammar defines, including its rejection and fault cases |
| Formatter.SetImageBlock | Assets/UniGif/UniGifFormatter.cs:196-286 | the routine appends the image block the grammar defines and moves the cursor past it |
| Formatter.SetGraphicControlExtension | Assets/UniGif/UniGifFormatter.cs:288-357 | the routine appends the extension the grammar defines and moves the cursor past it |
| Formatter.SetCommentExtension | Assets/UniGif/UniGifFormatter.cs:359-404 | the routine appends the comment extension the grammar defines |
| Formatter.SetPlainTextExtension | Assets/UniGif/UniGifFormatter.cs:406-488 | the routine appends the plain text extension the grammar defines |
| Formatter.SetApplicationExtension | Assets/UniGif/UniGifFormatter.cs:490-559 | the routine merges the application extension into the document's single one as the grammar defines |
| Formatter.SetGifBlock | Assets/UniGif/UniGifFormatter.cs:141-194 | the block loop with its no-progress guard and its catch computes the grammar's block sequence |
| Formatter.SetGifData | Assets/UniGif/UniGifFormatter.cs:22-50 | false for a null or empty buffer, a rejected header or a failed block loop; a fault for a short header |
| FormatterProps.FlagBits | Assets/UniGif/UniGifFormatter.cs:84 | each single-bit mask test of a packed byte is that bit of the byte |
| FormatterProps.HeaderAcceptance | Assets/UniGif/UniGifFormatter.cs:56-70 | the header is accepted exactly when it reads "GIF87a" or "GIF89a" and every byte it reads exists; with six bytes any other start is rejected |
| FormatterProps.HeaderFaultMeansShort | Assets/UniGif/UniGifFormatter.cs:56-136 | a header read faults only when the buffer ends early |
| FormatterProps.HeaderSignature | Assets/UniGif/UniGifFormatter.cs:56-73 | an accepted header's signature is "GIF" and its version "87a" or "89a" |
| FormatterProps.HeaderScreenFields | Assets/UniGif/UniGifFormatter.cs:75-126 | width and height little-endian at 6 and 8, the flags and fields of byte 10, background index and aspect ratio from bytes 11 and 12 |
| FormatterProps.HeaderGlobalTable | Assets/UniGif/UniGifFormatter.cs:128-136 | with the flag set, exactly `size` triples copied from byte 13 on and the cursor at 13 + 3 * size; otherwise the cursor at 13 |
| FormatterProps.SubBlocksRoundTrip | Assets/UniGif/UniGifFormatter.cs:256-280 | well-formed sub-blocks encoded anywhere in a buffer are read back unchanged, the cursor just past the terminator |
| FormatterProps.SubBlocksInside | Assets/UniGif/UniGifFormatter.cs:256-280 | the same round trip on a buffer holding the encoding at a given offset |
| FormatterProps.SubBlocksInverse | Assets/UniGif/UniGifFormatter.cs:256-280 | whatever the sub-block reader returns is well formed and re-encodes to exactly the bytes it consumed |
| FormatterProps.ImagePackedFields | Assets/UniGif/UniGifFormatter.cs:222-240 | the image descriptor's packed byte yields its local-table, interlace and sort flags and its size field |
| FormatterProps.ImageDescriptorRoundTrip | Assets/UniGif/UniGifFormatter.cs:200-240 | the ten descriptor bytes read back as separator, position, size and packed byte |
| FormatterProps.TableRoundTrip | Assets/UniGif/UniGifFormatter.cs:242-249 | an encoded colour table reads back unchanged |
| FormatterProps.ParseImageBlockAt | Assets/UniGif/UniGifFormatter.cs:196-286 | the image block read from a buffer whose sub-blocks are known, field by field |
| FormatterProps.ImageBlockPieces | Assets/UniGif/UniGifFormatter.cs:196-286 | an encoded image block leaves its descriptor, local table and code size byte where the parser reads them, and sub-blocks that read back up to its end |
| FormatterProps.ImageBlockFromLayout | Assets/UniGif/UniGifFormatter.cs:196-286 | an image block laid out as the encoder lays it out, with sub-blocks that read back, is parsed unchanged |
| FormatterProps.ImageBlockRoundTrip | Assets/UniGif/UniGifFormatter.cs:196-286 | an image block encoded anywhere in a buffer is read back unchanged, the cursor just past it |
| FormatterProps.GraphicControlExtensionRoundTrip | Assets/UniGif/UniGifFormatter.cs:288-357 | an extension with disposal method 0..3 reads back unchanged and takes 8 bytes |
| FormatterProps.GraphicControlExtensionFields | Assets/UniGif/UniGifFormatter.cs:288-357 | 8 bytes; disposal from bits 4-2 (1..3, else 0), transparency flag from bit 0, delay little-endian, transparent index |
| FormatterProps.CommentExtensionLength | Assets/UniGif/UniGifFormatter.cs:359-404 | a comment extension is a 2-byte prefix followed by its sub-blocks |
| FormatterProps.PlainTextExtensionLength | Assets/UniGif/UniGifFormatter.cs:406-488 | a plain text extension is a 15-byte prefix followed by its sub-blocks |
| FormatterProps.ApplicationExtensionFields | Assets/UniGif/UniGifFormatter.cs:490-559 | a 14-byte prefix whose identifier and authentication code replace the earlier ones, then sub-blocks appended after the earlier ones |
| FormatterProps.BlocksEndAtTrailer | Assets/UniGif/UniGifFormatter.cs:141-194 | the block loop succeeds only by consuming a trailer byte 0x3B, which it records |
| FormatterProps.UnknownBlockFails | Assets/UniGif/UniGifFormatter.cs:146-186 | a byte that is not 0x2C, 0x21 or 0x3B makes the loop fail |
| FormatterProps.UnknownExtensionFails | Assets/UniGif/UniGifFormatter.cs:152-186 | so does an extension label other than 0xF9, 0xFE, 0x01 and 0xFF |
| FormatterProps.StepOnlyAppends | Assets/UniGif/UniGifFormatter.cs:146-179 | one pass only appends to the document's lists and leaves the header fields alone |
| FormatterProps.BlocksOnlyAppend | Assets/UniGif/UniGifFormatter.cs:141-194 | over the whole loop every list only grows at its end, so nothing parsed earlier is dropped or reordered, and the header fields never change |
| FormatterProps.ParsedDocument | Assets/UniGif/UniGifFormatter.cs:22-50 | a file that parses has a complete "GIF87a" or "GIF89a" header, and its document records the trailer 0x3B |
| Lzw.InitDict | Assets/UniGif/UniGifDecoder.cs:478-482 | the dictionary holds n codes, its keys exactly 0 .. n - 1, each standing for its own one-symbol string |
| Lzw.Reset | Assets/UniGif/UniGifDecoder.cs:368-371 | a pending re-initialisation is cleared at the top of a pass |
| Lzw.LzwStep | Assets/UniGif/UniGifDecoder.cs:367-457 | a pass that goes on keeps the decoder's invariant and moves the cursor by the current width |
| Lzw.LzwRun | Assets/UniGif/UniGifDecoder.cs:367-458 | the bytes a run writes never exceed the requested size |
| Lzw.ResetValid | Assets/UniGif/UniGifDecoder.cs:368-371 | re-initialising keeps the invariant |
| Lzw.EntryNonEmpty | Assets/UniGif/UniGifDecoder.cs:389-396 | every string a code can stand for is non-empty |
| Lzw.AfterEntryValid | Assets/UniGif/UniGifDecoder.cs:425-457 | adding the new string at key Count and widening keeps the invariant |
| Lzw.InitDictionary | Assets/UniGif/UniGifDecoder.cs:471-485 | 2^m + 2 one-symbol entries, width m + 1, clear code 2^m, end code 2^m + 1 |
| Lzw.ResetIfPending | Assets/UniGif/UniGifDecoder.cs:368-371 | the top of a pass does the pending re-initialisation |
| Lzw.RunOnClear | Assets/UniGif/UniGifDecoder.cs:377-382 | a clear code continues the run from the state with the previous string forgotten and a reset pending |
| Lzw.RunOnEnd | Assets/UniGif/UniGifDecoder.cs:384-387 | an end code ends the run with the bytes written so far |
| Lzw.RunOnSkip | Assets/UniGif/UniGifDecoder.cs:393-408 | a code that stands for nothing is skipped |
| Lzw.RunOnEntry | Assets/UniGif/UniGifDecoder.cs:389-432 | a code's string is written; one that does not fit overruns, one that fills the output ends the run |
| Lzw.WriteEntry | Assets/UniGif/UniGifDecoder.cs:412-418 | the string is copied after the bytes written so far exactly when it fits |
| Lzw.GrowDictionary | Assets/UniGif/UniGifDecoder.cs:425-457 | the tail of a pass computes the step function's dictionary, width and cursor |
| Lzw.DecodeGifLzw | Assets/UniGif/UniGifDecoder.cs:343-461 | the routine returns or throws what the decompression function defines |
| Lzw.DecodeBits | Assets/UniGif/UniGifDecoder.cs:357-461 | on the bit array: a negative size fails to allocate, otherwise the run's outcome |
| Lzw.DecodeLoop | Assets/UniGif/UniGifDecoder.cs:367-460 | the loop's result is the run's outcome from the initial state |
| Lzw.DecodePass | Assets/UniGif/UniGifDecoder.cs:368-457 | one pass of the loop on its variables is one step of the run |
| Lzw.EmitEntry | Assets/UniGif/UniGifDecoder.cs:410-457 | writing a code's string and what follows it is the run's behaviour for that code |
| LzwProps.InitialDictionary | Assets/UniGif/UniGifDecoder.cs:471-485 | for m <= 8, the start of decoding: 2^m + 2 one-symbol strings, codes below 2^m standing for themselves, width m + 1, no previous string, nothing written |
| LzwProps.ClearCodeResets | Assets/UniGif/UniGifDecoder.cs:377-382 | a clear code forgets the previous string and on the next pass restores the initial dictionary and width |
| LzwProps.EndCodeStops | Assets/UniGif/UniGifDecoder.cs:384-387 | the end code stops decoding with the bytes written so far |
| LzwProps.CodePastCount | Assets/UniGif/UniGifDecoder.cs:393-396 | any code at or past Count, not only Count, stands for the previous string plus its first symbol |
| LzwProps.SkipOnlyWithoutPrevious | Assets/UniGif/UniGifDecoder.cs:389-408 | a non-negative code is skipped exactly when it is at or past Count with no previous string; the last skip branch never runs |
| LzwProps.KeyNonNegative | Assets/UniGif/UniGifDecoder.cs:373 | a code read at widths up to 31 is never negative |
| LzwProps.WidthGrowth | Assets/UniGif/UniGifDecoder.cs:434-457 | a pass keeps the width or widens it by one, and only once Count has reached 2^width; for m <= 11 the width never passes 12 |
| LzwProps.ForcedResetKeepsPrevious | Assets/UniGif/UniGifDecoder.cs:452-457 | at width 12 with 4096 entries a reset is scheduled unless the next code is a clear code, and the previous string is kept |
| LzwProps.PassAdvances | Assets/UniGif/UniGifDecoder.cs:367-457 | every pass that goes on moves the cursor by at least m + 1 bits |
| LzwProps.NegativeSizeFails | Assets/UniGif/UniGifDecoder.cs:357 | the output allocation fails exactly when the requested size is negative |
| LzwProps.OutputFraming | Assets/UniGif/UniGifDecoder.cs:357-460 | the output has exactly the requested size: the bytes written, then zeros; an overrun throws |
| LzwProps.OvershootThrows | Assets/UniGif/UniGifDecoder.cs:413-420 | the byte 0x30 at m = 2 with room for 2 bytes decodes to an entry that overruns the output and throws |
| Interlace.RowClosedForm | Assets/UniGif/UniGifDecoder.cs:504-506 | the source's row counter at position i is (i - 1) / w for i > 0 |
| Interlace.PassOf | Assets/UniGif/UniGifDecoder.cs:500-533 | each row belongs to one of the four passes |
| Interlace.PassTest | Assets/UniGif/UniGifDecoder.cs:500-533 | a row passes exactly one of the four row tests, the one of its pass |
| Interlace.PassesCover | Assets/UniGif/UniGifDecoder.cs:493-543 | the four passes together take every position exactly once |
| Interlace.SourceOf | Assets/UniGif/UniGifDecoder.cs:499-503 | the decoded byte each position reads lies inside the data |
| Interlace.SourceInjective | Assets/UniGif/UniGifDecoder.cs:493-543 | different positions read different decoded bytes |
| Interlace.Reorder | Assets/UniGif/UniGifDecoder.cs:497 | the reordered data has the length of the input |
| Interlace.RowQuirk | Assets/UniGif/UniGifDecoder.cs:504-506 | the first pixel of each row k >= 1 is classified with row k - 1; every other pixel with its own row |
| Interlace.NarrowImage | Assets/UniGif/UniGifDecoder.cs:493-543 | a one-pixel-wide image of three rows is left as it is, where Appendix E order swaps its last two rows |
| Interlace.SortPass | Assets/UniGif/UniGifDecoder.cs:499-507 | one pass writes exactly the positions of its rows, each from the next decoded byte |
| Interlace.Classify | Assets/UniGif/UniGifDecoder.cs:500-506 | the body of a pass's loop at one position |
| Interlace.SortInterlaceGifData | Assets/UniGif/UniGifDecoder.cs:493-543 | the four passes return the reordering function's result in a fresh array |
| Decoder.TableColor | Assets/UniGif/UniGifDecoder.cs:158-159 | a table entry with alpha 255 exactly when the table exists and has the index; a null table throws NullReference, a short one IndexOutOfRange |
| Decoder.GlobalBgColor | Assets/UniGif/UniGifDecoder.cs:153-162 | no background without the global table flag; with it, the background entry (alpha 255), or a fault when it is missing |
| Decoder.ColorTable | Assets/UniGif/UniGifDecoder.cs:191-202 | the global table and background unchanged without a local table; otherwise the local table and its background entry |
| Decoder.GraphicCtrlExt | Assets/UniGif/UniGifDecoder.cs:207-213 | frame i's extension is the i-th one exactly when the list has more than i |
| Decoder.TransparentIndex | Assets/UniGif/UniGifDecoder.cs:218-225 | -1 unless the extension exists and sets its flag; then its transparent index |
| Decoder.DelaySec | Assets/UniGif/UniGifDecoder.cs:230-239 | the delay is at least 10 hundredths: 10 without an extension, otherwise max(delayTime, 10) |
| Decoder.DisposalMethod | Assets/UniGif/UniGifDecoder.cs:244-247 | the extension's disposal method, 2 without one |
| Decoder.BeforeIndex | Assets/UniGif/UniGifDecoder.cs:260-268 | the copied frame is i - 1 after disposal 0 (i > 0) or 1, i - 2 after disposal 3 (i > 1), none otherwise |
| Decoder.NeedDataSize | Assets/UniGif/UniGifDecoder.cs:178 | height * width as a C# `int`: non-negative and equal to the product exactly when it is below 2^31 |
| Decoder.OutputLength | Assets/UniGif/UniGifDecoder.cs:179 | a successful decompression has exactly the requested size |
| Decoder.StartCanvas | Assets/UniGif/UniGifDecoder.cs:255-275 | the starting canvas has the screen's size |
| Decoder.FrameStep | Assets/UniGif/UniGifDecoder.cs:112-143 | one block adds one screen-sized frame and keeps the earlier ones |
| Decoder.FramesFrom | Assets/UniGif/UniGifDecoder.cs:102-143 | after n blocks there are n screen-sized frames |
| Decoder.FaultPersists | Assets/UniGif/UniGifDecoder.cs:112-143 | an exception in one block is the result of the whole loop |
| Decoder.GetDecodedData | Assets/UniGif/UniGifDecoder.cs:167-186 | the routine computes the block's decoded data, which has height * width bytes |
| Decoder.CombineLzwData | Assets/UniGif/UniGifDecoder.cs:170-175 | the sub-blocks' bytes concatenated in order |
| Decoder.CreateTexture2D | Assets/UniGif/UniGifDecoder.cs:252-278 | a fresh texture, or a copy of the frame the previous disposal method selects; the flag says which |
| Decoder.SetTexturePixelRow | Assets/UniGif/UniGifDecoder.cs:283-330 | texture row y gets each pixel's colour for GIF row height - 1 - y, the index advances by the rectangle pixels of the row, and a null table throws when a rectangle pixel has data |
| Decoder.SetTexturePixel | Assets/UniGif/UniGifDecoder.cs:288-329 | one pixel of the row: its new colour, the index step, and the null table fault |
| Decoder.PaintImage | Assets/UniGif/UniGifDecoder.cs:125-129 | the rows loop paints the frame the painting function defines, or reports its fault |
| Decoder.DecodeTexture | Assets/UniGif/UniGifDecoder.cs:96-146 | the routine computes the frames function's result |
| Decoder.DecodeBlock | Assets/UniGif/UniGifDecoder.cs:113-142 | the loop body computes one block's step |
| DecoderProps.FramesCarry | Assets/UniGif/UniGifDecoder.cs:132-140 | after n blocks there are n frames, frame i with the delay of the i-th extension, and the next block sees the previous block's disposal method |
| DecoderProps.StepCarry | Assets/UniGif/UniGifDecoder.cs:117-140 | one block adds a frame with its extension's delay, keeps the earlier frames, and hands on its disposal method |
| DecoderProps.DecodeTextureFrames | Assets/UniGif/UniGifDecoder.cs:96-146 | false exactly without image blocks; otherwise one screen-sized frame per block, frame i with the i-th extension's delay, at least 10 |
| DecoderProps.StartFrame | Assets/UniGif/UniGifDecoder.cs:252-278 | block n starts from frame n - 1 after disposal 0 or 1, from n - 2 after disposal 3, else fresh; the first frame is always fresh |
| DecoderProps.DecodedLength | Assets/UniGif/UniGifDecoder.cs:167-186 | decoded data has height * width bytes, fewer than 2^31; a larger rectangle fails to allocate |
| DecoderProps.PlacementInside | Assets/UniGif/UniGifDecoder.cs:288-328 | with the rectangle inside the canvas, pixel (x, row) takes index (row - top) * width + (x - left) |
| DecoderProps.IndicesDistinct | Assets/UniGif/UniGifDecoder.cs:288-328 | different rectangle pixels take different indices |
| DecoderProps.IndexInData | Assets/UniGif/UniGifDecoder.cs:288-328 | every rectangle pixel's index is below height * width |
| DecoderProps.NoBlackForLackOfData | Assets/UniGif/UniGifDecoder.cs:304-309 | with a block's decoded data the "out of data, paint black" branch never runs |
| DecoderProps.PaintedPixel | Assets/UniGif/UniGifDecoder.cs:283-330 | background outside the rectangle only on a fresh canvas; an index past the table keeps the pixel; alpha 0 exactly for the transparent index, and such a pixel is kept on a copied canvas |
| UniGif.GetTextureList | Assets/UniGif/UniGif.cs:25-52 | no list, loop count -1 and size 0 x 0 when parsing or decoding fails; on success the file parsed and the loop count is its Netscape loop count, in [0, 65535] |
| UniGif.TextureListShape | Assets/UniGif/UniGif.cs:41-51 | a returned list is the decoder's frame list: one frame per image block, at least one, each of width * height pixels and at least 10 hundredths long; the loop count is the Netscape loop count and width and height are the logical screen size |
| Playback.Advance | Assets/UniGif/Example/Script/UniGifImage.cs:146-160 | the next index stays in [0, Count), wrapping to 0; stopping happens only on a wrap with a positive loop count, when the counter reaches it; with loop count 0 it never stops |
| Playback.RunLoops | Assets/UniGif/Example/Script/UniGifImage.cs:146-162 | after t frame changes from `Play`: with loop count 0 frame t mod Count, never stopping; with loop count n > 0 frame t mod Count after t / Count loops, stopping exactly at change n * Count |
| Playback.UniGifImage.constructor | Assets/UniGif/Example/Script/UniGifImage.cs:57-100 | the component starts in None with no frames |
| Playback.UniGifImage.Update | Assets/UniGif/Example/Script/UniGifImage.cs:119-171 | nothing changes outside Playing or before the delay has run out; otherwise the next frame and its delay, or Ready after the last loop; the frame list, loop count, size and target are never changed |
| Playback.UniGifImage.BeginLoad | Assets/UniGif/Example/Script/UniGifImage.cs:191-202 | an empty URL or a load in progress is refused and changes nothing; otherwise the state becomes Loading and every other field is kept |
| Playback.UniGifImage.LoadFailed | Assets/UniGif/Example/Script/UniGifImage.cs:221-226 | a failed download goes back to None and every other field is kept |
| Playback.UniGifImage.Loaded | Assets/UniGif/Example/Script/UniGifImage.cs:228-257 | with frames: the frames, loop count and size are taken, Ready, and when asked and possible Playing at frame 0, loop 0, showing frame 0 until its delay; without: None and no frames with loop count and size kept; when not playing the index, counter and delay are kept and the target image is cleared |
| Playback.UniGifImage.Clear | Assets/UniGif/Example/Script/UniGifImage.cs:266-292 | always None with the frame list dropped and the target image cleared; index, counters, delay, loop count, size and target kept |
| Playback.UniGifImage.Play | Assets/UniGif/Example/Script/UniGifImage.cs:297-314 | only from Ready with a target and frames: Playing at frame 0, loop 0, showing frame 0 until its delay; otherwise nothing |
| Playback.UniGifImage.Stop | Assets/UniGif/Example/Script/UniGifImage.cs:319-327 | Playing or Pause to Ready, keeping the frame and counters; otherwise nothing |
| Playback.UniGifImage.Pause | Assets/UniGif/Example/Script/UniGifImage.cs:332-340 | Playing to Pause with every other field kept; otherwise nothing |
| Playback.UniGifImage.Resume | Assets/UniGif/Example/Script/UniGifImage.cs:345-353 | Pause to Playing with every other field kept; otherwise nothing |

## Left out

- Unity objects: `Texture2D`, `Color32`, filter and wrap modes, `SetPixel`, `GetPixels32` and `Apply` become sequences and arrays of RGBA values; the colour of a fresh texture is decided by Unity and is a parameter (`blank`).
- `DecodeTextureCoroutine` and `GetTextureListCoroutine`: cooperative coroutines whose per-frame logic is that of `DecodeTexture`; only the synchronous path is modelled.
- Network and file loading in `SetGifFromUrlCoroutine`: the download is I/O; its outcome is the parameter of `LoadFailed` and `Loaded`, and only the state changes around it are modelled.
- `UniGifTexture.cs`, the aspect-ratio utilities, the camera script and the test scene: playback with coroutines, float geometry and UI outside the decoder.
- Floating-point time: delays are whole hundredths of a second, and `Time.time` is an integer clock passed to `Play` and `Update`; the rotation of the loading indicator is left out.
- Logging (`Debug.Log*`) and `GifData.Dump`; only the null dereference inside one log message is modelled, as a fault.
- The target image is a flag (`hasRawImage`) and its texture the `shown` field, since the image component is a Unity object.
- Lzw.InitDict: a dictionary string for code k is modelled as the byte k % 256, the low byte of `(char) k`; this is exact for minimum code sizes up to 15; for larger sizes the UTF-16 surrogate encoding and, from 31 on, the range of `Math.Pow` cast to `int` are not modelled.
- The duplicate `Extension` class at the end of `UniGifDecoder.cs` is the same bit reader and is modelled once.
- Comment and plain text payloads are read only as byte counts and sub-blocks; nothing downstream uses them.
- Interlace.SortInterlaceGifData: requires a positive width or at most one byte of data, because `i % xNum` divides by zero otherwise; `GetDecodedData` meets it, since data of a zero-width image is empty.
- Interlace.SourceInjective: the permutation is stated as in-bounds, injective reads of the data rather than as a multiset equality.
- Decoder.TableColor: the `ArgumentOutOfRangeException` of a `List` index is modelled as the same fault as an array index.
- Helper methods (`DecodeLoop`, `DecodePass`, `EmitEntry`, `GrowDictionary`, `ResetIfPending`, `WriteEntry`, `SortPass`, `Classify`, `SetTexturePixel`, `PaintImage`, `CombineLzwData`, `DecodeBlock`, `ReadColorTable`, `ReadSubBlocks`, `CopySubBlockData`, `FillDict`, `ZeroOutput`) split single C# routines into parts that the verifier checks one at a time; together they perform the same steps in the same order.
- `UniGif.cs` and `UniGifImage.cs` call an older `DecodeTexture` signature and frame fields (`m_texture2d`, `m_delaySec`); the model composes the current decoder and frame record instead.
