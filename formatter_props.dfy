/** Properties of the block parser: what the header accepts, which fields
    it decodes, encoders that the parsers invert, and how the block loop
    ends. */
module FormatterProps {
  import opened Common
  import opened GifConst
  import opened Formatter
  import BitReader

  // ---------------------------------------------------------------------
  // Bit fields of packed bytes

  /** The single-bit masks the parser tests are the bits of the byte. */
  lemma FlagBits(x: byte)
    ensures (And(x, 128) == 128) == (x >= 128)
    ensures (And(x, 64) == 64) == ((x / 64) % 2 == 1)
    ensures (And(x, 32) == 32) == ((x / 32) % 2 == 1)
    ensures (And(x, 8) == 8) == ((x / 8) % 2 == 1)
    ensures (And(x, 1) == 1) == (x % 2 == 1)
  {
    BitTest(x, 7, 128);
    assert (x / 128) % 2 == 1 <==> x >= 128 by {
      if x >= 128 {
        BitReader.DivModUnique(x as int, 128, 1, x as int - 128);
      } else {
        BitReader.DivModUnique(x as int, 128, 0, x as int);
      }
    }
    BitTest(x, 6, 64);
    BitTest(x, 5, 32);
    BitTest(x, 3, 8);
    assert And(x, 1) == x % 2;
  }

  /** A single-bit mask m = 2^k tests bit k. */
  lemma BitTest(x: byte, k: nat, m: byte)
    requires k <= 7 && m == Pow2(k)
    ensures (And(x, m) == m) == ((x / m) % 2 == 1)
  {
    SingleBit(x, k);
  }

  // ---------------------------------------------------------------------
  // The header

  /** Bytes 0..5 spell "GIF87a" or "GIF89a". */
  predicate IsGifHeader(b: seq<byte>)
  {
    |b| >= 6 && b[0] == G && b[1] == I && b[2] == F && b[3] == Eight
    && (b[4] == Seven || b[4] == Nine) && b[5] == LowerA
  }

  /** Bytes the header needs: the 13-byte header and logical screen
      descriptor, and the global colour table when its flag is set. */
  predicate HeaderComplete(b: seq<byte>)
  {
    |b| >= 13 && (b[10] >= 128 ==> 13 + 3 * TableSize(b[10]) <= |b|)
  }

  /** The header is accepted exactly when it is "GIF87a" or "GIF89a" and
      every byte it reads is there; a buffer with at least the 6 signature
      and version bytes is rejected exactly when they are anything else. */
  lemma HeaderAcceptance(b: seq<byte>, gd: GifData)
    ensures ParseHeader(b, gd).HeaderOk? <==> IsGifHeader(b) && HeaderComplete(b)
    ensures ParseHeader(b, gd).HeaderRejected? ==> !IsGifHeader(b)
    ensures |b| >= 6 && !IsGifHeader(b) ==> ParseHeader(b, gd).HeaderRejected?
  {
    if |b| >= 13 {
      FlagBits(b[10]);
      TableSizeRange(b[10]);
    }
  }

  /** A faulting header is a header with the right signature and version
      so far that ends early. */
  lemma HeaderFaultMeansShort(b: seq<byte>, gd: GifData)
    requires ParseHeader(b, gd).HeaderFault?
    ensures !HeaderComplete(b)
    ensures |b| >= 6 ==> IsGifHeader(b)
  {
    if |b| >= 13 {
      FlagBits(b[10]);
      TableSizeRange(b[10]);
    }
  }

  /** An accepted header reads "GIF" and "87a" or "89a". */
  lemma HeaderSignature(b: seq<byte>, gd: GifData)
    requires ParseHeader(b, gd).HeaderOk?
    ensures var d := ParseHeader(b, gd).gifData;
      d.Signature() == "GIF" && (d.Version() == "87a" || d.Version() == "89a")
  {
  }

  /** The logical screen descriptor of an accepted header: little-endian
      width and height at 6 and 8, the flags and fields of the packed byte
      10, the background index and aspect ratio from 11 and 12. Nothing
      outside the header changes. */
  lemma HeaderScreenFields(b: seq<byte>, gd: GifData)
    requires ParseHeader(b, gd).HeaderOk?
    ensures |b| >= 13
    ensures var d := ParseHeader(b, gd).gifData;
      && d.logicalScreenWidth == (b[6] as int) + 256 * (b[7] as int)
      && d.logicalScreenHeight == (b[8] as int) + 256 * (b[9] as int)
      && d.globalColorTableFlag == (b[10] >= 128)
      && d.colorResolution == (b[10] / 16) % 8 + 1
      && d.sortFlag == ((b[10] / 8) % 2 == 1)
      && d.sizeOfGlobalColorTable == Pow2(b[10] % 8 + 1)
      && 2 <= d.sizeOfGlobalColorTable <= 256
      && d.bgColorIndex == b[11] && d.pixelAspectRatio == b[12]
      && d.imageBlockList == gd.imageBlockList && d.graphicCtrlExList == gd.graphicCtrlExList
      && d.commentExList == gd.commentExList && d.plainTextExList == gd.plainTextExList
      && d.appEx == gd.appEx && d.trailer == gd.trailer
  {
    FlagBits(b[10]);
    TableSizeRange(b[10]);
    ColorResolutionIsField(b[10]);
  }

  /** The global colour table of an accepted header: when the flag is set,
      the 2^(field + 1) triples straight after byte 12, and the cursor past
      them; otherwise no table is read and the cursor is at 13. */
  lemma HeaderGlobalTable(b: seq<byte>, gd: GifData)
    requires ParseHeader(b, gd).HeaderOk?
    ensures var h := ParseHeader(b, gd); var d := h.gifData; var size := d.sizeOfGlobalColorTable;
      && (d.globalColorTableFlag ==>
            && h.byteIndex == 13 + 3 * size <= |b|
            && d.globalColorTable.Some? && |d.globalColorTable.value| == size
            && forall k :: 0 <= k < size ==>
                 d.globalColorTable.value[k] == Rgb(b[13 + 3 * k], b[14 + 3 * k], b[15 + 3 * k]))
      && (!d.globalColorTableFlag ==> h.byteIndex == 13 && d.globalColorTable == gd.globalColorTable)
  {
    TableSizeRange(b[10]);
  }

  // ---------------------------------------------------------------------
  // Data sub-blocks

  /** Sub-blocks as they appear in a file: each one is its size byte
      followed by its data, and a zero byte ends the sequence. */
  function EncodeSubBlocks(bs: seq<SubBlock>): (e: seq<byte>)
    ensures |e| >= 1
  {
    if bs == [] then [0] else [bs[0].blockSize] + bs[0].data + EncodeSubBlocks(bs[1..])
  }

  /** Each sub-block's size byte is the length of its data, and no data
      is empty (an empty one would read as the terminator). */
  predicate WellFormedSubBlocks(bs: seq<SubBlock>)
  {
    forall k :: 0 <= k < |bs| ==> bs[k].blockSize == |bs[k].data| && bs[k].blockSize >= 1
  }

  /** Round trip: well-formed sub-blocks, encoded anywhere in a buffer, are
      read back unchanged and the cursor ends just after the terminator. */
  lemma {:induction false} SubBlocksRoundTrip(pre: seq<byte>, bs: seq<SubBlock>, post: seq<byte>)
    requires WellFormedSubBlocks(bs)
    ensures SubBlocksAt(pre + EncodeSubBlocks(bs) + post, |pre|) == Some((bs, |pre| + |EncodeSubBlocks(bs)|))
    decreases |bs|
  {
    if bs == [] {
      assert (pre + [0] + post)[|pre|] == 0;
    } else {
      var d, rest := bs[0], bs[1..];
      assert [d] + rest == bs;
      var pre' := pre + [d.blockSize] + d.data;
      FirstSubBlock(pre, d, rest, post);
      assert WellFormedSubBlocks(rest) by {
        forall k | 0 <= k < |rest| ensures rest[k].blockSize == |rest[k].data| && rest[k].blockSize >= 1 {
          assert rest[k] == bs[k + 1];
        }
      }
      SubBlocksRoundTrip(pre', rest, post);
    }
  }

  /** The first sub-block of an encoding: its size byte at the cursor,
      its data after it, and the rest of the encoding after that. */
  lemma FirstSubBlock(pre: seq<byte>, d: SubBlock, rest: seq<SubBlock>, post: seq<byte>)
    requires d.blockSize == |d.data| >= 1
    ensures var b := pre + EncodeSubBlocks([d] + rest) + post;
      var n, next := |pre|, |pre| + 1 + d.blockSize;
      && next < |b| && b[n] == d.blockSize && b[n + 1 .. next] == d.data
      && b == (pre + [d.blockSize] + d.data) + EncodeSubBlocks(rest) + post
  {
    var pre' := pre + [d.blockSize] + d.data;
    var b := pre + EncodeSubBlocks([d] + rest) + post;
    assert ([d] + rest)[1..] == rest;
    assert EncodeSubBlocks([d] + rest) == [d.blockSize] + d.data + EncodeSubBlocks(rest);
    assert b == pre' + EncodeSubBlocks(rest) + post;
    assert b[..|pre'|] == pre';
  }

  /** The round trip stated on a buffer that has the encoding at `k`. */
  lemma SubBlocksInside(b: seq<byte>, k: nat, bs: seq<SubBlock>, post: seq<byte>)
    requires k <= |b| && WellFormedSubBlocks(bs) && b[k..] == EncodeSubBlocks(bs) + post
    ensures SubBlocksAt(b, k) == Some((bs, k + |EncodeSubBlocks(bs)|))
  {
    var pre, e := b[..k], EncodeSubBlocks(bs);
    assert b == pre + e + post by {
      assert b == pre + b[k..];
      assert pre + (e + post) == pre + e + post;
    }
    SubBlocksRoundTrip(pre, bs, post);
  }

  /** Conversely, whatever the sub-block reader returns is well formed and
      is exactly the bytes it consumed. */
  lemma {:induction false} SubBlocksInverse(b: seq<byte>, i: nat)
    requires SubBlocksAt(b, i).Some?
    ensures var (bs, j) := SubBlocksAt(b, i).value;
      WellFormedSubBlocks(bs) && b[i .. j] == EncodeSubBlocks(bs)
    decreases |b| - i
  {
    if b[i] != 0 {
      var next := i + 1 + b[i];
      SubBlocksInverse(b, next);
      var (rest, j) := SubBlocksAt(b, next).value;
      var bs := SubBlocksAt(b, i).value.0;
      assert bs == [SubBlock(b[i], b[i + 1 .. next])] + rest;
      assert bs[1..] == rest;
      assert b[i .. j] == [b[i]] + b[i + 1 .. next] + b[next .. j];
    }
  }

  // ---------------------------------------------------------------------
  // Image blocks

  /** A colour table as bytes: r, g, b of each entry in turn. */
  function EncodeTable(t: seq<Rgb>): (e: seq<byte>)
    ensures |e| == 3 * |t|
  {
    if t == [] then [] else [t[0].r, t[0].g, t[0].b] + EncodeTable(t[1..])
  }

  lemma {:induction false} EncodeTableAt(t: seq<Rgb>, k: nat)
    requires k < |t|
    ensures EncodeTable(t)[3 * k] == t[k].r && EncodeTable(t)[3 * k + 1] == t[k].g && EncodeTable(t)[3 * k + 2] == t[k].b
  {
    if k > 0 {
      EncodeTableAt(t[1..], k - 1);
    }
  }

  /** An image block that the encoder below can write: its table size is
      2^(sizeField + 1), its colour table is there exactly when its flag is
      set and has that many entries, and its data is a list of well-formed
      sub-blocks (null when there are none). */
  predicate EncodableImageBlock(ib: ImageBlock, sizeField: nat)
  {
    && sizeField < 8
    && ib.sizeOfLocalColorTable == Pow2(sizeField + 1)
    && (ib.localColorTableFlag <==> ib.localColorTable.Some?)
    && (ib.localColorTable.Some? ==> |ib.localColorTable.value| == ib.sizeOfLocalColorTable)
    && (ib.imageDataList.Some? ==> ib.imageDataList.value != [] && WellFormedSubBlocks(ib.imageDataList.value))
  }

  function DataOrEmpty(list: Option<seq<SubBlock>>): seq<SubBlock>
  {
    if list.None? then [] else list.value
  }

  /** The image descriptor packed byte. */
  function ImagePacked(ib: ImageBlock, sizeField: nat): byte
    requires sizeField < 8
  {
    (if ib.localColorTableFlag then 128 else 0) + (if ib.interlaceFlag then 64 else 0)
    + (if ib.sortFlag then 32 else 0) + sizeField
  }

  /** An image block as it appears in a file: separator, position and size
      (little-endian), packed byte, local colour table, LZW minimum code
      size, data sub-blocks. */
  function EncodeImageBlock(ib: ImageBlock, sizeField: nat): seq<byte>
    requires sizeField < 8
  {
    [ib.imageSeparator,
     ib.imageLeftPosition % 256, ib.imageLeftPosition / 256,
     ib.imageTopPosition % 256, ib.imageTopPosition / 256,
     ib.imageWidth % 256, ib.imageWidth / 256,
     ib.imageHeight % 256, ib.imageHeight / 256,
     ImagePacked(ib, sizeField)]
    + (if ib.localColorTable.Some? then EncodeTable(ib.localColorTable.value) else [])
    + [ib.lzwMinimumCodeSize]
    + EncodeSubBlocks(DataOrEmpty(ib.imageDataList))
  }

  /** The fields of a packed byte 128a + 64b + 32c + f. */
  lemma PackedArithmetic(a: nat, b: nat, c: nat, f: nat)
    requires a <= 1 && b <= 1 && c <= 1 && f < 8
    ensures var x := 128 * a + 64 * b + 32 * c + f;
      (x >= 128) == (a == 1) && (x / 64) % 2 == b && (x / 32) % 2 == c && x % 8 == f
  {
    var x := 128 * a + 64 * b + 32 * c + f;
    BitReader.DivModUnique(x, 64, 2 * a + b, 32 * c + f);
    BitReader.DivModUnique(2 * a + b, 2, a, b);
    BitReader.DivModUnique(x, 32, 4 * a + 2 * b + c, f);
    BitReader.DivModUnique(4 * a + 2 * b + c, 2, 2 * a + b, c);
    BitReader.DivModUnique(x, 8, 16 * a + 8 * b + 4 * c, f);
  }

  lemma ImagePackedFields(ib: ImageBlock, sizeField: nat)
    requires sizeField < 8
    ensures var p := ImagePacked(ib, sizeField);
      && (And(p, 128) == 128) == ib.localColorTableFlag
      && (And(p, 64) == 64) == ib.interlaceFlag
      && (And(p, 32) == 32) == ib.sortFlag
      && And(p, 7) == sizeField
  {
    var p := ImagePacked(ib, sizeField);
    FlagBits(p);
    TableSizeRange(p);
    PackedArithmetic(if ib.localColorTableFlag then 1 else 0, if ib.interlaceFlag then 1 else 0,
                     if ib.sortFlag then 1 else 0, sizeField);
  }

  /** The ten bytes of an image descriptor. */
  function ImageDescriptorBytes(ib: ImageBlock, sizeField: nat): (h: seq<byte>)
    requires sizeField < 8
    ensures |h| == 10
  {
    [ib.imageSeparator,
     ib.imageLeftPosition % 256, ib.imageLeftPosition / 256,
     ib.imageTopPosition % 256, ib.imageTopPosition / 256,
     ib.imageWidth % 256, ib.imageWidth / 256,
     ib.imageHeight % 256, ib.imageHeight / 256,
     ImagePacked(ib, sizeField)]
  }

  /** The descriptor read back from its ten bytes. */
  lemma ImageDescriptorRoundTrip(b: seq<byte>, i: nat, ib: ImageBlock, sizeField: nat)
    requires sizeField < 8 && i + 10 <= |b| && b[i .. i + 10] == ImageDescriptorBytes(ib, sizeField)
    ensures b[i] == ib.imageSeparator
    ensures ToUInt16(b, i + 1) == ib.imageLeftPosition && ToUInt16(b, i + 3) == ib.imageTopPosition
    ensures ToUInt16(b, i + 5) == ib.imageWidth && ToUInt16(b, i + 7) == ib.imageHeight
    ensures b[i + 9] == ImagePacked(ib, sizeField)
  {
    var h := ImageDescriptorBytes(ib, sizeField);
    assert forall k :: 0 <= k < 10 ==> b[i + k] == h[k];
  }

  /** A table read back from its bytes. */
  lemma TableRoundTrip(b: seq<byte>, start: nat, t: seq<Rgb>)
    requires start + 3 * |t| <= |b| && b[start .. start + 3 * |t|] == EncodeTable(t)
    ensures ColorTableOf(b, start, |t|) == t
  {
    forall k | 0 <= k < |t|
      ensures ColorTableOf(b, start, |t|)[k] == t[k]
    {
      TableEntryAt(b, start, t, k);
    }
  }

  /** Entry k of a table read back from its bytes. */
  lemma TableEntryAt(b: seq<byte>, start: nat, t: seq<Rgb>, k: nat)
    requires start + 3 * |t| <= |b| && b[start .. start + 3 * |t|] == EncodeTable(t)
    requires k < |t|
    ensures b[start + 3 * k] == t[k].r && b[start + 3 * k + 1] == t[k].g && b[start + 3 * k + 2] == t[k].b
  {
    var e := EncodeTable(t);
    EncodeTableAt(t, k);
    assert b[start + 3 * k] == e[3 * k];
    assert b[start + 3 * k + 1] == e[3 * k + 1];
    assert b[start + 3 * k + 2] == e[3 * k + 2];
  }

  function TableBytes(ib: ImageBlock): seq<byte>
  {
    if ib.localColorTable.Some? then EncodeTable(ib.localColorTable.value) else []
  }

  /** Where each part of an encoded image block lies in the buffer. */
  lemma ImageBlockLayout(pre: seq<byte>, ib: ImageBlock, sizeField: nat, post: seq<byte>)
    requires sizeField < 8
    ensures var b := pre + EncodeImageBlock(ib, sizeField) + post; var i := |pre|;
      var codeSizeAt := i + 10 + |TableBytes(ib)|;
      && codeSizeAt < |b|
      && b[i .. i + 10] == ImageDescriptorBytes(ib, sizeField)
      && b[i + 10 .. codeSizeAt] == TableBytes(ib)
      && b[codeSizeAt] == ib.lzwMinimumCodeSize
      && b[codeSizeAt + 1..] == EncodeSubBlocks(DataOrEmpty(ib.imageDataList)) + post
      && |EncodeImageBlock(ib, sizeField)| == 11 + |TableBytes(ib)| + |EncodeSubBlocks(DataOrEmpty(ib.imageDataList))|
  {
    var head := ImageDescriptorBytes(ib, sizeField);
    var table := TableBytes(ib);
    var subs := EncodeSubBlocks(DataOrEmpty(ib.imageDataList));
    var e := EncodeImageBlock(ib, sizeField);
    assert e == head + table + [ib.lzwMinimumCodeSize] + subs;
    var b := pre + e + post;
    var pre' := pre + head + table + [ib.lzwMinimumCodeSize];
    assert b == pre' + subs + post;
    assert b[|pre'|..] == subs + post;
  }

  /** The image block parser on a buffer whose sub-blocks are known. */
  lemma ParseImageBlockAt(b: seq<byte>, i: nat, codeSizeAt: nat, blocks: seq<SubBlock>, j: nat)
    requires i + 10 <= |b| && codeSizeAt < |b|
    requires codeSizeAt == if And(b[i + 9], 128) == 128 then i + 10 + 3 * TableSize(b[i + 9]) else i + 10
    requires SubBlocksAt(b, codeSizeAt + 1) == Some((blocks, j))
    ensures var packed := b[i + 9]; var flag := And(packed, 128) == 128; var size := TableSize(packed);
      ParseImageBlock(b, i) ==
      Some((ImageBlock(b[i], ToUInt16(b, i + 1), ToUInt16(b, i + 3), ToUInt16(b, i + 5), ToUInt16(b, i + 7),
                       flag, And(packed, 64) == 64, And(packed, 32) == 32, size,
                       if flag then Some(ColorTableOf(b, i + 10, size)) else None,
                       b[codeSizeAt], ListOrNull(blocks)), j))
  {
  }

  /** The image block parser on a buffer laid out as the encoder lays it
      out, once its sub-blocks are known to read back. */
  lemma ImageBlockFromLayout(b: seq<byte>, i: nat, ib: ImageBlock, sizeField: nat, j: nat)
    requires EncodableImageBlock(ib, sizeField)
    requires i + 10 + |TableBytes(ib)| < |b|
    requires b[i .. i + 10] == ImageDescriptorBytes(ib, sizeField)
    requires b[i + 10 .. i + 10 + |TableBytes(ib)|] == TableBytes(ib)
    requires b[i + 10 + |TableBytes(ib)|] == ib.lzwMinimumCodeSize
    requires SubBlocksAt(b, i + 11 + |TableBytes(ib)|) == Some((DataOrEmpty(ib.imageDataList), j))
    ensures ParseImageBlock(b, i) == Some((ib, j))
  {
    var blocks := DataOrEmpty(ib.imageDataList);
    var codeSizeAt := i + 10 + |TableBytes(ib)|;
    DescriptorFromLayout(b, i, ib, sizeField);
    assert ListOrNull(blocks) == ib.imageDataList;
    ParseImageBlockAt(b, i, codeSizeAt, blocks, j);
  }

  /** The descriptor and local colour table of an encoded image block
      read back as the block's own fields. */
  lemma DescriptorFromLayout(b: seq<byte>, i: nat, ib: ImageBlock, sizeField: nat)
    requires EncodableImageBlock(ib, sizeField)
    requires i + 10 + |TableBytes(ib)| <= |b|
    requires b[i .. i + 10] == ImageDescriptorBytes(ib, sizeField)
    requires b[i + 10 .. i + 10 + |TableBytes(ib)|] == TableBytes(ib)
    ensures var packed := b[i + 9]; var flag := And(packed, 128) == 128; var size := TableSize(packed);
      && i + 10 + |TableBytes(ib)| == (if flag then i + 10 + 3 * size else i + 10)
      && (if flag then Some(ColorTableOf(b, i + 10, size)) else None) == ib.localColorTable
      && b[i] == ib.imageSeparator
      && ToUInt16(b, i + 1) == ib.imageLeftPosition && ToUInt16(b, i + 3) == ib.imageTopPosition
      && ToUInt16(b, i + 5) == ib.imageWidth && ToUInt16(b, i + 7) == ib.imageHeight
      && flag == ib.localColorTableFlag && size == ib.sizeOfLocalColorTable
      && (And(packed, 64) == 64) == ib.interlaceFlag && (And(packed, 32) == 32) == ib.sortFlag
  {
    ImageDescriptorRoundTrip(b, i, ib, sizeField);
    ImagePackedFields(ib, sizeField);
    if ib.localColorTableFlag {
      TableRoundTrip(b, i + 10, ib.localColorTable.value);
    }
  }

  /** The parts of an encoded image block, written anywhere in a buffer,
      as the image block parser looks for them: the descriptor, the local
      table, the code size byte and sub-blocks that read back. */
  lemma ImageBlockPieces(pre: seq<byte>, ib: ImageBlock, sizeField: nat, post: seq<byte>)
    requires EncodableImageBlock(ib, sizeField)
    ensures var b := pre + EncodeImageBlock(ib, sizeField) + post; var i := |pre|;
      var j := i + |EncodeImageBlock(ib, sizeField)|;
      && i + 10 + |TableBytes(ib)| < |b|
      && b[i .. i + 10] == ImageDescriptorBytes(ib, sizeField)
      && b[i + 10 .. i + 10 + |TableBytes(ib)|] == TableBytes(ib)
      && b[i + 10 + |TableBytes(ib)|] == ib.lzwMinimumCodeSize
      && SubBlocksAt(b, i + 11 + |TableBytes(ib)|) == Some((DataOrEmpty(ib.imageDataList), j))
  {
    var b := pre + EncodeImageBlock(ib, sizeField) + post;
    var blocks := DataOrEmpty(ib.imageDataList);
    var dataAt := |pre| + 11 + |TableBytes(ib)|;
    ImageBlockLayout(pre, ib, sizeField, post);
    assert WellFormedSubBlocks(blocks) by {
      if ib.imageDataList.None? {
        assert blocks == [];
      }
    }
    SubBlocksInside(b, dataAt, blocks, post);
  }

  /** Round trip: an encodable image block, written anywhere in a buffer,
      is parsed back unchanged and the cursor ends just after it. */
  lemma ImageBlockRoundTrip(pre: seq<byte>, ib: ImageBlock, sizeField: nat, post: seq<byte>)
    requires EncodableImageBlock(ib, sizeField)
    ensures var e := EncodeImageBlock(ib, sizeField);
      ParseImageBlock(pre + e + post, |pre|) == Some((ib, |pre| + |e|))
  {
    ImageBlockPieces(pre, ib, sizeField, post);
    ImageBlockFromLayout(pre + EncodeImageBlock(ib, sizeField) + post, |pre|, ib, sizeField,
                         |pre| + |EncodeImageBlock(ib, sizeField)|);
  }

  // ---------------------------------------------------------------------
  // Graphic control extensions

  /** A graphic control extension as it appears in a file, for disposal
      methods 0..3. */
  function EncodeGraphicControlExtension(e: GraphicControlExtension): seq<byte>
    requires e.disposalMethod <= 3
  {
    [e.extensionIntroducer, e.graphicControlLabel, e.blockSize,
     4 * e.disposalMethod + (if e.transparentColorFlag then 1 else 0),
     e.delayTime % 256, e.delayTime / 256, e.transparentColorIndex, e.blockTerminator]
  }

  /** Round trip: an extension with disposal method 0..3 is parsed back
      unchanged, and it takes exactly 8 bytes. */
  lemma GraphicControlExtensionRoundTrip(pre: seq<byte>, e: GraphicControlExtension, post: seq<byte>)
    requires e.disposalMethod <= 3
    ensures ParseGraphicControlExtension(pre + EncodeGraphicControlExtension(e) + post, |pre|)
            == Some((e, |pre| + 8))
  {
    var enc := EncodeGraphicControlExtension(e);
    var b := pre + enc + post;
    var i := |pre|;
    assert b[i .. i + 8] == enc;
    assert b[i] == enc[0] && b[i + 1] == enc[1] && b[i + 2] == enc[2] && b[i + 3] == enc[3];
    assert b[i + 4] == enc[4] && b[i + 5] == enc[5] && b[i + 6] == enc[6] && b[i + 7] == enc[7];
    PackedDisposal(e.disposalMethod, e.transparentColorFlag);
    assert ToUInt16(b, i + 4) == e.delayTime;
  }

  /** The packed byte the encoder writes reads back as its disposal
      method and transparency flag. */
  lemma PackedDisposal(d: u16, flag: bool)
    requires d <= 3
    ensures var packed: byte := 4 * d + (if flag then 1 else 0);
      DisposalOf(packed) == d && (And(packed, 1) == 1) == flag
  {
    var f := if flag then 1 else 0;
    var packed: byte := 4 * d + f;
    BitReader.DivModUnique(packed, 4, d as int, f);
    BitReader.DivModUnique(packed, 2, 2 * d as int, f);
    assert (packed / 4) % 8 == d;
    DisposalIsField(packed);
    FlagBits(packed);
  }

  /** The fields a graphic control extension decodes: the disposal field
      (bits 4-2 when they are 1..3, otherwise 0), the transparency flag
      (bit 0) and the little-endian delay. */
  lemma GraphicControlExtensionFields(b: seq<byte>, i: nat)
    requires ParseGraphicControlExtension(b, i).Some?
    ensures var (e, j) := ParseGraphicControlExtension(b, i).value; var field := (b[i + 3] / 4) % 8;
      && j == i + 8
      && e.disposalMethod == (if 1 <= field <= 3 then field else 0)
      && e.transparentColorFlag == (b[i + 3] % 2 == 1)
      && e.delayTime == (b[i + 4] as int) + 256 * (b[i + 5] as int)
      && e.transparentColorIndex == b[i + 6]
  {
    FlagBits(b[i + 3]);
    DisposalIsField(b[i + 3]);
  }

  // ---------------------------------------------------------------------
  // Extensions with sub-blocks: fixed prefixes of 2, 15 and 14 bytes

  /** A comment extension is introducer and label, then sub-blocks. */
  lemma CommentExtensionLength(b: seq<byte>, i: nat)
    requires ParseCommentExtension(b, i).Some?
    ensures var (e, j) := ParseCommentExtension(b, i).value;
      b[i + 2 .. j] == EncodeSubBlocks(DataOrEmpty(e.commentDataList))
  {
    SubBlocksInverse(b, i + 2);
  }

  /** A plain text extension is 15 bytes (introducer, label, block size and
      twelve skipped bytes), then sub-blocks. */
  lemma PlainTextExtensionLength(b: seq<byte>, i: nat)
    requires ParsePlainTextExtension(b, i).Some?
    ensures var (e, j) := ParsePlainTextExtension(b, i).value;
      b[i + 15 .. j] == EncodeSubBlocks(DataOrEmpty(e.plainTextDataList))
  {
    SubBlocksInverse(b, i + 15);
  }

  /** An application extension is 14 bytes (introducer, label, block size,
      8-byte identifier, 3-byte authentication code), then sub-blocks; its
      sub-blocks are added after those of earlier application extensions
      and its fixed fields replace theirs. */
  lemma ApplicationExtensionFields(b: seq<byte>, i: nat, ext: ApplicationExtension)
    requires ParseApplicationExtension(b, i, ext).Some?
    ensures var (e, j) := ParseApplicationExtension(b, i, ext).value;
      && i + 14 <= |b|
      && e.ApplicationIdentifier() == seq(8, k requires 0 <= k < 8 => b[i + 3 + k] as char)
      && e.ApplicationAuthenticationCode() == [b[i + 11] as char, b[i + 12] as char, b[i + 13] as char]
      && DataOrEmpty(e.appDataList) == DataOrEmpty(ext.appDataList) + SubBlocksAt(b, i + 14).value.0
      && b[i + 14 .. j] == EncodeSubBlocks(SubBlocksAt(b, i + 14).value.0)
  {
    SubBlocksInverse(b, i + 14);
  }

  // ---------------------------------------------------------------------
  // The block loop

  /** The loop succeeds only by reaching a trailer byte, which it records
      and consumes. */
  lemma {:induction false} BlocksEndAtTrailer(b: seq<byte>, i: nat, lastIndex: nat, gd: GifData)
    requires ParseBlocks(b, i, lastIndex, gd).Some?
    ensures var c := ParseBlocks(b, i, lastIndex, gd).value;
      i < c.byteIndex <= |b| && b[c.byteIndex - 1] == 0x3b && c.gifData.trailer == 0x3b
    decreases |b| - i, if lastIndex == i then 0 else 1
  {
    if b[i] != 0x3b {
      var c := BlockStep(b, i, gd).value;
      BlocksEndAtTrailer(b, c.byteIndex, i, c.gifData);
    }
  }

  /** A byte that starts no block (not 0x2C, 0x21 or 0x3B) makes the loop
      fail: the pass does not move the cursor, and the next pass sees that. */
  lemma UnknownBlockFails(b: seq<byte>, i: nat, lastIndex: nat, gd: GifData)
    requires i < |b| && b[i] != 0x2c && b[i] != 0x21 && b[i] != 0x3b
    ensures ParseBlocks(b, i, lastIndex, gd).None?
  {
    assert BlockStep(b, i, gd) == Some(Cursor(gd, i));
    if lastIndex != i {
      assert ParseBlocks(b, i, lastIndex, gd) == ParseBlocks(b, i, i, gd);
    }
  }

  /** So does an extension whose label is none of 0xF9, 0xFE, 0x01, 0xFF. */
  lemma UnknownExtensionFails(b: seq<byte>, i: nat, lastIndex: nat, gd: GifData)
    requires i + 1 < |b| && b[i] == 0x21
    requires b[i + 1] != 0xf9 && b[i + 1] != 0xfe && b[i + 1] != 0x01 && b[i + 1] != 0xff
    ensures ParseBlocks(b, i, lastIndex, gd).None?
  {
    assert BlockStep(b, i, gd) == Some(Cursor(gd, i));
    if lastIndex != i {
      assert ParseBlocks(b, i, lastIndex, gd) == ParseBlocks(b, i, i, gd);
    }
  }

  /** `list` is `list'` with possibly more elements added at the end. */
  predicate Extends<T(==)>(list: Option<seq<T>>, list': Option<seq<T>>)
  {
    list.Some? ==> list'.Some? && list.value <= list'.value
  }

  /** `d` is `gd` with blocks added at the ends of its lists and perhaps
      the application extension's fixed fields and the trailer replaced:
      the header fields are the same. */
  predicate OnlyAppended(gd: GifData, d: GifData)
  {
    && Extends(gd.imageBlockList, d.imageBlockList)
    && Extends(gd.graphicCtrlExList, d.graphicCtrlExList)
    && Extends(gd.commentExList, d.commentExList)
    && Extends(gd.plainTextExList, d.plainTextExList)
    && Extends(gd.appEx.appDataList, d.appEx.appDataList)
    && d.(imageBlockList := gd.imageBlockList, graphicCtrlExList := gd.graphicCtrlExList,
          commentExList := gd.commentExList, plainTextExList := gd.plainTextExList,
          appEx := gd.appEx, trailer := gd.trailer) == gd
  }

  lemma AppendExtends<T>(list: Option<seq<T>>, x: T)
    ensures Extends(list, Append(list, x))
  {
  }

  lemma AppendAllExtends<T>(list: Option<seq<T>>, xs: seq<T>)
    ensures Extends(list, AppendAll(list, xs))
  {
  }

  lemma OnlyAppendedTransitive(a: GifData, b: GifData, c: GifData)
    requires OnlyAppended(a, b) && OnlyAppended(b, c)
    ensures OnlyAppended(a, c)
  {
  }

  /** One pass of the loop only appends. */
  lemma StepOnlyAppends(b: seq<byte>, i: nat, gd: GifData)
    requires i < |b| && BlockStep(b, i, gd).Some?
    ensures OnlyAppended(gd, BlockStep(b, i, gd).value.gifData)
  {
    if b[i] == 0x2c {
      AppendExtends(gd.imageBlockList, ParseImageBlock(b, i).value.0);
    } else if b[i] == 0x21 && i + 1 < |b| {
      if b[i + 1] == 0xf9 {
        AppendExtends(gd.graphicCtrlExList, ParseGraphicControlExtension(b, i).value.0);
      } else if b[i + 1] == 0xfe {
        AppendExtends(gd.commentExList, ParseCommentExtension(b, i).value.0);
      } else if b[i + 1] == 0x01 {
        AppendExtends(gd.plainTextExList, ParsePlainTextExtension(b, i).value.0);
      } else if b[i + 1] == 0xff {
        AppendAllExtends(gd.appEx.appDataList, SubBlocksAt(b, i + 14).value.0);
      }
    }
  }

  /** Every list the loop fills only grows at its end, so nothing parsed
      earlier is dropped or reordered by a later block, and the header
      fields are never touched. */
  lemma {:induction false} BlocksOnlyAppend(b: seq<byte>, i: nat, lastIndex: nat, gd: GifData)
    requires ParseBlocks(b, i, lastIndex, gd).Some?
    ensures OnlyAppended(gd, ParseBlocks(b, i, lastIndex, gd).value.gifData)
    decreases |b| - i, if lastIndex == i then 0 else 1
  {
    if b[i] != 0x3b {
      var c := BlockStep(b, i, gd).value;
      StepOnlyAppends(b, i, gd);
      BlocksOnlyAppend(b, c.byteIndex, i, c.gifData);
      OnlyAppendedTransitive(gd, c.gifData, ParseBlocks(b, i, lastIndex, gd).value.gifData);
    }
  }

  /** The whole parse: a document that parses starts "GIF87a" or "GIF89a"
      and ends with a trailer. */
  lemma ParsedDocument(bytes: seq<byte>, gd: GifData)
    requires ParseGif(Some(bytes), gd).Parsed?
    ensures IsGifHeader(bytes) && HeaderComplete(bytes)
    ensures var d := ParseGif(Some(bytes), gd).gifData;
      d.Signature() == "GIF" && (d.Version() == "87a" || d.Version() == "89a") && d.trailer == 0x3b
  {
    HeaderAcceptance(bytes, gd);
    var h := ParseHeader(bytes, gd);
    HeaderSignature(bytes, gd);
    BlocksEndAtTrailer(bytes, h.byteIndex, 0, h.gifData);
    BlocksOnlyAppend(bytes, h.byteIndex, 0, h.gifData);
  }
}
