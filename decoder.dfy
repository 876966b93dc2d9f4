/** The frame compositor of UniGifDecoder.cs: `DecodeTexture` turns the
    image blocks of a parsed GIF into full-screen frames, one per block.
    For each block it decodes the LZW data (de-interlacing it when the
    block is interlaced), picks the colour table and background colour,
    reads the block's Graphic Control Extension, starts from a fresh
    canvas or a copy of an earlier frame (the previous block's disposal
    method decides), and paints the block's rectangle onto it.

    A Unity texture is modelled as the sequence (or array) of its
    `Color32` pixels, texture row y and column x at y * width + x, with
    texture row 0 at the bottom; GIF row r lands in texture row
    height - 1 - r. The colour of a newly created texture is a parameter,
    `blank`. Delays are in hundredths of a second. */
module Decoder {
  import opened Common
  import opened BitReader
  import opened GifConst
  import opened Lzw
  import LzwProps
  import opened Interlace

  /** A Unity `Color32`. */
  datatype Color32 = Color32(r: byte, g: byte, b: byte, a: byte)

  /** `Color.black` as a `Color32`. */
  const Black: Color32 := Color32(0, 0, 0, 255)

  /** A decoded frame: its pixels and its delay in hundredths of a second. */
  datatype GifTexture = GifTexture(pixels: seq<Color32>, delay: nat)

  /** A value, or the exception that escaped while computing it. */
  datatype Result<T> = Ok(value: T) | Err(fault: Fault)

  // ---------------------------------------------------------------------
  // Per-frame settings

  /** The colour-table entry `index` with alpha 255: a `null` table throws
      NullReference, an index past its end ArgumentOutOfRange (modelled
      as IndexOutOfRange). */
  function TableColor(table: Option<seq<Rgb>>, index: byte): (r: Result<Color32>)
    ensures r.Ok? <==> table.Some? && index < |table.value|
    ensures r.Err? ==> r.fault == (if table.None? then NullReference else IndexOutOfRange)
    ensures r.Ok? ==> var c := table.value[index];
      r.value.r == c.r && r.value.g == c.g && r.value.b == c.b && r.value.a == 255
  {
    if table.None? then Err(NullReference)
    else if index >= |table.value| then Err(IndexOutOfRange)
    else
      var c := table.value[index];
      Ok(Color32(c.r, c.g, c.b, 255))
  }

  /** `GetGlobalBgColor`: the global table's background entry when the
      global table flag is set, else no background. */
  function GlobalBgColor(gd: GifData): (r: Result<Option<Color32>>)
    ensures !gd.globalColorTableFlag ==> r == Ok(None)
    ensures gd.globalColorTableFlag ==>
      (r.Ok? <==> gd.globalColorTable.Some? && gd.bgColorIndex < |gd.globalColorTable.value|)
    ensures r.Ok? && r.value.Some? ==> r.value.value.a == 255
  {
    if !gd.globalColorTableFlag then Ok(None)
    else match TableColor(gd.globalColorTable, gd.bgColorIndex)
      case Err(f) => Err(f)
      case Ok(c) => Ok(Some(c))
  }

  /** `GetColorTable`: the local table when the block has one (and then
      the background colour becomes the local table's entry at the
      screen's background index), else the global table and the
      background colour unchanged. */
  function ColorTable(gd: GifData, blk: ImageBlock, bgColor: Option<Color32>): (r: Result<(Option<seq<Rgb>>, Option<Color32>)>)
    ensures !blk.localColorTableFlag ==> r == Ok((gd.globalColorTable, bgColor))
    ensures blk.localColorTableFlag ==>
      (r.Ok? <==> blk.localColorTable.Some? && gd.bgColorIndex < |blk.localColorTable.value|)
    ensures blk.localColorTableFlag && r.Ok? ==>
      r.value.0 == blk.localColorTable && r.value.1.Some? && r.value.1.value.a == 255
  {
    if !blk.localColorTableFlag then Ok((gd.globalColorTable, bgColor))
    else match TableColor(blk.localColorTable, gd.bgColorIndex)
      case Err(f) => Err(f)
      case Ok(c) => Ok((blk.localColorTable, Some(c)))
  }

  /** `GetGraphicCtrlExt`: frame i's extension is the i-th one, when there
      are more than i. */
  function GraphicCtrlExt(gd: GifData, i: nat): (r: Option<GraphicControlExtension>)
    ensures r.Some? <==> gd.graphicCtrlExList.Some? && |gd.graphicCtrlExList.value| > i
    ensures r.Some? ==> r.value == gd.graphicCtrlExList.value[i]
  {
    if gd.graphicCtrlExList.Some? && |gd.graphicCtrlExList.value| > i
    then Some(gd.graphicCtrlExList.value[i])
    else None
  }

  /** `GetTransparentIndex`: -1 unless the extension exists and sets its
      transparency flag. */
  function TransparentIndex(ext: Option<GraphicControlExtension>): (t: int)
    ensures -1 <= t <= 255
    ensures t >= 0 <==> ext.Some? && ext.value.transparentColorFlag
    ensures t >= 0 ==> t == ext.value.transparentColorIndex as int
  {
    if ext.Some? && ext.value.transparentColorFlag then ext.value.transparentColorIndex as int else -1
  }

  /** `GetDelaySec`, in hundredths of a second: the extension's delay,
      raised to 10 (0.1 s) when shorter or when there is no extension. */
  function DelaySec(ext: Option<GraphicControlExtension>): (d: nat)
    ensures d >= 10
    ensures ext.None? ==> d == 10
    ensures ext.Some? ==> d == if ext.value.delayTime < 10 then 10 else ext.value.delayTime
  {
    var delay := if ext.Some? then ext.value.delayTime else 10;
    if delay < 10 then 10 else delay
  }

  /** `GetDisposalMethod`: the extension's method, 2 (restore to the
      background) when there is none. */
  function DisposalMethod(ext: Option<GraphicControlExtension>): (d: u16)
    ensures ext.None? ==> d == 2
    ensures ext.Some? ==> d == ext.value.disposalMethod
  {
    if ext.Some? then ext.value.disposalMethod else 2
  }

  /** The frame whose pixels `CreateTexture2D` copies, or -1 for a fresh
      canvas: the previous frame after disposal 0 or 1, the one before it
      after disposal 3. The source's test `i > 0 && d == 0 || d == 1`
      groups as `(i > 0 && d == 0) || d == 1`. */
  function BeforeIndex(i: nat, d: u16): (b: int)
    ensures -1 <= b < i
    ensures b >= 0 <==> (i > 0 && d <= 1) || (i > 1 && d == 3)
    ensures b >= 0 && d <= 1 ==> b == i - 1
    ensures b >= 0 && d == 3 ==> b == i - 2
  {
    if (i > 0 && d == 0) || d == 1 then i - 1
    else if i > 1 && d == 3 then i - 2
    else -1
  }

  // ---------------------------------------------------------------------
  // Decoded data

  /** The LZW data of an image: its sub-blocks' bytes, in order. */
  function Flatten(blocks: seq<SubBlock>): (r: seq<byte>)
  {
    if |blocks| == 0 then [] else Flatten(blocks[..|blocks| - 1]) + blocks[|blocks| - 1].data
  }

  /** `imageHeight * imageWidth` as a C# `int`: the product of two
      `ushort`s wraps to a negative value from 2^31 on. */
  function NeedDataSize(blk: ImageBlock): (n: int)
    ensures n >= 0 <==> blk.imageHeight * blk.imageWidth < 0x8000_0000
    ensures n >= 0 ==> n == blk.imageHeight * blk.imageWidth
  {
    MulLe(blk.imageHeight, 65535, blk.imageWidth, 65535);
    Int32Of(blk.imageHeight * blk.imageWidth)
  }

  lemma MulLe(a: nat, b: nat, c: nat, d: nat)
    requires a <= b && c <= d
    ensures a * c <= b * d
  {
    assert a * c <= b * c;
  }

  /** `GetDecodedData`: a block without sub-blocks (a `null` list) throws,
      then the LZW decoding of the concatenated sub-blocks, de-interlaced
      when the block is interlaced. */
  function DecodedData(blk: ImageBlock): Result<seq<byte>>
  {
    if blk.imageDataList.None? then Err(NullReference)
    else match Decompress(Flatten(blk.imageDataList.value), blk.lzwMinimumCodeSize, NeedDataSize(blk))
      case LzwFault(f) => Err(f)
      case Output(data) => Ok(if blk.interlaceFlag then Deinterlace(data, blk.imageWidth) else data)
  }

  /** A successful LZW decoding has exactly the requested size. */
  lemma OutputLength(compData: seq<byte>, m: nat, need: int)
    requires Decompress(compData, m, need).Output?
    ensures need >= 0 && |Decompress(compData, m, need).data| == need
  {
    if need >= 0 {
      LzwProps.OutputFraming(compData, m, need);
    }
  }

  // ---------------------------------------------------------------------
  // Painting one frame

  /** Whether GIF row `row` lies in the block's rectangle. */
  predicate InRows(blk: ImageBlock, row: int)
  {
    blk.imageTopPosition <= row < blk.imageTopPosition + blk.imageHeight
  }

  /** Whether pixel (x, row) lies in the block's rectangle. */
  predicate InRect(blk: ImageBlock, row: int, x: int)
  {
    InRows(blk, row) && blk.imageLeftPosition <= x < blk.imageLeftPosition + blk.imageWidth
  }

  /** How many columns of the rectangle lie on a canvas `width` wide. */
  function Cols(blk: ImageBlock, width: nat): (c: nat)
    ensures c <= blk.imageWidth
  {
    if blk.imageLeftPosition >= width then 0
    else if blk.imageLeftPosition + blk.imageWidth <= width then blk.imageWidth
    else width - blk.imageLeftPosition
  }

  /** How many rows of the rectangle lie above GIF row `row`. */
  function RowsBefore(blk: ImageBlock, row: int): (n: nat)
    ensures n <= blk.imageHeight
  {
    if row <= blk.imageTopPosition then 0
    else if row >= blk.imageTopPosition + blk.imageHeight then blk.imageHeight
    else row - blk.imageTopPosition
  }

  /** How many columns of the rectangle lie left of column x. */
  function ColsBefore(blk: ImageBlock, x: int): (n: nat)
    ensures n <= blk.imageWidth
  {
    if x <= blk.imageLeftPosition then 0
    else if x >= blk.imageLeftPosition + blk.imageWidth then blk.imageWidth
    else x - blk.imageLeftPosition
  }

  /** How many decoded indices the source has consumed when it reaches
      pixel (x, row) of a canvas `width` wide: one per rectangle pixel
      on the canvas, in row-major order. For a pixel of the rectangle it
      is the index of the pixel's own colour. */
  function DataIndexAt(blk: ImageBlock, width: nat, row: int, x: int): nat
  {
    RowsBefore(blk, row) * Cols(blk, width) + (if InRows(blk, row) then ColsBefore(blk, x) else 0)
  }

  /** What one frame paints: its block, decoded data, colour table,
      background colour, transparent index, and whether it starts from a
      copy of an earlier frame. */
  datatype Layer = Layer(
    block: ImageBlock,
    data: seq<byte>,
    table: Option<seq<Rgb>>,
    bgColor: Option<Color32>,
    transparentIndex: int,
    useBeforeTex: bool)

  /** The new colour of texture pixel (x, y), whose colour was `before`. */
  function PixelAt(before: Color32, width: nat, height: nat, x: int, y: int, l: Layer): Color32
  {
    var row := height - 1 - y;
    if !InRect(l.block, row, x) then
      if !l.useBeforeTex && l.bgColor.Some? then l.bgColor.value else before
    else
      var k := DataIndexAt(l.block, width, row, x);
      if k >= |l.data| then Black
      else if l.table.None? || l.data[k] >= |l.table.value| then before
      else
        var c := l.table.value[l.data[k]];
        var alpha: byte := if l.transparentIndex >= 0 && l.transparentIndex == l.data[k] then 0 else 255;
        if alpha != 0 || !l.useBeforeTex then Color32(c.r, c.g, c.b, alpha) else before
  }

  /** Painting throws NullReference exactly when the colour table is
      `null` and the first rectangle pixel on the canvas has data. */
  predicate PaintFaults(width: nat, height: nat, l: Layer)
  {
    l.table.None? && |l.data| > 0 && RowsBefore(l.block, height) > 0 && Cols(l.block, width) > 0
  }

  /** The rows loop of `DecodeTexture` over a canvas of width * height
      pixels. */
  function Paint(canvas: seq<Color32>, width: nat, height: nat, l: Layer): (r: Result<seq<Color32>>)
    requires |canvas| == width * height
  {
    if PaintFaults(width, height, l) then Err(NullReference)
    else Ok(seq(width * height, k requires 0 <= k < width * height =>
      PixelAt(canvas[k], width, height, k % width, k / width, l)))
  }

  // ---------------------------------------------------------------------
  // All frames

  /** The frames so far, each of n pixels. */
  predicate Sized(frames: seq<GifTexture>, n: nat)
  {
    forall i :: 0 <= i < |frames| ==> |frames[i].pixels| == n
  }

  /** The canvas `CreateTexture2D` starts from: a copy of frame `before`,
      or a fresh texture. */
  function StartCanvas(frames: seq<GifTexture>, before: int, n: nat, blank: Color32): (c: seq<Color32>)
    requires before < |frames| && Sized(frames, n)
    ensures |c| == n
  {
    if before >= 0 then frames[before].pixels else seq(n, _ => blank)
  }

  /** What `DecodeTexture` carries from one block to the next. */
  datatype Carry = Carry(bgColor: Option<Color32>, disposalMethod: u16, frames: seq<GifTexture>)

  function ScreenSize(gd: GifData): nat
  {
    gd.logicalScreenWidth * gd.logicalScreenHeight
  }

  /** One iteration of `DecodeTexture`'s loop, for block i. */
  function FrameStep(gd: GifData, i: nat, blk: ImageBlock, c: Carry, blank: Color32): (r: Result<Carry>)
    requires |c.frames| == i && Sized(c.frames, ScreenSize(gd))
    ensures r.Ok? ==> |r.value.frames| == i + 1 && Sized(r.value.frames, ScreenSize(gd))
    ensures r.Ok? ==> r.value.frames[..i] == c.frames
  {
    match DecodedData(blk)
    case Err(f) => Err(f)
    case Ok(data) =>
      match ColorTable(gd, blk, c.bgColor)
      case Err(f) => Err(f)
      case Ok(tb) =>
        var ext := GraphicCtrlExt(gd, i);
        var before := BeforeIndex(i, c.disposalMethod);
        var l := Layer(blk, data, tb.0, tb.1, TransparentIndex(ext), before >= 0);
        var canvas := StartCanvas(c.frames, before, ScreenSize(gd), blank);
        match Paint(canvas, gd.logicalScreenWidth, gd.logicalScreenHeight, l)
        case Err(f) => Err(f)
        case Ok(px) =>
          assert (c.frames + [GifTexture(px, DelaySec(ext))])[..i] == c.frames;
          Ok(Carry(tb.1, DisposalMethod(ext), c.frames + [GifTexture(px, DelaySec(ext))]))
  }

  /** The state after the first n blocks; the global background colour
      is read first. */
  function FramesFrom(gd: GifData, blocks: seq<ImageBlock>, n: nat, blank: Color32): (r: Result<Carry>)
    requires n <= |blocks|
    ensures r.Ok? ==> |r.value.frames| == n && Sized(r.value.frames, ScreenSize(gd))
  {
    if n == 0 then
      match GlobalBgColor(gd)
      case Err(f) => Err(f)
      case Ok(bg) => Ok(Carry(bg, 0, []))
    else
      match FramesFrom(gd, blocks, n - 1, blank)
      case Err(f) => Err(f)
      case Ok(c) => FrameStep(gd, n - 1, blocks[n - 1], c, blank)
  }

  /** What `DecodeTexture` reports. */
  datatype Decoded = NoImageBlocks | Frames(textures: seq<GifTexture>) | DecodeFault(fault: Fault)

  /** `DecodeTexture`: false without image blocks, else one frame per
      block, unless an exception escapes. */
  function DecodeFrames(gd: GifData, blank: Color32): Decoded
  {
    if gd.imageBlockList.None? || |gd.imageBlockList.value| < 1 then NoImageBlocks
    else match FramesFrom(gd, gd.imageBlockList.value, |gd.imageBlockList.value|, blank)
      case Err(f) => DecodeFault(f)
      case Ok(c) => Frames(c.frames)
  }

  /** A fault in an early block is the result of every later one. */
  lemma {:induction false} FaultPersists(gd: GifData, blocks: seq<ImageBlock>, n: nat, m: nat, blank: Color32)
    requires n <= m <= |blocks| && FramesFrom(gd, blocks, n, blank).Err?
    ensures FramesFrom(gd, blocks, m, blank) == FramesFrom(gd, blocks, n, blank)
    decreases m
  {
    if n < m {
      FaultPersists(gd, blocks, n, m - 1, blank);
    }
  }

  // ---------------------------------------------------------------------
  // The C# routines

  /** `GetDecodedData`. */
  method GetDecodedData(imgBlock: ImageBlock) returns (r: Result<seq<byte>>)
    ensures r == DecodedData(imgBlock)
    ensures r.Ok? ==> |r.value| == imgBlock.imageHeight * imgBlock.imageWidth
  {
    if imgBlock.imageDataList.None? {
      return Err(NullReference);
    }
    var lzwData := CombineLzwData(imgBlock.imageDataList.value);
    // LZW decode
    var needDataSize := NeedDataSize(imgBlock);
    var decoded := DecodeGifLzw(lzwData, imgBlock.lzwMinimumCodeSize, needDataSize);
    if decoded.LzwFault? {
      return Err(decoded.fault);
    }
    var decodedData := decoded.data;
    OutputLength(lzwData, imgBlock.lzwMinimumCodeSize, needDataSize);
    assert |decodedData| == imgBlock.imageHeight * imgBlock.imageWidth;
    // Sort interlace GIF
    if imgBlock.interlaceFlag {
      if imgBlock.imageWidth == 0 {
        MulLe(imgBlock.imageHeight, imgBlock.imageHeight, 0, 0);
      }
      var newArr := SortInterlaceGifData(decodedData, imgBlock.imageWidth);
      decodedData := newArr[..];
    }
    return Ok(decodedData);
  }

  /** The loops of `GetDecodedData` that combine the sub-blocks' bytes. */
  method CombineLzwData(imageDataList: seq<SubBlock>) returns (lzwData: seq<byte>)
    ensures lzwData == Flatten(imageDataList)
  {
    lzwData := [];
    for i := 0 to |imageDataList|
      invariant lzwData == Flatten(imageDataList[..i])
    {
      var imageData := imageDataList[i].data;
      for j := 0 to |imageData|
        invariant lzwData == Flatten(imageDataList[..i]) + imageData[..j]
      {
        lzwData := lzwData + [imageData[j]];
      }
      assert imageDataList[..i + 1][..i] == imageDataList[..i];
    }
    assert imageDataList[..|imageDataList|] == imageDataList;
  }

  /** `CreateTexture2D`: a fresh texture, or a copy of the frame that the
      previous block's disposal method selects. */
  method CreateTexture2D(gifData: GifData, gifTexList: seq<GifTexture>, imgBlockIndex: nat, disposalMethod: u16, blank: Color32)
    returns (tex: array<Color32>, useBeforeTex: bool)
    requires |gifTexList| == imgBlockIndex && Sized(gifTexList, ScreenSize(gifData))
    ensures fresh(tex)
    ensures useBeforeTex <==> BeforeIndex(imgBlockIndex, disposalMethod) >= 0
    ensures tex[..] == StartCanvas(gifTexList, BeforeIndex(imgBlockIndex, disposalMethod), ScreenSize(gifData), blank)
  {
    var n := ScreenSize(gifData);
    tex := new Color32[n](_ => blank);
    useBeforeTex := false;
    var beforeIndex := BeforeIndex(imgBlockIndex, disposalMethod);
    if beforeIndex >= 0 {
      // Do not dispose
      useBeforeTex := true;
      var pix := gifTexList[beforeIndex].pixels;
      tex := new Color32[n](k requires 0 <= k < n => pix[k]);
    }
  }

  /** Texture row y < height ends within a width * height texture. */
  lemma RowFits(y: nat, width: nat, height: nat)
    requires y < height
    ensures y * width + width <= width * height
  {
    MulLe(y + 1, height, width, width);
    assert (y + 1) * width == y * width + width;
  }

  /** The indices consumed by the end of a row are those consumed at the
      start of the next. */
  lemma RowEnd(blk: ImageBlock, width: nat, row: int)
    ensures DataIndexAt(blk, width, row, width) == DataIndexAt(blk, width, row + 1, 0)
  {
    var c := Cols(blk, width);
    if InRows(blk, row) {
      assert RowsBefore(blk, row + 1) == RowsBefore(blk, row) + 1;
      assert (RowsBefore(blk, row) + 1) * c == RowsBefore(blk, row) * c + c;
    }
  }

  /** The positions of texture row y, as column and row. */
  lemma RowCoordinates(width: nat, y: nat)
    ensures forall k :: y * width <= k < y * width + width ==> k / width == y && k % width == k - y * width
  {
    forall k | y * width <= k < y * width + width
      ensures k / width == y && k % width == k - y * width
    {
      Coordinates(k, width, y);
    }
  }

  /** Texture position k lies in texture row y at column k - y * width. */
  lemma Coordinates(k: int, width: nat, y: nat)
    requires y * width <= k < y * width + width
    ensures k / width == y && k % width == k - y * width
  {
    DivModUnique(k, width, y, k - y * width);
  }

  /** `SetTexturePixelRow` for texture row y: paints the row's pixels
      left to right, consuming one decoded index per rectangle pixel. */
  method SetTexturePixelRow(tex: array<Color32>, width: nat, height: nat, y: nat, imgBlock: ImageBlock,
                            decodedData: seq<byte>, dataIndex0: nat, colorTable: Option<seq<Rgb>>,
                            bgColor: Option<Color32>, transparentIndex: int, useBeforeTex: bool)
    returns (dataIndex: nat, fault: Option<Fault>)
    requires tex.Length == width * height && y < height
    requires dataIndex0 == DataIndexAt(imgBlock, width, height - 1 - y, 0)
    requires colorTable.None? && |decodedData| > 0 ==> dataIndex0 == 0
    modifies tex
    ensures fault.Some? <==> colorTable.None? && |decodedData| > 0 && InRows(imgBlock, height - 1 - y) && Cols(imgBlock, width) > 0
    ensures fault.Some? ==> fault.value == NullReference
    ensures fault.None? ==> dataIndex == DataIndexAt(imgBlock, width, height - y, 0)
    ensures fault.None? && colorTable.None? && |decodedData| > 0 ==> dataIndex == 0
    ensures fault.None? ==> forall k :: 0 <= k < tex.Length ==>
      tex[k] == if y * width <= k < y * width + width
                then PixelAt(old(tex[k]), width, height, k % width, k / width,
                             Layer(imgBlock, decodedData, colorTable, bgColor, transparentIndex, useBeforeTex))
                else old(tex[k])
  {
    ghost var l := Layer(imgBlock, decodedData, colorTable, bgColor, transparentIndex, useBeforeTex);
    // Row no (0~)
    var row := height - 1 - y;
    var base := y * width;
    RowFits(y, width, height);
    dataIndex := dataIndex0;
    for x := 0 to width
      invariant dataIndex == DataIndexAt(imgBlock, width, row, x)
      invariant colorTable.None? && |decodedData| > 0 ==> dataIndex == 0
      invariant forall k :: 0 <= k < tex.Length ==>
        tex[k] == if base <= k < base + x then PixelAt(old(tex[k]), width, height, k - base, y, l) else old(tex[k])
    {
      var f;
      dataIndex, f := SetTexturePixel(tex, base, width, height, x, y, imgBlock, decodedData, dataIndex,
                                      colorTable, bgColor, transparentIndex, useBeforeTex);
      if f.Some? {
        return dataIndex, f;
      }
    }
    RowEnd(imgBlock, width, row);
    RowCoordinates(width, y);
    fault := None;
  }

  /** The body of `SetTexturePixelRow`'s loop for pixel (x, y), at
      `base + x` in the texture. */
  method SetTexturePixel(tex: array<Color32>, base: nat, width: nat, height: nat, x: nat, y: nat, imgBlock: ImageBlock,
                         decodedData: seq<byte>, dataIndex0: nat, colorTable: Option<seq<Rgb>>,
                         bgColor: Option<Color32>, transparentIndex: int, useBeforeTex: bool)
    returns (dataIndex: nat, fault: Option<Fault>)
    requires base + x < tex.Length
    requires dataIndex0 == DataIndexAt(imgBlock, width, height - 1 - y, x)
    modifies tex
    ensures var row := height - 1 - y;
      fault.Some? <==> colorTable.None? && InRect(imgBlock, row, x) && dataIndex0 < |decodedData|
    ensures fault.Some? ==> fault.value == NullReference
    ensures fault.None? ==> dataIndex == DataIndexAt(imgBlock, width, height - 1 - y, x + 1)
    ensures fault.None? ==> forall k :: 0 <= k < tex.Length ==>
      tex[k] == if k == base + x
                then PixelAt(old(tex[k]), width, height, x, y,
                             Layer(imgBlock, decodedData, colorTable, bgColor, transparentIndex, useBeforeTex))
                else old(tex[k])
  {
    // Row no (0~)
    var row := height - 1 - y;
    // Line no (0~)
    var line := x;
    dataIndex, fault := dataIndex0, None;
    if row < imgBlock.imageTopPosition || row >= imgBlock.imageTopPosition + imgBlock.imageHeight
       || line < imgBlock.imageLeftPosition || line >= imgBlock.imageLeftPosition + imgBlock.imageWidth {
      // Out of image blocks
      if !useBeforeTex && bgColor.Some? {
        tex[base + x] := bgColor.value;
      }
    } else if dataIndex >= |decodedData| {
      // Out of decoded data
      tex[base + x] := Black;
      dataIndex := dataIndex + 1;
    } else {
      var colorIndex := decodedData[dataIndex];
      if colorTable.None? {
        // The error message reads `colorTable.Count`.
        return dataIndex, Some(NullReference);
      }
      if |colorTable.value| <= colorIndex {
        dataIndex := dataIndex + 1;
      } else {
        var rgb := colorTable.value[colorIndex];
        var alpha: byte := if transparentIndex >= 0 && transparentIndex == colorIndex then 0 else 255;
        if alpha != 0 || !useBeforeTex {
          tex[base + x] := Color32(rgb.r, rgb.g, rgb.b, alpha);
        }
        dataIndex := dataIndex + 1;
      }
    }
  }

  /** The rows loop of `DecodeTexture`: texture rows from the top down,
      so GIF rows from the first. */
  method PaintImage(tex: array<Color32>, width: nat, height: nat, imgBlock: ImageBlock, decodedData: seq<byte>,
                    colorTable: Option<seq<Rgb>>, bgColor: Option<Color32>, transparentIndex: int, useBeforeTex: bool)
    returns (fault: Option<Fault>)
    requires tex.Length == width * height
    modifies tex
    ensures var r := Paint(old(tex[..]), width, height,
                           Layer(imgBlock, decodedData, colorTable, bgColor, transparentIndex, useBeforeTex));
      && (fault.Some? <==> r.Err?)
      && (fault.Some? ==> fault.value == r.fault)
      && (fault.None? ==> tex[..] == r.value)
  {
    ghost var l := Layer(imgBlock, decodedData, colorTable, bgColor, transparentIndex, useBeforeTex);
    var dataIndex := 0;
    for y := height downto 0
      invariant dataIndex == DataIndexAt(imgBlock, width, height - y, 0)
      invariant colorTable.None? && |decodedData| > 0 ==> dataIndex == 0
      invariant colorTable.None? && |decodedData| > 0 && Cols(imgBlock, width) > 0 ==> RowsBefore(imgBlock, height - y) == 0
      invariant forall k :: 0 <= k < tex.Length ==>
        tex[k] == if y * width <= k then PixelAt(old(tex[k]), width, height, k % width, k / width, l) else old(tex[k])
    {
      var f;
      dataIndex, f := SetTexturePixelRow(tex, width, height, y, imgBlock, decodedData, dataIndex,
                                         colorTable, bgColor, transparentIndex, useBeforeTex);
      if f.Some? {
        return f;
      }
      assert (y + 1) * width == y * width + width;
    }
    fault := None;
  }

  /** `DecodeTexture`, with the textures it adds to the list returned in
      `Frames`. */
  method DecodeTexture(gifData: GifData, blank: Color32) returns (r: Decoded)
    ensures r == DecodeFrames(gifData, blank)
  {
    if gifData.imageBlockList.None? || |gifData.imageBlockList.value| < 1 {
      return NoImageBlocks;
    }
    var blocks := gifData.imageBlockList.value;
    var bg := GlobalBgColor(gifData);
    if bg.Err? {
      FaultPersists(gifData, blocks, 0, |blocks|, blank);
      return DecodeFault(bg.fault);
    }
    var bgColor := bg.value;
    var disposalMethod: u16 := 0;
    var gifTexList: seq<GifTexture> := [];
    for imgBlockIndex := 0 to |blocks|
      invariant FramesFrom(gifData, blocks, imgBlockIndex, blank) == Ok(Carry(bgColor, disposalMethod, gifTexList))
    {
      var step := DecodeBlock(gifData, imgBlockIndex, blocks[imgBlockIndex], bgColor, disposalMethod, gifTexList, blank);
      if step.Err? {
        FaultPersists(gifData, blocks, imgBlockIndex + 1, |blocks|, blank);
        return DecodeFault(step.fault);
      }
      bgColor, disposalMethod, gifTexList := step.value.bgColor, step.value.disposalMethod, step.value.frames;
    }
    return Frames(gifTexList);
  }

  /** The body of `DecodeTexture`'s loop for block `imgBlockIndex`. */
  method DecodeBlock(gifData: GifData, imgBlockIndex: nat, imgBlock: ImageBlock, bgColor0: Option<Color32>,
                     disposalMethod0: u16, gifTexList0: seq<GifTexture>, blank: Color32)
    returns (r: Result<Carry>)
    requires |gifTexList0| == imgBlockIndex && Sized(gifTexList0, ScreenSize(gifData))
    ensures r == FrameStep(gifData, imgBlockIndex, imgBlock, Carry(bgColor0, disposalMethod0, gifTexList0), blank)
  {
    var decoded := GetDecodedData(imgBlock);
    if decoded.Err? {
      return Err(decoded.fault);
    }
    var decodedData := decoded.value;
    var colors := ColorTable(gifData, imgBlock, bgColor0);
    if colors.Err? {
      return Err(colors.fault);
    }
    var (colorTable, bgColor) := colors.value;
    var graphicCtrlEx := GraphicCtrlExt(gifData, imgBlockIndex);
    var transparentIndex := TransparentIndex(graphicCtrlEx);
    var tex, useBeforeTex := CreateTexture2D(gifData, gifTexList0, imgBlockIndex, disposalMethod0, blank);
    // Set pixel data
    var fault := PaintImage(tex, gifData.logicalScreenWidth, gifData.logicalScreenHeight, imgBlock, decodedData,
                            colorTable, bgColor, transparentIndex, useBeforeTex);
    if fault.Some? {
      return Err(fault.value);
    }
    var delaySec := DelaySec(graphicCtrlEx);
    // Add to GIF texture list
    var gifTexList := gifTexList0 + [GifTexture(tex[..], delaySec)];
    var disposalMethod := DisposalMethod(graphicCtrlEx);
    return Ok(Carry(bgColor, disposalMethod, gifTexList));
  }
}
