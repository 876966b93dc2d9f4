/** Properties of the frame compositor: how many frames `DecodeTexture`
    produces and with which delays, which earlier frame each one starts
    from, where each decoded index lands, and what each painted pixel
    becomes. */
module DecoderProps {
  import opened Common
  import opened BitReader
  import opened GifConst
  import opened Lzw
  import opened Decoder

  // ---------------------------------------------------------------------
  // Frames

  /** What the first n blocks leave behind: frame i has the delay of the
      i-th extension, and the disposal method carried to the next block is
      the (n-1)-th block's (0 before the first block). */
  ghost predicate Carried(gd: GifData, c: Carry, n: nat)
  {
    && |c.frames| == n
    && (forall i :: 0 <= i < n ==> c.frames[i].delay == DelaySec(GraphicCtrlExt(gd, i)))
    && c.disposalMethod == if n == 0 then 0 else DisposalMethod(GraphicCtrlExt(gd, n - 1))
  }

  /** After n blocks the carry is as `Carried` describes. */
  lemma {:induction false} FramesCarry(gd: GifData, blocks: seq<ImageBlock>, n: nat, blank: Color32)
    requires n <= |blocks| && FramesFrom(gd, blocks, n, blank).Ok?
    ensures Carried(gd, FramesFrom(gd, blocks, n, blank).value, n)
  {
    if n > 0 {
      FramesCarry(gd, blocks, n - 1, blank);
      var c := FramesFrom(gd, blocks, n - 1, blank).value;
      StepCarry(gd, n - 1, blocks[n - 1], c, FramesFrom(gd, blocks, n, blank).value, blank);
    }
  }

  /** One block adds a frame with the delay of its extension, keeps the
      earlier frames, and hands its extension's disposal method to the
      next block. */
  lemma StepCarry(gd: GifData, i: nat, blk: ImageBlock, c: Carry, c': Carry, blank: Color32)
    requires Carried(gd, c, i) && Sized(c.frames, ScreenSize(gd))
    requires FrameStep(gd, i, blk, c, blank) == Ok(c')
    ensures Carried(gd, c', i + 1)
  {
    forall k | 0 <= k < i
      ensures c'.frames[k].delay == DelaySec(GraphicCtrlExt(gd, k))
    {
      assert c'.frames[k] == c'.frames[..i][k];
    }
  }

  /** `DecodeTexture` returns false exactly when there are no image
      blocks; otherwise, unless an exception escapes, it yields one
      screen-sized frame per block, in block order, frame i with the
      delay of the i-th Graphic Control Extension (at least 10). */
  lemma DecodeTextureFrames(gd: GifData, blank: Color32)
    ensures DecodeFrames(gd, blank).NoImageBlocks? <==> gd.imageBlockList.None? || |gd.imageBlockList.value| == 0
    ensures DecodeFrames(gd, blank).Frames? ==>
      var fs := DecodeFrames(gd, blank).textures;
      && |fs| == |gd.imageBlockList.value|
      && (forall i :: 0 <= i < |fs| ==> |fs[i].pixels| == gd.logicalScreenWidth * gd.logicalScreenHeight)
      && (forall i :: 0 <= i < |fs| ==> fs[i].delay == DelaySec(GraphicCtrlExt(gd, i)) >= 10)
  {
    if DecodeFrames(gd, blank).Frames? {
      var blocks := gd.imageBlockList.value;
      FramesCarry(gd, blocks, |blocks|, blank);
    }
  }

  /** The canvas of block n: after disposal 0 or 1 the previous frame,
      after disposal 3 the one before it, otherwise a fresh texture. The
      first frame is always fresh. */
  lemma StartFrame(gd: GifData, blocks: seq<ImageBlock>, n: nat, blank: Color32)
    requires n < |blocks| && FramesFrom(gd, blocks, n, blank).Ok?
    ensures var d := FramesFrom(gd, blocks, n, blank).value.disposalMethod;
      var b := BeforeIndex(n, d);
      && (n == 0 ==> b == -1)
      && (n > 0 ==> (b == n - 1 <==> DisposalMethod(GraphicCtrlExt(gd, n - 1)) <= 1))
      && (n > 1 ==> (b == n - 2 <==> DisposalMethod(GraphicCtrlExt(gd, n - 1)) == 3))
      && (b == -1 <==> n == 0 || (DisposalMethod(GraphicCtrlExt(gd, n - 1)) > 1 && (n == 1 || DisposalMethod(GraphicCtrlExt(gd, n - 1)) != 3)))
  {
    FramesCarry(gd, blocks, n, blank);
  }

  // ---------------------------------------------------------------------
  // Decoded data

  /** A decoded image has exactly width * height indices, fewer than
      2^31; a larger rectangle makes the size negative and the array
      allocation throws. */
  lemma DecodedLength(blk: ImageBlock)
    ensures DecodedData(blk).Ok? ==>
      |DecodedData(blk).value| == blk.imageHeight * blk.imageWidth < 0x8000_0000
    ensures blk.imageDataList.Some? && blk.imageHeight * blk.imageWidth >= 0x8000_0000 ==>
      DecodedData(blk) == Err(Overflow)
  {
    if DecodedData(blk).Ok? {
      var compData := Flatten(blk.imageDataList.value);
      OutputLength(compData, blk.lzwMinimumCodeSize, NeedDataSize(blk));
    }
  }

  // ---------------------------------------------------------------------
  // Where the decoded indices land

  /** When the rectangle fits the canvas horizontally, pixel (x, row) of
      the rectangle takes index (row - top) * width + (x - left), the
      placement of section 20 of GIF89a. */
  lemma PlacementInside(blk: ImageBlock, width: nat, row: int, x: int)
    requires InRect(blk, row, x) && blk.imageLeftPosition + blk.imageWidth <= width
    ensures DataIndexAt(blk, width, row, x)
      == (row - blk.imageTopPosition) * blk.imageWidth + (x - blk.imageLeftPosition)
  {
  }

  /** Different rectangle pixels on the canvas take different indices. */
  lemma IndicesDistinct(blk: ImageBlock, width: nat, row1: int, x1: int, row2: int, x2: int)
    requires InRect(blk, row1, x1) && x1 < width && InRect(blk, row2, x2) && x2 < width
    requires row1 != row2 || x1 != x2
    ensures DataIndexAt(blk, width, row1, x1) != DataIndexAt(blk, width, row2, x2)
  {
    var c := Cols(blk, width);
    var q1, r1 := row1 - blk.imageTopPosition, x1 - blk.imageLeftPosition;
    var q2, r2 := row2 - blk.imageTopPosition, x2 - blk.imageLeftPosition;
    assert RowsBefore(blk, row1) == q1 && ColsBefore(blk, x1) == r1 < c;
    assert RowsBefore(blk, row2) == q2 && ColsBefore(blk, x2) == r2 < c;
    assert DataIndexAt(blk, width, row1, x1) == c * q1 + r1;
    assert DataIndexAt(blk, width, row2, x2) == c * q2 + r2;
    if c * q1 + r1 == c * q2 + r2 {
      DivModUnique(c * q1 + r1, c, q1, r1);
      DivModUnique(c * q2 + r2, c, q2, r2);
    }
  }

  /** Every rectangle pixel on the canvas takes an index below
      width * height, so with an image's decoded data the "out of decoded
      data" branch never runs. */
  lemma IndexInData(blk: ImageBlock, width: nat, row: int, x: int)
    requires InRect(blk, row, x) && x < width
    ensures DataIndexAt(blk, width, row, x) < blk.imageHeight * blk.imageWidth
  {
    var c := Cols(blk, width);
    var q, r := row - blk.imageTopPosition, x - blk.imageLeftPosition;
    MulLe(q, blk.imageHeight - 1, c, c);
    MulLe(blk.imageHeight, blk.imageHeight, c, blk.imageWidth);
    assert (blk.imageHeight - 1) * c + c == blk.imageHeight * c;
  }

  /** So no pixel of a frame is painted black for lack of data. */
  lemma NoBlackForLackOfData(blk: ImageBlock, width: nat, row: int, x: int)
    requires DecodedData(blk).Ok? && InRect(blk, row, x) && x < width
    ensures DataIndexAt(blk, width, row, x) < |DecodedData(blk).value|
  {
    DecodedLength(blk);
    IndexInData(blk, width, row, x);
  }

  // ---------------------------------------------------------------------
  // Painted pixels

  /** Pixel (x, y) of a painted frame, texture row y showing GIF row
      height - 1 - y:
      - outside the rectangle it is the background colour on a fresh
        canvas that has one, and is kept otherwise;
      - inside, with colour index v from the data: v past the table keeps
        the pixel; otherwise the pixel takes entry v, with alpha 0 exactly
        when v is the transparent index, and a transparent pixel on a
        copied canvas is kept. */
  lemma PaintedPixel(canvas: seq<Color32>, width: nat, height: nat, l: Layer, x: nat, y: nat)
    requires |canvas| == width * height && x < width && y < height
    requires Paint(canvas, width, height, l).Ok?
    ensures y * width + x < width * height
    ensures var px := Paint(canvas, width, height, l).value[y * width + x];
      var was := canvas[y * width + x];
      var row := height - 1 - y;
      var k := DataIndexAt(l.block, width, row, x);
      && (!InRect(l.block, row, x) ==> px == if !l.useBeforeTex && l.bgColor.Some? then l.bgColor.value else was)
      && (InRect(l.block, row, x) && k < |l.data| ==>
            && l.table.Some?
            && (l.data[k] >= |l.table.value| ==> px == was)
            && (l.data[k] < |l.table.value| ==>
                  var c := l.table.value[l.data[k]];
                  var transparent := l.transparentIndex >= 0 && l.transparentIndex == l.data[k];
                  && (transparent && l.useBeforeTex ==> px == was)
                  && (!transparent || !l.useBeforeTex ==>
                        px.r == c.r && px.g == c.g && px.b == c.b && (px.a == 0 <==> transparent))))
  {
    RowFits(y, width, height);
    Coordinates(y * width + x, width, y);
    var idx := y * width + x;
    assert Paint(canvas, width, height, l).value[idx] == PixelAt(canvas[idx], width, height, x, y, l);
    var row := height - 1 - y;
    if InRect(l.block, row, x) && DataIndexAt(l.block, width, row, x) < |l.data| {
      assert RowsBefore(l.block, height) > 0 && Cols(l.block, width) > 0;
    }
  }
}
