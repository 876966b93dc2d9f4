/** The entry point of UniGif.cs: parse a GIF file and decode its frames,
    reporting the loop count and the logical screen size. */
module UniGif {
  import opened Common
  import opened GifConst
  import opened Formatter
  import opened Decoder
  import DecoderProps

  /** The returned texture list (None for the source's null) and the
      three out parameters. */
  datatype TextureList = TextureList(textures: Option<seq<GifTexture>>, loopCount: int, width: int, height: int)

  /** The out parameters when no list is returned. */
  const NoTextures := TextureList(None, -1, 0, 0)

  /** `GetTextureList`: null with loop count -1 and size 0 x 0 when the
      file does not parse or has no image; otherwise the frames, the
      Netscape loop count and the logical screen size. An exception raised
      while parsing or decoding escapes as `Err`. */
  function GetTextureList(bytes: Option<seq<byte>>, blank: Color32): (r: Result<TextureList>)
    ensures bytes.None? || |bytes.value| == 0 ==> r == Ok(NoTextures)
    ensures r.Ok? && r.value.textures.None? ==> r.value == NoTextures
    ensures r.Ok? && r.value.textures.Some? ==> 0 <= r.value.loopCount <= 65535 && 0 <= r.value.width && 0 <= r.value.height
    ensures r.Ok? && r.value.textures.Some? ==>
      && ParseGif(bytes, EmptyGifData).Parsed?
      && r.value.loopCount == ParseGif(bytes, EmptyGifData).gifData.appEx.LoopCount()
  {
    match ParseGif(bytes, EmptyGifData)
    case ParseFault(f) => Err(f)
    case ParseFailed => Ok(NoTextures)
    case Parsed(gd) =>
      match DecodeFrames(gd, blank)
      case DecodeFault(f) => Err(f)
      case NoImageBlocks => Ok(NoTextures)
      case Frames(fs) =>
        Ok(TextureList(Some(fs), gd.appEx.LoopCount(), gd.logicalScreenWidth, gd.logicalScreenHeight))
  }

  /** A returned list holds one frame per image block of the parsed file,
      at least one, each of width * height pixels and shown for at least
      10 hundredths of a second. */
  lemma TextureListShape(bytes: Option<seq<byte>>, blank: Color32)
    requires GetTextureList(bytes, blank).Ok? && GetTextureList(bytes, blank).value.textures.Some?
    ensures ParseGif(bytes, EmptyGifData).Parsed?
    ensures var gd := ParseGif(bytes, EmptyGifData).gifData;
      var t := GetTextureList(bytes, blank).value;
      var fs := t.textures.value;
      && gd.imageBlockList.Some? && |fs| == |gd.imageBlockList.value| > 0
      && DecodeFrames(gd, blank) == Frames(fs)
      && t.loopCount == gd.appEx.LoopCount()
      && t.width == gd.logicalScreenWidth && t.height == gd.logicalScreenHeight
      && (forall i :: 0 <= i < |fs| ==> |fs[i].pixels| == t.width * t.height)
      && (forall i :: 0 <= i < |fs| ==> fs[i].delay >= 10)
  {
    var gd := ParseGif(bytes, EmptyGifData).gifData;
    DecoderProps.DecodeTextureFrames(gd, blank);
  }
}
