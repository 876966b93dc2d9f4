/** The records of UniGifConst.cs: the parsed GIF document and its blocks,
    with the getters `signature`, `version`, `applicationIdentifier`,
    `applicationAuthenticationCode` and the NETSCAPE2.0 `loopCount`.
    A C# list that is created lazily (and so may still be `null`) is an
    `Option<seq<...>>`. */
module GifConst {
  import opened Common

  /** A C# `ushort`. */
  type u16 = x: int | 0 <= x < 65536

  /** One colour-table entry, stored by the source as `new byte[] { r, g, b }`. */
  datatype Rgb = Rgb(r: byte, g: byte, b: byte)

  /** A data sub-block: its size byte and the bytes that follow it. */
  datatype SubBlock = SubBlock(blockSize: byte, data: seq<byte>)

  datatype ImageBlock = ImageBlock(
    imageSeparator: byte,
    imageLeftPosition: u16,
    imageTopPosition: u16,
    imageWidth: u16,
    imageHeight: u16,
    localColorTableFlag: bool,
    interlaceFlag: bool,
    sortFlag: bool,
    sizeOfLocalColorTable: nat,
    localColorTable: Option<seq<Rgb>>,
    lzwMinimumCodeSize: byte,
    imageDataList: Option<seq<SubBlock>>)

  datatype GraphicControlExtension = GraphicControlExtension(
    extensionIntroducer: byte,
    graphicControlLabel: byte,
    blockSize: byte,
    disposalMethod: u16,
    transparentColorFlag: bool,
    delayTime: u16,
    transparentColorIndex: byte,
    blockTerminator: byte)

  datatype CommentExtension = CommentExtension(
    extensionIntroducer: byte,
    commentLabel: byte,
    commentDataList: Option<seq<SubBlock>>)

  datatype PlainTextExtension = PlainTextExtension(
    extensionIntroducer: byte,
    plainTextLabel: byte,
    blockSize: byte,
    plainTextDataList: Option<seq<SubBlock>>)

  datatype ApplicationExtension = ApplicationExtension(
    extensionIntroducer: byte,
    extensionLabel: byte,
    blockSize: byte,
    appId1: byte, appId2: byte, appId3: byte, appId4: byte,
    appId5: byte, appId6: byte, appId7: byte, appId8: byte,
    appAuthCode1: byte, appAuthCode2: byte, appAuthCode3: byte,
    appDataList: Option<seq<SubBlock>>)
  {
    function ApplicationIdentifier(): string
    {
      [appId1 as char, appId2 as char, appId3 as char, appId4 as char,
       appId5 as char, appId6 as char, appId7 as char, appId8 as char]
    }

    function ApplicationAuthenticationCode(): string
    {
      [appAuthCode1 as char, appAuthCode2 as char, appAuthCode3 as char]
    }

    /** The NETSCAPE2.0 loop count: bytes 1 and 2 (little-endian) of the
        first application sub-block when it has at least 3 bytes and
        starts with 0x01, and 0 otherwise (0 also means "loop forever"). */
    function LoopCount(): (n: int)
      ensures 0 <= n <= 65535
    {
      if appDataList.None? || |appDataList.value| < 1
         || |appDataList.value[0].data| < 3 || appDataList.value[0].data[0] != 0x01
      then 0
      else ToUInt16(appDataList.value[0].data, 1)
    }
  }

  /** `default(ApplicationExtension)`: all bytes 0, no sub-blocks. */
  const NoApplicationExtension: ApplicationExtension :=
    ApplicationExtension(0, 0, 0, 0, 0, 0, 0, 0, 0, 0, 0, 0, 0, 0, None)

  datatype GifData = GifData(
    sig0: byte, sig1: byte, sig2: byte,
    ver0: byte, ver1: byte, ver2: byte,
    logicalScreenWidth: u16,
    logicalScreenHeight: u16,
    globalColorTableFlag: bool,
    colorResolution: nat,
    sortFlag: bool,
    sizeOfGlobalColorTable: nat,
    bgColorIndex: byte,
    pixelAspectRatio: byte,
    globalColorTable: Option<seq<Rgb>>,
    imageBlockList: Option<seq<ImageBlock>>,
    graphicCtrlExList: Option<seq<GraphicControlExtension>>,
    commentExList: Option<seq<CommentExtension>>,
    plainTextExList: Option<seq<PlainTextExtension>>,
    appEx: ApplicationExtension,
    trailer: byte)
  {
    function Signature(): string
    {
      [sig0 as char, sig1 as char, sig2 as char]
    }

    function Version(): string
    {
      [ver0 as char, ver1 as char, ver2 as char]
    }
  }

  /** `new GifData()`: every field zero, false or null. */
  const EmptyGifData: GifData :=
    GifData(0, 0, 0, 0, 0, 0, 0, 0, false, 0, false, 0, 0, 0,
            None, None, None, None, None, NoApplicationExtension, 0)

  /** Appends to a lazily created list: creates it on the first append. */
  function Append<T>(list: Option<seq<T>>, x: T): (r: Option<seq<T>>)
    ensures r.Some? && |r.value| >= 1 && r.value[|r.value| - 1] == x
    ensures list.Some? ==> r.value[..|r.value| - 1] == list.value
    ensures list.None? ==> r.value == [x]
  {
    if list.None? then Some([x]) else Some(list.value + [x])
  }

  /** The first data sub-block of a NETSCAPE2.0 looping extension that
      asks for n loops. */
  function NetscapeLoopBlock(n: u16): SubBlock
  {
    SubBlock(3, [0x01, n % 256, n / 256])
  }

  /** Round trip: the loop count read back from an application extension
      whose first sub-block is the looping block for n is n, whatever
      follows it. */
  lemma LoopCountRoundTrip(ext: ApplicationExtension, n: u16, rest: seq<SubBlock>)
    requires ext.appDataList == Some([NetscapeLoopBlock(n)] + rest)
    ensures ext.LoopCount() == n
  {
    var d := ext.appDataList.value[0].data;
    assert d == [0x01, n % 256, n / 256];
  }

  /** With no sub-block, a first sub-block shorter than 3 bytes, or one
      that does not start with 0x01, the loop count is 0; otherwise it is
      data[1] + 256 * data[2]. */
  lemma LoopCountCases(ext: ApplicationExtension)
    ensures ext.appDataList.None? || ext.appDataList.value == [] ==> ext.LoopCount() == 0
    ensures ext.appDataList.Some? && ext.appDataList.value != [] ==>
      var d := ext.appDataList.value[0].data;
      ext.LoopCount() == if |d| < 3 || d[0] != 0x01 then 0 else (d[1] as int) + 256 * (d[2] as int)
  {
  }

  /** Only the first sub-block matters: appending more sub-blocks (as a
      second application extension does) never changes the loop count. */
  lemma LoopCountIgnoresLaterBlocks(ext: ApplicationExtension, more: seq<SubBlock>)
    requires ext.appDataList.Some? && ext.appDataList.value != []
    ensures ext.(appDataList := Some(ext.appDataList.value + more)).LoopCount() == ext.LoopCount()
  {
    var ext' := ext.(appDataList := Some(ext.appDataList.value + more));
    assert ext'.appDataList.value[0] == ext.appDataList.value[0];
  }
}
