/** The block parser of UniGifFormatter.cs. A cursor (`byteIndex`) walks
    the GIF byte buffer: the header and logical screen descriptor at fixed
    offsets (sections 17-19 of the GIF89a specification), then a loop over
    image blocks (sections 20-22), extensions (sections 23-26) and the
    trailer (section 27), whose variable parts are data sub-blocks ended
    by a zero-length block terminator (sections 15-16).

    Each `Set...` method is the C# routine, cursor and all; the `Parse...`
    functions define the same grammar as values, and each method is proved
    to return what its function does. An exception inside the block loop is
    caught there and becomes `false` (here `None`); an exception while
    reading the header is not caught and escapes as a `Fault`. */
module Formatter {
  import opened Common
  import opened GifConst
  import BitReader

  /** `x & mask` on bytes, bit by bit from the lowest: bit 0 of the
      result is set when bit 0 of both is, and the higher bits are the
      `&` of the halves. */
  function And(x: byte, mask: byte): (r: byte)
    ensures r <= mask
  {
    if mask == 0 then 0
    else 2 * And(x / 2, mask / 2) + (if x % 2 == 1 && mask % 2 == 1 then 1 else 0)
  }

  /** Colour resolution from the packed byte, as the source's switch on
      bits 6-4 writes it. */
  function ColorResolution(packed: byte): nat
  {
    match And(packed, 112)
    case 112 => 8
    case 96 => 7
    case 80 => 6
    case 64 => 5
    case 48 => 4
    case 32 => 3
    case 16 => 2
    case _ => 1
  }

  /** Number of entries of a colour table: 2^((packed & 7) + 1). */
  function TableSize(packed: byte): nat
  {
    Pow2(And(packed, 7) + 1)
  }

  /** Disposal method from the packed byte of a graphic control extension,
      as the source's switch on `packed & 0x1C` writes it. */
  function DisposalOf(packed: byte): u16
  {
    match And(packed, 28)
    case 4 => 1
    case 8 => 2
    case 12 => 3
    case _ => 0
  }

  /** The switch is the 3-bit field plus one. */
  lemma ColorResolutionIsField(packed: byte)
    ensures ColorResolution(packed) == (packed / 16) % 8 + 1
  {
    var f := (packed / 16) % 8;
    var m := And(packed, 112);
    assert m == 16 * f by {
      ResolutionMask(packed);
    }
    if f < 4 {
      assert m == 0 || m == 16 || m == 32 || m == 48;
    } else {
      assert m == 64 || m == 80 || m == 96 || m == 112;
    }
  }

  /** The table size is 2^(field + 1), between 2 and 256. */
  lemma TableSizeRange(packed: byte)
    ensures And(packed, 7) == packed % 8
    ensures 2 <= TableSize(packed) <= 256
  {
    LowMask(packed);
    Pow2Monotone(1, packed % 8 + 1);
    Pow2Monotone(packed % 8 + 1, 8);
    Pow2Of31();
  }

  /** The disposal method is the 3-bit field (bits 4-2) when it is 1, 2
      or 3, and 0 for every other value of the field. */
  lemma DisposalIsField(packed: byte)
    ensures var field := (packed / 4) % 8;
      DisposalOf(packed) == if 1 <= field <= 3 then field else 0
  {
    DisposalMask(packed);
  }

  /** `packed & 0x70` is 16 times bits 6-4. */
  lemma ResolutionMask(packed: byte)
    ensures And(packed, 112) == 16 * ((packed / 16) % 8)
  {
    var a1 := packed / 2;
    var a2 := a1 / 2;
    var a3 := a2 / 2;
    AndHalves(packed, 56);
    AndHalves(a1, 28);
    AndHalves(a2, 14);
    AndHalves(a3, 7);
    LowMask(a3 / 2);
  }

  /** `packed & 0x1C` is 4 times bits 4-2. */
  lemma DisposalMask(packed: byte)
    ensures And(packed, 28) == 4 * ((packed / 4) % 8)
  {
    var a1 := packed / 2;
    AndHalves(packed, 14);
    AndHalves(a1, 7);
    LowMask(a1 / 2);
  }

  /** `packed & 7` is the remainder modulo 8. */
  lemma LowMask(packed: byte)
    ensures And(packed, 7) == packed % 8
  {
    var a1 := packed / 2;
    var a2 := a1 / 2;
    assert And(packed, 7) == 2 * And(a1, 3) + packed % 2;
    assert And(a1, 3) == 2 * And(a2, 1) + a1 % 2;
    assert And(a2, 1) == a2 % 2;
    assert packed == 8 * (a2 / 2) + (4 * (a2 % 2) + 2 * (a1 % 2) + packed % 2);
    BitReader.DivModUnique(packed, 8, a2 / 2, 4 * (a2 % 2) + 2 * (a1 % 2) + packed % 2);
  }

  /** `x & 2^k` for the single-bit masks the parser tests: 2^k times
      bit k. */
  lemma {:induction false} SingleBit(x: byte, k: nat)
    requires k <= 7
    ensures Pow2(k) <= 128 && And(x, Pow2(k)) == if (x / Pow2(k)) % 2 == 1 then Pow2(k) else 0
  {
    if k == 0 {
      assert And(x, 1) == x % 2;
    } else {
      var p, pk := Pow2(k - 1), Pow2(k);
      assert pk == 2 * p;
      SingleBit(x / 2, k - 1);
      Pow2Monotone(k - 1, 6);
      assert Pow2(6) == 64;
      AndHalves(x, p);
      HalfDivision(x, p);
      assert (x / 2) / p == x / pk;
    }
  }

  /** (x / 2) / d == x / (2 * d). */
  lemma HalfDivision(x: nat, d: nat)
    requires d > 0
    ensures (x / 2) / d == x / (2 * d)
  {
    var q, r := (x / 2) / d, (x / 2) % d;
    assert x == 2 * d * q + (2 * r + x % 2);
    BitReader.DivModUnique(x, 2 * d, q, 2 * r + x % 2);
  }

  /** An even mask selects from the upper seven bits. */
  lemma AndHalves(x: byte, m: byte)
    requires 0 < m < 128
    ensures And(x, 2 * m) == 2 * And(x / 2, m)
  {
  }

  // ---------------------------------------------------------------------
  // Colour tables and data sub-blocks

  /** `size` RGB triples read from consecutive bytes at `start`. */
  function ColorTableOf(b: seq<byte>, start: nat, size: nat): (t: seq<Rgb>)
    requires start + 3 * size <= |b|
    ensures |t| == size
  {
    seq(size, k requires 0 <= k < size => Rgb(b[start + 3 * k], b[start + 3 * k + 1], b[start + 3 * k + 2]))
  }

  /** The colour-table loop: the table, or `None` when it runs past the
      end of the buffer. */
  function ColorTableAt(b: seq<byte>, start: nat, size: nat): Option<seq<Rgb>>
  {
    if size == 0 then Some([])
    else if start + 3 * size <= |b| then Some(ColorTableOf(b, start, size))
    else None
  }

  /** Data sub-blocks from `i` up to and including the terminator: the
      blocks and the index after the terminator, or `None` when a read runs
      past the end. */
  function SubBlocksAt(b: seq<byte>, i: nat): (r: Option<(seq<SubBlock>, nat)>)
    ensures r.Some? ==> i < r.value.1 <= |b|
    decreases |b| - i
  {
    if i >= |b| then None
    else if b[i] == 0 then Some(([], i + 1))
    else if i + 1 + b[i] > |b| then None
    else match SubBlocksAt(b, i + 1 + b[i])
      case None => None
      case Some((rest, j)) => Some(([SubBlock(b[i], b[i + 1 .. i + 1 + b[i]])] + rest, j))
  }

  /** A list that the source creates on its first `Add`: null when nothing
      was added. */
  function ListOrNull<T>(xs: seq<T>): Option<seq<T>>
  {
    if xs == [] then None else Some(xs)
  }

  /** Adds every element of xs to a lazily created list. */
  function AppendAll<T>(list: Option<seq<T>>, xs: seq<T>): Option<seq<T>>
  {
    if xs == [] then list
    else if list.None? then Some(xs)
    else Some(list.value + xs)
  }

  /** Adding the elements one at a time is adding them all. */
  lemma AppendAllSnoc<T>(list: Option<seq<T>>, xs: seq<T>, x: T)
    ensures Append(AppendAll(list, xs), x) == AppendAll(list, xs + [x])
  {
    if xs == [] {
      assert xs + [x] == [x];
    } else if list.Some? {
      assert list.value + xs + [x] == list.value + (xs + [x]);
    }
  }

  // ---------------------------------------------------------------------
  // The grammar as functions

  /** What `SetGifHeader` produces from a buffer and the incoming document. */
  datatype HeaderResult =
    | HeaderOk(gifData: GifData, byteIndex: nat)
    | HeaderRejected
    | HeaderFault(fault: Fault)

  const G: byte := 0x47
  const I: byte := 0x49
  const F: byte := 0x46
  const Eight: byte := 0x38
  const Seven: byte := 0x37
  const Nine: byte := 0x39
  const LowerA: byte := 0x61

  /** The logical screen descriptor fields, once bytes 0..12 are known to
      exist. */
  function ScreenDescriptor(b: seq<byte>, gd: GifData): GifData
    requires |b| >= 13
  {
    gd.(sig0 := b[0], sig1 := b[1], sig2 := b[2],
        ver0 := b[3], ver1 := b[4], ver2 := b[5],
        logicalScreenWidth := ToUInt16(b, 6),
        logicalScreenHeight := ToUInt16(b, 8),
        globalColorTableFlag := And(b[10], 128) == 128,
        colorResolution := ColorResolution(b[10]),
        sortFlag := And(b[10], 8) == 8,
        sizeOfGlobalColorTable := TableSize(b[10]),
        bgColorIndex := b[11],
        pixelAspectRatio := b[12])
  }

  /** The header: signature, version, logical screen descriptor and global
      colour table. The byte reads happen in the order of the source's
      short-circuit conditions, and a read past the end is a fault. */
  function ParseHeader(b: seq<byte>, gd: GifData): HeaderResult
  {
    if |b| < 1 then HeaderFault(IndexOutOfRange)
    else if b[0] != G then HeaderRejected
    else if |b| < 2 then HeaderFault(IndexOutOfRange)
    else if b[1] != I then HeaderRejected
    else if |b| < 3 then HeaderFault(IndexOutOfRange)
    else if b[2] != F then HeaderRejected
    else if |b| < 4 then HeaderFault(IndexOutOfRange)
    else if b[3] != Eight then HeaderRejected
    else if |b| < 5 then HeaderFault(IndexOutOfRange)
    else if b[4] != Seven && b[4] != Nine then HeaderRejected
    else if |b| < 6 then HeaderFault(IndexOutOfRange)
    else if b[5] != LowerA then HeaderRejected
    else if |b| < 13 then HeaderFault(IndexOutOfRange)
    else
      var gd' := ScreenDescriptor(b, gd);
      if !gd'.globalColorTableFlag then HeaderOk(gd', 13)
      else match ColorTableAt(b, 13, gd'.sizeOfGlobalColorTable)
        case None => HeaderFault(IndexOutOfRange)
        case Some(table) => HeaderOk(gd'.(globalColorTable := Some(table)), 13 + 3 * gd'.sizeOfGlobalColorTable)
  }

  /** An image block at `i` (image separator first) and the index after it. */
  function ParseImageBlock(b: seq<byte>, i: nat): (r: Option<(ImageBlock, nat)>)
    ensures r.Some? ==> i < r.value.1 <= |b|
  {
    if i + 10 > |b| then None
    else
      var packed := b[i + 9];
      var flag := And(packed, 128) == 128;
      var size := TableSize(packed);
      var codeSizeAt := if flag then i + 10 + 3 * size else i + 10;
      if codeSizeAt >= |b| then None
      else match SubBlocksAt(b, codeSizeAt + 1)
        case None => None
        case Some((blocks, j)) =>
          Some((ImageBlock(b[i], ToUInt16(b, i + 1), ToUInt16(b, i + 3), ToUInt16(b, i + 5), ToUInt16(b, i + 7),
                           flag, And(packed, 64) == 64, And(packed, 32) == 32, size,
                           if flag then Some(ColorTableOf(b, i + 10, size)) else None,
                           b[codeSizeAt], ListOrNull(blocks)), j))
  }

  /** A graphic control extension at `i`: always 8 bytes. */
  function ParseGraphicControlExtension(b: seq<byte>, i: nat): (r: Option<(GraphicControlExtension, nat)>)
    ensures r.Some? ==> r.value.1 == i + 8 <= |b|
  {
    if i + 8 > |b| then None
    else Some((GraphicControlExtension(b[i], b[i + 1], b[i + 2], DisposalOf(b[i + 3]), And(b[i + 3], 1) == 1,
                                       ToUInt16(b, i + 4), b[i + 6], b[i + 7]), i + 8))
  }

  /** A comment extension at `i`: introducer, label, sub-blocks. */
  function ParseCommentExtension(b: seq<byte>, i: nat): (r: Option<(CommentExtension, nat)>)
    ensures r.Some? ==> i < r.value.1 <= |b|
  {
    if i + 2 > |b| then None
    else match SubBlocksAt(b, i + 2)
      case None => None
      case Some((blocks, j)) => Some((CommentExtension(b[i], b[i + 1], ListOrNull(blocks)), j))
  }

  /** A plain text extension at `i`: introducer, label, block size, twelve
      bytes that are skipped without being read, sub-blocks. */
  function ParsePlainTextExtension(b: seq<byte>, i: nat): (r: Option<(PlainTextExtension, nat)>)
    ensures r.Some? ==> i < r.value.1 <= |b|
  {
    if i + 3 > |b| then None
    else match SubBlocksAt(b, i + 15)
      case None => None
      case Some((blocks, j)) => Some((PlainTextExtension(b[i], b[i + 1], b[i + 2], ListOrNull(blocks)), j))
  }

  /** An application extension at `i`, merged into the document's single
      application extension: the fixed fields are overwritten and the
      sub-blocks are added to the existing list. */
  function ParseApplicationExtension(b: seq<byte>, i: nat, ext: ApplicationExtension): (r: Option<(ApplicationExtension, nat)>)
    ensures r.Some? ==> i < r.value.1 <= |b|
  {
    if i + 14 > |b| then None
    else match SubBlocksAt(b, i + 14)
      case None => None
      case Some((blocks, j)) =>
        Some((ApplicationExtension(b[i], b[i + 1], b[i + 2],
                b[i + 3], b[i + 4], b[i + 5], b[i + 6], b[i + 7], b[i + 8], b[i + 9], b[i + 10],
                b[i + 11], b[i + 12], b[i + 13],
                AppendAll(ext.appDataList, blocks)), j))
  }

  /** The cursor and the document between two steps of the block loop. */
  datatype Cursor = Cursor(gifData: GifData, byteIndex: nat)

  /** One pass of the block loop other than the trailer: dispatch on the
      byte at `i` (and the label after 0x21). An unknown byte or label
      leaves the cursor where it is; `None` is an exception. */
  function BlockStep(b: seq<byte>, i: nat, gd: GifData): (r: Option<Cursor>)
    requires i < |b|
    ensures r.Some? ==> i <= r.value.byteIndex <= |b|
    ensures r.Some? && r.value.byteIndex == i ==> r.value.gifData == gd
  {
    if b[i] == 0x2c then
      match ParseImageBlock(b, i)
      case None => None
      case Some((ib, j)) => Some(Cursor(gd.(imageBlockList := Append(gd.imageBlockList, ib)), j))
    else if b[i] == 0x21 then
      if i + 1 >= |b| then None
      else if b[i + 1] == 0xf9 then
        match ParseGraphicControlExtension(b, i)
        case None => None
        case Some((ext, j)) => Some(Cursor(gd.(graphicCtrlExList := Append(gd.graphicCtrlExList, ext)), j))
      else if b[i + 1] == 0xfe then
        match ParseCommentExtension(b, i)
        case None => None
        case Some((ext, j)) => Some(Cursor(gd.(commentExList := Append(gd.commentExList, ext)), j))
      else if b[i + 1] == 0x01 then
        match ParsePlainTextExtension(b, i)
        case None => None
        case Some((ext, j)) => Some(Cursor(gd.(plainTextExList := Append(gd.plainTextExList, ext)), j))
      else if b[i + 1] == 0xff then
        match ParseApplicationExtension(b, i, gd.appEx)
        case None => None
        case Some((ext, j)) => Some(Cursor(gd.(appEx := ext), j))
      else Some(Cursor(gd, i))
    else Some(Cursor(gd, i))
  }

  /** The block loop of `SetGifBlock` from cursor `i`, with `lastIndex` the
      cursor at the start of the previous pass: `Some` when it reaches the
      trailer, `None` for an exception or a pass that did not move. */
  function ParseBlocks(b: seq<byte>, i: nat, lastIndex: nat, gd: GifData): (r: Option<Cursor>)
    decreases |b| - i, if lastIndex == i then 0 else 1
  {
    if i >= |b| then None
    else if b[i] == 0x3b then Some(Cursor(gd.(trailer := b[i]), i + 1))
    else match BlockStep(b, i, gd)
      case None => None
      case Some(c) =>
        if lastIndex == i then None
        else ParseBlocks(b, c.byteIndex, i, c.gifData)
  }

  /** What `SetGifData` produces. */
  datatype ParseResult =
    | Parsed(gifData: GifData)
    | ParseFailed
    | ParseFault(fault: Fault)

  /** `SetGifData`: false for a null or empty buffer, a rejected header or
      a failed block loop; a fault while reading the header escapes. */
  function ParseGif(bytes: Option<seq<byte>>, gd: GifData): ParseResult
  {
    if bytes.None? || |bytes.value| <= 0 then ParseFailed
    else match ParseHeader(bytes.value, gd)
      case HeaderFault(f) => ParseFault(f)
      case HeaderRejected => ParseFailed
      case HeaderOk(gd', i) =>
        match ParseBlocks(bytes.value, i, 0, gd')
        case None => ParseFailed
        case Some(c) => Parsed(c.gifData)
  }

  // ---------------------------------------------------------------------
  // The C# routines

  /** The colour-table loop of `SetGifHeader` and `SetImageBlock`. */
  method ReadColorTable(gifBytes: seq<byte>, start: nat, size: nat) returns (r: Option<seq<Rgb>>)
    ensures r == ColorTableAt(gifBytes, start, size)
  {
    var table: seq<Rgb> := [];
    var i := start;
    while i < start + size * 3
      invariant i == start + 3 * |table| && |table| <= size
      invariant forall k :: 0 <= k < |table| ==>
        start + 3 * k + 2 < |gifBytes| &&
        table[k] == Rgb(gifBytes[start + 3 * k], gifBytes[start + 3 * k + 1], gifBytes[start + 3 * k + 2])
    {
      if i + 2 >= |gifBytes| {
        return None;
      }
      table := table + [Rgb(gifBytes[i], gifBytes[i + 1], gifBytes[i + 2])];
      i := i + 3;
    }
    if size > 0 {
      assert start + 3 * (size - 1) + 2 < |gifBytes|;
      assert table == ColorTableOf(gifBytes, start, size);
    }
    return Some(table);
  }

  /** The `while (true)` sub-block loop shared by the image block and the
      three extensions with data sub-blocks. */
  method ReadSubBlocks(gifBytes: seq<byte>, start: nat) returns (r: Option<(seq<SubBlock>, nat)>)
    ensures r == SubBlocksAt(gifBytes, start)
  {
    var blocks: seq<SubBlock> := [];
    var byteIndex := start;
    match SubBlocksAt(gifBytes, start) {
      case None =>
      case Some((rest, j)) => assert [] + rest == rest;
    }
    while true
      invariant SubBlocksAt(gifBytes, start) ==
        match SubBlocksAt(gifBytes, byteIndex)
        case None => None
        case Some((rest, j)) => Some((blocks + rest, j))
      decreases |gifBytes| - byteIndex
    {
      if byteIndex >= |gifBytes| {
        return None;
      }
      ghost var at := byteIndex;
      var blockSize := gifBytes[byteIndex];
      byteIndex := byteIndex + 1;
      if blockSize == 0 {
        assert blocks + [] == blocks;
        return Some((blocks, byteIndex));
      }
      var data := CopySubBlockData(gifBytes, byteIndex, blockSize);
      if data.None? {
        assert SubBlocksAt(gifBytes, at) == None;
        return None;
      }
      byteIndex := byteIndex + blockSize;
      var block := SubBlock(blockSize, data.value);
      match SubBlocksAt(gifBytes, byteIndex) {
        case None =>
        case Some((rest, j)) => assert blocks + ([block] + rest) == (blocks + [block]) + rest;
      }
      blocks := blocks + [block];
    }
  }

  /** The inner loop of a sub-block read: copies the `blockSize` bytes
      from `start` on, and throws (`None`) when the buffer ends first. */
  method CopySubBlockData(gifBytes: seq<byte>, start: nat, blockSize: nat) returns (data: Option<seq<byte>>)
    requires start <= |gifBytes|
    ensures data.Some? <==> start + blockSize <= |gifBytes|
    ensures data.Some? ==> data.value == gifBytes[start .. start + blockSize]
  {
    var buffer := new byte[blockSize];
    var byteIndex := start;
    for k := 0 to blockSize
      invariant byteIndex == start + k <= |gifBytes|
      invariant forall m :: 0 <= m < k ==> buffer[m] == gifBytes[start + m]
    {
      if byteIndex >= |gifBytes| {
        return None;
      }
      buffer[k] := gifBytes[byteIndex];
      byteIndex := byteIndex + 1;
    }
    return Some(buffer[..]);
  }

  method SetGifHeader(gifBytes: seq<byte>, gifData: GifData) returns (r: HeaderResult)
    ensures r == ParseHeader(gifBytes, gifData)
  {
    // Signature: "GIF"
    if |gifBytes| < 1 { return HeaderFault(IndexOutOfRange); }
    if gifBytes[0] != G { return HeaderRejected; }
    if |gifBytes| < 2 { return HeaderFault(IndexOutOfRange); }
    if gifBytes[1] != I { return HeaderRejected; }
    if |gifBytes| < 3 { return HeaderFault(IndexOutOfRange); }
    if gifBytes[2] != F { return HeaderRejected; }
    // Version: "87a" or "89a"
    if |gifBytes| < 4 { return HeaderFault(IndexOutOfRange); }
    if gifBytes[3] != Eight { return HeaderRejected; }
    if |gifBytes| < 5 { return HeaderFault(IndexOutOfRange); }
    if gifBytes[4] != Seven && gifBytes[4] != Nine { return HeaderRejected; }
    if |gifBytes| < 6 { return HeaderFault(IndexOutOfRange); }
    if gifBytes[5] != LowerA { return HeaderRejected; }
    // Logical screen descriptor
    if |gifBytes| < 13 { return HeaderFault(IndexOutOfRange); }
    var gd := gifData.(sig0 := gifBytes[0], sig1 := gifBytes[1], sig2 := gifBytes[2]);
    gd := gd.(ver0 := gifBytes[3], ver1 := gifBytes[4], ver2 := gifBytes[5]);
    gd := gd.(logicalScreenWidth := ToUInt16(gifBytes, 6));
    gd := gd.(logicalScreenHeight := ToUInt16(gifBytes, 8));
    var packed := gifBytes[10];
    gd := gd.(globalColorTableFlag := And(packed, 128) == 128);
    gd := gd.(colorResolution := ColorResolution(packed));
    gd := gd.(sortFlag := And(packed, 8) == 8);
    gd := gd.(sizeOfGlobalColorTable := TableSize(packed));
    gd := gd.(bgColorIndex := gifBytes[11]);
    gd := gd.(pixelAspectRatio := gifBytes[12]);
    var byteIndex := 13;
    if gd.globalColorTableFlag {
      var table := ReadColorTable(gifBytes, byteIndex, gd.sizeOfGlobalColorTable);
      if table.None? {
        return HeaderFault(IndexOutOfRange);
      }
      gd := gd.(globalColorTable := table);
      byteIndex := byteIndex + gd.sizeOfGlobalColorTable * 3;
    }
    return HeaderOk(gd, byteIndex);
  }

  method SetImageBlock(gifBytes: seq<byte>, byteIndex: nat, gifData: GifData) returns (r: Option<Cursor>)
    ensures r == match ParseImageBlock(gifBytes, byteIndex)
      case None => None
      case Some((ib, j)) => Some(Cursor(gifData.(imageBlockList := Append(gifData.imageBlockList, ib)), j))
  {
    var i := byteIndex;
    if i + 10 > |gifBytes| {
      return None;
    }
    var imageSeparator := gifBytes[i];
    i := i + 1;
    var left := ToUInt16(gifBytes, i);
    i := i + 2;
    var top := ToUInt16(gifBytes, i);
    i := i + 2;
    var width := ToUInt16(gifBytes, i);
    i := i + 2;
    var height := ToUInt16(gifBytes, i);
    i := i + 2;
    var packed := gifBytes[i];
    var localFlag := And(packed, 128) == 128;
    var interlaceFlag := And(packed, 64) == 64;
    var sortFlag := And(packed, 32) == 32;
    var size := TableSize(packed);
    i := i + 1;
    var localTable: Option<seq<Rgb>> := None;
    if localFlag {
      localTable := ReadColorTable(gifBytes, i, size);
      if localTable.None? {
        return None;
      }
      i := i + size * 3;
    }
    if i >= |gifBytes| {
      return None;
    }
    var lzwMinimumCodeSize := gifBytes[i];
    i := i + 1;
    var blocks := ReadSubBlocks(gifBytes, i);
    if blocks.None? {
      return None;
    }
    var ib := ImageBlock(imageSeparator, left, top, width, height, localFlag, interlaceFlag, sortFlag, size,
                         localTable, lzwMinimumCodeSize, ListOrNull(blocks.value.0));
    r := Some(Cursor(gifData.(imageBlockList := Append(gifData.imageBlockList, ib)), blocks.value.1));
  }

  method SetGraphicControlExtension(gifBytes: seq<byte>, byteIndex: nat, gifData: GifData) returns (r: Option<Cursor>)
    ensures r == match ParseGraphicControlExtension(gifBytes, byteIndex)
      case None => None
      case Some((ext, j)) => Some(Cursor(gifData.(graphicCtrlExList := Append(gifData.graphicCtrlExList, ext)), j))
  {
    var i := byteIndex;
    if i + 8 > |gifBytes| {
      return None;
    }
    var introducer := gifBytes[i];
    i := i + 1;
    var extLabel := gifBytes[i];
    i := i + 1;
    var blockSize := gifBytes[i];
    i := i + 1;
    var disposal := DisposalOf(gifBytes[i]);
    var transparentFlag := And(gifBytes[i], 1) == 1;
    i := i + 1;
    var delayTime := ToUInt16(gifBytes, i);
    i := i + 2;
    var transparentIndex := gifBytes[i];
    i := i + 1;
    var terminator := gifBytes[i];
    i := i + 1;
    var ext := GraphicControlExtension(introducer, extLabel, blockSize, disposal, transparentFlag, delayTime,
                                       transparentIndex, terminator);
    r := Some(Cursor(gifData.(graphicCtrlExList := Append(gifData.graphicCtrlExList, ext)), i));
  }

  method SetCommentExtension(gifBytes: seq<byte>, byteIndex: nat, gifData: GifData) returns (r: Option<Cursor>)
    ensures r == match ParseCommentExtension(gifBytes, byteIndex)
      case None => None
      case Some((ext, j)) => Some(Cursor(gifData.(commentExList := Append(gifData.commentExList, ext)), j))
  {
    var i := byteIndex;
    if i + 2 > |gifBytes| {
      return None;
    }
    var introducer := gifBytes[i];
    i := i + 1;
    var extLabel := gifBytes[i];
    i := i + 1;
    var blocks := ReadSubBlocks(gifBytes, i);
    if blocks.None? {
      return None;
    }
    var ext := CommentExtension(introducer, extLabel, ListOrNull(blocks.value.0));
    r := Some(Cursor(gifData.(commentExList := Append(gifData.commentExList, ext)), blocks.value.1));
  }

  method SetPlainTextExtension(gifBytes: seq<byte>, byteIndex: nat, gifData: GifData) returns (r: Option<Cursor>)
    ensures r == match ParsePlainTextExtension(gifBytes, byteIndex)
      case None => None
      case Some((ext, j)) => Some(Cursor(gifData.(plainTextExList := Append(gifData.plainTextExList, ext)), j))
  {
    var i := byteIndex;
    if i + 3 > |gifBytes| {
      return None;
    }
    var introducer := gifBytes[i];
    i := i + 1;
    var extLabel := gifBytes[i];
    i := i + 1;
    var blockSize := gifBytes[i];
    i := i + 1;
    // Text grid position and size, cell size, colour indices: skipped.
    i := i + 2 + 2 + 2 + 2 + 1 + 1 + 1 + 1;
    var blocks := ReadSubBlocks(gifBytes, i);
    if blocks.None? {
      return None;
    }
    var ext := PlainTextExtension(introducer, extLabel, blockSize, ListOrNull(blocks.value.0));
    r := Some(Cursor(gifData.(plainTextExList := Append(gifData.plainTextExList, ext)), blocks.value.1));
  }

  method SetApplicationExtension(gifBytes: seq<byte>, byteIndex: nat, gifData: GifData) returns (r: Option<Cursor>)
    ensures r == match ParseApplicationExtension(gifBytes, byteIndex, gifData.appEx)
      case None => None
      case Some((ext, j)) => Some(Cursor(gifData.(appEx := ext), j))
  {
    var i := byteIndex;
    if i + 14 > |gifBytes| {
      return None;
    }
    var ext := gifData.appEx;
    ext := ext.(extensionIntroducer := gifBytes[i], extensionLabel := gifBytes[i + 1], blockSize := gifBytes[i + 2]);
    i := i + 3;
    ext := ext.(appId1 := gifBytes[i], appId2 := gifBytes[i + 1], appId3 := gifBytes[i + 2], appId4 := gifBytes[i + 3],
                appId5 := gifBytes[i + 4], appId6 := gifBytes[i + 5], appId7 := gifBytes[i + 6], appId8 := gifBytes[i + 7]);
    i := i + 8;
    ext := ext.(appAuthCode1 := gifBytes[i], appAuthCode2 := gifBytes[i + 1], appAuthCode3 := gifBytes[i + 2]);
    i := i + 3;
    var blocks := ReadSubBlocks(gifBytes, i);
    if blocks.None? {
      return None;
    }
    var list := ext.appDataList;
    for k := 0 to |blocks.value.0|
      invariant list == AppendAll(ext.appDataList, blocks.value.0[..k])
    {
      assert blocks.value.0[..k + 1] == blocks.value.0[..k] + [blocks.value.0[k]];
      AppendAllSnoc(ext.appDataList, blocks.value.0[..k], blocks.value.0[k]);
      list := Append(list, blocks.value.0[k]);
    }
    assert blocks.value.0[..|blocks.value.0|] == blocks.value.0;
    ext := ext.(appDataList := list);
    r := Some(Cursor(gifData.(appEx := ext), blocks.value.1));
  }

  method SetGifBlock(gifBytes: seq<byte>, byteIndex: nat, gifData: GifData) returns (r: Option<Cursor>)
    ensures r == ParseBlocks(gifBytes, byteIndex, 0, gifData)
  {
    var lastIndex := 0;
    var i := byteIndex;
    var gd := gifData;
    while true
      invariant ParseBlocks(gifBytes, i, lastIndex, gd) == ParseBlocks(gifBytes, byteIndex, 0, gifData)
      decreases |gifBytes| - i, if lastIndex == i then 0 else 1
    {
      var nowIndex := i;
      if nowIndex >= |gifBytes| {
        return None;
      }
      var step: Option<Cursor>;
      if gifBytes[nowIndex] == 0x2c {
        step := SetImageBlock(gifBytes, i, gd);
      } else if gifBytes[nowIndex] == 0x21 {
        if nowIndex + 1 >= |gifBytes| {
          return None;
        }
        var extLabel := gifBytes[nowIndex + 1];
        if extLabel == 0xf9 {
          step := SetGraphicControlExtension(gifBytes, i, gd);
        } else if extLabel == 0xfe {
          step := SetCommentExtension(gifBytes, i, gd);
        } else if extLabel == 0x01 {
          step := SetPlainTextExtension(gifBytes, i, gd);
        } else if extLabel == 0xff {
          step := SetApplicationExtension(gifBytes, i, gd);
        } else {
          step := Some(Cursor(gd, i));
        }
      } else if gifBytes[nowIndex] == 0x3b {
        gd := gd.(trailer := gifBytes[i]);
        i := i + 1;
        return Some(Cursor(gd, i));
      } else {
        step := Some(Cursor(gd, i));
      }
      assert step == BlockStep(gifBytes, nowIndex, gd);
      if step.None? {
        return None;
      }
      if lastIndex == nowIndex {
        return None;
      }
      lastIndex := nowIndex;
      gd := step.value.gifData;
      i := step.value.byteIndex;
    }
  }

  method SetGifData(gifBytes: Option<seq<byte>>, gifData: GifData) returns (r: ParseResult)
    ensures r == ParseGif(gifBytes, gifData)
  {
    if gifBytes.None? || |gifBytes.value| <= 0 {
      return ParseFailed;
    }
    var header := SetGifHeader(gifBytes.value, gifData);
    if header.HeaderFault? {
      return ParseFault(header.fault);
    }
    if header.HeaderRejected? {
      return ParseFailed;
    }
    var blocks := SetGifBlock(gifBytes.value, header.byteIndex, header.gifData);
    if blocks.None? {
      return ParseFailed;
    }
    return Parsed(blocks.value.gifData);
  }
}
