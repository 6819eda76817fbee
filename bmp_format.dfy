/**
 * The BMP file format as the viewer reads it: the checks `open` makes on the
 * file header and on the DIB header, and what each row walker makes of a
 * pixel's bytes. All functions here are the specification the `BmpImage`
 * class is proved against.
 */
module BmpFormat {
  import opened Bytes
  import opened Outcome
  import opened Gfx

  const MAGIC_1: int := 'B' as int
  const MAGIC_2: int := 'M' as int
  const SIZE_FIELD_OFFSET: nat := 0x02
  const BITMAP_OFFSET_FIELD_OFFSET: nat := 0x0a
  const DIB_HEADER_OFFSET: nat := 0x0e

  // DIB header kinds, told apart by their size.
  const BITMAPCOREHEADER_SIZE: nat := 12
  const OS22XBITMAPHEADER_SIZE_VAR1: nat := 64
  const OS22XBITMAPHEADER_SIZE_VAR2: nat := 16
  const BITMAPINFOHEADER_SIZE: nat := 40
  const BITMAPV2INFOHEADER_SIZE: nat := 52
  const BITMAPV3INFOHEADER_SIZE: nat := 56
  const BITMAPV4HEADER_SIZE: nat := 108
  const BITMAPV5HEADER_SIZE: nat := 124

  // Compression methods.
  const BI_RGB: nat := 0
  const BI_RLE8: nat := 1
  const BI_RLE4: nat := 2
  const BI_BITFIELDS: nat := 3
  const BI_JPEG: nat := 4
  const BI_PNG: nat := 5
  const BI_CMYK: nat := 11
  const BI_CMYKRLE8: nat := 12
  const BI_CMYKRLE4: nat := 13

  /** Why `open` refused a file; the original returns status 1 for each. */
  datatype BmpError =
    | BadMagic | NoRoomForHeaders | ReadFailed | BadBitmapOffset | NoRoomForDibHeader
    | UnknownDibHeader | ZeroSize | NegativeWidth | AreaOverflow | BadPlaneCount
    | BadDepth | Compressed | BadCompression | MasksNeedDeepPixels | Rle4Depth
    | Rle8Depth | ZeroImageSize | BitmapInHeaders | NoRoomForPixels | BadPalette

  /** The member fields `open` fills in. */
  datatype BmpHeader = BmpHeader(
    fileSize: uint32, bitmapOffset: uint32, dibHeaderSize: uint32,
    width: uint32, height: uint32, bitsPerPixel: uint16,
    compression: uint32, imageSize: uint32, hRes: int, vRes: int,
    paletteColors: uint32, masks: Masks)

  /** The channel masks of a `BI_BITFIELDS` image and whether the header version has an alpha mask. */
  datatype Masks = Masks(r: uint32, g: uint32, b: uint32, a: uint32, alpha: bool)

  /** The masks of every image that is not `BI_BITFIELDS`. */
  const NO_MASKS := Masks(0, 0, 0, 0, false)

  /** The header fields of a decoder that has not read a file. */
  const EMPTY_HEADER := BmpHeader(0, 0, 0, 0, 0, 0, BI_RGB, 0, 0, 0, 0, NO_MASKS)

  predicate IsCoreSize(dib: int)
  {
    dib == BITMAPCOREHEADER_SIZE || dib == OS22XBITMAPHEADER_SIZE_VAR1
  }

  predicate IsInfoSize(dib: int)
  {
    dib == BITMAPINFOHEADER_SIZE || dib == BITMAPV2INFOHEADER_SIZE || dib == BITMAPV3INFOHEADER_SIZE
    || dib == BITMAPV4HEADER_SIZE || dib == BITMAPV5HEADER_SIZE
  }

  /** `abs((int32_t)h)` stored back into an unsigned 32-bit field; abs(INT32_MIN) stays 2^31. */
  function AbsHeight(raw: uint32): uint32
  {
    if raw < 0x8000_0000 then raw else TWO_32 - raw
  }

  /** The overflow test `(w * h mod 2^32) / w != h`. */
  predicate AreaCheckFails(w: uint32, h: uint32)
    requires w > 0
  {
    Quot(Mul(w, h) % TWO_32, w) != h
  }

  /** The division test rejects exactly the sizes whose area does not fit in 32 bits. */
  lemma AreaCheckExact(w: uint32, h: uint32)
    requires w > 0
    ensures AreaCheckFails(w, h) <==> Mul(w, h) >= TWO_32
  {
    MulIsProduct(w, h);
    QuotIsDiv(Mul(w, h) % TWO_32, w);
    var p := w * h;
    var m := p % TWO_32;
    if p < TWO_32 {
      assert m == p;
      DivModUnique(p, w, h, 0);
    } else {
      var q, r := m / w, m % w;
      assert m == q * w + r;
    }
  }

  /**
   * Bytes of pixel data `open` demands: the unpadded row length
   * `ceil(((w * bpp) mod 2^32) / 8)` plus that length modulo 4, times the height.
   */
  function RequiredPixelBytes(w: uint32, bpp: uint16, h: uint32): nat
  {
    var r := (Mul(w, bpp) % TWO_32 + 7) / 8;
    Mul(r + r % 4, h)
  }

  /** The palette test of the info header reader, as a condition for acceptance. */
  predicate PaletteOk(bpp: int, compression: int, count: int)
  {
    !((bpp == 1 && (count > 2 || count == 0))
      || (bpp == 4 && count > 16)
      || (bpp == 8 && count > 256)
      || (bpp == 16 && count > 65536)
      || (bpp == 16 && compression == BI_RGB && count != 0))
  }

  /** What every accepted header satisfies, whatever the DIB header kind. */
  predicate Accepted(buf: seq<uint8>, h: BmpHeader)
  {
    && h.fileSize == |buf|
    && (IsCoreSize(h.dibHeaderSize) || IsInfoSize(h.dibHeaderSize))
    && DIB_HEADER_OFFSET + h.dibHeaderSize <= h.bitmapOffset < |buf|
    && 1 <= h.width < 0x8000_0000 && 1 <= h.height && Mul(h.width, h.height) < TWO_32
    && IsInfoDepth(h.bitsPerPixel)
    && (h.compression == BI_RGB || h.compression == BI_BITFIELDS || h.compression == BI_CMYK)
    && (h.compression == BI_BITFIELDS ==> h.bitsPerPixel == 16 || h.bitsPerPixel == 32)
    && (h.compression != BI_RGB ==> h.imageSize != 0)
    && h.bitmapOffset + RequiredPixelBytes(h.width, h.bitsPerPixel, h.height) <= |buf|
    && Add32(h.bitmapOffset, h.imageSize) <= |buf|
    && (h.compression != BI_BITFIELDS ==> h.masks == NO_MASKS)
  }

  /** An accepted core header: 16-bit size fields, no compression, no palette count. */
  predicate CoreAccepted(buf: seq<uint8>, off: uint32, dib: uint32, h: BmpHeader)
    requires 26 <= |buf|
  {
    && h.bitmapOffset == off && h.dibHeaderSize == dib && Accepted(buf, h)
    && h.width == Le16(buf, 0x12) && h.height == Le16(buf, 0x14)
    && (h.bitsPerPixel == 1 || h.bitsPerPixel == 4 || h.bitsPerPixel == 8 || h.bitsPerPixel == 24)
    && h.compression == BI_RGB && h.imageSize == 0 && h.paletteColors == 0
  }

  /** An accepted info header: 32-bit size fields, a palette that suits the depth, masks where BI_BITFIELDS says. */
  predicate InfoAccepted(buf: seq<uint8>, off: uint32, dib: uint32, h: BmpHeader)
    requires 54 <= |buf|
  {
    && h.bitmapOffset == off && h.dibHeaderSize == dib && Accepted(buf, h)
    && h.width == Le32(buf, 0x12) && h.height == AbsHeight(Le32(buf, 0x16))
    && h.bitsPerPixel == Le16(buf, 0x1c) && h.compression == Le32(buf, 0x1e)
    && h.paletteColors == Le32(buf, 0x2e)
    && PaletteOk(h.bitsPerPixel, h.compression, h.paletteColors)
    && (h.compression == BI_BITFIELDS ==>
          && h.masks.alpha == (dib == BITMAPV3INFOHEADER_SIZE || dib == BITMAPV4HEADER_SIZE || dib == BITMAPV5HEADER_SIZE)
          && var base := MaskBase(off, h.masks.alpha);
          && 0 <= base && off < |buf|
          && h.masks.r == Le32(buf, base) && h.masks.g == Le32(buf, base + 4) && h.masks.b == Le32(buf, base + 8)
          && h.masks.a == (if h.masks.alpha then Le32(buf, off - 4) else 0))
  }

  /** The header `BITMAPCOREHEADER` (and its 64-byte OS/2 extension) describes. */
  function ParseCoreHeader(buf: seq<uint8>, off: uint32, dib: uint32): Result<BmpHeader, BmpError>
    requires 26 <= |buf| < TWO_32 && off < |buf| && IsCoreSize(dib)
  {
    var w := Le16(buf, 0x12);
    var h := AbsHeight(Le16(buf, 0x14));
    if w == 0 || h == 0 then Err(ZeroSize)
    else if w >= 0x8000_0000 then Err(NegativeWidth)
    else if AreaCheckFails(w, h) then Err(AreaOverflow)
    else if Le16(buf, 0x16) != 1 then Err(BadPlaneCount)
    else
      var bpp := Le16(buf, 0x18);
      if !(bpp == 1 || bpp == 4 || bpp == 8 || bpp == 24) then Err(BadDepth)
      else if off < Add32(DIB_HEADER_OFFSET, dib) then Err(BitmapInHeaders)
      else if |buf| < off + RequiredPixelBytes(w, bpp, h) || |buf| < Add32(off, 0) then Err(NoRoomForPixels)
      else Ok(BmpHeader(|buf|, off, dib, w, h, bpp, BI_RGB, 0, 0, 0, 0, NO_MASKS))
  }

  predicate IsInfoDepth(bpp: int)
  {
    bpp == 1 || bpp == 4 || bpp == 8 || bpp == 16 || bpp == 24 || bpp == 32
  }

  /** Width, height and colour depth as the info header reader accepts them. */
  datatype Geometry = Geometry(width: uint32, height: uint32, bitsPerPixel: uint16)

  /** The first checks of the info header reader: sizes, area, plane count, depth. */
  function InfoGeometry(buf: seq<uint8>): Result<Geometry, BmpError>
    requires 54 <= |buf|
  {
    var w := Le32(buf, 0x12);
    var h := AbsHeight(Le32(buf, 0x16));
    if w == 0 || h == 0 then Err(ZeroSize)
    else if w >= 0x8000_0000 then Err(NegativeWidth)
    else if AreaCheckFails(w, h) then Err(AreaOverflow)
    else if Le16(buf, 0x1a) != 1 then Err(BadPlaneCount)
    else
      var bpp := Le16(buf, 0x1c);
      if !IsInfoDepth(bpp) then Err(BadDepth)
      else Ok(Geometry(w, h, bpp))
  }

  /** Compression method and image size of an info header. */
  datatype Encoding = Encoding(compression: uint32, imageSize: uint32)

  /** The compression checks of the info header reader, for an image of depth `bpp`. */
  function InfoEncoding(buf: seq<uint8>, bpp: uint16): Result<Encoding, BmpError>
    requires 54 <= |buf|
  {
    var comp := Le32(buf, 0x1e);
    if comp == BI_RLE8 || comp == BI_RLE4 || comp == BI_JPEG || comp == BI_PNG
      || comp == BI_CMYKRLE8 || comp == BI_CMYKRLE4 then Err(Compressed)
    else if !(comp == BI_RGB || comp == BI_CMYK || comp == BI_BITFIELDS) then Err(BadCompression)
    else if comp == BI_BITFIELDS && bpp != 16 && bpp != 32 then Err(MasksNeedDeepPixels)
    else if comp == BI_RLE4 && bpp != 4 then Err(Rle4Depth)
    else if comp == BI_RLE8 && bpp != 8 then Err(Rle8Depth)
    else
      var imageSize := Le32(buf, 0x22);
      if comp != BI_RGB && imageSize == 0 then Err(ZeroImageSize)
      else Ok(Encoding(comp, imageSize))
  }

  /** Where the colour masks of a BI_BITFIELDS image start: 12 or 16 bytes before the pixels. */
  function MaskBase(off: int, alpha: bool): int
  {
    off - (if alpha then 16 else 12)
  }

  /** Resolution and palette size, the info header fields read after the room checks. */
  datatype Layout = Layout(hRes: int, vRes: int, paletteColors: uint32)

  /** The last checks of the info header reader: room for the pixels, then the palette size. */
  function InfoLayout(buf: seq<uint8>, off: uint32, dib: uint32, g: Geometry, enc: Encoding): Result<Layout, BmpError>
    requires 54 <= |buf| < TWO_32 && off < |buf| && IsInfoSize(dib)
  {
    if off < Add32(DIB_HEADER_OFFSET, dib) then Err(BitmapInHeaders)
    else if |buf| < off + RequiredPixelBytes(g.width, g.bitsPerPixel, g.height)
      || |buf| < Add32(off, enc.imageSize) then Err(NoRoomForPixels)
    else
      var count := Le32(buf, 0x2e);
      if !PaletteOk(g.bitsPerPixel, enc.compression, count) then Err(BadPalette)
      else Ok(Layout(AsInt32(Le32(buf, 0x26)), AsInt32(Le32(buf, 0x2a)), count))
  }

  /**
   * The masks stored just before the pixel array: red, green, blue and, for
   * the V3, V4 and V5 headers, alpha, four bytes each. Without an alpha mask
   * the alpha mask stays 0.
   */
  function BitMasks(buf: seq<uint8>, off: uint32, dib: uint32): Masks
    requires 16 <= off < |buf|
  {
    var alpha := dib == BITMAPV3INFOHEADER_SIZE || dib == BITMAPV4HEADER_SIZE || dib == BITMAPV5HEADER_SIZE;
    var base: nat := MaskBase(off, alpha);
    Masks(Le32(buf, base), Le32(buf, base + 4), Le32(buf, base + 8), if alpha then Le32(buf, off - 16 + 12) else 0, alpha)
  }

  /** The header `BITMAPINFOHEADER` and its later versions describe. */
  function ParseInfoHeader(buf: seq<uint8>, off: uint32, dib: uint32): Result<BmpHeader, BmpError>
    requires 54 <= |buf| < TWO_32 && off < |buf| && IsInfoSize(dib)
  {
    match InfoGeometry(buf)
    case Err(e) => Err(e)
    case Ok(g) =>
      match InfoEncoding(buf, g.bitsPerPixel)
      case Err(e) => Err(e)
      case Ok(enc) =>
        match InfoLayout(buf, off, dib, g, enc)
        case Err(e) => Err(e)
        case Ok(l) =>
          Ok(BmpHeader(|buf|, off, dib, g.width, g.height, g.bitsPerPixel, enc.compression, enc.imageSize,
            l.hRes, l.vRes, l.paletteColors, if enc.compression == BI_BITFIELDS then BitMasks(buf, off, dib) else NO_MASKS))
  }

  /**
   * What `open` makes of the `fileSize` bytes it read: the header, or why it
   * refuses them.
   */
  function ParseBuffer(buf: seq<uint8>): Result<BmpHeader, BmpError>
    requires 26 <= |buf| < TWO_32
  {
    var off := Le32(buf, BITMAP_OFFSET_FIELD_OFFSET);
    if off >= |buf| then Err(BadBitmapOffset)
    else
      var dib := Le32(buf, DIB_HEADER_OFFSET);
      if |buf| < Add32(DIB_HEADER_OFFSET, dib) then Err(NoRoomForDibHeader)
      else if IsCoreSize(dib) then ParseCoreHeader(buf, off, dib)
      else if IsInfoSize(dib) then ParseInfoHeader(buf, off, dib)
      else Err(UnknownDibHeader)
  }

  /**
   * What `open` makes of a whole file: the magic bytes, the declared size
   * (read into a zeroed field, so a short file leaves zeros), then the
   * declared number of bytes.
   */
  function ParseBmp(file: seq<uint8>): Result<BmpHeader, BmpError>
  {
    if ByteOr0(file, 0) != MAGIC_1 || ByteOr0(file, 1) != MAGIC_2 then Err(BadMagic)
    else
      var size := Le32Or0(file, SIZE_FIELD_OFFSET);
      if size < DIB_HEADER_OFFSET + BITMAPCOREHEADER_SIZE then Err(NoRoomForHeaders)
      else if |file| < size then Err(ReadFailed)
      else ParseBuffer(file[..size])
  }

  lemma CoreHeaderAccepted(buf: seq<uint8>, off: uint32, dib: uint32)
    requires 26 <= |buf| < TWO_32 && off < |buf| && IsCoreSize(dib)
    requires ParseCoreHeader(buf, off, dib).Ok?
    ensures CoreAccepted(buf, off, dib, ParseCoreHeader(buf, off, dib).value)
  {
    AreaCheckExact(Le16(buf, 0x12), Le16(buf, 0x14));
  }

  lemma InfoGeometryAccepted(buf: seq<uint8>)
    requires 54 <= |buf| && InfoGeometry(buf).Ok?
    ensures var g := InfoGeometry(buf).value;
      && g.width == Le32(buf, 0x12) && g.height == AbsHeight(Le32(buf, 0x16))
      && 1 <= g.width < 0x8000_0000 && 1 <= g.height && Mul(g.width, g.height) < TWO_32
      && g.bitsPerPixel == Le16(buf, 0x1c) && IsInfoDepth(g.bitsPerPixel)
  {
    AreaCheckExact(Le32(buf, 0x12), AbsHeight(Le32(buf, 0x16)));
  }

  lemma InfoHeaderAccepted(buf: seq<uint8>, off: uint32, dib: uint32)
    requires 54 <= |buf| < TWO_32 && off < |buf| && IsInfoSize(dib)
    requires ParseInfoHeader(buf, off, dib).Ok?
    ensures InfoAccepted(buf, off, dib, ParseInfoHeader(buf, off, dib).value)
  {
    InfoGeometryAccepted(buf);
  }

  /**
   * Every header `open` accepts satisfies `Accepted`, with offset and DIB
   * size as the file header says, and satisfies the reader the DIB size
   * selects: the core reader for a 12-byte header, the info reader otherwise.
   */
  lemma BufferAccepted(buf: seq<uint8>)
    requires 26 <= |buf| < TWO_32 && ParseBuffer(buf).Ok?
    ensures var h := ParseBuffer(buf).value;
      && h.bitmapOffset == Le32(buf, BITMAP_OFFSET_FIELD_OFFSET) < |buf|
      && h.dibHeaderSize == Le32(buf, DIB_HEADER_OFFSET)
      && Accepted(buf, h)
    ensures var h := ParseBuffer(buf).value;
      IsCoreSize(h.dibHeaderSize) ==> CoreAccepted(buf, h.bitmapOffset, h.dibHeaderSize, h)
    ensures var h := ParseBuffer(buf).value;
      IsInfoSize(h.dibHeaderSize) ==> 54 <= |buf| && InfoAccepted(buf, h.bitmapOffset, h.dibHeaderSize, h)
  {
    var off := Le32(buf, BITMAP_OFFSET_FIELD_OFFSET);
    var dib := Le32(buf, DIB_HEADER_OFFSET);
    if IsCoreSize(dib) {
      CoreHeaderAccepted(buf, off, dib);
    } else {
      InfoHeaderAccepted(buf, off, dib);
    }
  }

  /** A file `open` accepts starts with "BM" and declares a size it holds; the header comes from that prefix. */
  lemma BmpAccepted(file: seq<uint8>)
    requires ParseBmp(file).Ok?
    ensures |file| >= 26 && file[0] == MAGIC_1 && file[1] == MAGIC_2
    ensures var size := ParseBmp(file).value.fileSize;
      && 26 <= size == Le32(file, SIZE_FIELD_OFFSET) <= |file|
      && ParseBmp(file) == ParseBuffer(file[..size])
      && Accepted(file[..size], ParseBmp(file).value)
  {
    var size := Le32Or0(file, SIZE_FIELD_OFFSET);
    BufferAccepted(file[..size]);
  }

  // ---------------------------------------------------------------------
  // Pixel data, as the row walkers read it.
  // ---------------------------------------------------------------------

  /** Why a walker stopped with status 1; `OutOfRange` is a read the original makes past its buffer. */
  datatype PixelError = NoPalette | BadIndex | OutOfRange

  /** How far the walker's index `i` advances per pixel (bits, nibbles or bytes). */
  function Step(bpp: int): nat
  {
    if bpp == 16 then 2 else if bpp == 24 then 3 else if bpp == 32 then 4 else 1
  }

  /** What the walker adds to `i` after the last pixel of a row. */
  function RowSkip(bpp: int, w: nat): nat
  {
    if bpp == 1 then (if w % 32 != 0 then 32 - w % 32 else 0)
    else if bpp == 4 then (if w % 8 != 0 then 8 - w % 8 else 0)
    else if bpp == 8 then (if w % 4 != 0 then 4 - w % 4 else 0)
    else if bpp == 16 then (if w % 4 != 0 then (4 - w % 4) * 2 else 0)
    else if bpp == 24 then w % 4
    else if bpp == 32 then (if w / 4 % 4 != 0 then 4 - w / 4 % 4 - 1 else 0)
    else 0
  }

  /** Units of `i` per row of the image. */
  function RowLength(bpp: int, w: nat): nat
  {
    (if bpp == 16 then 2 * w else if bpp == 24 then 3 * w else if bpp == 32 then 4 * w else w) + RowSkip(bpp, w)
  }

  /** The value of `i` when the walker reaches pixel (x, y); rows are stored bottom-up. */
  function Cursor(h: BmpHeader, x: nat, y: int): nat
    requires y < h.height
  {
    var rowsBelow: nat := h.height - 1 - y;
    Mul(rowsBelow, RowLength(h.bitsPerPixel, h.width)) + Mul(x, Step(h.bitsPerPixel))
  }

  /** The walk starts at the first stored byte, which holds the bottom row's first pixel. */
  lemma CursorStart(h: BmpHeader)
    requires h.height >= 1
    ensures Cursor(h, 0, h.height - 1) == 0
  {
  }

  /** The next pixel of a row is one step further. */
  lemma CursorNextPixel(h: BmpHeader, x: nat, y: int)
    requires y < h.height
    ensures Cursor(h, x + 1, y) == Cursor(h, x, y) + Step(h.bitsPerPixel)
  {
  }

  /** After the last pixel of a row, the row skip and one step reach the first pixel of the row above. */
  lemma CursorNextRow(h: BmpHeader, y: int)
    requires 0 <= y < h.height && h.width >= 1
    ensures Cursor(h, 0, y - 1) == Cursor(h, h.width - 1, y) + RowSkip(h.bitsPerPixel, h.width) + Step(h.bitsPerPixel)
  {
    var rowLength, rowsBelow: nat := RowLength(h.bitsPerPixel, h.width), h.height - 1 - y;
    assert Mul(rowsBelow + 1, rowLength) == rowLength + Mul(rowsBelow, rowLength);
    StepsAcrossRow(h.bitsPerPixel, h.width);
  }

  /** The steps over a row's pixels and the row skip add up to the row length. */
  lemma StepsAcrossRow(bpp: int, w: nat)
    requires w >= 1
    ensures Mul(w - 1, Step(bpp)) + Step(bpp) + RowSkip(bpp, w) == RowLength(bpp, w)
  {
    if bpp == 16 {
      MulIsProduct(w - 1, 2);
    } else if bpp == 24 {
      MulIsProduct(w - 1, 3);
    } else if bpp == 32 {
      MulIsProduct(w - 1, 4);
    } else {
      MulIsProduct(w - 1, 1);
    }
  }

  /** Palette entry `idx`: blue, green, red bytes right after the DIB header, four bytes per entry. */
  function PaletteColor(h: BmpHeader, buf: seq<uint8>, idx: nat): Result<RGBA, PixelError>
  {
    var base := DIB_HEADER_OFFSET + h.dibHeaderSize + idx * 4;
    if base + 2 >= |buf| then Err(OutOfRange)
    else Ok(Opaque(buf[base + 2], buf[base + 1], buf[base]))
  }

  /** A 1-bit pixel: bit `7 - i % 8` of byte `i / 8`, an index into a palette that must exist. */
  function Resolve1(h: BmpHeader, buf: seq<uint8>, i: nat): Result<RGBA, PixelError>
  {
    if h.paletteColors == 0 then Err(NoPalette)
    else
      var p := h.bitmapOffset + i / 8;
      if p >= |buf| then Err(OutOfRange)
      else
        var idx := Bit(buf[p], 7 - i % 8);
        if idx >= h.paletteColors then Err(BadIndex) else PaletteColor(h, buf, idx)
  }

  /** A 4-bit pixel: the high nibble of byte `i / 2` for even `i`, the low one for odd `i`. */
  function Resolve4(h: BmpHeader, buf: seq<uint8>, i: nat): Result<RGBA, PixelError>
  {
    var p := h.bitmapOffset + i / 2;
    if p >= |buf| then Err(OutOfRange)
    else
      var idx := if i % 2 == 0 then buf[p] / 16 else buf[p] % 16;
      if (h.paletteColors != 0 && idx >= h.paletteColors) || idx >= 16 then Err(BadIndex)
      else PaletteColor(h, buf, idx)
  }

  /** An 8-bit pixel: byte `i` indexes the palette; without a declared count every index passes. */
  function Resolve8(h: BmpHeader, buf: seq<uint8>, i: nat): Result<RGBA, PixelError>
  {
    var p := h.bitmapOffset + i;
    if p >= |buf| then Err(OutOfRange)
    else
      var idx := buf[p];
      if h.paletteColors != 0 && idx >= h.paletteColors then Err(BadIndex)
      else PaletteColor(h, buf, idx)
  }

  /** A five-bit channel widened to eight bits as `v << 3 | 7`. */
  function Widen5(v: nat): uint8
    requires v < 32
  {
    v * 8 + 7
  }

  /** A channel taken through a bit mask and scaled to 0..255; a zero mask leaves the default. */
  function MaskChannel(word: uint32, mask: uint32, default: uint8): uint8
  {
    if mask != 0 then ScaleToByte(And32(word, mask), mask) else default
  }

  /** A 16-bit pixel: RGB555 without compression, masks with BI_BITFIELDS, opaque black otherwise. */
  function Resolve16(h: BmpHeader, buf: seq<uint8>, i: nat): Result<RGBA, PixelError>
  {
    var p := h.bitmapOffset + i;
    if h.compression == BI_RGB then
      if p + 1 >= |buf| then Err(OutOfRange)
      else
        var lo, hi := buf[p], buf[p + 1];
        Ok(Opaque(Widen5(hi / 4 % 32), Widen5(hi % 4 * 8 + lo / 32), Widen5(lo % 32)))
    else if h.compression == BI_BITFIELDS then
      if p + 1 >= |buf| then Err(OutOfRange)
      else
        var word := buf[p] as int + 0x100 * (buf[p + 1] as int);
        Ok(RGBA(MaskChannel(word, h.masks.r, 0), MaskChannel(word, h.masks.g, 0),
                MaskChannel(word, h.masks.b, 0), MaskChannel(word, h.masks.a, 255)))
    else Ok(Opaque(0, 0, 0))
  }

  /** A 24-bit pixel: blue, green, red. */
  function Resolve24(h: BmpHeader, buf: seq<uint8>, i: nat): Result<RGBA, PixelError>
  {
    var p := h.bitmapOffset + i;
    if p + 2 >= |buf| then Err(OutOfRange)
    else Ok(Opaque(buf[p + 2], buf[p + 1], buf[p]))
  }

  /** The 32-bit walker reads blue, green, red, alpha unless every colour mask is set. */
  predicate PlainBgra(h: BmpHeader)
  {
    h.compression == BI_RGB
    || (h.compression == BI_BITFIELDS && (h.masks.r == 0 || h.masks.g == 0 || h.masks.b == 0))
  }

  /** A 32-bit pixel: raw BGRA, or a little-endian word taken through the masks, or opaque black. */
  function Resolve32(h: BmpHeader, buf: seq<uint8>, i: nat): Result<RGBA, PixelError>
  {
    var p := h.bitmapOffset + i;
    if PlainBgra(h) then
      if p + 3 >= |buf| then Err(OutOfRange)
      else Ok(RGBA(buf[p + 2], buf[p + 1], buf[p], buf[p + 3]))
    else if h.compression == BI_BITFIELDS then
      if p + 3 >= |buf| then Err(OutOfRange)
      else
        var word := Le32(buf, p);
        Ok(RGBA(MaskChannel(word, h.masks.r, 0), MaskChannel(word, h.masks.g, 0),
                MaskChannel(word, h.masks.b, 0), MaskChannel(word, h.masks.a, 255)))
    else Ok(Opaque(0, 0, 0))
  }

  /** The pixel at walker index `i`, by colour depth. */
  function ResolveAt(h: BmpHeader, buf: seq<uint8>, i: nat): Result<RGBA, PixelError>
  {
    match h.bitsPerPixel
    case 1 => Resolve1(h, buf, i)
    case 4 => Resolve4(h, buf, i)
    case 8 => Resolve8(h, buf, i)
    case 16 => Resolve16(h, buf, i)
    case 24 => Resolve24(h, buf, i)
    case _ => Resolve32(h, buf, i)
  }

  /** The colour of image pixel (x, y), y counted from the top. */
  function PixelAt(h: BmpHeader, buf: seq<uint8>, x: nat, y: nat): Result<RGBA, PixelError>
    requires y < h.height
  {
    ResolveAt(h, buf, Cursor(h, x, y))
  }

  /** Every pixel of the visible `w` x `h` corner decodes. */
  ghost predicate AllVisibleDecode(h: BmpHeader, buf: seq<uint8>, w: nat, ht: nat)
    requires ht <= h.height
  {
    forall x: nat, y: nat | x < w && y < ht :: PixelAt(h, buf, x, y).Ok?
  }

  /** Pixels are visited bottom row first, each row left to right: (x', y') comes before (x, y). */
  predicate VisitedBefore(x': int, y': int, x: int, y: int)
  {
    y' > y || (y' == y && x' < x)
  }

  // ---------------------------------------------------------------------
  // Row layout and the header checks, compared with the format.
  // ---------------------------------------------------------------------

  // For 1, 4, 8 and 24 bits per pixel the walker's rows are the format's
  // rows: the pixel data rounded up to the next multiple of four bytes. The
  // walker index counts bits at depth 1, nibbles at depth 4 and bytes
  // otherwise, so four bytes are 32, 8 and 4 units.

  lemma OneBitRowPadding(w: nat)
    ensures RowLength(1, w) % 32 == 0 && w <= RowLength(1, w) < w + 32
  {
    assert w == 32 * (w / 32) + w % 32;
  }

  lemma FourBitRowPadding(w: nat)
    ensures RowLength(4, w) % 8 == 0 && w <= RowLength(4, w) < w + 8
  {
    assert w == 8 * (w / 8) + w % 8;
  }

  lemma EightBitRowPadding(w: nat)
    ensures RowLength(8, w) % 4 == 0 && w <= RowLength(8, w) < w + 4
  {
    assert w == 4 * (w / 4) + w % 4;
  }

  lemma TwentyFourBitRowPadding(w: nat)
    ensures RowLength(24, w) % 4 == 0 && 3 * w <= RowLength(24, w) < 3 * w + 4
  {
    assert w == 4 * (w / 4) + w % 4;
  }

  /**
   * The 16-bit walker pads a row to a multiple of four bytes, but by a whole
   * four bytes more than the format when the width leaves 1 or 2 pixels over.
   */
  lemma SixteenBitRowPadding(w: nat)
    ensures RowLength(16, w) % 4 == 0
    ensures RowLength(16, w) >= 2 * w + 4 <==> w % 4 == 1 || w % 4 == 2
  {
    assert w == 4 * (w / 4) + w % 4;
  }

  /**
   * The format needs no padding for 32-bit rows, yet the 32-bit walker skips
   * two bytes or one when `(w / 4) % 4` is 1 or 2, which leaves the rows
   * above off their four-byte boundary.
   */
  lemma ThirtyTwoBitRowSkip(w: nat)
    ensures RowSkip(32, w) != 0 <==> (w / 4) % 4 == 1 || (w / 4) % 4 == 2
    ensures RowLength(32, w) % 4 != 0 <==> (w / 4) % 4 == 1 || (w / 4) % 4 == 2
  {
  }

  /**
   * For an 8-bit image of width `4k + 1` the room check counts `w + 1` bytes
   * per row, two fewer than the walker steps over.
   */
  lemma RoomCheckRowShort(w: uint32)
    requires w < 0x2000_0000 && w % 4 == 1
    ensures var r := (Mul(w, 8) % TWO_32 + 7) / 8;
      r + r % 4 == w + 1 == RowLength(8, w) - 2
  {
    MulIsProduct(w, 8);
    DivModUnique(w * 8 + 7, 8, w, 7);
  }

  /** A core header leaves the palette count at 0, so a 1-bit image opens but no pixel of it decodes. */
  lemma CoreOneBitHasNoPalette(buf: seq<uint8>, off: uint32, dib: uint32, x: nat, y: nat)
    requires 26 <= |buf| < TWO_32 && off < |buf| && IsCoreSize(dib)
    requires ParseCoreHeader(buf, off, dib).Ok? && ParseCoreHeader(buf, off, dib).value.bitsPerPixel == 1
    requires y < ParseCoreHeader(buf, off, dib).value.height
    ensures PixelAt(ParseCoreHeader(buf, off, dib).value, buf, x, y) == Err(NoPalette)
  {
  }

  /** A nibble is always below 16, so only the declared palette count can reject a 4-bit index. */
  lemma FourBitIndexNeedsCount(h: BmpHeader, buf: seq<uint8>, i: nat)
    ensures Resolve4(h, buf, i) == Err(BadIndex) ==> h.paletteColors != 0
  {
  }

  /** RLE compression is refused before the depth checks for RLE, so those two errors never occur. */
  lemma RleDepthChecksUnreachable(buf: seq<uint8>, bpp: uint16)
    requires 54 <= |buf|
    ensures InfoEncoding(buf, bpp) != Err(Rle4Depth) && InfoEncoding(buf, bpp) != Err(Rle8Depth)
  {
  }
}
