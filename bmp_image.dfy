/**
 * The BMP decoder object: `open` fills in its member fields step by step from
 * the file's headers, `render` walks the stored pixel rows and draws every
 * pixel inside the window into the texture.
 */
module BmpDecoder {
  import opened Bytes
  import opened Outcome
  import opened Gfx
  import opened BmpFormat

  class BmpImage {
    var isInitialized: bool
    var buffer: seq<uint8>
    /** The header members of the decoder, kept together as one record. */
    var header: BmpHeader

    /** A freshly constructed image, before `open`: nothing read, every header field zero. */
    predicate Pristine()
      reads this
    {
      !isInitialized && buffer == [] && header == EMPTY_HEADER
    }

    /** Once initialised, the header is what the headers of the stored buffer say. */
    ghost predicate Valid()
      reads this
    {
      isInitialized ==> 26 <= |buffer| < TWO_32 && ParseBuffer(buffer) == Ok(header)
    }

    constructor ()
      ensures Pristine() && Valid()
    {
      isInitialized := false;
      buffer := [];
      header := EMPTY_HEADER;
    }

    /** Reads the file header, then the DIB header whose kind its size names. */
    method Open(file: seq<uint8>) returns (status: int)
      requires Pristine()
      modifies this
      ensures Valid()
      ensures status == 0 <==> ParseBmp(file).Ok?
      ensures status == 0 ==> isInitialized && header == ParseBmp(file).value && buffer == file[..header.fileSize]
      ensures status != 0 ==> status == 1 && !isInitialized
    {
      if ByteOr0(file, 0) != MAGIC_1 || ByteOr0(file, 1) != MAGIC_2 {
        return 1;
      }
      var size := Le32Or0(file, SIZE_FIELD_OFFSET);
      if size < DIB_HEADER_OFFSET + BITMAPCOREHEADER_SIZE {
        return 1;
      }
      var bytesRead := Min(|file|, size);
      var buf := file[..bytesRead];
      buffer := buf;
      if bytesRead != size {
        return 1;
      }
      assert ParseBmp(file) == ParseBuffer(buf);
      var off := Le32(buf, BITMAP_OFFSET_FIELD_OFFSET);
      if off >= size {
        return 1;
      }
      var dib := Le32(buf, DIB_HEADER_OFFSET);
      if size < Add32(DIB_HEADER_OFFSET, dib) {
        return 1;
      }
      var hdr;
      if IsCoreSize(dib) {
        status, hdr := ReadBitmapCoreHeader(off, dib);
        assert ParseBuffer(buf) == ParseCoreHeader(buf, off, dib);
      } else if IsInfoSize(dib) {
        status, hdr := ReadBitmapInfoHeader(off, dib);
        assert ParseBuffer(buf) == ParseInfoHeader(buf, off, dib);
      } else {
        return 1;
      }
      if status != 0 {
        return;
      }
      header := hdr;
      isInitialized := true;
    }

    /** `BITMAPCOREHEADER`: two-byte width and height, planes, depth, then the room checks. */
    method ReadBitmapCoreHeader(off: uint32, dib: uint32) returns (status: int, hdr: BmpHeader)
      requires 26 <= |buffer| < TWO_32 && off < |buffer| && IsCoreSize(dib)
      ensures status == 0 <==> ParseCoreHeader(buffer, off, dib).Ok?
      ensures status == 0 ==> hdr == ParseCoreHeader(buffer, off, dib).value
      ensures status != 0 ==> status == 1
    {
      var buf := buffer;
      hdr := EMPTY_HEADER;
      var width := Le16(buf, 0x12);
      var height := AbsHeight(Le16(buf, 0x14));
      if width == 0 || height == 0 {
        return 1, hdr;
      }
      if width >= 0x8000_0000 {
        return 1, hdr;
      }
      if AreaCheckFails(width, height) {
        return 1, hdr;
      }
      var colorPlaneNum := Le16(buf, 0x16);
      if colorPlaneNum != 1 {
        return 1, hdr;
      }
      var bitsPerPixel := Le16(buf, 0x18);
      if !(bitsPerPixel == 1 || bitsPerPixel == 4 || bitsPerPixel == 8 || bitsPerPixel == 24) {
        return 1, hdr;
      }
      if off < Add32(DIB_HEADER_OFFSET, dib) {
        return 1, hdr;
      }
      // The image size field keeps its initial 0 for this header kind.
      if |buf| < off + RequiredPixelBytes(width, bitsPerPixel, height) || |buf| < Add32(off, 0) {
        return 1, hdr;
      }
      hdr := BmpHeader(|buf|, off, dib, width, height, bitsPerPixel, BI_RGB, 0, 0, 0, 0, NO_MASKS);
      return 0, hdr;
    }

    /** `BITMAPINFOHEADER` and later: four-byte sizes, compression, image size, palette, bit masks. */
    method ReadBitmapInfoHeader(off: uint32, dib: uint32) returns (status: int, hdr: BmpHeader)
      requires 54 <= |buffer| < TWO_32 && off < |buffer| && IsInfoSize(dib)
      ensures status == 0 <==> ParseInfoHeader(buffer, off, dib).Ok?
      ensures status == 0 ==> hdr == ParseInfoHeader(buffer, off, dib).value
      ensures status != 0 ==> status == 1
    {
      hdr := EMPTY_HEADER;
      var g, enc, layout;
      status, g := ReadInfoGeometry();
      if status != 0 {
        return;
      }
      status, enc := ReadInfoEncoding(g.bitsPerPixel);
      if status != 0 {
        return;
      }
      status, layout := ReadInfoLayout(off, dib, g, enc);
      if status != 0 {
        return;
      }
      var masks := NO_MASKS;
      if enc.compression == BI_BITFIELDS {
        masks := ReadBitMasks(off, dib);
      }
      hdr := BmpHeader(|buffer|, off, dib, g.width, g.height, g.bitsPerPixel, enc.compression, enc.imageSize,
        layout.hRes, layout.vRes, layout.paletteColors, masks);
    }

    /** The first part of the info header reader: width, height, their product, plane count, depth. */
    method ReadInfoGeometry() returns (status: int, g: Geometry)
      requires 54 <= |buffer|
      ensures status == 0 <==> InfoGeometry(buffer).Ok?
      ensures status == 0 ==> InfoGeometry(buffer).value == g
      ensures status != 0 ==> status == 1
    {
      var buf := buffer;
      var w := Le32(buf, 0x12);
      var h := AbsHeight(Le32(buf, 0x16));
      g := Geometry(w, h, 0);
      if w == 0 || h == 0 {
        return 1, g;
      }
      if w >= 0x8000_0000 {
        return 1, g;
      }
      if AreaCheckFails(w, h) {
        return 1, g;
      }
      var colorPlaneNum := Le16(buf, 0x1a);
      if colorPlaneNum != 1 {
        return 1, g;
      }
      var bpp := Le16(buf, 0x1c);
      g := Geometry(w, h, bpp);
      if !IsInfoDepth(bpp) {
        return 1, g;
      }
      return 0, g;
    }

    /** The compression part of the info header reader, for an image of depth `bpp`. */
    method ReadInfoEncoding(bpp: uint16) returns (status: int, enc: Encoding)
      requires 54 <= |buffer|
      ensures status == 0 <==> InfoEncoding(buffer, bpp).Ok?
      ensures status == 0 ==> InfoEncoding(buffer, bpp).value == enc
      ensures status != 0 ==> status == 1
    {
      var buf := buffer;
      var comp := Le32(buf, 0x1e);
      enc := Encoding(comp, 0);
      if comp == BI_RLE8 || comp == BI_RLE4 || comp == BI_JPEG
        || comp == BI_PNG || comp == BI_CMYKRLE8 || comp == BI_CMYKRLE4
      {
        return 1, enc;
      } else if !(comp == BI_RGB || comp == BI_CMYK || comp == BI_BITFIELDS) {
        return 1, enc;
      }
      if comp == BI_BITFIELDS && bpp != 16 && bpp != 32 {
        return 1, enc;
      }
      if comp == BI_RLE4 && bpp != 4 {
        return 1, enc;
      }
      if comp == BI_RLE8 && bpp != 8 {
        return 1, enc;
      }
      var size := Le32(buf, 0x22);
      enc := Encoding(comp, size);
      if comp != BI_RGB && size == 0 {
        return 1, enc;
      }
      return 0, enc;
    }

    /** The room, resolution and palette part of the info header reader. */
    method ReadInfoLayout(off: uint32, dib: uint32, g: Geometry, enc: Encoding) returns (status: int, layout: Layout)
      requires 54 <= |buffer| < TWO_32 && off < |buffer| && IsInfoSize(dib)
      ensures status == 0 <==> InfoLayout(buffer, off, dib, g, enc).Ok?
      ensures status == 0 ==> InfoLayout(buffer, off, dib, g, enc).value == layout
      ensures status != 0 ==> status == 1
    {
      var buf := buffer;
      layout := Layout(0, 0, 0);
      if off < Add32(DIB_HEADER_OFFSET, dib) {
        return 1, layout;
      }
      if |buf| < off + RequiredPixelBytes(g.width, g.bitsPerPixel, g.height) || |buf| < Add32(off, enc.imageSize) {
        return 1, layout;
      }
      var count := Le32(buf, 0x2e);
      layout := Layout(AsInt32(Le32(buf, 0x26)), AsInt32(Le32(buf, 0x2a)), count);
      if !PaletteOk(g.bitsPerPixel, enc.compression, count) {
        return 1, layout;
      }
      return 0, layout;
    }

    /** The bit mask part of the info header reader, for `BI_BITFIELDS` images. */
    method ReadBitMasks(off: uint32, dib: uint32) returns (m: Masks)
      requires 16 <= off < |buffer|
      ensures m == BitMasks(buffer, off, dib)
    {
      var buf := buffer;
      var alpha := dib == BITMAPV3INFOHEADER_SIZE || dib == BITMAPV4HEADER_SIZE || dib == BITMAPV5HEADER_SIZE;
      var base := MaskBase(off, alpha);
      m := Masks(Le32(buf, base), Le32(buf, base + 4), Le32(buf, base + 8), 0, alpha);
      if alpha {
        m := m.(a := Le32(buf, off - 16 + 12));
      }
    }

    /**
     * The row walk shared by the six depth-specific renderers: bottom row
     * first, `i` advancing by the depth's step per pixel and by the row skip at
     * the end of each row; pixels inside the window are decoded and drawn.
     */
    method RenderPixelRows(pixels: array<uint8>, windowWidth: nat, windowHeight: nat, textureWidth: nat)
      returns (status: int)
      requires isInitialized && header.width >= 1 && header.height >= 1
      requires SinkFits(pixels.Length, textureWidth, Min(header.width, windowWidth), Min(header.height, windowHeight))
      modifies pixels
      ensures status == 0 || status == 1
      ensures status == 0 <==> AllVisibleDecode(header, buffer, Min(header.width, windowWidth), Min(header.height, windowHeight))
      ensures status == 0 ==>
        forall x: nat, y: nat | x < Min(header.width, windowWidth) && y < Min(header.height, windowHeight) ::
          Painted(pixels[..], textureWidth, x, y, PixelAt(header, buffer, x, y).value)
      ensures forall k | 0 <= k < pixels.Length && !InRect(textureWidth, k, Min(header.width, windowWidth), Min(header.height, windowHeight)) ::
        pixels[k] == old(pixels[k])
    {
      var hdr := header;
      var width, height := hdr.width, hdr.height;
      ghost var w, h := Min(header.width, windowWidth), Min(header.height, windowHeight);
      var xPos: nat := 0;
      var yPos: int := height - 1;
      var i: nat := 0;
      CursorStart(hdr);
      while yPos != -1
        invariant -1 <= yPos < height && xPos < width && (yPos == -1 ==> xPos == 0)
        invariant yPos >= 0 ==> i == Cursor(hdr, xPos, yPos)
        invariant forall x: nat, y: nat | x < w && y < h && VisitedBefore(x, y, xPos, yPos) ::
          PixelAt(hdr, buffer, x, y).Ok? && Painted(pixels[..], textureWidth, x, y, PixelAt(hdr, buffer, x, y).value)
        invariant forall k | 0 <= k < pixels.Length ::
          pixels[k] == old(pixels[k])
          || (InRect(textureWidth, k, w, h) && VisitedBefore(CellX(textureWidth, k), CellY(textureWidth, k), xPos, yPos))
        decreases yPos + 1, width - xPos
      {
        if xPos < windowWidth && yPos < windowHeight {
          var color := ResolveAt(hdr, buffer, i);
          if color.Err? {
            assert !PixelAt(hdr, buffer, xPos, yPos).Ok?;
            return 1;
          }
          CellInSink(pixels.Length, textureWidth, w, h, xPos, yPos);
          ghost var before := pixels[..];
          DrawPointAt(pixels, textureWidth, xPos, yPos, color.value);
          DrawEffect(before, pixels[..], textureWidth, xPos, yPos, color.value);
        }
        if xPos == width - 1 {
          CursorNextRow(hdr, yPos);
          i := i + RowSkip(hdr.bitsPerPixel, width);
          xPos := 0;
          yPos := yPos - 1;
        } else {
          CursorNextPixel(hdr, xPos, yPos);
          xPos := xPos + 1;
        }
        i := i + Step(hdr.bitsPerPixel);
      }
      return 0;
    }

    /** Refuses an image that was never opened, then dispatches on the colour depth. */
    method Render(pixels: array<uint8>, windowWidth: nat, windowHeight: nat, textureWidth: nat)
      returns (status: int)
      requires Valid()
      requires SinkFits(pixels.Length, textureWidth, Min(header.width, windowWidth), Min(header.height, windowHeight))
      modifies pixels
      ensures status == 0 || status == 1
      ensures status == 0 <==>
        isInitialized && AllVisibleDecode(header, buffer, Min(header.width, windowWidth), Min(header.height, windowHeight))
      ensures status == 0 ==>
        forall x: nat, y: nat | x < Min(header.width, windowWidth) && y < Min(header.height, windowHeight) ::
          Painted(pixels[..], textureWidth, x, y, PixelAt(header, buffer, x, y).value)
      ensures forall k | 0 <= k < pixels.Length && !InRect(textureWidth, k, Min(header.width, windowWidth), Min(header.height, windowHeight)) ::
        pixels[k] == old(pixels[k])
    {
      if !isInitialized {
        return 1;
      }
      BufferAccepted(buffer);
      match header.bitsPerPixel
      case 1 | 4 | 8 | 16 | 24 | 32 =>
        status := RenderPixelRows(pixels, windowWidth, windowHeight, textureWidth);
      case _ =>
        assert false;
    }
  }
}
