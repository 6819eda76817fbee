/**
 * The PNM decoder object: `open` checks the magic number and the size, keeps
 * the file and reads the header with a cursor over it; `render` walks the
 * pixel data, byte by byte for the ASCII variants and pixel by pixel for the
 * binary ones, and draws every pixel inside the viewport into the texture.
 */
module PnmDecoder {
  import opened Bytes
  import opened Outcome
  import opened Gfx
  import opened PnmFormat

  /**
   * The function-static variables of the ASCII pixmap walker: which colour
   * component the next sample is, and the red, green and blue samples so far.
   * They live as long as the program, across images and calls.
   */
  class PixmapStatics {
    var index: nat
    var red: uint16
    var green: uint16
    var blue: uint16

    function Components(): Components
      reads this
    {
      PnmFormat.Components(index, red, green, blue)
    }

    /** Static storage starts out zero. */
    constructor ()
      ensures Components() == NO_COMPONENTS
    {
      index, red, green, blue := 0, 0, 0, 0;
    }
  }

  class PnmImage {
    var isInitialized: bool
    var buffer: seq<uint8>
    /** The header members of the decoder, kept together as one record. */
    var header: PnmHeader

    /** A freshly constructed image, before `open`: nothing read, every header field zero. */
    predicate Pristine()
      reads this
    {
      !isInitialized && buffer == [] && header == EMPTY_HEADER
    }

    /** Once initialised, the header is what the stored file says. */
    ghost predicate Valid()
      reads this
    {
      isInitialized ==> ParsePnm(buffer) == Ok(header)
    }

    constructor ()
      ensures Pristine() && Valid()
    {
      isInitialized := false;
      buffer := [];
      header := EMPTY_HEADER;
    }

    /** Checks the magic number and the file size, keeps the file, then reads the header. */
    method Open(file: seq<uint8>) returns (status: int)
      requires Pristine()
      modifies this
      ensures Valid()
      ensures status == 0 <==> ParsePnm(file).Ok?
      ensures status == 0 ==> isInitialized && header == ParsePnm(file).value && buffer == file
      ensures status != 0 ==> status == 1 && !isInitialized
    {
      // The two magic bytes go into a zero-initialised array, so a short file reads as zeros.
      var b0, b1 := ByteOr0(file, 0), ByteOr0(file, 1);
      if b0 != 'P' as int || b1 < '1' as int || b1 > '6' as int {
        return 1;
      }
      var t := TypeOfDigit(b1);
      if |file| >= TWO_32 {
        return 1;
      }
      buffer := file;
      var r := FetchImageSize(file, t);
      if r.Err? {
        return 1;
      }
      header := r.value;
      isInitialized := true;
      return 0;
    }

    /** `skipWhitespace`: moves the cursor over whitespace while it is inside the file. */
    static method SkipWhitespace(buf: seq<uint8>, off: nat) returns (r: nat)
      ensures r == SkipSpace(buf, off)
    {
      r := off;
      while r < |buf| && IsSpace(buf[r])
        invariant off <= r && SkipSpace(buf, r) == SkipSpace(buf, off)
        decreases |buf| - r
      {
        r := r + 1;
      }
    }

    /**
     * `skipComments`: while the byte at the cursor is '#', moves past the next
     * newline. The test reads the byte without a bounds check; at the end of
     * the file that read fails here.
     */
    static method SkipCommentLines(buf: seq<uint8>, off: nat) returns (r: Result<nat, PnmError>)
      ensures r == SkipComments(buf, off)
    {
      var cursor := off;
      while true
        invariant SkipComments(buf, cursor) == SkipComments(buf, off)
        decreases |buf| + 1 - cursor
      {
        if cursor >= |buf| {
          return Err(ReadPastEnd);
        }
        if buf[cursor] != '#' as int {
          return Ok(cursor);
        }
        ghost var start := cursor;
        while cursor < |buf| && buf[cursor] != '\n' as int
          invariant start <= cursor <= |buf| && LineEnd(buf, cursor) == LineEnd(buf, start)
          decreases |buf| - cursor
        {
          cursor := cursor + 1;
        }
        cursor := cursor + 1;
      }
    }

    /**
     * `getInt`: gathers the bytes up to the next whitespace and extracts an
     * unsigned number from them. With nothing gathered the extraction assigns
     * nothing and the result variable stays uninitialised: `None` here.
     */
    static method GetInt(buf: seq<uint8>, off: nat) returns (value: Option<uint32>, end: nat)
      ensures end == TokenEnd(buf, off)
      ensures value.None? <==> end == off
      ensures value.Some? ==> value.value == ReadUnsigned(buf, off)
    {
      var gathered: seq<uint8> := [];
      end := off;
      while end < |buf| && !IsSpace(buf[end])
        invariant off <= end && TokenEnd(buf, end) == TokenEnd(buf, off)
        invariant gathered == if off >= |buf| then [] else buf[off..end]
        decreases |buf| - end
      {
        gathered := gathered + [buf[end]];
        end := end + 1;
      }
      if gathered == [] {
        return None, end;
      }
      value := Some(ExtractUnsigned(gathered, MAX_UINT32));
      TokenReads(buf, off);
    }

    /**
     * `fetchImageSize`: width and height, each after whitespace and comment
     * lines, and for graymaps and pixmaps the maximum value after comment
     * lines and one skipped byte; a zero in any of them fails.
     */
    static method FetchImageSize(buf: seq<uint8>, t: PnmType) returns (r: Result<PnmHeader, PnmError>)
      ensures r == ParseHeader(buf, t)
    {
      var off := SkipWhitespace(buf, MAGIC_LENGTH);
      var start := SkipCommentLines(buf, off);
      if start.Err? {
        return Err(start.error);
      }
      var width, widthEnd := GetInt(buf, start.value);
      if width.None? {
        return Err(EmptyToken);
      }
      assert NextField(buf, off) == Ok(Field(width.value, widthEnd));
      if width.value == 0 {
        return Err(ZeroWidth);
      }
      r := FetchHeight(buf, t, Field(width.value, widthEnd));
    }

    /** The rest of `fetchImageSize` once a nonzero width was read. */
    static method FetchHeight(buf: seq<uint8>, t: PnmType, width: Field) returns (r: Result<PnmHeader, PnmError>)
      requires width.value >= 1
      ensures r == ParseHeight(buf, t, width)
    {
      var off := SkipWhitespace(buf, width.end);
      var start := SkipCommentLines(buf, off);
      if start.Err? {
        return Err(start.error);
      }
      var height, heightEnd := GetInt(buf, start.value);
      if height.None? {
        return Err(EmptyToken);
      }
      assert NextField(buf, off) == Ok(Field(height.value, heightEnd));
      if height.value == 0 {
        return Err(ZeroHeight);
      }
      if !HasMaxVal(t) {
        return Ok(PnmHeader(t, width.value, height.value, 0, heightEnd));
      }
      r := FetchMaxVal(buf, t, width, Field(height.value, heightEnd));
    }

    /** The maximum value of a graymap or pixmap: comment lines, one skipped byte, the number, one more skipped byte. */
    static method FetchMaxVal(buf: seq<uint8>, t: PnmType, width: Field, height: Field)
      returns (r: Result<PnmHeader, PnmError>)
      requires width.value >= 1 && height.value >= 1
      ensures r == ParseMaxVal(buf, t, width, height)
    {
      var start := SkipCommentLines(buf, height.end);
      if start.Err? {
        return Err(start.error);
      }
      var maxVal, maxValEnd := GetInt(buf, start.value + 1);
      if maxVal.None? {
        return Err(EmptyToken);
      }
      // The maximum value member is 16 bits wide.
      var stored: uint16 := maxVal.value % 0x1_0000;
      assert MaxValField(buf, height.end) == Ok(Field(stored, maxValEnd));
      assert ParseMaxVal(buf, t, width, height) ==
        if stored == 0 then Err(ZeroMaxVal) else Ok(PnmHeader(t, width.value, height.value, stored, maxValEnd + 1));
      if stored == 0 {
        return Err(ZeroMaxVal);
      }
      return Ok(PnmHeader(t, width.value, height.value, stored, maxValEnd + 1));
    }

    /**
     * What one byte of an ASCII image does: a bitmap pixel, a sample byte
     * gathered, or a whitespace that ends a sample, with a gray pixel or the
     * next colour component and a pixel after the third.
     */
    static method AsciiStep(pixels: array<uint8>, hdr: PnmHeader, vw: nat, vh: nat, w: Walk,
                            statics: PixmapStatics, c: uint8)
      returns (next: Walk, done: bool)
      requires WellFormed(hdr) && IsAscii(hdr.pnmType) && w.x < hdr.width && w.y < hdr.height
      requires SinkFits(pixels.Length, hdr.width, Min(hdr.width, vw), Min(hdr.height, vh))
      modifies pixels, statics
      ensures var e := AsciiByte(hdr, vw, vh, w, old(statics.Components()), c);
        && next == e.walk && done == e.done && statics.Components() == e.components
        && pixels[..] == Paint(old(pixels[..]), hdr.width, e.drawn)
    {
      var visible := w.x < vw && w.y < vh;
      ghost var s := pixels[..];
      var color: RGBA;
      var drawn := false;
      if hdr.pnmType.PbmAscii? {
        if visible && !IsSpace(c) {
          var v: uint8 := if c != '0' as int then 0 else 255;
          color, drawn := Gray(v), true;
          next, done := Advance(hdr, w, w.pending).0, Advance(hdr, w, w.pending).1;
        } else {
          next, done := w, false;
        }
      } else if !IsSpace(c) {
        next, done := w.(pending := w.pending + [c]), false;
      } else {
        if hdr.pnmType.PgmAscii? {
          var sample: uint16 := 0;
          sample := ExtractInto(w.pending, sample);
          if visible {
            color, drawn := Gray(ScaleToByte(sample, hdr.maxVal)), true;
          }
          next, done := Advance(hdr, w, []).0, Advance(hdr, w, []).1;
        } else {
          if statics.index == 0 {
            statics.red := ExtractInto(w.pending, statics.red);
          } else if statics.index == 1 {
            statics.green := ExtractInto(w.pending, statics.green);
          } else if statics.index == 2 {
            statics.blue := ExtractInto(w.pending, statics.blue);
          }
          if statics.index == 2 && visible {
            color := Opaque(ScaleToByte(statics.red, hdr.maxVal), ScaleToByte(statics.green, hdr.maxVal),
                            ScaleToByte(statics.blue, hdr.maxVal));
            drawn := true;
          }
          if statics.index >= 2 {
            statics.index := 0;
            next, done := Advance(hdr, w, []).0, Advance(hdr, w, []).1;
          } else {
            statics.index := statics.index + 1;
            next, done := w.(pending := []), false;
          }
        }
      }
      if drawn {
        CellInSink(pixels.Length, hdr.width, Min(hdr.width, vw), Min(hdr.height, vh), w.x, w.y);
        DrawPointAt(pixels, hdr.width, w.x, w.y, color);
        PaintSingle(s, hdr.width, Draw(w.x, w.y, color));
      }
    }

    /**
     * A comment inside the pixel data: moves to the next newline and past it.
     * The search has no bounds check, so a comment without a newline reads
     * past the file, which fails here.
     */
    static method SkipComment(buf: seq<uint8>, off: nat) returns (ended: bool, next: nat)
      requires off < |buf|
      ensures ended <==> LineEnd(buf, off) < |buf|
      ensures ended ==> next == LineEnd(buf, off) + 1
    {
      next := off;
      while buf[next] != '\n' as int
        invariant off <= next < |buf| && LineEnd(buf, next) == LineEnd(buf, off)
        decreases |buf| - next
      {
        next := next + 1;
        if next >= |buf| {
          return false, next;
        }
      }
      return true, next + 1;
    }

    /**
     * `_renderAsciiImage`: the walk from the end of the header to the end of
     * the file or of the last row. A comment whose newline is missing reads
     * past the file, which fails here.
     */
    static method RenderAscii(pixels: array<uint8>, hdr: PnmHeader, buf: seq<uint8>, vw: nat, vh: nat,
                              statics: PixmapStatics)
      returns (status: int)
      requires WellFormed(hdr) && IsAscii(hdr.pnmType)
      requires SinkFits(pixels.Length, hdr.width, Min(hdr.width, vw), Min(hdr.height, vh))
      modifies pixels, statics
      ensures var r := AsciiRun(hdr, buf, vw, vh, hdr.headerEnd, WALK_START, old(statics.Components()));
        && (status == 0 || status == 1) && (status == 0 <==> r.finished)
        && statics.Components() == r.components
        && pixels[..] == Paint(old(pixels[..]), hdr.width, r.draws)
    {
      ghost var target := AsciiRun(hdr, buf, vw, vh, hdr.headerEnd, WALK_START, statics.Components());
      ghost var drawn: seq<Draw> := [];
      var offset := hdr.headerEnd;
      var walk := WALK_START;
      while offset < |buf|
        invariant walk.x < hdr.width && walk.y < hdr.height
        invariant Then(drawn, AsciiRun(hdr, buf, vw, vh, offset, walk, statics.Components())) == target
        invariant pixels[..] == Paint(old(pixels[..]), hdr.width, drawn)
        decreases |buf| - offset
      {
        if buf[offset] == '#' as int {
          var ended;
          ended, offset := SkipComment(buf, offset);
          if !ended {
            assert drawn + [] == drawn;
            return 1;
          }
          continue;
        }
        ghost var comps := statics.Components();
        ghost var e := AsciiByte(hdr, vw, vh, walk, comps, buf[offset]);
        AsciiRunByte(hdr, buf, vw, vh, offset, walk, comps);
        var next, done := AsciiStep(pixels, hdr, vw, vh, walk, statics, buf[offset]);
        assert statics.Components() == e.components;
        PaintAppend(old(pixels[..]), hdr.width, drawn, e.drawn);
        if done {
          return 0;
        }
        ThenThen(drawn, e.drawn, AsciiRun(hdr, buf, vw, vh, offset + 1, e.walk, e.components));
        drawn := drawn + e.drawn;
        walk := next;
        offset := offset + 1;
      }
      assert drawn + [] == drawn;
      return 0;
    }

    /**
     * `_renderBinaryImage`: one pixel after the other from the end of the
     * header while its first byte is in the file, x wrapping at the image
     * width, until the last row is done. Pixels outside the viewport are
     * read but not drawn.
     */
    static method RenderBinary(pixels: array<uint8>, hdr: PnmHeader, buf: seq<uint8>, vw: nat, vh: nat)
      returns (status: int)
      requires WellFormed(hdr) && !IsAscii(hdr.pnmType)
      requires SinkFits(pixels.Length, hdr.width, Min(hdr.width, vw), Min(hdr.height, vh))
      modifies pixels
      ensures status == 0 || status == 1
      ensures status == 0 <==> BinaryDecodes(hdr, buf)
      ensures status == 0 ==>
        forall x: nat, y: nat | x < Min(hdr.width, vw) && y < Min(hdr.height, vh)
          && Reaches(hdr, buf, PixelIndex(hdr.width, x, y)) ::
          Painted(pixels[..], hdr.width, x, y, BinarySample(hdr, buf, Cursor(hdr, PixelIndex(hdr.width, x, y))).value)
      ensures forall k | 0 <= k < pixels.Length && !InRect(hdr.width, k, Min(hdr.width, vw), Min(hdr.height, vh)) ::
        pixels[k] == old(pixels[k])
    {
      var width, height := hdr.width, hdr.height;
      ghost var cw, ch := Min(width, vw), Min(height, vh);
      var units := Units(hdr);
      var xPos: nat, yPos: nat := 0, 0;
      var cursor := 0;
      while SampleByte(hdr, cursor) < |buf|
        invariant xPos < width && yPos < height
        invariant cursor == Cursor(hdr, PixelIndex(width, xPos, yPos))
        invariant ShownBefore(hdr, buf, pixels[..], vw, vh, xPos, yPos)
        invariant forall k | 0 <= k < pixels.Length ::
          pixels[k] == old(pixels[k])
          || (InRect(width, k, cw, ch) && ScannedBefore(CellX(width, k), CellY(width, k), xPos, yPos))
        decreases height - yPos, width - xPos
      {
        var sample := BinarySample(hdr, buf, cursor);
        if sample.Err? {
          assert !PixelShown(hdr, buf, pixels[..], vw, vh, xPos, yPos);
          return 1;
        }
        if xPos < vw && yPos < vh {
          CellInSink(pixels.Length, width, cw, ch, xPos, yPos);
          ghost var before := pixels[..];
          DrawPointAt(pixels, width, xPos, yPos, sample.value);
          DrawEffect(before, pixels[..], width, xPos, yPos, sample.value);
          forall x: nat, y: nat | x < width && y < height && ScannedBefore(x, y, xPos, yPos)
            ensures PixelShown(hdr, buf, pixels[..], vw, vh, x, y)
          {
            assert PixelShown(hdr, buf, before, vw, vh, x, y);
          }
        }
        assert PixelShown(hdr, buf, pixels[..], vw, vh, xPos, yPos);
        ShownNext(hdr, buf, pixels[..], vw, vh, xPos, yPos);
        CursorNext(hdr, PixelIndex(width, xPos, yPos));
        cursor := cursor + units;
        xPos := xPos + 1;
        if xPos >= width {
          assert Mul(yPos + 1, width) == width + Mul(yPos, width);
          xPos := 0;
          yPos := yPos + 1;
          if yPos >= height {
            ShownAll(hdr, buf, pixels[..], vw, vh, xPos, yPos);
            return 0;
          }
        }
      }
      ShownAll(hdr, buf, pixels[..], vw, vh, xPos, yPos);
      return 0;
    }

    /**
     * Refuses an image that was not opened, then walks the pixel data with
     * the walker of its variant; the texture is as wide as the image.
     */
    method Render(pixels: array<uint8>, vw: nat, vh: nat, statics: PixmapStatics) returns (status: int)
      requires Valid()
      requires isInitialized ==> SinkFits(pixels.Length, header.width, Min(header.width, vw), Min(header.height, vh))
      modifies pixels, statics
      ensures status == 0 || status == 1
      ensures !isInitialized ==> status == 1 && pixels[..] == old(pixels[..])
      ensures isInitialized && IsAscii(header.pnmType) ==>
        var r := AsciiRun(header, buffer, vw, vh, header.headerEnd, WALK_START, old(statics.Components()));
        && (status == 0 <==> r.finished)
        && statics.Components() == r.components
        && (forall i | 0 <= i < |r.draws| ::
              && r.draws[i].x < Min(header.width, vw) && r.draws[i].y < Min(header.height, vh)
              && Painted(pixels[..], header.width, r.draws[i].x, r.draws[i].y, r.draws[i].color))
      ensures isInitialized && !IsAscii(header.pnmType) ==>
        && (status == 0 <==> BinaryDecodes(header, buffer))
        && statics.Components() == old(statics.Components())
        && (status == 0 ==>
              forall x: nat, y: nat | x < Min(header.width, vw) && y < Min(header.height, vh)
                && Reaches(header, buffer, PixelIndex(header.width, x, y)) ::
                Painted(pixels[..], header.width, x, y,
                        BinarySample(header, buffer, Cursor(header, PixelIndex(header.width, x, y))).value))
      ensures isInitialized ==>
        forall k | 0 <= k < pixels.Length && !InRect(header.width, k, Min(header.width, vw), Min(header.height, vh)) ::
          pixels[k] == old(pixels[k])
    {
      if !isInitialized {
        return 1;
      }
      if IsAscii(header.pnmType) {
        ghost var comps := statics.Components();
        ghost var s := pixels[..];
        status := RenderAscii(pixels, header, buffer, vw, vh, statics);
        AsciiDrawsOrdered(header, buffer, vw, vh, header.headerEnd, WALK_START, comps);
        ghost var r := AsciiRun(header, buffer, vw, vh, header.headerEnd, WALK_START, comps);
        PaintShowsDraws(s, header.width, Min(header.width, vw), Min(header.height, vh), r.draws);
      } else {
        status := RenderBinary(pixels, header, buffer, vw, vh);
      }
    }
  }

  /** Pixel (x, y) of a binary image is reached, decodes, and is drawn when it is inside the viewport. */
  ghost predicate PixelShown(hdr: PnmHeader, buf: seq<uint8>, s: seq<uint8>, vw: nat, vh: nat, x: nat, y: nat)
    requires WellFormed(hdr)
  {
    var k := PixelIndex(hdr.width, x, y);
    && Reaches(hdr, buf, k)
    && BinarySample(hdr, buf, Cursor(hdr, k)).Ok?
    && (x < vw && y < vh ==> Painted(s, hdr.width, x, y, BinarySample(hdr, buf, Cursor(hdr, k)).value))
  }

  /** Every pixel of the image before (xPos, yPos) in scan order is shown. */
  ghost predicate ShownBefore(hdr: PnmHeader, buf: seq<uint8>, s: seq<uint8>, vw: nat, vh: nat, xPos: nat, yPos: nat)
    requires WellFormed(hdr)
  {
    forall x: nat, y: nat | x < hdr.width && y < hdr.height && ScannedBefore(x, y, xPos, yPos) ::
      PixelShown(hdr, buf, s, vw, vh, x, y)
  }

  /** Showing the pixel at the position moves the shown prefix one pixel on, to the next row after the last column. */
  lemma ShownNext(hdr: PnmHeader, buf: seq<uint8>, s: seq<uint8>, vw: nat, vh: nat, xPos: nat, yPos: nat)
    requires WellFormed(hdr) && xPos < hdr.width
    requires ShownBefore(hdr, buf, s, vw, vh, xPos, yPos) && PixelShown(hdr, buf, s, vw, vh, xPos, yPos)
    ensures xPos + 1 < hdr.width ==> ShownBefore(hdr, buf, s, vw, vh, xPos + 1, yPos)
    ensures xPos + 1 >= hdr.width ==> ShownBefore(hdr, buf, s, vw, vh, 0, yPos + 1)
  {
  }

  /**
   * A walk that has passed the last row, or stopped at a pixel whose first
   * byte is past the file, has shown every pixel the file reaches: they all
   * decode, and those inside the viewport are drawn.
   */
  lemma ShownAll(hdr: PnmHeader, buf: seq<uint8>, s: seq<uint8>, vw: nat, vh: nat, xPos: nat, yPos: nat)
    requires WellFormed(hdr) && xPos < hdr.width && ShownBefore(hdr, buf, s, vw, vh, xPos, yPos)
    requires yPos >= hdr.height || !Reaches(hdr, buf, PixelIndex(hdr.width, xPos, yPos))
    ensures BinaryDecodes(hdr, buf)
    ensures forall x: nat, y: nat | x < Min(hdr.width, vw) && y < Min(hdr.height, vh)
      && Reaches(hdr, buf, PixelIndex(hdr.width, x, y)) ::
      Painted(s, hdr.width, x, y, BinarySample(hdr, buf, Cursor(hdr, PixelIndex(hdr.width, x, y))).value)
  {
    forall x: nat, y: nat | x < hdr.width && y < hdr.height && Reaches(hdr, buf, PixelIndex(hdr.width, x, y))
      ensures PixelShown(hdr, buf, s, vw, vh, x, y)
    {
      if yPos < hdr.height {
        IndexOrder(hdr.width, x, y, xPos, yPos);
        if !ScannedBefore(x, y, xPos, yPos) {
          ReachOrdered(hdr, buf, PixelIndex(hdr.width, xPos, yPos), PixelIndex(hdr.width, x, y));
        }
      }
    }
  }
}
