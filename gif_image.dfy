/**
 * The GIF image object: `Open` checks a loaded file and records its screen
 * descriptor and first frame, `Render` feeds that frame's sub-blocks to the
 * LZW decoder and paints the decoded indices through the global colour table.
 */
module GifDecoder {
  import opened Bytes
  import opened Outcome
  import opened Gfx
  import opened GifFormat
  import opened Lzw

  const EMPTY_SCREEN := LogicalScreen(0, 0, false, 0, 0, 0, 0)
  const EMPTY_GIF := GifHeader(Invalid, EMPTY_SCREEN, [])

  class GifImage {
    var isInitialized: bool
    var buffer: seq<uint8>
    /** The version, the logical screen and the frames, kept together as one record. */
    var header: GifHeader

    predicate Pristine()
      reads this
    {
      !isInitialized && buffer == [] && header == EMPTY_GIF
    }

    ghost predicate Valid()
      reads this
    {
      isInitialized ==> |buffer| < TWO_32 && ParseGif(buffer) == Opened(header) && |header.frames| <= 1
    }

    constructor ()
      ensures Pristine() && Valid()
    {
      isInitialized := false;
      buffer := [];
      header := EMPTY_GIF;
    }

    /**
     * Opens a loaded file. A file whose first block byte is neither ',' nor
     * ';' makes the original scan forever; such files are not passed here.
     */
    method Open(file: seq<uint8>) returns (status: int)
      requires Pristine()
      requires ParseGif(file) != Diverges
      modifies this
      ensures Valid()
      ensures status == 0 <==> ParseGif(file).Opened?
      ensures status == 0 ==> isInitialized && buffer == file && header == ParseGif(file).header
      ensures status != 0 ==> status == 1 && !isInitialized
    {
      if !IsChar(ByteOr0(file, 0), 'G') || !IsChar(ByteOr0(file, 1), 'I') || !IsChar(ByteOr0(file, 2), 'F') {
        return 1;
      }
      var version := StrToGifVersion(ByteOr0(file, 3), ByteOr0(file, 4), ByteOr0(file, 5));
      if version == Invalid {
        return 1;
      }
      if |file| > 0xFFFF_FFFF {
        return 1;
      }
      buffer := file;
      if !IsChar(buffer[|buffer| - 1], ';') {
        return 1;
      }
      var st, screen := FetchLogicalScreenDescriptor();
      if st != 0 {
        return 1;
      }
      // The scan loop leaves through ';', through ',' (which falls through
      // into ';') or at the end of the file; any other byte would repeat it
      // forever without moving the offset.
      var frames: seq<ImageFrame> := [];
      var offset: nat := SCREEN_DESCRIPTOR_END + (if screen.hasGlobalColorTable then screen.globalColorTableSizeInBytes else 0);
      if offset < |buffer| {
        if IsChar(buffer[offset], ',') {
          var frame;
          st, frame := FetchImageDescriptor(offset);
          if st != 0 {
            return 1;
          }
          frames := frames + [frame];
          offset := offset + 10;
          if |frames| > 0 && frames[|frames| - 1].descriptor.hasLocalColorTable {
            offset := offset + frames[|frames| - 1].descriptor.localColorTableSizeInBytes;
          }
          offset := offset + 1;
          offset := SkipDataSubBlocks(offset);
        } else if !IsChar(buffer[offset], ';') {
          assert false;
        }
      }
      header := GifHeader(version, screen, frames);
      isInitialized := true;
      return 0;
    }

    /** Reads the logical screen descriptor of the loaded file. */
    method FetchLogicalScreenDescriptor() returns (status: int, screen: LogicalScreen)
      ensures status == 0 || status == 1
      ensures status == 0 <==> LogicalScreenOf(buffer).Ok?
      ensures status == 0 ==> screen == LogicalScreenOf(buffer).value
    {
      screen := EMPTY_SCREEN;
      if |buffer| < SCREEN_DESCRIPTOR_END {
        return 1, screen;
      }
      var width := Le16(buffer, 6);
      var height := Le16(buffer, 8);
      var flags := buffer[10];
      var hasTable := TableFlag(flags);
      var resolution := ColorResolution(flags);
      var colors, bytes := 0, 0;
      if hasTable {
        colors := TableColors(flags);
        bytes := colors * 3;
      }
      var bgColorIndex := 0;
      if hasTable {
        bgColorIndex := buffer[11];
      }
      TableColorsRange(flags);
      screen := LogicalScreen(width, height, hasTable, resolution, colors, bytes, bgColorIndex);
      return 0, screen;
    }

    /** Reads the image descriptor whose ',' byte is at `startOffset`. */
    method FetchImageDescriptor(startOffset: nat) returns (status: int, frame: ImageFrame)
      ensures status == 0 || status == 1
      ensures status == 0 <==> ImageFrameAt(buffer, startOffset).Ok?
      ensures status == 0 ==> frame == ImageFrameAt(buffer, startOffset).value
    {
      frame := ImageFrame(startOffset, ImageDescriptor(0, 0, 0, 0, false, false, 0, 0));
      if |buffer| < startOffset + 10 {
        return 1, frame;
      }
      var flags := buffer[startOffset + 8];
      var hasTable := TableFlag(flags);
      var colors, bytes := 0, 0;
      if hasTable {
        colors := TableColors(flags);
        bytes := colors * 3;
      }
      TableColorsRange(flags);
      frame := ImageFrame(startOffset, ImageDescriptor(Le16(buffer, startOffset), Le16(buffer, startOffset + 2),
        Le16(buffer, startOffset + 4), Le16(buffer, startOffset + 6), hasTable, InterlaceFlag(flags), colors, bytes));
      return 0, frame;
    }

    /** Skips data sub-blocks from `offset` to just past their terminator, or to the end of the file. */
    method SkipDataSubBlocks(offset: nat) returns (end: nat)
      ensures end == SkipSubBlocks(buffer, offset)
    {
      end := offset;
      while end < |buffer|
        invariant SkipSubBlocks(buffer, end) == SkipSubBlocks(buffer, offset)
        decreases |buffer| - end
      {
        if buffer[end] == 0 {
          end := end + 1;
          return;
        }
        end := end + buffer[end] + 1;
      }
    }

    /** Feeds `count` bytes of `data` from `from` on to `decoder`. */
    static method PushBytes(decoder: LzwDecoder, data: seq<uint8>, from: nat, count: nat)
      requires from + count <= |data|
      modifies decoder
      ensures decoder.inputBuffer == old(decoder.inputBuffer) + data[from..from + count]
      ensures decoder.initialCodeSize == old(decoder.initialCodeSize)
    {
      var i := 0;
      while i < count
        invariant i <= count && decoder.initialCodeSize == old(decoder.initialCodeSize)
        invariant decoder.inputBuffer == old(decoder.inputBuffer) + data[from..from + i]
      {
        decoder.Push(data[from + i]);
        i := i + 1;
      }
    }

    /**
     * Feeds the sub-block payloads from `start + 1` on to a fresh decoder
     * whose code size is the byte at `start`; false where the original reads
     * past the end of the file.
     */
    method FeedDecoder(start: nat) returns (ok: bool, decoder: LzwDecoder)
      requires start < |buffer|
      ensures fresh(decoder)
      ensures ok <==> SubBlockData(buffer, start + 1).Ok?
      ensures ok ==> decoder.initialCodeSize == buffer[start] && decoder.inputBuffer == SubBlockData(buffer, start + 1).value
    {
      var buf := buffer;
      decoder := new LzwDecoder();
      decoder.SetCodeSize(buf[start]);
      var offset := start + 1;
      PrefixedNothing(SubBlockData(buf, offset));
      while offset < |buf|
        invariant fresh(decoder) && decoder.initialCodeSize == buf[start]
        invariant Prefixed(decoder.inputBuffer, SubBlockData(buf, offset)) == SubBlockData(buf, start + 1)
        decreases |buf| - offset
      {
        ghost var here := offset;
        var subBlockSize := buf[offset];
        SubBlockDataStep(buf, offset);
        offset := offset + 1;
        if offset + subBlockSize >= |buf| {
          return false, decoder;
        }
        ghost var before := decoder.inputBuffer;
        PushBytes(decoder, buf, offset, subBlockSize);
        ghost var block := buf[offset..offset + subBlockSize];
        offset := offset + subBlockSize;
        if buf[offset] == 0 {
          assert SubBlockData(buf, here) == Ok(block);
          assert SubBlockData(buf, start + 1) == Ok(before + block);
          return true, decoder;
        }
        PrefixedTwice(before, block, SubBlockData(buf, offset));
      }
      PrefixedNothing(Ok(decoder.inputBuffer));
      return true, decoder;
    }

    /**
     * Paints the decoded indices row by row: x wraps at the frame width and
     * drawing stops once y reaches the screen height or the indices run out.
     * There is no viewport test, so the texture must hold the whole grid.
     */
    static method DrawIndices(pixels: array<uint8>, textureWidth: nat, buf: seq<uint8>, frame: ImageFrame,
                              screen: LogicalScreen, indices: seq<uint8>) returns (status: int)
      requires SinkFits(pixels.Length, textureWidth, Columns(frame), Rows(screen))
      modifies pixels
      ensures status == 0 || status == 1
      ensures status == 0 <==> ColorsResolve(buf, indices, Columns(frame), Rows(screen))
      ensures status == 0 ==>
        forall x: nat, y: nat | x < Columns(frame) && y < Rows(screen)
          && PixelIndex(Columns(frame), x, y) < |indices| ::
          Painted(pixels[..], textureWidth, x, y,
                  GlobalColor(buf, indices[PixelIndex(Columns(frame), x, y)]).value)
      ensures forall k | 0 <= k < pixels.Length && !InRect(textureWidth, k, Columns(frame), Rows(screen)) ::
        pixels[k] == old(pixels[k])
    {
      var width := frame.descriptor.width;
      var height := screen.height;
      ghost var columns, rows := Columns(frame), Rows(screen);
      var xPos: nat, yPos: nat := 0, 0;
      var i := 0;
      while i < |indices|
        invariant xPos < columns && yPos < rows
        invariant i == PixelIndex(columns, xPos, yPos)
        invariant forall x: nat, y: nat | x < columns && y < rows && ScannedBefore(x, y, xPos, yPos) ::
          PixelIndex(columns, x, y) < |indices| && GlobalColor(buf, indices[PixelIndex(columns, x, y)]).Ok?
          && Painted(pixels[..], textureWidth, x, y, GlobalColor(buf, indices[PixelIndex(columns, x, y)]).value)
        invariant forall k | 0 <= k < pixels.Length ::
          pixels[k] == old(pixels[k])
          || (InRect(textureWidth, k, columns, rows) && ScannedBefore(CellX(textureWidth, k), CellY(textureWidth, k), xPos, yPos))
      {
        var colorOffset: nat := SCREEN_DESCRIPTOR_END + indices[i] as int * 3;
        if colorOffset + 2 >= |buf| {
          assert GlobalColor(buf, indices[PixelIndex(columns, xPos, yPos)]).Err?;
          return 1;
        }
        var color := Opaque(buf[colorOffset], buf[colorOffset + 1], buf[colorOffset + 2]);
        CellInSink(pixels.Length, textureWidth, columns, rows, xPos, yPos);
        ghost var before := pixels[..];
        DrawPointAt(pixels, textureWidth, xPos, yPos, color);
        DrawEffect(before, pixels[..], textureWidth, xPos, yPos, color);
        i := i + 1;
        xPos := xPos + 1;
        if xPos >= width {
          assert Mul(yPos + 1, columns) == columns + Mul(yPos, columns);
          xPos := 0;
          yPos := yPos + 1;
          if yPos >= height {
            return 0;
          }
        }
      }
      forall x: nat, y: nat | x < columns && y < rows && PixelIndex(columns, x, y) < |indices|
        ensures ScannedBefore(x, y, xPos, yPos)
      {
        IndexOrder(columns, x, y, xPos, yPos);
      }
      return 0;
    }

    /**
     * Renders the first frame from `codes`, the codes its data holds. The
     * original indexes the first frame unchecked; an opened file without a
     * frame fails here.
     */
    method Render(pixels: array<uint8>, windowWidth: nat, windowHeight: nat, textureWidth: nat, codes: seq<uint16>)
      returns (status: int)
      requires Valid()
      requires isInitialized && |header.frames| >= 1 ==>
        SinkFits(pixels.Length, textureWidth, Columns(header.frames[0]), Rows(header.screen))
      modifies pixels
      ensures status == 0 || status == 1
      ensures status == 0 <==>
        && isInitialized && |header.frames| >= 1 && Decoded(buffer, header.frames[0], codes).Ok?
        && ColorsResolve(buffer, Decoded(buffer, header.frames[0], codes).value,
                         Columns(header.frames[0]), Rows(header.screen))
      ensures status == 0 ==>
        var indices := Decoded(buffer, header.frames[0], codes).value;
        forall x: nat, y: nat | x < Columns(header.frames[0]) && y < Rows(header.screen)
          && PixelIndex(Columns(header.frames[0]), x, y) < |indices| ::
          Painted(pixels[..], textureWidth, x, y,
                  GlobalColor(buffer, indices[PixelIndex(Columns(header.frames[0]), x, y)]).value)
      ensures !isInitialized || |header.frames| == 0 ==> pixels[..] == old(pixels[..])
      ensures isInitialized && |header.frames| >= 1 ==>
        forall k | 0 <= k < pixels.Length && !InRect(textureWidth, k, Columns(header.frames[0]), Rows(header.screen)) ::
          pixels[k] == old(pixels[k])
    {
      if !isInitialized {
        return 1;
      }
      if |header.frames| == 0 {
        return 1;
      }
      var frames := header.frames;
      var offset := frames[0].startOffset + 10;
      if |frames| > 0 && frames[|frames| - 1].descriptor.hasLocalColorTable {
        offset := offset + frames[|frames| - 1].descriptor.localColorTableSizeInBytes;
      }
      assert offset == DataStart(frames[0]);
      if offset >= |buffer| {
        return 1;
      }
      var ok, decoder := FeedDecoder(offset);
      if !ok {
        return 1;
      }
      var decompressed := decoder.GetDecompressedData(codes);
      if decompressed.Err? {
        return 1;
      }
      assert Decoded(buffer, frames[0], codes) == Ok(decompressed.value);
      status := DrawIndices(pixels, textureWidth, buffer, frames[0], header.screen, decompressed.value);
    }
  }
}
