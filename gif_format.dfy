/**
 * The GIF container as the viewer reads it: the header and version, the
 * logical screen descriptor, the scan for the first image descriptor, the
 * data sub-blocks and the global colour table lookup. Offsets are those of
 * the GIF89a layout except where the viewer departs from it.
 */
module GifFormat {
  import opened Bytes
  import opened Outcome
  import opened Gfx
  import Lzw

  const SCREEN_DESCRIPTOR_END: nat := 13

  datatype GifVersion = Invalid | V87a | V89a | Unknown

  predicate IsChar(b: int, c: char) { b == c as int }

  /**
   * The three version characters after "GIF": digit, digit, letter is a
   * version, "87a" and "89a" are the known ones and any other such string is
   * a newer one.
   */
  function StrToGifVersion(a: uint8, b: uint8, c: uint8): GifVersion
  {
    if !IsDigit(a) || !IsDigit(b) || !IsAlpha(c) then Invalid
    else if IsChar(a, '8') && IsChar(b, '7') && IsChar(c, 'a') then V87a
    else if IsChar(a, '8') && IsChar(b, '9') && IsChar(c, 'a') then V89a
    else Unknown
  }

  lemma VersionClassification(a: uint8, b: uint8, c: uint8)
    ensures StrToGifVersion(a, b, c) != Invalid <==> IsDigit(a) && IsDigit(b) && IsAlpha(c)
    ensures StrToGifVersion(a, b, c) == V87a <==> [a, b, c] == ['8' as int, '7' as int, 'a' as int]
    ensures StrToGifVersion(a, b, c) == V89a <==> [a, b, c] == ['8' as int, '9' as int, 'a' as int]
  {
  }

  // Bit fields of the two packed flag bytes.

  /** Bit 7: a colour table follows (global in the screen descriptor, local in an image descriptor). */
  function TableFlag(flags: uint8): bool { flags / 0x80 == 1 }
  /** Bits 4..6 of the screen flags, plus one. */
  function ColorResolution(flags: uint8): nat { (flags / 0x10) % 8 + 1 }
  /** Bit 6 of the image descriptor flags. */
  function InterlaceFlag(flags: uint8): bool { (flags / 0x40) % 2 == 1 }
  /** Bits 0..2 give a table of 2^(n + 1) colours. */
  function TableColors(flags: uint8): nat { Pow2(flags % 8 + 1) }

  /** The screen descriptor's flag byte as an encoder lays it out. */
  function PackScreenFlags(hasTable: bool, resolution: nat, sorted: bool, sizeField: nat): uint8
    requires 1 <= resolution <= 8 && sizeField < 8
  {
    BitValue(hasTable, 0x80) + 0x10 * (resolution - 1) + BitValue(sorted, 8) + sizeField
  }

  /** The image descriptor's flag byte as an encoder lays it out; bits 3 and 4 are reserved. */
  function PackDescriptorFlags(hasTable: bool, interlaced: bool, sorted: bool, reserved: nat, sizeField: nat): uint8
    requires reserved < 4 && sizeField < 8
  {
    BitValue(hasTable, 0x80) + BitValue(interlaced, 0x40) + BitValue(sorted, 0x20) + 8 * reserved + sizeField
  }

  /** The screen flags read back what was packed, whatever the sort flag. */
  lemma ScreenFlagsRoundTrip(hasTable: bool, resolution: nat, sorted: bool, sizeField: nat)
    requires 1 <= resolution <= 8 && sizeField < 8
    ensures var f := PackScreenFlags(hasTable, resolution, sorted, sizeField);
      TableFlag(f) == hasTable && ColorResolution(f) == resolution && TableColors(f) == Pow2(sizeField + 1)
  {
    var f := PackScreenFlags(hasTable, resolution, sorted, sizeField);
    var low := BitValue(sorted, 8) + sizeField;
    DivModUnique(f, 0x80, if hasTable then 1 else 0, 0x10 * (resolution - 1) + low);
    DivModUnique(f, 0x10, BitValue(hasTable, 8) + resolution - 1, low);
    DivModUnique(BitValue(hasTable, 8) + resolution - 1, 8, if hasTable then 1 else 0, resolution - 1);
    DivModUnique(f, 8, BitValue(hasTable, 0x10) + 2 * (resolution - 1) + (if sorted then 1 else 0), sizeField);
  }

  /** The image descriptor flags read back what was packed, whatever the sort and reserved bits. */
  lemma DescriptorFlagsRoundTrip(hasTable: bool, interlaced: bool, sorted: bool, reserved: nat, sizeField: nat)
    requires reserved < 4 && sizeField < 8
    ensures var f := PackDescriptorFlags(hasTable, interlaced, sorted, reserved, sizeField);
      TableFlag(f) == hasTable && InterlaceFlag(f) == interlaced && TableColors(f) == Pow2(sizeField + 1)
  {
    var f := PackDescriptorFlags(hasTable, interlaced, sorted, reserved, sizeField);
    var low := BitValue(sorted, 0x20) + 8 * reserved + sizeField;
    DivModUnique(f, 0x80, if hasTable then 1 else 0, BitValue(interlaced, 0x40) + low);
    DivModUnique(f, 0x40, BitValue(hasTable, 2) + (if interlaced then 1 else 0), low);
    DivModUnique(f, 8, BitValue(hasTable, 0x10) + BitValue(interlaced, 8) + BitValue(sorted, 4) + reserved, sizeField);
  }

  datatype GifError =
    | BadMagic
    | InvalidVersion
    | FileTooLarge
    | NoTrailer
    | NoScreenDescriptor
    | DescriptorOutOfBounds

  /** The logical screen descriptor; without a global table its size and the background index are 0. */
  datatype LogicalScreen = LogicalScreen(width: uint16, height: uint16, hasGlobalColorTable: bool, colorResolution: nat,
                                         globalColorTableSizeInColors: nat, globalColorTableSizeInBytes: nat,
                                         bgColorIndex: uint8)

  /** The seven bytes after the header: sizes at offsets 6 and 8, flags at 10, background index at 11. */
  function LogicalScreenOf(buf: seq<uint8>): (r: Result<LogicalScreen, GifError>)
    ensures r.Ok? <==> |buf| >= SCREEN_DESCRIPTOR_END
    ensures r.Ok? ==> var s := r.value;
      && s.width == Le16(buf, 6) && s.height == Le16(buf, 8)
      && 1 <= s.colorResolution <= 8
      && s.globalColorTableSizeInBytes == 3 * s.globalColorTableSizeInColors
      && (s.hasGlobalColorTable <==> buf[10] >= 0x80)
      && (s.hasGlobalColorTable <==> s.globalColorTableSizeInColors != 0)
      && (s.hasGlobalColorTable ==> 2 <= s.globalColorTableSizeInColors <= 0x100 && s.bgColorIndex == buf[11])
      && (!s.hasGlobalColorTable ==> s.bgColorIndex == 0)
  {
    if |buf| < SCREEN_DESCRIPTOR_END then Err(NoScreenDescriptor)
    else
      var flags := buf[10];
      var has := TableFlag(flags);
      TableColorsRange(flags);
      var colors := if has then TableColors(flags) else 0;
      Ok(LogicalScreen(Le16(buf, 6), Le16(buf, 8), has, ColorResolution(flags), colors, colors * 3,
                       if has then buf[11] else 0))
  }

  lemma TableColorsRange(flags: uint8)
    ensures 2 <= TableColors(flags) <= 0x100
  {
    Pow2Bounds(flags % 8 + 1);
  }

  lemma {:induction false} Pow2Bounds(n: nat)
    requires 1 <= n <= 8
    ensures 2 <= Pow2(n) <= Pow2(8) == 0x100
  {
    if n > 1 {
      Pow2Bounds(n - 1);
    }
    assert Pow2(8) == 0x100;
  }

  datatype ImageDescriptor = ImageDescriptor(left: uint16, top: uint16, width: uint16, height: uint16,
                                             hasLocalColorTable: bool, isInterlaced: bool,
                                             localColorTableSizeInColors: nat, localColorTableSizeInBytes: nat)

  datatype ImageFrame = ImageFrame(startOffset: nat, descriptor: ImageDescriptor)

  /**
   * The image descriptor at `start`, the offset of the ',' byte itself: the
   * four sizes are read from `start`, one byte earlier than the GIF89a layout,
   * and the flags from `start + 8`. Ten bytes must be present.
   */
  function ImageFrameAt(buf: seq<uint8>, start: nat): (r: Result<ImageFrame, GifError>)
    ensures r.Ok? <==> start + 10 <= |buf|
    ensures r.Ok? ==> var d := r.value.descriptor;
      && r.value.startOffset == start
      && d.left == Le16(buf, start) && d.top == Le16(buf, start + 2)
      && d.width == Le16(buf, start + 4) && d.height == Le16(buf, start + 6)
      && (d.hasLocalColorTable <==> buf[start + 8] >= 0x80)
      && (d.isInterlaced <==> buf[start + 8] % 0x80 >= 0x40)
      && d.localColorTableSizeInBytes == 3 * d.localColorTableSizeInColors
      && (d.hasLocalColorTable <==> d.localColorTableSizeInColors != 0)
  {
    if |buf| < start + 10 then Err(DescriptorOutOfBounds)
    else
      var flags := buf[start + 8];
      var has := TableFlag(flags);
      TableColorsRange(flags);
      var colors := if has then TableColors(flags) else 0;
      Ok(ImageFrame(start, ImageDescriptor(Le16(buf, start), Le16(buf, start + 2), Le16(buf, start + 4),
                                           Le16(buf, start + 6), has, InterlaceFlag(flags), colors, 3 * colors)))
  }

  /**
   * Skipping the data sub-blocks at `offset`: a size byte s moves on by s + 1,
   * a zero byte by one and ends the data; the scan also ends at the end of
   * the file.
   */
  function SkipSubBlocks(buf: seq<uint8>, offset: nat): (r: nat)
    ensures r >= offset && (offset < |buf| ==> r > offset)
    ensures r >= |buf| || (r >= 1 && buf[r - 1] == 0)
    decreases |buf| - offset
  {
    if offset >= |buf| then offset
    else if buf[offset] == 0 then offset + 1
    else SkipSubBlocks(buf, offset + buf[offset] + 1)
  }

  /** Where the descriptor's image data begins: after its ten bytes and its local table. */
  function DataStart(frame: ImageFrame): nat
  {
    frame.startOffset + 10
      + (if frame.descriptor.hasLocalColorTable then frame.descriptor.localColorTableSizeInBytes else 0)
  }

  /** The outcome of the block scan: the frames found, a failure, or no progress at all. */
  datatype ScanOutcome = Found(frames: seq<ImageFrame>) | ScanFailed(error: GifError) | Stuck

  /**
   * The scan at `offset`: ',' records a descriptor and then (the cases fall
   * through) ends the scan as ';' does; the end of the file also ends it; any
   * other byte is matched by neither case and the offset never moves.
   */
  function ScanBlocks(buf: seq<uint8>, offset: nat): (r: ScanOutcome)
    ensures r.Found? ==> |r.frames| <= 1
  {
    if offset >= |buf| then Found([])
    else if IsChar(buf[offset], ',') then
      match ImageFrameAt(buf, offset)
      case Err(e) => ScanFailed(e)
      case Ok(frame) => Found([frame])
    else if IsChar(buf[offset], ';') then Found([])
    else Stuck
  }

  datatype GifHeader = GifHeader(version: GifVersion, screen: LogicalScreen, frames: seq<ImageFrame>)

  /** What opening a file leads to; `Diverges` is a run that never returns. */
  datatype OpenOutcome = Opened(header: GifHeader) | Rejected(error: GifError) | Diverges

  /** Offset of the first block after the screen descriptor and the global table. */
  function FirstBlock(s: LogicalScreen): nat
  {
    SCREEN_DESCRIPTOR_END + (if s.hasGlobalColorTable then s.globalColorTableSizeInBytes else 0)
  }

  /**
   * Opening a loaded file: "GIF", a version, a size that fits 32 bits, ';' as
   * the last byte, a screen descriptor, then the block scan. Header bytes a
   * short file does not have read as 0.
   */
  function ParseGif(file: seq<uint8>): OpenOutcome
  {
    if !IsChar(ByteOr0(file, 0), 'G') || !IsChar(ByteOr0(file, 1), 'I') || !IsChar(ByteOr0(file, 2), 'F') then
      Rejected(BadMagic)
    else
      var version := StrToGifVersion(ByteOr0(file, 3), ByteOr0(file, 4), ByteOr0(file, 5));
      if version == Invalid then Rejected(InvalidVersion)
      else if |file| >= TWO_32 then Rejected(FileTooLarge)
      else if !IsChar(file[|file| - 1], ';') then Rejected(NoTrailer)
      else
        match LogicalScreenOf(file)
        case Err(e) => Rejected(e)
        case Ok(screen) =>
          match ScanBlocks(file, FirstBlock(screen))
          case Found(frames) => Opened(GifHeader(version, screen, frames))
          case ScanFailed(e) => Rejected(e)
          case Stuck => Diverges
  }

  /** An opened file starts with "GIF" and a version, ends with ';', holds a screen descriptor, and has at most one frame. */
  lemma OpenedFileShape(file: seq<uint8>)
    requires ParseGif(file).Opened?
    ensures 13 <= |file| < TWO_32
    ensures IsChar(file[0], 'G') && IsChar(file[1], 'I') && IsChar(file[2], 'F') && IsChar(file[|file| - 1], ';')
    ensures var h := ParseGif(file).header;
      && h.version != Invalid
      && h.version == StrToGifVersion(file[3], file[4], file[5])
      && LogicalScreenOf(file) == Ok(h.screen)
      && |h.frames| <= 1
      && (|h.frames| == 1 <==> FirstBlock(h.screen) < |file| && IsChar(file[FirstBlock(h.screen)], ','))
  {
  }

  /** Opening never returns exactly when the first block byte is neither ',' nor ';'. */
  lemma DivergesExactly(file: seq<uint8>)
    ensures ParseGif(file) == Diverges <==>
      && IsChar(ByteOr0(file, 0), 'G') && IsChar(ByteOr0(file, 1), 'I') && IsChar(ByteOr0(file, 2), 'F')
      && StrToGifVersion(ByteOr0(file, 3), ByteOr0(file, 4), ByteOr0(file, 5)) != Invalid
      && 13 <= |file| < TWO_32 && IsChar(file[|file| - 1], ';')
      && var b := FirstBlock(LogicalScreenOf(file).value);
         b < |file| && !IsChar(file[b], ',') && !IsChar(file[b], ';')
  {
  }

  // Data sub-blocks: the encoding and the two ways the viewer reads it.

  /** Well-formed data: each chunk of 1..255 bytes behind its size byte, then a zero terminator. */
  function Blocks(chunks: seq<seq<uint8>>): seq<uint8>
    requires forall i | 0 <= i < |chunks| :: 1 <= |chunks[i]| <= 0xff
  {
    if chunks == [] then [0] else [|chunks[0]|] + chunks[0] + Blocks(chunks[1..])
  }

  function Flatten(chunks: seq<seq<uint8>>): seq<uint8>
  {
    if chunks == [] then [] else chunks[0] + Flatten(chunks[1..])
  }

  /** Where the first chunk of encoded sub-blocks sits in a buffer, and what follows it. */
  lemma FirstBlockLayout(pre: seq<uint8>, chunks: seq<seq<uint8>>, post: seq<uint8>)
    requires forall i | 0 <= i < |chunks| :: 1 <= |chunks[i]| <= 0xff
    requires chunks != []
    ensures var buf, c := pre + Blocks(chunks) + post, chunks[0];
      var next := |pre| + 1 + |c|;
      && next < |buf| && buf[|pre|] == |c| && buf[|pre| + 1..next] == c
      && buf == (pre + [|c|] + c) + Blocks(chunks[1..]) + post
      && (buf[next] == 0 <==> chunks[1..] == [])
  {
    var c, rest := chunks[0], chunks[1..];
    assert Blocks(chunks) == [|c|] + c + Blocks(rest);
    BlocksStart(rest);
    SplicedLayout(pre, |c|, c, Blocks(rest), post);
  }

  /** Encoded sub-blocks start with a zero byte exactly when there is no chunk. */
  lemma BlocksStart(chunks: seq<seq<uint8>>)
    requires forall i | 0 <= i < |chunks| :: 1 <= |chunks[i]| <= 0xff
    ensures |Blocks(chunks)| >= 1 && (Blocks(chunks)[0] == 0 <==> chunks == [])
  {
  }

  /** A size byte, its payload and a non-empty tail spliced between `pre` and `post`. */
  lemma SplicedLayout(pre: seq<uint8>, n: uint8, c: seq<uint8>, tail: seq<uint8>, post: seq<uint8>)
    requires |tail| >= 1
    ensures var buf, next := pre + ([n] + c + tail) + post, |pre| + 1 + |c|;
      && next < |buf| && buf[|pre|] == n && buf[|pre| + 1..next] == c
      && buf == (pre + [n] + c) + tail + post && buf[next] == tail[0]
  {
    var buf, front := pre + ([n] + c + tail) + post, pre + [n] + c;
    assert buf == front + (tail + post);
    assert buf[..|front|] == front;
    assert front[|pre| + 1..] == c;
  }

  /** Skipping well-formed data lands right after its terminator. */
  lemma {:induction false} SkipSubBlocksSkipsBlocks(pre: seq<uint8>, chunks: seq<seq<uint8>>, post: seq<uint8>)
    requires forall i | 0 <= i < |chunks| :: 1 <= |chunks[i]| <= 0xff
    ensures SkipSubBlocks(pre + Blocks(chunks) + post, |pre|) == |pre| + |Blocks(chunks)|
    decreases |chunks|
  {
    var buf := pre + Blocks(chunks) + post;
    if chunks != [] {
      var c, rest := chunks[0], chunks[1..];
      var pre': seq<uint8> := pre + [|c|] + c;
      FirstBlockLayout(pre, chunks, post);
      SkipSubBlocksSkipsBlocks(pre', rest, post);
      assert SkipSubBlocks(buf, |pre|) == SkipSubBlocks(buf, |pre'|);
      assert |Blocks(chunks)| == 1 + |c| + |Blocks(rest)|;
    } else {
      assert buf[|pre|] == 0;
    }
  }

  datatype RenderError = NotInitialized | ReadPastEnd | Undecodable

  /**
   * The bytes the renderer feeds to the decoder from `offset` on: for each
   * sub-block its payload, until the byte after a payload is 0. Unlike the
   * skip in the scan, the test for the terminator comes after each block, and
   * reads past the end of the file fail.
   */
  function SubBlockData(buf: seq<uint8>, offset: nat): (r: Result<seq<uint8>, RenderError>)
    decreases |buf| - offset
  {
    if offset >= |buf| then Ok([])
    else
      var size := buf[offset];
      var next := offset + 1 + size;
      if next >= |buf| then Err(ReadPastEnd)
      else if buf[next] == 0 then Ok(buf[offset + 1..next])
      else Prefixed(buf[offset + 1..next], SubBlockData(buf, next))
  }

  /** `r` with `prefix` in front of its bytes, if it has any. */
  function Prefixed(prefix: seq<uint8>, r: Result<seq<uint8>, RenderError>): Result<seq<uint8>, RenderError>
  {
    match r
    case Ok(rest) => Ok(prefix + rest)
    case Err(e) => Err(e)
  }

  lemma PrefixedTwice(a: seq<uint8>, b: seq<uint8>, r: Result<seq<uint8>, RenderError>)
    ensures Prefixed(a, Prefixed(b, r)) == Prefixed(a + b, r)
  {
    if r.Ok? {
      assert a + (b + r.value) == (a + b) + r.value;
    }
  }

  lemma PrefixedNothing(r: Result<seq<uint8>, RenderError>)
    ensures Prefixed([], r) == r
    ensures r.Ok? ==> Prefixed(r.value, Ok([])) == r
  {
    if r.Ok? {
      assert [] + r.value == r.value + [] == r.value;
    }
  }

  /** One sub-block read: its payload, then either the end of the data or the sub-blocks that follow. */
  lemma SubBlockDataStep(buf: seq<uint8>, offset: nat)
    requires offset < |buf|
    ensures var next := offset + 1 + buf[offset];
      && (next >= |buf| ==> SubBlockData(buf, offset).Err?)
      && (next < |buf| && buf[next] == 0 ==> SubBlockData(buf, offset) == Ok(buf[offset + 1..next]))
      && (next < |buf| && buf[next] != 0 ==>
            SubBlockData(buf, offset) == Prefixed(buf[offset + 1..next], SubBlockData(buf, next)))
  {
  }

  /** Reading well-formed data yields the chunks' bytes in order. */
  lemma {:induction false} SubBlockDataReadsBlocks(pre: seq<uint8>, chunks: seq<seq<uint8>>, post: seq<uint8>)
    requires forall i | 0 <= i < |chunks| :: 1 <= |chunks[i]| <= 0xff
    requires chunks != []
    ensures SubBlockData(pre + Blocks(chunks) + post, |pre|) == Ok(Flatten(chunks))
    decreases |chunks|
  {
    var buf := pre + Blocks(chunks) + post;
    assert buf[|pre|..|pre| + |Blocks(chunks)|] == Blocks(chunks);
    ReadsBlocksAt(buf, |pre|, chunks);
  }

  /** Well-formed data at `offset` of any buffer reads as the chunks' bytes. */
  lemma {:induction false} ReadsBlocksAt(buf: seq<uint8>, offset: nat, chunks: seq<seq<uint8>>)
    requires forall i | 0 <= i < |chunks| :: 1 <= |chunks[i]| <= 0xff
    requires chunks != []
    requires offset + |Blocks(chunks)| <= |buf| && buf[offset..offset + |Blocks(chunks)|] == Blocks(chunks)
    ensures SubBlockData(buf, offset) == Ok(Flatten(chunks))
    decreases |chunks|
  {
    var c, rest := chunks[0], chunks[1..];
    BlocksAt(buf, offset, chunks);
    if rest != [] {
      ReadsBlocksAt(buf, offset + 1 + |c|, rest);
    }
    ReadsBlock(buf, offset, c, Flatten(rest));
  }

  /** Encoded sub-blocks at `offset`: the first size byte and payload, then the rest of the encoding. */
  lemma BlocksAt(buf: seq<uint8>, offset: nat, chunks: seq<seq<uint8>>)
    requires forall i | 0 <= i < |chunks| :: 1 <= |chunks[i]| <= 0xff
    requires chunks != []
    requires offset + |Blocks(chunks)| <= |buf| && buf[offset..offset + |Blocks(chunks)|] == Blocks(chunks)
    ensures var c, rest := chunks[0], chunks[1..];
      var next := offset + 1 + |c|;
      && next < |buf| && buf[offset] == |c| && buf[offset + 1..next] == c
      && next + |Blocks(rest)| <= |buf| && buf[next..next + |Blocks(rest)|] == Blocks(rest)
      && (buf[next] == 0 <==> rest == [])
      && Flatten(chunks) == c + Flatten(rest)
  {
    var c, rest := chunks[0], chunks[1..];
    var next := offset + 1 + |c|;
    assert Blocks(chunks) == [|c|] + c + Blocks(rest);
    BlocksStart(rest);
    SliceOfParts(buf, offset, |c|, c, Blocks(rest));
    assert buf[next] == buf[next..next + |Blocks(rest)|][0];
  }

  /** A slice made of a byte and two runs holds each part where it sits. */
  lemma SliceOfParts(buf: seq<uint8>, offset: nat, n: uint8, c: seq<uint8>, b: seq<uint8>)
    requires offset + 1 + |c| + |b| <= |buf| && buf[offset..offset + 1 + |c| + |b|] == [n] + c + b
    ensures buf[offset] == n && buf[offset + 1..offset + 1 + |c|] == c
    ensures buf[offset + 1 + |c|..offset + 1 + |c| + |b|] == b
  {
    var whole := buf[offset..offset + 1 + |c| + |b|];
    assert buf[offset] == whole[0];
    forall k | 0 <= k < |c|
      ensures buf[offset + 1 + k] == c[k]
    {
      assert buf[offset + 1 + k] == whole[1 + k];
    }
    forall k | 0 <= k < |b|
      ensures buf[offset + 1 + |c| + k] == b[k]
    {
      assert buf[offset + 1 + |c| + k] == whole[1 + |c| + k];
    }
  }

  /** A sub-block holding `c`, then either the terminator or sub-blocks that read as `tail`, reads as `c + tail`. */
  lemma ReadsBlock(buf: seq<uint8>, offset: nat, c: seq<uint8>, tail: seq<uint8>)
    requires offset + 1 + |c| < |buf| && buf[offset] == |c| && buf[offset + 1..offset + 1 + |c|] == c
    requires buf[offset + 1 + |c|] == 0 ==> tail == []
    requires buf[offset + 1 + |c|] != 0 ==> SubBlockData(buf, offset + 1 + |c|) == Ok(tail)
    ensures SubBlockData(buf, offset) == Ok(c + tail)
  {
    SubBlockDataStep(buf, offset);
    if tail == [] {
      assert c + tail == c;
    }
  }

  /** The colour of palette index `k`: always from the global table's place, bytes 13 + 3k .. 13 + 3k + 2. */
  function GlobalColor(buf: seq<uint8>, k: uint8): Result<RGBA, RenderError>
  {
    var o := SCREEN_DESCRIPTOR_END + 3 * k;
    if o + 3 <= |buf| then Ok(Opaque(buf[o], buf[o + 1], buf[o + 2])) else Err(ReadPastEnd)
  }

  /** Columns of the frame: x wraps at the frame width, so a zero width behaves as one column. */
  function Columns(frame: ImageFrame): nat
  {
    if frame.descriptor.width == 0 then 1 else frame.descriptor.width
  }

  /** Rows of the screen: the row that reaches the screen height ends drawing, so a zero height still draws one row. */
  function Rows(screen: LogicalScreen): nat
  {
    if screen.height == 0 then 1 else screen.height
  }

  /**
   * The decoded palette indices of the first frame: the code size byte at the
   * start of its data, the sub-block payloads after it, decoded from `codes`.
   */
  function Decoded(buf: seq<uint8>, frame: ImageFrame, codes: seq<uint16>): Result<seq<uint8>, RenderError>
  {
    var start := DataStart(frame);
    if start >= |buf| then Err(ReadPastEnd)
    else
      match SubBlockData(buf, start + 1)
      case Err(e) => Err(e)
      case Ok(data) =>
        match Lzw.Decode(buf[start], |data|, codes)
        case Err(_) => Err(Undecodable)
        case Ok(indices) => Ok(indices)
  }

  /** Every pixel of the `columns` x `rows` grid that receives a decoded index has a colour in the file. */
  ghost predicate ColorsResolve(buf: seq<uint8>, indices: seq<uint8>, columns: nat, rows: nat)
  {
    forall x: nat, y: nat | x < columns && y < rows && PixelIndex(columns, x, y) < |indices| ::
      GlobalColor(buf, indices[PixelIndex(columns, x, y)]).Ok?
  }
}
