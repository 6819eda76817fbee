# limg decoders, pixel sink, XML scanner and launcher in Dafny

limg is a small image viewer. This project models how it turns a file into pixels:

- **BMP decoder.** It handles the Windows device-independent bitmap with the BITMAPCOREHEADER and BITMAPINFOHEADER family of DIB headers. It validates the headers, then runs six walkers, one per colour depth, that write RGBA cells bottom-up.
- **GIF container reader.** It classifies the version, decodes the logical screen and image descriptors, scans for the separator, skips and gathers data sub-blocks, and looks up the global palette.
- **LZW dictionary decoder.** This is the decoder the GIF renderer feeds.
- **PNM decoder.** It covers the P1 to P6 formats:
  - a header tokenizer that advances a header-end offset;
  - an ASCII walker with comment skipping and the function-static pixmap components;
  - a binary walker.
- **`drawPointAt` pixel sink.** Every walker writes through this one primitive.
- **XML scanner.** The SVG loader uses it.
- **Start of `main`.** This covers the testing-mode flag, the choice of file, the case-insensitive extension dispatch and the open.

Files are given to the model as byte sequences (`seq<uint8>`, with `uint8` a subset of `int`). The pixel array is an `array<uint8>`.

- **Parsing.** Each parse is a function that either fails or yields the header record the C++ members end up holding.
- **Classes.** Each decoder is a class with the C++ member state. Its `Open` is proved equivalent to the parse function.
- **Rendering.** Each walker is a method with loops over the same cursor and position variables as the source. It is proved pointwise:
  - it reports success exactly when every visible pixel decodes;
  - each visible pixel holds its decoded colour;
  - no cell outside the visible rectangle changes.
- **Errors.** Reads past the end of the buffer are undefined behaviour in C++. The model turns them into explicit failures.

Modules:

| file | module | contents |
|---|---|---|
| `outcome.dfy` | `Outcome` | `Result` and `Option` |
| `bytes.dfy` | `Bytes` | byte and integer helpers: little-endian reads, 32-bit arithmetic, C-locale character classes, colour scaling |
| `gfx.dfy` | `Gfx` | `RGBA`, `DrawPointAt`, and what a sequence of writes leaves in the pixel array |
| `bmp_format.dfy`, `bmp_image.dfy` | `BmpFormat`, `BmpDecoder` | the BMP header checks, cursor arithmetic and colour resolution; the `BmpImage` class |
| `gif_format.dfy`, `gif_image.dfy` | `GifFormat`, `GifDecoder` | the GIF container; the `GifImage` class |
| `lzw.dfy` | `Lzw` | the LZW decoding function, its step lemmas and the `LzwDecoder` class |
| `pnm_format.dfy`, `pnm_image.dfy` | `PnmFormat`, `PnmDecoder` | the PNM tokenizer and walkers; the `PnmImage` class |
| `xml.dfy` | `Xml` | the tokenizer, classification, name and attribute extraction; the `XmlElement` and `XmlParser` classes |
| `launcher.dfy` | `Launcher` | the extension dispatch and the start of `main` |

## Model

| member | source | states |
|---|---|---|
| Bytes.Le16 | src/BmpImage.cpp:110-111 | a `memcpy` of two bytes into a 16-bit field on a little-endian host: the first byte is the low one |
| Bytes.Le32 | src/BmpImage.cpp:175-176 | a `memcpy` of four bytes into a 32-bit field: least significant byte first |
| Bytes.ScaleToByte | src/BmpImage.cpp:692-699 | `(uint8_t)(float(v)/max*255)`: the floor of v·255/max, reduced to eight bits |
| Gfx.DrawPointAt | src/Gfx.h:16-27 | the four cells starting at 4·(y·w+x) receive r, g, b, a and every other cell of the array keeps its value |
| Gfx.CellInSink | src/Gfx.h:22 | a position inside a visible rectangle that fits the texture gives an offset whose four cells lie inside the array |
| Gfx.DrawEffect | src/Gfx.h:16-27 | after a write the pixel shows its colour, every other pixel that showed a colour still shows it, and only cells of that pixel change |
| Gfx.PaintSingle | src/Gfx.h:22-26 | a list holding one write has the same effect as one `drawPointAt` |
| Gfx.PaintShowsDraws | src/PnmImage.cpp:217-382 | writes made in scan order inside the visible rectangle all remain visible at the end, and nothing outside the rectangle changes |
| BmpFormat.ParseBmp | src/BmpImage.cpp:346-491 | `open` on a whole file: "BM", a declared size of at least 26 read into a zeroed field, a file that holds that many bytes, then the buffer's headers |
| BmpFormat.ParseBuffer | src/BmpImage.cpp:400-484 | the bitmap offset inside the buffer, room for the DIB header, and the reader the DIB size selects; any other size is refused |
| BmpFormat.ParseCoreHeader | src/BmpImage.cpp:108-171 | the BITMAPCOREHEADER reader: 16-bit width and height, one plane, depth 1, 4, 8 or 24, the offset past the headers and room for the rows |
| BmpFormat.ParseInfoHeader | src/BmpImage.cpp:173-344 | the BITMAPINFOHEADER reader, as its geometry, encoding, layout and mask stages in turn |
| BmpFormat.InfoGeometry | src/BmpImage.cpp:175-221 | width, absolute height, plane count and depth, with the zero, 2^31 and area checks |
| BmpFormat.InfoEncoding | src/BmpImage.cpp:223-273 | the compression method and image size, refusing RLE, JPEG, PNG and unknown methods |
| BmpFormat.InfoLayout | src/BmpImage.cpp:276-308 | the offset past the headers, room for the rows and the image size, and the palette count rules per depth |
| BmpFormat.BitMasks | src/BmpImage.cpp:311-341 | with BI_BITFIELDS, the three or four mask words ending at the bitmap offset |
| BmpFormat.RequiredPixelBytes | src/BmpImage.cpp:161-162 | the room check's byte count: the row length rounded up to bytes, plus itself modulo 4, times the height |
| BmpFormat.Step | src/BmpImage.cpp:654-774 | the walker's index advances 2, 3 or 4 per 16-, 24- or 32-bit pixel and 1 otherwise |
| BmpFormat.RowSkip | src/BmpImage.cpp:539-827 | the amount each depth's walker adds to its index after the last pixel of a row |
| BmpFormat.PaletteColor | src/BmpImage.cpp:577-579 | palette entry k is read as blue, green, red at 14 + DIB size + 4k |
| BmpFormat.Resolve1 | src/BmpImage.cpp:506-526 | a 1-bit pixel needs a palette count, takes bit 7 − i mod 8 of byte i/8, and fails on an index at or above the count |
| BmpFormat.Resolve4 | src/BmpImage.cpp:563-580 | a 4-bit pixel takes the high nibble for even i and the low one for odd i, failing on an index above a nonzero count |
| BmpFormat.Resolve8 | src/BmpImage.cpp:615-629 | an 8-bit pixel is a palette index, failing on an index above a nonzero count |
| BmpFormat.Resolve16 | src/BmpImage.cpp:663-702 | a 16-bit pixel is RGB555 without compression, masked with BI_BITFIELDS, opaque black otherwise |
| BmpFormat.Resolve24 | src/BmpImage.cpp:736-743 | a 24-bit pixel is blue, green, red |
| BmpFormat.Resolve32 | src/BmpImage.cpp:776-815 | a 32-bit pixel is raw BGRA unless BI_BITFIELDS sets every colour mask, then masked |
| BmpFormat.PixelAt | src/BmpImage.cpp:493-839 | the colour of image pixel (x, y): the depth's pixel at the walker index the bottom-up walk gives it |
| BmpFormat.Widen5 | src/BmpImage.cpp:681-683 | a five-bit channel widened as `v << 3 | 7` |
| BmpFormat.MaskChannel | src/BmpImage.cpp:692-699 | a channel taken through its mask and scaled, or the default when the mask is zero |
| BmpFormat.AreaCheckExact | src/BmpImage.cpp:125-130 | the overflow check on width·height fails exactly when the true product does not fit in 32 bits |
| BmpFormat.CoreHeaderAccepted | src/BmpImage.cpp:108-171 | an accepted core header reads a 16-bit width and height at 0x12 and 0x14, both nonzero, with the width below 2^31 and no 32-bit area overflow; it has a depth in {1,4,8,24} and no compression; its bitmap offset is at least 14 + DIB size and inside the file; the file has room for r + r mod 4 bytes per row; palette count and image size are both 0 |
| BmpFormat.InfoGeometryAccepted | src/BmpImage.cpp:175-221 | accepted info-header geometry is read at 0x12, 0x16 and 0x1c; height is the absolute value; width is positive and below 2^31; the area fits in 32 bits; the depth is in {1,4,8,16,24,32} |
| BmpFormat.InfoHeaderAccepted | src/BmpImage.cpp:173-344 | an accepted info header reads width, absolute height, depth, compression and palette count at 0x12, 0x16, 0x1c, 0x1e and 0x2e. It meets the common rules: geometry; compression RGB, BITFIELDS or CMYK; BITFIELDS only at 16 or 32 bpp; a nonzero image size unless RGB; offset and room. The palette count suits the depth. With BITFIELDS the masks are the 12 or 16 bytes ending at the bitmap offset, 16 for DIB sizes 56, 108 and 124 |
| BmpFormat.BufferAccepted | src/BmpImage.cpp:400-484 | an accepted buffer has its bitmap offset inside the file, the DIB size read at offset 14, and a header that satisfies the reader the DIB size selects |
| BmpFormat.BmpAccepted | src/BmpImage.cpp:346-491 | an opened file starts with "BM", declares a size of at least 26 that is at most the file length, and its header is the one accepted from that prefix |
| BmpFormat.CursorStart | src/BmpImage.cpp:497-500 | the walk starts at cursor 0 on the bottom row |
| BmpFormat.CursorNextPixel | src/BmpImage.cpp:545-548 | moving right within a row advances the cursor by one pixel's step |
| BmpFormat.CursorNextRow | src/BmpImage.cpp:532-544 | the first pixel of the row above follows the last pixel of the row plus the row-end skip |
| BmpFormat.StepsAcrossRow | src/BmpImage.cpp:532-548 | the steps across a row plus the row-end skip add up to the row length |
| BmpFormat.OneBitRowPadding | src/BmpImage.cpp:539-540 | a 1-bit row is padded to a multiple of 32 bits, by less than 32 |
| BmpFormat.FourBitRowPadding | src/BmpImage.cpp:590-591 | a 4-bit row is padded to a multiple of 8 nibbles, by less than 8 |
| BmpFormat.EightBitRowPadding | src/BmpImage.cpp:639-640 | an 8-bit row is padded to a multiple of 4 bytes, by less than 4 |
| BmpFormat.TwentyFourBitRowPadding | src/BmpImage.cpp:753 | adding w mod 4 bytes makes a 24-bit row a multiple of 4 bytes, less than 4 beyond 3·w |
| BmpFormat.SixteenBitRowPadding | src/BmpImage.cpp:712-713 | the 16-bit skip keeps rows 4-aligned, but a row is padded by 4 bytes or more exactly when w mod 4 is 1 or 2 |
| BmpFormat.ThirtyTwoBitRowSkip | src/BmpImage.cpp:826-827 | the 32-bit row skip is nonzero, and the row misaligned, exactly when (w/4) mod 4 is 1 or 2 |
| BmpFormat.RoomCheckRowShort | src/BmpImage.cpp:161-162 | for 8-bit rows with w mod 4 = 1, the room check counts r + r mod 4 = w+1 bytes per row, two fewer than the walker consumes |
| BmpFormat.CoreOneBitHasNoPalette | src/BmpImage.cpp:508-528 | no pixel of a 1-bit image opened with a core header resolves, because a core header leaves the palette count 0 |
| BmpFormat.FourBitIndexNeedsCount | src/BmpImage.cpp:566-575 | a 4-bit index is rejected only when the palette count is nonzero |
| BmpFormat.RleDepthChecksUnreachable | src/BmpImage.cpp:229-265 | the RLE4 and RLE8 depth errors can never be the outcome, because RLE methods fail earlier |
| BmpDecoder.BmpImage.constructor | src/BmpImage.h:50-52 | a new image is uninitialised and holds nothing |
| BmpDecoder.BmpImage.Open | src/BmpImage.cpp:346-491 | status 0 exactly when the file is accepted, and then the image is initialised with the accepted header and the declared-size prefix; otherwise status is 1 and it stays uninitialised |
| BmpDecoder.BmpImage.ReadBitmapCoreHeader | src/BmpImage.cpp:108-171 | returns 0 exactly when the core-header rules accept the buffer, with the accepted header, and 1 otherwise |
| BmpDecoder.BmpImage.ReadBitmapInfoHeader | src/BmpImage.cpp:173-344 | returns 0 exactly when the info-header rules accept the buffer, with the accepted header, and 1 otherwise |
| BmpDecoder.BmpImage.ReadInfoGeometry | src/BmpImage.cpp:175-221 | returns 0 exactly when the geometry checks pass, with the geometry read |
| BmpDecoder.BmpImage.ReadInfoEncoding | src/BmpImage.cpp:223-273 | returns 0 exactly when the compression rules pass, with the method and image size read |
| BmpDecoder.BmpImage.ReadInfoLayout | src/BmpImage.cpp:276-308 | returns 0 exactly when the offset, room and palette checks pass, with the palette count |
| BmpDecoder.BmpImage.ReadBitMasks | src/BmpImage.cpp:311-341 | the masks are the words ending at the bitmap offset, three or four by DIB size |
| BmpDecoder.BmpImage.RenderPixelRows | src/BmpImage.cpp:493-839 | the depth's walker succeeds exactly when every visible pixel resolves, each visible pixel then shows its resolved colour, and no cell outside the visible rectangle changes |
| BmpDecoder.BmpImage.Render | src/BmpImage.cpp:840-876 | refuses an uninitialised image, and otherwise has the walker's outcome and writes |
| GifFormat.StrToGifVersion | src/GifImage.cpp:57-64 | digit, digit, letter is a version; "87a" and "89a" are the known ones |
| GifFormat.TableFlag | src/GifImage.cpp:206-207 | bit 7 of the flags announces a colour table |
| GifFormat.ColorResolution | src/GifImage.cpp:210 | bits 4 to 6 of the screen flags, plus one |
| GifFormat.InterlaceFlag | src/GifImage.cpp:272 | bit 6 of the descriptor flags |
| GifFormat.TableColors | src/GifImage.cpp:218 | a table of 2^(n+1) colours for size field n |
| GifFormat.ParseGif | src/GifImage.cpp:66-188 | `open`: magic, version, size, trailing ';', screen descriptor, then the block scan, which may never end |
| GifFormat.SubBlockData | src/GifImage.cpp:339-356 | the payloads the renderer gathers from an offset on, failing on a read past the end |
| GifFormat.GlobalColor | src/GifImage.cpp:365-369 | index k is coloured from bytes 13 + 3k to 13 + 3k + 2, whatever table the file has |
| GifFormat.Decoded | src/GifImage.cpp:328-359 | the first frame's indices: its code size byte and gathered payloads, decoded from the codes |
| GifFormat.VersionClassification | src/GifImage.cpp:57-64 | the version is valid exactly for digit-digit-letter, and it is 87a or 89a exactly for those strings |
| GifFormat.ScreenFlagsRoundTrip | src/GifImage.cpp:206-227 | decoding the packed screen flags gives back the table flag, the colour resolution and 2^(n+1) colours |
| GifFormat.DescriptorFlagsRoundTrip | src/GifImage.cpp:270-284 | decoding the packed descriptor flags gives back the table flag, the interlace flag and 2^(n+1) colours |
| GifFormat.LogicalScreenOf | src/GifImage.cpp:190-252 | succeeds exactly for files of at least 13 bytes; width and height are read at 6 and 8; a table exists exactly when flag bit 7 is set, with 2 to 256 colours of 3 bytes each; the background index is byte 11 only with a table |
| GifFormat.TableColorsRange | src/GifImage.cpp:218-222 | a table has between 2 and 256 colours |
| GifFormat.ImageFrameAt | src/GifImage.cpp:254-309 | succeeds exactly when 10 bytes from the start exist; the fields are read from the ',' byte on, with flags at +8 giving the local table, interlace and table size |
| GifFormat.SkipSubBlocks | src/GifImage.cpp:156-166 | the offset strictly advances, and it ends past the file or just after a zero byte |
| GifFormat.ScanBlocks | src/GifImage.cpp:131-175 | the scan records at most one frame |
| GifFormat.OpenedFileShape | src/GifImage.cpp:66-188 | an opened file starts with "GIF" and a valid version and ends with ';'; it has its screen descriptor; it has one frame exactly when the first block is ',' |
| GifFormat.DivergesExactly | src/GifImage.cpp:131-175 | open never ends exactly when all checks pass and the first block's byte is neither ',' nor ';' |
| GifFormat.SkipSubBlocksSkipsBlocks | src/GifImage.cpp:156-166 | skipping a well-formed run of sub-blocks and its terminator lands just past the terminator |
| GifFormat.SubBlockDataStep | src/GifImage.cpp:339-356 | one sub-block is gathered; a zero after it ends the data, a missing byte is a failure, and anything else continues |
| GifFormat.SubBlockDataReadsBlocks | src/GifImage.cpp:339-356 | gathering a well-formed run of sub-blocks yields their payloads concatenated |
| GifFormat.ReadsBlocksAt | src/GifImage.cpp:339-356 | the same, for a run found at any offset of a buffer |
| GifDecoder.GifImage.constructor | src/GifImage.h:51-86 | a new image is uninitialised and holds nothing |
| GifDecoder.GifImage.Open | src/GifImage.cpp:66-188 | status 0 exactly when the container is accepted, with the parsed header; otherwise status 1 and still uninitialised |
| GifDecoder.GifImage.FetchLogicalScreenDescriptor | src/GifImage.cpp:190-252 | returns 0 exactly when the descriptor is readable, with its decoded fields |
| GifDecoder.GifImage.FetchImageDescriptor | src/GifImage.cpp:254-309 | returns 0 exactly when the descriptor is readable, with its decoded fields |
| GifDecoder.GifImage.SkipDataSubBlocks | src/GifImage.cpp:156-166 | the loop ends where sub-block skipping ends |
| GifDecoder.GifImage.PushBytes | src/GifImage.cpp:346-347 | the decoder's input grows by exactly the sub-block's bytes |
| GifDecoder.GifImage.FeedDecoder | src/GifImage.cpp:336-356 | succeeds exactly when the sub-blocks are gathered in full; the decoder gets the code size byte and the concatenated payloads |
| GifDecoder.GifImage.DrawIndices | src/GifImage.cpp:361-380 | succeeds exactly when every index to be drawn names global-table bytes in the file; index k is drawn at (k mod frame width, k div frame width) with the global colour; nothing outside the rectangle changes |
| GifDecoder.GifImage.Render | src/GifImage.cpp:311-384 | refuses an uninitialised image and an opened file without a frame, whose first frame the source indexes unchecked; otherwise it decodes the first frame's sub-block data and draws the indices from the global table, with success and writes as stated above |
| Lzw.Emitted | src/LzwDecoder.cpp:118-126 | the string of an ordinary code: its entry, or the previous code's entry plus string2 |
| Lzw.NextCodeSize | src/LzwDecoder.cpp:128-129 | the code width grows when the dictionary holds more than 2^size + 1 entries |
| Lzw.Absorb | src/LzwDecoder.cpp:118-140 | one ordinary code: output, width, new entry and previous code updated |
| Lzw.Run | src/LzwDecoder.cpp:95-141 | the loop: one code step per code while the bit offset lies inside the input |
| Lzw.Singletons | src/LzwDecoder.cpp:72-73 | the n entries are [0], [1], … [n-1] |
| Lzw.Seed | src/LzwDecoder.cpp:72-73 | the dictionary seed has exactly 2^s entries, entry k being [k] |
| Lzw.Initial | src/LzwDecoder.cpp:89-94 | the state after the first code is well-formed: seeded dictionary, non-empty entries, code size s |
| Lzw.AbsorbKeepsWellformed | src/LzwDecoder.cpp:118-140 | absorbing an ordinary code keeps the decoder state well-formed |
| Lzw.CodeStep | src/LzwDecoder.cpp:97-140 | one code either continues with a well-formed state or stops |
| Lzw.CodeStepExtendsOutput | src/LzwDecoder.cpp:132 | one code never removes output |
| Lzw.RunExtendsOutput | src/LzwDecoder.cpp:95-141 | the loop's result extends the output it started from |
| Lzw.Decode | src/LzwDecoder.cpp:38-146 | a code size outside 2..8 yields empty output; otherwise success needs a first code below 2^s, and the output starts with that code's byte |
| Lzw.AbsorbEffect | src/LzwDecoder.cpp:118-138 | the emitted string is dict[c] for a known code and dict[prev] + first byte otherwise; output grows by exactly it; one entry dict[prev] + first byte is appended; the code size grows exactly when |dict|−1 > 2^size; prev becomes c |
| Lzw.AbsorbFails | src/LzwDecoder.cpp:120-136 | absorbing fails exactly when the previous code is outside the dictionary |
| Lzw.FirstNewEntryAtClearCode | src/LzwDecoder.cpp:136-138 | the first entry added gets code 2^s, the clear code, and starts with the first code's byte |
| Lzw.RunSteps | src/LzwDecoder.cpp:95-141 | while input remains, the loop is one code step followed by the rest |
| Lzw.ClearRestoresSeed | src/LzwDecoder.cpp:100-111 | a clear code restores the seed and code size s, keeping prev, the output and the pending byte |
| Lzw.EndCodeStops | src/LzwDecoder.cpp:112-116 | the end code stops decoding with the output so far |
| Lzw.OrdinaryCodeContinues | src/LzwDecoder.cpp:118-140 | any other code is absorbed, and its failure stops decoding |
| Lzw.StalePreviousCodeAfterClear | src/LzwDecoder.cpp:100-140 | with s = 2, the codes 0 6 4 0 index the re-seeded dictionary with a stale previous code, so decoding fails |
| Lzw.LzwDecoder.constructor | src/GifImage.cpp:336 | a new decoder has no input and code size 0 |
| Lzw.LzwDecoder.SetCodeSize | src/GifImage.cpp:337 | sets the initial code size and keeps the input |
| Lzw.LzwDecoder.Push | src/GifImage.cpp:347 | appends one byte to the input |
| Lzw.LzwDecoder.SeedDictionary | src/LzwDecoder.cpp:72-73 | the loop builds exactly the seed |
| Lzw.LzwDecoder.AbsorbCode | src/LzwDecoder.cpp:118-140 | the in-place update agrees with absorbing the code, failing exactly when absorbing fails |
| Lzw.LzwDecoder.GetDecompressedData | src/LzwDecoder.cpp:38-146 | the loop's result is the decoding of its code size, input size and codes |
| PnmFormat.ReadUnsigned | src/PnmImage.cpp:72-84 | the number `getInt` extracts from the token at an offset |
| PnmFormat.Advance | src/PnmImage.cpp:263-272 | the next position of the ASCII walker: x wraps at the width, and the last row ends the walk |
| PnmFormat.AsciiRun | src/PnmImage.cpp:225-379 | the ASCII walk from an offset on, comments skipped, as its writes, its components and how it ends |
| PnmFormat.BinarySample | src/PnmImage.cpp:385-533 | the colour of a binary image's pixel at a cursor, per type and sample width, failing on a read past the end |
| PnmFormat.TypeNumber | src/PnmImage.cpp:152 | the six types are numbered 0 to 5 |
| PnmFormat.TypeOfDigit | src/PnmImage.cpp:152 | the type for magic digit d is number d − '1' |
| PnmFormat.DigitOfType | src/PnmImage.cpp:152 | every type is the type of its own digit |
| PnmFormat.SkipSpace | src/PnmImage.cpp:58-61 | stops at the first non-whitespace byte or the end, passing only whitespace |
| PnmFormat.LineEnd | src/PnmImage.cpp:66-67 | stops at the first newline or the end |
| PnmFormat.TokenEnd | src/PnmImage.cpp:75-79 | stops at the first whitespace byte or the end, passing only non-whitespace |
| PnmFormat.SkipComments | src/PnmImage.cpp:63-70 | stops at a byte inside the file that is not '#', or fails reading past the end |
| PnmFormat.ExtractUnsigned | src/PnmImage.cpp:81-83 | the number extracted from a non-empty token never exceeds the target's maximum |
| PnmFormat.ExtractInto | src/PnmImage.cpp:325-333 | `ss >> v` on a stream holding the token: an empty stream leaves `v` as it was, anything else stores the extracted number (no contract of its own; see EmptySampleKeepsComponent) |
| PnmFormat.Stored | src/PnmImage.cpp:81-83 | the stored value never exceeds the target's maximum |
| PnmFormat.TokenReads | src/PnmImage.cpp:72-84 | reading a number in place is extracting it from the token |
| PnmFormat.NextField | src/PnmImage.cpp:88-106 | reading a field fails only by reading past the end or on an empty token, the latter exactly when a whitespace byte follows the comment lines; a field read ends after its start |
| PnmFormat.MaxValField | src/PnmImage.cpp:115-118 | maxval is stored in 16 bits, and reading it fails only by reading past the end or on an empty token |
| PnmFormat.CrlfHeaderRefused | src/PnmImage.cpp:110-118 | with a CRLF line end after the height, the byte skipped before maxval is the carriage return, the maxval token is empty and the file is refused |
| PnmFormat.ParseHeader | src/PnmImage.cpp:86-130 | an accepted header keeps the type and is well-formed (positive width and height, positive maxval where there is one); failures are never magic or size errors |
| PnmFormat.ParseHeight | src/PnmImage.cpp:98-127 | the same, from the height on |
| PnmFormat.ParseMaxVal | src/PnmImage.cpp:110-127 | the same, from maxval on |
| PnmFormat.ParsePnm | src/PnmImage.cpp:132-179 | an accepted file is below 2^32 bytes with a well-formed header |
| PnmFormat.MagicChecked | src/PnmImage.cpp:147-152 | the magic check passes exactly for 'P' followed by '1'..'6', and the type is that digit − '1' |
| PnmFormat.DecimalRoundTrip | src/PnmImage.cpp:81-83 | extracting the decimal text of n gives n |
| PnmFormat.MagicLeadsToHeader | src/PnmImage.cpp:147-173 | after a good magic the outcome is the header tokenizer's |
| PnmFormat.HeaderOfFields | src/PnmImage.cpp:86-130 | width, height and (for P2/P3/P5/P6) maxval read in turn, with the data start one byte after maxval or right after the height |
| PnmFormat.WidthAt | src/PnmImage.cpp:86-91 | a number after the magic and a whitespace is read as the width |
| PnmFormat.HeightAt | src/PnmImage.cpp:98-101 | a number after whitespace is read as the height |
| PnmFormat.MaxValAt | src/PnmImage.cpp:115-118 | exactly one byte is skipped before maxval is read |
| PnmFormat.ParsesFields | src/PnmImage.cpp:132-179 | a file whose fields read in turn opens with exactly those fields |
| PnmFormat.HeaderRoundTrip | src/PnmImage.cpp:86-179 | the canonical header text of any type, size and maxval opens to exactly those values, with the data starting right after it |
| PnmFormat.CursorNext | src/PnmImage.cpp:396-523 | each pixel advances the cursor by one pixel's width: 1 bit, or 1, 2, 3 or 6 bytes |
| PnmFormat.PackBits | src/PnmImage.cpp:399-405 | a bit string packed most significant first is below 2^n |
| PnmFormat.BitmapBitOrder | src/PnmImage.cpp:399-407 | P4 pixel i uses bit i mod 8 counted from the most significant end, set being black and clear white |
| PnmFormat.WideGrayRoundTrip | src/PnmImage.cpp:448-455 | a 16-bit P5 sample written high byte first is read back and scaled |
| PnmFormat.WidePixmapGreen | src/PnmImage.cpp:504 | the 16-bit P6 green sample is made of bytes +1 and +3, so it differs from the intended +2 and +3 |
| PnmFormat.AsciiByte | src/PnmImage.cpp:244-372 | one byte draws at most one pixel, at the current position and inside the viewport; the position never moves backwards; components change only for P3 |
| PnmFormat.EmptySampleKeepsComponent | src/PnmImage.cpp:310-363 | an empty P3 sample between two whitespace bytes leaves the colour component it is for unchanged and only moves the component index on |
| PnmFormat.EmptyGreenSample | src/PnmImage.cpp:310-363 | an example: a lone space at the green component keeps green at its earlier 9 and moves on to blue |
| PnmFormat.EmptyGraySample | src/PnmImage.cpp:276-290 | an empty P2 sample is read into a fresh zero and draws a black pixel |
| PnmFormat.AsciiRunByte | src/PnmImage.cpp:225-379 | the walk is one byte's effect followed by the walk from the next byte |
| PnmFormat.AsciiDrawsOrdered | src/PnmImage.cpp:225-379 | the walk's writes lie inside image and viewport, in strict scan order |
| PnmFormat.BitmapStopsOutsideView | src/PnmImage.cpp:250 | once a P1 walk is outside the viewport it writes nothing more |
| PnmFormat.ComponentsOnlyForPixmaps | src/PnmImage.cpp:320-323 | P1 and P2 walks leave the pixmap components unchanged |
| PnmFormat.PixmapWalkStopsMidPixel | src/PnmImage.cpp:320-363 | a P3 walk that ends after two samples draws nothing and leaves the component index at 2 |
| PnmFormat.PixmapWalkResumes | src/PnmImage.cpp:320-363 | a later walk starting from those components draws the pixel with the earlier two samples |
| PnmFormat.PixmapComponentsCarryOver | src/PnmImage.cpp:320-363 | the components carried over between two renders complete a pixel begun in the first |
| PnmDecoder.PixmapStatics.constructor | src/PnmImage.cpp:320-323 | the statics start at index 0 and samples 0 |
| PnmDecoder.PnmImage.constructor | src/PnmImage.h:57-67 | a new image is uninitialised and holds nothing |
| PnmDecoder.PnmImage.Open | src/PnmImage.cpp:132-179 | status 0 exactly when the file is accepted, with the parsed header; otherwise 1 and still uninitialised |
| PnmDecoder.PnmImage.SkipWhitespace | src/PnmImage.cpp:58-61 | the loop stops where whitespace skipping stops |
| PnmDecoder.PnmImage.SkipCommentLines | src/PnmImage.cpp:63-70 | the loop ends as comment skipping does |
| PnmDecoder.PnmImage.GetInt | src/PnmImage.cpp:72-84 | returns the end of the token and the number read in place, or no number exactly when the token is empty |
| PnmDecoder.PnmImage.FetchImageSize | src/PnmImage.cpp:86-130 | the tokenizer's outcome is the header parse |
| PnmDecoder.PnmImage.FetchHeight | src/PnmImage.cpp:98-127 | the same, from the height on |
| PnmDecoder.PnmImage.FetchMaxVal | src/PnmImage.cpp:110-127 | the same, from maxval on |
| PnmDecoder.PnmImage.AsciiStep | src/PnmImage.cpp:244-372 | one byte moves the walk and statics as the byte's effect says and paints exactly its writes |
| PnmDecoder.PnmImage.SkipComment | src/PnmImage.cpp:228-242 | a comment ends exactly when a newline follows, and the walk resumes after it |
| PnmDecoder.PnmImage.RenderAscii | src/PnmImage.cpp:217-382 | status 0 exactly when the walk ends normally; the statics end as the walk leaves them; the array holds exactly the walk's writes |
| PnmDecoder.PnmImage.RenderBinary | src/PnmImage.cpp:385-533 | succeeds exactly when every reached pixel decodes; each visible reached pixel shows its sample; nothing outside the rectangle changes |
| PnmDecoder.PnmImage.Render | src/PnmImage.cpp:181-215 | refuses an uninitialised image; ASCII types get the ASCII walker's outcome and writes, binary types the binary walker's |
| PnmDecoder.ShownNext | src/PnmImage.cpp:409-443 | showing the current pixel extends the shown prefix by one position in scan order |
| PnmDecoder.ShownAll | src/PnmImage.cpp:385-533 | a walk that has shown every position it reached has decoded the whole image and shows every visible reached pixel |
| Xml.TypeToStr | src/XmlParser.h:61-74 | the fixed description of each element type |
| Xml.Split | src/XmlParser.cpp:64-88 | the tokenizer: '<' emits the gathered token, '>' closes and emits it, other characters are gathered |
| Xml.Classify | src/XmlParser.cpp:106-124 | closing, self-closing, opening or content, tested in that order, with the text inside |
| Xml.Attributes | src/XmlParser.cpp:143-175 | the key/value pairs the attribute loop adds, first value kept |
| Xml.ParseToken | src/XmlParser.cpp:92-179 | the element a token makes, none when its stripped text is empty |
| Xml.ParseDocument | src/XmlParser.cpp:60-181 | the elements of the document's tokens, in order |
| Xml.TypeNamesDistinct | src/XmlParser.h:61-74 | the four types have four different names |
| Xml.SplitKeepsText | src/XmlParser.cpp:64-88 | the emitted tokens followed by the leftover text are the document |
| Xml.TokensDelimited | src/XmlParser.cpp:64-88 | every emitted token holds '<' at most as its first character and '>' at most as its last; the text still gathered holds no '>' |
| Xml.SplitPlain | src/XmlParser.cpp:84-86 | text without brackets is appended to the current token |
| Xml.Skip | src/XmlParser.cpp:152-165 | stops at the first character the class rejects, or the end |
| Xml.TrimLeading | src/XmlParser.cpp:97-104 | drops exactly the leading whitespace and keeps the rest, trailing whitespace included |
| Xml.Substr | src/XmlParser.cpp:109-119 | `substr` takes count characters, or the rest when count runs past the end or wrapped below zero |
| Xml.ClassifyUnwraps | src/XmlParser.cpp:106-124 | classifying a wrapped text gives back its type and the text inside |
| Xml.ElementName | src/XmlParser.cpp:129-139 | a tag's name is the longest prefix of letters, ':' and '?'; content's is the whole text |
| Xml.Pass | src/XmlParser.cpp:148-173 | a pass advances; its key holds only letters and ':'; its value holds no '"' |
| Xml.AddAttr | src/XmlParser.h:80 | adds the key; an existing key keeps its value, a new one gets the given value |
| Xml.AttributesKeepFirst | src/XmlParser.cpp:143-175 | a key already stored keeps its first value through the scan |
| Xml.AttributeKeys | src/XmlParser.cpp:143-175 | every stored key is non-empty and made of letters and ':' |
| Xml.ElementsAtMostTokens | src/XmlParser.cpp:92-180 | there are never more elements than tokens |
| Xml.ScanOnePair | src/XmlParser.cpp:143-175 | `name key="value"` yields exactly that one attribute |
| Xml.OpeningTagRoundTrip | src/XmlParser.cpp:60-181 | an opening tag with one attribute parses to exactly one element with that name, type and attribute |
| Xml.EmptyTokenSkipped | src/XmlParser.cpp:126-127 | an empty token makes no element |
| Xml.TagTokens | src/XmlParser.cpp:64-88 | a tag alone is emitted after the empty token that precedes its '<' |
| Xml.TagElement | src/XmlParser.cpp:92-179 | that tag's token makes the element with its name and attribute |
| Xml.XmlElement.constructor | src/XmlParser.h:54-57 | a new element has its name and type and no attributes |
| Xml.XmlElement.GetAttribute | src/XmlParser.h:79 | the stored value, or "" for a missing key |
| Xml.XmlElement.AddAttribute | src/XmlParser.h:80 | the attributes become the insertion, name and type unchanged |
| Xml.XmlParser.constructor | src/XmlParser.cpp:60-181 | the stored elements are exactly the parsed document's, in token order |
| Xml.XmlParser.Size | src/XmlParser.h:99 | the number of stored elements |
| Xml.XmlParser.FindFirstElementWithName | src/XmlParser.h:101-110 | null exactly when no element has the name, and otherwise the earliest that has it |
| Xml.XmlParser.SplitDocument | src/XmlParser.cpp:64-88 | the loop emits exactly the tokenizer's tokens |
| Xml.XmlParser.ParseElement | src/XmlParser.cpp:94-179 | no element exactly when the token makes none, and otherwise a new one holding its data |
| Xml.XmlParser.ScanAttributes | src/XmlParser.cpp:143-175 | the attribute loop adds exactly the scan's attributes |
| Xml.XmlParser.ScanPass | src/XmlParser.cpp:148-173 | one pass of the loop is one `Pass` |
| Xml.XmlParser.SkipWhile | src/XmlParser.cpp:152-157 | the loop stops where `Skip` stops |
| Xml.XmlParser.Gather | src/XmlParser.cpp:160-170 | the loop gathers exactly the skipped characters |
| Launcher.TestingMode | src/main.cpp:53 | on for more than two arguments unless argv[1] is "--test" |
| Launcher.FilePath | src/main.cpp:55-70 | the first argument, else the logo beside the executable, else none |
| Launcher.Dispatch | src/main.cpp:77-101 | bmp; pnm, pbm, pgm, ppm; gif; svg each choose their decoder, anything else none |
| Launcher.SelectDecoder | src/main.cpp:71-101 | the decoder of the lowered extension |
| Launcher.LastDot | src/main.cpp:71 | the position of the last '.', or none when there is none |
| Launcher.Extension | src/main.cpp:71 | the suffix after the last '.', or the whole path when there is no '.' |
| Launcher.Lower | src/main.cpp:72-75 | every character lowered by C-locale `tolower` |
| Launcher.DispatchLowerCase | src/main.cpp:78-96 | every extension with a decoder is three lower-case letters |
| Launcher.ExtensionLower | src/main.cpp:71-75 | lowering then extracting equals extracting then lowering |
| Launcher.CaseInsensitive | src/main.cpp:71-96 | paths equal up to case choose the same decoder |
| Launcher.LastSegmentDecides | src/main.cpp:71-96 | only the text after the last '.' decides the decoder |
| Launcher.LowerInPlace | src/main.cpp:72-75 | the array becomes its lowered contents |
| Launcher.LoweredExtension | src/main.cpp:71-75 | the result is the lowered extension |
| Launcher.Start | src/main.cpp:53-108 | no file or no decoder gives exit code 1; an opened file yields its decoder and the flag (on iff more than two arguments and argv[1] is not "--test"); a failed open returns its status |

## Left out

- BmpDecoder.BmpImage.Open, GifDecoder.GifImage.Open and PnmDecoder.PnmImage.Open require a freshly constructed image. A second `open` on the same object, which would keep old members, is not modelled.
- GifDecoder.GifImage.Open requires a file whose scan terminates. The source loops forever when the byte at the first block is neither ',' nor ';'. That case is the explicit `Diverges` outcome of `GifFormat.ParseGif`, characterised by `GifFormat.DivergesExactly`.
- Launcher.Start requires the same of a file that goes to the GIF reader.
- BmpDecoder.BmpImage.RenderPixelRows, BmpDecoder.BmpImage.Render, GifDecoder.GifImage.DrawIndices, GifDecoder.GifImage.Render, PnmDecoder.PnmImage.RenderAscii, PnmDecoder.PnmImage.RenderBinary and PnmDecoder.PnmImage.Render require that the visible rectangle fits the pixel array. The source leaves this bounds check to the caller (`drawPointAt` has none). Writes out of the array and the `int` overflow of the offset are therefore not modelled.
- GifDecoder.GifImage.Render takes the LZW codes as a parameter. The bit-extraction lambda at src/LzwDecoder.cpp:53-57 reads from the address of the vector object rather than its data, and never sees the updated offset or width. What it returns depends on host memory.
- Lzw.Decode works over a sequence of codes. The source's loop ends when its bit offset passes the input; the model ends it there too, or when the codes run out. With no code at all it fails (`MissingFirstCode`), where the source would read an unspecified first code.
- The BMP colour scaling `float(bytes & mask)/mask*255` and the PNM scaling `(float)v/maxval*255` are modelled as `Bytes.ScaleToByte`, an exact integer floor wrapped to 8 bits. Float rounding differences are not modelled.
- The GIF pixel aspect ratio is not modelled, because it is a float.
- 32-bit wrap-around of BMP and GIF buffer offsets is not modelled. Offsets are unbounded, and files are at most 2^32 − 1 bytes.
- The `m_fileSize > BMP_MAX_BUFFER_SIZE` test is not modelled, because it can never fail.
- On a failed open the model assigns the header record only on success. The C++ leaves members partly assigned, which render cannot observe because it checks the initialised flag.
- The uint8 `codeSize` of the LZW decoder could in principle wrap past 255. It cannot reach that within 2^32 input bytes, so it is modelled as a natural number.
- Logging, and the name helpers that only feed the log, are not modelled: `compMethodToStr`, `dibHeaderSizeToName`, `gifVersionToStr`, `pnmTypeToStr` and `printElementInfo`.
- `std::stringstream` extraction is modelled as reading an unsigned decimal with the stream's saturation; an empty stream assigns nothing (`PnmFormat.ExtractInto`). Its sticky error state across samples is not modelled; neither is text left over between samples of the ASCII walker.
- PnmDecoder.PnmImage.GetInt: an empty header token, as after a CRLF line end or a blank line after a comment, leaves the source's `output` uninitialised, so `getInt` returns an indeterminate number. The model refuses the file with `EmptyToken` instead of choosing a value.
- Reads past the end of the buffer are explicit failures (`OutOfRange`, `ReadPastEnd`, an ended walk) rather than the source's undefined behaviour. Xml.Classify does not index before the start of a text shorter than two characters, where the source's `size()-2` test would.
- The SDL texture lock and unlock around every render are not modelled. A failed lock returns 1 before any write.
- The PNM ASCII walker is stated as the list of writes it makes (`Gfx.Paint`).
- Character classes are those of the C locale: ASCII letters, digits and whitespace only.
- The logo path uses the executable's directory, which the source finds with `readlink` on /proc/self/exe. The directory is a parameter of `Launcher.Start`.
- The SVG reader (src/SvgImage.cpp) is not part of this model. Its open status is a parameter of `Launcher.Start`.
- The window, event loop, zoom and pan of src/main.cpp:110-326 are not modelled, because they are UI and floating point.
- File I/O is not modelled: the file contents are a parameter of every `Open`.
- src/LzwDecoder.h, src/BmpImage.h, src/GifImage.h, src/PnmImage.h, src/bitmagic.h and src/misc.h are not part of this model beyond the field widths and enum order they declare.
