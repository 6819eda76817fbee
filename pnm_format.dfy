/**
 * The Netpbm formats P1 to P6 as the viewer reads them: the magic number, the
 * header tokenizer that finds the width, the height and the maximum sample
 * value, what each pixel of a binary image decodes to, and the byte-by-byte
 * walk over an ASCII image as the list of pixel writes it makes. The
 * `PnmImage` class carries these out; the functions here are its
 * specification.
 */
module PnmFormat {
  import opened Bytes
  import opened Outcome
  import opened Gfx

  /** The six variants, in the numbering of the original enum: the ASCII ones first. */
  datatype PnmType = PbmAscii | PgmAscii | PpmAscii | PbmBin | PgmBin | PpmBin

  function TypeNumber(t: PnmType): (n: nat)
    ensures n < 6
  {
    match t
    case PbmAscii => 0
    case PgmAscii => 1
    case PpmAscii => 2
    case PbmBin => 3
    case PgmBin => 4
    case PpmBin => 5
  }

  /** The variant a magic digit names: the digit less '1' is its number. */
  function TypeOfDigit(d: uint8): (t: PnmType)
    requires '1' as int <= d <= '6' as int
    ensures TypeNumber(t) == d - '1' as int
  {
    if d == '1' as int then PbmAscii
    else if d == '2' as int then PgmAscii
    else if d == '3' as int then PpmAscii
    else if d == '4' as int then PbmBin
    else if d == '5' as int then PgmBin
    else PpmBin
  }

  /** Each variant's magic digit names it. */
  lemma DigitOfType(t: PnmType)
    ensures TypeOfDigit('1' as int + TypeNumber(t)) == t
  {
    match t
    case PbmAscii =>
    case PgmAscii =>
    case PpmAscii =>
    case PbmBin =>
    case PgmBin =>
    case PpmBin =>
  }

  predicate IsAscii(t: PnmType)
  {
    t.PbmAscii? || t.PgmAscii? || t.PpmAscii?
  }

  /** Graymaps and pixmaps declare a maximum sample value; bitmaps do not. */
  predicate HasMaxVal(t: PnmType)
  {
    !(t.PbmAscii? || t.PbmBin?)
  }

  /**
   * Why a header is refused. `EmptyToken` is a number field with no bytes at
   * all: extraction from an empty stream assigns nothing, so the number would
   * be an uninitialised variable.
   */
  datatype PnmError = BadMagic | FileTooLarge | ZeroWidth | ZeroHeight | ZeroMaxVal | ReadPastEnd | EmptyToken

  /** What `open` records: the variant, the size, the maximum sample value and where the pixel data starts. */
  datatype PnmHeader = PnmHeader(pnmType: PnmType, width: uint32, height: uint32, maxVal: uint16, headerEnd: nat)

  const EMPTY_HEADER := PnmHeader(PbmAscii, 0, 0, 0, 0)

  /** What a header that was read successfully guarantees to the renderers. */
  predicate WellFormed(h: PnmHeader)
  {
    h.width >= 1 && h.height >= 1 && (HasMaxVal(h.pnmType) ==> h.maxVal >= 1)
  }

  const MAGIC_LENGTH := 2
  const MAX_UINT32 := 0xFFFF_FFFF
  const MAX_UINT16 := 0xFFFF

  // ---------------------------------------------------------------------
  // The header tokenizer.
  // ---------------------------------------------------------------------

  /** The first offset from `off` on that is not a whitespace byte of the file. */
  function SkipSpace(buf: seq<uint8>, off: nat): (r: nat)
    ensures r >= off && (off <= |buf| ==> r <= |buf|)
    ensures forall i | off <= i < r :: i < |buf| && IsSpace(buf[i])
    ensures r >= |buf| || !IsSpace(buf[r])
    decreases |buf| - off
  {
    if off < |buf| && IsSpace(buf[off]) then SkipSpace(buf, off + 1) else off
  }

  /** The first newline from `off` on, or the end of the file. */
  function LineEnd(buf: seq<uint8>, off: nat): (r: nat)
    ensures r >= off && (off <= |buf| ==> r <= |buf|)
    ensures forall i | off <= i < r :: i < |buf| && buf[i] != '\n' as int
    ensures r >= |buf| || buf[r] == '\n' as int
    decreases |buf| - off
  {
    if off < |buf| && buf[off] != '\n' as int then LineEnd(buf, off + 1) else off
  }

  /** The end of the run of non-whitespace bytes that starts at `off`. */
  function TokenEnd(buf: seq<uint8>, off: nat): (r: nat)
    ensures r >= off && (off <= |buf| ==> r <= |buf|)
    ensures forall i | off <= i < r :: i < |buf| && !IsSpace(buf[i])
    ensures r >= |buf| || IsSpace(buf[r])
    decreases |buf| - off
  {
    if off < |buf| && !IsSpace(buf[off]) then TokenEnd(buf, off + 1) else off
  }

  function Token(buf: seq<uint8>, off: nat): seq<uint8>
  {
    if off >= |buf| then [] else buf[off..TokenEnd(buf, off)]
  }

  /**
   * Skips whole lines that start with '#', and nothing else: whitespace after
   * a comment stays. The test for '#' reads the byte at the offset without a
   * bounds check, so reaching the end of the file is a read past it.
   */
  function SkipComments(buf: seq<uint8>, off: nat): (r: Result<nat, PnmError>)
    ensures r.Ok? ==> off <= r.value < |buf| && buf[r.value] != '#' as int
    ensures r.Err? ==> r.error == ReadPastEnd
    decreases |buf| + 1 - off
  {
    if off >= |buf| then Err(ReadPastEnd)
    else if buf[off] != '#' as int then Ok(off)
    else SkipComments(buf, LineEnd(buf, off) + 1)
  }

  function DigitValue(c: uint8): nat
    requires IsDigit(c)
  {
    c - '0' as int
  }

  /** The number a run of decimal digits denotes, most significant first. */
  function DigitsValue(d: seq<uint8>): nat
    requires forall i | 0 <= i < |d| :: IsDigit(d[i])
  {
    if d == [] then 0 else DigitsValue(d[..|d| - 1]) * 10 + DigitValue(d[|d| - 1])
  }

  /**
   * What extracting an unsigned integer of at most `max` from a string stream
   * holding the non-empty `token` stores: an optional sign, then the leading
   * digits; no digit gives 0, a magnitude above `max` gives `max`, and a
   * minus sign negates modulo `max + 1`. A stream holding nothing stores
   * nothing at all (see `ExtractInto`).
   */
  function ExtractUnsigned(token: seq<uint8>, max: nat): (v: nat)
    ensures v <= max
  {
    var signed := |token| > 0 && (token[0] == '+' as int || token[0] == '-' as int);
    var start := if signed then 1 else 0;
    if start >= |token| || !IsDigit(token[start]) then 0
    else Stored(signed && token[0] == '-' as int, Accumulate(token, start, 0), max)
  }

  /**
   * What a 16-bit variable holding `prior` holds after extracting from a
   * stream with `token` in it: the stream's test for the end of input fails
   * before any conversion when the token is empty, and the variable is not
   * assigned.
   */
  function ExtractInto(token: seq<uint8>, prior: uint16): uint16
  {
    if token == [] then prior else ExtractUnsigned(token, MAX_UINT16)
  }

  /** The digits of `t` from `i` on, read left to right onto the value `acc` of those before them. */
  function Accumulate(t: seq<uint8>, i: nat, acc: nat): nat
    decreases |t| - i
  {
    if i < |t| && IsDigit(t[i]) then Accumulate(t, i + 1, acc * 10 + DigitValue(t[i])) else acc
  }

  /** The value stored for a magnitude: clamped to `max`, or negated modulo `max + 1` after a minus sign. */
  function Stored(negative: bool, magnitude: nat, max: nat): (v: nat)
    ensures v <= max
  {
    if magnitude > max then max
    // (max + 1 - magnitude) % (max + 1), written without the remainder
    else if negative then (if magnitude == 0 then 0 else max + 1 - magnitude)
    else magnitude
  }

  /**
   * The unsigned integer the header token at `off` holds, read in place: the
   * digits stop at the whitespace that ends the token.
   */
  function ReadUnsigned(buf: seq<uint8>, off: nat): uint32
  {
    var signed := off < |buf| && (buf[off] == '+' as int || buf[off] == '-' as int);
    var start := if signed then off + 1 else off;
    if start >= |buf| || !IsDigit(buf[start]) then 0
    else Stored(signed && buf[off] == '-' as int, Accumulate(buf, start, 0), MAX_UINT32)
  }

  /** Reading the token in place is extracting it from the gathered token. */
  lemma TokenReads(buf: seq<uint8>, off: nat)
    ensures ExtractUnsigned(Token(buf, off), MAX_UINT32) == ReadUnsigned(buf, off)
  {
    if off < |buf| {
      var e := TokenEnd(buf, off);
      var t := Token(buf, off);
      var start := if |t| > 0 && (t[0] == '+' as int || t[0] == '-' as int) then 1 else 0;
      if start < |t| {
        AccumulateSlice(buf, off, e, start, 0);
      }
    }
  }

  /** Digits read from a slice that ends at a non-digit are the digits read in place. */
  lemma {:induction false} AccumulateSlice(buf: seq<uint8>, off: nat, e: nat, i: nat, acc: nat)
    requires off <= e <= |buf| && (e == |buf| || !IsDigit(buf[e])) && i <= e - off
    ensures Accumulate(buf[off..e], i, acc) == Accumulate(buf, off + i, acc)
    decreases e - off - i
  {
    if i < e - off {
      assert buf[off..e][i] == buf[off + i];
      if IsDigit(buf[off + i]) {
        AccumulateSlice(buf, off, e, i + 1, acc * 10 + DigitValue(buf[off + i]));
      }
    }
  }

  /** A number of the header and the offset right after its token. */
  datatype Field = Field(value: uint32, end: nat)

  /**
   * The number at the first offset from `off` that is not in a comment line.
   * A whitespace byte there makes the token empty, which fails.
   */
  function NextField(buf: seq<uint8>, off: nat): (r: Result<Field, PnmError>)
    ensures r.Ok? ==> r.value.end > off
    ensures r.Err? ==> r.error == ReadPastEnd || r.error == EmptyToken
    ensures r == Err(EmptyToken) <==> SkipComments(buf, off).Ok? && IsSpace(buf[SkipComments(buf, off).value])
  {
    match SkipComments(buf, off)
    case Err(e) => Err(e)
    case Ok(start) =>
      var end := TokenEnd(buf, start);
      if end == start then Err(EmptyToken) else Ok(Field(ReadUnsigned(buf, start), end))
  }

  /**
   * The maximum value: after comment lines exactly one byte is skipped, and
   * the number is cut to 16 bits. An empty token, at whitespace or the end of
   * the file, fails.
   */
  function MaxValField(buf: seq<uint8>, off: nat): (r: Result<Field, PnmError>)
    ensures r.Ok? ==> r.value.value <= MAX_UINT16 && r.value.end > off + 1
    ensures r.Err? ==> r.error == ReadPastEnd || r.error == EmptyToken
  {
    match SkipComments(buf, off)
    case Err(e) => Err(e)
    case Ok(before) =>
      var end := TokenEnd(buf, before + 1);
      if end == before + 1 then Err(EmptyToken) else Ok(Field(ReadUnsigned(buf, before + 1) % 0x1_0000, end))
  }

  /**
   * The header after the magic number: width and height, each after
   * whitespace and comment lines; for graymaps and pixmaps then the maximum
   * value and one more skipped byte. Bitmap data starts right after the
   * height.
   */
  function ParseHeader(buf: seq<uint8>, t: PnmType): (r: Result<PnmHeader, PnmError>)
    ensures r.Ok? ==> r.value.pnmType == t && WellFormed(r.value)
    ensures r.Err? ==> r.error != BadMagic && r.error != FileTooLarge
  {
    match NextField(buf, SkipSpace(buf, MAGIC_LENGTH))
    case Err(e) => Err(e)
    case Ok(width) => if width.value == 0 then Err(ZeroWidth) else ParseHeight(buf, t, width)
  }

  /** The header from the height on, once a nonzero width was read. */
  function ParseHeight(buf: seq<uint8>, t: PnmType, width: Field): (r: Result<PnmHeader, PnmError>)
    requires width.value >= 1
    ensures r.Ok? ==> r.value.pnmType == t && WellFormed(r.value)
    ensures r.Err? ==> r.error != BadMagic && r.error != FileTooLarge
  {
    match NextField(buf, SkipSpace(buf, width.end))
    case Err(e) => Err(e)
    case Ok(height) =>
      if height.value == 0 then Err(ZeroHeight)
      else if !HasMaxVal(t) then Ok(PnmHeader(t, width.value, height.value, 0, height.end))
      else ParseMaxVal(buf, t, width, height)
  }

  /** The maximum value of a graymap or pixmap, once width and height were read. */
  function ParseMaxVal(buf: seq<uint8>, t: PnmType, width: Field, height: Field): (r: Result<PnmHeader, PnmError>)
    requires width.value >= 1 && height.value >= 1
    ensures r.Ok? ==> r.value.pnmType == t && WellFormed(r.value)
    ensures r.Err? ==> r.error != BadMagic && r.error != FileTooLarge
  {
    match MaxValField(buf, height.end)
    case Err(e) => Err(e)
    case Ok(maxVal) =>
      if maxVal.value == 0 then Err(ZeroMaxVal)
      else Ok(PnmHeader(t, width.value, height.value, maxVal.value, maxVal.end + 1))
  }

  /** `open`: the magic number, the size limit of a 32-bit file size, then the header. */
  function ParsePnm(file: seq<uint8>): (r: Result<PnmHeader, PnmError>)
    ensures r.Ok? ==> |file| < TWO_32 && WellFormed(r.value)
  {
    var b0, b1 := ByteOr0(file, 0), ByteOr0(file, 1);
    if b0 != 'P' as int || b1 < '1' as int || b1 > '6' as int then Err(BadMagic)
    else if |file| >= TWO_32 then Err(FileTooLarge)
    else ParseHeader(file, TypeOfDigit(b1))
  }

  /** The magic test passes exactly for "P1" to "P6", and the digit names the variant. */
  lemma MagicChecked(file: seq<uint8>)
    ensures ParsePnm(file) != Err(BadMagic) <==>
      |file| >= 2 && file[0] == 'P' as int && '1' as int <= file[1] <= '6' as int
    ensures ParsePnm(file).Ok? ==> TypeNumber(ParsePnm(file).value.pnmType) == file[1] - '1' as int
  {
  }

  /**
   * A header with a CRLF line end after the height: the one byte skipped
   * before the maximum value is the carriage return, so the maximum value's
   * token starts at the line feed and is empty.
   */
  lemma CrlfHeaderRefused()
    ensures ParsePnm(['P' as int, '2' as int, ' ' as int, '2' as int, ' ' as int, '1' as int, '\r' as int,
                      '\n' as int, '2' as int, '5' as int, '5' as int, '\n' as int]) == Err(EmptyToken)
  {
    var buf := ['P' as int, '2' as int, ' ' as int, '2' as int, ' ' as int, '1' as int, '\r' as int,
                '\n' as int, '2' as int, '5' as int, '5' as int, '\n' as int];
    assert SkipSpace(buf, 2) == 3;
    assert TokenEnd(buf, 3) == 4 && SkipComments(buf, 3) == Ok(3);
    assert Accumulate(buf, 3, 0) == Accumulate(buf, 4, 2) == 2;
    assert NextField(buf, 3) == Ok(Field(2, 4));
    assert SkipSpace(buf, 4) == 5;
    assert TokenEnd(buf, 5) == 6 && SkipComments(buf, 5) == Ok(5);
    assert Accumulate(buf, 5, 0) == Accumulate(buf, 6, 1) == 1;
    assert NextField(buf, 5) == Ok(Field(1, 6));
    assert TokenEnd(buf, 7) == 7;
    assert MaxValField(buf, 6) == Err(EmptyToken);
  }

  // ---------------------------------------------------------------------
  // Decimal numbers, and the header a writer produces.
  // ---------------------------------------------------------------------

  /** The decimal digits of `n`, most significant first, without leading zeros. */
  function Decimal(n: nat): (d: seq<uint8>)
    ensures |d| >= 1
    ensures forall i | 0 <= i < |d| :: IsDigit(d[i])
  {
    if n < 10 then ['0' as int + n] else Decimal(n / 10) + ['0' as int + n % 10]
  }

  lemma {:induction false} DecimalValue(n: nat)
    ensures DigitsValue(Decimal(n)) == n
  {
    if n >= 10 {
      var d := Decimal(n);
      assert d[..|d| - 1] == Decimal(n / 10);
      DecimalValue(n / 10);
    }
  }

  /** Reading on from the value of the first `k` digits gives the value of them all. */
  lemma {:induction false} AccumulateDigits(d: seq<uint8>, k: nat)
    requires k <= |d| && forall i | 0 <= i < |d| :: IsDigit(d[i])
    ensures Accumulate(d, k, DigitsValue(d[..k])) == DigitsValue(d)
    decreases |d| - k
  {
    if k < |d| {
      assert d[..k + 1][..k] == d[..k];
      AccumulateDigits(d, k + 1);
    } else {
      assert d[..k] == d;
    }
  }

  /** Extraction reads back every number the decimal writer produces that fits. */
  lemma DecimalRoundTrip(n: nat, max: nat)
    requires n <= max
    ensures ExtractUnsigned(Decimal(n), max) == n
  {
    var d := Decimal(n);
    assert d[..0] == [];
    AccumulateDigits(d, 0);
    DecimalValue(n);
  }

  /** A run of digits that ends at a whitespace byte is one header token. */
  lemma {:induction false} TokenOfDigits(buf: seq<uint8>, off: nat, n: nat)
    requires off + n < |buf| && IsSpace(buf[off + n])
    requires forall i | off <= i < off + n :: IsDigit(buf[i])
    ensures TokenEnd(buf, off) == off + n
    decreases n
  {
    if n > 0 {
      TokenOfDigits(buf, off + 1, n - 1);
    }
  }

  /**
   * A header the way a writer lays it out: the magic number, then width,
   * height and (where there is one) the maximum value in decimal, each after
   * one whitespace byte, and a newline.
   */
  function EncodeHeader(t: PnmType, width: nat, height: nat, maxVal: nat): seq<uint8>
  {
    MagicLine(t) + Decimal(width) + [' ' as int] + Decimal(height) + MaxValLine(t, maxVal) + ['\n' as int]
  }

  function MagicLine(t: PnmType): seq<uint8>
  {
    ['P' as int, '1' as int + TypeNumber(t), '\n' as int]
  }

  function MaxValLine(t: PnmType, maxVal: nat): seq<uint8>
  {
    if HasMaxVal(t) then ['\n' as int] + Decimal(maxVal) else []
  }

  /** `n` written in decimal at `off`, and a whitespace byte right after it. */
  predicate NumberAt(buf: seq<uint8>, off: nat, n: nat)
  {
    var d := Decimal(n);
    off + |d| < |buf| && buf[off..off + |d|] == d && IsSpace(buf[off + |d|])
  }

  /** The token at `off` starts with a digit, reads as `n` and ends at the whitespace byte at `end`. */
  predicate ReadsAt(buf: seq<uint8>, off: nat, n: nat, end: nat)
  {
    off < end < |buf| && IsDigit(buf[off]) && IsSpace(buf[end]) && TokenEnd(buf, off) == end && ReadUnsigned(buf, off) == n
  }

  /** The number written at `off`, followed by whitespace, reads back. */
  lemma ReadsNumberAt(buf: seq<uint8>, off: nat, n: nat, end: nat)
    requires n <= MAX_UINT32 && NumberAt(buf, off, n) && end == off + |Decimal(n)|
    ensures ReadsAt(buf, off, n, end)
  {
    DigitsAt(buf, off, n);
    DecimalRoundTrip(n, MAX_UINT32);
    TokenReads(buf, off);
  }

  /** The decimal digits written at `off` are the token there. */
  lemma DigitsAt(buf: seq<uint8>, off: nat, n: nat)
    requires NumberAt(buf, off, n)
    ensures off + |Decimal(n)| < |buf| && IsDigit(buf[off]) && IsSpace(buf[off + |Decimal(n)|])
    ensures TokenEnd(buf, off) == off + |Decimal(n)| && Token(buf, off) == Decimal(n)
  {
    var d := Decimal(n);
    assert buf[off] == d[0];
    forall i | off <= i < off + |d|
      ensures IsDigit(buf[i])
    {
      assert buf[i] == d[i - off];
    }
    TokenOfDigits(buf, off, |d|);
  }

  /** After a valid magic number and within the size limit, `ParsePnm` is the header parse of the named variant. */
  lemma MagicLeadsToHeader(buf: seq<uint8>, t: PnmType)
    requires 2 <= |buf| < TWO_32 && buf[0] == 'P' as int && buf[1] == '1' as int + TypeNumber(t)
    ensures ParsePnm(buf) == ParseHeader(buf, t)
  {
    DigitOfType(t);
  }

  /** Fields found where a writer puts them are what `ParseHeader` reports. */
  lemma HeaderOfFields(buf: seq<uint8>, t: PnmType, width: Field, height: Field, maxVal: Field, expected: PnmHeader)
    requires width.value >= 1 && NextField(buf, SkipSpace(buf, MAGIC_LENGTH)) == Ok(width)
    requires height.value >= 1 && NextField(buf, SkipSpace(buf, width.end)) == Ok(height)
    requires HasMaxVal(t) ==> maxVal.value >= 1 && MaxValField(buf, height.end) == Ok(maxVal)
    requires expected == PnmHeader(t, width.value, height.value, if HasMaxVal(t) then maxVal.value else 0,
                                   if HasMaxVal(t) then maxVal.end + 1 else height.end)
    ensures ParseHeader(buf, t) == Ok(expected)
  {
    assert ParseHeader(buf, t) == ParseHeight(buf, t, width);
    if HasMaxVal(t) {
      assert ParseHeight(buf, t, width) == ParseMaxVal(buf, t, width, height);
    }
  }

  /** Slices of a buffer made of five parts. */
  lemma {:induction false} PartsLayout(head: seq<uint8>, dw: seq<uint8>, dh: seq<uint8>, rest: seq<uint8>, buf: seq<uint8>)
    requires buf == head + dw + [' ' as int] + dh + rest
    ensures |buf| == |head| + |dw| + 1 + |dh| + |rest|
    ensures buf[..|head|] == head && buf[|head|..|head| + |dw|] == dw && buf[|head| + |dw|] == ' ' as int
    ensures buf[|head| + |dw| + 1..|head| + |dw| + 1 + |dh|] == dh && buf[|head| + |dw| + 1 + |dh|..] == rest
  {
  }

  lemma Associate(a: seq<uint8>, b: seq<uint8>, c: seq<uint8>)
    ensures a + b + c == a + (b + c)
  {
  }

  /** Width and height in decimal after a three-byte magic line. */
  lemma NumbersLayout(buf: seq<uint8>, head: seq<uint8>, width: nat, height: nat, rest: seq<uint8>)
    requires |head| == 3 && |rest| >= 1 && IsSpace(rest[0])
    requires buf == head + Decimal(width) + [' ' as int] + Decimal(height) + rest
    ensures buf[0] == head[0] && buf[1] == head[1] && buf[2] == head[2] && |buf| == 4 + |Decimal(width)| + |Decimal(height)| + |rest|
    ensures NumberAt(buf, 3, width) && NumberAt(buf, 4 + |Decimal(width)|, height)
    ensures buf[4 + |Decimal(width)| + |Decimal(height)|..] == rest
  {
    var dw, dh := Decimal(width), Decimal(height);
    PartsLayout(head, dw, dh, rest, buf);
    assert buf[4 + |dw| + |dh|] == rest[0];
    assert buf[1] == buf[..3][1];
    assert buf[2] == buf[..3][2];
  }

  /** A newline, then `n` in decimal, then a newline, from offset `k` on. */
  lemma NumberAfterNewline(buf: seq<uint8>, k: nat, n: nat, data: seq<uint8>)
    requires k <= |buf| && buf[k..] == ['\n' as int] + Decimal(n) + (['\n' as int] + data)
    ensures k < |buf| && buf[k] == '\n' as int && NumberAt(buf, k + 1, n)
  {
    var d := Decimal(n);
    var rest := buf[k..];
    assert buf[k] == rest[0];
    assert buf[k + 1..k + 1 + |d|] == rest[1..1 + |d|] == d;
    assert buf[k + 1 + |d|] == rest[1 + |d|];
  }

  /** Where `EncodeHeader` puts each byte of the header in front of the data. */
  lemma EncodedLayout(t: PnmType, width: nat, height: nat, maxVal: nat, data: seq<uint8>, buf: seq<uint8>, hEnd: nat)
    requires buf == EncodeHeader(t, width, height, maxVal) + data
    requires hEnd == 4 + |Decimal(width)| + |Decimal(height)|
    ensures |EncodeHeader(t, width, height, maxVal)| == hEnd + 1 + (if HasMaxVal(t) then 1 + |Decimal(maxVal)| else 0)
    ensures buf[0] == 'P' as int && buf[1] == '1' as int + TypeNumber(t) && buf[2] == '\n' as int
    ensures NumberAt(buf, 3, width) && NumberAt(buf, 4 + |Decimal(width)|, height)
    ensures HasMaxVal(t) ==> buf[hEnd] == '\n' as int && NumberAt(buf, hEnd + 1, maxVal)
  {
    var head := MagicLine(t);
    var rest := MaxValLine(t, maxVal) + ['\n' as int] + data;
    var front := head + Decimal(width) + [' ' as int] + Decimal(height);
    Associate(front + MaxValLine(t, maxVal), ['\n' as int], data);
    Associate(front, MaxValLine(t, maxVal), ['\n' as int] + data);
    Associate(MaxValLine(t, maxVal), ['\n' as int], data);
    NumbersLayout(buf, head, width, height, rest);
    if HasMaxVal(t) {
      MaxValLayout(buf, hEnd, maxVal, data);
    }
  }

  lemma MaxValLayout(buf: seq<uint8>, k: nat, maxVal: nat, data: seq<uint8>)
    requires k <= |buf| && buf[k..] == ['\n' as int] + Decimal(maxVal) + ['\n' as int] + data
    ensures k < |buf| && buf[k] == '\n' as int && NumberAt(buf, k + 1, maxVal)
  {
    Associate(['\n' as int] + Decimal(maxVal), ['\n' as int], data);
    NumberAfterNewline(buf, k, maxVal, data);
  }

  /**
   * Every header written as `EncodeHeader` lays it out reads back with its
   * values. Graymap and pixmap data starts after the final newline; bitmap
   * data starts at the newline after the height, so a binary bitmap takes that
   * newline for its first eight pixels.
   */
  lemma HeaderRoundTrip(t: PnmType, width: nat, height: nat, maxVal: nat, data: seq<uint8>)
    requires 1 <= width <= MAX_UINT32 && 1 <= height <= MAX_UINT32
    requires HasMaxVal(t) ==> 1 <= maxVal <= MAX_UINT16
    requires |EncodeHeader(t, width, height, maxVal) + data| < TWO_32
    ensures var enc := EncodeHeader(t, width, height, maxVal);
      ParsePnm(enc + data) ==
        Ok(PnmHeader(t, width, height, if HasMaxVal(t) then maxVal else 0,
                     if HasMaxVal(t) then |enc| else |enc| - 1))
  {
    var enc := EncodeHeader(t, width, height, maxVal);
    var buf := enc + data;
    var wEnd := 3 + |Decimal(width)|;
    var hEnd := wEnd + 1 + |Decimal(height)|;
    var mEnd := hEnd + 1 + |Decimal(maxVal)|;
    EncodedFields(t, width, height, maxVal, data, buf, wEnd, hEnd, mEnd);
    var expected := PnmHeader(t, width, height, if HasMaxVal(t) then maxVal else 0,
                              if HasMaxVal(t) then |enc| else |enc| - 1);
    ParsesFields(buf, t, width, height, maxVal, wEnd, hEnd, mEnd, expected);
  }

  /** A buffer with a valid magic number and these fields parses to the header they make. */
  lemma ParsesFields(buf: seq<uint8>, t: PnmType, width: uint32, height: uint32, maxVal: nat,
                     wEnd: nat, hEnd: nat, mEnd: nat, expected: PnmHeader)
    requires 1 <= width && 1 <= height && (HasMaxVal(t) ==> 1 <= maxVal <= MAX_UINT16)
    requires 2 <= |buf| < TWO_32 && buf[0] == 'P' as int && buf[1] == '1' as int + TypeNumber(t)
    requires NextField(buf, SkipSpace(buf, MAGIC_LENGTH)) == Ok(Field(width, wEnd))
    requires NextField(buf, SkipSpace(buf, wEnd)) == Ok(Field(height, hEnd))
    requires HasMaxVal(t) ==> MaxValField(buf, hEnd) == Ok(Field(maxVal, mEnd))
    requires expected == PnmHeader(t, width, height, if HasMaxVal(t) then maxVal else 0,
                                   if HasMaxVal(t) then mEnd + 1 else hEnd)
    ensures ParsePnm(buf) == Ok(expected)
  {
    var maxValue: uint32 := if HasMaxVal(t) then maxVal else 0;
    HeaderOfFields(buf, t, Field(width, wEnd), Field(height, hEnd), Field(maxValue, mEnd), expected);
    MagicLeadsToHeader(buf, t);
  }

  /** An encoded header holds its numbers as the header's fields. */
  lemma EncodedFields(t: PnmType, width: nat, height: nat, maxVal: nat, data: seq<uint8>,
                      buf: seq<uint8>, wEnd: nat, hEnd: nat, mEnd: nat)
    requires width <= MAX_UINT32 && height <= MAX_UINT32 && (HasMaxVal(t) ==> maxVal <= MAX_UINT16)
    requires buf == EncodeHeader(t, width, height, maxVal) + data
    requires wEnd == 3 + |Decimal(width)| && hEnd == wEnd + 1 + |Decimal(height)| && mEnd == hEnd + 1 + |Decimal(maxVal)|
    ensures |EncodeHeader(t, width, height, maxVal)| == if HasMaxVal(t) then mEnd + 1 else hEnd + 1
    ensures 2 <= |buf| && buf[0] == 'P' as int && buf[1] == '1' as int + TypeNumber(t)
    ensures NextField(buf, SkipSpace(buf, MAGIC_LENGTH)) == Ok(Field(width, wEnd))
    ensures NextField(buf, SkipSpace(buf, wEnd)) == Ok(Field(height, hEnd))
    ensures HasMaxVal(t) ==> MaxValField(buf, hEnd) == Ok(Field(maxVal, mEnd))
  {
    EncodedMagic(t, width, height, maxVal, data, buf, hEnd);
    EncodedWidth(t, width, height, maxVal, data, buf, wEnd, hEnd);
    EncodedHeight(t, width, height, maxVal, data, buf, wEnd, hEnd);
    if HasMaxVal(t) {
      EncodedMaxVal(t, width, height, maxVal, data, buf, hEnd, mEnd);
    }
  }

  /** The length of an encoded header and its magic number. */
  lemma EncodedMagic(t: PnmType, width: nat, height: nat, maxVal: nat, data: seq<uint8>, buf: seq<uint8>, hEnd: nat)
    requires buf == EncodeHeader(t, width, height, maxVal) + data
    requires hEnd == 4 + |Decimal(width)| + |Decimal(height)|
    ensures |EncodeHeader(t, width, height, maxVal)| == hEnd + 1 + (if HasMaxVal(t) then 1 + |Decimal(maxVal)| else 0)
    ensures 2 <= |buf| && buf[0] == 'P' as int && buf[1] == '1' as int + TypeNumber(t)
  {
    EncodedLayout(t, width, height, maxVal, data, buf, hEnd);
  }

  /** The width of an encoded header is its first field. */
  lemma EncodedWidth(t: PnmType, width: nat, height: nat, maxVal: nat, data: seq<uint8>, buf: seq<uint8>, wEnd: nat, hEnd: nat)
    requires width <= MAX_UINT32 && buf == EncodeHeader(t, width, height, maxVal) + data
    requires wEnd == 3 + |Decimal(width)| && hEnd == wEnd + 1 + |Decimal(height)|
    ensures NextField(buf, SkipSpace(buf, MAGIC_LENGTH)) == Ok(Field(width, wEnd))
  {
    EncodedLayout(t, width, height, maxVal, data, buf, hEnd);
    ReadsNumberAt(buf, 3, width, wEnd);
    WidthAt(buf, width, wEnd);
  }

  /** The height of an encoded header is the field after the width. */
  lemma EncodedHeight(t: PnmType, width: nat, height: nat, maxVal: nat, data: seq<uint8>, buf: seq<uint8>, wEnd: nat, hEnd: nat)
    requires height <= MAX_UINT32 && buf == EncodeHeader(t, width, height, maxVal) + data
    requires wEnd == 3 + |Decimal(width)| && hEnd == wEnd + 1 + |Decimal(height)|
    ensures NextField(buf, SkipSpace(buf, wEnd)) == Ok(Field(height, hEnd))
  {
    EncodedLayout(t, width, height, maxVal, data, buf, hEnd);
    ReadsNumberAt(buf, wEnd + 1, height, hEnd);
    HeightAt(buf, wEnd, height, hEnd);
  }

  /** The maximum value of an encoded graymap or pixmap header is the field after the height. */
  lemma EncodedMaxVal(t: PnmType, width: nat, height: nat, maxVal: nat, data: seq<uint8>, buf: seq<uint8>, hEnd: nat, mEnd: nat)
    requires HasMaxVal(t) && maxVal <= MAX_UINT16 && buf == EncodeHeader(t, width, height, maxVal) + data
    requires hEnd == 4 + |Decimal(width)| + |Decimal(height)| && mEnd == hEnd + 1 + |Decimal(maxVal)|
    ensures MaxValField(buf, hEnd) == Ok(Field(maxVal, mEnd))
  {
    EncodedLayout(t, width, height, maxVal, data, buf, hEnd);
    NumberMaxVal(buf, hEnd, maxVal, mEnd);
  }

  /** A newline, then the maximum value in decimal followed by whitespace, is the maximum-value field. */
  lemma NumberMaxVal(buf: seq<uint8>, off: nat, maxVal: nat, end: nat)
    requires maxVal <= MAX_UINT16 && end == off + 1 + |Decimal(maxVal)|
    requires off < |buf| && buf[off] == '\n' as int && NumberAt(buf, off + 1, maxVal)
    ensures MaxValField(buf, off) == Ok(Field(maxVal, end))
  {
    ReadsNumberAt(buf, off + 1, maxVal, end);
    MaxValAt(buf, off, maxVal, end);
  }

  /** The width: the number after the whitespace that follows the magic number. */
  lemma WidthAt(buf: seq<uint8>, width: nat, end: nat)
    requires 3 <= |buf| && IsSpace(buf[2]) && ReadsAt(buf, 3, width, end)
    ensures NextField(buf, SkipSpace(buf, MAGIC_LENGTH)) == Ok(Field(width, end))
  {
    assert SkipSpace(buf, 3) == 3;
    assert SkipComments(buf, 3) == Ok(3);
  }

  /** The height: the number right after the whitespace byte at `sep`. */
  lemma HeightAt(buf: seq<uint8>, sep: nat, height: nat, end: nat)
    requires sep < |buf| && IsSpace(buf[sep]) && ReadsAt(buf, sep + 1, height, end)
    ensures NextField(buf, SkipSpace(buf, sep)) == Ok(Field(height, end))
  {
    assert SkipSpace(buf, sep + 1) == sep + 1;
    assert SkipComments(buf, sep + 1) == Ok(sep + 1);
  }

  /** The maximum value: the number right after the newline at `off`. */
  lemma MaxValAt(buf: seq<uint8>, off: nat, maxVal: nat, end: nat)
    requires maxVal <= MAX_UINT16 && off < |buf| && buf[off] == '\n' as int && ReadsAt(buf, off + 1, maxVal, end)
    ensures MaxValField(buf, off) == Ok(Field(maxVal, end))
  {
    assert SkipComments(buf, off) == Ok(off);
    SmallRemainder(maxVal, 0x1_0000);
  }

  lemma SmallRemainder(x: nat, m: nat)
    requires x < m
    ensures x % m == x
  {
  }

  // ---------------------------------------------------------------------
  // Binary images: one pixel after the other from the end of the header.
  // ---------------------------------------------------------------------

  /** Cursor units one pixel takes: one bit of a bitmap, otherwise one byte per sample byte. */
  function Units(h: PnmHeader): nat
  {
    match h.pnmType
    case PgmBin => if h.maxVal < 256 then 1 else 2
    case PpmBin => if h.maxVal < 256 then 3 else 6
    case _ => 1
  }

  /** The file byte cursor position `i` lies in: cursors of a bitmap count bits, the others bytes. */
  function SampleByte(h: PnmHeader, i: nat): nat
  {
    if h.pnmType.PbmBin? then h.headerEnd + i / 8 else h.headerEnd + i
  }

  /** Where pixel number `k` starts. */
  function Cursor(h: PnmHeader, k: nat): nat
  {
    Mul(k, Units(h))
  }

  /** The walk reaches pixel number `k`: the byte it starts in is in the file. */
  predicate Reaches(h: PnmHeader, buf: seq<uint8>, k: nat)
  {
    SampleByte(h, Cursor(h, k)) < |buf|
  }

  /** A 16-bit sample stored most significant byte first. */
  function Be16(hi: uint8, lo: uint8): uint16
  {
    hi * 0x100 + lo
  }

  function Gray(v: uint8): RGBA
  {
    Opaque(v, v, v)
  }

  /**
   * The colour of the pixel at cursor `i` of a binary image: a set bitmap bit
   * is black and a clear one white, most significant bit first; gray and
   * colour samples are one byte below a maximum of 256 and two bytes, most
   * significant first, from there on, each scaled to a byte. Only the first
   * byte is checked against the file size; the others are reads past the end
   * when they are missing. The green sample of a two-byte pixmap pixel is made
   * of bytes 1 and 3 of the pixel.
   */
  function BinarySample(h: PnmHeader, buf: seq<uint8>, i: nat): Result<RGBA, PnmError>
    requires WellFormed(h) && SampleByte(h, i) < |buf|
  {
    var o := SampleByte(h, i);
    match h.pnmType
    case PgmBin =>
      if h.maxVal < 256 then Ok(Gray(ScaleToByte(buf[o], h.maxVal)))
      else if o + 1 >= |buf| then Err(ReadPastEnd)
      else Ok(Gray(ScaleToByte(Be16(buf[o], buf[o + 1]), h.maxVal)))
    case PpmBin =>
      if h.maxVal < 256 then
        if o + 2 >= |buf| then Err(ReadPastEnd)
        else Ok(Opaque(ScaleToByte(buf[o], h.maxVal), ScaleToByte(buf[o + 1], h.maxVal),
                       ScaleToByte(buf[o + 2], h.maxVal)))
      else if o + 5 >= |buf| then Err(ReadPastEnd)
      else Ok(Opaque(ScaleToByte(Be16(buf[o], buf[o + 1]), h.maxVal),
                     ScaleToByte(Be16(buf[o + 1], buf[o + 3]), h.maxVal),
                     ScaleToByte(Be16(buf[o + 4], buf[o + 5]), h.maxVal)))
    case _ =>
      Ok(Gray(if Bit(buf[o], 7 - i % 8) == 1 then 0 else 255))
  }

  /** Every pixel of the image that the walk reaches decodes without reading past the end. */
  ghost predicate BinaryDecodes(h: PnmHeader, buf: seq<uint8>)
    requires WellFormed(h)
  {
    forall x: nat, y: nat | x < h.width && y < h.height && Reaches(h, buf, PixelIndex(h.width, x, y)) ::
      BinarySample(h, buf, Cursor(h, PixelIndex(h.width, x, y))).Ok?
  }

  lemma {:induction false} MulMonotone(a: nat, b: nat, c: nat)
    requires a <= b
    ensures Mul(a, c) <= Mul(b, c)
    decreases b
  {
    if a < b {
      MulMonotone(a, b - 1, c);
    }
  }

  /** Pixels are laid out in order: a pixel after one the walk does not reach is not reached either. */
  lemma ReachOrdered(h: PnmHeader, buf: seq<uint8>, k: nat, k': nat)
    requires k <= k' && Reaches(h, buf, k')
    ensures Reaches(h, buf, k)
  {
    MulMonotone(k, k', Units(h));
  }

  /** The next pixel starts one pixel's units further on. */
  lemma CursorNext(h: PnmHeader, k: nat)
    ensures Cursor(h, k + 1) == Cursor(h, k) + Units(h)
  {
  }

  /** Bits packed into a number, most significant first: a bitmap byte holds eight pixels this way. */
  function PackBits(b: seq<bool>): (v: nat)
    ensures v < Pow2(|b|)
  {
    if b == [] then 0 else PackBits(b[..|b| - 1]) * 2 + BitValue(b[|b| - 1], 1)
  }

  /** Packing a concatenation shifts the front past the back. */
  lemma {:induction false} PackBitsSplit(s: seq<bool>, t: seq<bool>)
    ensures PackBits(s + t) == PackBits(s) * Pow2(|t|) + PackBits(t)
    decreases |t|
  {
    if t == [] {
      assert s + t == s;
    } else {
      var t' := t[..|t| - 1];
      assert (s + t)[..|s + t| - 1] == s + t';
      PackBitsSplit(s, t');
      assert Pow2(|t|) == 2 * Pow2(|t'|);
      ShiftOneMore(PackBits(s), Pow2(|t'|), PackBits(t'), BitValue(t[|t| - 1], 1));
    }
  }

  lemma ShiftOneMore(a: nat, p: nat, b: nat, x: nat)
    ensures (a * p + b) * 2 + x == a * (2 * p) + (b * 2 + x)
  {
  }

  /** The bit of a packed value over `d`: the bits above it, then it, then fewer than `d` below. */
  lemma BitOfPacked(p: nat, d: nat, hi: nat, bit: bool, lo: nat)
    requires 1 <= d && lo < d && p == (2 * hi + BitValue(bit, 1)) * d + lo
    ensures Quot(p, d) % 2 == BitValue(bit, 1)
  {
    QuotIsDiv(p, d);
    DivModUnique(p, d, 2 * hi + BitValue(bit, 1), lo);
    DivModUnique(2 * hi + BitValue(bit, 1), 2, hi, BitValue(bit, 1));
  }

  /** A binary bitmap decodes the eight pixels packed into a byte in order, set bits as black. */
  lemma BitmapBitOrder(h: PnmHeader, buf: seq<uint8>, i: nat, b: seq<bool>)
    requires WellFormed(h) && h.pnmType == PbmBin && SampleByte(h, i) < |buf|
    requires |b| == 8 && buf[SampleByte(h, i)] == PackBits(b)
    ensures BinarySample(h, buf, i) == Ok(Gray(if b[i % 8] then 0 else 255))
  {
    PackedBit(b, i % 8);
  }

  /** Bit `7 - j` of eight packed flags, counting from the least significant, is flag `j`. */
  lemma PackedBit(b: seq<bool>, j: nat)
    requires |b| == 8 && j < 8
    ensures PackBits(b) < 256 && Bit(PackBits(b), 7 - j) == BitValue(b[j], 1)
  {
    var front, back := b[..j] + [b[j]], b[j + 1..];
    assert b == front + back;
    assert front[..|front| - 1] == b[..j];
    PackBitsSplit(front, back);
    BitOfPacked(PackBits(b), Pow2(7 - j), PackBits(b[..j]), b[j], PackBits(back));
  }

  /** A two-byte graymap sample reads back the value written most significant byte first. */
  lemma WideGrayRoundTrip(h: PnmHeader, buf: seq<uint8>, i: nat, v: uint16)
    requires WellFormed(h) && h.pnmType == PgmBin && h.maxVal >= 256
    requires SampleByte(h, i) + 1 < |buf|
    requires buf[SampleByte(h, i)] == v / 0x100 && buf[SampleByte(h, i) + 1] == v % 0x100
    ensures BinarySample(h, buf, i) == Ok(Gray(ScaleToByte(v, h.maxVal)))
  {
  }

  /**
   * The green sample of a two-byte pixmap pixel: the pixel 01 02 03 04 05 06
   * carries green 0x0304, and the viewer uses 0x0204, a different byte at
   * full scale.
   */
  lemma WidePixmapGreen()
    ensures var h := PnmHeader(PpmBin, 1, 1, MAX_UINT16, 0);
      var pixel := [1, 2, 3, 4, 5, 6];
      && BinarySample(h, pixel, 0).Ok?
      && BinarySample(h, pixel, 0).value.g == ScaleToByte(0x0204, MAX_UINT16)
      && ScaleToByte(0x0204, MAX_UINT16) != ScaleToByte(0x0304, MAX_UINT16)
  {
    assert ScaleToByte(0x0204, MAX_UINT16) == 2 by {
      QuotIsDiv(0x0204 * 255, MAX_UINT16);
    }
    assert ScaleToByte(0x0304, MAX_UINT16) == 3 by {
      QuotIsDiv(0x0304 * 255, MAX_UINT16);
    }
  }

  // ---------------------------------------------------------------------
  // ASCII images: a walk over the bytes from the end of the header.
  // ---------------------------------------------------------------------

  /** The walk's position and the sample bytes gathered since the last whitespace. */
  datatype Walk = Walk(x: nat, y: nat, pending: seq<uint8>)

  const WALK_START := Walk(0, 0, [])

  /**
   * The pixmap walker's function-static variables: which component the next
   * sample is, and the red, green and blue samples read so far. They outlive
   * a call.
   */
  datatype Components = Components(index: nat, red: uint16, green: uint16, blue: uint16)

  const NO_COMPONENTS := Components(0, 0, 0, 0)

  /** What one byte that is not part of a comment does to the walk. */
  datatype ByteEffect = ByteEffect(walk: Walk, components: Components, drawn: seq<Draw>, done: bool)

  /** The next position: x wraps at the image width, and the row that reaches the height ends the walk. */
  function Advance(h: PnmHeader, w: Walk, pending: seq<uint8>): (r: (Walk, bool))
  {
    if w.x + 1 >= h.width then (Walk(0, w.y + 1, pending), w.y + 1 >= h.height)
    else (Walk(w.x + 1, w.y, pending), false)
  }

  /**
   * One byte of an ASCII image. A bitmap byte is a pixel when it is not
   * whitespace and the position is inside the viewport, '0' white and
   * anything else black; outside the viewport nothing moves. For graymaps and
   * pixmaps whitespace ends a sample made of the bytes gathered since the
   * previous one: a gray pixel, or the next colour component with a pixel
   * after the third; other bytes are gathered. An empty sample between two
   * whitespace bytes is a gray 0, but leaves a colour component as it was.
   */
  function AsciiByte(h: PnmHeader, vw: nat, vh: nat, w: Walk, comps: Components, c: uint8): (e: ByteEffect)
    requires WellFormed(h) && IsAscii(h.pnmType) && w.x < h.width && w.y < h.height
    ensures |e.drawn| <= 1
    ensures |e.drawn| == 1 ==> e.drawn[0].x == w.x && e.drawn[0].y == w.y && w.x < vw && w.y < vh
    ensures (e.walk.x == w.x && e.walk.y == w.y) || ScannedBefore(w.x, w.y, e.walk.x, e.walk.y)
    ensures |e.drawn| == 1 ==> e.done || ScannedBefore(w.x, w.y, e.walk.x, e.walk.y)
    ensures !e.done ==> e.walk.x < h.width && e.walk.y < h.height
    ensures !h.pnmType.PpmAscii? ==> e.components == comps
  {
    var visible := w.x < vw && w.y < vh;
    if h.pnmType.PbmAscii? then
      if visible && !IsSpace(c) then
        var v: uint8 := if c != '0' as int then 0 else 255;
        var (next, done) := Advance(h, w, w.pending);
        ByteEffect(next, comps, [Draw(w.x, w.y, Gray(v))], done)
      else ByteEffect(w, comps, [], false)
    else if !IsSpace(c) then ByteEffect(w.(pending := w.pending + [c]), comps, [], false)
    else
      if h.pnmType.PgmAscii? then
        // The gray sample goes into a fresh zero-initialised variable.
        var sample := ExtractInto(w.pending, 0);
        var drawn := if visible then [Draw(w.x, w.y, Gray(ScaleToByte(sample, h.maxVal)))] else [];
        var (next, done) := Advance(h, w, []);
        ByteEffect(next, comps, drawn, done)
      else
        // A colour sample goes into the long-lived component, which an empty sample leaves alone.
        var c1 :=
          if comps.index == 0 then comps.(red := ExtractInto(w.pending, comps.red))
          else if comps.index == 1 then comps.(green := ExtractInto(w.pending, comps.green))
          else if comps.index == 2 then comps.(blue := ExtractInto(w.pending, comps.blue))
          else comps;
        var drawn :=
          if comps.index == 2 && visible then
            [Draw(w.x, w.y, Opaque(ScaleToByte(c1.red, h.maxVal), ScaleToByte(c1.green, h.maxVal),
                                   ScaleToByte(c1.blue, h.maxVal)))]
          else [];
        if comps.index >= 2 then
          var (next, done) := Advance(h, w, []);
          ByteEffect(next, c1.(index := 0), drawn, done)
        else ByteEffect(w.(pending := []), c1.(index := comps.index + 1), drawn, false)
  }

  /** The outcome of an ASCII walk: its writes, the pixmap components left behind, and whether it ended normally. */
  datatype AsciiResult = AsciiResult(draws: seq<Draw>, components: Components, finished: bool)

  function Then(drawn: seq<Draw>, r: AsciiResult): AsciiResult
  {
    r.(draws := drawn + r.draws)
  }

  lemma ThenThen(a: seq<Draw>, b: seq<Draw>, r: AsciiResult)
    ensures Then(a, Then(b, r)) == Then(a + b, r)
  {
    assert a + (b + r.draws) == (a + b) + r.draws;
  }

  /**
   * The walk from `off` on: a '#' skips past the next newline, where a
   * comment that never ends reads past the file; every other byte is one
   * `AsciiByte`; the walk ends with the file or when the last row is done.
   */
  function AsciiRun(h: PnmHeader, buf: seq<uint8>, vw: nat, vh: nat, off: nat, w: Walk, comps: Components)
    : AsciiResult
    requires WellFormed(h) && IsAscii(h.pnmType) && w.x < h.width && w.y < h.height
    decreases |buf| - off
  {
    if off >= |buf| then AsciiResult([], comps, true)
    else if buf[off] == '#' as int then
      var e := LineEnd(buf, off);
      if e >= |buf| then AsciiResult([], comps, false)
      else AsciiRun(h, buf, vw, vh, e + 1, w, comps)
    else
      var step := AsciiByte(h, vw, vh, w, comps, buf[off]);
      if step.done then AsciiResult(step.drawn, step.components, true)
      else Then(step.drawn, AsciiRun(h, buf, vw, vh, off + 1, step.walk, step.components))
  }

  /** A byte that does not start a comment is one step of the walk, which either ends there or goes on after it. */
  lemma AsciiRunByte(h: PnmHeader, buf: seq<uint8>, vw: nat, vh: nat, off: nat, w: Walk, comps: Components)
    requires WellFormed(h) && IsAscii(h.pnmType) && w.x < h.width && w.y < h.height
    requires off < |buf| && buf[off] != '#' as int
    ensures var e := AsciiByte(h, vw, vh, w, comps, buf[off]);
      && (e.done ==> AsciiRun(h, buf, vw, vh, off, w, comps) == AsciiResult(e.drawn, e.components, true))
      && (!e.done ==> AsciiRun(h, buf, vw, vh, off, w, comps)
                      == Then(e.drawn, AsciiRun(h, buf, vw, vh, off + 1, e.walk, e.components)))
  {
  }

  /**
   * Writes that all lie inside both the image and the viewport, at or after
   * the position `w`, in scan order.
   */
  ghost predicate DrawsFrom(h: PnmHeader, vw: nat, vh: nat, w: Walk, d: seq<Draw>)
  {
    && (forall i | 0 <= i < |d| ::
          d[i].x < Min(h.width, vw) && d[i].y < Min(h.height, vh)
          && ((d[i].x == w.x && d[i].y == w.y) || ScannedBefore(w.x, w.y, d[i].x, d[i].y)))
    && (forall i, j | 0 <= i < j < |d| :: ScannedBefore(d[i].x, d[i].y, d[j].x, d[j].y))
  }

  /** Writes from a later position are writes from an earlier one. */
  lemma DrawsFromEarlier(h: PnmHeader, vw: nat, vh: nat, w: Walk, v: Walk, d: seq<Draw>)
    requires (v.x == w.x && v.y == w.y) || ScannedBefore(w.x, w.y, v.x, v.y)
    requires DrawsFrom(h, vw, vh, v, d)
    ensures DrawsFrom(h, vw, vh, w, d)
  {
  }

  /** A write at `w` followed by writes from a strictly later position. */
  lemma DrawsFromCons(h: PnmHeader, vw: nat, vh: nat, w: Walk, v: Walk, first: Draw, d: seq<Draw>)
    requires first.x == w.x && first.y == w.y && w.x < Min(h.width, vw) && w.y < Min(h.height, vh)
    requires ScannedBefore(w.x, w.y, v.x, v.y) && DrawsFrom(h, vw, vh, v, d)
    ensures DrawsFrom(h, vw, vh, w, [first] + d)
  {
    var e := [first] + d;
    forall i | 0 < i < |e|
      ensures e[i] == d[i - 1]
    {
    }
  }

  /**
   * Every write of a walk lies inside both the image and the viewport, at or
   * after the walk's position, and the writes go in scan order, so no pixel
   * is written twice.
   */
  lemma {:induction false} AsciiDrawsOrdered(h: PnmHeader, buf: seq<uint8>, vw: nat, vh: nat, off: nat, w: Walk,
                                             comps: Components)
    requires WellFormed(h) && IsAscii(h.pnmType) && w.x < h.width && w.y < h.height
    ensures DrawsFrom(h, vw, vh, w, AsciiRun(h, buf, vw, vh, off, w, comps).draws)
    decreases |buf| - off
  {
    if off < |buf| {
      if buf[off] == '#' as int {
        var e := LineEnd(buf, off);
        if e < |buf| {
          AsciiDrawsOrdered(h, buf, vw, vh, e + 1, w, comps);
        }
      } else {
        var step := AsciiByte(h, vw, vh, w, comps, buf[off]);
        var rest := if step.done then [] else AsciiRun(h, buf, vw, vh, off + 1, step.walk, step.components).draws;
        if !step.done {
          AsciiDrawsOrdered(h, buf, vw, vh, off + 1, step.walk, step.components);
        }
        StepDrawsFrom(h, vw, vh, w, step, rest);
        assert AsciiRun(h, buf, vw, vh, off, w, comps).draws == step.drawn + rest;
      }
    }
  }

  /** The writes of one byte in front of the writes that follow it keep scan order. */
  lemma StepDrawsFrom(h: PnmHeader, vw: nat, vh: nat, w: Walk, step: ByteEffect, rest: seq<Draw>)
    requires w.x < h.width && w.y < h.height && |step.drawn| <= 1
    requires |step.drawn| == 1 ==> step.drawn[0].x == w.x && step.drawn[0].y == w.y && w.x < vw && w.y < vh
    requires (step.walk.x == w.x && step.walk.y == w.y) || ScannedBefore(w.x, w.y, step.walk.x, step.walk.y)
    requires |step.drawn| == 1 ==> step.done || ScannedBefore(w.x, w.y, step.walk.x, step.walk.y)
    requires step.done ==> rest == []
    requires !step.done ==> DrawsFrom(h, vw, vh, step.walk, rest)
    ensures DrawsFrom(h, vw, vh, w, step.drawn + rest)
  {
    if step.done {
      assert step.drawn + rest == step.drawn;
    } else if step.drawn == [] {
      assert step.drawn + rest == rest;
      DrawsFromEarlier(h, vw, vh, w, step.walk, rest);
    } else {
      assert step.drawn == [step.drawn[0]];
      DrawsFromCons(h, vw, vh, w, step.walk, step.drawn[0], rest);
    }
  }

  /** A bitmap walk whose position has left the viewport writes nothing more: the position never moves again. */
  lemma {:induction false} BitmapStopsOutsideView(h: PnmHeader, buf: seq<uint8>, vw: nat, vh: nat, off: nat, w: Walk,
                                                  comps: Components)
    requires WellFormed(h) && h.pnmType == PbmAscii && w.x < h.width && w.y < h.height
    requires w.x >= vw || w.y >= vh
    ensures AsciiRun(h, buf, vw, vh, off, w, comps).draws == []
    decreases |buf| - off
  {
    if off < |buf| {
      if buf[off] == '#' as int {
        var e := LineEnd(buf, off);
        if e < |buf| {
          BitmapStopsOutsideView(h, buf, vw, vh, e + 1, w, comps);
        }
      } else {
        BitmapStopsOutsideView(h, buf, vw, vh, off + 1, w, comps);
      }
    }
  }

  /** Only the pixmap walk touches the function-static components. */
  lemma {:induction false} ComponentsOnlyForPixmaps(h: PnmHeader, buf: seq<uint8>, vw: nat, vh: nat, off: nat,
                                                    w: Walk, comps: Components)
    requires WellFormed(h) && IsAscii(h.pnmType) && !h.pnmType.PpmAscii? && w.x < h.width && w.y < h.height
    ensures AsciiRun(h, buf, vw, vh, off, w, comps).components == comps
    decreases |buf| - off
  {
    if off < |buf| {
      if buf[off] == '#' as int {
        var e := LineEnd(buf, off);
        if e < |buf| {
          ComponentsOnlyForPixmaps(h, buf, vw, vh, e + 1, w, comps);
        }
      } else {
        var step := AsciiByte(h, vw, vh, w, comps, buf[off]);
        if !step.done {
          ComponentsOnlyForPixmaps(h, buf, vw, vh, off + 1, step.walk, step.components);
        }
      }
    }
  }

  /** A one-pixel pixmap with samples up to 255, for the example below. */
  const TINY_PIXMAP := PnmHeader(PpmAscii, 1, 1, 255, 0)

  /** "1 2 " ends after red and green: nothing is drawn and the index stays at blue. */
  lemma PixmapWalkStopsMidPixel()
    ensures AsciiRun(TINY_PIXMAP, ['1' as int, ' ' as int, '2' as int, ' ' as int], 1, 1, 0, WALK_START, NO_COMPONENTS)
         == AsciiResult([], Components(2, 1, 2, 0), true)
  {
    var h := TINY_PIXMAP;
    var one, two, space := '1' as int, '2' as int, ' ' as int;
    var b1 := [one, space, two, space];
    assert ExtractUnsigned([one], MAX_UINT16) == 1 by { DecimalRoundTrip(1, MAX_UINT16); }
    assert ExtractUnsigned([two], MAX_UINT16) == 2 by { DecimalRoundTrip(2, MAX_UINT16); }
    var w1 := Walk(0, 0, [one]);
    var w2 := Walk(0, 0, [two]);
    var c1 := Components(1, 1, 0, 0);
    var c2 := Components(2, 1, 2, 0);
    assert AsciiByte(h, 1, 1, WALK_START, NO_COMPONENTS, one) == ByteEffect(w1, NO_COMPONENTS, [], false);
    assert AsciiByte(h, 1, 1, w1, NO_COMPONENTS, space) == ByteEffect(WALK_START, c1, [], false);
    assert AsciiByte(h, 1, 1, WALK_START, c1, two) == ByteEffect(w2, c1, [], false);
    assert AsciiByte(h, 1, 1, w2, c1, space) == ByteEffect(WALK_START, c2, [], false);
    assert AsciiRun(h, b1, 1, 1, 4, WALK_START, c2) == AsciiResult([], c2, true);
    assert AsciiRun(h, b1, 1, 1, 3, w2, c1) == AsciiResult([], c2, true);
    assert AsciiRun(h, b1, 1, 1, 2, WALK_START, c1) == AsciiResult([], c2, true);
    assert AsciiRun(h, b1, 1, 1, 1, w1, NO_COMPONENTS) == AsciiResult([], c2, true);
  }

  /** Starting at blue, "3 " completes the pixel at once and ends the one-pixel image. */
  lemma PixmapWalkResumes()
    ensures AsciiRun(TINY_PIXMAP, ['3' as int, ' ' as int], 1, 1, 0, WALK_START, Components(2, 1, 2, 0))
         == AsciiResult([Draw(0, 0, Opaque(1, 2, 3))], Components(0, 1, 2, 3), true)
  {
    var h := TINY_PIXMAP;
    var three, space := '3' as int, ' ' as int;
    var b2 := [three, space];
    var c2 := Components(2, 1, 2, 0);
    assert ExtractUnsigned([three], MAX_UINT16) == 3 by { DecimalRoundTrip(3, MAX_UINT16); }
    assert ScaleToByte(1, 255) == 1 && ScaleToByte(2, 255) == 2 && ScaleToByte(3, 255) == 3;
    var w3 := Walk(0, 0, [three]);
    var pixel := Draw(0, 0, Opaque(1, 2, 3));
    assert AsciiByte(h, 1, 1, WALK_START, c2, three) == ByteEffect(w3, c2, [], false);
    assert AsciiByte(h, 1, 1, w3, c2, space) == ByteEffect(Walk(0, 1, []), Components(0, 1, 2, 3), [pixel], true);
    assert AsciiRun(h, b2, 1, 1, 1, w3, c2) == AsciiResult([pixel], Components(0, 1, 2, 3), true);
  }

  /**
   * The components persist: a pixmap walk that ends in the middle of a pixel
   * leaves the component index there, and the next walk, for this image or
   * another, starts with that component. Here "1 2 " ends after red and
   * green, and a second walk over "3 " draws the first pixel at once.
   */
  lemma PixmapComponentsCarryOver()
    ensures var first := AsciiRun(TINY_PIXMAP, ['1' as int, ' ' as int, '2' as int, ' ' as int], 1, 1, 0,
                                  WALK_START, NO_COMPONENTS);
      var second := AsciiRun(TINY_PIXMAP, ['3' as int, ' ' as int], 1, 1, 0, WALK_START, first.components);
      && first.draws == [] && first.components.index == 2
      && second.draws == [Draw(0, 0, Opaque(1, 2, 3))]
  {
    PixmapWalkStopsMidPixel();
    PixmapWalkResumes();
  }

  /**
   * Two whitespace bytes in a row make an empty pixmap sample: the component
   * it is for keeps the value it had, and only the component index moves on.
   */
  lemma EmptySampleKeepsComponent(h: PnmHeader, vw: nat, vh: nat, w: Walk, comps: Components, c: uint8)
    requires WellFormed(h) && h.pnmType.PpmAscii? && w.x < h.width && w.y < h.height
    requires w.pending == [] && IsSpace(c) && comps.index <= 2
    ensures var e := AsciiByte(h, vw, vh, w, comps, c);
      && e.components == comps.(index := if comps.index == 2 then 0 else comps.index + 1)
      && (comps.index < 2 ==> e.walk == w && e.drawn == [] && !e.done)
  {
  }

  /** At the green component of a one-pixel pixmap, a lone space keeps green at 9 and moves on to blue. */
  lemma EmptyGreenSample()
    ensures AsciiByte(TINY_PIXMAP, 1, 1, WALK_START, Components(1, 1, 9, 0), ' ' as int)
         == ByteEffect(WALK_START, Components(2, 1, 9, 0), [], false)
  {
  }

  /**
   * A graymap's empty sample, in contrast, is read into a fresh zero and
   * draws black.
   */
  lemma EmptyGraySample(h: PnmHeader, vw: nat, vh: nat, w: Walk, comps: Components, c: uint8)
    requires WellFormed(h) && h.pnmType.PgmAscii? && w.x < h.width && w.y < h.height
    requires w.pending == [] && IsSpace(c) && w.x < vw && w.y < vh
    ensures AsciiByte(h, vw, vh, w, comps, c).drawn == [Draw(w.x, w.y, Gray(0))]
  {
  }
}
