/**
 * The start of the viewer: which file to show, which decoder reads it
 * (chosen by the lower-cased file-name extension) and whether the file
 * opens. Everything after a successful open (the window, the event loop)
 * is outside this module.
 */
module Launcher {
  import opened Bytes
  import opened Outcome
  import BmpFormat
  import BmpDecoder
  import GifFormat
  import GifDecoder
  import PnmFormat
  import PnmDecoder

  datatype DecoderKind = Bmp | Pnm | Gif | Svg

  /** How the start ends: an exit code, or a decoder with an opened image and the testing-mode flag. */
  datatype Launch = Exit(code: int) | Show(kind: DecoderKind, testing: bool)

  /** The logo shown when no file is named, relative to the executable's directory. */
  const LOGO_PATH: string := "/../img/icon.bmp"

  /** `strcmp` is nonzero when the strings differ, so the flag is on for anything but "--test". */
  predicate TestingMode(argv: seq<string>)
  {
    |argv| > 2 && argv[1] != "--test"
  }

  /** The file to open: the first argument, or the logo next to the executable (none when its directory is unknown). */
  function FilePath(argv: seq<string>, exeParentDir: string): Option<string>
  {
    if |argv| >= 2 then Some(argv[1])
    else if exeParentDir != [] then Some(exeParentDir + LOGO_PATH)
    else None
  }

  /** The position of the last '.' in `path`, if there is one. */
  function LastDot(path: string): (r: Option<nat>)
    ensures r.Some? ==> r.value < |path| && path[r.value] == '.'
    ensures r.Some? ==> forall k | r.value < k < |path| :: path[k] != '.'
    ensures r.None? ==> forall k | 0 <= k < |path| :: path[k] != '.'
  {
    if |path| == 0 then None
    else if path[|path| - 1] == '.' then Some(|path| - 1)
    else LastDot(path[..|path| - 1])
  }

  /**
   * The text after the last '.'; with no '.' the search yields npos, and
   * npos + 1 wraps to 0, so the whole path is the extension.
   */
  function Extension(path: string): (ext: string)
    ensures |ext| <= |path| && ext == path[|path| - |ext|..]
    ensures forall k | 0 <= k < |ext| :: ext[k] != '.'
    ensures |ext| < |path| ==> path[|path| - |ext| - 1] == '.'
    ensures |ext| == |path| ==> forall k | 0 <= k < |path| :: path[k] != '.'
  {
    match LastDot(path)
    case None => path
    case Some(i) => path[i + 1..]
  }

  /** `tolower` in the C locale: only 'A'..'Z' change. */
  function LowerChar(c: char): char
  {
    if 'A' <= c <= 'Z' then (c as int + 32) as char else c
  }

  /** Every character lowered. */
  function Lower(s: string): (r: string)
    ensures |r| == |s| && forall k | 0 <= k < |s| :: r[k] == LowerChar(s[k])
  {
    if s == [] then [] else Lower(s[..|s| - 1]) + [LowerChar(s[|s| - 1])]
  }

  /** The decoder for a lower-cased extension; any other extension has none. */
  function Dispatch(ext: string): Option<DecoderKind>
  {
    if ext == "bmp" then Some(Bmp)
    else if ext == "pnm" || ext == "pbm" || ext == "pgm" || ext == "ppm" then Some(Pnm)
    else if ext == "gif" then Some(Gif)
    else if ext == "svg" then Some(Svg)
    else None
  }

  /** The decoder for a path: its extension, lowered, dispatched. */
  function SelectDecoder(path: string): Option<DecoderKind>
  {
    Dispatch(Lower(Extension(path)))
  }

  /** Whether the chosen decoder opens `file`; the SVG reader is not modelled, so its status is given. */
  predicate Opens(kind: DecoderKind, file: seq<uint8>, svgStatus: int)
  {
    match kind
    case Bmp => BmpFormat.ParseBmp(file).Ok?
    case Pnm => PnmFormat.ParsePnm(file).Ok?
    case Gif => GifFormat.ParseGif(file).Opened?
    case Svg => svgStatus == 0
  }

  /** The status an unsuccessful open returns. */
  function FailureStatus(kind: DecoderKind, svgStatus: int): int
  {
    if kind == Svg then svgStatus else 1
  }

  // ---------------------------------------------------------------------
  // Properties of the choice.
  // ---------------------------------------------------------------------

  /** Every extension with a decoder is lower case, so an upper-case one is matched only once lowered. */
  lemma DispatchLowerCase(ext: string)
    ensures Dispatch(ext).Some? ==> |ext| == 3 && Lower(ext) == ext
  {
    if Dispatch(ext).Some? {
      assert forall k | 0 <= k < |ext| :: 'a' <= ext[k] <= 'z';
    }
  }

  /** Lowering keeps every '.' where it is. */
  lemma {:induction false} LastDotLower(s: string)
    ensures LastDot(Lower(s)) == LastDot(s)
    decreases |s|
  {
    if s != [] {
      var front := s[..|s| - 1];
      assert Lower(s)[..|s| - 1] == Lower(front);
      LastDotLower(front);
    }
  }

  /** The extension of the lowered path is the lowered extension. */
  lemma ExtensionLower(path: string)
    ensures Extension(Lower(path)) == Lower(Extension(path))
  {
    LastDotLower(path);
  }

  /** The choice ignores case: paths that agree once lowered get the same decoder. */
  lemma CaseInsensitive(p: string, q: string)
    requires Lower(p) == Lower(q)
    ensures SelectDecoder(p) == SelectDecoder(q)
  {
    ExtensionLower(p);
    ExtensionLower(q);
  }

  /** Only the text after the last '.' counts: whatever comes before it, the choice is the same. */
  lemma LastSegmentDecides(path: string, dot: nat)
    requires dot < |path| && path[dot] == '.'
    requires forall k | dot < k < |path| :: path[k] != '.'
    ensures Extension(path) == path[dot + 1..]
    ensures SelectDecoder(path) == Dispatch(Lower(path[dot + 1..]))
  {
    var r := LastDot(path);
    assert r == Some(dot);
  }

  // ---------------------------------------------------------------------
  // The start.
  // ---------------------------------------------------------------------

  /** `std::transform` with `tolower`, writing back into the same characters. */
  method LowerInPlace(a: array<char>)
    modifies a
    ensures a[..] == Lower(old(a[..]))
  {
    var i := 0;
    while i < a.Length
      invariant 0 <= i <= a.Length
      invariant forall k | 0 <= k < i :: a[k] == LowerChar(old(a[k]))
      invariant forall k | i <= k < a.Length :: a[k] == old(a[k])
    {
      a[i] := LowerChar(a[i]);
      i := i + 1;
    }
  }

  /** The extension of `path`, lowered in a character buffer of its own. */
  method LoweredExtension(path: string) returns (ext: string)
    ensures ext == Lower(Extension(path))
  {
    var start := 0;
    var dot := LastDot(path);
    if dot.Some? {
      start := dot.value + 1;
    }
    var raw := path[start..];
    var a := new char[|raw|](k => if 0 <= k < |raw| then raw[k] else ' ');
    assert a[..] == raw;
    LowerInPlace(a);
    ext := a[..];
  }

  /**
   * Picks the file, chooses the decoder by extension and opens the file
   * with it. `file` is what the file system holds at the chosen path;
   * `svgStatus` is what the SVG reader's open returns.
   */
  method Start(argv: seq<string>, exeParentDir: string, file: seq<uint8>, svgStatus: int) returns (launch: Launch)
    requires FilePath(argv, exeParentDir).Some? && SelectDecoder(FilePath(argv, exeParentDir).value) == Some(Gif)
             ==> !GifFormat.ParseGif(file).Diverges?
    ensures FilePath(argv, exeParentDir).None? ==> launch == Exit(1)
    ensures FilePath(argv, exeParentDir).Some? && SelectDecoder(FilePath(argv, exeParentDir).value).None?
            ==> launch == Exit(1)
    ensures launch.Show? <==>
            && FilePath(argv, exeParentDir).Some?
            && SelectDecoder(FilePath(argv, exeParentDir).value).Some?
            && Opens(SelectDecoder(FilePath(argv, exeParentDir).value).value, file, svgStatus)
    ensures launch.Show? ==> launch.kind == SelectDecoder(FilePath(argv, exeParentDir).value).value
    ensures launch.Show? ==> (launch.testing <==> |argv| > 2 && argv[1] != "--test")
    ensures launch.Exit? && FilePath(argv, exeParentDir).Some? && SelectDecoder(FilePath(argv, exeParentDir).value).Some?
            ==> launch.code == FailureStatus(SelectDecoder(FilePath(argv, exeParentDir).value).value, svgStatus)
  {
    var testing := TestingMode(argv);
    var path: string;
    if |argv| < 2 {
      if exeParentDir != [] {
        path := exeParentDir + LOGO_PATH;
      } else {
        return Exit(1);
      }
    } else {
      path := argv[1];
    }
    var ext := LoweredExtension(path);
    var kind: DecoderKind;
    if ext == "bmp" {
      kind := Bmp;
    } else if ext == "pnm" || ext == "pbm" || ext == "pgm" || ext == "ppm" {
      kind := Pnm;
    } else if ext == "gif" {
      kind := Gif;
    } else if ext == "svg" {
      kind := Svg;
    } else {
      return Exit(1);
    }
    var status: int;
    match kind {
      case Bmp =>
        var image := new BmpDecoder.BmpImage();
        status := image.Open(file);
      case Pnm =>
        var image := new PnmDecoder.PnmImage();
        status := image.Open(file);
      case Gif =>
        var image := new GifDecoder.GifImage();
        status := image.Open(file);
      case Svg =>
        status := svgStatus;
    }
    if status != 0 {
      return Exit(status);
    }
    return Show(kind, testing);
  }
}
