/**
 * The pixel sink every decoder writes into: a texture of RGBA bytes, four per
 * pixel, row after row, `textureWidth` pixels to a row.
 */
module Gfx {
  import opened Bytes

  /** A colour; alpha defaults to fully opaque. */
  datatype RGBA = RGBA(r: uint8, g: uint8, b: uint8, a: uint8)

  /** A colour given by red, green and blue alone: alpha keeps its default, 255. */
  function Opaque(r: uint8, g: uint8, b: uint8): RGBA
  {
    RGBA(r, g, b, 255)
  }

  /** Index of the first of the four bytes of pixel (x, y). */
  function Offset(textureWidth: int, x: int, y: int): int
  {
    (y * textureWidth + x) * 4
  }

  /** The four bytes of pixel (x, y) hold `c`. */
  ghost predicate Painted(s: seq<uint8>, textureWidth: int, x: int, y: int, c: RGBA)
  {
    var o := Offset(textureWidth, x, y);
    0 <= o && o + 3 < |s| && s[o] == c.r && s[o + 1] == c.g && s[o + 2] == c.b && s[o + 3] == c.a
  }

  /** Column and row of the pixel that byte `k` belongs to. */
  function CellX(textureWidth: nat, k: nat): nat
    requires textureWidth > 0
  {
    (k / 4) % textureWidth
  }

  function CellY(textureWidth: nat, k: nat): nat
    requires textureWidth > 0
  {
    (k / 4) / textureWidth
  }

  /** Byte `k` belongs to a pixel of the `w` x `h` rectangle at the origin. */
  ghost predicate InRect(textureWidth: nat, k: nat, w: nat, h: nat)
  {
    textureWidth > 0 && CellX(textureWidth, k) < w && CellY(textureWidth, k) < h
  }

  /**
   * What a caller of the decoders guarantees about the texture: every pixel of
   * the `w` x `h` rectangle has its own four bytes inside it, and byte offsets
   * fit in an `int`.
   */
  predicate SinkFits(len: nat, textureWidth: nat, w: nat, h: nat)
  {
    w <= textureWidth && 4 * textureWidth * h <= len <= 0x8000_0000
  }

  /** Writes `color` into the four bytes of pixel (xPos, yPos); there is no bounds check, so the caller supplies one. */
  method DrawPointAt(pixels: array<uint8>, textureWidth: int, xPos: int, yPos: int, color: RGBA)
    requires 0 <= Offset(textureWidth, xPos, yPos)
    requires Offset(textureWidth, xPos, yPos) + 3 < pixels.Length <= 0x8000_0000
    modifies pixels
    ensures var o := Offset(textureWidth, xPos, yPos);
      pixels[..] == old(pixels[..])[o := color.r][o + 1 := color.g][o + 2 := color.b][o + 3 := color.a]
  {
    var offset := (yPos * textureWidth + xPos) * 4;
    pixels[offset] := color.r;
    pixels[offset + 1] := color.g;
    pixels[offset + 2] := color.b;
    pixels[offset + 3] := color.a;
  }

  /** Every pixel of the rectangle lies inside a texture that fits it. */
  lemma CellInSink(len: nat, textureWidth: nat, w: nat, h: nat, x: nat, y: nat)
    requires SinkFits(len, textureWidth, w, h) && x < w && y < h
    ensures 0 <= Offset(textureWidth, x, y) && Offset(textureWidth, x, y) + 3 < len
  {
    assert y * textureWidth + x < (y + 1) * textureWidth;
    assert (y + 1) * textureWidth <= h * textureWidth;
  }

  /**
   * Drawing pixel (x, y) paints it, keeps every other pixel of a row no wider
   * than the texture, and changes only bytes that belong to (x, y).
   */
  lemma DrawEffect(s0: seq<uint8>, s1: seq<uint8>, textureWidth: nat, x: nat, y: nat, c: RGBA)
    requires x < textureWidth
    requires var o := Offset(textureWidth, x, y);
      o + 3 < |s0| && s1 == s0[o := c.r][o + 1 := c.g][o + 2 := c.b][o + 3 := c.a]
    ensures Painted(s1, textureWidth, x, y, c)
    ensures forall x': nat, y': nat, c': RGBA ::
      x' < textureWidth && (x' != x || y' != y) && Painted(s0, textureWidth, x', y', c')
      ==> Painted(s1, textureWidth, x', y', c')
    ensures forall k | 0 <= k < |s1| && s1[k] != s0[k] ::
      CellX(textureWidth, k) == x && CellY(textureWidth, k) == y
  {
    var p := y * textureWidth + x;
    DivModUnique(p, textureWidth, y, x);
    forall x': nat, y': nat, c': RGBA |
      x' < textureWidth && (x' != x || y' != y) && Painted(s0, textureWidth, x', y', c')
      ensures Painted(s1, textureWidth, x', y', c')
    {
      var p' := y' * textureWidth + x';
      DivModUnique(p', textureWidth, y', x');
      assert p' != p;
    }
    forall k | 0 <= k < |s1| && s1[k] != s0[k]
      ensures CellX(textureWidth, k) == x && CellY(textureWidth, k) == y
    {
      assert k / 4 == p;
    }
  }

  /** Position of pixel (x, y) in row-major order: y * columns + x. */
  function PixelIndex(columns: nat, x: nat, y: nat): nat
  {
    Mul(y, columns) + x
  }

  /** Rows top to bottom, each left to right: (x, y) comes before (xPos, yPos). */
  ghost predicate ScannedBefore(x: nat, y: nat, xPos: nat, yPos: nat)
  {
    y < yPos || (y == yPos && x < xPos)
  }

  /** Pixel (x, y) has a smaller row-major index than (xPos, yPos) exactly when it is scanned first. */
  lemma IndexOrder(columns: nat, x: nat, y: nat, xPos: nat, yPos: nat)
    requires x < columns && xPos < columns
    ensures PixelIndex(columns, x, y) < PixelIndex(columns, xPos, yPos) <==> ScannedBefore(x, y, xPos, yPos)
  {
    if y < yPos {
      MulGrows(y, yPos, columns);
    } else if y > yPos {
      MulGrows(yPos, y, columns);
    }
  }

  /** One call of `DrawPointAt`: a position and the colour written there. */
  datatype Draw = Draw(x: nat, y: nat, color: RGBA)

  /** The bytes after the calls `draws`, in order, on a texture that held `s`; a call outside the texture changes nothing. */
  ghost function Paint(s: seq<uint8>, textureWidth: int, draws: seq<Draw>): (r: seq<uint8>)
    ensures |r| == |s|
  {
    if draws == [] then s
    else
      var t, d := Paint(s, textureWidth, draws[..|draws| - 1]), draws[|draws| - 1];
      var o := Offset(textureWidth, d.x, d.y);
      if 0 <= o && o + 3 < |t| then t[o := d.color.r][o + 1 := d.color.g][o + 2 := d.color.b][o + 3 := d.color.a]
      else t
  }

  /** One call on its own writes the four bytes of its pixel. */
  lemma PaintSingle(s: seq<uint8>, textureWidth: int, d: Draw)
    requires 0 <= Offset(textureWidth, d.x, d.y) && Offset(textureWidth, d.x, d.y) + 3 < |s|
    ensures var o := Offset(textureWidth, d.x, d.y);
      Paint(s, textureWidth, [d]) == s[o := d.color.r][o + 1 := d.color.g][o + 2 := d.color.b][o + 3 := d.color.a]
  {
    assert [d][..0] == [];
  }

  /** Making the calls `d` and then the calls `e` is making the calls `d + e`. */
  lemma {:induction false} PaintAppend(s: seq<uint8>, textureWidth: int, d: seq<Draw>, e: seq<Draw>)
    ensures Paint(s, textureWidth, d + e) == Paint(Paint(s, textureWidth, d), textureWidth, e)
    decreases |e|
  {
    if e == [] {
      assert d + e == d;
    } else {
      var e' := e[..|e| - 1];
      assert (d + e)[..|d + e| - 1] == d + e';
      PaintAppend(s, textureWidth, d, e');
    }
  }

  /**
   * Calls at distinct positions, each inside the `w` x `h` rectangle and made
   * in scan order, leave every drawn pixel with its colour and every byte
   * outside the rectangle as it was.
   */
  lemma {:induction false} PaintShowsDraws(s: seq<uint8>, textureWidth: nat, w: nat, h: nat, draws: seq<Draw>)
    requires SinkFits(|s|, textureWidth, w, h)
    requires forall i | 0 <= i < |draws| :: draws[i].x < w && draws[i].y < h
    requires forall i, j | 0 <= i < j < |draws| :: ScannedBefore(draws[i].x, draws[i].y, draws[j].x, draws[j].y)
    ensures forall i | 0 <= i < |draws| ::
      Painted(Paint(s, textureWidth, draws), textureWidth, draws[i].x, draws[i].y, draws[i].color)
    ensures forall k | 0 <= k < |s| && !InRect(textureWidth, k, w, h) :: Paint(s, textureWidth, draws)[k] == s[k]
  {
    if draws != [] {
      var front, d := draws[..|draws| - 1], draws[|draws| - 1];
      PaintShowsDraws(s, textureWidth, w, h, front);
      var t := Paint(s, textureWidth, front);
      CellInSink(|s|, textureWidth, w, h, d.x, d.y);
      DrawEffect(t, Paint(s, textureWidth, draws), textureWidth, d.x, d.y, d.color);
      forall i | 0 <= i < |front|
        ensures Painted(Paint(s, textureWidth, draws), textureWidth, front[i].x, front[i].y, front[i].color)
      {
        assert ScannedBefore(front[i].x, front[i].y, d.x, d.y);
      }
    }
  }
}
