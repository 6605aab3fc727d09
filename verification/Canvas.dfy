/**
 The off-screen pixel buffer. Pixel k of a buffer of width w sits in column
 k % w and row k / w; every operation is specified pixel by pixel in those terms.
 */
module Canvases {
  import opened Arithmetic

  type Color = int

  /** The buffer with every pixel of a rectangle painted; what lies outside the buffer is clipped. */
  function Filled(px: seq<Color>, w: nat, x0: int, y0: int, fw: int, fh: int, color: Color): (r: seq<Color>)
    requires w > 0
    ensures |r| == |px|
  {
    seq(|px|, k requires 0 <= k < |px| =>
      if x0 <= k % w < x0 + fw && y0 <= k / w < y0 + fh then color else px[k])
  }

  lemma FillGrowsByCell(px: seq<Color>, w: nat, x0: int, y0: int, n: nat, color: Color)
    requires w > 0
    ensures Filled(Filled(px, w, x0, y0, n, 1, color), w, x0 + n, y0, 1, 1, color) == Filled(px, w, x0, y0, n + 1, 1, color)
  {}

  lemma FillGrowsByRow(px: seq<Color>, w: nat, x0: int, y0: int, fw: int, n: nat, color: Color)
    requires w > 0
    ensures Filled(Filled(px, w, x0, y0, fw, n, color), w, x0, y0 + n, fw, 1, color) == Filled(px, w, x0, y0, fw, n + 1, color)
  {}

  lemma FillNothing(px: seq<Color>, w: nat, x0: int, y0: int, fw: int, fh: int, color: Color)
    requires w > 0 && (fw <= 0 || fh <= 0)
    ensures Filled(px, w, x0, y0, fw, fh, color) == px
  {}

  lemma PixelIndex(k: int, w: int, x: int, y: int)
    requires 0 <= x < w
    ensures k % w == x && k / w == y <==> k == y * w + x
  {
    Quotient(y * w + x, w, y, x);
  }

  lemma RowBelow(k: int, w: int, h: int)
    requires w > 0 && 0 <= k < w * h
    ensures k / w < h
  {}

  lemma InsideBuffer(w: int, h: int, x: int, y: int)
    requires 0 <= x < w && 0 <= y < h
    ensures 0 <= y * w + x < w * h
  {
    assert y * w <= (h - 1) * w;
  }

  lemma FillPixelInside(px: seq<Color>, w: nat, h: nat, x: nat, y: nat, color: Color)
    requires |px| == w * h && x < w && y < h
    ensures y * w + x < |px| && Filled(px, w, x, y, 1, 1, color) == px[y * w + x := color]
  {
    InsideBuffer(w, h, x, y);
    var r := Filled(px, w, x, y, 1, 1, color);
    forall k | 0 <= k < |px|
      ensures r[k] == px[y * w + x := color][k]
    {
      PixelIndex(k, w, x, y);
    }
  }

  lemma FillPixelOutside(px: seq<Color>, w: nat, h: nat, x: nat, y: nat, color: Color)
    requires w > 0 && |px| == w * h && !(x < w && y < h)
    ensures Filled(px, w, x, y, 1, 1, color) == px
  {
    var r := Filled(px, w, x, y, 1, 1, color);
    forall k | 0 <= k < |px|
      ensures r[k] == px[k]
    {
      RowBelow(k, w, h);
    }
  }

  /** The buffer moved up by `n` pixels, with `bg` coming in at the end. */
  function Scrolled(px: seq<Color>, n: nat, bg: Color): (r: seq<Color>)
    ensures |r| == |px|
    ensures forall k | 0 <= k < |px| :: r[k] == if k + n < |px| then px[k + n] else bg
  {
    if n >= |px| then seq(|px|, _ => bg) else px[n..] + seq(n, _ => bg)
  }

  /** Pixel (x, y) after a rectangle of fw columns and fh rows has been painted at (x0, y0). */
  lemma FilledPixel(px: seq<Color>, w: nat, h: nat, x0: int, y0: int, fw: int, fh: int, color: Color, x: nat, y: nat)
    requires |px| == w * h && x < w && y < h
    ensures y * w + x < |px|
    ensures Filled(px, w, x0, y0, fw, fh, color)[y * w + x] ==
            if x0 <= x < x0 + fw && y0 <= y < y0 + fh then color else px[y * w + x]
  {
    InsideBuffer(w, h, x, y);
    PixelIndex(y * w + x, w, x, y);
  }

  /** Pixel (x, y) after the buffer has moved up by `rows` rows. */
  lemma ScrolledPixel(px: seq<Color>, w: nat, h: nat, rows: nat, bg: Color, x: nat, y: nat)
    requires |px| == w * h && x < w && y < h
    ensures y * w + x < |px| && (y + rows < h ==> (y + rows) * w + x < |px|)
    ensures Scrolled(px, rows * w, bg)[y * w + x] == if y + rows < h then px[(y + rows) * w + x] else bg
  {
    InsideBuffer(w, h, x, y);
    if y + rows < h {
      InsideBuffer(w, h, x, y + rows);
    } else {
      Product(y + rows - h, w);
      assert (y + rows - h) * w == y * w + rows * w - w * h;
    }
    assert (y + rows) * w == y * w + rows * w;
    hide Scrolled;
  }

  /** `copy_within(from.., 0)`: the tail moves to the front, in place. */
  method CopyToFront(a: array<Color>, from: nat)
    requires from <= a.Length
    modifies a
    ensures forall i | 0 <= i < a.Length - from :: a[i] == old(a[i + from])
  {
    for k := 0 to a.Length - from
      invariant forall i | 0 <= i < k :: a[i] == old(a[i + from])
      invariant forall i | k <= i < a.Length :: a[i] == old(a[i])
    {
      a[k] := a[k + from];
    }
  }

  /** `a[from..].fill(bg)` */
  method Fill(a: array<Color>, from: nat, bg: Color)
    requires from <= a.Length
    modifies a
    ensures forall i | 0 <= i < from :: a[i] == old(a[i])
    ensures forall i | from <= i < a.Length :: a[i] == bg
  {
    for k := from to a.Length
      invariant forall i | 0 <= i < from :: a[i] == old(a[i])
      invariant forall i | from <= i < k :: a[i] == bg
    {
      a[k] := bg;
    }
  }

  class Canvas {
    const x: nat
    const y: nat
    const width: nat
    const height: nat
    const pixels: array<Color>

    ghost predicate Valid() { width > 0 && pixels.Length == width * height }

    constructor (x: nat, y: nat, width: nat, height: nat, bg: Color)
      requires width > 0
      ensures Valid() && fresh(pixels)
      ensures this.x == x && this.y == y && this.width == width && this.height == height
      ensures forall k | 0 <= k < pixels.Length :: pixels[k] == bg
    {
      this.x, this.y, this.width, this.height := x, y, width, height;
      pixels := new Color[width * height](_ => bg);
    }

    method DrawPixel(px: nat, py: nat, color: Color)
      requires Valid()
      modifies pixels
      ensures pixels[..] == Filled(old(pixels[..]), width, px, py, 1, 1, color)
    {
      if px < width && py < height {
        FillPixelInside(pixels[..], width, height, px, py, color);
        pixels[py * width + px] := color;
      } else {
        FillPixelOutside(pixels[..], width, height, px, py, color);
      }
    }

    method FillRect(startX: nat, startY: nat, w: nat, h: nat, color: Color)
      requires Valid()
      modifies pixels
      ensures pixels[..] == Filled(old(pixels[..]), width, startX, startY, w, h, color)
    {
      ghost var p := pixels[..];
      FillNothing(p, width, startX, startY, w, 0, color);
      for cy := startY to startY + h
        invariant pixels[..] == Filled(p, width, startX, startY, w, cy - startY, color)
      {
        ghost var q := pixels[..];
        FillNothing(q, width, startX, cy, 0, 1, color);
        for cx := startX to startX + w
          invariant pixels[..] == Filled(q, width, startX, cy, cx - startX, 1, color)
        {
          DrawPixel(cx, cy, color);
          FillGrowsByCell(q, width, startX, cy, cx - startX, color);
        }
        FillGrowsByRow(p, width, startX, startY, w, cy - startY, color);
      }
    }

    method ScrollUp(shiftY: nat, bg: Color)
      requires Valid()
      modifies pixels
      ensures pixels[..] == Scrolled(old(pixels[..]), shiftY * width, bg)
    {
      var shift := shiftY * width;
      if shift >= pixels.Length {
        Fill(pixels, 0, bg);
        return;
      }
      CopyToFront(pixels, shift);
      Fill(pixels, pixels.Length - shift, bg);
    }
  }
}
