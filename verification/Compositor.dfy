/** The terminal as it runs: the layer, its cursor, and the framebuffer it is copied to. */
module Compositors {
  import opened Arithmetic
  import opened Canvases
  import opened Terminals

  // ---------- one glyph, cell by cell ----------

  /** A glyph of which the first `n` of its 64 cells, row by row, have been looked at. */
  function PartlyStamped(font: Font, px: seq<Color>, w: nat, s: Stamp, n: nat): (r: seq<Color>)
    requires w > 0
    ensures |r| == |px|
  {
    seq(|px|, k requires 0 <= k < |px| =>
      if Inks(font, s, k % w, k / w) && 8 * ((k / w - s.y) / 3) + (k % w - s.x) / 3 < n then s.color else px[k])
  }

  lemma CellRange(a: int, b: int, row: nat, col: nat)
    requires row < 8 && col < 8
    ensures 0 <= a < 24 && 0 <= b < 24 && 8 * (b / 3) + a / 3 == 8 * row + col
            <==> 3 * col <= a < 3 * col + 3 && 3 * row <= b < 3 * row + 3
  {
    if 0 <= a < 24 && 0 <= b < 24 { assert 0 <= a / 3 < 8 && 0 <= b / 3 < 8; }
  }

  lemma NextCell(font: Font, px: seq<Color>, w: nat, s: Stamp, row: nat, col: nat)
    requires w > 0 && row < 8 && col < 8
    ensures var before, after := PartlyStamped(font, px, w, s, 8 * row + col), PartlyStamped(font, px, w, s, 8 * row + col + 1);
            after == if font(Upper(s.c), row, col) then Filled(before, w, s.x + 3 * col, s.y + 3 * row, 3, 3, s.color) else before
  {
    var before, after := PartlyStamped(font, px, w, s, 8 * row + col), PartlyStamped(font, px, w, s, 8 * row + col + 1);
    var painted := if font(Upper(s.c), row, col) then Filled(before, w, s.x + 3 * col, s.y + 3 * row, 3, 3, s.color) else before;
    forall k | 0 <= k < |px|
      ensures after[k] == painted[k]
    {
      CellRange(k % w - s.x, k / w - s.y, row, col);
    }
  }

  lemma AllCells(font: Font, px: seq<Color>, w: nat, s: Stamp)
    requires w > 0
    ensures PartlyStamped(font, px, w, s, 0) == px
    ensures PartlyStamped(font, px, w, s, 64) == Stamped(font, px, w, s)
  {
    forall k | 0 <= k < |px|
      ensures PartlyStamped(font, px, w, s, 0)[k] == px[k]
      ensures PartlyStamped(font, px, w, s, 64)[k] == Stamped(font, px, w, s)[k]
    {
      CellNumber(k % w - s.x, k / w - s.y);
    }
  }

  lemma CellNumber(a: int, b: int)
    ensures 0 <= a < 24 && 0 <= b < 24 ==> 0 <= 8 * (b / 3) + a / 3 < 64
  {}

  // ---------- copying the layer to the screen ----------

  /** Where a row of a layer `w` pixels wide starts in its buffer, and on the screen when the layer is at (x, y). */
  function RowStart(w: nat, row: nat): (o: nat) { row * w }

  function Offset(x: nat, y: nat, stride: nat, row: nat): (o: nat) { (y + row) * stride + x }

  /** A row of `w` pixels exists in the layer and has room on the screen. */
  predicate FitsRow(fb: nat, px: nat, x: nat, y: nat, w: nat, stride: nat, row: nat) {
    RowStart(w, row) + w <= px && Offset(x, y, stride, row) + w <= fb
  }

  predicate Fits(fb: nat, px: nat, x: nat, y: nat, w: nat, stride: nat, n: nat) {
    forall row | 0 <= row < n :: FitsRow(fb, px, x, y, w, stride, row)
  }

  /** The framebuffer after the first `n` rows have been copied. */
  function Blitted(fb: seq<Color>, px: seq<Color>, x: nat, y: nat, w: nat, stride: nat, n: nat): (r: seq<Color>)
    requires Fits(|fb|, |px|, x, y, w, stride, n)
    ensures |r| == |fb|
  {
    if n == 0 then fb
    else
      var r := Blitted(fb, px, x, y, w, stride, n - 1);
      assert FitsRow(|fb|, |px|, x, y, w, stride, n - 1);
      WithRow(r, px, RowStart(w, n - 1), Offset(x, y, stride, n - 1), w)
  }

  function WithRow(fb: seq<Color>, px: seq<Color>, from: nat, to: nat, w: nat): (r: seq<Color>)
    requires from + w <= |px| && to + w <= |fb|
    ensures |r| == |fb|
    ensures forall j | 0 <= j < |fb| :: r[j] == if to <= j < to + w then px[from + j - to] else fb[j]
  {
    fb[..to] + px[from..from + w] + fb[to + w..]
  }

  lemma RowsApart(x: nat, y: nat, w: nat, stride: nat, row: nat, later: nat)
    requires x + w <= stride && row < later
    ensures Offset(x, y, stride, row) + w <= Offset(x, y, stride, later)
  {
    MulStep(y + row, y + later, stride);
  }

  /** When the rows do not run into one another, the screen shows the layer's pixels. */
  lemma {:induction false} BlittedPixel(fb: seq<Color>, px: seq<Color>, x: nat, y: nat, w: nat, stride: nat, n: nat, cx: nat, row: nat)
    requires Fits(|fb|, |px|, x, y, w, stride, n)
    requires x + w <= stride && cx < w && row < n
    ensures RowStart(w, row) + cx < |px| && Offset(x, y, stride, row) + cx < |fb|
    ensures Blitted(fb, px, x, y, w, stride, n)[Offset(x, y, stride, row) + cx] == px[RowStart(w, row) + cx]
  {
    hide Offset, RowStart;
    assert FitsRow(|fb|, |px|, x, y, w, stride, row);
    assert FitsRow(|fb|, |px|, x, y, w, stride, n - 1);
    if row < n - 1 {
      BlittedPixel(fb, px, x, y, w, stride, n - 1, cx, row);
      RowsApart(x, y, w, stride, row, n - 1);
    }
  }

  predicate Covers(x: nat, y: nat, w: nat, stride: nat, row: nat, j: int) {
    Offset(x, y, stride, row) <= j < Offset(x, y, stride, row) + w
  }

  /** Pixels of the screen that no row covers stay as they are. */
  lemma {:induction false} BlittedElsewhere(fb: seq<Color>, px: seq<Color>, x: nat, y: nat, w: nat, stride: nat, n: nat, j: nat)
    requires Fits(|fb|, |px|, x, y, w, stride, n) && j < |fb|
    requires forall row | 0 <= row < n :: !Covers(x, y, w, stride, row, j)
    ensures Blitted(fb, px, x, y, w, stride, n)[j] == fb[j]
  {
    hide Offset;
    if n > 0 {
      BlittedElsewhere(fb, px, x, y, w, stride, n - 1, j);
      assert FitsRow(|fb|, |px|, x, y, w, stride, n - 1);
      assert !Covers(x, y, w, stride, n - 1, j);
    }
  }

  /** The screen pixel in row q and column c lies in row `row` of the layer exactly if that is row y + row of the screen. */
  lemma RowOnScreen(x: nat, y: nat, w: nat, stride: nat, row: nat, j: nat, q: nat, c: nat)
    requires x + w <= stride && j == stride * q + c && c < stride
    ensures Covers(x, y, w, stride, row, j) <==> q == y + row && x <= c < x + w
    ensures q == y + row ==> j == Offset(x, y, stride, row) + (c - x)
  {
    Quotient(j, stride, q, c);
    var at := (y + row) * stride;
    if at + x <= j < at + x + w { Quotient(j, stride, y + row, j - at); }
  }

  /** Pixel (c, q) of the screen after a blit. */
  lemma BlittedAt(fb: seq<Color>, px: seq<Color>, x: nat, y: nat, w: nat, stride: nat, n: nat, j: nat, q: nat, c: nat)
    requires Fits(|fb|, |px|, x, y, w, stride, n) && x + w <= stride && j < |fb|
    requires j == stride * q + c && c < stride
    ensures y <= q < y + n && x <= c < x + w ==>
              RowStart(w, q - y) + (c - x) < |px| && Blitted(fb, px, x, y, w, stride, n)[j] == px[RowStart(w, q - y) + (c - x)]
    ensures !(y <= q < y + n && x <= c < x + w) ==> Blitted(fb, px, x, y, w, stride, n)[j] == fb[j]
  {
    hide Offset, Blitted, RowStart, Covers, Fits;
    if y <= q < y + n && x <= c < x + w {
      RowOnScreen(x, y, w, stride, q - y, j, q, c);
      BlittedPixel(fb, px, x, y, w, stride, n, c - x, q - y);
    } else {
      forall r | 0 <= r < n ensures !Covers(x, y, w, stride, r, j) { RowOnScreen(x, y, w, stride, r, j, q, c); }
      BlittedElsewhere(fb, px, x, y, w, stride, n, j);
    }
  }

  /** How many of the `h` rows of a layer at row `y` a screen of `height` rows has. */
  function VisibleRows(y: nat, h: nat, height: nat): nat {
    if y >= height then 0 else if y + h > height then height - y else h
  }

  /**
   A screen `height` rows high with a layer of w x h pixels at (x, y): the pixel in row j / stride and
   column j % stride is the layer's if it lies in both, and what it was before if not.
   */
  ghost predicate ShowsLayer(
      now: seq<Color>, before: seq<Color>, px: seq<Color>, x: nat, y: nat, w: nat, h: nat, stride: nat, height: nat)
    requires stride > 0 && |now| == |before|
  {
    forall j: nat | j < |now| :: ShowsLayerAt(now, before, px, x, y, w, h, stride, height, j)
  }

  ghost predicate ShowsLayerAt(
      now: seq<Color>, before: seq<Color>, px: seq<Color>, x: nat, y: nat, w: nat, h: nat, stride: nat, height: nat, j: nat)
    requires stride > 0 && j < |now| == |before|
  {
    var row, col := j / stride - y, j % stride - x;
    if 0 <= row < h && j / stride < height && 0 <= col < w
    then 0 <= row * w + col < |px| && now[j] == px[row * w + col]
    else now[j] == before[j]
  }

  lemma BlitShowsPixel(fb: seq<Color>, px: seq<Color>, x: nat, y: nat, w: nat, h: nat, stride: nat, height: nat, n: nat, j: nat)
    requires Fits(|fb|, |px|, x, y, w, stride, n) && x + w <= stride && w > 0 && j < |fb|
    requires n == VisibleRows(y, h, height)
    ensures ShowsLayerAt(Blitted(fb, px, x, y, w, stride, n), fb, px, x, y, w, h, stride, height, j)
  {
    hide Blitted, Fits;
    RowNumber(j, stride);
    BlittedAt(fb, px, x, y, w, stride, n, j, j / stride, j % stride);
  }

  lemma RowNumber(j: nat, stride: nat)
    requires stride > 0
    ensures j / stride >= 0 && j == stride * (j / stride) + j % stride
  {}

  lemma BlitShowsLayer(fb: seq<Color>, px: seq<Color>, x: nat, y: nat, w: nat, h: nat, stride: nat, height: nat, n: nat)
    requires Fits(|fb|, |px|, x, y, w, stride, n) && x + w <= stride && w > 0
    requires n == VisibleRows(y, h, height)
    ensures ShowsLayer(Blitted(fb, px, x, y, w, stride, n), fb, px, x, y, w, h, stride, height)
  {
    hide Blitted, ShowsLayerAt, Fits;
    forall j: nat | j < |fb|
      ensures ShowsLayerAt(Blitted(fb, px, x, y, w, stride, n), fb, px, x, y, w, h, stride, height, j)
    {
      BlitShowsPixel(fb, px, x, y, w, h, stride, height, n, j);
    }
  }

  // ---------- the running terminal ----------

  function Colored(text: seq<char>, color: Color): (ts: seq<Typed>)
    ensures |ts| == |text|
  {
    seq(|text|, i requires 0 <= i < |text| => Typed(text[i], color))
  }

  class Compositor {
    const framebuffer: array<Color>
    const width: nat
    const height: nat
    const stride: nat
    const layer: Canvas
    const font: Font
    var termX: nat
    var termY: nat
    ghost var typed: seq<Typed>  // everything printed so far

    /** The layer and cursor are where printing `typed` on a blank layer leads. */
    ghost predicate Valid()
      reads this, layer.pixels
    {
      && layer.Valid()
      && layer.pixels != framebuffer
      && View() == PutAll(font, layer.width, layer.height, typed)
    }

    ghost function View(): Screen
      reads this, layer.pixels
    {
      Screen(layer.pixels[..], termX, termY)
    }

    ghost predicate OnScreen(canvas: Canvas) {
      canvas.Valid() && Fits(framebuffer.Length, canvas.pixels.Length, canvas.x, canvas.y, canvas.width, stride, Visible(canvas))
    }

    function Visible(canvas: Canvas): nat {
      VisibleRows(canvas.y, canvas.height, height)
    }

    lemma LayerOnScreen()
      requires layer.Valid() && layer.x == 0 && layer.y == 40 && layer.width <= stride
      requires height >= 40 && layer.height == height - 40 && height * stride <= framebuffer.Length
      ensures OnScreen(layer)
    {
      forall row | 0 <= row < Visible(layer)
        ensures FitsRow(framebuffer.Length, layer.pixels.Length, 0, 40, layer.width, stride, row)
      {
        MulStep(row, layer.height, layer.width);
        MulStep(40 + row, height, stride);
      }
    }

    constructor (framebuffer: array<Color>, width: nat, height: nat, stride: nat, font: Font)
      requires width > 0 && height >= 40 && width <= stride && height * stride <= framebuffer.Length
      ensures Valid() && typed == [] && fresh(layer) && fresh(layer.pixels) && OnScreen(layer)
      ensures this.framebuffer == framebuffer && this.width == width && this.height == height && this.stride == stride
      ensures this.font == font && layer.x == 0 && layer.y == 40 && layer.width == width && layer.height == height - 40
    {
      this.framebuffer, this.width, this.height, this.stride, this.font := framebuffer, width, height, stride, font;
      termX, termY := 20, 20;
      typed := [];
      var canvas := new Canvas(0, 40, width, height - 40, WHITE);
      layer := canvas;
      new;
      assert layer.pixels[..] == seq(width * (height - 40), _ => WHITE);
      LayerOnScreen();
    }

    method BlitCanvas(canvas: Canvas)
      requires OnScreen(canvas) && canvas.pixels != framebuffer
      modifies framebuffer
      ensures framebuffer[..] ==
              Blitted(old(framebuffer[..]), canvas.pixels[..], canvas.x, canvas.y, canvas.width, stride, Visible(canvas))
      ensures canvas.x + canvas.width <= stride ==>
                ShowsLayer(framebuffer[..], old(framebuffer[..]), canvas.pixels[..], canvas.x, canvas.y, canvas.width, canvas.height, stride, height)
    {
      CopyRows(canvas);
      hide Blitted, ShowsLayer, Fits;
      if canvas.x + canvas.width <= stride {
        BlitShowsLayer(old(framebuffer[..]), canvas.pixels[..], canvas.x, canvas.y, canvas.width, canvas.height, stride, height, Visible(canvas));
      }
    }

    method CopyRows(canvas: Canvas)
      requires OnScreen(canvas) && canvas.pixels != framebuffer
      modifies framebuffer
      ensures framebuffer[..] ==
              Blitted(old(framebuffer[..]), canvas.pixels[..], canvas.x, canvas.y, canvas.width, stride, Visible(canvas))
    {
      hide Offset, RowStart, Canvas.Valid;
      ghost var fb, px := framebuffer[..], canvas.pixels[..];
      var cy := 0;
      while cy < canvas.height
        invariant 0 <= cy <= Visible(canvas)
        invariant canvas.pixels[..] == px
        invariant Fits(|fb|, |px|, canvas.x, canvas.y, canvas.width, stride, cy)
        invariant framebuffer[..] == Blitted(fb, px, canvas.x, canvas.y, canvas.width, stride, cy)
      {
        var screenY := canvas.y + cy;
        if screenY >= height { break; }
        assert FitsRow(|fb|, |px|, canvas.x, canvas.y, canvas.width, stride, cy);
        CopyRow(canvas.pixels, RowStart(canvas.width, cy), framebuffer, Offset(canvas.x, canvas.y, stride, cy), canvas.width);
        cy := cy + 1;
      }
    }

    method DrawGlyph(c: char, color: Color)
      requires layer.Valid()
      modifies layer.pixels
      ensures layer.pixels[..] == Stamped(font, old(layer.pixels[..]), layer.width, Stamp(c, termX, termY, color))
    {
      hide PartlyStamped, Stamped, Filled;
      ghost var px, s := layer.pixels[..], Stamp(c, termX, termY, color);
      AllCells(font, px, layer.width, s);
      for row := 0 to 8
        invariant layer.pixels[..] == PartlyStamped(font, px, layer.width, s, 8 * row)
      {
        for col := 0 to 8
          invariant layer.pixels[..] == PartlyStamped(font, px, layer.width, s, 8 * row + col)
        {
          NextCell(font, px, layer.width, s, row, col);
          if font(Upper(c), row, col) {
            layer.FillRect(termX + col * 3, termY + row * 3, 3, 3, color);
          }
        }
      }
    }

    method NewLine()
      requires layer.Valid()
      modifies this`termX, this`termY, layer.pixels
      ensures View() == LineFeed(layer.width, layer.height, old(View()))
    {
      termX := 20;
      termY := termY + 30;
      if termY + 30 > layer.height {
        layer.ScrollUp(30, WHITE);
        termY := termY - 30;
      }
    }

    /**
     One character. The margin test of a glyph subtracts 40 from an unsigned width: on a narrower
     layer the kernel panics there, with the glyph drawn and the cursor moved.
     */
    method PutChar(c: char, color: Color) returns (panicked: bool)
      requires layer.Valid()
      modifies this`termX, this`termY, layer.pixels
      ensures panicked <==> c != '\n' && layer.width < 40
      ensures View() ==
              if panicked then Glyph(font, layer.width, old(View()), Typed(c, color))
              else Put(font, layer.width, layer.height, old(View()), Typed(c, color))
    {
      if c == '\n' {
        NewLine();
        return false;
      }
      DrawGlyph(c, color);
      termX := termX + 24 + 6;
      if layer.width < 40 { return true; }
      if termX > layer.width - 40 { NewLine(); }
      return false;
    }

    /** Prints on the layer and copies the layer to the screen, unless a glyph meets a layer too narrow for the margin. */
    method TerminalPrint(text: seq<char>, color: Color) returns (panicked: bool)
      requires Valid() && OnScreen(layer)
      modifies this`termX, this`termY, this`typed, layer.pixels, framebuffer
      ensures panicked <==> layer.width < 40 && exists i :: 0 <= i < |text| && text[i] != '\n'
      ensures panicked ==> framebuffer[..] == old(framebuffer[..])
      ensures !panicked ==> Valid() && |typed| == |old(typed)| + |text| && old(typed) <= typed
      ensures !panicked ==> forall i | 0 <= i < |text| :: typed[|old(typed)| + i] == Typed(text[i], color)
      ensures panicked ||
              framebuffer[..] == Blitted(old(framebuffer[..]), layer.pixels[..], layer.x, layer.y, layer.width, stride, Visible(layer))
    {
      hide Put, Blitted, OnScreen, ShowsLayer;
      ghost var before := typed;
      assert before + Colored(text[..0], color) == before;
      for i := 0 to |text|
        invariant Valid() && typed == before + Colored(text[..i], color)
        invariant layer.width < 40 ==> forall j | 0 <= j < i :: text[j] == '\n'
        invariant framebuffer[..] == old(framebuffer[..])
      {
        panicked := PutChar(text[i], color);
        if panicked { return; }
        typed := typed + [Typed(text[i], color)];
        assert typed[..|typed| - 1] == before + Colored(text[..i], color);
        assert Colored(text[..i + 1], color) == Colored(text[..i], color) + [Typed(text[i], color)];
      }
      assert text[..|text|] == text;
      BlitCanvas(layer);
      return false;
    }

    /** A pixel of the layer is the page, scrolled so that the cursor line fits. */
    lemma LayerShowsPage(cx: nat, cy: nat)
      requires Valid() && layer.height >= 44 && cx < layer.width && cy < layer.height
      ensures cy * layer.width + cx < layer.pixels.Length
      ensures var page := TypeAll(layer.width, typed);
              layer.pixels[cy * layer.width + cx] == PagePixel(font, page.stamps, cx, cy + 30 * Scrolls(layer.height, page.line))
    {
      hide PutAll, TypeAll, PagePixel;
      InsideBuffer(layer.width, layer.height, cx, cy);
      CanvasShowsPage(font, layer.width, layer.height, typed);
      PixelIndex(cy * layer.width + cx, layer.width, cx, cy);
    }

    /** What the user sees: screen pixel (layer.x + cx, layer.y + cy) is the page's. */
    lemma ScreenShowsPage(fb: seq<Color>, cx: nat, cy: nat)
      requires Valid() && OnScreen(layer) && layer.height >= 44
      requires layer.x + layer.width <= stride && |fb| == framebuffer.Length
      requires cx < layer.width && cy < layer.height && layer.y + cy < height
      ensures (layer.y + cy) * stride + layer.x + cx < |fb|
      ensures var page := TypeAll(layer.width, typed);
              Blitted(fb, layer.pixels[..], layer.x, layer.y, layer.width, stride, Visible(layer))[(layer.y + cy) * stride + layer.x + cx]
              == PagePixel(font, page.stamps, cx, cy + 30 * Scrolls(layer.height, page.line))
    {
      assert Offset(layer.x, layer.y, stride, cy) + cx == (layer.y + cy) * stride + layer.x + cx;
      assert RowStart(layer.width, cy) == cy * layer.width;
      hide Offset, RowStart, Blitted, PutAll, TypeAll, PagePixel, FitsRow, Fits, Valid;
      BlittedPixel(fb, layer.pixels[..], layer.x, layer.y, layer.width, stride, Visible(layer), cx, cy);
      LayerShowsPage(cx, cy);
    }

    /** Rows of the screen above the layer, such as the title bar above the terminal, keep their pixels. */
    lemma RowsAboveKept(canvas: Canvas, fb: seq<Color>, px: seq<Color>, j: nat)
      requires OnScreen(canvas) && canvas.x + canvas.width <= stride
      requires |fb| == framebuffer.Length && |px| == canvas.pixels.Length && j < |fb| && j / stride < canvas.y
      ensures Blitted(fb, px, canvas.x, canvas.y, canvas.width, stride, Visible(canvas))[j] == fb[j]
    {
      hide Blitted;
      BlitShowsPixel(fb, px, canvas.x, canvas.y, canvas.width, canvas.height, stride, height, Visible(canvas), j);
    }
  }

  /** `copy_nonoverlapping` of `n` pixels. */
  method CopyRow(src: array<Color>, from: nat, dst: array<Color>, to: nat, n: nat)
    requires src != dst && from + n <= src.Length && to + n <= dst.Length
    modifies dst
    ensures dst[..] == WithRow(old(dst[..]), src[..], from, to, n)
  {
    for i := 0 to n
      invariant forall j | 0 <= j < dst.Length ::
        dst[j] == if to <= j < to + i then src[from + j - to] else old(dst[j])
    {
      dst[to + i] := src[from + i];
    }
  }
}
