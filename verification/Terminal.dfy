/**
 The scrolling terminal, against a page that never scrolls.

 The page is the list of everything typed, laid out in lines of 30 pixels on an
 unbounded sheet. The canvas is finite: it is painted, moved up in place, and
 painted again.
 */
module Terminals {
  import opened Arithmetic
  import opened Canvases

  const WHITE: Color := 0xFFFFFF

  /** Whether the 8 x 8 bitmap of a character has a given row and column set. */
  type Font = (char, nat, nat) -> bool

  // char::to_ascii_uppercase
  function Upper(c: char): char { if 'a' <= c <= 'z' then c - 'a' + 'A' else c }

  datatype Typed = Typed(c: char, color: Color)
  datatype Stamp = Stamp(c: char, x: int, y: int, color: Color)

  // ---------- the page ----------

  /** A glyph with its top left corner at (s.x, s.y) covers (x, y); each bit is a square of 3 x 3. */
  predicate Inks(font: Font, s: Stamp, x: int, y: int) {
    && 0 <= x - s.x < 24 && 0 <= y - s.y < 24
    && font(Upper(s.c), (y - s.y) / 3, (x - s.x) / 3)
  }

  function PagePixel(font: Font, stamps: seq<Stamp>, x: int, y: int): Color {
    if stamps == [] then WHITE
    else
      var last := stamps[|stamps| - 1];
      if Inks(font, last, x, y) then last.color else PagePixel(font, stamps[..|stamps| - 1], x, y)
  }

  datatype Page = Page(x: int, line: nat, stamps: seq<Stamp>) {
    function Y(): int { 20 + 30 * line }
  }

  function Type(w: int, p: Page, t: Typed): Page {
    if t.c == '\n' then Page(20, p.line + 1, p.stamps)
    else
      var stamps := p.stamps + [Stamp(t.c, p.x, p.Y(), t.color)];
      if p.x + 30 > w - 40 then Page(20, p.line + 1, stamps) else Page(p.x + 30, p.line, stamps)
  }

  function TypeAll(w: int, ts: seq<Typed>): Page {
    if ts == [] then Page(20, 0, []) else Type(w, TypeAll(w, ts[..|ts| - 1]), ts[|ts| - 1])
  }

  // ---------- the canvas ----------

  datatype Screen = Screen(pixels: seq<Color>, x: int, y: int)

  function Stamped(font: Font, px: seq<Color>, w: nat, s: Stamp): (r: seq<Color>)
    requires w > 0
    ensures |r| == |px|
  {
    seq(|px|, k requires 0 <= k < |px| => if Inks(font, s, k % w, k / w) then s.color else px[k])
  }

  function LineFeed(w: nat, h: nat, s: Screen): (r: Screen)
    ensures |r.pixels| == |s.pixels|
  {
    if s.y + 30 + 30 > h then Screen(Scrolled(s.pixels, 30 * w, WHITE), 20, s.y)
    else Screen(s.pixels, 20, s.y + 30)
  }

  /** The glyph drawn and the cursor moved on, before the margin is looked at. */
  function Glyph(font: Font, w: nat, s: Screen, t: Typed): (r: Screen)
    requires w > 0
    ensures |r.pixels| == |s.pixels|
  {
    Screen(Stamped(font, s.pixels, w, Stamp(t.c, s.x, s.y, t.color)), s.x + 30, s.y)
  }

  function Put(font: Font, w: nat, h: nat, s: Screen, t: Typed): (r: Screen)
    requires w > 0
    ensures |r.pixels| == |s.pixels|
  {
    if t.c == '\n' then LineFeed(w, h, s)
    else
      var s1 := Glyph(font, w, s, t);
      if s1.x > w - 40 then LineFeed(w, h, s1) else s1
  }

  function PutAll(font: Font, w: nat, h: nat, ts: seq<Typed>): (r: Screen)
    requires w > 0
    ensures |r.pixels| == w * h
  {
    if ts == [] then Screen(seq(w * h, _ => WHITE), 20, 20)
    else Put(font, w, h, PutAll(font, w, h, ts[..|ts| - 1]), ts[|ts| - 1])
  }

  // ---------- the viewport ----------

  /** The lowest line a canvas of height `h` lets the cursor stay on. */
  function LastLine(h: nat): nat { if h < 50 then 0 else (h - 50) / 30 }

  /** How many lines have left through the top when the cursor is on `line` of the page. */
  function Scrolls(h: nat, line: nat): nat { if line <= LastLine(h) then 0 else line - LastLine(h) }

  /** The canvas shows the page, moved up by the lines that have left, and the cursors agree. */
  ghost predicate Shows(font: Font, w: nat, h: nat, s: Screen, p: Page)
    requires w > 0
  {
    var n := Scrolls(h, p.line);
    && s.x == p.x && s.y + 30 * n == p.Y()
    && forall k | 0 <= k < |s.pixels| :: s.pixels[k] == PagePixel(font, p.stamps, k % w, k / w + 30 * n)
  }

  /** Nothing typed so far reaches below the line of the cursor. */
  ghost predicate Above(p: Page) {
    forall i | 0 <= i < |p.stamps| :: p.stamps[i].y <= p.Y()
  }

  lemma {:induction false} TypedAbove(w: int, ts: seq<Typed>)
    ensures Above(TypeAll(w, ts))
  {
    if ts != [] { TypedAbove(w, ts[..|ts| - 1]); }
  }

  lemma {:induction false} BelowIsBlank(font: Font, stamps: seq<Stamp>, bound: int, x: int, y: int)
    requires forall i | 0 <= i < |stamps| :: stamps[i].y <= bound
    requires y >= bound + 24
    ensures PagePixel(font, stamps, x, y) == WHITE
  {
    if stamps != [] { BelowIsBlank(font, stamps[..|stamps| - 1], bound, x, y); }
  }

  lemma StampShows(font: Font, w: nat, h: nat, s: Screen, p: Page, t: Typed)
    requires w > 0 && Shows(font, w, h, s, p)
    ensures Shows(font, w, h, s.(pixels := Stamped(font, s.pixels, w, Stamp(t.c, s.x, s.y, t.color))),
                  p.(stamps := p.stamps + [Stamp(t.c, p.x, p.Y(), t.color)]))
  {
    var stamps := p.stamps + [Stamp(t.c, p.x, p.Y(), t.color)];
    assert stamps[..|stamps| - 1] == p.stamps;
  }

  lemma RowAfterScroll(k: int, w: int, h: int)
    requires w > 0 && 0 <= k < w * h
    ensures (k + 30 * w) % w == k % w && (k + 30 * w) / w == k / w + 30
    ensures k + 30 * w >= w * h ==> k / w + 30 >= h
  {
    Quotient(k + 30 * w, w, k / w + 30, k % w);
    if k + 30 * w >= w * h { RowAtLeast(k + 30 * w, w, h); }
  }

  lemma RowAtLeast(k: int, w: int, h: int)
    requires w > 0 && k >= w * h
    ensures k / w >= h
  {
    assert w * (k / w - h) == k - k % w - w * h;
    MultipleAbove(w, k / w - h);
  }

  lemma FeedShows(font: Font, w: nat, h: nat, s: Screen, p: Page)
    requires w > 0 && |s.pixels| == w * h && (h == 0 || h >= 44)
    requires Shows(font, w, h, s, p) && Above(p)
    ensures Shows(font, w, h, LineFeed(w, h, s), p.(x := 20, line := p.line + 1))
  {
    var n := Scrolls(h, p.line);
    if s.y + 30 + 30 > h {
      assert Scrolls(h, p.line + 1) == n + 1;
      forall k | 0 <= k < |s.pixels|
        ensures Scrolled(s.pixels, 30 * w, WHITE)[k] == PagePixel(font, p.stamps, k % w, k / w + 30 * (n + 1))
      {
        RowAfterScroll(k, w, h);
        if k + 30 * w >= |s.pixels| {
          BelowIsBlank(font, p.stamps, p.Y(), k % w, k / w + 30 * (n + 1));
        }
      }
    }
  }

  lemma PutShows(font: Font, w: nat, h: nat, s: Screen, p: Page, t: Typed)
    requires w > 0 && |s.pixels| == w * h && (h == 0 || h >= 44)
    requires Shows(font, w, h, s, p) && Above(p)
    ensures Shows(font, w, h, Put(font, w, h, s, t), Type(w, p, t))
  {
    hide Stamped, LineFeed, PagePixel;
    if t.c == '\n' {
      FeedShows(font, w, h, s, p);
    } else {
      StampShows(font, w, h, s, p, t);
      var s1 := Glyph(font, w, s, t);
      var p1 := Page(p.x + 30, p.line, p.stamps + [Stamp(t.c, p.x, p.Y(), t.color)]);
      if s1.x > w - 40 { FeedShows(font, w, h, s1, p1); }
    }
  }

  /** After any text whatever, the canvas is a viewport onto the page. */
  lemma {:induction false} CanvasShowsPage(font: Font, w: nat, h: nat, ts: seq<Typed>)
    requires w > 0 && (h == 0 || h >= 44)
    ensures Shows(font, w, h, PutAll(font, w, h, ts), TypeAll(w, ts))
  {
    if ts != [] {
      var before := ts[..|ts| - 1];
      CanvasShowsPage(font, w, h, before);
      TypedAbove(w, before);
      PutShows(font, w, h, PutAll(font, w, h, before), TypeAll(w, before), ts[|ts| - 1]);
    }
  }

  /** One glyph, with a newline after it where the canvas is too wide for the glyph alone to end the line. */
  function OneLine(w: nat): seq<Typed> {
    if w < 90 then [Typed('#', 0)] else [Typed('#', 0), Typed('\n', 0)]
  }

  lemma OneLineResult(font: Font, w: nat, h: nat)
    requires w >= 40
    ensures var s := Stamp('#', 20, 20, 0);
            && TypeAll(w, OneLine(w)) == Page(20, 1, [s])
            && PutAll(font, w, h, OneLine(w)) ==
               LineFeed(w, h, Screen(Stamped(font, seq(w * h, _ => WHITE), w, s), 50, 20))
  {
    var t := Typed('#', 0);
    assert [t][..0] == [];
    assert TypeAll(w, [t]) == Type(w, Page(20, 0, []), t);
    assert PutAll(font, w, h, [t]) == Put(font, w, h, PutAll(font, w, h, []), t);
    if w >= 90 {
      assert OneLine(w)[..1] == [t];
    }
  }

  lemma LostPixel(w: nat, h: nat) returns (k: nat, y: nat)
    requires w >= 40 && 1 <= h < 44
    ensures y + 30 < 44 && k < w * h && k % w == 20 && k / w == y && k + 30 * w >= w * h
  {
    y := if h <= 30 then 0 else h - 30;
    k := y * w + 20;
    InsideBuffer(w, h, 20, y);
    PixelIndex(k, w, 20, y);
    assert (y + 30 - h) * w >= 0;
  }

  lemma FeedLoses(w: nat, h: nat, px: seq<Color>, k: nat)
    requires h < 44 && k < |px| == w * h && k + 30 * w >= w * h
    ensures LineFeed(w, h, Screen(px, 50, 20)).pixels[k] == WHITE
  {}

  /** A canvas too low for one glyph loses the part of it that a scroll would have brought into view. */
  lemma LowCanvasLosesInk(font: Font, w: nat, h: nat)
    requires w >= 40 && 1 <= h < 44
    requires forall row, col | 0 <= row < 8 && 0 <= col < 8 :: font('#', row, col)
    ensures !Shows(font, w, h, PutAll(font, w, h, OneLine(w)), TypeAll(w, OneLine(w)))
  {
    var stamp := Stamp('#', 20, 20, 0);
    var k, y := LostPixel(w, h);
    OneLineResult(font, w, h);
    FeedLoses(w, h, Stamped(font, seq(w * h, _ => WHITE), w, stamp), k);
    hide PutAll, TypeAll, Stamped, LineFeed;
    assert Scrolls(h, 1) == 1;
    assert Inks(font, stamp, 20, y + 30);
    assert PagePixel(font, [stamp], 20, y + 30) == 0;
  }

  ghost predicate ShowsAfter(font: Font, w: nat, h: nat, ts: seq<Typed>)
    requires w > 0
  {
    Shows(font, w, h, PutAll(font, w, h, ts), TypeAll(w, ts))
  }

  /** Exactly which canvases show the page whatever is typed and in whatever font. */
  lemma ViewportExact(w: nat, h: nat)
    requires w >= 40
    ensures (forall font: Font, ts :: ShowsAfter(font, w, h, ts)) <==> h == 0 || h >= 44
  {
    if h == 0 || h >= 44 {
      forall font: Font, ts
        ensures ShowsAfter(font, w, h, ts)
      {
        CanvasShowsPage(font, w, h, ts);
      }
    } else {
      var solid: Font := (_, _, _) => true;
      LowCanvasLosesInk(solid, w, h);
      hide Shows, PutAll, TypeAll, OneLine;
      assert !ShowsAfter(solid, w, h, OneLine(w));
    }
  }

  // ---------- which bitmap is drawn ----------

  const SMALL := "abcdefghijklmnopqrstuvwxyz"
  const CAPITAL := "ABCDEFGHIJKLMNOPQRSTUVWXYZ"

  /** `d` is the character whose bitmap `c` is drawn with: the capital of a small letter, any other character itself. */
  ghost predicate DrawnAs(c: char, d: char) {
    if c in SMALL then exists i :: 0 <= i < |SMALL| && c == SMALL[i] && d == CAPITAL[i] else d == c
  }

  lemma Alphabet(i: nat)
    requires i < 26
    ensures |SMALL| == |CAPITAL| == 26 && SMALL[i] == 'a' + i as char && CAPITAL[i] == 'A' + i as char
  {}

  lemma SmallLetters(c: char)
    ensures c in SMALL <==> 'a' <= c <= 'z'
  {
    if 'a' <= c <= 'z' { Alphabet((c - 'a') as int); }
    if c in SMALL {
      var i :| 0 <= i < |SMALL| && SMALL[i] == c;
      Alphabet(i);
    }
  }

  lemma UpperDraws(c: char, d: char)
    requires DrawnAs(c, d)
    ensures Upper(c) == d && Upper(d) == d && (c == '\n' <==> d == '\n')
  {
    SmallLetters(c);
    if c in SMALL {
      var i :| 0 <= i < |SMALL| && c == SMALL[i] && d == CAPITAL[i];
      Alphabet(i);
    }
  }

  /**
   What one more character changes on the page: in the 24 x 24 square at the cursor, the 3 x 3 blocks
   whose bit is set in the bitmap take its color.
   */
  lemma GlyphOnPage(font: Font, w: int, ts: seq<Typed>, t: Typed, d: char, x: int, y: int)
    requires t.c != '\n' && DrawnAs(t.c, d)
    ensures var p := TypeAll(w, ts);
            PagePixel(font, TypeAll(w, ts + [t]).stamps, x, y) ==
            if p.x <= x < p.x + 24 && p.Y() <= y < p.Y() + 24 && font(d, (y - p.Y()) / 3, (x - p.x) / 3) then t.color
            else PagePixel(font, p.stamps, x, y)
  {
    UpperDraws(t.c, d);
    hide Upper;
    assert (ts + [t])[..|ts|] == ts;
    var p := TypeAll(w, ts);
    var stamps := p.stamps + [Stamp(t.c, p.x, p.Y(), t.color)];
    assert stamps[..|p.stamps|] == p.stamps;
  }

  /** The same text with its small letters as capitals. */
  ghost predicate Capitalised(ts: seq<Typed>, us: seq<Typed>) {
    |ts| == |us| && forall i | 0 <= i < |ts| :: DrawnAs(ts[i].c, us[i].c) && us[i].color == ts[i].color
  }

  lemma SameStamp(font: Font, px: seq<Color>, w: nat, c: char, d: char, x: int, y: int, color: Color)
    requires w > 0 && DrawnAs(c, d)
    ensures Stamped(font, px, w, Stamp(c, x, y, color)) == Stamped(font, px, w, Stamp(d, x, y, color))
  {
    UpperDraws(c, d);
  }

  /** Small letters and capitals print alike on every canvas. */
  lemma {:induction false} CapitalsPrintAlike(font: Font, w: nat, h: nat, ts: seq<Typed>, us: seq<Typed>)
    requires w > 0 && Capitalised(ts, us)
    ensures PutAll(font, w, h, ts) == PutAll(font, w, h, us)
  {
    if ts != [] {
      var n := |ts| - 1;
      CapitalsPrintAlike(font, w, h, ts[..n], us[..n]);
      var s, t, u := PutAll(font, w, h, ts[..n]), ts[n], us[n];
      UpperDraws(t.c, u.c);
      SameStamp(font, s.pixels, w, t.c, u.c, s.x, s.y, t.color);
      hide Stamped, LineFeed, DrawnAs;
    }
  }

  /** And on the page. */
  lemma {:induction false} CapitalsReadAlike(font: Font, w: int, ts: seq<Typed>, us: seq<Typed>, x: int, y: int)
    requires Capitalised(ts, us)
    ensures var p, q := TypeAll(w, ts), TypeAll(w, us);
            p.x == q.x && p.line == q.line && PagePixel(font, p.stamps, x, y) == PagePixel(font, q.stamps, x, y)
  {
    hide PagePixel, DrawnAs;
    if ts == [] {
      assert us == [];
    } else {
      var n := |ts| - 1;
      var t, u := ts[n], us[n];
      CapitalsReadAlike(font, w, ts[..n], us[..n], x, y);
      UpperDraws(t.c, u.c);
      assert ts == ts[..n] + [t] && us == us[..n] + [u];
      if t.c != '\n' {
        NotSmall(t.c, u.c);
        GlyphOnPage(font, w, ts[..n], t, u.c, x, y);
        GlyphOnPage(font, w, us[..n], u, u.c, x, y);
      }
    }
  }

  lemma NotSmall(c: char, d: char)
    requires DrawnAs(c, d)
    ensures DrawnAs(d, d)
  {
    UpperDraws(c, d);
    SmallLetters(d);
  }

  // ---------- where it is drawn ----------

  /** How many glyphs fit one line: a line ends once the next one would start beyond the right margin of 40. */
  function PerLine(w: int): (n: nat)
    ensures n > 0
  {
    if w < 90 then 1 else (w - 60) / 30 + 1
  }

  lemma MarginTest(w: int, n: nat)
    requires n < PerLine(w)
    ensures 20 + 30 * n + 30 > w - 40 <==> n + 1 == PerLine(w)
  {}

  lemma NextPlace(n: nat, m: nat)
    requires m > 0
    ensures n % m + 1 == m ==> (n + 1) / m == n / m + 1 && (n + 1) % m == 0
    ensures n % m + 1 < m ==> (n + 1) / m == n / m && (n + 1) % m == n % m + 1
  {
    if n % m + 1 == m {
      Quotient(n + 1, m, n / m + 1, 0);
    } else {
      Quotient(n + 1, m, n / m, n % m + 1);
    }
  }

  lemma TypeNext(w: int, line: nat, n: nat, q: Page, t: Typed)
    requires t.c != '\n' && q.x == 20 + 30 * (n % PerLine(w)) && q.line == line + n / PerLine(w)
    ensures var m, r := PerLine(w), Type(w, q, t);
            && r.x == 20 + 30 * ((n + 1) % m) && r.line == line + (n + 1) / m
            && r.stamps == q.stamps + [Stamp(t.c, 20 + 30 * (n % m), 20 + 30 * (line + n / m), t.color)]
  {
    MarginTest(w, n % PerLine(w));
    NextPlace(n, PerLine(w));
    hide PerLine;
  }

  ghost predicate OneParagraph(ts: seq<Typed>) { forall i | 0 <= i < |ts| :: ts[i].c != '\n' }

  /**
   Text without line feeds, from the start of a line: glyph i stands in column i % PerLine and line
   i / PerLine of the paragraph, columns and lines 30 pixels apart, the first at (20, 20) on a new page.
   */
  lemma {:induction false} GlyphPlaces(w: int, before: seq<Typed>, ts: seq<Typed>)
    requires TypeAll(w, before).x == 20 && OneParagraph(ts)
    ensures var p, q, m := TypeAll(w, before), TypeAll(w, before + ts), PerLine(w);
            && q.x == 20 + 30 * (|ts| % m) && q.line == p.line + |ts| / m
            && |q.stamps| == |p.stamps| + |ts|
            && (forall i | 0 <= i < |p.stamps| :: q.stamps[i] == p.stamps[i])
            && (forall i | 0 <= i < |ts| ::
                  q.stamps[|p.stamps| + i] == Stamp(ts[i].c, 20 + 30 * (i % m), 20 + 30 * (p.line + i / m), ts[i].color))
  {
    hide PerLine, Type;
    if ts == [] {
      assert before + ts == before;
    } else {
      var n := |ts| - 1;
      GlyphPlaces(w, before, ts[..n]);
      assert (before + ts)[..|before + ts| - 1] == before + ts[..n];
      TypeNext(w, TypeAll(w, before).line, n, TypeAll(w, before + ts[..n]), ts[n]);
    }
  }

  /** A new page is white, and a line feed starts the next line. */
  lemma LinesStart(font: Font, w: int, ts: seq<Typed>, color: Color, x: int, y: int)
    ensures TypeAll(w, []).x == 20 && TypeAll(w, []).Y() == 20 && PagePixel(font, TypeAll(w, []).stamps, x, y) == 0xFFFFFF
    ensures var p, q := TypeAll(w, ts), TypeAll(w, ts + [Typed('\n', color)]);
            q.x == 20 && q.Y() == p.Y() + 30 && q.stamps == p.stamps
  {
    assert (ts + [Typed('\n', color)])[..|ts|] == ts;
  }

  /**
   On a canvas of at least 50 rows the cursor always has a whole cell above the bottom edge, nothing is
   drawn below its line, and no line has left that could still be seen with the cursor in view.
   */
  lemma CursorInView(font: Font, w: nat, h: nat, ts: seq<Typed>)
    requires w > 0 && h >= 50
    ensures var s, p := PutAll(font, w, h, ts), TypeAll(w, ts);
            && 20 <= s.y && s.y + 30 <= h && s.x == p.x
            && (s.y == p.Y() || (s.y < p.Y() && (p.Y() - s.y) % 30 == 0 && s.y + 60 > h))
            && forall k | 0 <= k < |s.pixels| && k / w >= s.y + 24 :: s.pixels[k] == 0xFFFFFF
  {
    hide PutAll, TypeAll, PagePixel, Scrolls;
    CanvasShowsPage(font, w, h, ts);
    TypedAbove(w, ts);
    var s, p := PutAll(font, w, h, ts), TypeAll(w, ts);
    CursorLine(h, p.line);
    BlankBelow(font, w, h, s, p);
  }

  lemma CursorLine(h: nat, line: nat)
    requires h >= 50
    ensures var n := Scrolls(h, line);
            var y := 20 + 30 * (line - n);
            20 <= y && y + 30 <= h && (n > 0 ==> y + 60 > h)
  {}

  lemma BlankBelow(font: Font, w: nat, h: nat, s: Screen, p: Page)
    requires w > 0 && Shows(font, w, h, s, p) && Above(p)
    ensures forall k | 0 <= k < |s.pixels| && k / w >= s.y + 24 :: s.pixels[k] == 0xFFFFFF
  {
    hide PagePixel, Scrolls;
    forall k | 0 <= k < |s.pixels| && k / w >= s.y + 24
      ensures s.pixels[k] == 0xFFFFFF
    {
      BelowIsBlank(font, p.stamps, p.Y(), k % w, k / w + 30 * Scrolls(h, p.line));
    }
  }
}
