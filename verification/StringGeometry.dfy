/** Where the boxes of a string lie, and how long a string is. */
module StringGeometry {
  import opened Bytes
  import opened Channels
  import opened Glyphs
  import opened Strings
  import opened StringTheorems

  // ---- The predicted length

  predicate Measurable(text: string) {
    forall i :: 0 <= i < |text| ==> InFont(text[i]) || text[i] == ' '
  }

  function WidthOf(font: Font, c: char): nat
    requires |font| == 94 && (InFont(c) || c == ' ')
  {
    if c == ' ' then BlankWidth(font) else GlyphOf(font, c).boundsWidth
  }

  function PixelLength(font: Font, text: string): nat
    requires |font| == 94 && Measurable(text)
  {
    if text == [] then 0 else PixelLength(font, text[..|text| - 1]) + WidthOf(font, text[|text| - 1])
  }

  /** vid_string_pixel_length_alpha; it has no case for tabs and newlines. */
  method VidStringPixelLengthAlpha(font: Font, text: string) returns (length: nat)
    requires |font| == 94 && Measurable(text)
    ensures length == PixelLength(font, text)
    ensures PenAfter(font, text, Pen(0, 0), 0) == Pen(length, 0)
  {
    length := 0;
    for i := 0 to |text|
      invariant length == PixelLength(font, text[..i])
    {
      assert text[..i + 1][..i] == text[..i];
      if text[i] == ' ' {
        length := length + GlyphOf(font, '-').boundsWidth;
      } else {
        length := length + GlyphOf(font, text[i]).boundsWidth;
      }
    }
    assert text[..|text|] == text;
    PenTravel(font, text, Pen(0, 0), 0);
  }

  /** The pen travels as far as predicted, and stays on its line. */
  lemma {:induction false} PenTravel(font: Font, text: string, start: Pen, left: int)
    requires |font| == 94 && Measurable(text)
    ensures PenAfter(font, text, start, left) == Pen(start.x + PixelLength(font, text), start.y)
  {
    if text != [] {
      PenTravel(font, text[..|text| - 1], start, left);
    }
  }

  /** The length of a string is the sum of the lengths of its parts. */
  lemma LengthAdditive(font: Font, s: string, t: string)
    requires |font| == 94 && Measurable(s) && Measurable(t)
    ensures PixelLength(font, s + t) == PixelLength(font, s) + PixelLength(font, t)
  {
    PenConcat(font, s, t, Pen(0, 0), 0);
    PenTravel(font, s + t, Pen(0, 0), 0);
    PenTravel(font, s, Pen(0, 0), 0);
    PenTravel(font, t, Pen(PixelLength(font, s), 0), 0);
  }

  // ---- Boxes on one line

  function BoxWidth(font: Font, stamp: Stamp): nat
    requires |font| == 94 && InFont(stamp.code)
  {
    GlyphOf(font, stamp.code).boundsWidth
  }

  /** The boxes stand side by side on line `y` from column `from` to column `to`. */
  ghost predicate Tiles(font: Font, stamps: seq<Stamp>, from: int, to: int, y: int)
    requires ReadyAll(font, stamps)
    decreases |stamps|
  {
    if stamps == [] then from == to
    else
      var n := |stamps| - 1;
      stamps[n].y == y && stamps[n].x + BoxWidth(font, stamps[n]) == to && Tiles(font, stamps[..n], from, stamps[n].x, y)
  }

  lemma TilesNext(font: Font, stamps: seq<Stamp>, from: int, to: int, y: int, stamp: Stamp)
    requires ReadyAll(font, stamps) && Tiles(font, stamps, from, to, y)
    requires InFont(stamp.code) && stamp.x == to && stamp.y == y
    ensures ReadyAll(font, stamps + [stamp]) && Tiles(font, stamps + [stamp], from, to + BoxWidth(font, stamp), y)
  {
    assert (stamps + [stamp])[..|stamps|] == stamps;
  }

  lemma {:induction false} TabTiles(font: Font, stamps: seq<Stamp>, from: int, pen: Pen, background: bv32, n: nat)
    requires ReadyAll(font, stamps) && Tiles(font, stamps, from, pen.x, pen.y)
    ensures ReadyAll(font, stamps + TabStamps(font, pen, background, n))
    ensures Tiles(font, stamps + TabStamps(font, pen, background, n), from, pen.x + n * BlankWidth(font), pen.y)
  {
    if n == 0 {
      assert stamps + [] == stamps;
    } else {
      TabTiles(font, stamps, from, pen, background, n - 1);
      var at := pen.x + (n - 1) * BlankWidth(font);
      var stamp := Stamp(at, pen.y, '-', background);
      assert at + BoxWidth(font, stamp) == pen.x + n * BlankWidth(font);
      assert stamps + TabStamps(font, pen, background, n) == stamps + TabStamps(font, pen, background, n - 1) + [stamp] by {
        Reassociate(stamps, TabStamps(font, pen, background, n - 1), [stamp]);
      }
      TilesNext(font, stamps + TabStamps(font, pen, background, n - 1), from, at, pen.y, stamp);
    }
  }

  /** On an opaque background the boxes of a line fill it from the start to the pen. */
  lemma {:induction false} LineTiles(font: Font, text: string, start: Pen, left: int, color: bv32, background: bv32)
    requires ValidFont(font) && PrintableText(text) && OneLine(text) && background != CLEAR_BACKGROUND
    ensures ReadyAll(font, Layout(font, text, start, left, color, background))
    ensures Tiles(font, Layout(font, text, start, left, color, background), start.x, PenAfter(font, text, start, left).x, start.y)
  {
    if text != [] {
      var before, c := text[..|text| - 1], text[|text| - 1];
      LineTiles(font, before, start, left, color, background);
      PenHeight(font, before, start, left);
      var stamps, pen := Layout(font, before, start, left, color, background), PenAfter(font, before, start, left);
      if c == '\t' {
        TabTiles(font, stamps, start.x, pen, background, TAB_SPACING);
      } else {
        TilesNext(font, stamps, start.x, pen.x, pen.y, Stamp(pen.x, pen.y, if c == ' ' then '-' else c, if c == ' ' then background else color));
      }
    }
  }

  /** Boxes that tile a line have each column in exactly one of them. */
  ghost predicate InBox(font: Font, stamps: seq<Stamp>, i: int, px: int)
    requires ReadyAll(font, stamps) && 0 <= i < |stamps|
  {
    stamps[i].x <= px < stamps[i].x + BoxWidth(font, stamps[i])
  }

  lemma {:induction false} TilesInside(font: Font, stamps: seq<Stamp>, from: int, to: int, y: int, i: int, px: int)
    requires ReadyAll(font, stamps) && Tiles(font, stamps, from, to, y) && 0 <= i < |stamps|
    ensures from <= to && stamps[i].y == y
    ensures InBox(font, stamps, i, px) ==> from <= px < to
    decreases |stamps|
  {
    var n := |stamps| - 1;
    if n != 0 {
      TilesInside(font, stamps[..n], from, stamps[n].x, y, if i < n then i else 0, px);
    }
  }

  lemma {:induction false} TilesOnce(font: Font, stamps: seq<Stamp>, from: int, to: int, y: int, px: int)
    requires ReadyAll(font, stamps) && Tiles(font, stamps, from, to, y) && from <= px < to
    ensures exists i :: 0 <= i < |stamps| && InBox(font, stamps, i, px)
    ensures forall i, j :: 0 <= i < j < |stamps| ==> !(InBox(font, stamps, i, px) && InBox(font, stamps, j, px))
    decreases |stamps|
  {
    var n := |stamps| - 1;
    assert forall i :: 0 <= i < n ==> stamps[..n][i] == stamps[i];
    if px < stamps[n].x {
      TilesOnce(font, stamps[..n], from, stamps[n].x, y, px);
      var i :| 0 <= i < n && InBox(font, stamps[..n], i, px);
      assert InBox(font, stamps, i, px);
      forall i, j | 0 <= i < j < |stamps|
        ensures !(InBox(font, stamps, i, px) && InBox(font, stamps, j, px))
      {
        if j < n {
          assert !(InBox(font, stamps[..n], i, px) && InBox(font, stamps[..n], j, px));
        }
      }
    } else {
      assert InBox(font, stamps, n, px);
      forall i | 0 <= i < n
        ensures !InBox(font, stamps, i, px)
      {
        assert InBox(font, stamps, i, px) == InBox(font, stamps[..n], i, px);
        TilesInside(font, stamps[..n], from, stamps[n].x, y, i, px);
      }
    }
  }

  // ---- Boxes on several lines

  /** No two boxes share a pixel. */
  ghost predicate Apart(font: Font, stamps: seq<Stamp>) {
    && ReadyAll(font, stamps)
    && (forall i, j, px, py :: 0 <= i < j < |stamps| ==> !(stamps[i].Covers(font, px, py) && stamps[j].Covers(font, px, py)))
  }

  /** No glyph with a visible width is taller than '|', the line spacing. */
  ghost predicate NoTallGlyph(font: Font)
    requires |font| == 94
  {
    forall c :: InFont(c) ==> GlyphOf(font, c).boundsWidth == 0 || GlyphOf(font, c).boundsHeight <= LineHeight(font)
  }

  /** Every box is left of the pen on its line, or ends above it. */
  ghost predicate BehindPen(font: Font, stamps: seq<Stamp>, pen: Pen)
    requires ReadyAll(font, stamps)
  {
    forall i :: 0 <= i < |stamps| ==>
      (stamps[i].y == pen.y && stamps[i].x + BoxWidth(font, stamps[i]) <= pen.x) || stamps[i].y + LineHeight(font) <= pen.y
  }

  lemma ApartNext(font: Font, stamps: seq<Stamp>, pen: Pen, stamp: Stamp)
    requires ReadyAll(font, stamps) && NoTallGlyph(font) && Apart(font, stamps) && BehindPen(font, stamps, pen)
    requires InFont(stamp.code) && stamp.x == pen.x && stamp.y == pen.y
    ensures Apart(font, stamps + [stamp]) && BehindPen(font, stamps + [stamp], Pen(pen.x + BoxWidth(font, stamp), pen.y))
  {
    var all := stamps + [stamp];
    forall i, j, px, py | 0 <= i < j < |all|
      ensures !(all[i].Covers(font, px, py) && all[j].Covers(font, px, py))
    {
      if j < |stamps| {
        assert !(stamps[i].Covers(font, px, py) && stamps[j].Covers(font, px, py));
      } else {
        var g := GlyphOf(font, stamps[i].code);
        assert g.boundsWidth == 0 || g.boundsHeight <= LineHeight(font);
      }
    }
  }

  lemma {:induction false} TabApart(font: Font, stamps: seq<Stamp>, pen: Pen, background: bv32, n: nat)
    requires ReadyAll(font, stamps) && NoTallGlyph(font) && Apart(font, stamps) && BehindPen(font, stamps, pen)
    ensures Apart(font, stamps + TabStamps(font, pen, background, n))
    ensures BehindPen(font, stamps + TabStamps(font, pen, background, n), Pen(pen.x + n * BlankWidth(font), pen.y))
  {
    if n == 0 {
      assert stamps + [] == stamps;
    } else {
      TabApart(font, stamps, pen, background, n - 1);
      var here := Pen(pen.x + (n - 1) * BlankWidth(font), pen.y);
      var stamp := Stamp(here.x, here.y, '-', background);
      assert Pen(here.x + BoxWidth(font, stamp), here.y) == Pen(pen.x + n * BlankWidth(font), pen.y);
      assert stamps + TabStamps(font, pen, background, n) == stamps + TabStamps(font, pen, background, n - 1) + [stamp] by {
        Reassociate(stamps, TabStamps(font, pen, background, n - 1), [stamp]);
      }
      ApartNext(font, stamps + TabStamps(font, pen, background, n - 1), here, stamp);
    }
  }

  lemma {:induction false} StringApart(font: Font, text: string, start: Pen, left: int, color: bv32, background: bv32)
    requires ValidFont(font) && PrintableText(text) && NoTallGlyph(font)
    ensures Apart(font, Layout(font, text, start, left, color, background))
    ensures BehindPen(font, Layout(font, text, start, left, color, background), PenAfter(font, text, start, left))
  {
    if text != [] {
      var before, c := text[..|text| - 1], text[|text| - 1];
      StringApart(font, before, start, left, color, background);
      var stamps, pen := Layout(font, before, start, left, color, background), PenAfter(font, before, start, left);
      if c == '\n' || ((c == ' ' || c == '\t') && background == CLEAR_BACKGROUND) {
        assert stamps + [] == stamps;
      } else if c == '\t' {
        TabApart(font, stamps, pen, background, TAB_SPACING);
      } else {
        ApartNext(font, stamps, pen, Stamp(pen.x, pen.y, if c == ' ' then '-' else c, if c == ' ' then background else color));
      }
    }
  }

  /** A glyph taller than '|' over itself: the second line starts inside the first. */
  lemma TallGlyphOverlaps(font: Font, c: char, start: Pen, color: bv32, background: bv32)
    requires ValidFont(font) && InFont(c)
    requires 0 < GlyphOf(font, c).boundsWidth && LineHeight(font) < GlyphOf(font, c).boundsHeight
    ensures !Apart(font, Layout(font, [c, '\n', c], start, start.x, color, background))
  {
    var text := [c, '\n', c];
    var stamps := Layout(font, text, start, start.x, color, background);
    LayoutStep(font, text, 0, start, start.x, color, background);
    LayoutStep(font, text, 1, start, start.x, color, background);
    LayoutStep(font, text, 2, start, start.x, color, background);
    assert text[..3] == text && text[..0] == [];
    assert stamps[0].Covers(font, start.x, start.y + LineHeight(font)) && stamps[1].Covers(font, start.x, start.y + LineHeight(font));
  }

  /** The boxes of every string are apart exactly when no glyph of some width is taller than '|'. */
  lemma BoxesApartIff(font: Font, start: Pen, color: bv32, background: bv32)
    requires ValidFont(font)
    ensures (forall text :: PrintableText(text) ==> Apart(font, Layout(font, text, start, start.x, color, background))) <==> NoTallGlyph(font)
  {
    if NoTallGlyph(font) {
      forall text | PrintableText(text)
        ensures Apart(font, Layout(font, text, start, start.x, color, background))
      {
        StringApart(font, text, start, start.x, color, background);
      }
    } else {
      var c :| InFont(c) && !(GlyphOf(font, c).boundsWidth == 0 || GlyphOf(font, c).boundsHeight <= LineHeight(font));
      TallGlyphOverlaps(font, c, start, color, background);
      assert PrintableText([c, '\n', c]);
    }
  }

  /** With boxes apart, a pixel shows the one character whose box it is in, over what was there
      before; this holds for clear backgrounds too. */
  lemma {:induction false} PixelOfCharacter(depth: int, font: Font, stamps: seq<Stamp>, background: bv32, i: int, px: int, py: int, before: Rgb)
    requires Apart(font, stamps) && 0 <= i < |stamps| && stamps[i].Covers(font, px, py)
    ensures PixelAfter(depth, font, stamps, background, px, py, before) == Inked(depth, font, stamps[i], background, px, py, before)
    decreases |stamps|
  {
    var n := |stamps| - 1;
    if i < n {
      assert !stamps[n].Covers(font, px, py);
      PixelOfCharacter(depth, font, stamps[..n], background, i, px, py, before);
    } else {
      assert forall j :: 0 <= j < n ==> stamps[..n][j] == stamps[j] && !stamps[j].Covers(font, px, py);
      PixelOfNone(depth, font, stamps[..n], background, px, py, before);
    }
  }

  lemma {:induction false} PixelOfNone(depth: int, font: Font, stamps: seq<Stamp>, background: bv32, px: int, py: int, before: Rgb)
    requires ReadyAll(font, stamps) && !Covered(font, stamps, px, py)
    ensures PixelAfter(depth, font, stamps, background, px, py, before) == before
    decreases |stamps|
  {
    if stamps != [] {
      var n := |stamps| - 1;
      assert forall j :: 0 <= j < n ==> stamps[..n][j] == stamps[j];
      PixelOfNone(depth, font, stamps[..n], background, px, py, before);
    }
  }
}
