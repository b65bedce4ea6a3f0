/** Which character of a string is drawn where, in which colour, and what its pixels show, stated
    with the string and the font alone. */
module StringLayout {
  import opened Bytes
  import opened Channels
  import opened Glyphs
  import opened Strings
  import opened StringTheorems
  import opened StringGeometry

  // ---- Where a character goes

  /** What a character adds to the pen within its line: the font has '!' first, so '-' is its
      glyph 12; a tab is two blanks. */
  function CharWidth(font: Font, c: char): int
    requires |font| == 94 && Printable(c)
  {
    if c == '\n' then 0
    else if c == ' ' then font[12].boundsWidth
    else if c == '\t' then 2 * font[12].boundsWidth
    else font[c as int - 33].boundsWidth
  }

  function Travel(font: Font, text: string): int
    requires |font| == 94 && PrintableText(text)
  {
    if text == [] then 0 else Travel(font, text[..|text| - 1]) + CharWidth(font, text[|text| - 1])
  }

  /** Where the line of position `i` begins: behind the last newline before it. */
  function LineBegin(text: string, i: nat): (b: nat)
    requires i <= |text|
    ensures b <= i && (b == 0 || text[b - 1] == '\n') && '\n' !in text[b..i]
  {
    if i == 0 || text[i - 1] == '\n' then i
    else
      var b := LineBegin(text, i - 1);
      assert text[b..i] == text[b..i - 1] + [text[i - 1]];
      b
  }

  /** The widths before position `i` on its line to the right of the start, and one height of '|',
      glyph 91, down for each newline before it. */
  function PlaceOf(font: Font, text: string, i: nat, start: Pen): Pen
    requires |font| == 94 && PrintableText(text) && i <= |text|
  {
    Pen(start.x + Travel(font, text[LineBegin(text, i)..i]), start.y + multiset(text[..i])['\n'] * font[91].boundsHeight)
  }

  /** The pen of the string loop is at that place. */
  lemma {:induction false} PenIsAtPlace(font: Font, text: string, i: nat, start: Pen)
    requires |font| == 94 && PrintableText(text) && i <= |text|
    ensures PenAfter(font, text[..i], start, start.x) == PlaceOf(font, text, i, start)
  {
    if i != 0 {
      PenIsAtPlace(font, text, i - 1, start);
      PlaceMoves(font, text, i - 1, start);
      assert text[..i][..i - 1] == text[..i - 1];
    }
  }

  lemma PlaceMoves(font: Font, text: string, i: nat, start: Pen)
    requires |font| == 94 && PrintableText(text) && i < |text|
    ensures PlaceOf(font, text, i + 1, start) == Moved(font, text[i], PlaceOf(font, text, i, start), start.x)
  {
    if text[i] == '\n' {
      PlaceAfterNewline(font, text, i, start);
    } else {
      PlaceAfterChar(font, text, i, start);
    }
  }

  lemma PlaceAfterNewline(font: Font, text: string, i: nat, start: Pen)
    requires |font| == 94 && PrintableText(text) && i < |text| && text[i] == '\n'
    ensures PlaceOf(font, text, i + 1, start) == Pen(start.x, PlaceOf(font, text, i, start).y + font[91].boundsHeight)
  {
    assert text[..i + 1] == text[..i] + [text[i]];
    OneMore(multiset(text[..i])['\n'], font[91].boundsHeight);
  }

  lemma OneMore(n: int, h: int)
    ensures (n + 1) * h == n * h + h
  {
  }

  lemma PlaceAfterChar(font: Font, text: string, i: nat, start: Pen)
    requires |font| == 94 && PrintableText(text) && i < |text| && text[i] != '\n'
    ensures PlaceOf(font, text, i + 1, start) == Pen(PlaceOf(font, text, i, start).x + CharWidth(font, text[i]), PlaceOf(font, text, i, start).y)
  {
    var b := LineBegin(text, i);
    assert text[..i + 1] == text[..i] + [text[i]];
    assert text[b..i + 1][..i - b] == text[b..i];
  }

  /** The predicted length is the travel of the string. */
  lemma {:induction false} LengthIsTravel(font: Font, text: string)
    requires |font| == 94 && Measurable(text)
    ensures PixelLength(font, text) == Travel(font, text)
  {
    if text != [] {
      LengthIsTravel(font, text[..|text| - 1]);
    }
  }

  // ---- Which characters are drawn

  /** What is drawn for a character at a place: itself in the colour of the text; for a blank or
      tab one or two '-' in the background colour, unless that is clear; nothing for a newline. */
  predicate DrawnFor(font: Font, c: char, at: Pen, color: bv32, background: bv32, stamp: Stamp)
    requires |font| == 94
  {
    if c == '\n' then false
    else if c == ' ' then background != 0xffff_ffff && stamp == Stamp(at.x, at.y, '-', background)
    else if c == '\t' then
      background != 0xffff_ffff && (stamp == Stamp(at.x, at.y, '-', background) || stamp == Stamp(at.x + font[12].boundsWidth, at.y, '-', background))
    else stamp == Stamp(at.x, at.y, c, color)
  }

  lemma CharDrawn(font: Font, c: char, at: Pen, color: bv32, background: bv32, stamp: Stamp)
    requires |font| == 94 && Printable(c)
    ensures stamp in CharStamps(font, c, at, color, background) <==> DrawnFor(font, c, at, color, background, stamp)
  {
    if c == '\t' {
      assert TabStamps(font, at, background, 1) == [Stamp(at.x, at.y, '-', background)];
      assert TabStamps(font, at, background, 2) == [Stamp(at.x, at.y, '-', background), Stamp(at.x + font[12].boundsWidth, at.y, '-', background)];
    }
  }

  /** One of the first `n` positions draws the stamp. */
  ghost predicate DrawnForOne(font: Font, text: string, n: nat, start: Pen, color: bv32, background: bv32, stamp: Stamp)
    requires |font| == 94 && PrintableText(text) && n <= |text|
  {
    exists i: nat :: i < n && DrawnFor(font, text[i], PlaceOf(font, text, i, start), color, background, stamp)
  }

  lemma OneMorePosition(font: Font, text: string, n: nat, start: Pen, color: bv32, background: bv32, stamp: Stamp)
    requires |font| == 94 && PrintableText(text) && n < |text|
    ensures DrawnForOne(font, text, n + 1, start, color, background, stamp) <==>
            DrawnForOne(font, text, n, start, color, background, stamp) || DrawnFor(font, text[n], PlaceOf(font, text, n, start), color, background, stamp)
  {
  }

  lemma OneMoreChar(font: Font, text: string, n: nat, start: Pen, color: bv32, background: bv32, stamp: Stamp)
    requires |font| == 94 && PrintableText(text) && n < |text|
    ensures stamp in Layout(font, text[..n + 1], start, start.x, color, background) <==>
            stamp in Layout(font, text[..n], start, start.x, color, background) || DrawnFor(font, text[n], PlaceOf(font, text, n, start), color, background, stamp)
  {
    LayoutStep(font, text, n, start, start.x, color, background);
    PenIsAtPlace(font, text, n, start);
    CharDrawn(font, text[n], PlaceOf(font, text, n, start), color, background, stamp);
  }

  lemma {:induction false} PrefixExact(font: Font, text: string, n: nat, start: Pen, color: bv32, background: bv32, stamp: Stamp)
    requires |font| == 94 && PrintableText(text) && n <= |text|
    ensures stamp in Layout(font, text[..n], start, start.x, color, background) <==> DrawnForOne(font, text, n, start, color, background, stamp)
  {
    if n != 0 {
      PrefixExact(font, text, n - 1, start, color, background, stamp);
      OneMoreChar(font, text, n - 1, start, color, background, stamp);
      OneMorePosition(font, text, n - 1, start, color, background, stamp);
    }
  }

  /** Exactly what a string draws: every position its own characters, and nothing else. */
  lemma LayoutExact(font: Font, text: string, start: Pen, color: bv32, background: bv32, stamp: Stamp)
    requires |font| == 94 && PrintableText(text)
    ensures stamp in Layout(font, text, start, start.x, color, background) <==>
            exists i: nat :: i < |text| && DrawnFor(font, text[i], PlaceOf(font, text, i, start), color, background, stamp)
  {
    assert text[..|text|] == text;
    PrefixExact(font, text, |text|, start, color, background, stamp);
  }

  // ---- What the pixels show

  /** A pixel in the box of a drawn character, when the glyphs keep to their lines. */
  lemma DrawnPixel(mem: seq<byte>, canvas: Canvas, font: Font, text: string, start: Pen, color: bv32, background: bv32, stale: seq<bv32>,
                   i: nat, at: Pen, stamp: Stamp, px: int, py: int)
    requires canvas.Valid(|mem|) && ValidFont(font) && PrintableText(text) && NoTallGlyph(font)
    requires |stale| == |Layout(font, text, start, start.x, color, background)|
    requires i < |text| && at == PlaceOf(font, text, i, start)
    requires DrawnFor(font, text[i], at, color, background, stamp) && InFont(stamp.code)
    requires canvas.Contains(px, py) && stamp.Covers(font, px, py)
    ensures ReadyAll(font, Layout(font, text, start, start.x, color, background))
    ensures PixelAt(StampedAll(mem, canvas, font, Layout(font, text, start, start.x, color, background), background, stale), canvas, px, py)
            == Inked(canvas.depth, font, stamp, background, px, py, PixelAt(mem, canvas, px, py))
  {
    var stamps := Layout(font, text, start, start.x, color, background);
    LayoutExact(font, text, start, color, background, stamp);
    StringApart(font, text, start, start.x, color, background);
    var j :| 0 <= j < |stamps| && stamps[j] == stamp;
    StampedAllPixel(mem, canvas, font, stamps, background, stale, px, py);
    PixelOfCharacter(canvas.depth, font, stamps, background, j, px, py, PixelAt(mem, canvas, px, py));
  }

  /** What a printed string looks like: pixel (row, col) of the box of character `i` is the mix of the text
      colour and of what is behind it, the old pixel on a clear background and the background
      colour otherwise, weighted by alpha byte row * width + column of its glyph. */
  lemma CharacterShown(mem: seq<byte>, canvas: Canvas, font: Font, text: string, start: Pen, color: bv32, background: bv32, stale: seq<bv32>,
                       i: nat, at: Pen, row: int, col: int, px: int, py: int)
    requires canvas.Valid(|mem|) && ValidFont(font) && PrintableText(text) && NoTallGlyph(font)
    requires |stale| == |Layout(font, text, start, start.x, color, background)|
    requires i < |text| && at == PlaceOf(font, text, i, start) && 33 <= text[i] as int <= 126
    requires 0 <= row < font[text[i] as int - 33].boundsHeight && 0 <= col < font[text[i] as int - 33].boundsWidth
    requires px == at.x + col && py == at.y + row && canvas.Contains(px, py)
    ensures ReadyAll(font, Layout(font, text, start, start.x, color, background))
    ensures GlyphShown(canvas.depth, font[text[i] as int - 33], row, col, color, background, PixelAt(mem, canvas, px, py),
                       PixelAt(StampedAll(mem, canvas, font, Layout(font, text, start, start.x, color, background), background, stale), canvas, px, py))
  {
    var stamps := Layout(font, text, start, start.x, color, background);
    var stamp := Stamp(at.x, at.y, text[i], color);
    DrawnPixel(mem, canvas, font, text, start, color, background, stale, i, at, stamp, px, py);
    var before, after := PixelAt(mem, canvas, px, py), PixelAt(StampedAll(mem, canvas, font, stamps, background, stale), canvas, px, py);
    InkedMix(canvas.depth, font, stamp, background, px, py, BytesAt(mem, canvas, px, py), before, after, font[text[i] as int - 33], row, col, color);
  }

  /** A '-' in the background colour on that background is solid. */
  lemma InkedSolid(depth: int, font: Font, stamp: Stamp, background: bv32, px: int, py: int, below: Rgb)
    requires Supported(depth) && Ready(font, stamp) && stamp.color == background != CLEAR_BACKGROUND
    ensures Inked(depth, font, stamp, background, px, py, below) == Split(depth, background)
  {
    SplitInRange(depth, background);
    BlendInRange(depth, Split(depth, background), Split(depth, background), GlyphOf(font, stamp.code).Alpha(py - stamp.y, px - stamp.x));
  }

  /** On an opaque background the boxes of blanks and tabs are solid background. */
  lemma BlankShown(mem: seq<byte>, canvas: Canvas, font: Font, text: string, start: Pen, color: bv32, background: bv32, stale: seq<bv32>,
                   i: nat, at: Pen, stamp: Stamp, px: int, py: int)
    requires canvas.Valid(|mem|) && ValidFont(font) && PrintableText(text) && NoTallGlyph(font)
    requires |stale| == |Layout(font, text, start, start.x, color, background)|
    requires i < |text| && at == PlaceOf(font, text, i, start) && (text[i] == ' ' || text[i] == '\t') && background != 0xffff_ffff
    requires DrawnFor(font, text[i], at, color, background, stamp)
    requires canvas.Contains(px, py) && stamp.Covers(font, px, py)
    ensures ReadyAll(font, Layout(font, text, start, start.x, color, background))
    ensures PixelAt(StampedAll(mem, canvas, font, Layout(font, text, start, start.x, color, background), background, stale), canvas, px, py)
            == Split(canvas.depth, background)
  {
    DrawnPixel(mem, canvas, font, text, start, color, background, stale, i, at, stamp, px, py);
    InkedSolid(canvas.depth, font, stamp, background, px, py, PixelAt(mem, canvas, px, py));
  }

  /** A pixel of the frame in no box of a drawn character keeps its channels. */
  lemma OtherPixelsKept(mem: seq<byte>, canvas: Canvas, font: Font, text: string, start: Pen, color: bv32, background: bv32, stale: seq<bv32>,
                        px: int, py: int)
    requires canvas.Valid(|mem|) && ValidFont(font) && PrintableText(text)
    requires |stale| == |Layout(font, text, start, start.x, color, background)| && canvas.Contains(px, py)
    requires forall i: nat, stamp :: i < |text| && DrawnFor(font, text[i], PlaceOf(font, text, i, start), color, background, stamp) && InFont(stamp.code) ==>
               !(stamp.x <= px < stamp.x + font[stamp.code as int - 33].boundsWidth && stamp.y <= py < stamp.y + font[stamp.code as int - 33].boundsHeight)
    ensures ReadyAll(font, Layout(font, text, start, start.x, color, background))
    ensures PixelAt(StampedAll(mem, canvas, font, Layout(font, text, start, start.x, color, background), background, stale), canvas, px, py)
            == PixelAt(mem, canvas, px, py)
  {
    var stamps := Layout(font, text, start, start.x, color, background);
    LayoutReady(font, text, start, start.x, color, background);
    forall j | 0 <= j < |stamps|
      ensures !stamps[j].Covers(font, px, py)
    {
      LayoutExact(font, text, start, color, background, stamps[j]);
      assert stamps[j] in stamps;
    }
    StampedAllPixel(mem, canvas, font, stamps, background, stale, px, py);
    PixelOfNone(canvas.depth, font, stamps, background, px, py, PixelAt(mem, canvas, px, py));
  }
}
