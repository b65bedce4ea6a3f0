/** What printing a string does to the frame as a whole. */
module StringTheorems {
  import opened Bytes
  import opened Channels
  import opened Glyphs
  import opened Strings

  // ---- The picture

  /** Pixel (px, py) lies in the box of one of the characters. */
  ghost predicate Covered(font: Font, stamps: seq<Stamp>, px: int, py: int)
    requires ReadyAll(font, stamps)
  {
    exists i :: 0 <= i < |stamps| && stamps[i].Covers(font, px, py)
  }

  /** The channels of a pixel after all characters that cover it, from its channels before. */
  function PixelAfter(depth: int, font: Font, stamps: seq<Stamp>, background: bv32, px: int, py: int, before: Rgb): Rgb
    requires ReadyAll(font, stamps)
    decreases |stamps|
  {
    if stamps == [] then before
    else
      var n := |stamps| - 1;
      var below := PixelAfter(depth, font, stamps[..n], background, px, py, before);
      if stamps[n].Covers(font, px, py) then Inked(depth, font, stamps[n], background, px, py, below) else below
  }

  /** Every pixel of the frame after drawing a list of characters. */
  lemma {:induction false} StampedAllPixel(mem: seq<byte>, canvas: Canvas, font: Font, stamps: seq<Stamp>, background: bv32, stale: seq<bv32>, px: int, py: int)
    requires canvas.Valid(|mem|) && ReadyAll(font, stamps) && |stale| == |stamps| && canvas.Contains(px, py)
    ensures PixelAt(StampedAll(mem, canvas, font, stamps, background, stale), canvas, px, py)
            == PixelAfter(canvas.depth, font, stamps, background, px, py, PixelAt(mem, canvas, px, py))
    decreases |stamps|
  {
    if stamps != [] {
      var n := |stamps| - 1;
      StampedAllPixel(mem, canvas, font, stamps[..n], background, stale[..n], px, py);
      StampedPixel(StampedAll(mem, canvas, font, stamps[..n], background, stale[..n]), canvas, font, stamps[n], background, stale[n], px, py);
    }
  }

  /** Outside all boxes no byte of memory changes. */
  lemma {:induction false} StampedAllElsewhere(mem: seq<byte>, canvas: Canvas, font: Font, stamps: seq<Stamp>, background: bv32, stale: seq<bv32>, k: int)
    requires canvas.Valid(|mem|) && ReadyAll(font, stamps) && |stale| == |stamps| && 0 <= k < |mem|
    requires var g := canvas.Pixels();
             g.Contains(k) ==> !Covered(font, stamps, g.Col(k), g.Row(k))
    ensures StampedAll(mem, canvas, font, stamps, background, stale)[k] == mem[k]
    decreases |stamps|
  {
    if stamps != [] {
      var n, g := |stamps| - 1, canvas.Pixels();
      assert forall i :: 0 <= i < n ==> stamps[..n][i] == stamps[i];
      StampedAllElsewhere(mem, canvas, font, stamps[..n], background, stale[..n], k);
      StampedElsewhere(StampedAll(mem, canvas, font, stamps[..n], background, stale[..n]), canvas, font, stamps[n], background, stale[n], k);
    }
  }

  /** With an opaque background a covered pixel ends with channels that its old ones do not
      influence, and an uncovered one keeps its own. */
  lemma {:induction false} OpaqueHidesOld(depth: int, font: Font, stamps: seq<Stamp>, background: bv32, px: int, py: int, a: Rgb, b: Rgb)
    requires ReadyAll(font, stamps) && background != CLEAR_BACKGROUND
    ensures Covered(font, stamps, px, py) ==> PixelAfter(depth, font, stamps, background, px, py, a) == PixelAfter(depth, font, stamps, background, px, py, b)
    ensures !Covered(font, stamps, px, py) ==> PixelAfter(depth, font, stamps, background, px, py, a) == a
    decreases |stamps|
  {
    if stamps != [] {
      var n := |stamps| - 1;
      OpaqueHidesOld(depth, font, stamps[..n], background, px, py, a, b);
      assert forall i :: 0 <= i < n ==> stamps[..n][i] == stamps[i];
      if !stamps[n].Covers(font, px, py) {
        assert Covered(font, stamps, px, py) ==> Covered(font, stamps[..n], px, py);
      }
    }
  }

  /** Printed on an opaque background, a string leaves in every pixel of its boxes channels that
      do not depend on the frame it is printed on. */
  lemma OpaqueStringIndependent(mem: seq<byte>, mem': seq<byte>, canvas: Canvas, font: Font, stamps: seq<Stamp>, background: bv32,
                                stale: seq<bv32>, stale': seq<bv32>, px: int, py: int)
    requires |mem| == |mem'| && canvas.Valid(|mem|) && ReadyAll(font, stamps) && |stale| == |stale'| == |stamps|
    requires background != CLEAR_BACKGROUND && canvas.Contains(px, py)
    ensures Covered(font, stamps, px, py) ==>
              PixelAt(StampedAll(mem, canvas, font, stamps, background, stale), canvas, px, py)
              == PixelAt(StampedAll(mem', canvas, font, stamps, background, stale'), canvas, px, py)
    ensures !Covered(font, stamps, px, py) ==>
              PixelAt(StampedAll(mem, canvas, font, stamps, background, stale), canvas, px, py) == PixelAt(mem, canvas, px, py)
  {
    StampedAllPixel(mem, canvas, font, stamps, background, stale, px, py);
    StampedAllPixel(mem', canvas, font, stamps, background, stale', px, py);
    OpaqueHidesOld(canvas.depth, font, stamps, background, px, py, PixelAt(mem, canvas, px, py), PixelAt(mem', canvas, px, py));
  }

  /** Printing twice on an opaque background shows the same picture as printing once, overlapping
      boxes included. */
  lemma PrintTwiceIsOnce(mem: seq<byte>, canvas: Canvas, font: Font, text: string, start: Pen, color: bv32, background: bv32,
                         stale: seq<bv32>, stale': seq<bv32>, px: int, py: int)
    requires ValidFont(font) && PrintableText(text)
    requires canvas.Valid(|mem|) && |stale| == |stale'| == |Layout(font, text, start, start.x, color, background)|
    requires background != CLEAR_BACKGROUND && canvas.Contains(px, py)
    ensures ReadyAll(font, Layout(font, text, start, start.x, color, background))
    ensures var stamps := Layout(font, text, start, start.x, color, background);
            var once := StampedAll(mem, canvas, font, stamps, background, stale);
            PixelAt(StampedAll(once, canvas, font, stamps, background, stale'), canvas, px, py) == PixelAt(once, canvas, px, py)
  {
    var stamps := Layout(font, text, start, start.x, color, background);
    LayoutReady(font, text, start, start.x, color, background);
    var once := StampedAll(mem, canvas, font, stamps, background, stale);
    OpaqueStringIndependent(mem, once, canvas, font, stamps, background, stale, stale', px, py);
    OpaqueStringIndependent(once, mem, canvas, font, stamps, background, stale', stale, px, py);
  }

  /** The box of a blank is solid background: blending a colour with itself gives that colour,
      whatever the alpha bytes of '-' are. */
  lemma BlankIsSolid(mem: seq<byte>, canvas: Canvas, font: Font, stamp: Stamp, background: bv32, stale: bv32, px: int, py: int)
    requires canvas.Valid(|mem|) && Ready(font, stamp) && canvas.Contains(px, py)
    requires background != CLEAR_BACKGROUND && stamp.color == background && stamp.Covers(font, px, py)
    ensures PixelAt(Stamped(mem, canvas, font, stamp, background, stale), canvas, px, py) == Split(canvas.depth, background)
  {
    StampedPixel(mem, canvas, font, stamp, background, stale, px, py);
    SplitInRange(canvas.depth, background);
    BlendInRange(canvas.depth, Split(canvas.depth, background), Split(canvas.depth, background), GlyphOf(font, stamp.code).Alpha(py - stamp.y, px - stamp.x));
  }

  // ---- Lines

  /** The newline-separated lines of a string. */
  function Lines(text: string): (lines: seq<string>)
    ensures 0 < |lines|
  {
    if text == [] then [[]]
    else
      var before, c := Lines(text[..|text| - 1]), text[|text| - 1];
      if c == '\n' then before + [[]] else before[..|before| - 1] + [before[|before| - 1] + [c]]
  }

  /** Lines put together again with newlines between them. */
  function Joined(lines: seq<string>): string
    requires 0 < |lines|
  {
    var k := |lines| - 1;
    if k == 0 then lines[0] else Joined(lines[..k]) + ['\n'] + lines[k]
  }

  /** The lines of a string are its parts between newlines: joined they are the string, and none
      of them holds a newline. */
  lemma {:induction false} LinesJoined(text: string)
    ensures Joined(Lines(text)) == text
    ensures forall k :: 0 <= k < |Lines(text)| ==> OneLine(Lines(text)[k])
  {
    if text != [] {
      var before, c := Lines(text[..|text| - 1]), text[|text| - 1];
      LinesJoined(text[..|text| - 1]);
      if c == '\n' {
        JoinedNewline(before);
      } else {
        JoinedChar(before, c);
      }
    }
  }

  lemma JoinedNewline(lines: seq<string>)
    requires 0 < |lines|
    ensures Joined(lines + [[]]) == Joined(lines) + ['\n']
  {
    assert (lines + [[]])[..|lines|] == lines;
  }

  lemma JoinedChar(lines: seq<string>, c: char)
    requires 0 < |lines|
    ensures var k := |lines| - 1; Joined(lines[..k] + [lines[k] + [c]]) == Joined(lines) + [c]
  {
    var k := |lines| - 1;
    var longer := lines[..k] + [lines[k] + [c]];
    assert |longer| == k + 1 && longer[..k] == lines[..k] && longer[k] == lines[k] + [c];
    if k != 0 {
      AddedAtEnd(Joined(lines[..k]) + ['\n'], lines[k], [c]);
    }
  }

  lemma AddedAtEnd(a: string, b: string, c: string)
    ensures a + (b + c) == a + b + c
  {
  }

  predicate OneLine(text: string) {
    '\n' !in text
  }

  predicate AllLines(lines: seq<string>) {
    forall k :: 0 <= k < |lines| ==> PrintableText(lines[k]) && OneLine(lines[k])
  }

  /** The layouts of some lines, line k at a fixed left margin and k line heights down. */
  function LineLayouts(font: Font, lines: seq<string>, start: Pen, color: bv32, background: bv32): seq<Stamp>
    requires |font| == 94 && AllLines(lines)
  {
    if lines == [] then []
    else
      var k := |lines| - 1;
      LineLayouts(font, lines[..k], start, color, background)
      + Layout(font, lines[k], LineStart(font, start, k), start.x, color, background)
  }

  /** Where line k of some lines starts. */
  function LineStart(font: Font, start: Pen, k: nat): Pen
    requires |font| == 94
  {
    Pen(start.x, start.y + k * LineHeight(font))
  }

  lemma AddToLine(font: Font, lines: seq<string>, c: char, start: Pen, color: bv32, background: bv32)
    requires |font| == 94 && AllLines(lines) && 0 < |lines| && Printable(c) && c != '\n'
    ensures var k := |lines| - 1;
            var pen := LineStart(font, start, k);
            var longer := lines[..k] + [lines[k] + [c]];
            && AllLines(longer)
            && PenAfter(font, longer[k], pen, start.x) == Moved(font, c, PenAfter(font, lines[k], pen, start.x), start.x)
            && LineLayouts(font, longer, start, color, background)
               == LineLayouts(font, lines, start, color, background) + CharStamps(font, c, PenAfter(font, lines[k], pen, start.x), color, background)
  {
    var k := |lines| - 1;
    var longer := lines[..k] + [lines[k] + [c]];
    var pen := LineStart(font, start, k);
    assert (lines[k] + [c])[..|lines[k]|] == lines[k];
    assert longer[..k] == lines[..k];
    Reassociate(LineLayouts(font, lines[..k], start, color, background), Layout(font, lines[k], pen, start.x, color, background),
                CharStamps(font, c, PenAfter(font, lines[k], pen, start.x), color, background));
  }

  lemma AddLine(font: Font, lines: seq<string>, start: Pen, color: bv32, background: bv32)
    requires |font| == 94 && AllLines(lines)
    ensures AllLines(lines + [[]]) && LineLayouts(font, lines + [[]], start, color, background) == LineLayouts(font, lines, start, color, background)
  {
    assert (lines + [[]])[..|lines|] == lines;
  }

  /** Within a line the pen stays at its height. */
  lemma {:induction false} PenHeight(font: Font, text: string, start: Pen, left: int)
    requires |font| == 94 && PrintableText(text) && OneLine(text)
    ensures PenAfter(font, text, start, left).y == start.y
  {
    if text != [] {
      PenHeight(font, text[..|text| - 1], start, left);
    }
  }

  /** The pen of a string is the pen of its last line. */
  ghost predicate PenOnLastLine(font: Font, text: string, start: Pen)
    requires |font| == 94 && PrintableText(text) && AllLines(Lines(text))
  {
    var k := |Lines(text)| - 1;
    PenAfter(font, text, start, start.x) == PenAfter(font, Lines(text)[k], LineStart(font, start, k), start.x)
  }

  lemma LinesNewline(font: Font, text: string, start: Pen)
    requires |font| == 94 && PrintableText(text) && AllLines(Lines(text)) && PenOnLastLine(font, text, start)
    ensures Moved(font, '\n', PenAfter(font, text, start, start.x), start.x) == LineStart(font, start, |Lines(text)|)
  {
    var k := |Lines(text)| - 1;
    PenHeight(font, Lines(text)[k], LineStart(font, start, k), start.x);
    NextLineStart(font, start, k);
  }

  lemma NextLineStart(font: Font, start: Pen, k: nat)
    requires |font| == 94
    ensures LineStart(font, start, k + 1) == Pen(start.x, LineStart(font, start, k).y + LineHeight(font))
  {
    assert (k + 1) * LineHeight(font) == k * LineHeight(font) + LineHeight(font);
  }

  /** What the induction over a string keeps: pen and layout are those of its lines. */
  ghost predicate LaidOutByLine(font: Font, text: string, start: Pen, color: bv32, background: bv32)
    requires |font| == 94 && PrintableText(text)
  {
    && AllLines(Lines(text)) && PenOnLastLine(font, text, start)
    && Layout(font, text, start, start.x, color, background) == LineLayouts(font, Lines(text), start, color, background)
  }

  lemma NewlineLaidOut(font: Font, text: string, start: Pen, color: bv32, background: bv32)
    requires |font| == 94 && PrintableText(text) && text != [] && text[|text| - 1] == '\n'
    requires LaidOutByLine(font, text[..|text| - 1], start, color, background)
    ensures LaidOutByLine(font, text, start, color, background)
  {
    var before := text[..|text| - 1];
    LinesNewline(font, before, start);
    AddLine(font, Lines(before), start, color, background);
  }

  lemma CharLaidOut(font: Font, text: string, start: Pen, color: bv32, background: bv32)
    requires |font| == 94 && PrintableText(text) && text != [] && text[|text| - 1] != '\n'
    requires LaidOutByLine(font, text[..|text| - 1], start, color, background)
    ensures LaidOutByLine(font, text, start, color, background)
  {
    AddToLine(font, Lines(text[..|text| - 1]), text[|text| - 1], start, color, background);
  }

  /** The layout of a string is the layouts of its lines. */
  lemma {:induction false} LinesLayout(font: Font, text: string, start: Pen, color: bv32, background: bv32)
    requires |font| == 94 && PrintableText(text)
    ensures LaidOutByLine(font, text, start, color, background)
  {
    if text == [] {
      AddLine(font, [], start, color, background);
    } else {
      LinesLayout(font, text[..|text| - 1], start, color, background);
      if text[|text| - 1] == '\n' {
        NewlineLaidOut(font, text, start, color, background);
      } else {
        CharLaidOut(font, text, start, color, background);
      }
    }
  }

  /** Memory after printing lines one by one, line k at the left margin, k line heights down. */
  ghost function LinesStamped(mem: seq<byte>, canvas: Canvas, font: Font, lines: seq<string>, start: Pen, color: bv32, background: bv32, stale: seq<bv32>): (after: seq<byte>)
    requires canvas.Valid(|mem|) && ValidFont(font) && AllLines(lines)
    requires |stale| == |LineLayouts(font, lines, start, color, background)|
    ensures |after| == |mem|
  {
    if lines == [] then mem
    else
      var k := |lines| - 1;
      var n := |LineLayouts(font, lines[..k], start, color, background)|;
      var pen := LineStart(font, start, k);
      LayoutReady(font, lines[k], pen, start.x, color, background);
      StampedAll(LinesStamped(mem, canvas, font, lines[..k], start, color, background, stale[..n]),
                 canvas, font, Layout(font, lines[k], pen, start.x, color, background), background, stale[n..])
  }

  lemma {:induction false} LinesStampedLayout(mem: seq<byte>, canvas: Canvas, font: Font, lines: seq<string>, start: Pen, color: bv32, background: bv32, stale: seq<bv32>)
    requires canvas.Valid(|mem|) && ValidFont(font) && AllLines(lines)
    requires |stale| == |LineLayouts(font, lines, start, color, background)|
    ensures ReadyAll(font, LineLayouts(font, lines, start, color, background))
    ensures LinesStamped(mem, canvas, font, lines, start, color, background, stale)
            == StampedAll(mem, canvas, font, LineLayouts(font, lines, start, color, background), background, stale)
  {
    if lines != [] {
      var k := |lines| - 1;
      var above := LineLayouts(font, lines[..k], start, color, background);
      var pen := LineStart(font, start, k);
      var last := Layout(font, lines[k], pen, start.x, color, background);
      LinesStampedLayout(mem, canvas, font, lines[..k], start, color, background, stale[..|above|]);
      LayoutReady(font, lines[k], pen, start.x, color, background);
      StampedConcat(mem, canvas, font, above, last, background, stale);
    }
  }

  /** Printing a multi-line string is printing each of its lines on its own, line k at the
      original left margin and k heights of '|' down; for clear and opaque backgrounds. */
  lemma MultiLineIsLineByLine(mem: seq<byte>, canvas: Canvas, font: Font, text: string, start: Pen, color: bv32, background: bv32, stale: seq<bv32>)
    requires canvas.Valid(|mem|) && ValidFont(font) && PrintableText(text)
    requires |stale| == |Layout(font, text, start, start.x, color, background)|
    ensures AllLines(Lines(text)) && ReadyAll(font, Layout(font, text, start, start.x, color, background))
    ensures |LineLayouts(font, Lines(text), start, color, background)| == |stale|
    ensures StampedAll(mem, canvas, font, Layout(font, text, start, start.x, color, background), background, stale)
            == LinesStamped(mem, canvas, font, Lines(text), start, color, background, stale)
  {
    LinesLayout(font, text, start, color, background);
    LayoutReady(font, text, start, start.x, color, background);
    LinesStampedLayout(mem, canvas, font, Lines(text), start, color, background, stale);
  }
}
