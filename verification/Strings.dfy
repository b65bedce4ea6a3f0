/** The characters a string is drawn as, in order, and where the pen goes. */
module Strings {
  import opened Bytes
  import opened Channels
  import opened FrameReader
  import opened Glyphs

  const TAB_SPACING := 2

  datatype Pen = Pen(x: int, y: int)

  /** Characters the string loop can handle: those of the font, blanks, tabs and newlines. */
  predicate Printable(c: char) {
    InFont(c) || c == ' ' || c == '\t' || c == '\n'
  }

  predicate PrintableText(text: string) {
    forall i :: 0 <= i < |text| ==> Printable(text[i])
  }

  /** A blank is as wide as '-', a line as high as '|'. */
  function BlankWidth(font: Font): nat
    requires |font| == 94
  {
    GlyphOf(font, '-').boundsWidth
  }

  function LineHeight(font: Font): nat
    requires |font| == 94
  {
    GlyphOf(font, '|').boundsHeight
  }

  /** The pen after one character of a string that started at column `left`. */
  function Moved(font: Font, c: char, pen: Pen, left: int): Pen
    requires |font| == 94 && Printable(c)
  {
    if c == '\n' then Pen(left, pen.y + LineHeight(font))
    else if c == ' ' then Pen(pen.x + BlankWidth(font), pen.y)
    else if c == '\t' then Pen(pen.x + TAB_SPACING * BlankWidth(font), pen.y)
    else Pen(pen.x + GlyphOf(font, c).boundsWidth, pen.y)
  }

  /** The characters drawn for one character of the string: blanks and tabs are boxes in the
      background colour, unless the background is clear. */
  function CharStamps(font: Font, c: char, pen: Pen, color: bv32, background: bv32): seq<Stamp>
    requires |font| == 94 && Printable(c)
  {
    if c == '\n' then []
    else if c == ' ' then
      if background == CLEAR_BACKGROUND then [] else [Stamp(pen.x, pen.y, '-', background)]
    else if c == '\t' then
      if background == CLEAR_BACKGROUND then [] else TabStamps(font, pen, background, TAB_SPACING)
    else [Stamp(pen.x, pen.y, c, color)]
  }

  function TabStamps(font: Font, pen: Pen, background: bv32, n: nat): seq<Stamp>
    requires |font| == 94
  {
    if n == 0 then [] else TabStamps(font, pen, background, n - 1) + [Stamp(pen.x + (n - 1) * BlankWidth(font), pen.y, '-', background)]
  }

  /** The pen after a string. */
  function PenAfter(font: Font, text: string, start: Pen, left: int): Pen
    requires |font| == 94 && PrintableText(text)
  {
    if text == [] then start
    else Moved(font, text[|text| - 1], PenAfter(font, text[..|text| - 1], start, left), left)
  }

  /** The characters drawn for a string, in order. */
  function Layout(font: Font, text: string, start: Pen, left: int, color: bv32, background: bv32): seq<Stamp>
    requires |font| == 94 && PrintableText(text)
  {
    if text == [] then []
    else
      var before := text[..|text| - 1];
      Layout(font, before, start, left, color, background)
      + CharStamps(font, text[|text| - 1], PenAfter(font, before, start, left), color, background)
  }

  predicate ReadyAll(font: Font, stamps: seq<Stamp>) {
    ValidFont(font) && forall i :: 0 <= i < |stamps| ==> InFont(stamps[i].code)
  }

  predicate InsideAll(font: Font, stamps: seq<Stamp>, canvas: Canvas)
    requires |font| == 94
  {
    forall i :: 0 <= i < |stamps| ==> InFont(stamps[i].code) && stamps[i].Inside(font, canvas)
  }

  /** Memory after drawing some characters one after another; `stale` holds, for each, what its
      colour variable held before. */
  ghost function StampedAll(mem: seq<byte>, canvas: Canvas, font: Font, stamps: seq<Stamp>, background: bv32, stale: seq<bv32>): (after: seq<byte>)
    requires canvas.Valid(|mem|) && ReadyAll(font, stamps) && |stale| == |stamps|
    ensures |after| == |mem|
    decreases |stamps|
  {
    if stamps == [] then mem
    else
      var n := |stamps| - 1;
      Stamped(StampedAll(mem, canvas, font, stamps[..n], background, stale[..n]), canvas, font, stamps[n], background, stale[n])
  }

  lemma {:induction false} TabStampsReady(font: Font, pen: Pen, background: bv32, n: nat)
    requires ValidFont(font)
    ensures ReadyAll(font, TabStamps(font, pen, background, n)) && |TabStamps(font, pen, background, n)| == n
  {
    if n != 0 {
      TabStampsReady(font, pen, background, n - 1);
    }
  }

  lemma {:induction false} LayoutReady(font: Font, text: string, start: Pen, left: int, color: bv32, background: bv32)
    requires ValidFont(font) && PrintableText(text)
    ensures ReadyAll(font, Layout(font, text, start, left, color, background))
  {
    if text != [] {
      LayoutReady(font, text[..|text| - 1], start, left, color, background);
      TabStampsReady(font, PenAfter(font, text[..|text| - 1], start, left), background, TAB_SPACING);
    }
  }

  // ---- Strings in parts

  lemma LastOfConcat(s: string, t: string)
    requires t != []
    ensures (s + t)[..|s + t| - 1] == s + t[..|t| - 1] && (s + t)[|s + t| - 1] == t[|t| - 1]
  {
  }

  lemma {:induction false} PenConcat(font: Font, s: string, t: string, start: Pen, left: int)
    requires |font| == 94 && PrintableText(s) && PrintableText(t)
    ensures PenAfter(font, s + t, start, left) == PenAfter(font, t, PenAfter(font, s, start, left), left)
    decreases |t|
  {
    if t == [] {
      assert s + t == s;
    } else {
      LastOfConcat(s, t);
      PenConcat(font, s, t[..|t| - 1], start, left);
    }
  }

  lemma Reassociate(a: seq<Stamp>, b: seq<Stamp>, c: seq<Stamp>)
    ensures a + b + c == a + (b + c)
  {
  }

  /** The layout of a string in two parts: the second part starts where the pen is. */
  lemma {:induction false} LayoutConcat(font: Font, s: string, t: string, start: Pen, left: int, color: bv32, background: bv32)
    requires |font| == 94 && PrintableText(s) && PrintableText(t)
    ensures Layout(font, s + t, start, left, color, background)
            == Layout(font, s, start, left, color, background) + Layout(font, t, PenAfter(font, s, start, left), left, color, background)
    decreases |t|
  {
    if t == [] {
      assert s + t == s;
    } else {
      var t', c, pen := t[..|t| - 1], t[|t| - 1], PenAfter(font, s, start, left);
      var last := CharStamps(font, c, PenAfter(font, t', pen, left), color, background);
      LastOfConcat(s, t);
      PenConcat(font, s, t', start, left);
      assert Layout(font, s + t, start, left, color, background) == Layout(font, s + t', start, left, color, background) + last;
      LayoutConcat(font, s, t', start, left, color, background);
      Reassociate(Layout(font, s, start, left, color, background), Layout(font, t', pen, left, color, background), last);
    }
  }

  /** Drawing a list of characters in two parts. */
  lemma {:induction false} StampedConcat(mem: seq<byte>, canvas: Canvas, font: Font, a: seq<Stamp>, b: seq<Stamp>, background: bv32, stale: seq<bv32>)
    requires canvas.Valid(|mem|) && ReadyAll(font, a) && ReadyAll(font, b) && |stale| == |a| + |b|
    ensures ReadyAll(font, a + b)
    ensures StampedAll(mem, canvas, font, a + b, background, stale)
            == StampedAll(StampedAll(mem, canvas, font, a, background, stale[..|a|]), canvas, font, b, background, stale[|a|..])
    decreases |b|
  {
    if b == [] {
      assert a + b == a && stale[..|a|] == stale;
    } else {
      var n, m := |b| - 1, |stale| - 1;
      assert (a + b)[..|a + b| - 1] == a + b[..n];
      assert stale[..m][..|a|] == stale[..|a|] && stale[..m][|a|..] == stale[|a|..][..n];
      StampedConcat(mem, canvas, font, a, b[..n], background, stale[..m]);
      StampedLast(mem, canvas, font, a + b, background, stale);
      StampedLast(StampedAll(mem, canvas, font, a, background, stale[..|a|]), canvas, font, b, background, stale[|a|..]);
    }
  }

  lemma StampedLast(mem: seq<byte>, canvas: Canvas, font: Font, stamps: seq<Stamp>, background: bv32, stale: seq<bv32>)
    requires canvas.Valid(|mem|) && ReadyAll(font, stamps) && |stale| == |stamps| && 0 < |stamps|
    ensures var n := |stamps| - 1;
            StampedAll(mem, canvas, font, stamps, background, stale)
            == Stamped(StampedAll(mem, canvas, font, stamps[..n], background, stale[..n]), canvas, font, stamps[n], background, stale[n])
  {
  }

  /** One position further: the pen moves and the characters of that position are added. */
  lemma LayoutStep(font: Font, text: string, i: nat, start: Pen, left: int, color: bv32, background: bv32)
    requires |font| == 94 && PrintableText(text) && i < |text|
    ensures var pen := PenAfter(font, text[..i], start, left);
            && PenAfter(font, text[..i + 1], start, left) == Moved(font, text[i], pen, left)
            && Layout(font, text[..i + 1], start, left, color, background)
               == Layout(font, text[..i], start, left, color, background) + CharStamps(font, text[i], pen, color, background)
  {
    assert text[..i + 1][..i] == text[..i];
  }

  /** The characters of one position of a string are among those of the string. */
  lemma CharInside(font: Font, text: string, i: nat, start: Pen, left: int, color: bv32, background: bv32, canvas: Canvas)
    requires ValidFont(font) && PrintableText(text) && i < |text|
    requires InsideAll(font, Layout(font, text, start, left, color, background), canvas)
    ensures var stamps := CharStamps(font, text[i], PenAfter(font, text[..i], start, left), color, background);
            InsideAll(font, stamps, canvas)
  {
    var before := Layout(font, text[..i], start, left, color, background);
    var stamps := CharStamps(font, text[i], PenAfter(font, text[..i], start, left), color, background);
    var rest := Layout(font, text[i + 1..], PenAfter(font, text[..i + 1], start, left), left, color, background);
    assert Layout(font, text, start, left, color, background) == before + stamps + rest by {
      assert text == text[..i + 1] + text[i + 1..];
      LayoutConcat(font, text[..i + 1], text[i + 1..], start, left, color, background);
      LayoutStep(font, text, i, start, left, color, background);
    }
    PartInside(font, before, stamps, rest, canvas);
  }

  lemma PartInside(font: Font, a: seq<Stamp>, b: seq<Stamp>, c: seq<Stamp>, canvas: Canvas)
    requires |font| == 94 && InsideAll(font, a + b + c, canvas)
    ensures InsideAll(font, b, canvas)
  {
    forall k | 0 <= k < |b|
      ensures b[k] == (a + b + c)[|a| + k]
    {
    }
  }
}
