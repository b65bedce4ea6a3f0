/** Drawing a string (vid_print_string_alpha), and what that is for the frame reader. */
module StringPrinter {
  import opened Bytes
  import opened Raster
  import opened Channels
  import opened FrameReader
  import opened Glyphs
  import opened Strings
  import opened StringTheorems

  // ---- A drawing step of the frame reader

  /** A change confined to the draw frame is a drawing step of the reader. */
  lemma LocalChangeIsDraw(r: Reader, after: seq<byte>, f: int -> byte)
    requires r.Valid() && |after| == |r.mem|
    requires forall k :: 0 <= k < |after| && !(r.DrawBase() <= k < r.DrawBase() + r.size) ==> after[k] == r.mem[k]
    requires forall k :: r.DrawBase() <= k < r.DrawBase() + r.size ==> f(k - r.DrawBase()) == after[k]
    ensures Step(r, Draw(f)) == r.(mem := after)
  {
    StoredIsSplice(r.mem, after, r.DrawBase(), seq(r.size, f));
  }

  /** The picture a printed text leaves in the draw frame. */
  ghost function DrawnPicture(after: seq<byte>, base: int): int -> byte {
    i => if 0 <= base + i < |after| then after[base + i] else 0
  }

  /** The pixels of a canvas lie in the first height * width * unit bytes from its base. */
  lemma CanvasExtent(canvas: Canvas, length: int, k: int)
    requires canvas.Valid(length) && canvas.Pixels().Contains(k)
    ensures canvas.base <= k < canvas.base + canvas.height * canvas.width * canvas.Unit()
  {
    var g := canvas.Pixels();
    Encode(g, k);
    CellInBounds(g, g.Row(k), g.Col(k), g.rows - 1, g.cols);
    GridEnd(g);
  }

  /** Printing text is a drawing step of the frame reader, so over every run it stays off the
      screen until the next swap. */
  lemma PrintingIsDrawing(r: Reader, canvas: Canvas, font: Font, stamps: seq<Stamp>, background: bv32, stale: seq<bv32>)
    requires r.Valid() && canvas.Valid(|r.mem|) && canvas.base == r.DrawBase()
    requires canvas.height * canvas.width * canvas.Unit() <= r.size
    requires ReadyAll(font, stamps) && |stale| == |stamps|
    ensures var after := StampedAll(r.mem, canvas, font, stamps, background, stale);
            Step(r, Draw(DrawnPicture(after, r.DrawBase()))) == r.(mem := after)
  {
    var after := StampedAll(r.mem, canvas, font, stamps, background, stale);
    forall k | 0 <= k < |after| && !(r.DrawBase() <= k < r.DrawBase() + r.size)
      ensures after[k] == r.mem[k]
    {
      if canvas.Pixels().Contains(k) {
        CanvasExtent(canvas, |r.mem|, k);
      }
      StampedAllElsewhere(r.mem, canvas, font, stamps, background, stale, k);
    }
    LocalChangeIsDraw(r, after, DrawnPicture(after, r.DrawBase()));
  }

  /** A pixel of the colour depth is no larger than the pixels of the frame. */
  predicate FrameHolds(display: VipFrameReader)
    reads display
  {
    Supported(display.colorDepth) ==> display.colorDepth / 8 <= display.bytesPerPixel
  }

  lemma CanvasFits(width: int, height: int, unit: int, bytesPerPixel: int)
    requires 0 <= width && 0 <= height && unit <= bytesPerPixel
    ensures height * width * unit <= width * height * bytesPerPixel
  {
    Scaled(0, width, height);
    assert width * height == height * width;
    assert 0 <= height * width * (bytesPerPixel - unit);
  }

  /** What the string loop has drawn is a drawing step. */
  lemma DrawingIsDraw(r: Reader, after: seq<byte>, canvas: Canvas, font: Font, stamps: seq<Stamp>, background: bv32, stale: seq<bv32>, bytesPerPixel: int)
    requires r.Valid() && canvas.base == r.DrawBase() && r.size == canvas.width * canvas.height * bytesPerPixel
    requires Supported(canvas.depth) ==> canvas.Unit() <= bytesPerPixel
    requires Drawing(r.mem, after, canvas, font, stamps, background, stale)
    ensures r.(mem := after) == Step(r, Draw(DrawnPicture(after, r.DrawBase())))
  {
    if Supported(canvas.depth) {
      CanvasFits(canvas.width, canvas.height, canvas.Unit(), bytesPerPixel);
      PrintingIsDrawing(r, canvas, font, stamps, background, stale);
    } else {
      LocalChangeIsDraw(r, after, DrawnPicture(after, r.DrawBase()));
    }
  }

  // ---- The code

  /** What the string loop has drawn: `stamps` on top of `was`, or nothing at an unsupported depth. */
  ghost predicate Drawing(was: seq<byte>, mem: seq<byte>, canvas: Canvas, font: Font, stamps: seq<Stamp>, background: bv32, stale: seq<bv32>)
  {
    && ReadyAll(font, stamps)
    && (if Supported(canvas.depth) then
          canvas.Valid(|was|) && |stale| == |stamps| && mem == StampedAll(was, canvas, font, stamps, background, stale)
        else
          mem == was)
  }

  lemma DrawingNext(was: seq<byte>, mem: seq<byte>, canvas: Canvas, font: Font, stamps: seq<Stamp>, background: bv32, stale: seq<bv32>, stamp: Stamp, top: bv32, after: seq<byte>)
    requires InFont(stamp.code) && Drawing(was, mem, canvas, font, stamps, background, stale)
    requires Supported(canvas.depth) ==> after == Stamped(mem, canvas, font, stamp, background, top)
    requires !Supported(canvas.depth) ==> after == mem
    ensures Drawing(was, after, canvas, font, stamps + [stamp], background, stale + [top])
  {
    assert (stamps + [stamp])[..|stamps|] == stamps && (stale + [top])[..|stale|] == stale;
  }

  /** One character on top of those drawn so far. */
  method PrintNext(display: VipFrameReader, stamp: Stamp, background: bv32, font: Font,
                   ghost was: seq<byte>, ghost canvas: Canvas, ghost stamps: seq<Stamp>, ghost stale: seq<bv32>)
    returns (ghost stale': seq<bv32>)
    requires InFont(stamp.code) && canvas == CanvasOf(display)
    requires Drawing(was, display.mem[..], canvas, font, stamps, background, stale)
    requires Supported(canvas.depth) ==> |was| == display.mem.Length && stamp.Inside(font, canvas)
    modifies display.mem
    ensures canvas == CanvasOf(display)
    ensures Drawing(was, display.mem[..], canvas, font, stamps + [stamp], background, stale')
  {
    ghost var before := display.mem[..];
    var ret;
    ghost var top;
    ret, top := VidPrintCharAlpha(display, stamp.x, stamp.y, stamp.color, stamp.code, background, font);
    DrawingNext(was, before, canvas, font, stamps, background, stale, stamp, top, display.mem[..]);
    stale' := stale + [top];
  }

  /** A tab: the box of a blank, TAB_SPACING times. */
  method PrintTab(display: VipFrameReader, x: int, y: int, background: bv32, font: Font,
                  ghost was: seq<byte>, ghost canvas: Canvas, ghost done: seq<Stamp>, ghost stale0: seq<bv32>)
    returns (horiz: int, ghost stale: seq<bv32>)
    requires canvas == CanvasOf(display)
    requires Drawing(was, display.mem[..], canvas, font, done, background, stale0)
    requires Supported(canvas.depth) ==> |was| == display.mem.Length
    requires Supported(canvas.depth) && background != CLEAR_BACKGROUND ==> InsideAll(font, TabStamps(font, Pen(x, y), background, TAB_SPACING), canvas)
    modifies display.mem
    ensures canvas == CanvasOf(display) && horiz == x + TAB_SPACING * BlankWidth(font)
    ensures Drawing(was, display.mem[..], canvas, font, done + CharStamps(font, '\t', Pen(x, y), 0, background), background, stale)
  {
    ghost var pen := Pen(x, y);
    var tab := 0;
    horiz, stale := x, stale0;
    assert done + [] == done;
    while tab < TAB_SPACING
      invariant 0 <= tab <= TAB_SPACING && canvas == CanvasOf(display)
      invariant horiz == x + tab * BlankWidth(font)
      invariant Drawing(was, display.mem[..], canvas, font, done + TabPart(font, pen, background, tab), background, stale)
    {
      if background != CLEAR_BACKGROUND {
        stale := PrintBlank(display, horiz, y, background, font, was, canvas, done, stale, pen, tab);
      }
      horiz := horiz + GlyphOf(font, '-').boundsWidth;
      tab := tab + 1;
    }
  }

  /** One blank of a tab. */
  method PrintBlank(display: VipFrameReader, x: int, y: int, background: bv32, font: Font,
                    ghost was: seq<byte>, ghost canvas: Canvas, ghost done: seq<Stamp>, ghost stale0: seq<bv32>, ghost pen: Pen, ghost tab: nat)
    returns (ghost stale: seq<bv32>)
    requires |font| == 94 && canvas == CanvasOf(display) && tab < TAB_SPACING
    requires x == pen.x + tab * BlankWidth(font) && y == pen.y
    requires Drawing(was, display.mem[..], canvas, font, done + TabStamps(font, pen, background, tab), background, stale0)
    requires Supported(canvas.depth) ==> |was| == display.mem.Length && InsideAll(font, TabStamps(font, pen, background, TAB_SPACING), canvas)
    modifies display.mem
    ensures canvas == CanvasOf(display)
    ensures Drawing(was, display.mem[..], canvas, font, done + TabStamps(font, pen, background, tab + 1), background, stale)
  {
    TabStampInside(font, pen, background, tab, TAB_SPACING);
    TabNext(done, font, pen, background, tab, Stamp(x, y, '-', background));
    stale := PrintNext(display, Stamp(x, y, '-', background), background, font, was, canvas, done + TabStamps(font, pen, background, tab), stale0);
  }

  /** The blanks a tab draws in its first `n` steps. */
  ghost function TabPart(font: Font, pen: Pen, background: bv32, n: nat): seq<Stamp>
    requires |font| == 94
  {
    if background == CLEAR_BACKGROUND then [] else TabStamps(font, pen, background, n)
  }

  lemma TabNext(done: seq<Stamp>, font: Font, pen: Pen, background: bv32, tab: nat, next: Stamp)
    requires |font| == 94 && next == Stamp(pen.x + tab * BlankWidth(font), pen.y, '-', background)
    ensures done + TabStamps(font, pen, background, tab + 1) == done + TabStamps(font, pen, background, tab) + [next]
  {
  }

  lemma {:induction false} TabStampInside(font: Font, pen: Pen, background: bv32, i: nat, n: nat)
    requires |font| == 94 && i < n
    ensures |TabStamps(font, pen, background, n)| == n
    ensures TabStamps(font, pen, background, n)[i] == Stamp(pen.x + i * BlankWidth(font), pen.y, '-', background)
  {
    if i < n - 1 {
      TabStampInside(font, pen, background, i, n - 1);
    } else if 1 < n {
      TabStampInside(font, pen, background, 0, n - 1);
    }
  }

  /** The body of the string loop for a character other than a newline. */
  method PrintOne(display: VipFrameReader, c: char, x: int, y: int, color: bv32, background: bv32, font: Font,
                  ghost was: seq<byte>, ghost canvas: Canvas, ghost done: seq<Stamp>, ghost stale0: seq<bv32>)
    returns (horiz: int, ghost stale: seq<bv32>)
    requires Printable(c) && c != '\n' && canvas == CanvasOf(display)
    requires Drawing(was, display.mem[..], canvas, font, done, background, stale0)
    requires Supported(canvas.depth) ==> |was| == display.mem.Length && InsideAll(font, CharStamps(font, c, Pen(x, y), color, background), canvas)
    modifies display.mem
    ensures canvas == CanvasOf(display) && Pen(horiz, y) == Moved(font, c, Pen(x, y), 0)
    ensures Drawing(was, display.mem[..], canvas, font, done + CharStamps(font, c, Pen(x, y), color, background), background, stale)
  {
    ghost var stamps := CharStamps(font, c, Pen(x, y), color, background);
    stale := stale0;
    if c == ' ' {
      if background != CLEAR_BACKGROUND {
        assert stamps[0] == Stamp(x, y, '-', background);
        stale := PrintNext(display, Stamp(x, y, '-', background), background, font, was, canvas, done, stale);
      } else {
        assert done + stamps == done;
      }
      horiz := x + GlyphOf(font, '-').boundsWidth;
    } else if c == '\t' {
      horiz, stale := PrintTab(display, x, y, background, font, was, canvas, done, stale);
    } else {
      assert stamps[0] == Stamp(x, y, c, color);
      stale := PrintNext(display, Stamp(x, y, c, color), background, font, was, canvas, done, stale);
      horiz := x + GlyphOf(font, c).boundsWidth;
    }
  }

  /** The string being drawn: its font, where it starts, and its colours. */
  datatype Line = Line(font: Font, text: string, start: Pen, color: bv32, background: bv32) {

    predicate Valid() {
      ValidFont(font) && PrintableText(text)
    }

    /** The pen and the characters of the first `i` positions. */
    function PenAt(i: nat): Pen
      requires Valid() && i <= |text|
    {
      PenAfter(font, text[..i], start, start.x)
    }

    function StampsTo(i: nat): seq<Stamp>
      requires Valid() && i <= |text|
    {
      Layout(font, text[..i], start, start.x, color, background)
    }

    predicate Inside(canvas: Canvas)
      requires Valid()
    {
      InsideAll(font, Layout(font, text, start, start.x, color, background), canvas)
    }
  }

  /** The body of the string loop. */
  method PrintAt(display: VipFrameReader, i: nat, horiz0: int, vert0: int, line: Line,
                 ghost was: seq<byte>, ghost canvas: Canvas, ghost stale0: seq<bv32>)
    returns (horiz: int, vert: int, ghost stale: seq<bv32>)
    requires line.Valid() && i < |line.text| && canvas == CanvasOf(display) && Pen(horiz0, vert0) == line.PenAt(i)
    requires Drawing(was, display.mem[..], canvas, line.font, line.StampsTo(i), line.background, stale0)
    requires Supported(canvas.depth) ==> |was| == display.mem.Length && line.Inside(canvas)
    modifies display.mem
    ensures canvas == CanvasOf(display) && Pen(horiz, vert) == line.PenAt(i + 1)
    ensures Drawing(was, display.mem[..], canvas, line.font, line.StampsTo(i + 1), line.background, stale)
  {
    LayoutStep(line.font, line.text, i, line.start, line.start.x, line.color, line.background);
    if Supported(canvas.depth) {
      CharInside(line.font, line.text, i, line.start, line.start.x, line.color, line.background, canvas);
    }
    stale := stale0;
    if line.text[i] == '\n' {
      assert line.StampsTo(i + 1) == line.StampsTo(i);
      horiz := line.start.x;
      vert := vert0 + GlyphOf(line.font, '|').boundsHeight;
    } else {
      vert := vert0;
      horiz, stale := PrintOne(display, line.text[i], horiz0, vert0, line.color, line.background, line.font, was, canvas, line.StampsTo(i), stale);
    }
  }

  /** vid_print_string_alpha. */
  method VidPrintStringAlpha(display: VipFrameReader, x: int, y: int, color: bv32, background: bv32, font: Font, text: string)
    returns (ret: int, ghost stale: seq<bv32>)
    requires ValidFont(font) && PrintableText(text)
    requires Supported(display.colorDepth) ==>
               && CanvasOf(display).Valid(display.mem.Length)
               && InsideAll(font, Layout(font, text, Pen(x, y), x, color, background), CanvasOf(display))
    modifies display.mem
    ensures ret == 0
    ensures Drawing(old(display.mem[..]), display.mem[..], old(CanvasOf(display)), font, Layout(font, text, Pen(x, y), x, color, background), background, stale)
    ensures old(display.State().Valid()) && FrameHolds(display) ==>
              display.State() == Step(old(display.State()), Draw(DrawnPicture(display.mem[..], display.State().DrawBase())))
  {
    ghost var r := display.State();
    ghost var was, canvas := display.mem[..], CanvasOf(display);
    var line := Line(font, text, Pen(x, y), color, background);
    var i, horiz, vert := 0, x, y;
    stale := [];
    while i < |text|
      invariant 0 <= i <= |text| && canvas == CanvasOf(display)
      invariant Pen(horiz, vert) == line.PenAt(i)
      invariant Drawing(was, display.mem[..], canvas, font, line.StampsTo(i), background, stale)
    {
      horiz, vert, stale := PrintAt(display, i, horiz, vert, line, was, canvas, stale);
      i := i + 1;
    }
    assert text[..i] == text;
    if r.Valid() && FrameHolds(display) {
      DrawingIsDraw(r, display.mem[..], canvas, font, Layout(font, text, Pen(x, y), x, color, background), background, stale, display.bytesPerPixel);
    }
    ret := 0;
  }
}
