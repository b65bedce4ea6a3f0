/** Drawing one character with an alpha-mapped font (vid_print_char_alpha). */
module Glyphs {
  import opened Bytes
  import opened Raster
  import opened Channels
  import opened FrameReader

  /** The background colour that stands for "no box behind the text". */
  const CLEAR_BACKGROUND: bv32 := 0xffff_ffff

  /** A character of a font: its box, and one alpha byte per pixel of the box, row by row. */
  datatype Glyph = Glyph(boundsWidth: nat, boundsHeight: nat, alphaMap: seq<byte>) {
    predicate Valid() {
      boundsWidth * boundsHeight <= |alphaMap|
    }

    /** The alpha of a pixel of the box. */
    function Alpha(row: int, col: int): byte {
      var i := row * boundsWidth + col;
      if 0 <= i < |alphaMap| then alphaMap[i] else 0
    }
  }

  /** A font holds the characters '!' to '~'. */
  type Font = seq<Glyph>

  predicate InFont(c: char) {
    33 <= c as int <= 126
  }

  predicate ValidFont(font: Font) {
    |font| == 94 && forall i :: 0 <= i < |font| ==> font[i].Valid()
  }

  function GlyphOf(font: Font, c: char): Glyph
    requires |font| == 94 && InFont(c)
  {
    font[c as int - 33]
  }

  /** The draw frame as the text code addresses it. */
  datatype Canvas = Canvas(base: int, depth: int, width: int, height: int) {

    function Unit(): int {
      depth / 8
    }

    function Pixels(): Grid {
      Grid(base, Unit(), width, height)
    }

    /** A supported depth, and all pixels in memory. */
    predicate Valid(length: int) {
      Supported(depth) && 0 <= base && 0 <= width && 0 <= height && base + height * width * Unit() <= length
    }

    predicate Contains(px: int, py: int) {
      0 <= px < width && 0 <= py < height
    }
  }

  lemma PixelInBounds(canvas: Canvas, length: int, px: int, py: int)
    requires canvas.Valid(length) && canvas.Contains(px, py)
    ensures canvas.Pixels().Valid()
    ensures 0 <= canvas.Pixels().At(py, px) && canvas.Pixels().At(py, px) + canvas.Unit() <= length
  {
    var g := canvas.Pixels();
    CellInBounds(g, py, px, g.rows - 1, g.cols);
    GridEnd(g);
  }

  /** The bytes of a colour word that a pixel of the depth holds. */
  function PixelBytes(depth: int, color: bv32): (p: seq<byte>)
    requires Supported(depth)
    ensures |p| == depth / 8
  {
    Bytes32(color)[..depth / 8]
  }

  /** The channels of a stored pixel. */
  function ChannelsOf(depth: int, p: seq<byte>): Rgb
    requires Supported(depth) && |p| == depth / 8
  {
    if depth == 16 then SplitHalf(HalfWord(p[0], p[1])) else Rgb(p[2], p[1], p[0])
  }

  /** The bytes of frame pixel (px, py). */
  function BytesAt(mem: seq<byte>, canvas: Canvas, px: int, py: int): (p: seq<byte>)
    requires canvas.Valid(|mem|) && canvas.Contains(px, py)
    ensures |p| == canvas.Unit()
  {
    PixelInBounds(canvas, |mem|, px, py);
    var at := canvas.Pixels().At(py, px);
    mem[at..at + canvas.Unit()]
  }

  /** The channels of frame pixel (px, py). */
  function PixelAt(mem: seq<byte>, canvas: Canvas, px: int, py: int): Rgb
    requires canvas.Valid(|mem|) && canvas.Contains(px, py)
  {
    ChannelsOf(canvas.depth, BytesAt(mem, canvas, px, py))
  }

  /** A stored colour word reads back as its channels. */
  lemma StoredChannels(depth: int, color: bv32)
    requires Supported(depth)
    ensures ChannelsOf(depth, PixelBytes(depth, color)) == Split(depth, color)
  {
  }

  /** One character to draw: where, which, and in what colour. */
  datatype Stamp = Stamp(x: int, y: int, code: char, color: bv32) {

    predicate Covers(font: Font, px: int, py: int)
      requires |font| == 94 && InFont(code)
    {
      x <= px < x + GlyphOf(font, code).boundsWidth && y <= py < y + GlyphOf(font, code).boundsHeight
    }

    /** An empty box, or one inside the frame. */
    predicate Inside(font: Font, canvas: Canvas)
      requires |font| == 94 && InFont(code)
    {
      var g := GlyphOf(font, code);
      g.boundsWidth == 0 || g.boundsHeight == 0 ||
      (0 <= x && x + g.boundsWidth <= canvas.width && 0 <= y && y + g.boundsHeight <= canvas.height)
    }

    function Window(font: Font, r: int, c: int): Scan
      requires |font| == 94 && InFont(code)
    {
      Scan(x, y, GlyphOf(font, code).boundsWidth, GlyphOf(font, code).boundsHeight, r, c)
    }
  }

  predicate Ready(font: Font, stamp: Stamp) {
    ValidFont(font) && InFont(stamp.code)
  }

  /** What a stamp makes of the channels below it at one pixel of its box. */
  function Inked(depth: int, font: Font, stamp: Stamp, background: bv32, px: int, py: int, below: Rgb): Rgb
    requires Ready(font, stamp)
  {
    Blend(depth, Split(depth, stamp.color), Behind(depth, background, below), GlyphOf(font, stamp.code).Alpha(py - stamp.y, px - stamp.x))
  }

  /** The channels a character is blended with. */
  function Behind(depth: int, background: bv32, below: Rgb): Rgb {
    if background == CLEAR_BACKGROUND then below else Split(depth, background)
  }

  /** The bytes of every pixel of a stamp; `stale` is what the colour variable held before. */
  ghost function StampShade(mem: seq<byte>, canvas: Canvas, font: Font, stamp: Stamp, background: bv32, stale: bv32): Shade
    requires canvas.Valid(|mem|) && Ready(font, stamp)
  {
    (row: int, col: int, sub: int) =>
      if canvas.Contains(col, row) && 0 <= sub < canvas.Unit() then
        PixelBytes(canvas.depth, InkWord(mem, canvas, font, stamp, background, stale, col, row))[sub]
      else 0
  }

  /** The colour word stored for one pixel. */
  ghost function InkWord(mem: seq<byte>, canvas: Canvas, font: Font, stamp: Stamp, background: bv32, stale: bv32, px: int, py: int): bv32
    requires canvas.Valid(|mem|) && Ready(font, stamp) && canvas.Contains(px, py)
  {
    Merge(canvas.depth, Inked(canvas.depth, font, stamp, background, px, py, PixelAt(mem, canvas, px, py)), stale)
  }

  ghost function StampedTo(mem: seq<byte>, canvas: Canvas, font: Font, stamp: Stamp, background: bv32, stale: bv32, r: int, c: int): seq<byte>
    requires canvas.Valid(|mem|) && Ready(font, stamp)
  {
    Painted(mem, canvas.Pixels(), stamp.Window(font, r, c), StampShade(mem, canvas, font, stamp, background, stale))
  }

  /** Memory after one character has been drawn. */
  ghost function Stamped(mem: seq<byte>, canvas: Canvas, font: Font, stamp: Stamp, background: bv32, stale: bv32): (after: seq<byte>)
    requires canvas.Valid(|mem|) && Ready(font, stamp)
    ensures |after| == |mem|
  {
    PaintedPointwise(mem, canvas.Pixels(), stamp.Window(font, GlyphOf(font, stamp.code).boundsHeight, 0), StampShade(mem, canvas, font, stamp, background, stale));
    StampedTo(mem, canvas, font, stamp, background, stale, GlyphOf(font, stamp.code).boundsHeight, 0)
  }

  // ---- What a character does to the frame

  /** The shade of a pixel is the bytes of its colour word. */
  lemma ShadeOfPixel(mem: seq<byte>, canvas: Canvas, font: Font, stamp: Stamp, background: bv32, stale: bv32, px: int, py: int)
    requires canvas.Valid(|mem|) && Ready(font, stamp) && canvas.Contains(px, py)
    ensures ShadeBytes(StampShade(mem, canvas, font, stamp, background, stale), py, px, canvas.Unit())
            == PixelBytes(canvas.depth, InkWord(mem, canvas, font, stamp, background, stale, px, py))
  {
  }

  /** The bytes of a pixel after the stamp. */
  lemma StampedBytes(mem: seq<byte>, canvas: Canvas, font: Font, stamp: Stamp, background: bv32, stale: bv32, px: int, py: int)
    requires canvas.Valid(|mem|) && Ready(font, stamp) && canvas.Contains(px, py)
    ensures BytesAt(Stamped(mem, canvas, font, stamp, background, stale), canvas, px, py)
            == if stamp.Covers(font, px, py) then PixelBytes(canvas.depth, InkWord(mem, canvas, font, stamp, background, stale, px, py))
               else BytesAt(mem, canvas, px, py)
  {
    PixelInBounds(canvas, |mem|, px, py);
    CellBytes(mem, canvas.Pixels(), stamp.Window(font, GlyphOf(font, stamp.code).boundsHeight, 0),
              StampShade(mem, canvas, font, stamp, background, stale), py, px);
    ShadeOfPixel(mem, canvas, font, stamp, background, stale, px, py);
  }

  /** A pixel the stamp covers gets the inked channels, any other pixel keeps its own. */
  lemma StampedPixel(mem: seq<byte>, canvas: Canvas, font: Font, stamp: Stamp, background: bv32, stale: bv32, px: int, py: int)
    requires canvas.Valid(|mem|) && Ready(font, stamp) && canvas.Contains(px, py)
    ensures PixelAt(Stamped(mem, canvas, font, stamp, background, stale), canvas, px, py)
            == if stamp.Covers(font, px, py) then Inked(canvas.depth, font, stamp, background, px, py, PixelAt(mem, canvas, px, py))
               else PixelAt(mem, canvas, px, py)
  {
    StampedBytes(mem, canvas, font, stamp, background, stale, px, py);
    if stamp.Covers(font, px, py) {
      var below := PixelAt(mem, canvas, px, py);
      StoredChannels(canvas.depth, InkWord(mem, canvas, font, stamp, background, stale, px, py));
      PixelInRange(canvas.depth, BytesAt(mem, canvas, px, py));
      InkedInRange(canvas.depth, font, stamp, background, px, py, below);
      SplitAfterMerge(canvas.depth, Inked(canvas.depth, font, stamp, background, px, py, below), stale);
    }
  }

  /** A pixel at (row, col) of a glyph's box shows the mix of the text colour and of what is
      behind it, the old pixel on a clear background and the background colour otherwise,
      weighted by alpha byte row * width + col. */
  predicate GlyphShown(depth: int, g: Glyph, row: int, col: int, color: bv32, background: bv32, before: Rgb, after: Rgb) {
    && 0 <= row * g.boundsWidth + col < |g.alphaMap|
    && Mixed(after, Split(depth, color), if background == 0xffff_ffff then before else Split(depth, background), g.alphaMap[row * g.boundsWidth + col])
  }

  /** Every pixel of a character's box, by the font alone. */
  lemma CharacterPixel(mem: seq<byte>, canvas: Canvas, font: Font, stamp: Stamp, background: bv32, stale: bv32, px: int, py: int)
    requires canvas.Valid(|mem|) && Ready(font, stamp) && canvas.Contains(px, py)
    requires stamp.x <= px < stamp.x + font[stamp.code as int - 33].boundsWidth && stamp.y <= py < stamp.y + font[stamp.code as int - 33].boundsHeight
    ensures GlyphShown(canvas.depth, font[stamp.code as int - 33], py - stamp.y, px - stamp.x, stamp.color, background, PixelAt(mem, canvas, px, py),
                       PixelAt(Stamped(mem, canvas, font, stamp, background, stale), canvas, px, py))
  {
    StampedPixel(mem, canvas, font, stamp, background, stale, px, py);
    InkedMix(canvas.depth, font, stamp, background, px, py, BytesAt(mem, canvas, px, py), PixelAt(mem, canvas, px, py),
             PixelAt(Stamped(mem, canvas, font, stamp, background, stale), canvas, px, py), GlyphOf(font, stamp.code), py - stamp.y, px - stamp.x, stamp.color);
  }

  /** The channels a covered pixel gets, from the bytes it had. */
  lemma InkedMix(depth: int, font: Font, stamp: Stamp, background: bv32, px: int, py: int, p: seq<byte>, before: Rgb, after: Rgb,
                 g: Glyph, row: int, col: int, color: bv32)
    requires Supported(depth) && Ready(font, stamp) && |p| == depth / 8
    requires g == GlyphOf(font, stamp.code) && color == stamp.color && 0 <= row < g.boundsHeight && 0 <= col < g.boundsWidth
    requires row == py - stamp.y && col == px - stamp.x
    requires before == ChannelsOf(depth, p) && after == Inked(depth, font, stamp, background, px, py, before)
    ensures GlyphShown(depth, g, row, col, color, background, before, after)
  {
    PixelInRange(depth, p);
    SplitInRange(depth, color);
    BehindInRange(depth, background, before);
    AlphaIndex(g, row, col);
    BlendExact(depth, Split(depth, color), Behind(depth, background, before), g.Alpha(row, col), after);
  }

  lemma PixelInRange(depth: int, p: seq<byte>)
    requires Supported(depth) && |p| == depth / 8
    ensures InRange(depth, ChannelsOf(depth, p))
  {
    if depth == 16 {
      SplitHalfInRange(HalfWord(p[0], p[1]));
    } else {
      ByteInRange(p[0]);
      ByteInRange(p[1]);
      ByteInRange(p[2]);
    }
  }

  lemma ByteInRange(b: byte)
    ensures b <= 0xff
  {
  }

  lemma BehindInRange(depth: int, background: bv32, below: Rgb)
    requires Supported(depth) && InRange(depth, below)
    ensures InRange(depth, Behind(depth, background, below))
  {
    SplitInRange(depth, background);
  }

  lemma InkedInRange(depth: int, font: Font, stamp: Stamp, background: bv32, px: int, py: int, below: Rgb)
    requires Supported(depth) && Ready(font, stamp) && InRange(depth, below)
    ensures InRange(depth, Inked(depth, font, stamp, background, px, py, below))
  {
    SplitInRange(depth, stamp.color);
    BehindInRange(depth, background, below);
    BlendInRange(depth, Split(depth, stamp.color), Behind(depth, background, below), GlyphOf(font, stamp.code).Alpha(py - stamp.y, px - stamp.x));
  }

  /** No byte outside the box changes. */
  lemma StampedElsewhere(mem: seq<byte>, canvas: Canvas, font: Font, stamp: Stamp, background: bv32, stale: bv32, k: int)
    requires canvas.Valid(|mem|) && Ready(font, stamp) && 0 <= k < |mem|
    requires var g := canvas.Pixels();
             g.Contains(k) ==> !stamp.Covers(font, g.Col(k), g.Row(k))
    ensures Stamped(mem, canvas, font, stamp, background, stale)[k] == mem[k]
  {
    PaintedPointwise(mem, canvas.Pixels(), stamp.Window(font, GlyphOf(font, stamp.code).boundsHeight, 0), StampShade(mem, canvas, font, stamp, background, stale));
  }

  // ---- The code

  /** The canvas of a frame reader: its draw frame. */
  function CanvasOf(display: VipFrameReader): Canvas
    reads display, display.mem
  {
    Canvas(display.State().DrawBase(), display.colorDepth, display.width, display.height)
  }

  /** The draw frame can be accessed at (horiz, vert). */
  predicate Accessible(display: VipFrameReader, horiz: int, vert: int)
    reads display, display.mem
  {
    Supported(display.colorDepth) ==> CanvasOf(display).Valid(display.mem.Length) && CanvasOf(display).Contains(horiz, vert)
  }

  /** A pixel address as the code computes it. */
  lemma PixelAddress(canvas: Canvas, px: int, py: int)
    ensures canvas.Pixels().At(py, px) == canvas.base + (py * canvas.width * canvas.Unit() + px * canvas.Unit())
    ensures canvas.Pixels().At(py, px) == canvas.base + py * (canvas.width * canvas.Unit()) + px * canvas.Unit()
  {
  }

  /** Where the channels of pixel (px, py) of the draw frame lie in memory: at the frame base plus
      py * (width * n) + px * n, with n = 4, 3 or 2 bytes to a pixel. */
  lemma PixelInBytes(mem: seq<byte>, canvas: Canvas, px: int, py: int)
    requires canvas.Valid(|mem|) && canvas.Contains(px, py)
    ensures canvas.depth == 32 ==>
              var at := canvas.base + py * (canvas.width * 4) + px * 4;
              0 <= at && at + 4 <= |mem| && PixelAt(mem, canvas, px, py) == Rgb(mem[at + 2], mem[at + 1], mem[at])
    ensures canvas.depth == 24 ==>
              var at := canvas.base + py * (canvas.width * 3) + px * 3;
              0 <= at && at + 3 <= |mem| && PixelAt(mem, canvas, px, py) == Rgb(mem[at + 2], mem[at + 1], mem[at])
    ensures canvas.depth == 16 ==>
              var at := canvas.base + py * (canvas.width * 2) + px * 2;
              0 <= at && at + 2 <= |mem| && PixelAt(mem, canvas, px, py) == HalfChannels(mem[at], mem[at + 1])
  {
    PixelInBounds(canvas, |mem|, px, py);
    PixelAddress(canvas, px, py);
    if canvas.depth == 16 {
      var p := BytesAt(mem, canvas, px, py);
      SplitHalfBytes(p[0], p[1]);
    }
  }

  /** The channels in two bytes of a 5:6:5 pixel. */
  function HalfChannels(low: byte, high: byte): Rgb {
    Rgb(high >> 3, ((high & 7) << 3) | (low >> 5), low & 0x1f)
  }

  lemma SplitHalfBytes(low: byte, high: byte)
    ensures SplitHalf(HalfWord(low, high)) == HalfChannels(low, high)
  {
  }

  /** The channels of a pixel of `n` bytes, read as the code of its depth reads them. */
  method ReadChannels(mem: array<byte>, at: int, n: int) returns (red: byte, green: byte, blue: byte)
    requires n == 2 || n == 3 || n == 4
    requires 0 <= at && at + n <= mem.Length
    ensures Rgb(red, green, blue) == if n == 2 then HalfChannels(mem[at], mem[at + 1]) else Rgb(mem[at + 2], mem[at + 1], mem[at])
  {
    if n == 4 {
      var temp := WordAt(mem[..], at);
      WordBytes(mem[at], mem[at + 1], mem[at + 2], mem[at + 3]);
      blue, green, red := ByteOf(temp, 0), ByteOf(temp, 1), ByteOf(temp, 2);
    } else if n == 3 {
      blue, green, red := mem[at], mem[at + 1], mem[at + 2];
    } else {
      var temp := HalfWord(mem[at], mem[at + 1]);
      SplitHalfBytes(mem[at], mem[at + 1]);
      blue, green, red := (temp & 0x1f) as byte, ((temp >> 5) & 0x3f) as byte, ((temp >> 11) & 0x1f) as byte;
    }
  }

  method ReadFromFrame(display: VipFrameReader, horiz: int, vert: int) returns (ok: int, red: byte, green: byte, blue: byte)
    requires Accessible(display, horiz, vert)
    ensures Supported(display.colorDepth) ==> ok == 1 && Rgb(red, green, blue) == PixelAt(display.mem[..], CanvasOf(display), horiz, vert)
    ensures !Supported(display.colorDepth) ==> ok == 0 && Rgb(red, green, blue) == Rgb(0, 0, 0)
    ensures display.colorDepth == 32 ==>
              var at := display.State().DrawBase() + vert * (display.width * 4) + horiz * 4;
              0 <= at && at + 4 <= display.mem.Length && Rgb(red, green, blue) == Rgb(display.mem[at + 2], display.mem[at + 1], display.mem[at])
    ensures display.colorDepth == 24 ==>
              var at := display.State().DrawBase() + vert * (display.width * 3) + horiz * 3;
              0 <= at && at + 3 <= display.mem.Length && Rgb(red, green, blue) == Rgb(display.mem[at + 2], display.mem[at + 1], display.mem[at])
    ensures display.colorDepth == 16 ==>
              var at := display.State().DrawBase() + vert * (display.width * 2) + horiz * 2;
              0 <= at && at + 2 <= display.mem.Length && Rgb(red, green, blue) == HalfChannels(display.mem[at], display.mem[at + 1])
  {
    var base := display.GetDrawFrame();
    if Supported(display.colorDepth) {
      PixelInBytes(display.mem[..], CanvasOf(display), horiz, vert);
      RowMajor(vert, display.width, display.colorDepth / 8);
    }
    if display.colorDepth == 32 {
      red, green, blue := ReadChannels(display.mem, base + (vert * display.width * 4 + horiz * 4), 4);
      ok := 1;
    } else if display.colorDepth == 24 {
      red, green, blue := ReadChannels(display.mem, base + (vert * display.width * 3 + horiz * 3), 3);
      ok := 1;
    } else if display.colorDepth == 16 {
      red, green, blue := ReadChannels(display.mem, base + (vert * display.width * 2 + horiz * 2), 2);
      ok := 1;
    } else {
      blue, red, green, ok := 0, 0, 0, 0;
    }
  }

  lemma RowMajor(row: int, width: int, unit: int)
    ensures row * width * unit == row * (width * unit)
  {
  }

  /** One channel of alpha_blending, with its clip. */
  method BlendOne(fore: byte, back: byte, alpha: byte, limit: byte) returns (blended: byte)
    ensures blended == BlendChannel(fore, back, alpha, limit)
  {
    var value := MixCode(fore as int, back as int, alpha as int);
    MixWithinLimit(fore as int, back as int, alpha as int, 255);
    blended := if value > limit as int then limit else ToByte(value);
  }

  /** The blending formula as written. */
  function MixCode(fore: int, back: int, alpha: nat): (value: int)
    ensures value == MixValue(fore, back, alpha)
  {
    WeightedSum(fore, back, alpha);
    (fore * alpha + back * (255 - alpha)) / 255
  }

  method AlphaBlending(display: VipFrameReader, horiz: int, vert: int, background: bv32, alpha: byte, red0: byte, green0: byte, blue0: byte)
    returns (ok: int, red: byte, green: byte, blue: byte)
    requires background == CLEAR_BACKGROUND ==> Accessible(display, horiz, vert)
    ensures ok == if Supported(display.colorDepth) then 1 else 0
    ensures Supported(display.colorDepth) && background == CLEAR_BACKGROUND ==>
              Rgb(red, green, blue) == Blend(display.colorDepth, Rgb(red0, green0, blue0), PixelAt(display.mem[..], CanvasOf(display), horiz, vert), alpha)
    ensures Supported(display.colorDepth) && background != CLEAR_BACKGROUND ==>
              Rgb(red, green, blue) == Blend(display.colorDepth, Rgb(red0, green0, blue0), Split(display.colorDepth, background), alpha)
    ensures !Supported(display.colorDepth) ==> Rgb(red, green, blue) == Rgb(red0, green0, blue0)
    ensures Supported(display.colorDepth) && background == CLEAR_BACKGROUND ==>
              BlendedPixel(display.colorDepth, Rgb(red, green, blue), Rgb(red0, green0, blue0), PixelAt(display.mem[..], CanvasOf(display), horiz, vert), alpha)
    ensures Supported(display.colorDepth) && background != CLEAR_BACKGROUND ==>
              BlendedPixel(display.colorDepth, Rgb(red, green, blue), Rgb(red0, green0, blue0), Split(display.colorDepth, background), alpha)
  {
    red, green, blue := red0, green0, blue0;
    var backRed, backGreen, backBlue;
    if background == CLEAR_BACKGROUND {
      ok, backRed, backGreen, backBlue := ReadFromFrame(display, horiz, vert);
    } else {
      ok, backRed, backGreen, backBlue := SeperateColorChannels(display.colorDepth, background);
    }
    ghost var back := Rgb(backRed, backGreen, backBlue);
    if display.colorDepth == 16 {
      red := BlendOne(red0, backRed, alpha, 0x1f);
      green := BlendOne(green0, backGreen, alpha, 0x3f);
      blue := BlendOne(blue0, backBlue, alpha, 0x1f);
      ok := 1;
    } else if display.colorDepth == 24 || display.colorDepth == 32 {
      red := BlendOne(red0, backRed, alpha, 0xff);
      green := BlendOne(green0, backGreen, alpha, 0xff);
      blue := BlendOne(blue0, backBlue, alpha, 0xff);
      ok := 1;
    } else {
      ok := 0;
    }
    if Supported(display.colorDepth) {
      assert Rgb(red, green, blue) == Blend(display.colorDepth, Rgb(red0, green0, blue0), back, alpha);
      BlendIsBlended(display.colorDepth, Rgb(red0, green0, blue0), back, alpha);
    }
  }

  /** The bytes at `at` are the `n` low bytes of a colour, lowest first; all others are kept. */
  ghost predicate ColorStored(before: seq<byte>, after: seq<byte>, at: int, n: int, color: bv32) {
    && 0 <= at && at + n <= |before| == |after|
    && (forall k :: 0 <= k < |before| && !(at <= k < at + n) ==> after[k] == before[k])
    && (1 < n ==> after[at] == (color & 0xff) as byte && after[at + 1] == ((color >> 8) & 0xff) as byte)
    && (2 < n ==> after[at + 2] == ((color >> 16) & 0xff) as byte)
    && (3 < n ==> after[at + 3] == ((color >> 24) & 0xff) as byte)
  }

  lemma PixelStored(before: seq<byte>, depth: int, at: int, color: bv32)
    requires Supported(depth) && 0 <= at && at + depth / 8 <= |before|
    ensures ColorStored(before, Splice(before, at, PixelBytes(depth, color)), at, depth / 8, color)
  {
    SpliceStored(before, at, PixelBytes(depth, color));
  }

  lemma LowHalf(color: bv32)
    ensures Bytes16((color & 0xffff) as bv16) == Bytes32(color)[..2]
  {
  }

  /** A 32-bit write, three 8-bit writes, or a 16-bit write of the low bytes of a colour. */
  method StoreLow(mem: array<byte>, at: int, color: bv32, n: int)
    requires n == 2 || n == 3 || n == 4
    requires 0 <= at && at + n <= mem.Length
    modifies mem
    ensures mem[..] == Splice(old(mem[..]), at, Bytes32(color)[..n])
  {
    ghost var was := mem[..];
    if n == 4 {
      Store32(mem, at, color);
    } else if n == 3 {
      mem[at] := ByteOf(color, 0);
      mem[at + 1] := ByteOf(color, 1);
      mem[at + 2] := ByteOf(color, 2);
    } else {
      LowHalf(color);
      Store16(mem, at, (color & 0xffff) as bv16);
    }
    StoredIsSplice(was, mem[..], at, Bytes32(color)[..n]);
  }

  /** vid_set_pixel: the low bytes of the colour are stored, as many as the depth has. */
  method VidSetPixel(display: VipFrameReader, horiz: int, vert: int, color: bv32)
    requires Accessible(display, horiz, vert)
    modifies display.mem
    ensures Supported(display.colorDepth) ==>
              var at := CanvasOf(display).Pixels().At(vert, horiz);
              && 0 <= at && at + display.colorDepth / 8 <= display.mem.Length
              && display.mem[..] == Splice(old(display.mem[..]), at, PixelBytes(display.colorDepth, color))
    ensures !Supported(display.colorDepth) ==> display.mem[..] == old(display.mem[..])
    ensures display.colorDepth == 32 ==> ColorStored(old(display.mem[..]), display.mem[..], display.State().DrawBase() + vert * (display.width * 4) + horiz * 4, 4, color)
    ensures display.colorDepth == 24 ==> ColorStored(old(display.mem[..]), display.mem[..], display.State().DrawBase() + vert * (display.width * 3) + horiz * 3, 3, color)
    ensures display.colorDepth == 16 ==> ColorStored(old(display.mem[..]), display.mem[..], display.State().DrawBase() + vert * (display.width * 2) + horiz * 2, 2, color)
  {
    var base := display.GetDrawFrame();
    var addr;
    if display.colorDepth == 32 {
      addr := base + vert * (display.width * 4) + horiz * 4;
    } else if display.colorDepth == 24 {
      addr := base + vert * (display.width * 3) + horiz * 3;
    } else if display.colorDepth == 16 {
      addr := base + vert * (display.width * 2) + horiz * 2;
    } else {
      return;
    }
    PixelInBounds(CanvasOf(display), display.mem.Length, horiz, vert);
    assert addr == CanvasOf(display).Pixels().At(vert, horiz) by {
      PixelAddress(CanvasOf(display), horiz, vert);
    }
    PixelStored(display.mem[..], display.colorDepth, addr, color);
    StoreLow(display.mem, addr, color, display.colorDepth / 8);
  }

  /** Only the top byte of the old colour word can show in the stored bytes. */
  lemma MergedBytes(depth: int, c: Rgb, before: bv32, stale: bv32)
    requires Supported(depth) && ByteOf(before, 3) == ByteOf(stale, 3)
    ensures PixelBytes(depth, Merge(depth, c, before)) == PixelBytes(depth, Merge(depth, c, stale))
    ensures ByteOf(Merge(depth, c, before), 3) == ByteOf(stale, 3)
  {
    if depth == 16 {
      MergedHalf((MergeHalf(c) & 0xff) as byte, (MergeHalf(c) >> 8) as byte, before, stale);
    } else {
      MergedWord(c, before, stale);
    }
  }

  lemma MergedWord(c: Rgb, before: bv32, stale: bv32)
    requires ByteOf(before, 3) == ByteOf(stale, 3)
    ensures var a, b := Word32(c.blue, c.green, c.red, ByteOf(before, 3)), Word32(c.blue, c.green, c.red, ByteOf(stale, 3));
            a == b && ByteOf(a, 3) == ByteOf(stale, 3)
  {
    WordBytes(c.blue, c.green, c.red, ByteOf(stale, 3));
  }

  lemma MergedHalf(low: byte, high: byte, before: bv32, stale: bv32)
    requires ByteOf(before, 3) == ByteOf(stale, 3)
    ensures var a, b := Word32(low, high, ByteOf(before, 2), ByteOf(before, 3)), Word32(low, high, ByteOf(stale, 2), ByteOf(stale, 3));
            Bytes32(a)[..2] == Bytes32(b)[..2] && ByteOf(a, 3) == ByteOf(stale, 3)
  {
    WordBytes(low, high, ByteOf(before, 2), ByteOf(before, 3));
    WordBytes(low, high, ByteOf(stale, 2), ByteOf(stale, 3));
  }

  /** A pixel the scan has not reached still has its old bytes. */
  lemma Unreached(was: seq<byte>, canvas: Canvas, font: Font, stamp: Stamp, background: bv32, stale: bv32, r: int, c: int, px: int, py: int)
    requires canvas.Valid(|was|) && Ready(font, stamp) && canvas.Contains(px, py)
    requires !stamp.Window(font, r, c).Passed(py, px)
    ensures |StampedTo(was, canvas, font, stamp, background, stale, r, c)| == |was|
    ensures BytesAt(StampedTo(was, canvas, font, stamp, background, stale, r, c), canvas, px, py) == BytesAt(was, canvas, px, py)
  {
    PixelInBounds(canvas, |was|, px, py);
    CellBytes(was, canvas.Pixels(), stamp.Window(font, r, c), StampShade(was, canvas, font, stamp, background, stale), py, px);
  }

  /** One pixel of the glyph loop. */
  lemma StampPixel(was: seq<byte>, canvas: Canvas, font: Font, stamp: Stamp, background: bv32, stale: bv32, r: int, c: int)
    requires canvas.Valid(|was|) && Ready(font, stamp) && stamp.Inside(font, canvas)
    requires 0 <= r < GlyphOf(font, stamp.code).boundsHeight && 0 <= c < GlyphOf(font, stamp.code).boundsWidth
    ensures var cur, at := StampedTo(was, canvas, font, stamp, background, stale, r, c), canvas.Pixels().At(stamp.y + r, stamp.x + c);
            && |cur| == |was| && 0 <= at && at + canvas.Unit() <= |cur|
            && Splice(cur, at, PixelBytes(canvas.depth, InkWord(was, canvas, font, stamp, background, stale, stamp.x + c, stamp.y + r)))
               == StampedTo(was, canvas, font, stamp, background, stale, r, c + 1)
  {
    var px, py := stamp.x + c, stamp.y + r;
    PixelInBounds(canvas, |was|, px, py);
    ShadeOfPixel(was, canvas, font, stamp, background, stale, px, py);
    PaintedBlock(was, canvas.Pixels(), stamp.Window(font, r, c), StampShade(was, canvas, font, stamp, background, stale),
                 canvas.Pixels().At(py, px), PixelBytes(canvas.depth, InkWord(was, canvas, font, stamp, background, stale, px, py)));
  }

  lemma AlphaIndex(g: Glyph, r: int, c: int)
    requires g.Valid() && 0 <= r < g.boundsHeight && 0 <= c < g.boundsWidth
    ensures 0 <= r * g.boundsWidth + c < |g.alphaMap|
    ensures g.Alpha(r, c) == g.alphaMap[r * g.boundsWidth + c]
  {
    Scaled(0, r, g.boundsWidth);
    Scaled(r + 1, g.boundsHeight, g.boundsWidth);
  }

  /** One character in the making. */
  datatype Job = Job(canvas: Canvas, font: Font, stamp: Stamp, background: bv32, stale: bv32) {

    predicate Valid(length: int) {
      && ValidFont(font) && InFont(stamp.code)
      && (Supported(canvas.depth) ==> canvas.Valid(length) && stamp.Inside(font, canvas))
    }

    function Glyph(): Glyph
      requires |font| == 94 && InFont(stamp.code)
    {
      GlyphOf(font, stamp.code)
    }

    /** Memory when `r` rows and `c` pixels of the next are drawn; at an unsupported depth
        nothing is ever stored. */
    ghost predicate Drawn(was: seq<byte>, mem: seq<byte>, r: int, c: int)
      requires Valid(|was|)
    {
      if Supported(canvas.depth) then mem == StampedTo(was, canvas, font, stamp, background, stale, r, c) else mem == was
    }

    lemma Start(was: seq<byte>)
      requires Valid(|was|)
      ensures Drawn(was, was, 0, 0)
    {
      if Supported(canvas.depth) {
        PaintedNone(was, canvas.Pixels(), stamp.Window(font, 0, 0), StampShade(was, canvas, font, stamp, background, stale));
      }
    }

    lemma RowDone(was: seq<byte>, mem: seq<byte>, r: int)
      requires Valid(|was|) && Drawn(was, mem, r, Glyph().boundsWidth)
      ensures Drawn(was, mem, r + 1, 0)
    {
      if Supported(canvas.depth) {
        PaintedRow(was, canvas.Pixels(), stamp.Window(font, r, Glyph().boundsWidth), StampShade(was, canvas, font, stamp, background, stale));
      }
    }

    /** Blending over the frame as it stands inks the pixel as the finished character does. */
    lemma PixelInked(was: seq<byte>, mem: seq<byte>, r: int, c: int, px: int, py: int)
      requires Valid(|was|) && Supported(canvas.depth) && Drawn(was, mem, r, c) && |mem| == |was|
      requires 0 <= r < Glyph().boundsHeight && 0 <= c < Glyph().boundsWidth
      requires px == stamp.x + c && py == stamp.y + r && canvas.Contains(px, py)
      ensures Blend(canvas.depth, Split(canvas.depth, stamp.color), Behind(canvas.depth, background, PixelAt(mem, canvas, px, py)), Glyph().Alpha(r, c))
              == Inked(canvas.depth, font, stamp, background, px, py, PixelAt(was, canvas, px, py))
    {
      Unreached(was, canvas, font, stamp, background, stale, r, c, px, py);
      assert PixelAt(mem, canvas, px, py) == PixelAt(was, canvas, px, py);
      assert py - stamp.y == r && px - stamp.x == c;
    }

    /** Merging the ink into the colour variable as it stands stores the bytes the finished
        character has there. */
    lemma PixelDone(was: seq<byte>, mem: seq<byte>, r: int, c: int, px: int, py: int, ink: Rgb, color0: bv32, after: seq<byte>)
      requires Valid(|was|) && Supported(canvas.depth) && Drawn(was, mem, r, c) && ByteOf(color0, 3) == ByteOf(stale, 3)
      requires 0 <= r < Glyph().boundsHeight && 0 <= c < Glyph().boundsWidth && |mem| == |was|
      requires px == stamp.x + c && py == stamp.y + r && canvas.Contains(px, py)
      requires ink == Inked(canvas.depth, font, stamp, background, px, py, PixelAt(was, canvas, px, py))
      requires var at := canvas.Pixels().At(py, px);
               0 <= at && at + canvas.Unit() <= |mem| && after == Splice(mem, at, PixelBytes(canvas.depth, Merge(canvas.depth, ink, color0)))
      ensures Drawn(was, after, r, c + 1) && ByteOf(Merge(canvas.depth, ink, color0), 3) == ByteOf(stale, 3)
    {
      MergedBytes(canvas.depth, ink, color0, stale);
      StampPixel(was, canvas, font, stamp, background, stale, r, c);
    }
  }

  /** The body of the glyph loop: blend, merge into the colour variable, store. */
  method PrintPixel(display: VipFrameReader, px: int, py: int, background: bv32, alpha: byte, red0: byte, green0: byte, blue0: byte, color0: bv32)
    returns (newColor: bv32)
    requires Accessible(display, px, py)
    modifies display.mem
    ensures Supported(display.colorDepth) ==>
              var canvas := old(CanvasOf(display));
              var below := PixelAt(old(display.mem[..]), canvas, px, py);
              && newColor == Merge(canvas.depth, Blend(canvas.depth, Rgb(red0, green0, blue0), Behind(canvas.depth, background, below), alpha), color0)
              && 0 <= canvas.Pixels().At(py, px) && canvas.Pixels().At(py, px) + canvas.Unit() <= display.mem.Length
              && display.mem[..] == Splice(old(display.mem[..]), canvas.Pixels().At(py, px), PixelBytes(canvas.depth, newColor))
    ensures !Supported(display.colorDepth) ==> display.mem[..] == old(display.mem[..])
  {
    var red, green, blue := red0, green0, blue0;
    var ok;
    ok, red, green, blue := AlphaBlending(display, px, py, background, alpha, red, green, blue);
    ok, newColor := MergeColorChannels(display.colorDepth, red, green, blue, color0);
    VidSetPixel(display, px, py, newColor);
  }

  /** The same as a step of a job. */
  method PrintStep(display: VipFrameReader, px: int, py: int, background: bv32, alpha: byte, red0: byte, green0: byte, blue0: byte, color0: bv32,
                   ghost job: Job, ghost was: seq<byte>, ghost r: int, ghost c: int)
    returns (newColor: bv32)
    requires job.Valid(|was|) && |was| == display.mem.Length && job.canvas == CanvasOf(display) && job.background == background
    requires 0 <= r < job.Glyph().boundsHeight && 0 <= c < job.Glyph().boundsWidth && px == job.stamp.x + c && py == job.stamp.y + r
    requires alpha == job.Glyph().Alpha(r, c) && Rgb(red0, green0, blue0) == Split(job.canvas.depth, job.stamp.color)
    requires job.Drawn(was, display.mem[..], r, c)
    requires Supported(job.canvas.depth) ==> ByteOf(color0, 3) == ByteOf(job.stale, 3)
    modifies display.mem
    ensures job.canvas == CanvasOf(display)
    ensures job.Drawn(was, display.mem[..], r, c + 1)
    ensures Supported(job.canvas.depth) ==> ByteOf(newColor, 3) == ByteOf(job.stale, 3)
  {
    ghost var before := display.mem[..];
    newColor := PrintPixel(display, px, py, background, alpha, red0, green0, blue0, color0);
    if Supported(job.canvas.depth) {
      job.PixelInked(was, before, r, c, px, py);
      job.PixelDone(was, before, r, c, px, py, Inked(job.canvas.depth, job.font, job.stamp, background, px, py, PixelAt(was, job.canvas, px, py)),
                    color0, display.mem[..]);
    }
  }

  /** vid_print_char_alpha. `stale` is what the colour variable holds before it is first set. */
  method VidPrintCharAlpha(display: VipFrameReader, x: int, y: int, color: bv32, code: char, background: bv32, font: Font)
    returns (ret: int, ghost stale: bv32)
    requires ValidFont(font) && InFont(code)
    requires Supported(display.colorDepth) ==>
               CanvasOf(display).Valid(display.mem.Length) && Stamp(x, y, code, color).Inside(font, CanvasOf(display))
    modifies display.mem
    ensures ret == 0
    ensures Supported(display.colorDepth) ==>
              display.mem[..] == Stamped(old(display.mem[..]), old(CanvasOf(display)), font, Stamp(x, y, code, color), background, stale)
    ensures !Supported(display.colorDepth) ==> display.mem[..] == old(display.mem[..])
  {
    var newColor: bv32 := *;
    stale := newColor;
    ghost var was, job := display.mem[..], Job(CanvasOf(display), font, Stamp(x, y, code, color), background, stale);
    var g := GlyphOf(font, code);
    var ok, red, green, blue := SeperateColorChannels(display.colorDepth, color);
    var alpha, i := 0, 0;
    job.Start(was);
    while i < g.boundsHeight
      invariant 0 <= i <= g.boundsHeight && alpha == i * g.boundsWidth
      invariant job.canvas == CanvasOf(display) && job.Drawn(was, display.mem[..], i, 0)
      invariant Supported(job.canvas.depth) ==> ByteOf(newColor, 3) == ByteOf(stale, 3)
    {
      var j := 0;
      while j < g.boundsWidth
        invariant 0 <= j <= g.boundsWidth && alpha == i * g.boundsWidth + j
        invariant job.canvas == CanvasOf(display) && job.Drawn(was, display.mem[..], i, j)
        invariant Supported(job.canvas.depth) ==> ByteOf(newColor, 3) == ByteOf(stale, 3)
      {
        AlphaIndex(g, i, j);
        newColor := PrintStep(display, x + j, y + i, background, g.alphaMap[alpha], red, green, blue, newColor, job, was, i, j);
        alpha := alpha + 1;
        j := j + 1;
      }
      job.RowDone(was, display.mem[..], i);
      i := i + 1;
    }
    ret := 0;
  }
}
