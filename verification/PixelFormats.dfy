/** The six strided pixel-map conversions of gimp_bmp.c. */
module PixelFormats {
  import opened Bytes
  import opened Raster

  datatype Kernel = From32To32 | From32To24 | From32To16 | From24To32 | From24To24 | From24To16 {

    function SrcUnit(): int {
      if From32To32? || From32To24? || From32To16? then 4 else 3
    }

    function DestUnit(): int {
      if From32To32? || From24To32? then 4 else if From32To24? || From24To24? then 3 else 2
    }
  }

  /** 5:6:5 packing of an RGBA word, red in its lowest byte. */
  function Pack565FromWord(w: bv32): bv16 {
    ((((w >> 3) & 0x1f) << 11) | (((w >> 10) & 0x3f) << 5) | (((w >> 19) & 0x1f) << 0)) as bv16
  }

  /** 5:6:5 packing of three channel bytes. */
  function Pack565(r: byte, g: byte, b: byte): bv16 {
    (((r & 0xf8) as bv16) << 8) | (((g & 0xfc) as bv16) << 3) | (((b & 0xf8) as bv16) >> 3)
  }

  /** What one pixel becomes. */
  function Convert(k: Kernel, p: seq<byte>): (q: seq<byte>)
    requires |p| == k.SrcUnit()
    ensures |q| == k.DestUnit()
  {
    match k
    case From32To32 => p
    case From32To24 => p[..3]
    case From32To16 => Bytes16(Pack565FromWord(Word32(p[0], p[1], p[2], p[3])))
    case From24To32 => [p[2], p[1], p[0], 0xff]
    case From24To24 => p
    case From24To16 => Bytes16(Pack565(p[0], p[1], p[2]))
  }

  /** Active width and height in pixels, and the line widths of source and destination. */
  datatype Geometry = Geometry(width: int, height: int, srcLine: int, destLine: int) {

    function SrcGrid(k: Kernel): Grid {
      Grid(0, k.SrcUnit(), srcLine, height)
    }

    function DestGrid(k: Kernel): Grid {
      Grid(0, k.DestUnit(), destLine, height)
    }

    /** The part of the active area done after `r` lines and `c` pixels. */
    function Progress(r: int, c: int): Scan {
      Scan(0, 0, if width < 0 then 0 else width, if height < 0 then 0 else height, r, c)
    }

    predicate Empty() {
      width <= 0 || height <= 0
    }

    /** The active area is no wider than a line, and its last pixel lies in both buffers. */
    predicate InBounds(k: Kernel, srcLength: int, destLength: int) {
      Empty() ||
      (&& width <= srcLine && width <= destLine
       && SrcGrid(k).At(height - 1, width) <= srcLength
       && DestGrid(k).At(height - 1, width) <= destLength)
    }
  }

  function Pixel(buffer: seq<byte>, g: Grid, row: int, col: int): (p: seq<byte>)
    requires 0 <= g.unit && 0 <= g.At(row, col) && g.At(row, col) + g.unit <= |buffer|
    ensures |p| == g.unit
  {
    buffer[g.At(row, col)..g.At(row, col) + g.unit]
  }

  /** The converted bytes of every source pixel. */
  function ConvertedShade(k: Kernel, src: seq<byte>, g: Geometry): Shade {
    (row: int, col: int, sub: int) =>
      var s := g.SrcGrid(k);
      if 0 <= s.At(row, col) && s.At(row, col) + s.unit <= |src| && 0 <= sub < k.DestUnit()
      then Convert(k, Pixel(src, s, row, col))[sub]
      else 0
  }

  ghost function ConvertedTo(k: Kernel, src: seq<byte>, dest: seq<byte>, g: Geometry, r: int, c: int): seq<byte> {
    Painted(dest, g.DestGrid(k), g.Progress(r, c), ConvertedShade(k, src, g))
  }

  /** The destination buffer after a whole conversion. */
  ghost function Converted(k: Kernel, src: seq<byte>, dest: seq<byte>, g: Geometry): seq<byte> {
    ConvertedTo(k, src, dest, g, g.Progress(0, 0).h, 0)
  }

  /** Both accesses of one inner iteration stay in bounds. */
  lemma AccessInBounds(k: Kernel, g: Geometry, srcLength: int, destLength: int, row: int, col: int)
    requires g.InBounds(k, srcLength, destLength)
    requires 0 <= row < g.height && 0 <= col < g.width
    ensures 0 <= g.SrcGrid(k).At(row, col) && g.SrcGrid(k).At(row, col) + k.SrcUnit() <= srcLength
    ensures 0 <= g.DestGrid(k).At(row, col) && g.DestGrid(k).At(row, col) + k.DestUnit() <= destLength
  {
    CellInBounds(g.SrcGrid(k), row, col, g.height - 1, g.width);
    CellInBounds(g.DestGrid(k), row, col, g.height - 1, g.width);
  }

  /** Storing one converted pixel moves the conversion on by one pixel. */
  lemma StorePixel(k: Kernel, g: Geometry, src: seq<byte>, was: seq<byte>, row: int, col: int, cur: seq<byte>, next: seq<byte>)
    requires g.InBounds(k, |src|, |was|)
    requires 0 <= row < g.height && 0 <= col < g.width
    requires g.SrcGrid(k).At(row, col) + k.SrcUnit() <= |src| && 0 <= g.SrcGrid(k).At(row, col)
    requires cur == ConvertedTo(k, src, was, g, row, col)
    requires Stored(cur, next, g.DestGrid(k).At(row, col), Convert(k, Pixel(src, g.SrcGrid(k), row, col)))
    ensures next == ConvertedTo(k, src, was, g, row, col + 1)
  {
    var shade := ConvertedShade(k, src, g);
    var p := Convert(k, Pixel(src, g.SrcGrid(k), row, col));
    forall b | 0 <= b < |p|
      ensures shade(row, col, b) == p[b]
    {
    }
    PaintedCell(was, g.DestGrid(k), g.Progress(row, col), shade, cur, next);
  }

  method CopyPixMap32To32(src: array<byte>, g: Geometry, dest: array<byte>)
    requires src != dest && g.InBounds(From32To32, src.Length, dest.Length)
    modifies dest
    ensures dest[..] == Converted(From32To32, src[..], old(dest[..]), g)
  {
    ghost var k, s, d, was := From32To32, g.SrcGrid(From32To32), g.DestGrid(From32To32), dest[..];
    var srcIncrement := g.srcLine + g.srcLine + g.srcLine + g.srcLine;
    var destIncrement := g.destLine + g.destLine + g.destLine + g.destLine;
    var srcPtr, destPtr, row := 0, 0, 0;
    Advance(s, 0, 0);
    Advance(d, 0, 0);
    PaintedNone(was, d, g.Progress(0, 0), ConvertedShade(k, src[..], g));
    while row < g.height
      invariant 0 <= row <= g.Progress(0, 0).h
      invariant srcPtr == s.At(row, 0) && destPtr == d.At(row, 0)
      invariant dest[..] == ConvertedTo(k, src[..], was, g, row, 0)
    {
      var srcLine, destLine, col := srcPtr, destPtr, 0;
      while col < g.width
        invariant 0 <= col <= g.Progress(0, 0).w
        invariant srcLine == s.At(row, col) && destLine == d.At(row, col)
        invariant dest[..] == ConvertedTo(k, src[..], was, g, row, col)
      {
        ghost var cur := dest[..];
        AccessInBounds(k, g, src.Length, dest.Length, row, col);
        Store32(dest, destLine, WordAt(src[..], srcLine));
        WordSlice(src[..], srcLine);
        srcLine := srcLine + 4;
        destLine := destLine + 4;
        StorePixel(k, g, src[..], was, row, col, cur, dest[..]);
        Advance(s, row, col);
        Advance(d, row, col);
        col := col + 1;
      }
      PaintedRow(was, d, g.Progress(row, col), ConvertedShade(k, src[..], g));
      Advance(s, row, 0);
      Advance(d, row, 0);
      srcPtr := srcPtr + srcIncrement;
      destPtr := destPtr + destIncrement;
      row := row + 1;
    }
  }

  method CopyPixMap32To24(src: array<byte>, g: Geometry, dest: array<byte>)
    requires src != dest && g.InBounds(From32To24, src.Length, dest.Length)
    modifies dest
    ensures dest[..] == Converted(From32To24, src[..], old(dest[..]), g)
  {
    ghost var k, s, d, was := From32To24, g.SrcGrid(From32To24), g.DestGrid(From32To24), dest[..];
    var srcIncrement := g.srcLine + g.srcLine + g.srcLine + g.srcLine;
    var destIncrement := g.destLine + g.destLine + g.destLine;
    var srcPtr, destPtr, row := 0, 0, 0;
    Advance(s, 0, 0);
    Advance(d, 0, 0);
    PaintedNone(was, d, g.Progress(0, 0), ConvertedShade(k, src[..], g));
    while row < g.height
      invariant 0 <= row <= g.Progress(0, 0).h
      invariant srcPtr == s.At(row, 0) && destPtr == d.At(row, 0)
      invariant dest[..] == ConvertedTo(k, src[..], was, g, row, 0)
    {
      var srcLine, destLine, col := srcPtr, destPtr, 0;
      while col < g.width
        invariant 0 <= col <= g.Progress(0, 0).w
        invariant srcLine == s.At(row, col) && destLine == d.At(row, col)
        invariant dest[..] == ConvertedTo(k, src[..], was, g, row, col)
      {
        ghost var cur := dest[..];
        AccessInBounds(k, g, src.Length, dest.Length, row, col);
        dest[destLine] := src[srcLine];
        srcLine := srcLine + 1;
        destLine := destLine + 1;
        dest[destLine] := src[srcLine];
        srcLine := srcLine + 1;
        destLine := destLine + 1;
        dest[destLine] := src[srcLine];
        srcLine := srcLine + 2;
        destLine := destLine + 1;
        StorePixel(k, g, src[..], was, row, col, cur, dest[..]);
        Advance(s, row, col);
        Advance(d, row, col);
        col := col + 1;
      }
      PaintedRow(was, d, g.Progress(row, col), ConvertedShade(k, src[..], g));
      Advance(s, row, 0);
      Advance(d, row, 0);
      srcPtr := srcPtr + srcIncrement;
      destPtr := destPtr + destIncrement;
      row := row + 1;
    }
  }

  method CopyPixMap32To16(src: array<byte>, g: Geometry, dest: array<byte>)
    requires src != dest && g.InBounds(From32To16, src.Length, dest.Length)
    modifies dest
    ensures dest[..] == Converted(From32To16, src[..], old(dest[..]), g)
  {
    ghost var k, s, d, was := From32To16, g.SrcGrid(From32To16), g.DestGrid(From32To16), dest[..];
    var srcIncrement := g.srcLine + g.srcLine + g.srcLine + g.srcLine;
    var destIncrement := g.destLine + g.destLine;
    var srcPtr, destPtr, row := 0, 0, 0;
    Advance(s, 0, 0);
    Advance(d, 0, 0);
    PaintedNone(was, d, g.Progress(0, 0), ConvertedShade(k, src[..], g));
    while row < g.height
      invariant 0 <= row <= g.Progress(0, 0).h
      invariant srcPtr == s.At(row, 0) && destPtr == d.At(row, 0)
      invariant dest[..] == ConvertedTo(k, src[..], was, g, row, 0)
    {
      var srcLine, destLine, col := srcPtr, destPtr, 0;
      while col < g.width
        invariant 0 <= col <= g.Progress(0, 0).w
        invariant srcLine == s.At(row, col) && destLine == d.At(row, col)
        invariant dest[..] == ConvertedTo(k, src[..], was, g, row, col)
      {
        ghost var cur := dest[..];
        AccessInBounds(k, g, src.Length, dest.Length, row, col);
        var nextLongPixel := WordAt(src[..], srcLine);
        srcLine := srcLine + 4;
        var nextShortPixel := Pack565FromWord(nextLongPixel);
        Store16(dest, destLine, nextShortPixel);
        destLine := destLine + 2;
        StorePixel(k, g, src[..], was, row, col, cur, dest[..]);
        Advance(s, row, col);
        Advance(d, row, col);
        col := col + 1;
      }
      PaintedRow(was, d, g.Progress(row, col), ConvertedShade(k, src[..], g));
      Advance(s, row, 0);
      Advance(d, row, 0);
      srcPtr := srcPtr + srcIncrement;
      destPtr := destPtr + destIncrement;
      row := row + 1;
    }
  }

  method CopyPixMap24To32(src: array<byte>, g: Geometry, dest: array<byte>)
    requires src != dest && g.InBounds(From24To32, src.Length, dest.Length)
    modifies dest
    ensures dest[..] == Converted(From24To32, src[..], old(dest[..]), g)
  {
    ghost var k, s, d, was := From24To32, g.SrcGrid(From24To32), g.DestGrid(From24To32), dest[..];
    var srcIncrement := g.srcLine + g.srcLine + g.srcLine;
    var destIncrement := g.destLine + g.destLine + g.destLine + g.destLine;
    var srcPtr, destPtr, row := 0, 0, 0;
    Advance(s, 0, 0);
    Advance(d, 0, 0);
    PaintedNone(was, d, g.Progress(0, 0), ConvertedShade(k, src[..], g));
    while row < g.height
      invariant 0 <= row <= g.Progress(0, 0).h
      invariant srcPtr == s.At(row, 0) && destPtr == d.At(row, 0)
      invariant dest[..] == ConvertedTo(k, src[..], was, g, row, 0)
    {
      var srcLine, destLine, col := srcPtr, destPtr, 0;
      while col < g.width
        invariant 0 <= col <= g.Progress(0, 0).w
        invariant srcLine == s.At(row, col) && destLine == d.At(row, col)
        invariant dest[..] == ConvertedTo(k, src[..], was, g, row, col)
      {
        ghost var cur := dest[..];
        AccessInBounds(k, g, src.Length, dest.Length, row, col);
        dest[destLine + 2] := src[srcLine];
        srcLine := srcLine + 1;
        destLine := destLine + 1;
        dest[destLine] := src[srcLine];
        srcLine := srcLine + 1;
        destLine := destLine + 1;
        dest[destLine - 2] := src[srcLine];
        srcLine := srcLine + 1;
        destLine := destLine + 1;
        dest[destLine] := 0xff;
        destLine := destLine + 1;
        StorePixel(k, g, src[..], was, row, col, cur, dest[..]);
        Advance(s, row, col);
        Advance(d, row, col);
        col := col + 1;
      }
      PaintedRow(was, d, g.Progress(row, col), ConvertedShade(k, src[..], g));
      Advance(s, row, 0);
      Advance(d, row, 0);
      srcPtr := srcPtr + srcIncrement;
      destPtr := destPtr + destIncrement;
      row := row + 1;
    }
  }

  method CopyPixMap24To24(src: array<byte>, g: Geometry, dest: array<byte>)
    requires src != dest && g.InBounds(From24To24, src.Length, dest.Length)
    modifies dest
    ensures dest[..] == Converted(From24To24, src[..], old(dest[..]), g)
  {
    ghost var k, s, d, was := From24To24, g.SrcGrid(From24To24), g.DestGrid(From24To24), dest[..];
    var srcIncrement := g.srcLine + g.srcLine + g.srcLine;
    var destIncrement := g.destLine + g.destLine + g.destLine;
    var srcPtr, destPtr, row := 0, 0, 0;
    Advance(s, 0, 0);
    Advance(d, 0, 0);
    PaintedNone(was, d, g.Progress(0, 0), ConvertedShade(k, src[..], g));
    while row < g.height
      invariant 0 <= row <= g.Progress(0, 0).h
      invariant srcPtr == s.At(row, 0) && destPtr == d.At(row, 0)
      invariant dest[..] == ConvertedTo(k, src[..], was, g, row, 0)
    {
      var srcLine, destLine, col := srcPtr, destPtr, 0;
      while col < g.width
        invariant 0 <= col <= g.Progress(0, 0).w
        invariant srcLine == s.At(row, col) && destLine == d.At(row, col)
        invariant dest[..] == ConvertedTo(k, src[..], was, g, row, col)
      {
        ghost var cur := dest[..];
        AccessInBounds(k, g, src.Length, dest.Length, row, col);
        dest[destLine] := src[srcLine];
        srcLine := srcLine + 1;
        destLine := destLine + 1;
        dest[destLine] := src[srcLine];
        srcLine := srcLine + 1;
        destLine := destLine + 1;
        dest[destLine] := src[srcLine];
        srcLine := srcLine + 1;
        destLine := destLine + 1;
        StorePixel(k, g, src[..], was, row, col, cur, dest[..]);
        Advance(s, row, col);
        Advance(d, row, col);
        col := col + 1;
      }
      PaintedRow(was, d, g.Progress(row, col), ConvertedShade(k, src[..], g));
      Advance(s, row, 0);
      Advance(d, row, 0);
      srcPtr := srcPtr + srcIncrement;
      destPtr := destPtr + destIncrement;
      row := row + 1;
    }
  }

  method CopyPixMap24To16(src: array<byte>, g: Geometry, dest: array<byte>)
    requires src != dest && g.InBounds(From24To16, src.Length, dest.Length)
    modifies dest
    ensures dest[..] == Converted(From24To16, src[..], old(dest[..]), g)
  {
    ghost var k, s, d, was := From24To16, g.SrcGrid(From24To16), g.DestGrid(From24To16), dest[..];
    var srcIncrement := g.srcLine + g.srcLine + g.srcLine;
    var destIncrement := g.destLine + g.destLine;
    var srcPtr, destPtr, row := 0, 0, 0;
    Advance(s, 0, 0);
    Advance(d, 0, 0);
    PaintedNone(was, d, g.Progress(0, 0), ConvertedShade(k, src[..], g));
    while row < g.height
      invariant 0 <= row <= g.Progress(0, 0).h
      invariant srcPtr == s.At(row, 0) && destPtr == d.At(row, 0)
      invariant dest[..] == ConvertedTo(k, src[..], was, g, row, 0)
    {
      var srcLine, destLine, col := srcPtr, destPtr, 0;
      while col < g.width
        invariant 0 <= col <= g.Progress(0, 0).w
        invariant srcLine == s.At(row, col) && destLine == d.At(row, col)
        invariant dest[..] == ConvertedTo(k, src[..], was, g, row, col)
      {
        ghost var cur := dest[..];
        AccessInBounds(k, g, src.Length, dest.Length, row, col);
        var nextShortPixel: bv16 := ((src[srcLine] & 0xf8) as bv16) << 8;
        srcLine := srcLine + 1;
        nextShortPixel := nextShortPixel | (((src[srcLine] & 0xfc) as bv16) << 3);
        srcLine := srcLine + 1;
        nextShortPixel := nextShortPixel | (((src[srcLine] & 0xf8) as bv16) >> 3);
        srcLine := srcLine + 1;
        Store16(dest, destLine, nextShortPixel);
        destLine := destLine + 2;
        StorePixel(k, g, src[..], was, row, col, cur, dest[..]);
        Advance(s, row, col);
        Advance(d, row, col);
        col := col + 1;
      }
      PaintedRow(was, d, g.Progress(row, col), ConvertedShade(k, src[..], g));
      Advance(s, row, 0);
      Advance(d, row, 0);
      srcPtr := srcPtr + srcIncrement;
      destPtr := destPtr + destIncrement;
      row := row + 1;
    }
  }
}
