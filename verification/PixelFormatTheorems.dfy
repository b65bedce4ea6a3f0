/** What the six conversions do to whole images, alone and one after another. */
module PixelFormatTheorems {
  import opened Bytes
  import opened Raster
  import opened PixelFormats

  /** Byte `i` of a destination buffer belongs to a pixel of the active area. */
  predicate Active(k: Kernel, g: Geometry, i: int) {
    var d := g.DestGrid(k);
    d.Contains(i) && d.Col(i) < g.width
  }

  lemma PixelInBounds(k: Kernel, g: Geometry, srcLength: int, destLength: int, row: int, col: int)
    requires g.InBounds(k, srcLength, destLength)
    requires 0 <= row < g.height && 0 <= col < g.width
    ensures g.SrcGrid(k).Valid() && g.DestGrid(k).Valid()
    ensures 0 <= g.SrcGrid(k).At(row, col) && g.SrcGrid(k).At(row, col) + g.SrcGrid(k).unit <= srcLength
    ensures 0 <= g.DestGrid(k).At(row, col) && g.DestGrid(k).At(row, col) + g.DestGrid(k).unit <= destLength
  {
    AccessInBounds(k, g, srcLength, destLength, row, col);
  }

  /** Destination pixel (row, col) is the conversion of source pixel (row, col). */
  lemma PixelConverted(k: Kernel, src: seq<byte>, dest: seq<byte>, g: Geometry, row: int, col: int)
    requires g.InBounds(k, |src|, |dest|)
    requires 0 <= row < g.height && 0 <= col < g.width
    ensures |Converted(k, src, dest, g)| == |dest|
    ensures var s, d := g.SrcGrid(k), g.DestGrid(k);
            && 0 <= s.At(row, col) && s.At(row, col) + s.unit <= |src|
            && 0 <= d.At(row, col) && d.At(row, col) + d.unit <= |dest|
            && Pixel(Converted(k, src, dest, g), d, row, col) == Convert(k, Pixel(src, s, row, col))
  {
    var out, s, d := Converted(k, src, dest, g), g.SrcGrid(k), g.DestGrid(k);
    var shade := ConvertedShade(k, src, g);
    PixelInBounds(k, g, |src|, |dest|, row, col);
    PaintedPointwise(dest, d, g.Progress(g.Progress(0, 0).h, 0), shade);
    var p := Convert(k, Pixel(src, s, row, col));
    forall b | 0 <= b < d.unit
      ensures out[d.At(row, col) + b] == p[b]
    {
      Decode(d, row, col, b);
    }
  }

  /** Row padding, and everything past the active area, keeps its bytes. */
  lemma PaddingKept(k: Kernel, src: seq<byte>, dest: seq<byte>, g: Geometry)
    ensures |Converted(k, src, dest, g)| == |dest|
    ensures forall i :: 0 <= i < |dest| && !Active(k, g, i) ==> Converted(k, src, dest, g)[i] == dest[i]
  {
    PaintedPointwise(dest, g.DestGrid(k), g.Progress(g.Progress(0, 0).h, 0), ConvertedShade(k, src, g));
  }

  // ---- The conversions in bytes

  /** Where pixel (row, col) lies in a buffer of `unit` bytes a pixel and `line` pixels a line. */
  lemma PixelOffset(unit: int, line: int, height: int, row: int, col: int)
    ensures Grid(0, unit, line, height).At(row, col) == unit * (row * line + col)
  {
  }

  /** What each kernel makes of the bytes `p` of a pixel. */
  predicate Converts(k: Kernel, p: seq<byte>, q: seq<byte>) {
    match k
    case From32To32 => |p| == 4 && |q| == 4 && q[0] == p[0] && q[1] == p[1] && q[2] == p[2] && q[3] == p[3]
    case From32To24 => |p| == 4 && |q| == 3 && q[0] == p[0] && q[1] == p[1] && q[2] == p[2]
    case From32To16 => |p| == 4 && |q| == 2 && q[0] == ((p[1] & 0x1c) << 3) | (p[2] >> 3) && q[1] == (p[0] & 0xf8) | (p[1] >> 5)
    case From24To32 => |p| == 3 && |q| == 4 && q[0] == p[2] && q[1] == p[1] && q[2] == p[0] && q[3] == 0xff
    case From24To24 => |p| == 3 && |q| == 3 && q[0] == p[0] && q[1] == p[1] && q[2] == p[2]
    case From24To16 => |p| == 3 && |q| == 2 && q[0] == ((p[1] & 0x1c) << 3) | (p[2] >> 3) && q[1] == (p[0] & 0xf8) | (p[1] >> 5)
  }

  lemma ConvertConverts(k: Kernel, p: seq<byte>)
    requires |p| == k.SrcUnit()
    ensures Converts(k, p, Convert(k, p))
  {
    if k.From24To16? {
      PackedBytes(p[0], p[1], p[2]);
    } else if k.From32To16? {
      SamePacking(p);
      PackedBytes(p[0], p[1], p[2]);
      assert Convert(From24To16, p[..3]) == Bytes16(Pack565(p[0], p[1], p[2]));
    }
  }

  /** The bytes of destination pixel (row, col) in terms of the bytes of source pixel (row, col). */
  lemma ConvertedBytes(k: Kernel, src: seq<byte>, dest: seq<byte>, g: Geometry, row: int, col: int)
    requires g.InBounds(k, |src|, |dest|)
    requires 0 <= row < g.height && 0 <= col < g.width
    ensures |Converted(k, src, dest, g)| == |dest|
    ensures var i, j := k.SrcUnit() * (row * g.srcLine + col), k.DestUnit() * (row * g.destLine + col);
            && 0 <= i && i + k.SrcUnit() <= |src| && 0 <= j && j + k.DestUnit() <= |dest|
            && Converts(k, src[i..i + k.SrcUnit()], Converted(k, src, dest, g)[j..j + k.DestUnit()])
  {
    PixelConverted(k, src, dest, g, row, col);
    PixelOffset(k.SrcUnit(), g.srcLine, g.height, row, col);
    PixelOffset(k.DestUnit(), g.destLine, g.height, row, col);
    ConvertConverts(k, Pixel(src, g.SrcGrid(k), row, col));
  }

  /** Byte `i` is one of the `unit` bytes of pixel (row, col). */
  predicate InPixel(unit: int, line: int, row: int, col: int, i: int) {
    unit * (row * line + col) <= i < unit * (row * line + col) + unit
  }

  /** A byte that is in none of the pixels of the active area is kept. */
  lemma OtherBytesKept(k: Kernel, src: seq<byte>, dest: seq<byte>, g: Geometry, i: int)
    requires 0 <= i < |dest|
    requires forall row, col :: 0 <= row < g.height && 0 <= col < g.width ==> !InPixel(k.DestUnit(), g.destLine, row, col, i)
    ensures |Converted(k, src, dest, g)| == |dest| && Converted(k, src, dest, g)[i] == dest[i]
  {
    var d := g.DestGrid(k);
    PaddingKept(k, src, dest, g);
    if Active(k, g, i) {
      Encode(d, i);
      PixelOffset(d.unit, d.cols, d.rows, d.Row(i), d.Col(i));
      assert InPixel(k.DestUnit(), g.destLine, d.Row(i), d.Col(i), i);
      assert false;
    }
  }

  lemma PackedBytes(r: byte, g: byte, b: byte)
    ensures Bytes16(Pack565(r, g, b)) == [((g & 0x1c) << 3) | (b >> 3), (r & 0xf8) | (g >> 5)]
  {
  }

  /** A buffer is fixed by its active pixels and its other bytes. */
  lemma SameBuffer(k: Kernel, g: Geometry, a: seq<byte>, b: seq<byte>)
    requires |a| == |b| && g.DestGrid(k).Valid()
    requires forall i :: 0 <= i < |a| && !Active(k, g, i) ==> a[i] == b[i]
    requires forall row, col :: 0 <= row < g.height && 0 <= col < g.width ==>
               var d := g.DestGrid(k);
               && 0 <= d.At(row, col) && d.At(row, col) + d.unit <= |a|
               && Pixel(a, d, row, col) == Pixel(b, d, row, col)
    ensures a == b
  {
    var d := g.DestGrid(k);
    forall i | 0 <= i < |a| && Active(k, g, i)
      ensures a[i] == b[i]
    {
      Encode(d, i);
      assert Pixel(a, d, d.Row(i), d.Col(i))[d.Sub(i)] == Pixel(b, d, d.Row(i), d.Col(i))[d.Sub(i)];
    }
  }

  /** Three buffers, two conversions, one active area. */
  datatype Pipeline = Pipeline(width: int, height: int, srcLine: int, midLine: int, destLine: int) {
    function First(): Geometry { Geometry(width, height, srcLine, midLine) }
    function Second(): Geometry { Geometry(width, height, midLine, destLine) }
    function Direct(): Geometry { Geometry(width, height, srcLine, destLine) }
  }

  /** Two conversions in a row convert every pixel twice, whatever the buffer between held. */
  lemma ConvertedTwice(k1: Kernel, k2: Kernel, src: seq<byte>, mid: seq<byte>, dest: seq<byte>, p: Pipeline, row: int, col: int)
    requires k1.DestUnit() == k2.SrcUnit()
    requires p.First().InBounds(k1, |src|, |mid|) && p.Second().InBounds(k2, |mid|, |dest|)
    requires 0 <= row < p.height && 0 <= col < p.width
    ensures var s, d := p.First().SrcGrid(k1), p.Second().DestGrid(k2);
            var out := Converted(k2, Converted(k1, src, mid, p.First()), dest, p.Second());
            && 0 <= s.At(row, col) && s.At(row, col) + s.unit <= |src|
            && 0 <= d.At(row, col) && d.At(row, col) + d.unit <= |dest| == |out|
            && Pixel(out, d, row, col) == Convert(k2, Convert(k1, Pixel(src, s, row, col)))
  {
    PixelConverted(k1, src, mid, p.First(), row, col);
    PixelConverted(k2, Converted(k1, src, mid, p.First()), dest, p.Second(), row, col);
  }

  lemma SamePacking(p: seq<byte>)
    requires |p| == 4
    ensures Convert(From24To16, Convert(From32To24, p)) == Convert(From32To16, p)
  {
    assert Pack565FromWord(Word32(p[0], p[1], p[2], p[3])) == Pack565(p[0], p[1], p[2]);
  }

  /** 32 to 24 to 16 bits gives the same buffer as 32 to 16 directly, for every image, all
      line widths and whatever the buffers held before. */
  lemma ConversionsCommute(src: seq<byte>, mid: seq<byte>, dest: seq<byte>, p: Pipeline)
    requires p.First().InBounds(From32To24, |src|, |mid|) && p.Second().InBounds(From24To16, |mid|, |dest|)
    ensures Converted(From24To16, Converted(From32To24, src, mid, p.First()), dest, p.Second())
            == Converted(From32To16, src, dest, p.Direct())
  {
    var out := Converted(From24To16, Converted(From32To24, src, mid, p.First()), dest, p.Second());
    var direct := Converted(From32To16, src, dest, p.Direct());
    PaddingKept(From24To16, Converted(From32To24, src, mid, p.First()), dest, p.Second());
    PaddingKept(From32To16, src, dest, p.Direct());
    if p.First().Empty() {
      assert forall i :: 0 <= i < |dest| ==> !Active(From24To16, p.Second(), i) by {
        NothingActive(From24To16, p.Second());
      }
    } else {
      forall row, col | 0 <= row < p.height && 0 <= col < p.width
        ensures var d := p.Direct().DestGrid(From32To16);
                && 0 <= d.At(row, col) && d.At(row, col) + d.unit <= |out|
                && Pixel(out, d, row, col) == Pixel(direct, d, row, col)
      {
        ConvertedTwice(From32To24, From24To16, src, mid, dest, p, row, col);
        PixelConverted(From32To16, src, dest, p.Direct(), row, col);
        SamePacking(Pixel(src, p.First().SrcGrid(From32To24), row, col));
      }
      SameBuffer(From32To16, p.Direct(), out, direct);
    }
  }

  lemma NothingActive(k: Kernel, g: Geometry)
    requires g.Empty()
    ensures forall i :: !Active(k, g, i)
  {
    var d := g.DestGrid(k);
    forall i | d.Contains(i)
      ensures g.width <= d.Col(i)
    {
    }
  }

  function Reversed(p: seq<byte>): seq<byte>
    requires |p| == 3
  {
    [p[2], p[1], p[0]]
  }

  /** 24 to 32 to 24 bits over one active area. */
  ghost function ThereAndBack(src: seq<byte>, mid: seq<byte>, dest: seq<byte>, p: Pipeline): seq<byte> {
    Converted(From32To24, Converted(From24To32, src, mid, p.First()), dest, p.Second())
  }

  /** Converting to 32 bits and back swaps the outer bytes of every pixel. */
  lemma ThereAndBackReverses(src: seq<byte>, mid: seq<byte>, dest: seq<byte>, p: Pipeline, row: int, col: int)
    requires p.First().InBounds(From24To32, |src|, |mid|) && p.Second().InBounds(From32To24, |mid|, |dest|)
    requires 0 <= row < p.height && 0 <= col < p.width
    ensures var s, d := p.First().SrcGrid(From24To32), p.Second().DestGrid(From32To24);
            var out := ThereAndBack(src, mid, dest, p);
            && 0 <= s.At(row, col) && s.At(row, col) + s.unit <= |src|
            && 0 <= d.At(row, col) && d.At(row, col) + d.unit <= |dest| == |out|
            && Pixel(out, d, row, col) == Reversed(Pixel(src, s, row, col))
  {
    ConvertedTwice(From24To32, From32To24, src, mid, dest, p, row, col);
  }

  /** Doing so twice on packed images restores the image byte for byte. */
  lemma ThereAndBackTwiceRestores(src: seq<byte>, mid: seq<byte>, once: seq<byte>, mid': seq<byte>, dest: seq<byte>, width: nat, height: nat)
    requires |src| == |once| == |dest| == 3 * (height * width)
    requires |mid| == |mid'| == 4 * (height * width)
    ensures var p := Pipeline(width, height, width, width, width);
            ThereAndBack(ThereAndBack(src, mid, once, p), mid', dest, p) == src
  {
    var p := Pipeline(width, height, width, width, width);
    var turned := ThereAndBack(src, mid, once, p);
    var out := ThereAndBack(turned, mid', dest, p);
    PaddingKept(From32To24, Converted(From24To32, src, mid, p.First()), once, p.Second());
    PaddingKept(From32To24, Converted(From24To32, turned, mid', p.First()), dest, p.Second());
    PackedEnd(3, width, height);
    PackedEnd(4, width, height);
    if !p.First().Empty() {
      forall row, col | 0 <= row < p.height && 0 <= col < p.width
        ensures var d := p.Second().DestGrid(From32To24);
                && 0 <= d.At(row, col) && d.At(row, col) + d.unit <= |out|
                && Pixel(out, d, row, col) == Pixel(src, d, row, col)
      {
        ThereAndBackReverses(src, mid, once, p, row, col);
        ThereAndBackReverses(turned, mid', dest, p, row, col);
      }
      forall i | 0 <= i < |src|
        ensures Active(From32To24, p.Second(), i)
      {
        PackedActive(p.Second().DestGrid(From32To24), i);
      }
      SameBuffer(From32To24, p.Second(), out, src);
    }
  }

  /** A packed buffer ends with its last pixel. */
  lemma PackedEnd(unit: nat, width: nat, height: nat)
    ensures Grid(0, unit, width, height).At(height - 1, width) == unit * (height * width)
  {
    assert (height - 1) * width + width == height * width;
  }

  /** In a packed buffer every byte is part of a pixel. */
  lemma PackedActive(d: Grid, i: int)
    requires d.Valid() && d.base == 0 && 0 <= i < d.unit * (d.rows * d.cols)
    ensures d.Contains(i)
  {
    var n, all := i / d.unit, d.rows * d.cols;
    assert n * d.unit <= i < all * d.unit;
    if all <= n {
      Scaled(all, n, d.unit);
    }
    assert 0 < d.cols;
    if d.rows <= n / d.cols {
      Scaled(d.rows, n / d.cols, d.cols);
    }
  }
}
