/** The three image-to-frame copies of draw_gimps.c. */
module Blits {
  import opened Bytes
  import Raster

  /** Where an image of `srcWidth` x `srcHeight` pixels goes in a frame of lines of `destWidth`
      words, and the inclusive clip limits. */
  datatype Placement = Placement(destWidth: nat, srcWidth: int, srcHeight: int, x: int, y: int, wFit: int, hFit: int) {

    /** Number of source pixels the loops visit. */
    function Pixels(): nat {
      if srcWidth <= 0 || srcHeight <= 0 then 0 else srcHeight * srcWidth
    }

    /** Frame word of image pixel (px, py). */
    function Index(px: int, py: int): int {
      (py + y) * destWidth + (px + x)
    }

    predicate Visible(px: int, py: int) {
      py <= hFit && px <= wFit
    }

    /** Frame word of the n-th source pixel. */
    function IndexOf(n: nat): int
      requires 0 < srcWidth
    {
      Index(n % srcWidth, n / srcWidth)
    }

    /** Visible columns and rows. */
    function Columns(): int {
      if wFit + 1 < srcWidth then wFit + 1 else srcWidth
    }

    function Rows(): int {
      if hFit + 1 < srcHeight then hFit + 1 else srcHeight
    }

    /** No two visible pixels share a frame word. */
    predicate NoOverlap() {
      Columns() <= destWidth || Rows() <= 1
    }
  }

  /** The three ways of turning a pixel into a word: all four bytes, the colour with its top
      byte cleared, and the same unless the colour is the key. */
  datatype Ink = Raw | Plain | Keyed(key: bv32)

  /** The colour word of three channels, top byte clear. */
  function RealColor(red: byte, green: byte, blue: byte): bv32 {
    (((red as bv32) << 16) | ((green as bv32) << 8) | (blue as bv32)) & 0xffffff
  }

  /** The colour of pixel `n`: blue in the lowest byte, then green, then red. */
  function Color(image: seq<byte>, n: nat): bv32
    requires 4 * n + 4 <= |image|
  {
    RealColor(image[4 * n + 2], image[4 * n + 1], image[4 * n])
  }

  function Word(image: seq<byte>, ink: Ink, n: nat): bv32
    requires 4 * n + 4 <= |image|
  {
    if ink.Raw? then WordAt(image, 4 * n) else Color(image, n)
  }

  predicate Drawn(image: seq<byte>, p: Placement, ink: Ink, n: nat)
    requires 0 < p.srcWidth && 4 * n + 4 <= |image|
  {
    && p.Visible(n % p.srcWidth, n / p.srcWidth)
    && (ink.Keyed? ==> Color(image, n) != ink.key)
  }

  /** The frame words the first `n` source pixels leave behind, later pixels over earlier ones. */
  ghost function Layer(image: seq<byte>, p: Placement, ink: Ink, n: nat): map<int, bv32>
    requires n <= p.Pixels() && 4 * n <= |image|
  {
    if n == 0 then map[]
    else
      var below := Layer(image, p, ink, n - 1);
      if Drawn(image, p, ink, n - 1) then below[p.IndexOf(n - 1) := Word(image, ink, n - 1)] else below
  }

  ghost function WholeLayer(image: seq<byte>, p: Placement, ink: Ink): map<int, bv32>
    requires 4 * p.Pixels() <= |image|
  {
    Layer(image, p, ink, p.Pixels())
  }

  ghost function OverlaidByte(mem: seq<byte>, dest: int, layer: map<int, bv32>, k: int): byte
    requires 0 <= k < |mem|
  {
    var i := (k - dest) / 4;
    if i in layer then ByteOf(layer[i], (k - dest) % 4) else mem[k]
  }

  ghost function OverlaidBytes(mem: seq<byte>, dest: int, layer: map<int, bv32>): int -> byte {
    k => if 0 <= k < |mem| then OverlaidByte(mem, dest, layer, k) else 0
  }

  /** Memory with the words of a layer stored relative to `dest`. */
  ghost function Overlaid(mem: seq<byte>, dest: int, layer: map<int, bv32>): seq<byte> {
    Tabulate(|mem|, OverlaidBytes(mem, dest, layer))
  }

  lemma OverlaidPointwise(mem: seq<byte>, dest: int, layer: map<int, bv32>)
    ensures |Overlaid(mem, dest, layer)| == |mem|
    ensures forall k :: 0 <= k < |mem| ==> Overlaid(mem, dest, layer)[k] == OverlaidByte(mem, dest, layer, k)
  {
    TabulatePointwise(|mem|, OverlaidBytes(mem, dest, layer));
  }

  lemma OverlaidNone(mem: seq<byte>, dest: int)
    ensures Overlaid(mem, dest, map[]) == mem
  {
    OverlaidPointwise(mem, dest, map[]);
  }

  lemma OverlaidStore(mem: seq<byte>, dest: int, layer: map<int, bv32>, i: int, w: bv32, cur: seq<byte>, next: seq<byte>)
    requires cur == Overlaid(mem, dest, layer)
    requires Stored(cur, next, dest + 4 * i, Bytes32(w))
    ensures next == Overlaid(mem, dest, layer[i := w])
  {
    var target := Overlaid(mem, dest, layer[i := w]);
    OverlaidPointwise(mem, dest, layer);
    OverlaidPointwise(mem, dest, layer[i := w]);
    forall k | 0 <= k < |mem|
      ensures next[k] == target[k]
    {
      if dest + 4 * i <= k < dest + 4 * i + 4 {
        assert (k - dest) / 4 == i;
      } else {
        assert (k - dest) / 4 != i;
      }
    }
  }

  /** Every word that is to be drawn lies in memory. */
  ghost predicate DrawnInBounds(image: seq<byte>, p: Placement, ink: Ink, dest: int, memLength: int)
    requires 4 * p.Pixels() <= |image|
  {
    forall n: nat :: n < p.Pixels() && Drawn(image, p, ink, n) ==>
      0 <= dest + 4 * p.IndexOf(n) && dest + 4 * p.IndexOf(n) + 4 <= memLength
  }

  lemma PixelNumber(p: Placement, px: int, py: int)
    requires 0 <= px < p.srcWidth && 0 <= py < p.srcHeight
    ensures 0 <= py * p.srcWidth + px < p.Pixels()
    ensures (py * p.srcWidth + px) % p.srcWidth == px && (py * p.srcWidth + px) / p.srcWidth == py
  {
    Raster.DivMod(py, p.srcWidth, px);
    Raster.Scaled(0, py, p.srcWidth);
    Raster.Scaled(py + 1, p.srcHeight, p.srcWidth);
  }

  /** The loops stand at pixel (px, py) with `n` pixels read. */
  predicate Reading(p: Placement, n: int, px: int, py: int) {
    var width := if p.srcWidth < 0 then 0 else p.srcWidth;
    && 0 <= n <= p.Pixels() && n == py * width + px
    && 0 <= px <= width && 0 <= py && (py == 0 || py <= p.srcHeight)
  }

  lemma NextRow(p: Placement, n: int, px: int, py: int)
    requires Reading(p, n, px, py) && py < p.srcHeight && p.srcWidth <= px
    ensures Reading(p, n, 0, py + 1)
  {
    var width := if p.srcWidth < 0 then 0 else p.srcWidth;
    assert (py + 1) * width == py * width + width;
  }

  /** The pixel read next, its number split back into column and row. */
  lemma NextPixel(p: Placement, n: int, px: int, py: int)
    requires Reading(p, n, px, py) && py < p.srcHeight && px < p.srcWidth
    ensures n < p.Pixels() && n % p.srcWidth == px && n / p.srcWidth == py
    ensures p.IndexOf(n) == p.Index(px, py)
    ensures Reading(p, n + 1, px + 1, py)
  {
    PixelNumber(p, px, py);
  }

  /** One pixel: the frame gets its word if it is drawn. */
  lemma DrawPixel(image: seq<byte>, p: Placement, ink: Ink, n: nat, was: seq<byte>, dest: int, cur: seq<byte>, next: seq<byte>)
    requires n < p.Pixels() && 4 * p.Pixels() <= |image|
    requires cur == Overlaid(was, dest, Layer(image, p, ink, n))
    requires if Drawn(image, p, ink, n) then Stored(cur, next, dest + 4 * p.IndexOf(n), Bytes32(Word(image, ink, n))) else next == cur
    ensures next == Overlaid(was, dest, Layer(image, p, ink, n + 1))
  {
    if Drawn(image, p, ink, n) {
      OverlaidStore(was, dest, Layer(image, p, ink, n), p.IndexOf(n), Word(image, ink, n), cur, next);
    }
  }

  lemma AllRead(p: Placement, n: int, py: int)
    requires Reading(p, n, 0, py) && p.srcHeight <= py
    ensures n == p.Pixels()
  {
  }

  /** The inner byte loop shared by both per-pixel blits: four bytes are read and the source
      pointer moves on, whether or not the pixel is drawn afterwards. */
  method ReadColor(image: array<byte>, at: int, ghost n: nat) returns (realColor: bv32, src: int)
    requires at == 4 * n && 4 * n + 4 <= image.Length
    ensures realColor == Color(image[..], n) && src == at + 4
  {
    var color := new byte[4];
    var i := 0;
    src := at;
    while i < 4
      invariant 0 <= i <= 4 && src == at + i
      invariant forall j :: 0 <= j < i ==> color[j] == image[at + j]
    {
      color[i] := image[src];
      src := src + 1;
      i := i + 1;
    }
    var red, green, blue := color[2], color[1], color[0];
    realColor := RealColor(red, green, blue);
  }

  method AsVidCopyImageToBuffer2(mem: array<byte>, dest: int, image: array<byte>, p: Placement)
    requires mem != image && 4 * p.Pixels() <= image.Length
    requires DrawnInBounds(image[..], p, Plain, dest, mem.Length)
    modifies mem
    ensures mem[..] == Overlaid(old(mem[..]), dest, WholeLayer(image[..], p, Plain))
  {
    ghost var was, ink, n := mem[..], Plain, 0;
    var src, y := 0, 0;
    OverlaidNone(was, dest);
    while y < p.srcHeight
      invariant Reading(p, n, 0, y) && src == 4 * n
      invariant mem[..] == Overlaid(was, dest, Layer(image[..], p, ink, n))
    {
      var x := 0;
      while x < p.srcWidth
        invariant Reading(p, n, x, y) && src == 4 * n
        invariant mem[..] == Overlaid(was, dest, Layer(image[..], p, ink, n))
      {
        NextPixel(p, n, x, y);
        ghost var cur := mem[..];
        var realColor;
        realColor, src := ReadColor(image, src, n);
        if y <= p.hFit && x <= p.wFit {
          Store32(mem, dest + 4 * ((y + p.y) * p.destWidth + (x + p.x)), realColor);
        }
        DrawPixel(image[..], p, ink, n, was, dest, cur, mem[..]);
        n := n + 1;
        x := x + 1;
      }
      NextRow(p, n, x, y);
      y := y + 1;
    }
    AllRead(p, n, y);
  }

  method AsVidCopyImageToBuffer3(mem: array<byte>, dest: int, image: array<byte>, p: Placement, transparent: bv32)
    requires mem != image && 4 * p.Pixels() <= image.Length
    requires DrawnInBounds(image[..], p, Keyed(transparent), dest, mem.Length)
    modifies mem
    ensures mem[..] == Overlaid(old(mem[..]), dest, WholeLayer(image[..], p, Keyed(transparent)))
  {
    ghost var was, ink, n := mem[..], Keyed(transparent), 0;
    var src, y := 0, 0;
    OverlaidNone(was, dest);
    while y < p.srcHeight
      invariant Reading(p, n, 0, y) && src == 4 * n
      invariant mem[..] == Overlaid(was, dest, Layer(image[..], p, ink, n))
    {
      var x := 0;
      while x < p.srcWidth
        invariant Reading(p, n, x, y) && src == 4 * n
        invariant mem[..] == Overlaid(was, dest, Layer(image[..], p, ink, n))
      {
        NextPixel(p, n, x, y);
        ghost var cur := mem[..];
        var realColor;
        realColor, src := ReadColor(image, src, n);
        if y <= p.hFit && x <= p.wFit {
          if realColor != transparent {
            Store32(mem, dest + 4 * ((y + p.y) * p.destWidth + (x + p.x)), realColor);
          }
        }
        DrawPixel(image[..], p, ink, n, was, dest, cur, mem[..]);
        n := n + 1;
        x := x + 1;
      }
      NextRow(p, n, x, y);
      y := y + 1;
    }
    AllRead(p, n, y);
  }

  /** The placement of the row-wise copy: top left corner, nothing clipped. */
  function RowPlacement(destWidth: nat, srcWidth: nat, srcHeight: int): Placement {
    Placement(destWidth, srcWidth, srcHeight, 0, 0, srcWidth, srcHeight)
  }

  /** A visible pixel drawn raw is its four bytes copied. */
  lemma RawPixel(image: seq<byte>, p: Placement, was: seq<byte>, dest: int, n: nat, at: int)
    requires n < p.Pixels() && 4 * p.Pixels() <= |image| && Drawn(image, p, Raw, n)
    requires at == dest + 4 * p.IndexOf(n) && 0 <= at && at + 4 <= |was|
    ensures Stored(Overlaid(was, dest, Layer(image, p, Raw, n)), Overlaid(was, dest, Layer(image, p, Raw, n + 1)), at, image[4 * n..4 * n + 4])
  {
    var cur := Overlaid(was, dest, Layer(image, p, Raw, n));
    OverlaidPointwise(was, dest, Layer(image, p, Raw, n));
    var next := Splice(cur, at, Bytes32(Word(image, Raw, n)));
    SpliceStored(cur, at, Bytes32(Word(image, Raw, n)));
    DrawPixel(image, p, Raw, n, was, dest, cur, next);
    WordSlice(image, 4 * n);
  }

  /** The pixels numbered `n` up to `hi` go to consecutive visible frame words. */
  ghost predicate Run(p: Placement, n: nat, line: int, hi: int) {
    && n <= hi <= p.Pixels()
    && (forall j :: n <= j < hi ==> 0 < p.srcWidth && p.IndexOf(j) == line + j - n && p.Visible(j % p.srcWidth, j / p.srcWidth))
  }

  lemma RowIsRun(p: Placement, n: nat, py: int)
    requires 0 <= p.srcWidth && Reading(p, n, 0, py) && py < p.srcHeight && py <= p.hFit && p.srcWidth <= p.wFit + 1
    ensures Reading(p, n + p.srcWidth, p.srcWidth, py)
    ensures Run(p, n, p.Index(0, py), n + p.srcWidth)
  {
    RowStart(p, py);
    RowStart(p, py + 1);
    forall j | n <= j < n + p.srcWidth
      ensures p.IndexOf(j) == p.Index(0, py) + j - n && p.Visible(j % p.srcWidth, j / p.srcWidth)
    {
      PixelNumber(p, j - n, py);
    }
  }

  lemma RowStart(p: Placement, py: int)
    requires 0 <= p.srcWidth && 0 <= py <= p.srcHeight
    ensures 0 <= py * p.srcWidth <= p.Pixels()
    ensures (py + 1) * p.srcWidth == py * p.srcWidth + p.srcWidth
  {
    Raster.Scaled(0, py, p.srcWidth);
    Raster.Scaled(py, p.srcHeight, p.srcWidth);
  }

  lemma LastOfRun(image: seq<byte>, p: Placement, was: seq<byte>, dest: int, n: nat, line: int, hi: nat, at: int)
    requires Run(p, n, line, hi) && n < hi && 4 * p.Pixels() <= |image|
    requires at == dest + 4 * line && 0 <= at && at + 4 * (hi - n) <= |was|
    ensures Stored(Overlaid(was, dest, Layer(image, p, Raw, hi - 1)), Overlaid(was, dest, Layer(image, p, Raw, hi)),
                   at + (4 * (hi - 1) - 4 * n), image[4 * (hi - 1)..4 * hi])
  {
    assert p.IndexOf(hi - 1) == line + hi - 1 - n;
    RawPixel(image, p, was, dest, hi - 1, at + 4 * (hi - 1 - n));
  }

  /** Copying a run of pixels as bytes is drawing them one by one. */
  lemma {:induction false} RunOverlaid(image: seq<byte>, p: Placement, was: seq<byte>, dest: int, n: nat, line: int, hi: nat, at: int)
    requires Run(p, n, line, hi) && 4 * p.Pixels() <= |image|
    requires at == dest + 4 * line && 0 <= at && at + 4 * (hi - n) <= |was|
    ensures Stored(Overlaid(was, dest, Layer(image, p, Raw, n)), Overlaid(was, dest, Layer(image, p, Raw, hi)), at, image[4 * n..4 * hi])
  {
    var before := Overlaid(was, dest, Layer(image, p, Raw, n));
    if hi == n {
      OverlaidPointwise(was, dest, Layer(image, p, Raw, n));
    } else {
      var last := hi - 1;
      var between, after := Overlaid(was, dest, Layer(image, p, Raw, last)), Overlaid(was, dest, Layer(image, p, Raw, hi));
      assert Stored(before, between, at, image[4 * n..4 * last]) by {
        RunOverlaid(image, p, was, dest, n, line, last, at);
      }
      LastOfRun(image, p, was, dest, n, line, hi, at);
      StoredSlices(before, between, after, at, image, 4 * n, 4 * last, 4 * hi);
    }
  }

  /** Line `py` of the frame lies in memory, and the next one starts a frame width on. */
  lemma LineInBounds(p: Placement, dest: nat, memLength: int, py: int)
    requires 0 <= p.srcWidth && p.x == p.y == 0 && 0 <= py < p.srcHeight
    requires dest + 4 * ((p.srcHeight - 1) * p.destWidth + p.srcWidth) <= memLength
    ensures p.Index(0, 0) == 0 && p.Index(0, py + 1) == p.Index(0, py) + p.destWidth
    ensures 0 <= dest + 4 * p.Index(0, py) && dest + 4 * p.Index(0, py) + 4 * p.srcWidth <= memLength
  {
    Raster.Scaled(0, py, p.destWidth);
    Raster.Scaled(py, p.srcHeight - 1, p.destWidth);
  }

  /** One memcpy of an image line. */
  lemma RowCopied(image: seq<byte>, p: Placement, was: seq<byte>, dest: nat, n: nat, py: int, cur: seq<byte>, next: seq<byte>)
    requires 0 <= p.srcWidth && p == RowPlacement(p.destWidth, p.srcWidth, p.srcHeight)
    requires Reading(p, n, 0, py) && py < p.srcHeight && 4 * p.Pixels() <= |image|
    requires dest + 4 * ((p.srcHeight - 1) * p.destWidth + p.srcWidth) <= |was|
    requires cur == Overlaid(was, dest, Layer(image, p, Raw, n))
    requires n + p.srcWidth <= p.Pixels()
    requires 0 <= dest + 4 * p.Index(0, py) && dest + 4 * p.Index(0, py) + 4 * p.srcWidth <= |cur|
    requires next == Splice(cur, dest + 4 * p.Index(0, py), image[4 * n..4 * (n + p.srcWidth)])
    ensures next == Overlaid(was, dest, Layer(image, p, Raw, n + p.srcWidth))
  {
    SpliceStored(cur, dest + 4 * p.Index(0, py), image[4 * n..4 * (n + p.srcWidth)]);
    LineInBounds(p, dest, |was|, py);
    RowIsRun(p, n, py);
    RunOverlaid(image, p, was, dest, n, p.Index(0, py), n + p.srcWidth, dest + 4 * p.Index(0, py));
    SameStore(cur, next, Overlaid(was, dest, Layer(image, p, Raw, n + p.srcWidth)), dest + 4 * p.Index(0, py), image[4 * n..4 * (n + p.srcWidth)]);
  }

  /** One line copied: the pixels drawn so far, and the line. */
  method CopyRow(mem: array<byte>, line: int, image: array<byte>, src: int, ghost p: Placement, width: nat, ghost was: seq<byte>, ghost dest: nat, ghost n: nat, ghost y: int)
    requires mem != image && p == RowPlacement(p.destWidth, width, p.srcHeight) && 4 * p.Pixels() <= image.Length
    requires Reading(p, n, 0, y) && y < p.srcHeight && |was| == mem.Length
    requires dest + 4 * ((p.srcHeight - 1) * p.destWidth + width) <= mem.Length
    requires src == 4 * n && line == dest + 4 * p.Index(0, y)
    requires mem[..] == Overlaid(was, dest, Layer(image[..], p, Raw, n))
    modifies mem
    ensures Reading(p, n + width, 0, y + 1)
    ensures mem[..] == Overlaid(was, dest, Layer(image[..], p, Raw, n + width))
    ensures line + p.destWidth * 4 == dest + 4 * p.Index(0, y + 1)
  {
    LineInBounds(p, dest, mem.Length, y);
    RowIsRun(p, n, y);
    ghost var cur := mem[..];
    MemCpy(mem, line, image, src, width * 4);
    assert image[..][4 * n..4 * (n + width)] == image[src..src + width * 4];
    RowCopied(image[..], p, was, dest, n, y, cur, mem[..]);
    NextRow(p, n + width, width, y);
  }

  method AsVidCopyImageToBuffer(mem: array<byte>, dest: nat, image: array<byte>, destWidth: nat, srcWidth: nat, srcHeight: int)
    requires mem != image && 4 * RowPlacement(destWidth, srcWidth, srcHeight).Pixels() <= image.Length
    requires srcHeight <= 0 || dest + 4 * ((srcHeight - 1) * destWidth + srcWidth) <= mem.Length
    modifies mem
    ensures mem[..] == Overlaid(old(mem[..]), dest, WholeLayer(image[..], RowPlacement(destWidth, srcWidth, srcHeight), Raw))
  {
    ghost var was, p, n := mem[..], RowPlacement(destWidth, srcWidth, srcHeight), 0;
    var src, line, y := 0, dest, 0;
    OverlaidNone(was, dest);
    while y < srcHeight
      invariant Reading(p, n, 0, y) && src == 4 * n && line == dest + 4 * p.Index(0, y)
      invariant mem[..] == Overlaid(was, dest, Layer(image[..], p, Raw, n))
    {
      CopyRow(mem, line, image, src, p, srcWidth, was, dest, n, y);
      n := n + srcWidth;
      src := src + srcWidth * 4;
      line := line + destWidth * 4;
      y := y + 1;
    }
    AllRead(p, n, y);
  }
}
