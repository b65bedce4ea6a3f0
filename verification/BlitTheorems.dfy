/** How the row-wise, the plain and the keyed blit relate to each other. */
module BlitTheorems {
  import opened Bytes
  import opened Blits
  import Raster

  /** A word of the frame after a blit. */
  lemma OverlaidWord(mem: seq<byte>, dest: int, layer: map<int, bv32>, i: int)
    requires 0 <= dest + 4 * i && dest + 4 * i + 4 <= |mem|
    ensures |Overlaid(mem, dest, layer)| == |mem|
    ensures WordAt(Overlaid(mem, dest, layer), dest + 4 * i) == if i in layer then layer[i] else WordAt(mem, dest + 4 * i)
  {
    OverlaidPointwise(mem, dest, layer);
    var at := dest + 4 * i;
    assert (at - dest) / 4 == (at + 1 - dest) / 4 == (at + 2 - dest) / 4 == (at + 3 - dest) / 4 == i;
    if i in layer {
      BytesWord(layer[i]);
    }
  }

  /** Blitting the same image again changes nothing: a frame word that is written at all is
      written with a value that does not depend on the frame. This holds for every ink and
      every placement, overlapping lines included. */
  lemma BlitIdempotent(mem: seq<byte>, dest: int, image: seq<byte>, p: Placement, ink: Ink)
    requires 4 * p.Pixels() <= |image|
    ensures var layer := WholeLayer(image, p, ink);
            Overlaid(Overlaid(mem, dest, layer), dest, layer) == Overlaid(mem, dest, layer)
  {
    var layer := WholeLayer(image, p, ink);
    OverlaidPointwise(mem, dest, layer);
    OverlaidPointwise(Overlaid(mem, dest, layer), dest, layer);
  }

  lemma ColorBelowKey(r: byte, g: byte, b: byte)
    ensures RealColor(r, g, b) <= 0xffffff
  {
  }

  /** A key that no colour can have makes the keyed blit the plain one, for every image, clip
      window and offset. */
  lemma {:induction false} KeyBeyondColors(image: seq<byte>, p: Placement, key: bv32, n: nat)
    requires n <= p.Pixels() && 4 * n <= |image| && 0xffffff < key
    ensures Layer(image, p, Keyed(key), n) == Layer(image, p, Plain, n)
  {
    if n != 0 {
      KeyBeyondColors(image, p, key, n - 1);
      ColorBelowKey(image[4 * n - 2], image[4 * n - 3], image[4 * n - 4]);
    }
  }

  /** Two layers over the same words that agree on the low 24 bits. */
  ghost predicate SameColors(raw: map<int, bv32>, plain: map<int, bv32>) {
    raw.Keys == plain.Keys && forall i :: i in raw ==> Low24(raw[i]) == plain[i]
  }

  function Low24(w: bv32): bv32 {
    w & 0xffffff
  }

  lemma RawColor(r: byte, g: byte, b: byte, a: byte)
    ensures Low24(Word32(b, g, r, a)) == RealColor(r, g, b)
  {
    assert ((a as bv32) << 24) & 0xffffff == 0;
  }

  /** Raw and plain drawing write the same words, equal in their low 24 bits. */
  lemma {:induction false} RawAgreesWithPlain(image: seq<byte>, p: Placement, n: nat)
    requires n <= p.Pixels() && 4 * n <= |image|
    ensures SameColors(Layer(image, p, Raw, n), Layer(image, p, Plain, n))
  {
    if n != 0 {
      RawAgreesWithPlain(image, p, n - 1);
      RawColor(image[4 * n - 2], image[4 * n - 3], image[4 * n - 4], image[4 * n - 1]);
      assert Low24(Word(image, Raw, n - 1)) == Word(image, Plain, n - 1);
    }
  }

  /** The row-wise memcpy and the per-pixel blit at offset (0, 0) with nothing clipped leave
      frames whose words agree on the low 24 bits where the image is, and everywhere else are the
      old frame. Lines may overlap. */
  lemma RowBlitAgreesWithPixelBlit(mem: seq<byte>, dest: int, image: seq<byte>, destWidth: nat, srcWidth: nat, srcHeight: int, i: int)
    requires 4 * RowPlacement(destWidth, srcWidth, srcHeight).Pixels() <= |image|
    requires 0 <= dest + 4 * i && dest + 4 * i + 4 <= |mem|
    ensures var p := RowPlacement(destWidth, srcWidth, srcHeight);
            var byRow, byPixel := Overlaid(mem, dest, WholeLayer(image, p, Raw)), Overlaid(mem, dest, WholeLayer(image, p, Plain));
            && |byRow| == |byPixel| == |mem|
            && (i in WholeLayer(image, p, Plain) ==> Low24(WordAt(byRow, dest + 4 * i)) == WordAt(byPixel, dest + 4 * i))
            && (i !in WholeLayer(image, p, Plain) ==> WordAt(byRow, dest + 4 * i) == WordAt(byPixel, dest + 4 * i) == WordAt(mem, dest + 4 * i))
  {
    var p := RowPlacement(destWidth, srcWidth, srcHeight);
    RawAgreesWithPlain(image, p, p.Pixels());
    OverlaidWord(mem, dest, WholeLayer(image, p, Raw), i);
    OverlaidWord(mem, dest, WholeLayer(image, p, Plain), i);
  }

  lemma PixelCoordinates(p: Placement, n: nat)
    requires n < p.Pixels()
    ensures 0 <= n % p.srcWidth < p.srcWidth && 0 <= n / p.srcWidth < p.srcHeight
    ensures n == n / p.srcWidth * p.srcWidth + n % p.srcWidth
  {
    if p.srcHeight <= n / p.srcWidth {
      Raster.Scaled(p.srcHeight, n / p.srcWidth, p.srcWidth);
    }
  }

  /** When lines do not overlap, visible pixels have frame words of their own. */
  lemma IndexInjective(p: Placement, m: nat, n: nat)
    requires p.NoOverlap() && m < p.Pixels() && n < p.Pixels()
    requires p.Visible(m % p.srcWidth, m / p.srcWidth) && p.Visible(n % p.srcWidth, n / p.srcWidth)
    requires p.IndexOf(m) == p.IndexOf(n)
    ensures m == n
  {
    PixelCoordinates(p, m);
    PixelCoordinates(p, n);
    if p.Columns() <= p.destWidth {
      Raster.QuotientUnique(m / p.srcWidth + p.y, m % p.srcWidth, n / p.srcWidth + p.y, n % p.srcWidth, p.destWidth);
    }
  }

  /** One of the first `n` pixels is drawn at frame word `i`. */
  ghost predicate DrawnAt(image: seq<byte>, p: Placement, ink: Ink, n: nat, i: int)
    requires n <= p.Pixels() && 4 * n <= |image|
  {
    exists m: nat :: m < n && Drawn(image, p, ink, m) && p.IndexOf(m) == i
  }

  /** A pixel drawn after the m-th goes to the same frame word. */
  ghost predicate CoveredLater(image: seq<byte>, p: Placement, ink: Ink, m: nat, n: nat)
    requires m < n <= p.Pixels() && 4 * n <= |image|
  {
    exists l: nat :: m < l < n && Drawn(image, p, ink, l) && p.IndexOf(l) == p.IndexOf(m)
  }

  /** Exactly what a blit writes, for every clip window and offset: the frame words of the drawn
      pixels, and where several share a word the last of them shows. */
  lemma {:induction false} LayerTop(image: seq<byte>, p: Placement, ink: Ink, n: nat)
    requires n <= p.Pixels() && 4 * n <= |image|
    ensures var layer := Layer(image, p, ink, n);
            && (forall i :: i in layer <==> DrawnAt(image, p, ink, n, i))
            && (forall m: nat :: m < n && Drawn(image, p, ink, m) && !CoveredLater(image, p, ink, m, n) ==> p.IndexOf(m) in layer && layer[p.IndexOf(m)] == Word(image, ink, m))
  {
    if n != 0 {
      var last, below, layer := n - 1, Layer(image, p, ink, n - 1), Layer(image, p, ink, n);
      LayerTop(image, p, ink, last);
      forall i
        ensures i in layer <==> DrawnAt(image, p, ink, n, i)
      {
        assert DrawnAt(image, p, ink, n, i) <==> DrawnAt(image, p, ink, last, i) || (Drawn(image, p, ink, last) && p.IndexOf(last) == i);
      }
      forall m: nat | m < n && Drawn(image, p, ink, m) && !CoveredLater(image, p, ink, m, n)
        ensures p.IndexOf(m) in layer && layer[p.IndexOf(m)] == Word(image, ink, m)
      {
        if m < last {
          assert !CoveredLater(image, p, ink, m, last);
        }
      }
    }
  }

  /** Without overlap no pixel is covered: each drawn pixel's word is at its own place, and
      nothing is written anywhere else. */
  lemma LayerExact(image: seq<byte>, p: Placement, ink: Ink, n: nat)
    requires p.NoOverlap() && n <= p.Pixels() && 4 * n <= |image|
    ensures var layer := Layer(image, p, ink, n);
            && (forall m: nat :: m < n && Drawn(image, p, ink, m) ==> p.IndexOf(m) in layer && layer[p.IndexOf(m)] == Word(image, ink, m))
            && (forall i :: i in layer ==> DrawnAt(image, p, ink, n, i))
  {
    LayerTop(image, p, ink, n);
    forall m: nat | m < n && Drawn(image, p, ink, m)
      ensures !CoveredLater(image, p, ink, m, n)
    {
      forall l: nat | m < l < n && Drawn(image, p, ink, l)
        ensures p.IndexOf(l) != p.IndexOf(m)
      {
        if p.IndexOf(l) == p.IndexOf(m) {
          IndexInjective(p, m, l);
        }
      }
    }
  }

  // ---- The blits in bytes

  /** The word of three channels: red above green above blue. */
  function ChannelWord(red: byte, green: byte, blue: byte): bv32 {
    ((red as bv32) << 16) | ((green as bv32) << 8) | (blue as bv32)
  }

  /** Image pixel (px, py) is within the inclusive clip limits, and not the key colour. */
  predicate Selected(image: seq<byte>, p: Placement, ink: Ink, px: int, py: int)
    requires 0 <= px < p.srcWidth && 0 <= py < p.srcHeight && 4 * p.Pixels() <= |image|
  {
    PixelNumber(p, px, py);
    var n := py * p.srcWidth + px;
    && px <= p.wFit && py <= p.hFit
    && (ink.Keyed? ==> ChannelWord(image[4 * n + 2], image[4 * n + 1], image[4 * n]) != ink.key)
  }

  lemma SelectedIsDrawn(image: seq<byte>, p: Placement, ink: Ink, px: int, py: int)
    requires 0 <= px < p.srcWidth && 0 <= py < p.srcHeight && 4 * p.Pixels() <= |image|
    ensures var n := py * p.srcWidth + px;
            && 0 <= n < p.Pixels() && n % p.srcWidth == px && n / p.srcWidth == py
            && p.IndexOf(n) == (py + p.y) * p.destWidth + (px + p.x)
            && (Drawn(image, p, ink, n) <==> Selected(image, p, ink, px, py))
  {
    PixelNumber(p, px, py);
    var n := py * p.srcWidth + px;
    NoTopByte(image[4 * n + 2], image[4 * n + 1], image[4 * n]);
  }

  lemma NoTopByte(r: byte, g: byte, b: byte)
    ensures RealColor(r, g, b) == ChannelWord(r, g, b)
    ensures Bytes32(RealColor(r, g, b)) == [b, g, r, 0]
  {
  }

  /** Byte `k` belongs to the frame word of image pixel (px, py). */
  predicate InWord(p: Placement, dest: int, px: int, py: int, k: int) {
    var at := dest + 4 * ((py + p.y) * p.destWidth + (px + p.x));
    at <= k < at + 4
  }

  /** A selected pixel, in bytes: frame word (py + y) * W + (px + x) holds blue, green, red and a
      zero, or the four bytes of the image when they are copied raw. */
  lemma BlitPixel(mem: seq<byte>, dest: int, image: seq<byte>, p: Placement, ink: Ink, px: int, py: int)
    requires p.NoOverlap() && 4 * p.Pixels() <= |image|
    requires 0 <= px < p.srcWidth && 0 <= py < p.srcHeight && Selected(image, p, ink, px, py)
    requires var at := dest + 4 * ((py + p.y) * p.destWidth + (px + p.x)); 0 <= at && at + 4 <= |mem|
    ensures var out, n, at := Overlaid(mem, dest, WholeLayer(image, p, ink)), py * p.srcWidth + px, dest + 4 * ((py + p.y) * p.destWidth + (px + p.x));
            && |out| == |mem| && 0 <= n && 4 * n + 4 <= |image|
            && out[at] == image[4 * n] && out[at + 1] == image[4 * n + 1] && out[at + 2] == image[4 * n + 2]
            && out[at + 3] == if ink.Raw? then image[4 * n + 3] else 0
  {
    var n, i := py * p.srcWidth + px, (py + p.y) * p.destWidth + (px + p.x);
    SelectedIsDrawn(image, p, ink, px, py);
    LayerExact(image, p, ink, p.Pixels());
    WordInBytes(mem, dest, WholeLayer(image, p, ink), i);
    NoTopByte(image[4 * n + 2], image[4 * n + 1], image[4 * n]);
    WordBytes(image[4 * n], image[4 * n + 1], image[4 * n + 2], image[4 * n + 3]);
  }

  lemma WordInBytes(mem: seq<byte>, dest: int, layer: map<int, bv32>, i: int)
    requires i in layer && 0 <= dest + 4 * i && dest + 4 * i + 4 <= |mem|
    ensures |Overlaid(mem, dest, layer)| == |mem|
    ensures Overlaid(mem, dest, layer)[dest + 4 * i..dest + 4 * i + 4] == Bytes32(layer[i])
  {
    OverlaidPointwise(mem, dest, layer);
  }

  /** A byte in the word of no selected pixel is kept; for every clip window and offset. */
  lemma BlitElsewhere(mem: seq<byte>, dest: int, image: seq<byte>, p: Placement, ink: Ink, k: int)
    requires 4 * p.Pixels() <= |image| && 0 <= k < |mem|
    requires forall px, py :: 0 <= px < p.srcWidth && 0 <= py < p.srcHeight && InWord(p, dest, px, py, k) ==> !Selected(image, p, ink, px, py)
    ensures |Overlaid(mem, dest, WholeLayer(image, p, ink))| == |mem|
    ensures Overlaid(mem, dest, WholeLayer(image, p, ink))[k] == mem[k]
  {
    var layer, i := WholeLayer(image, p, ink), (k - dest) / 4;
    OverlaidPointwise(mem, dest, layer);
    LayerTop(image, p, ink, p.Pixels());
    if i in layer {
      assert DrawnAt(image, p, ink, p.Pixels(), i);
      var m: nat :| m < p.Pixels() && Drawn(image, p, ink, m) && p.IndexOf(m) == i;
      DrawnIsSelected(image, p, ink, m, dest, k);
      assert false;
    }
  }

  lemma DrawnIsSelected(image: seq<byte>, p: Placement, ink: Ink, n: nat, dest: int, k: int)
    requires n < p.Pixels() && 4 * p.Pixels() <= |image| && Drawn(image, p, ink, n) && (k - dest) / 4 == p.IndexOf(n)
    ensures var px, py := n % p.srcWidth, n / p.srcWidth;
            0 <= px < p.srcWidth && 0 <= py < p.srcHeight && Selected(image, p, ink, px, py) && InWord(p, dest, px, py, k)
  {
    PixelCoordinates(p, n);
    SelectedIsDrawn(image, p, ink, n % p.srcWidth, n / p.srcWidth);
  }

  /** The plain layer without the words equal to the key. */
  ghost function Without(layer: map<int, bv32>, key: bv32): map<int, bv32> {
    map i | i in layer && layer[i] != key :: layer[i]
  }

  /** The keyed blit keeps exactly those words of the plain blit that differ from the key. */
  ghost predicate Selects(image: seq<byte>, p: Placement, key: bv32)
    requires 4 * p.Pixels() <= |image|
  {
    WholeLayer(image, p, Keyed(key)) == Without(WholeLayer(image, p, Plain), key)
  }

  lemma SelectsWithoutOverlap(image: seq<byte>, p: Placement, key: bv32)
    requires p.NoOverlap() && 4 * p.Pixels() <= |image|
    ensures Selects(image, p, key)
  {
    var keyed, plain := WholeLayer(image, p, Keyed(key)), WholeLayer(image, p, Plain);
    LayerExact(image, p, Keyed(key), p.Pixels());
    LayerExact(image, p, Plain, p.Pixels());
    forall i | i in keyed
      ensures i in plain && plain[i] != key && keyed[i] == plain[i]
    {
      assert DrawnAt(image, p, Keyed(key), p.Pixels(), i);
      var m: nat :| m < p.Pixels() && Drawn(image, p, Keyed(key), m) && p.IndexOf(m) == i;
      assert Drawn(image, p, Plain, m);
    }
    forall i | i in plain && plain[i] != key
      ensures i in keyed
    {
      assert DrawnAt(image, p, Plain, p.Pixels(), i);
      var m: nat :| m < p.Pixels() && Drawn(image, p, Plain, m) && p.IndexOf(m) == i;
      assert Drawn(image, p, Keyed(key), m);
    }
  }

  /** In memory: without overlap, every frame word after the keyed blit is the word after the
      plain blit where that differs from the key, and the old word otherwise. */
  lemma KeyedBlitSelects(mem: seq<byte>, dest: int, image: seq<byte>, p: Placement, key: bv32, i: int)
    requires p.NoOverlap() && 4 * p.Pixels() <= |image|
    requires 0 <= dest + 4 * i && dest + 4 * i + 4 <= |mem|
    ensures var keyed, plain := Overlaid(mem, dest, WholeLayer(image, p, Keyed(key))), Overlaid(mem, dest, WholeLayer(image, p, Plain));
            && |keyed| == |plain| == |mem|
            && WordAt(keyed, dest + 4 * i) == if WordAt(plain, dest + 4 * i) != key then WordAt(plain, dest + 4 * i) else WordAt(mem, dest + 4 * i)
  {
    SelectsWithoutOverlap(image, p, key);
    OverlaidWord(mem, dest, WholeLayer(image, p, Keyed(key)), i);
    OverlaidWord(mem, dest, WholeLayer(image, p, Plain), i);
  }

  /** An image that is black but for a blue trace in one pixel. */
  function OneDot(pixels: nat, dot: nat): (image: seq<byte>)
    ensures |image| == 4 * pixels
  {
    seq(4 * pixels, i => if i == 4 * dot then 1 else 0)
  }

  lemma OneDotColor(pixels: nat, dot: nat, n: nat)
    requires n < pixels
    ensures Color(OneDot(pixels, dot), n) == if n == dot then 1 else 0
  {
    assert RealColor(0, 0, 0) == 0 && RealColor(0, 0, 1) == 1;
  }

  /** With black as the key only the dot is drawn. */
  lemma {:induction false} DotKeyed(p: Placement, dot: nat, n: nat)
    requires dot < n <= p.Pixels() && p.Visible(dot % p.srcWidth, dot / p.srcWidth)
    ensures var layer := Layer(OneDot(p.Pixels(), dot), p, Keyed(0), n);
            p.IndexOf(dot) in layer && layer[p.IndexOf(dot)] == 1
  {
    OneDotColor(p.Pixels(), dot, n - 1);
    if dot < n - 1 {
      DotKeyed(p, dot, n - 1);
    }
  }

  /** A later pixel over the dot leaves black in the plain blit. */
  lemma {:induction false} DotCovered(p: Placement, dot: nat, cover: nat, n: nat)
    requires dot < cover < n <= p.Pixels()
    requires p.Visible(cover % p.srcWidth, cover / p.srcWidth) && p.IndexOf(cover) == p.IndexOf(dot)
    ensures var layer := Layer(OneDot(p.Pixels(), dot), p, Plain, n);
            p.IndexOf(dot) in layer && layer[p.IndexOf(dot)] == 0
  {
    OneDotColor(p.Pixels(), dot, n - 1);
    if cover < n - 1 {
      DotCovered(p, dot, cover, n - 1);
    }
  }

  /** A clip window wider than the frame, two lines high, breaks the selection. */
  lemma OverlapBreaksSelection(p: Placement)
    requires !p.NoOverlap()
    ensures var image := OneDot(p.Pixels(), p.destWidth);
            !Selects(image, p, 0)
  {
    var dot, cover := p.destWidth, p.srcWidth;
    var image := OneDot(p.Pixels(), dot);
    PixelNumber(p, dot, 0);
    PixelNumber(p, 0, 1);
    assert p.IndexOf(dot) == p.IndexOf(cover) by {
      assert (1 + p.y) * p.destWidth == p.y * p.destWidth + p.destWidth;
    }
    DotKeyed(p, dot, p.Pixels());
    DotCovered(p, dot, cover, p.Pixels());
    assert WholeLayer(image, p, Keyed(0))[p.IndexOf(dot)] == 1;
    assert p.IndexOf(dot) !in Without(WholeLayer(image, p, Plain), 0);
  }

  /** The keyed blit is a selection of the plain blit, for all images and keys, exactly when the
      visible window is no wider than a frame line or at most one line high. */
  lemma SelectionIffNoOverlap(p: Placement)
    ensures (forall image, key :: 4 * p.Pixels() <= |image| ==> Selects(image, p, key)) <==> p.NoOverlap()
  {
    if p.NoOverlap() {
      forall image, key | 4 * p.Pixels() <= |image|
        ensures Selects(image, p, key)
      {
        SelectsWithoutOverlap(image, p, key);
      }
    } else {
      OverlapBreaksSelection(p);
    }
  }
}
