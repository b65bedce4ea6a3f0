/** Images on the frame reader: what ends up on the screen. */
module Display {
  import opened Bytes
  import opened Wrappers
  import opened Raster
  import opened PixelFormats
  import opened PixelFormatTheorems
  import opened ImageLoader
  import opened Blits
  import opened BlitTheorems
  import opened FrameReader

  /** The colour of pixel `n` of a dump: RGB, or RGBA read as a little-endian word. */
  function ImageColor(bytesPerPixel: nat, pixels: seq<byte>, n: nat): bv32
    requires bytesPerPixel == 3 || bytesPerPixel == 4
    requires bytesPerPixel * n + bytesPerPixel <= |pixels|
  {
    if bytesPerPixel == 3 then RealColor(pixels[3 * n], pixels[3 * n + 1], pixels[3 * n + 2])
    else RealColor(pixels[4 * n + 2], pixels[4 * n + 1], pixels[4 * n])
  }

  /** A supported image of positive dimensions that fit a `short`. */
  predicate Showable(width: nat, height: nat, bytesPerPixel: nat, length: nat) {
    && (bytesPerPixel == 3 || bytesPerPixel == 4) && 0 < width && 0 < height && ShortDimensions(width, height)
    && width * height * bytesPerPixel <= length <= ADDRESS_SPACE
  }

  /** Loading to 32 bits per pixel keeps the colour of every pixel. */
  lemma LoadedColor(width: nat, height: nat, bytesPerPixel: nat, pixels: seq<byte>, initial: seq<byte>, px: nat, py: nat)
    requires Showable(width, height, bytesPerPixel, |pixels|) && px < width && py < height
    requires |initial| == 4 * (height * width)
    ensures var data := Loaded(width, height, bytesPerPixel, pixels, 32, initial);
            var n := py * width + px;
            && |data| == |initial| && 0 <= n && 4 * n + 4 <= |data| && bytesPerPixel * n + bytesPerPixel <= |pixels|
            && Color(data, n) == ImageColor(bytesPerPixel, pixels, n)
  {
    LoadedPixels(width, height, bytesPerPixel, pixels, 32, initial, px, py);
  }

  /** Where on the frame an image goes. */
  datatype Spot = Spot(frameWidth: nat, frameHeight: int, x: int, y: int, width: nat, height: nat) {

    /** The image lies inside the frame, and the frame, at `base`, in memory. */
    predicate Fits(base: int, memLength: int) {
      && 0 <= x && x + width <= frameWidth && 0 <= y && y + height <= frameHeight
      && 0 <= base && base + 4 * (frameHeight * frameWidth) <= memLength
    }

    /** The placement DispIMAGE_from_gimp uses: nothing is clipped. */
    function Unclipped(): Placement {
      Placement(frameWidth, width, height, x, y, width, height)
    }

    /** Byte `k` belongs to frame word (py + y) * W + (px + x). */
    predicate InWord(base: int, px: int, py: int, k: int) {
      var at := base + 4 * ((py + y) * frameWidth + (px + x));
      at <= k < at + 4
    }

    /** Byte `k` is not part of any frame word under the image. */
    ghost predicate Outside(base: int, k: int) {
      forall px, py :: 0 <= px < width && 0 <= py < height ==> !InWord(base, px, py, k)
    }
  }

  lemma FittingWord(s: Spot, base: int, memLength: int, px: int, py: int)
    requires s.Fits(base, memLength) && 0 <= px < s.width && 0 <= py < s.height
    ensures var at := base + 4 * ((py + s.y) * s.frameWidth + (px + s.x)); 0 <= at && at + 4 <= memLength
  {
    Scaled(0, py + s.y, s.frameWidth);
    Scaled(py + s.y + 1, s.frameHeight, s.frameWidth);
  }

  lemma FittingInBounds(image: seq<byte>, s: Spot, ink: Ink, base: int, memLength: int)
    requires s.Fits(base, memLength) && 4 * s.Unclipped().Pixels() <= |image|
    ensures DrawnInBounds(image, s.Unclipped(), ink, base, memLength)
  {
    var p := s.Unclipped();
    forall n: nat | n < p.Pixels() && Drawn(image, p, ink, n)
      ensures 0 <= base + 4 * p.IndexOf(n) && base + 4 * p.IndexOf(n) + 4 <= memLength
    {
      PixelCoordinates(p, n);
      FittingWord(s, base, memLength, n % p.srcWidth, n / p.srcWidth);
    }
  }

  /** The frame word at `at` holds a colour, blue in its lowest byte and a zero on top, or its old
      bytes if the colour is the key. */
  predicate WordShown(before: seq<byte>, after: seq<byte>, at: int, red: byte, green: byte, blue: byte, key: bv32) {
    && 0 <= at && at + 4 <= |before| == |after|
    && (if ChannelWord(red, green, blue) != key
        then after[at] == blue && after[at + 1] == green && after[at + 2] == red && after[at + 3] == 0
        else after[at] == before[at] && after[at + 1] == before[at + 1] && after[at + 2] == before[at + 2] && after[at + 3] == before[at + 3])
  }

  /** Frame word (py + y) * W + (px + x) shows the channels of image pixel (px, py). */
  predicate PixelShown(before: seq<byte>, after: seq<byte>, base: int, s: Spot, bytesPerPixel: nat, pixels: seq<byte>, key: bv32, px: int, py: int)
    requires bytesPerPixel == 3 || bytesPerPixel == 4
  {
    var n, at := py * s.width + px, base + 4 * ((py + s.y) * s.frameWidth + (px + s.x));
    && 0 <= n && bytesPerPixel * n + bytesPerPixel <= |pixels|
    && (if bytesPerPixel == 3 then WordShown(before, after, at, pixels[3 * n], pixels[3 * n + 1], pixels[3 * n + 2], key)
        else WordShown(before, after, at, pixels[4 * n + 2], pixels[4 * n + 1], pixels[4 * n], key))
  }

  /** The image has been drawn over the old frame, pixels of the key colour left out, and no
      other byte of memory has changed. */
  ghost predicate ImageShown(before: seq<byte>, after: seq<byte>, base: int, s: Spot, bytesPerPixel: nat, pixels: seq<byte>, key: bv32)
    requires bytesPerPixel == 3 || bytesPerPixel == 4
  {
    && |after| == |before|
    && (forall px, py :: 0 <= px < s.width && 0 <= py < s.height ==> PixelShown(before, after, base, s, bytesPerPixel, pixels, key, px, py))
    && (forall k :: 0 <= k < |before| && s.Outside(base, k) ==> after[k] == before[k])
  }

  /** Only the pixel itself has bytes in its frame word. */
  lemma OwnWord(s: Spot, base: int, memLength: int, px: int, py: int, px': int, py': int, k: int)
    requires s.Fits(base, memLength) && 0 <= px < s.width && 0 <= py < s.height && 0 <= px' < s.width && 0 <= py' < s.height
    requires s.InWord(base, px, py, k) && s.InWord(base, px', py', k)
    ensures px == px' && py == py'
  {
    QuotientUnique(py + s.y, px + s.x, py' + s.y, px' + s.x, s.frameWidth);
  }

  /** A pixel of the key colour leaves the bytes of its word alone. */
  lemma KeyedOut(mem: seq<byte>, base: int, s: Spot, data: seq<byte>, key: bv32, px: int, py: int, k: int)
    requires s.Fits(base, |mem|) && 4 * s.Unclipped().Pixels() <= |data|
    requires 0 <= px < s.width && 0 <= py < s.height && !Selected(data, s.Unclipped(), Keyed(key), px, py)
    requires 0 <= k < |mem| && s.InWord(base, px, py, k)
    ensures |Overlaid(mem, base, WholeLayer(data, s.Unclipped(), Keyed(key)))| == |mem|
    ensures Overlaid(mem, base, WholeLayer(data, s.Unclipped(), Keyed(key)))[k] == mem[k]
  {
    var p := s.Unclipped();
    forall px', py' | 0 <= px' < p.srcWidth && 0 <= py' < p.srcHeight && InWord(p, base, px', py', k)
      ensures !Selected(data, p, Keyed(key), px', py')
    {
      OwnWord(s, base, |mem|, px, py, px', py', k);
    }
    BlitElsewhere(mem, base, data, p, Keyed(key), k);
  }

  lemma SelectedShown(mem: seq<byte>, base: int, s: Spot, data: seq<byte>, key: bv32, px: int, py: int, n: int, at: int)
    requires s.Fits(base, |mem|) && 4 * s.Unclipped().Pixels() <= |data|
    requires 0 <= px < s.width && 0 <= py < s.height && Selected(data, s.Unclipped(), Keyed(key), px, py)
    requires n == py * s.width + px && at == base + 4 * ((py + s.y) * s.frameWidth + (px + s.x))
    requires 0 <= n && 4 * n + 4 <= |data| && 0 <= at && at + 4 <= |mem|
    ensures WordShown(mem, Overlaid(mem, base, WholeLayer(data, s.Unclipped(), Keyed(key))), at, data[4 * n + 2], data[4 * n + 1], data[4 * n], key)
  {
    BlitPixel(mem, base, data, s.Unclipped(), Keyed(key), px, py);
  }

  lemma KeyedOutShown(mem: seq<byte>, base: int, s: Spot, data: seq<byte>, key: bv32, px: int, py: int, n: int, at: int)
    requires s.Fits(base, |mem|) && 4 * s.Unclipped().Pixels() <= |data|
    requires 0 <= px < s.width && 0 <= py < s.height && !Selected(data, s.Unclipped(), Keyed(key), px, py)
    requires n == py * s.width + px && at == base + 4 * ((py + s.y) * s.frameWidth + (px + s.x))
    requires 0 <= n && 4 * n + 4 <= |data| && 0 <= at && at + 4 <= |mem|
    ensures WordShown(mem, Overlaid(mem, base, WholeLayer(data, s.Unclipped(), Keyed(key))), at, data[4 * n + 2], data[4 * n + 1], data[4 * n], key)
  {
    KeyedOut(mem, base, s, data, key, px, py, at);
    KeyedOut(mem, base, s, data, key, px, py, at + 1);
    KeyedOut(mem, base, s, data, key, px, py, at + 2);
    KeyedOut(mem, base, s, data, key, px, py, at + 3);
  }

  /** What showing a bitmap does to one frame word under it. */
  lemma BlitWordShown(mem: seq<byte>, base: int, s: Spot, data: seq<byte>, key: bv32, px: int, py: int, n: int, at: int)
    requires s.Fits(base, |mem|) && 4 * s.Unclipped().Pixels() <= |data|
    requires 0 <= px < s.width && 0 <= py < s.height
    requires n == py * s.width + px && at == base + 4 * ((py + s.y) * s.frameWidth + (px + s.x))
    requires 0 <= n && 4 * n + 4 <= |data| && 0 <= at && at + 4 <= |mem|
    ensures WordShown(mem, Overlaid(mem, base, WholeLayer(data, s.Unclipped(), Keyed(key))), at, data[4 * n + 2], data[4 * n + 1], data[4 * n], key)
  {
    if Selected(data, s.Unclipped(), Keyed(key), px, py) {
      SelectedShown(mem, base, s, data, key, px, py, n, at);
    } else {
      KeyedOutShown(mem, base, s, data, key, px, py, n, at);
    }
  }

  lemma LoadedPixelShown(mem: seq<byte>, base: int, s: Spot, bytesPerPixel: nat, pixels: seq<byte>, data: seq<byte>, key: bv32, px: int, py: int)
    requires bytesPerPixel == 3 || bytesPerPixel == 4
    requires s.Fits(base, |mem|) && 4 * s.Unclipped().Pixels() <= |data|
    requires 0 <= px < s.width && 0 <= py < s.height && PixelLoaded(bytesPerPixel, pixels, 32, data, py * s.width + px)
    ensures PixelShown(mem, Overlaid(mem, base, WholeLayer(data, s.Unclipped(), Keyed(key))), base, s, bytesPerPixel, pixels, key, px, py)
  {
    FittingWord(s, base, |mem|, px, py);
    BlitWordShown(mem, base, s, data, key, px, py, py * s.width + px, base + 4 * ((py + s.y) * s.frameWidth + (px + s.x)));
  }

  lemma LoadedElsewhere(mem: seq<byte>, base: int, s: Spot, data: seq<byte>, key: bv32, k: int)
    requires 4 * s.Unclipped().Pixels() <= |data| && 0 <= k < |mem| && s.Outside(base, k)
    ensures |Overlaid(mem, base, WholeLayer(data, s.Unclipped(), Keyed(key)))| == |mem|
    ensures Overlaid(mem, base, WholeLayer(data, s.Unclipped(), Keyed(key)))[k] == mem[k]
  {
    forall px, py | 0 <= px < s.width && 0 <= py < s.height
      ensures !InWord(s.Unclipped(), base, px, py, k)
    {
      assert !s.InWord(base, px, py, k);
    }
    BlitElsewhere(mem, base, data, s.Unclipped(), Keyed(key), k);
  }

  /** End to end: loading an image to 32 bits per pixel and blitting it with a colour key shows
      it, whatever the bitmap memory held before. */
  lemma LoadAndBlitShowsImage(mem: seq<byte>, base: int, s: Spot, bytesPerPixel: nat, pixels: seq<byte>, initial: seq<byte>, key: bv32)
    requires s.Fits(base, |mem|) && Showable(s.width, s.height, bytesPerPixel, |pixels|)
    requires |initial| == 4 * (s.height * s.width)
    ensures var data := Loaded(s.width, s.height, bytesPerPixel, pixels, 32, initial);
            && 4 * s.Unclipped().Pixels() <= |data|
            && ImageShown(mem, Overlaid(mem, base, WholeLayer(data, s.Unclipped(), Keyed(key))), base, s, bytesPerPixel, pixels, key)
  {
    var data := Loaded(s.width, s.height, bytesPerPixel, pixels, 32, initial);
    LoadedPixels(s.width, s.height, bytesPerPixel, pixels, 32, initial, 0, 0);
    var after := Overlaid(mem, base, WholeLayer(data, s.Unclipped(), Keyed(key)));
    OverlaidPointwise(mem, base, WholeLayer(data, s.Unclipped(), Keyed(key)));
    forall px, py | 0 <= px < s.width && 0 <= py < s.height
      ensures PixelShown(mem, after, base, s, bytesPerPixel, pixels, key, px, py)
    {
      LoadedPixels(s.width, s.height, bytesPerPixel, pixels, 32, initial, px, py);
      LoadedPixelShown(mem, base, s, bytesPerPixel, pixels, data, key, px, py);
    }
    forall k | 0 <= k < |mem| && s.Outside(base, k)
      ensures after[k] == mem[k]
    {
      LoadedElsewhere(mem, base, s, data, key, k);
    }
  }

  /** The load that every DispIMAGE function starts with. */
  method LoadForDisplay(image: GimpImage, bmp: Bitmap) returns (ghost initial: seq<byte>)
    requires Showable(image.width, image.height, image.bytesPerPixel, image.pixelData.Length)
    modifies bmp
    ensures bmp.biWidth == image.width && bmp.biHeight == image.height
    ensures |initial| == 4 * (image.height * image.width)
    ensures bmp.data != null && fresh(bmp.data)
    ensures bmp.data[..] == Loaded(image.width, image.height, image.bytesPerPixel, image.pixelData[..], 32, initial)
  {
    DisplaySize(image.width, image.height, image.bytesPerPixel, image.pixelData.Length);
    var ret;
    ret, initial := LoadGimpBmp(image, bmp, 32, false);
  }

  lemma DisplaySize(width: nat, height: nat, bytesPerPixel: nat, length: nat)
    requires Showable(width, height, bytesPerPixel, length)
    ensures AllocationSize(width, height, 32) == 4 * (height * width) && 0 <= height * width
    ensures ToShort(width) == width && ToShort(height) == height
  {
    SizeReordered(width, height, From24To32);
    AllocationExact(width, height, bytesPerPixel, 32);
  }

  /** DispIMAGE_from_gimp, with both allocations successful: the image is drawn into the frame
      that is on the screen. */
  method DispImageFromGimp(display: VipFrameReader, image: GimpImage, x: int, y: int, transparent: bv32) returns (ret: int)
    requires image.pixelData != display.mem && 0 <= display.width
    requires Showable(image.width, image.height, image.bytesPerPixel, image.pixelData.Length)
    requires Spot(display.width, display.height, x, y, image.width, image.height).Fits(
               if display.displayFrame == 0 then display.frame0Base else display.frame1Base, display.mem.Length)
    modifies display.mem
    ensures ret == 1
    ensures ImageShown(old(display.mem[..]), display.mem[..], if display.displayFrame == 0 then display.frame0Base else display.frame1Base,
                       Spot(display.width, display.height, x, y, image.width, image.height), image.bytesPerPixel, image.pixelData[..], transparent)
  {
    var bmp := new Bitmap();
    ghost var s := Spot(display.width, display.height, x, y, image.width, image.height);
    ghost var initial := LoadForDisplay(image, bmp);
    var dest := if display.displayFrame == 0 then display.frame0Base else display.frame1Base;
    var p := Placement(display.width, bmp.biWidth, bmp.biHeight, x, y, bmp.biWidth, bmp.biHeight);
    assert p == s.Unclipped();
    LoadAndBlitShowsImage(display.mem[..], dest, s, image.bytesPerPixel, image.pixelData[..], initial, transparent);
    FittingInBounds(bmp.data[..], s, Keyed(transparent), dest, display.mem.Length);
    AsVidCopyImageToBuffer3(display.mem, dest, bmp.data, p, transparent);
    ret := 1;
  }
}
