/** Loading a GIMP image into a freshly allocated bitmap (load_gimp_bmp). */
module ImageLoader {
  import opened Bytes
  import opened Wrappers
  import opened Raster
  import opened PixelFormats
  import opened PixelFormatTheorems

  /** A C-source image dump; only the pixel array lives in memory that kernels read. */
  datatype GimpImage = GimpImage(width: nat, height: nat, bytesPerPixel: nat, pixelData: array<byte>) {
    /** The dump holds every pixel, and it fits the address space. */
    predicate Valid() {
      width * height * bytesPerPixel <= pixelData.Length <= ADDRESS_SPACE
    }
  }

  class Bitmap {
    var biWidth: int
    var biHeight: int
    var biBitCount: int
    var data: array?<byte>

    constructor ()
      ensures data == null
    {
      data := null;
    }
  }

  /** Conversion to a 16-bit `short`. */
  function ToShort(n: int): int {
    (n + 0x8000) % 0x1_0000 - 0x8000
  }

  /** Conversion to a 32-bit `int`. */
  function ToInt(n: int): int {
    (n + 0x8000_0000) % 0x1_0000_0000 - 0x8000_0000
  }

  /** Division by eight that truncates towards zero. */
  function BytesPerPixel(bits: int): int {
    if 0 <= bits then bits / 8 else -(-bits / 8)
  }

  /** What narrowing and division do to any number: the one value of the type that is congruent,
      and the quotient whose remainder has the sign of the dividend. */
  lemma Narrowing(n: int)
    ensures -0x8000 <= ToShort(n) < 0x8000 && (n - ToShort(n)) % 0x1_0000 == 0
    ensures -0x8000_0000 <= ToInt(n) < 0x8000_0000 && (n - ToInt(n)) % 0x1_0000_0000 == 0
    ensures if 0 <= n then 0 <= n - 8 * BytesPerPixel(n) < 8 else -8 < n - 8 * BytesPerPixel(n) <= 0
  {
  }

  /** The number of bytes asked of malloc, computed in 32-bit integers. */
  function AllocationSize(width: nat, height: nat, bits: int): int {
    ToInt(ToInt(width * height) * BytesPerPixel(bits))
  }

  /** For every depth the size is width * height * bytes modulo 2^32, as a signed number. */
  lemma AllocationWraps(width: nat, height: nat, bits: int)
    ensures var exact, size := width * height * BytesPerPixel(bits), AllocationSize(width, height, bits);
            -0x8000_0000 <= size < 0x8000_0000 && (exact - size) % 0x1_0000_0000 == 0
  {
    var n, b := width * height, BytesPerPixel(bits);
    Narrowing(n);
    Narrowing(ToInt(n) * b);
    TwiceNarrowed(n, ToInt(n), b, ToInt(ToInt(n) * b));
  }

  lemma TwiceNarrowed(n: int, m: int, b: int, s: int)
    requires (n - m) % 0x1_0000_0000 == 0 && (m * b - s) % 0x1_0000_0000 == 0
    ensures (n * b - s) % 0x1_0000_0000 == 0
  {
    var q, r := (n - m) / 0x1_0000_0000, (m * b - s) / 0x1_0000_0000;
    Distribute(n, m, b, q);
    Multiple(q * b + r, n * b - s);
  }

  lemma Distribute(n: int, m: int, b: int, q: int)
    requires n - m == q * 0x1_0000_0000
    ensures n * b - m * b == (q * b) * 0x1_0000_0000
  {
    assert n * b - m * b == (n - m) * b;
  }

  lemma Multiple(k: int, x: int)
    requires x == k * 0x1_0000_0000
    ensures x % 0x1_0000_0000 == 0
  {
  }

  /** Which conversion a pair of source and output depth selects. */
  function KernelFor(bytesPerPixel: nat, bits: int): Option<Kernel> {
    match (bytesPerPixel, bits)
    case (4, 16) => Some(From32To16)
    case (3, 16) => Some(From24To16)
    case (4, 24) => Some(From32To24)
    case (3, 24) => Some(From24To24)
    case (4, 32) => Some(From32To32)
    case (3, 32) => Some(From24To32)
    case _ => None
  }

  /** The packed geometry of a bitmap whose dimensions have passed through `short`. */
  function BitmapGeometry(width: nat, height: nat): Geometry {
    Geometry(ToShort(width), ToShort(height), ToShort(width), ToShort(width))
  }

  /** The bitmap data, given what the allocated memory happened to hold. */
  ghost function Loaded(width: nat, height: nat, bytesPerPixel: nat, pixels: seq<byte>, bits: int, initial: seq<byte>): seq<byte> {
    match KernelFor(bytesPerPixel, bits)
    case Some(k) => Converted(k, pixels, initial, BitmapGeometry(width, height))
    case None => initial
  }

  lemma Product(a: int, b: int, c: int, d: int)
    requires 0 <= a <= c && 0 <= b <= d
    ensures 0 <= a * b <= c * d
  {
    Scaled(a, c, b);
    Scaled(b, d, c);
  }

  /** For a supported pair the 32-bit size computation is exact. */
  lemma AllocationExact(width: nat, height: nat, bytesPerPixel: nat, bits: int)
    requires width * height * bytesPerPixel <= ADDRESS_SPACE
    requires KernelFor(bytesPerPixel, bits).Some?
    ensures AllocationSize(width, height, bits) == width * height * KernelFor(bytesPerPixel, bits).value.DestUnit()
  {
    var n := width * height;
    assert 0 <= n;
    assert 3 * n <= n * bytesPerPixel;
  }

  /** Every access of the selected conversion stays inside image and bitmap, whatever the
      dimensions become as `short`. */
  lemma LoadInBounds(width: nat, height: nat, k: Kernel, srcLength: nat, destLength: nat)
    requires width * height * k.SrcUnit() <= srcLength
    requires width * height * k.DestUnit() <= destLength
    ensures BitmapGeometry(width, height).InBounds(k, srcLength, destLength)
  {
    var g := BitmapGeometry(width, height);
    if !g.Empty() {
      PackedEnd(k.SrcUnit(), g.width, g.height);
      PackedEnd(k.DestUnit(), g.width, g.height);
      assert g.width <= width && g.height <= height;
      Product(g.height, g.width, height, width);
      Scaled(g.height * g.width, height * width, k.SrcUnit());
      Scaled(g.height * g.width, height * width, k.DestUnit());
    }
  }

  /** Returns 0, or -1 when the allocation fails; a negative size never succeeds. `initial` is
      what the allocated memory held. */
  method LoadGimpBmp(image: GimpImage, bmp: Bitmap, bits: int, outOfMemory: bool) returns (ret: int, ghost initial: seq<byte>)
    requires image.Valid()
    modifies bmp
    ensures bmp.biWidth == ToShort(image.width) && bmp.biHeight == ToShort(image.height) && bmp.biBitCount == ToShort(bits)
    ensures ret == if outOfMemory || AllocationSize(image.width, image.height, bits) < 0 then -1 else 0
    ensures ret == -1 ==> bmp.data == null
    ensures ret == 0 ==>
              && bmp.data != null && fresh(bmp.data)
              && |initial| == bmp.data.Length == AllocationSize(image.width, image.height, bits)
              && bmp.data[..] == Loaded(image.width, image.height, image.bytesPerPixel, image.pixelData[..], bits, initial)
  {
    ret := 0;
    initial := [];
    bmp.biWidth := ToShort(image.width);
    bmp.biHeight := ToShort(image.height);
    bmp.biBitCount := ToShort(bits);
    var size := AllocationSize(image.width, image.height, bits);
    if outOfMemory || size < 0 {
      bmp.data := null;
      ret := -1;
    } else {
      var data := new byte[size];
      bmp.data := data;
      initial := data[..];
      var g := Geometry(bmp.biWidth, bmp.biHeight, bmp.biWidth, bmp.biWidth);
      if KernelFor(image.bytesPerPixel, bits).Some? {
        AllocationExact(image.width, image.height, image.bytesPerPixel, bits);
        LoadInBounds(image.width, image.height, KernelFor(image.bytesPerPixel, bits).value, image.pixelData.Length, size);
      }
      if bits == 16 {
        if image.bytesPerPixel == 4 {
          CopyPixMap32To16(image.pixelData, g, data);
        }
        if image.bytesPerPixel == 3 {
          CopyPixMap24To16(image.pixelData, g, data);
        }
      }
      if bits == 24 {
        if image.bytesPerPixel == 4 {
          CopyPixMap32To24(image.pixelData, g, data);
        }
        if image.bytesPerPixel == 3 {
          CopyPixMap24To24(image.pixelData, g, data);
        }
      }
      if bits == 32 {
        if image.bytesPerPixel == 4 {
          CopyPixMap32To32(image.pixelData, g, data);
        }
        if image.bytesPerPixel == 3 {
          CopyPixMap24To32(image.pixelData, g, data);
        }
      }
    }
  }

  /** The `size` bytes of bitmap data are a function of the image alone. */
  ghost predicate FixedByImage(width: nat, height: nat, bytesPerPixel: nat, pixels: seq<byte>, bits: int, size: int) {
    forall a, b :: |a| == |b| == size ==>
      Loaded(width, height, bytesPerPixel, pixels, bits, a) == Loaded(width, height, bytesPerPixel, pixels, bits, b)
  }

  /** Both dimensions survive the conversion to `short`. */
  predicate ShortDimensions(width: nat, height: nat) {
    width < 0x8000 && height < 0x8000
  }

  /** Pixel `n` of bitmap data of a given depth, each byte in terms of the image dump: at 16 bits
      the channels are packed 5:6:5 with the first on top, at 24 bits they are copied, at 32 bits
      an RGBA pixel is copied and an RGB pixel is stored blue first with 0xff behind it. */
  predicate PixelLoaded(bytesPerPixel: nat, pixels: seq<byte>, bits: int, data: seq<byte>, n: int) {
    && 0 <= n && (bytesPerPixel == 3 || bytesPerPixel == 4) && bytesPerPixel * n + bytesPerPixel <= |pixels|
    && var r, g, b := pixels[bytesPerPixel * n], pixels[bytesPerPixel * n + 1], pixels[bytesPerPixel * n + 2];
       match bits
       case 16 => 2 * n + 2 <= |data| && data[2 * n] == ((g & 0x1c) << 3) | (b >> 3) && data[2 * n + 1] == (r & 0xf8) | (g >> 5)
       case 24 => 3 * n + 3 <= |data| && data[3 * n] == r && data[3 * n + 1] == g && data[3 * n + 2] == b
       case 32 => 4 * n + 4 <= |data| && (if bytesPerPixel == 3 then data[4 * n] == b && data[4 * n + 1] == g && data[4 * n + 2] == r && data[4 * n + 3] == 0xff
                                          else data[4 * n] == r && data[4 * n + 1] == g && data[4 * n + 2] == b && data[4 * n + 3] == pixels[4 * n + 3])
       case _ => false
  }

  /** For each of the six supported pairs, what every pixel of a loaded bitmap holds. */
  lemma LoadedPixels(width: nat, height: nat, bytesPerPixel: nat, pixels: seq<byte>, bits: int, initial: seq<byte>, px: int, py: int)
    requires (bytesPerPixel == 3 || bytesPerPixel == 4) && (bits == 16 || bits == 24 || bits == 32)
    requires ShortDimensions(width, height) && 0 <= px < width && 0 <= py < height
    requires width * height * bytesPerPixel <= |pixels| && |initial| == bits / 8 * (height * width)
    ensures |Loaded(width, height, bytesPerPixel, pixels, bits, initial)| == |initial|
    ensures PixelLoaded(bytesPerPixel, pixels, bits, Loaded(width, height, bytesPerPixel, pixels, bits, initial), py * width + px)
  {
    var k := KernelFor(bytesPerPixel, bits).value;
    SizeReordered(width, height, k);
    LoadInBounds(width, height, k, |pixels|, |initial|);
    ConvertedPixelLoaded(bytesPerPixel, pixels, bits, initial, k, Geometry(width, height, width, width), px, py);
  }

  lemma ConvertedPixelLoaded(bytesPerPixel: nat, pixels: seq<byte>, bits: int, initial: seq<byte>, k: Kernel, g: Geometry, px: int, py: int)
    requires KernelFor(bytesPerPixel, bits) == Some(k) && g.srcLine == g.destLine
    requires g.InBounds(k, |pixels|, |initial|) && 0 <= px < g.width && 0 <= py < g.height
    ensures |Converted(k, pixels, initial, g)| == |initial|
    ensures PixelLoaded(bytesPerPixel, pixels, bits, Converted(k, pixels, initial, g), py * g.srcLine + px)
  {
    ConvertedBytes(k, pixels, initial, g, py, px);
  }

  /** All allocated bytes are written, and with values the image fixes, exactly when nothing is
      allocated or a conversion exists and both dimensions fit a `short`. */
  lemma LoadFixedByImageIff(width: nat, height: nat, bytesPerPixel: nat, pixels: seq<byte>, bits: int)
    requires width * height * bytesPerPixel <= |pixels| <= ADDRESS_SPACE
    requires 0 <= AllocationSize(width, height, bits)
    ensures FixedByImage(width, height, bytesPerPixel, pixels, bits, AllocationSize(width, height, bits)) <==>
            AllocationSize(width, height, bits) == 0
            || (KernelFor(bytesPerPixel, bits).Some? && ShortDimensions(width, height))
  {
    var size := AllocationSize(width, height, bits);
    if size == 0 {
    } else if KernelFor(bytesPerPixel, bits).None? {
      var a, b := Blank(size, 0), Blank(size, 1);
      assert Loaded(width, height, bytesPerPixel, pixels, bits, a)[0] != Loaded(width, height, bytesPerPixel, pixels, bits, b)[0];
    } else {
      var k := KernelFor(bytesPerPixel, bits).value;
      SupportedLoad(width, height, bytesPerPixel, bits, |pixels|, k);
      SupportedFixedIff(width, height, bytesPerPixel, pixels, bits, k, size);
    }
  }

  lemma SupportedFixedIff(width: nat, height: nat, bytesPerPixel: nat, pixels: seq<byte>, bits: int, k: Kernel, size: int)
    requires KernelFor(bytesPerPixel, bits) == Some(k) && 0 < width && 0 < height && 0 < size == k.DestUnit() * (height * width)
    requires BitmapGeometry(width, height).InBounds(k, |pixels|, size)
    ensures FixedByImage(width, height, bytesPerPixel, pixels, bits, size) <==> ShortDimensions(width, height)
  {
    var g := BitmapGeometry(width, height);
    if ShortDimensions(width, height) {
      assert g == Geometry(width, height, width, width);
      FixedWhenShort(width, height, bytesPerPixel, pixels, bits, k, g, size);
    } else {
      LastByteNotActive(width, height, k);
      NotFixedWhenLong(width, height, bytesPerPixel, pixels, bits, k, g, size);
    }
  }

  /** The conversion of a supported pair stays in its bitmap of width * height pixels. */
  lemma SupportedLoad(width: nat, height: nat, bytesPerPixel: nat, bits: int, srcLength: nat, k: Kernel)
    requires width * height * bytesPerPixel <= srcLength <= ADDRESS_SPACE
    requires KernelFor(bytesPerPixel, bits) == Some(k)
    ensures BitmapGeometry(width, height).InBounds(k, srcLength, AllocationSize(width, height, bits))
    ensures AllocationSize(width, height, bits) == k.DestUnit() * (height * width)
    ensures 0 < k.DestUnit() * (height * width) ==> 0 < width && 0 < height
  {
    AllocationExact(width, height, bytesPerPixel, bits);
    SizeReordered(width, height, k);
    LoadInBounds(width, height, k, srcLength, width * height * k.DestUnit());
  }

  lemma SizeReordered(width: nat, height: nat, k: Kernel)
    ensures 0 <= width * height * k.DestUnit() == k.DestUnit() * (height * width)
    ensures 0 < k.DestUnit() * (height * width) ==> 0 < width && 0 < height
  {
  }

  function Blank(n: nat, b: byte): (m: seq<byte>)
    ensures |m| == n && forall i :: 0 <= i < n ==> m[i] == b
  {
    seq(n, _ => b)
  }

  lemma FixedWhenShort(width: nat, height: nat, bytesPerPixel: nat, pixels: seq<byte>, bits: int, k: Kernel, g: Geometry, size: int)
    requires KernelFor(bytesPerPixel, bits) == Some(k) && g == BitmapGeometry(width, height)
    requires 0 <= g.width && 0 <= g.height && size == k.DestUnit() * (g.height * g.width)
    requires g.InBounds(k, |pixels|, size)
    ensures FixedByImage(width, height, bytesPerPixel, pixels, bits, size)
  {
    forall a: seq<byte>, b: seq<byte> | |a| == |b| == size
      ensures Converted(k, pixels, a, g) == Converted(k, pixels, b, g)
    {
      FullyWritten(k, pixels, a, b, g);
    }
  }

  lemma NotFixedWhenLong(width: nat, height: nat, bytesPerPixel: nat, pixels: seq<byte>, bits: int, k: Kernel, g: Geometry, size: int)
    requires KernelFor(bytesPerPixel, bits) == Some(k) && g == BitmapGeometry(width, height)
    requires 0 < size && !Active(k, g, size - 1)
    ensures !FixedByImage(width, height, bytesPerPixel, pixels, bits, size)
  {
    var a, b := Blank(size, 0), Blank(size, 1);
    PaddingKept(k, pixels, a, g);
    PaddingKept(k, pixels, b, g);
    assert Loaded(width, height, bytesPerPixel, pixels, bits, a)[size - 1] != Loaded(width, height, bytesPerPixel, pixels, bits, b)[size - 1];
  }

  /** A packed conversion overwrites the whole destination. */
  lemma FullyWritten(k: Kernel, pixels: seq<byte>, a: seq<byte>, b: seq<byte>, g: Geometry)
    requires 0 <= g.width == g.srcLine == g.destLine && 0 <= g.height
    requires |a| == |b| == k.DestUnit() * (g.height * g.width)
    requires g.InBounds(k, |pixels|, |a|)
    ensures Converted(k, pixels, a, g) == Converted(k, pixels, b, g)
  {
    PaddingKept(k, pixels, a, g);
    PaddingKept(k, pixels, b, g);
    if !g.Empty() {
      forall row, col | 0 <= row < g.height && 0 <= col < g.width
        ensures var d := g.DestGrid(k);
                && 0 <= d.At(row, col) && d.At(row, col) + d.unit <= |a|
                && Pixel(Converted(k, pixels, a, g), d, row, col) == Pixel(Converted(k, pixels, b, g), d, row, col)
      {
        PixelConverted(k, pixels, a, g, row, col);
        PixelConverted(k, pixels, b, g, row, col);
      }
      forall i | 0 <= i < |a|
        ensures Active(k, g, i)
      {
        PackedActive(g.DestGrid(k), i);
      }
      SameBuffer(k, g, Converted(k, pixels, a, g), Converted(k, pixels, b, g));
    }
  }

  lemma SmallerProduct(a: int, b: int, c: int, d: int)
    requires 0 <= a <= c && 0 <= b <= d && 0 < c && 0 < d
    requires a < c || b < d
    ensures a * b < c * d
  {
    Product(a, b, c, d);
    if a < c {
      Scaled(a + 1, c, d);
      Scaled(b, d, a);
    } else {
      Scaled(b + 1, d, c);
    }
  }

  /** When a dimension overflows its `short`, the last allocated byte is in no converted pixel. */
  lemma LastByteNotActive(width: nat, height: nat, k: Kernel)
    requires 0 < width && 0 < height && !ShortDimensions(width, height)
    ensures !Active(k, BitmapGeometry(width, height), k.DestUnit() * (height * width) - 1)
  {
    var g := BitmapGeometry(width, height);
    if !g.Empty() {
      SmallerProduct(g.height, g.width, height, width);
      Scaled(g.height * g.width + 1, height * width, k.DestUnit());
    }
    LastByteKept(k, g, k.DestUnit() * (height * width));
  }

  /** A destination longer than the active area keeps its last byte. */
  lemma LastByteKept(k: Kernel, g: Geometry, size: int)
    requires g.width == g.destLine
    requires g.Empty() || k.DestUnit() * (g.height * g.width) < size
    ensures !Active(k, g, size - 1)
  {
    var d := g.DestGrid(k);
    NothingActive(k, g.(width := 0));
    if Active(k, g, size - 1) && !g.Empty() {
      Encode(d, size - 1);
      CellInBounds(d, d.Row(size - 1), d.Col(size - 1), g.height - 1, g.width);
      PackedEnd(k.DestUnit(), g.width, g.height);
    }
  }
}
