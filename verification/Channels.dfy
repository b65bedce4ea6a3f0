/** Colour channels: splitting a colour, merging channels, and alpha blending. */
module Channels {
  import opened Bytes
  import opened PixelFormats

  datatype Rgb = Rgb(red: byte, green: byte, blue: byte)

  predicate Supported(depth: int) {
    depth == 16 || depth == 24 || depth == 32
  }

  /** Largest red or blue value, and largest green value, of a colour depth. */
  function RedLimit(depth: int): byte {
    if depth == 16 then 0x1f else 0xff
  }

  function GreenLimit(depth: int): byte {
    if depth == 16 then 0x3f else 0xff
  }

  predicate InRange(depth: int, c: Rgb) {
    c.red <= RedLimit(depth) && c.green <= GreenLimit(depth) && c.blue <= RedLimit(depth)
  }

  // ---- Split and merge

  function HalfWord(low: byte, high: byte): bv16 {
    (low as bv16) + ((high as bv16) << 8)
  }

  function SplitHalf(half: bv16): Rgb {
    Rgb(((half >> 11) & 0x1f) as byte, ((half >> 5) & 0x3f) as byte, (half & 0x1f) as byte)
  }

  function MergeHalf(c: Rgb): bv16 {
    ((c.blue & 0x1f) as bv16) | (((c.green & 0x3f) as bv16) << 5) | (((c.red & 0x1f) as bv16) << 11)
  }

  /** The channels of a colour, read from its bytes. */
  function Split(depth: int, color: bv32): Rgb {
    if depth == 16 then SplitHalf(HalfWord(ByteOf(color, 0), ByteOf(color, 1)))
    else if Supported(depth) then Rgb(ByteOf(color, 2), ByteOf(color, 1), ByteOf(color, 0))
    else Rgb(0, 0, 0)
  }

  /** The colour variable after its low bytes have been overwritten; the others are stale. */
  function Merge(depth: int, c: Rgb, stale: bv32): bv32 {
    if depth == 16 then
      Word32((MergeHalf(c) & 0xff) as byte, (MergeHalf(c) >> 8) as byte, ByteOf(stale, 2), ByteOf(stale, 3))
    else if Supported(depth) then
      Word32(c.blue, c.green, c.red, ByteOf(stale, 3))
    else
      Word32(0, 0, 0, ByteOf(stale, 3))
  }

  /** Where the channels sit in a colour: 5:6:5 bits from bit 0 at depth 16, a byte each at the
      others. */
  lemma SplitFields(color: bv32)
    ensures var c := Split(16, color);
            c.red as bv32 == (color >> 11) & 0x1f && c.green as bv32 == (color >> 5) & 0x3f && c.blue as bv32 == color & 0x1f
    ensures forall depth :: depth == 24 || depth == 32 ==>
              var c := Split(depth, color);
              c.red as bv32 == (color >> 16) & 0xff && c.green as bv32 == (color >> 8) & 0xff && c.blue as bv32 == color & 0xff
  {
    LowHalfWord(color);
    HalfFields((color & 0xffff) as bv16);
  }

  lemma LowHalfWord(color: bv32)
    ensures HalfWord(ByteOf(color, 0), ByteOf(color, 1)) == (color & 0xffff) as bv16
  {
  }

  lemma HalfFields(half: bv16)
    ensures var c := SplitHalf(half);
            c.red as bv32 == ((half as bv32) >> 11) & 0x1f && c.green as bv32 == ((half as bv32) >> 5) & 0x3f && c.blue as bv32 == (half as bv32) & 0x1f
  {
  }

  method SeperateColorChannels(depth: int, color: bv32) returns (ok: int, red: byte, green: byte, blue: byte)
    ensures Rgb(red, green, blue) == Split(depth, color)
    ensures ok == if Supported(depth) then 1 else 0
  {
    if depth == 16 {
      var temp: bv16 := ByteOf(color, 0) as bv16;
      temp := temp + ((ByteOf(color, 1) as bv16) << 8);
      blue := (temp & 0x1f) as byte;
      green := ((temp >> 5) & 0x3f) as byte;
      red := ((temp >> 11) & 0x1f) as byte;
      ok := 1;
    } else if depth == 24 || depth == 32 {
      blue, green, red := ByteOf(color, 0), ByteOf(color, 1), ByteOf(color, 2);
      ok := 1;
    } else {
      red, green, blue := 0, 0, 0;
      ok := 0;
    }
  }

  method MergeColorChannels(depth: int, red: byte, green: byte, blue: byte, color: bv32) returns (ok: int, merged: bv32)
    ensures merged == Merge(depth, Rgb(red, green, blue), color)
    ensures ok == if Supported(depth) then 1 else 0
  {
    if depth == 16 {
      var temp: bv16 := ((blue & 0x1f) as bv16) | (((green & 0x3f) as bv16) << 5) | (((red & 0x1f) as bv16) << 11);
      merged := Word32((temp & 0xff) as byte, (temp >> 8) as byte, ByteOf(color, 2), ByteOf(color, 3));
      ok := 1;
    } else if depth == 24 || depth == 32 {
      merged := Word32(blue, green, red, ByteOf(color, 3));
      ok := 1;
    } else {
      merged := Word32(0, 0, 0, ByteOf(color, 3));
      ok := 0;
    }
  }

  lemma HalfRoundTrip(half: bv16)
    ensures MergeHalf(SplitHalf(half)) == half
  {
  }

  lemma HalfBytes(half: bv16)
    ensures HalfWord((half & 0xff) as byte, (half >> 8) as byte) == half
  {
  }

  lemma HalfWordBytes(low: byte, high: byte)
    ensures (HalfWord(low, high) & 0xff) as byte == low && (HalfWord(low, high) >> 8) as byte == high
  {
  }

  lemma HalfRoundTripBack(c: Rgb)
    ensures SplitHalf(MergeHalf(c)) == LowBits(c)
  {
  }

  /** The bits of the channels that fit 5:6:5. */
  function LowBits(c: Rgb): Rgb {
    Rgb(c.red & 0x1f, c.green & 0x3f, c.blue & 0x1f)
  }

  lemma LowBitsSuffice(c: Rgb)
    requires InRange(16, c)
    ensures LowBits(c) == c
  {
  }

  lemma MergeAfterSplit16(color: bv32, stale: bv32)
    ensures Merge(16, Split(16, color), stale) == Word32(ByteOf(color, 0), ByteOf(color, 1), ByteOf(stale, 2), ByteOf(stale, 3))
  {
    var half := HalfWord(ByteOf(color, 0), ByteOf(color, 1));
    HalfRoundTrip(half);
    HalfWordBytes(ByteOf(color, 0), ByteOf(color, 1));
  }

  /** Merging what was split restores every byte of the colour that the depth uses, and leaves
      the others as they were. */
  lemma MergeAfterSplit(depth: int, color: bv32, stale: bv32)
    requires Supported(depth)
    ensures var merged := Merge(depth, Split(depth, color), stale);
            && ByteOf(merged, 0) == ByteOf(color, 0) && ByteOf(merged, 1) == ByteOf(color, 1)
            && ByteOf(merged, 2) == ByteOf(if depth == 16 then stale else color, 2)
            && ByteOf(merged, 3) == ByteOf(stale, 3)
  {
    if depth == 16 {
      MergeAfterSplit16(color, stale);
      WordBytes(ByteOf(color, 0), ByteOf(color, 1), ByteOf(stale, 2), ByteOf(stale, 3));
    } else {
      WordBytes(ByteOf(color, 0), ByteOf(color, 1), ByteOf(color, 2), ByteOf(stale, 3));
    }
  }

  /** Splitting what was merged restores the channels, whatever the stale bytes. */
  lemma SplitAfterMerge(depth: int, c: Rgb, stale: bv32)
    requires Supported(depth) && InRange(depth, c)
    ensures Split(depth, Merge(depth, c, stale)) == c
  {
    if depth == 16 {
      SplitAfterMerge16(c, stale);
      LowBitsSuffice(c);
    } else {
      WordBytes(c.blue, c.green, c.red, ByteOf(stale, 3));
    }
  }

  /** Of channels out of range depth 16 keeps the low bits. */
  lemma SplitAfterMerge16(c: Rgb, stale: bv32)
    ensures Split(16, Merge(16, c, stale)) == LowBits(c)
  {
    WordBytes((MergeHalf(c) & 0xff) as byte, (MergeHalf(c) >> 8) as byte, ByteOf(stale, 2), ByteOf(stale, 3));
    HalfBytes(MergeHalf(c));
    HalfRoundTripBack(c);
  }

  lemma SplitInRange(depth: int, color: bv32)
    ensures InRange(depth, Split(depth, color))
  {
    if depth == 16 {
      SplitHalfInRange(HalfWord(ByteOf(color, 0), ByteOf(color, 1)));
    } else {
      var c := Split(depth, color);
      assert c.red <= 0xff && c.green <= 0xff && c.blue <= 0xff;
    }
  }

  lemma SplitHalfInRange(half: bv16)
    ensures var c := SplitHalf(half); c.red <= 0x1f && c.green <= 0x3f && c.blue <= 0x1f
  {
  }

  /** Splitting a pixel of the 24-to-16 conversion gives the leading bits of its channels. */
  lemma SplitConverted(r: byte, g: byte, b: byte)
    ensures var p := Convert(From24To16, [r, g, b]);
            Split(16, Word32(p[0], p[1], 0, 0)) == Rgb(r >> 3, g >> 2, b >> 3)
  {
    var half := Pack565(r, g, b);
    WordBytes((half & 0xff) as byte, (half >> 8) as byte, 0, 0);
    HalfBytes(half);
    PackedChannels(r, g, b);
  }

  lemma PackedChannels(r: byte, g: byte, b: byte)
    ensures SplitHalf(Pack565(r, g, b)) == Rgb(r >> 3, g >> 2, b >> 3)
  {
  }

  // ---- Blending

  /** 255 times the exact blend: from 255 parts of the background, each step of alpha trades one
      part for one of the foreground. */
  function Weighted(fore: int, back: int, alpha: nat): int {
    if alpha == 0 then 255 * back else Weighted(fore, back, alpha - 1) + fore - back
  }

  /** The blended value of one channel, before clipping. */
  function MixValue(fore: int, back: int, alpha: nat): int {
    Weighted(fore, back, alpha) / 255
  }

  /** The weighted sum that the code computes. */
  lemma {:induction false} WeightedSum(fore: int, back: int, alpha: nat)
    ensures Weighted(fore, back, alpha) == fore * alpha + back * (255 - alpha)
  {
    if alpha != 0 {
      WeightedSum(fore, back, alpha - 1);
    }
  }

  lemma Floor(n: int, lo: int, hi: int)
    requires 255 * lo <= n <= 255 * hi
    ensures lo <= n / 255 <= hi
  {
  }

  lemma ConvexBounds(fore: int, back: int, alpha: int)
    requires 0 <= alpha <= 255 && fore <= back
    ensures 255 * fore <= fore * alpha + back * (255 - alpha) <= 255 * back
    ensures 255 * fore <= back * alpha + fore * (255 - alpha) <= 255 * back
  {
    Between(fore, back, alpha);
    Between(fore, back, 255 - alpha);
  }

  lemma Between(fore: int, back: int, alpha: int)
    requires 0 <= alpha <= 255 && fore <= back
    ensures 255 * fore <= fore * alpha + back * (255 - alpha) <= 255 * back
  {
    var d, a, b := back - fore, fore * alpha, fore * (255 - alpha);
    assert a + b == 255 * fore;
    assert back * (255 - alpha) == b + d * (255 - alpha);
    assert 0 <= d * (255 - alpha) <= d * 255;
  }

  /** A blend is a rounded-down convex mix: between its channels, less than one below the exact
      value, and the channel itself at the ends and when both agree. */
  lemma MixIsConvex(fore: int, back: int, alpha: nat)
    requires alpha <= 255
    ensures fore <= back ==> fore <= MixValue(fore, back, alpha) <= back
    ensures back <= fore ==> back <= MixValue(fore, back, alpha) <= fore
    ensures 255 * MixValue(fore, back, alpha) <= fore * alpha + back * (255 - alpha) < 255 * (MixValue(fore, back, alpha) + 1)
    ensures MixValue(fore, back, 0) == back && MixValue(fore, back, 255) == fore && MixValue(fore, fore, alpha) == fore
  {
    WeightedSum(fore, back, alpha);
    WeightedSum(fore, back, 255);
    WeightedSum(fore, fore, alpha);
    ConvexBounds(fore, fore, alpha);
    if fore <= back {
      ConvexBounds(fore, back, alpha);
      Floor(Weighted(fore, back, alpha), fore, back);
    } else {
      ConvexBounds(back, fore, alpha);
      Floor(Weighted(fore, back, alpha), back, fore);
    }
  }

  lemma MixWithinLimit(fore: int, back: int, alpha: nat, limit: int)
    requires alpha <= 255 && 0 <= fore <= limit && 0 <= back <= limit
    ensures 0 <= MixValue(fore, back, alpha) <= limit
  {
    MixIsConvex(fore, back, alpha);
  }

  /** More alpha moves the blend towards the foreground. */
  lemma {:induction false} MixMonotone(fore: int, back: int, alpha: nat, alpha': nat)
    requires alpha <= alpha' <= 255
    ensures back <= fore ==> MixValue(fore, back, alpha) <= MixValue(fore, back, alpha')
    ensures fore <= back ==> MixValue(fore, back, alpha') <= MixValue(fore, back, alpha)
    decreases alpha' - alpha
  {
    if alpha < alpha' {
      MixMonotone(fore, back, alpha, alpha' - 1);
    }
  }

  /** One channel blended and clipped to its limit. */
  function BlendChannel(fore: byte, back: byte, alpha: byte, limit: byte): byte {
    var value := MixValue(fore as int, back as int, alpha as int);
    MixWithinLimit(fore as int, back as int, alpha as int, 255);
    if value > limit as int then limit else ToByte(value)
  }

  /** The three channels after blending; an unsupported depth leaves the foreground. */
  function Blend(depth: int, fore: Rgb, back: Rgb, alpha: byte): Rgb {
    if Supported(depth) then
      Rgb(BlendChannel(fore.red, back.red, alpha, RedLimit(depth)),
          BlendChannel(fore.green, back.green, alpha, GreenLimit(depth)),
          BlendChannel(fore.blue, back.blue, alpha, RedLimit(depth)))
    else
      fore
  }

  lemma ByteOrder(a: byte, b: byte)
    ensures a <= b <==> a as int <= b as int
    ensures a == b <==> a as int == b as int
  {
  }

  /** For channels within the limit the clip never applies, and the result is within it. */
  lemma ClipNeverFires(fore: byte, back: byte, alpha: byte, limit: byte)
    requires fore <= limit && back <= limit
    ensures BlendChannel(fore, back, alpha, limit) as int == MixValue(fore as int, back as int, alpha as int)
    ensures BlendChannel(fore, back, alpha, limit) <= limit
  {
    ByteOrder(fore, limit);
    ByteOrder(back, limit);
    MixWithinLimit(fore as int, back as int, alpha as int, limit as int);
    ByteOrder(BlendChannel(fore, back, alpha, limit), limit);
  }

  lemma BlendChannelSame(c: byte, alpha: byte, limit: byte)
    requires c <= limit
    ensures BlendChannel(c, c, alpha, limit) == c
  {
    ClipNeverFires(c, c, alpha, limit);
    MixIsConvex(c as int, c as int, alpha as int);
    ByteOrder(BlendChannel(c, c, alpha, limit), c);
  }

  /** Blending keeps channels in the range of the depth, and a colour blended with itself, at
      any alpha, is that colour. */
  lemma BlendInRange(depth: int, fore: Rgb, back: Rgb, alpha: byte)
    requires Supported(depth) && InRange(depth, fore) && InRange(depth, back)
    ensures InRange(depth, Blend(depth, fore, back, alpha))
    ensures Blend(depth, fore, fore, alpha) == fore
  {
    ClipNeverFires(fore.red, back.red, alpha, RedLimit(depth));
    ClipNeverFires(fore.green, back.green, alpha, GreenLimit(depth));
    ClipNeverFires(fore.blue, back.blue, alpha, RedLimit(depth));
    BlendChannelSame(fore.red, alpha, RedLimit(depth));
    BlendChannelSame(fore.green, alpha, GreenLimit(depth));
    BlendChannelSame(fore.blue, alpha, RedLimit(depth));
  }

  /** `result` is the exact mix rounded down, or the limit if that is exceeded. */
  predicate Blended(result: byte, fore: byte, back: byte, alpha: byte, limit: int) {
    var exact := Weighted(fore as int, back as int, alpha as int);
    if exact < 255 * (limit + 1) then 255 * result as int <= exact < 255 * (result as int + 1) else result as int == limit
  }

  lemma BlendChannelExact(fore: byte, back: byte, alpha: byte, limit: byte)
    ensures Blended(BlendChannel(fore, back, alpha, limit), fore, back, alpha, limit as int)
  {
    var value := MixValue(fore as int, back as int, alpha as int);
    MixIsConvex(fore as int, back as int, alpha as int);
    MixWithinLimit(fore as int, back as int, alpha as int, 255);
    ClippedMix(Weighted(fore as int, back as int, alpha as int), value, limit as int);
  }

  /** A rounded-down mix exceeds the limit exactly when the exact one does. */
  lemma ClippedMix(exact: int, value: int, limit: int)
    requires 255 * value <= exact < 255 * (value + 1)
    ensures value > limit <==> exact >= 255 * (limit + 1)
  {
  }

  /** Each channel blended; the limit is 31 for red and blue and 63 for green at depth 16, and 255
      at the others. */
  predicate BlendedPixel(depth: int, result: Rgb, fore: Rgb, back: Rgb, alpha: byte) {
    && Blended(result.red, fore.red, back.red, alpha, if depth == 16 then 31 else 255)
    && Blended(result.green, fore.green, back.green, alpha, if depth == 16 then 63 else 255)
    && Blended(result.blue, fore.blue, back.blue, alpha, if depth == 16 then 31 else 255)
  }

  /** Blending any channels, in range or not. */
  lemma BlendIsBlended(depth: int, fore: Rgb, back: Rgb, alpha: byte)
    requires Supported(depth)
    ensures BlendedPixel(depth, Blend(depth, fore, back, alpha), fore, back, alpha)
  {
    Limits(depth);
    BlendChannelExact(fore.red, back.red, alpha, RedLimit(depth));
    BlendChannelExact(fore.green, back.green, alpha, GreenLimit(depth));
    BlendChannelExact(fore.blue, back.blue, alpha, RedLimit(depth));
  }

  lemma Limits(depth: int)
    ensures RedLimit(depth) as int == if depth == 16 then 31 else 255
    ensures GreenLimit(depth) as int == if depth == 16 then 63 else 255
  {
  }

  /** Each channel is the exact mix rounded down; alpha 255 gives the foreground and 0 the
      background. */
  predicate Mixed(result: Rgb, fore: Rgb, back: Rgb, alpha: byte) {
    && 255 * result.red as int <= Weighted(fore.red as int, back.red as int, alpha as int) < 255 * (result.red as int + 1)
    && 255 * result.green as int <= Weighted(fore.green as int, back.green as int, alpha as int) < 255 * (result.green as int + 1)
    && 255 * result.blue as int <= Weighted(fore.blue as int, back.blue as int, alpha as int) < 255 * (result.blue as int + 1)
    && (alpha == 255 ==> result == fore) && (alpha == 0 ==> result == back)
  }

  /** `result` is the mix of `alpha` parts foreground and 255 - `alpha` parts background, rounded
      down. */
  predicate InNumbers(result: int, fore: int, back: int, alpha: int) {
    255 * result <= fore * alpha + back * (255 - alpha) < 255 * (result + 1)
  }

  /** The same written out. */
  lemma MixedInNumbers(result: Rgb, fore: Rgb, back: Rgb, alpha: byte)
    requires Mixed(result, fore, back, alpha)
    ensures InNumbers(result.red as int, fore.red as int, back.red as int, alpha as int)
    ensures InNumbers(result.green as int, fore.green as int, back.green as int, alpha as int)
    ensures InNumbers(result.blue as int, fore.blue as int, back.blue as int, alpha as int)
    ensures alpha == 255 ==> result == fore
    ensures alpha == 0 ==> result == back
  {
    ChannelInNumbers(result.red as int, fore.red as int, back.red as int, alpha as int);
    ChannelInNumbers(result.green as int, fore.green as int, back.green as int, alpha as int);
    ChannelInNumbers(result.blue as int, fore.blue as int, back.blue as int, alpha as int);
  }

  lemma ChannelInNumbers(result: int, fore: int, back: int, alpha: nat)
    requires 255 * result <= Weighted(fore, back, alpha) < 255 * (result + 1)
    ensures InNumbers(result, fore, back, alpha)
  {
    WeightedSum(fore, back, alpha);
  }

  /** For channels in range, blending is the exact mix: alpha favours the foreground. */
  lemma BlendExact(depth: int, fore: Rgb, back: Rgb, alpha: byte, result: Rgb)
    requires Supported(depth) && InRange(depth, fore) && InRange(depth, back)
    requires result == Blend(depth, fore, back, alpha)
    ensures Mixed(result, fore, back, alpha)
  {
    ChannelExact(fore.red, back.red, alpha, RedLimit(depth));
    ChannelExact(fore.green, back.green, alpha, GreenLimit(depth));
    ChannelExact(fore.blue, back.blue, alpha, RedLimit(depth));
  }

  lemma ChannelExact(fore: byte, back: byte, alpha: byte, limit: byte)
    requires fore <= limit && back <= limit
    ensures var r := BlendChannel(fore, back, alpha, limit) as int;
            255 * r <= Weighted(fore as int, back as int, alpha as int) < 255 * (r + 1)
    ensures BlendChannel(fore, back, 255, limit) == fore && BlendChannel(fore, back, 0, limit) == back
  {
    ClipNeverFires(fore, back, alpha, limit);
    MixIsConvex(fore as int, back as int, alpha as int);
    ChannelEnds(fore, back, limit);
  }

  lemma ChannelEnds(fore: byte, back: byte, limit: byte)
    requires fore <= limit && back <= limit
    ensures BlendChannel(fore, back, 255, limit) == fore && BlendChannel(fore, back, 0, limit) == back
  {
    ClipNeverFires(fore, back, 255, limit);
    ClipNeverFires(fore, back, 0, limit);
    MixIsConvex(fore as int, back as int, 255);
    ByteOrder(BlendChannel(fore, back, 255, limit), fore);
    ByteOrder(BlendChannel(fore, back, 0, limit), back);
  }
}
