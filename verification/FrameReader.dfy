/** The double-buffered frame reader of vip_fr.c. */
module FrameReader {
  import opened Bytes
  import opened Dma

  /** What a reader shows and holds: memory, the frame bases and their size in bytes, the number
      of the displayed frame and the frame-select register. */
  datatype Reader = Reader(mem: seq<byte>, base0: int, base1: int, size: int, shown: int, selected: int) {

    predicate Valid() {
      && (shown == 0 || shown == 1) && 0 <= size
      && 0 <= base0 && base0 + size <= |mem| <= ADDRESS_SPACE
      && 0 <= base1 && base1 + size <= |mem|
    }

    /** The two frames share no byte. */
    predicate Disjoint() {
      base0 + size <= base1 || base1 + size <= base0
    }

    function ShownBase(): int {
      if shown == 0 then base0 else base1
    }

    function DrawBase(): int {
      if shown == 0 then base1 else base0
    }

    /** The picture on the screen. */
    function Shown(): seq<byte>
      requires Valid()
    {
      mem[ShownBase()..ShownBase() + size]
    }

    /** The picture being prepared. */
    function Drawn(): seq<byte>
      requires Valid()
    {
      mem[DrawBase()..DrawBase() + size]
    }
  }

  /** Erase the draw frame, copy the background into it, draw any picture in it, or show it. */
  datatype Op = Erase(color: bv32) | Reserve | Draw(picture: int -> byte) | Swap

  /** What an operation other than a swap leaves in the draw frame. */
  ghost function Prepared(r: Reader, op: Op): (picture: seq<byte>)
    requires r.Valid() && !op.Swap?
    ensures |picture| == r.size
  {
    match op
    case Erase(color) => Uniform(color, r.size)
    case Reserve => r.Shown()
    case Draw(picture) => seq(r.size, picture)
  }

  ghost function DrawInto(r: Reader, picture: seq<byte>): Reader
    requires r.Valid() && |picture| == r.size
  {
    r.(mem := Splice(r.mem, r.DrawBase(), picture))
  }

  ghost function Step(r: Reader, op: Op): Reader
    requires r.Valid()
  {
    if op.Swap? then
      r.(shown := (r.shown + 1) % 2, selected := (r.shown + 1) % 2)
    else
      DrawInto(r, Prepared(r, op))
  }

  class VipFrameReader {
    const mem: array<byte>
    const frame0Base: int
    const frame1Base: int
    var displayFrame: int
    var colorDepth: int
    var width: int
    var height: int
    var bytesPerPixel: int
    var interlace: int
    var selectRegister: int

    function State(): Reader
      reads this, mem
    {
      Reader(mem[..], frame0Base, frame1Base, width * height * bytesPerPixel, displayFrame, selectRegister)
    }

    /** VIPFR_Init. */
    constructor (memory: array<byte>, frame0: int, frame1: int, frameWidth: int, frameHeight: int)
      ensures mem == memory && colorDepth == 32 && interlace == 0
      ensures width == frameWidth && height == frameHeight && bytesPerPixel == 4
      ensures State() == Reader(memory[..], frame0, frame1, frameWidth * frameHeight * 4, 0, 0)
    {
      mem := memory;
      frame0Base := frame0;
      frame1Base := frame1;
      displayFrame := 0;
      bytesPerPixel := 4;
      colorDepth := 32;
      interlace := 0;
      width := frameWidth;
      height := frameHeight;
      selectRegister := 0;
    }

    method GetDrawFrame() returns (base: int)
      ensures base == State().DrawBase()
      ensures base == if displayFrame == 0 then frame1Base else frame0Base
    {
      if displayFrame == 0 {
        return frame1Base;
      }
      return frame0Base;
    }

    method ActiveDrawFrame()
      requires State().Valid()
      modifies this`displayFrame, this`selectRegister
      ensures State() == Step(old(State()), Swap)
      ensures displayFrame == 1 - old(displayFrame) && selectRegister == displayFrame
    {
      displayFrame := (displayFrame + 1) % 2;
      selectRegister := displayFrame;
    }

    method EraseScreen(color: bv32)
      requires State().Valid()
      modifies mem
      ensures State() == Step(old(State()), Erase(color))
    {
      var base := GetDrawFrame();
      MemSet(mem, base, color, width * height * bytesPerPixel);
    }

    method ReserveBackground()
      requires State().Valid() && State().Disjoint()
      modifies mem
      ensures State() == Step(old(State()), Reserve)
    {
      var size, src, dest := width * height * bytesPerPixel, frame1Base, frame0Base;
      if displayFrame == 0 {
        src := frame0Base;
        dest := frame1Base;
      }
      CopyIsReserve(State(), dest, src, size);
      MemCpy(mem, dest, mem, src, size);
    }

    /** The same with ENABLE_DMA defined; without the DMA device nothing is copied. */
    method ReserveBackgroundByDma(dmaFound: bool)
      requires State().Valid() && State().Disjoint() && 0 < State().size
      modifies mem
      ensures State() == if dmaFound then Step(old(State()), Reserve) else old(State())
    {
      var size, src, dest := width * height * bytesPerPixel, frame1Base, frame0Base;
      if displayFrame == 0 {
        src := frame0Base;
        dest := frame1Base;
      }
      CopyIsReserve(State(), dest, src, size);
      MyMemcpy(mem, dest, src, size, dmaFound);
    }
  }

  /** One memcpy from the displayed frame to the other is the reserve step. */
  lemma CopyIsReserve(r: Reader, dest: int, src: int, n: int)
    requires r.Valid() && r.Disjoint() && dest == r.DrawBase() && src == r.ShownBase() && n == r.size
    ensures Regions(|r.mem|, dest, src, n) && Step(r, Reserve) == r.(mem := Copied(r.mem, dest, src, n))
  {
  }

  // ---- Runs

  /** No operation changes the frame layout. */
  lemma StepLayout(r: Reader, op: Op)
    requires r.Valid()
    ensures var s := Step(r, op);
            && s.Valid() && s.base0 == r.base0 && s.base1 == r.base1
            && s.size == r.size && |s.mem| == |r.mem|
            && s.shown == (if op.Swap? then (r.shown + 1) % 2 else r.shown)
            && s.selected == (if op.Swap? then s.shown else r.selected)
  {
  }

  /** Byte `k` of memory after a step, frame by frame. With frame 0 displayed, erasing fills frame
      1 with the low byte of the colour, and reserving copies frame 0 to frame 1; with frame 1
      displayed it is the other way round. Nothing else in memory changes. */
  lemma StepInBytes(r: Reader, op: Op, k: int)
    requires r.Valid() && 0 <= k < |r.mem|
    ensures var drawn, shown := if r.shown == 0 then r.base1 else r.base0, if r.shown == 0 then r.base0 else r.base1;
            && |Step(r, op).mem| == |r.mem|
            && (op.Swap? || !(drawn <= k < drawn + r.size) ==> Step(r, op).mem[k] == r.mem[k])
            && (op.Erase? && drawn <= k < drawn + r.size ==> Step(r, op).mem[k] == (op.color & 0xff) as byte)
            && (op.Reserve? && drawn <= k < drawn + r.size ==> Step(r, op).mem[k] == r.mem[shown + (k - drawn)])
            && (op.Draw? && drawn <= k < drawn + r.size ==> Step(r, op).mem[k] == op.picture(k - drawn))
    ensures op.Swap? ==> Step(r, op).shown == 1 - r.shown && Step(r, op).selected == 1 - r.shown
    ensures !op.Swap? ==> Step(r, op).shown == r.shown && Step(r, op).selected == r.selected
  {
    match op
    case Erase(color) => DrawnBytes(r, Uniform(color, r.size), k);
    case Reserve => DrawnBytes(r, r.Shown(), k);
    case Draw(picture) => DrawnBytes(r, seq(r.size, picture), k);
    case Swap =>
  }

  lemma DrawnBytes(r: Reader, picture: seq<byte>, k: int)
    requires r.Valid() && |picture| == r.size && 0 <= k < |r.mem|
    ensures var drawn, s := if r.shown == 0 then r.base1 else r.base0, DrawInto(r, picture);
            && |s.mem| == |r.mem| && s.shown == r.shown && s.selected == r.selected
            && s.mem[k] == if drawn <= k < drawn + r.size then picture[k - drawn] else r.mem[k]
  {
    SpliceStored(r.mem, r.DrawBase(), picture);
  }

  ghost function RunAll(r: Reader, ops: seq<Op>): (s: Reader)
    requires r.Valid()
    ensures s.Valid() && s.base0 == r.base0 && s.base1 == r.base1 && s.size == r.size
    decreases |ops|
  {
    if ops == [] then r
    else
      var s := RunAll(r, ops[..|ops| - 1]);
      StepLayout(s, ops[|ops| - 1]);
      Step(s, ops[|ops| - 1])
  }

  ghost function Swaps(ops: seq<Op>): nat {
    if ops == [] then 0 else Swaps(ops[..|ops| - 1]) + if ops[|ops| - 1].Swap? then 1 else 0
  }

  /** The draw frame is never the displayed frame. */
  lemma DrawFrameHidden(r: Reader)
    requires r.Valid() && r.Disjoint()
    ensures r.DrawBase() + r.size <= r.ShownBase() || r.ShownBase() + r.size <= r.DrawBase()
  {
  }

  lemma DrawIntoHidden(r: Reader, picture: seq<byte>)
    requires r.Valid() && |picture| == r.size
    ensures DrawInto(r, picture).Valid() && DrawInto(r, picture).Drawn() == picture
    ensures r.Disjoint() ==> DrawInto(r, picture).Shown() == r.Shown()
  {
    var s, lo := DrawInto(r, picture), r.ShownBase();
    assert s.ShownBase() == lo && s.DrawBase() == r.DrawBase();
    SpliceSlices(r.mem, r.DrawBase(), picture, lo, lo + r.size);
    assert s.Drawn() == Splice(r.mem, r.DrawBase(), picture)[r.DrawBase()..r.DrawBase() + |picture|];
    assert s.Shown() == Splice(r.mem, r.DrawBase(), picture)[lo..lo + r.size];
  }

  /** Only a swap changes the picture on the screen, and it shows exactly what was drawn. */
  lemma PictureChangesOnlyAtSwap(r: Reader, op: Op)
    requires r.Valid() && r.Disjoint()
    ensures Step(r, op).Valid()
    ensures op.Swap? ==> Step(r, op).mem == r.mem && Step(r, op).Shown() == r.Drawn() && Step(r, op).Drawn() == r.Shown()
    ensures !op.Swap? ==> Step(r, op).Shown() == r.Shown() && Step(r, op).Drawn() == Prepared(r, op)
  {
    if !op.Swap? {
      DrawIntoHidden(r, Prepared(r, op));
    }
  }

  lemma Parity(n: int)
    ensures (n % 2 + 1) % 2 == (n + 1) % 2
  {
  }

  /** Over every run the number of the displayed frame counts the swaps, and the select register
      follows it. */
  lemma {:induction false} RunCountsSwaps(r: Reader, ops: seq<Op>)
    requires r.Valid() && r.selected == r.shown
    ensures var s := RunAll(r, ops);
            s.shown == (r.shown + Swaps(ops)) % 2 && s.selected == s.shown
    decreases |ops|
  {
    if ops != [] {
      var before := ops[..|ops| - 1];
      var s, n := RunAll(r, before), r.shown + Swaps(before);
      RunCountsSwaps(r, before);
      StepLayout(s, ops[|ops| - 1]);
      assert RunAll(r, ops) == Step(s, ops[|ops| - 1]);
      if ops[|ops| - 1].Swap? {
        Parity(n);
        assert r.shown + Swaps(ops) == n + 1;
      } else {
        assert r.shown + Swaps(ops) == n;
      }
    }
  }

  /** The last picture prepared before the last swap of a run; the initial one if there is none. */
  ghost function LastSwapped(r: Reader, ops: seq<Op>): seq<byte>
    requires r.Valid()
    decreases |ops|
  {
    if ops == [] then r.Shown()
    else if ops[|ops| - 1].Swap? then RunAll(r, ops[..|ops| - 1]).Drawn()
    else LastSwapped(r, ops[..|ops| - 1])
  }

  /** Over every run the screen shows what was in the draw frame at the last swap, whatever was
      erased, copied or drawn since. */
  lemma {:induction false} ScreenShowsLastSwap(r: Reader, ops: seq<Op>)
    requires r.Valid() && r.Disjoint()
    ensures RunAll(r, ops).Shown() == LastSwapped(r, ops)
    decreases |ops|
  {
    if ops != [] {
      ScreenShowsLastSwap(r, ops[..|ops| - 1]);
      PictureChangesOnlyAtSwap(RunAll(r, ops[..|ops| - 1]), ops[|ops| - 1]);
    }
  }

  /** Copying the background and then swapping shows the identical picture. */
  lemma ReserveThenSwap(r: Reader)
    requires r.Valid() && r.Disjoint()
    ensures RunAll(r, [Reserve, Swap]).Shown() == r.Shown() && RunAll(r, [Reserve, Swap]).Drawn() == r.Shown()
  {
    var s := Step(r, Reserve);
    assert [Reserve, Swap][..1] == [Reserve] && [Reserve][..0] == [];
    assert RunAll(r, [Reserve]) == Step(RunAll(r, []), Reserve);
    assert RunAll(r, [Reserve, Swap]) == Step(s, Swap);
    PictureChangesOnlyAtSwap(r, Reserve);
    PictureChangesOnlyAtSwap(s, Swap);
  }

  // ---- When the picture is isolated, and what erasing shows

  /** Erasing leaves the picture on the screen alone, whatever memory and colour. */
  ghost predicate EraseHidden(r: Reader)
    requires r.Valid()
  {
    forall mem: seq<byte>, color: bv32 :: |mem| == |r.mem| ==> KeepsPicture(r.(mem := mem), Erase(color))
  }

  ghost predicate KeepsPicture(r: Reader, op: Op)
    requires r.Valid()
  {
    Step(r, op).Valid() && Step(r, op).Shown() == r.Shown()
  }

  /** Erasing is invisible exactly when the two frames share no byte. */
  lemma EraseHiddenIffDisjoint(r: Reader)
    requires r.Valid() && 0 < r.size
    ensures EraseHidden(r) <==> r.Disjoint()
  {
    if r.Disjoint() {
      forall mem: seq<byte>, color: bv32 | |mem| == |r.mem|
        ensures KeepsPicture(r.(mem := mem), Erase(color))
      {
        PictureChangesOnlyAtSwap(r.(mem := mem), Erase(color));
      }
    } else {
      EraseSeen(r);
    }
  }

  /** Storing ones at `d` shows in a region of zeros that overlaps it. */
  lemma OverlapSeen(zeros: seq<byte>, lo: int, d: int, ones: seq<byte>, k: int)
    requires 0 <= d <= k < d + |ones| <= |zeros| && 0 <= lo <= k < lo + |ones| <= |zeros|
    requires zeros[k] == 0 && ones[k - d] == 1
    ensures Splice(zeros, d, ones)[lo..lo + |ones|] != zeros[lo..lo + |ones|]
  {
    SpliceStored(zeros, d, ones);
    assert Splice(zeros, d, ones)[lo..lo + |ones|][k - lo] == 1;
  }

  /** With a byte in both frames, erasing black memory shows. */
  lemma EraseSeen(r: Reader)
    requires r.Valid() && 0 < r.size && !r.Disjoint()
    ensures !KeepsPicture(r.(mem := Uniform(0, |r.mem|)), Erase(1))
  {
    var black, blue := Uniform(0, |r.mem|), Uniform(1, r.size);
    assert ByteOf(0, 0) == 0 && ByteOf(1, 0) == 1;
    var lo, d := r.ShownBase(), r.DrawBase();
    OverlapSeen(black, lo, d, blue, if lo < d then d else lo);
  }

  /** A reader as VIPFR_Init leaves it for the frame size that `main` uses. */
  function MainReader(mem: seq<byte>, frame0: int, frame1: int): Reader {
    Reader(mem, frame0, frame1, 800 * 600 * 4, 0, 0)
  }

  /** `main` passes the same base for both frames, so what is erased shows at once. With the
      second frame of the header placed right behind the first it would not. */
  lemma MainSharesOneFrame(mem: seq<byte>, base: int)
    requires 0 <= base && base + 2 * 1920000 <= |mem| <= ADDRESS_SPACE
    ensures MainReader(mem, base, base).Valid() && !EraseHidden(MainReader(mem, base, base))
    ensures MainReader(mem, base, base + 1920000).Valid() && EraseHidden(MainReader(mem, base, base + 1920000))
  {
    EraseHiddenIffDisjoint(MainReader(mem, base, base));
    EraseHiddenIffDisjoint(MainReader(mem, base, base + 1920000));
  }

  /** All four bytes of a colour word are equal. */
  predicate Gray(color: bv32) {
    ByteOf(color, 0) == ByteOf(color, 1) == ByteOf(color, 2) == ByteOf(color, 3)
  }

  lemma GrayRepeats(color: bv32)
    ensures var low := ByteOf(color, 0);
            Word32(low, low, low, low) == color <==> Gray(color)
  {
  }

  /** Erasing makes every pixel word of the draw frame the given colour exactly when the four
      bytes of the colour are equal. */
  lemma EraseShowsColorIffGray(r: Reader, color: bv32)
    requires r.Valid() && 0 < r.size && r.size % 4 == 0
    ensures Step(r, Erase(color)).Valid()
    ensures (forall i :: 0 <= i < r.size / 4 ==> WordAt(Step(r, Erase(color)).Drawn(), 4 * i) == color) <==> Gray(color)
  {
    var picture, low := Uniform(color, r.size), ByteOf(color, 0);
    DrawIntoHidden(r, picture);
    GrayRepeats(color);
    forall i | 0 <= i < r.size / 4
      ensures WordAt(picture, 4 * i) == Word32(low, low, low, low)
    {
    }
    if !Gray(color) {
      assert WordAt(picture, 4 * 0) != color;
    }
  }
}
