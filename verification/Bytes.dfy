/** Bytes and little-endian words of the Nios II data memory. */
module Bytes {

  type byte = bv8

  /** The data bus of the CPU has 28 address bits. */
  const ADDRESS_SPACE := 0x1000_0000

  /** The 32-bit word whose bytes, from the lowest address up, are `b0`, `b1`, `b2`, `b3`. */
  function Word32(b0: byte, b1: byte, b2: byte, b3: byte): bv32 {
    (b0 as bv32) | ((b1 as bv32) << 8) | ((b2 as bv32) << 16) | ((b3 as bv32) << 24)
  }

  /** Byte `i` of a 32-bit word, counted from the low end. */
  function ByteOf(w: bv32, i: int): byte
    requires 0 <= i < 4
  {
    match i
    case 0 => (w & 0xff) as byte
    case 1 => ((w >> 8) & 0xff) as byte
    case 2 => ((w >> 16) & 0xff) as byte
    case _ => ((w >> 24) & 0xff) as byte
  }

  /** The word stored at byte address `at`. */
  function WordAt(mem: seq<byte>, at: int): bv32
    requires 0 <= at && at + 4 <= |mem|
  {
    Word32(mem[at], mem[at + 1], mem[at + 2], mem[at + 3])
  }

  /** The four bytes of a word in memory order. */
  function Bytes32(w: bv32): (p: seq<byte>)
    ensures |p| == 4
  {
    [ByteOf(w, 0), ByteOf(w, 1), ByteOf(w, 2), ByteOf(w, 3)]
  }

  /** The two bytes of a half word in memory order. */
  function Bytes16(h: bv16): (p: seq<byte>)
    ensures |p| == 2
  {
    [(h & 0xff) as byte, (h >> 8) as byte]
  }

  /** `next` is `cur` with the bytes `p` stored from `at` on. */
  ghost predicate Stored(cur: seq<byte>, next: seq<byte>, at: int, p: seq<byte>) {
    && |next| == |cur|
    && (forall i :: 0 <= i < |cur| ==> next[i] == if at <= i < at + |p| then p[i - at] else cur[i])
  }

  /** The `n` bytes f(0), f(1), ..., built up one by one. */
  ghost function Tabulate(n: nat, f: int -> byte): seq<byte> {
    if n == 0 then [] else Tabulate(n - 1, f) + [f(n - 1)]
  }

  lemma {:induction false} TabulatePointwise(n: nat, f: int -> byte)
    ensures |Tabulate(n, f)| == n
    ensures forall k :: 0 <= k < n ==> Tabulate(n, f)[k] == f(k)
  {
    if n != 0 {
      TabulatePointwise(n - 1, f);
    }
  }

  ghost function SpliceByte(cur: seq<byte>, at: int, p: seq<byte>): int -> byte {
    k => if at <= k < at + |p| then p[k - at] else if 0 <= k < |cur| then cur[k] else 0
  }

  /** `cur` with the bytes `p` stored from `at` on. */
  ghost function Splice(cur: seq<byte>, at: int, p: seq<byte>): (next: seq<byte>)
    requires 0 <= at && at + |p| <= |cur|
    ensures |next| == |cur|
  {
    TabulatePointwise(|cur|, SpliceByte(cur, at, p));
    Tabulate(|cur|, SpliceByte(cur, at, p))
  }

  lemma SpliceStored(cur: seq<byte>, at: int, p: seq<byte>)
    requires 0 <= at && at + |p| <= |cur|
    ensures Stored(cur, Splice(cur, at, p), at, p)
  {
    TabulatePointwise(|cur|, SpliceByte(cur, at, p));
  }

  lemma SpliceSlices(cur: seq<byte>, at: int, p: seq<byte>, lo: int, hi: int)
    requires 0 <= at && at + |p| <= |cur| && 0 <= lo <= hi <= |cur|
    ensures Splice(cur, at, p)[at..at + |p|] == p
    ensures hi <= at || at + |p| <= lo ==> Splice(cur, at, p)[lo..hi] == cur[lo..hi]
  {
    SpliceStored(cur, at, p);
  }

  /** A store is the splice of the stored bytes. */
  lemma StoredIsSplice(cur: seq<byte>, next: seq<byte>, at: int, p: seq<byte>)
    requires 0 <= at && at + |p| <= |cur| && Stored(cur, next, at, p)
    ensures next == Splice(cur, at, p)
  {
    SpliceStored(cur, at, p);
  }

  lemma SameStore(cur: seq<byte>, next: seq<byte>, next': seq<byte>, at: int, p: seq<byte>)
    requires Stored(cur, next, at, p) && Stored(cur, next', at, p)
    ensures next == next'
  {
  }

  /** Two adjacent stores from adjacent slices are one store. */
  lemma StoredSlices(a: seq<byte>, b: seq<byte>, c: seq<byte>, at: int, src: seq<byte>, lo: nat, mid: nat, hi: nat)
    requires lo <= mid <= hi <= |src|
    requires Stored(a, b, at, src[lo..mid]) && Stored(b, c, at + (mid - lo), src[mid..hi])
    ensures Stored(a, c, at, src[lo..hi])
  {
  }

  method Store32(mem: array<byte>, at: int, w: bv32)
    requires 0 <= at && at + 4 <= mem.Length
    modifies mem
    ensures Stored(old(mem[..]), mem[..], at, Bytes32(w))
  {
    mem[at], mem[at + 1] := ByteOf(w, 0), ByteOf(w, 1);
    mem[at + 2], mem[at + 3] := ByteOf(w, 2), ByteOf(w, 3);
  }

  method Store16(mem: array<byte>, at: int, h: bv16)
    requires 0 <= at && at + 2 <= mem.Length
    modifies mem
    ensures Stored(old(mem[..]), mem[..], at, Bytes16(h))
  {
    mem[at], mem[at + 1] := (h & 0xff) as byte, (h >> 8) as byte;
  }

  /** memcpy; the two regions must not overlap. */
  method MemCpy(dest: array<byte>, d: int, src: array<byte>, s: int, n: int)
    requires 0 <= n && 0 <= d && d + n <= dest.Length && 0 <= s && s + n <= src.Length
    requires dest != src || d + n <= s || s + n <= d
    modifies dest
    ensures dest[..] == Splice(old(dest[..]), d, old(src[..])[s..s + n])
  {
    ghost var copied, was := src[s..s + n], dest[..];
    var i := 0;
    while i < n
      invariant 0 <= i <= n
      invariant src[s..s + n] == copied
      invariant Stored(was, dest[..], d, copied[..i])
    {
      dest[d + i] := src[s + i];
      i := i + 1;
    }
    assert copied == old(src[..])[s..s + n];
    StoredIsSplice(was, dest[..], d, copied);
  }

  /** `n` copies of the low byte of a value. */
  function Uniform(value: bv32, n: nat): (p: seq<byte>)
    ensures |p| == n
  {
    seq(n, _ => ByteOf(value, 0))
  }

  /** memset; only the low byte of the value is used. */
  method MemSet(dest: array<byte>, d: int, value: bv32, n: int)
    requires 0 <= n && 0 <= d && d + n <= dest.Length
    modifies dest
    ensures dest[..] == Splice(old(dest[..]), d, Uniform(value, n))
  {
    ghost var was := dest[..];
    var i := 0;
    while i < n
      invariant 0 <= i <= n
      invariant Stored(was, dest[..], d, Uniform(value, i))
    {
      dest[d + i] := ByteOf(value, 0);
      i := i + 1;
    }
    StoredIsSplice(was, dest[..], d, Uniform(value, n));
  }

  lemma WordBytes(b0: byte, b1: byte, b2: byte, b3: byte)
    ensures var w := Word32(b0, b1, b2, b3);
            ByteOf(w, 0) == b0 && ByteOf(w, 1) == b1 && ByteOf(w, 2) == b2 && ByteOf(w, 3) == b3
  {
  }

  /** A word read from memory consists of the bytes it was read from. */
  lemma WordSlice(mem: seq<byte>, at: int)
    requires 0 <= at && at + 4 <= |mem|
    ensures Bytes32(WordAt(mem, at)) == mem[at..at + 4]
  {
    WordBytes(mem[at], mem[at + 1], mem[at + 2], mem[at + 3]);
  }

  lemma BytesWord(w: bv32)
    ensures Word32(ByteOf(w, 0), ByteOf(w, 1), ByteOf(w, 2), ByteOf(w, 3)) == w
  {
  }

  /** The byte with a given numeric value. */
  function ToByte(n: int): (b: byte)
    requires 0 <= n < 256
    ensures b as int == n
  {
    n as byte
  }
}
