/** my_memcpy: a copy by a chain of DMA descriptors of at most 32 KB each. */
module Dma {
  import opened Bytes
  import opened Wrappers

  const MAX_BLOCK := 32 * 1024

  /** One transfer, and the descriptor that follows it. */
  datatype Descriptor = Descriptor(dest: int, src: int, length: int, next: Option<nat>)

  function Min(a: int, b: int): int {
    if a < b then a else b
  }

  /** The number of descriptors allocated. */
  function Blocks(n: nat): nat {
    (n + MAX_BLOCK - 1) / MAX_BLOCK
  }

  /** Descriptor `i` of a chain that copies `n` bytes. */
  function Block(dest: int, src: int, n: nat, i: nat): Descriptor {
    var offset := i * MAX_BLOCK;
    Descriptor(dest + offset, src + offset, Min(MAX_BLOCK, n - offset), if offset + MAX_BLOCK < n then Some(i + 1) else None)
  }

  ghost predicate IsChain(chain: seq<Descriptor>, dest: int, src: int, n: nat) {
    |chain| == Blocks(n) && forall i :: 0 <= i < |chain| ==> chain[i] == Block(dest, src, n, i)
  }

  method BuildChain(dest: int, src: int, n: nat) returns (desc: array<Descriptor>)
    requires n <= ADDRESS_SPACE
    ensures fresh(desc) && IsChain(desc[..], dest, src, n) && desc.Length == (n + 32767) / 32768
  {
    desc := new Descriptor[Blocks(n)](_ => Descriptor(0, 0, 0, None));
    var remaining, destBlock, srcBlock, index := n, dest, src, 0;
    while remaining > 0
      invariant 0 <= remaining <= n
      invariant n - remaining == Min(n, index * MAX_BLOCK) && 0 <= index <= Blocks(n)
      invariant destBlock == dest + (n - remaining) && srcBlock == src + (n - remaining)
      invariant forall i :: 0 <= i < index ==> desc[i] == Block(dest, src, n, i)
    {
      var blockSize := MAX_BLOCK;
      if blockSize > remaining {
        blockSize := remaining;
      }
      remaining := remaining - blockSize;
      desc[index] := Descriptor(destBlock, srcBlock, blockSize, if remaining == 0 then None else Some(index + 1));
      destBlock := destBlock + blockSize;
      srcBlock := srcBlock + blockSize;
      index := index + 1;
    }
  }

  /** Links lead forwards and stay inside the array. */
  ghost predicate Linked(chain: seq<Descriptor>) {
    forall i :: 0 <= i < |chain| && chain[i].next.Some? ==> i < chain[i].next.value < |chain|
  }

  /** The descriptors reached from `i`, in order. */
  ghost function Visited(chain: seq<Descriptor>, i: nat): seq<nat>
    requires Linked(chain) && i < |chain|
    decreases |chain| - i
  {
    [i] + match chain[i].next
          case Some(j) => Visited(chain, j)
          case None => []
  }

  /** The number of blocks is the smallest that covers `n` bytes. */
  lemma BlocksIsCeiling(n: nat)
    ensures Blocks(n) * 32768 >= n
    ensures forall b: nat :: b * 32768 >= n ==> Blocks(n) <= b
  {
  }

  lemma BlockInRange(n: nat, i: nat)
    ensures i < Blocks(n) <==> i * MAX_BLOCK < n
  {
  }

  /** One block ends where the next begins, in both regions. */
  predicate Adjacent(d: Descriptor, e: Descriptor) {
    d.dest + d.length == e.dest && d.src + d.length == e.src
  }

  /** Block `i`: non-empty, at most 32 KB, adjacent to the block it links to; the last one ends
      at byte `n` and has the null link. */
  lemma ChainBlock(chain: seq<Descriptor>, dest: int, src: int, n: nat, i: nat)
    requires IsChain(chain, dest, src, n) && i < |chain|
    ensures chain[i] == Block(dest, src, n, i) && 1 <= chain[i].length <= MAX_BLOCK
    ensures 0 <= i * MAX_BLOCK && i * MAX_BLOCK + chain[i].length <= n
    ensures if i + 1 < |chain| then chain[i].next == Some(i + 1) && chain[i].length == MAX_BLOCK && Adjacent(chain[i], chain[i + 1])
            else chain[i].next == None && i * MAX_BLOCK + chain[i].length == n
  {
    BlockInRange(n, i);
    BlockInRange(n, i + 1);
  }

  lemma ChainLinked(chain: seq<Descriptor>, dest: int, src: int, n: nat)
    requires IsChain(chain, dest, src, n)
    ensures Linked(chain)
    ensures 0 < n ==> 0 < |chain|
  {
    forall i | 0 <= i < |chain| && chain[i].next.Some?
      ensures i < chain[i].next.value < |chain|
    {
      ChainBlock(chain, dest, src, n, i);
    }
    BlockInRange(n, 0);
  }

  lemma {:induction false} VisitedFrom(chain: seq<Descriptor>, dest: int, src: int, n: nat, i: nat)
    requires IsChain(chain, dest, src, n) && Linked(chain) && i < |chain|
    ensures Visited(chain, i) == seq(|chain| - i, j => i + j)
    decreases |chain| - i
  {
    ChainBlock(chain, dest, src, n, i);
    if i + 1 < |chain| {
      VisitedFrom(chain, dest, src, n, i + 1);
    }
  }

  /** The chain partitions [0, n) in order into blocks of 1 to 32768 bytes, and
      following the links from the first descriptor visits each descriptor once and stops at
      the only null link. */
  lemma ChainPartitions(chain: seq<Descriptor>, dest: int, src: int, n: nat)
    requires IsChain(chain, dest, src, n) && 0 < n
    ensures 0 < |chain| == (n + 32767) / 32768
    ensures chain[0].dest == dest && chain[0].src == src
    ensures forall i :: 0 <= i < |chain| ==> 1 <= chain[i].length <= 32768
    ensures forall i :: 0 <= i < |chain| ==> (chain[i].next == None <==> i == |chain| - 1)
    ensures forall i {:trigger chain[i].next} :: 0 <= i < |chain| && chain[i].next.Some? ==> chain[i].next.value < |chain| && Adjacent(chain[i], chain[chain[i].next.value])
    ensures chain[|chain| - 1].dest + chain[|chain| - 1].length == dest + n
    ensures chain[|chain| - 1].src + chain[|chain| - 1].length == src + n
    ensures Linked(chain) && Visited(chain, 0) == seq(|chain|, j => j)
  {
    ChainLinked(chain, dest, src, n);
    ChainBlock(chain, dest, src, n, 0);
    ChainBlock(chain, dest, src, n, |chain| - 1);
    VisitedFrom(chain, dest, src, n, 0);
    forall i | 0 <= i < |chain|
      ensures 1 <= chain[i].length <= 32768
      ensures chain[i].next == None <==> i == |chain| - 1
      ensures chain[i].next.Some? ==> chain[i].next.value < |chain| && Adjacent(chain[i], chain[chain[i].next.value])
    {
      ChainBlock(chain, dest, src, n, i);
    }
  }

  /** Memory after one memcpy of `n` bytes. */
  ghost function Copied(mem: seq<byte>, dest: int, src: int, n: int): seq<byte>
    requires Regions(|mem|, dest, src, n)
  {
    Splice(mem, dest, mem[src..src + n])
  }

  /** Both regions lie in memory and do not overlap. */
  predicate Regions(length: nat, dest: int, src: int, n: int) {
    && 0 <= n && 0 <= dest && dest + n <= length && 0 <= src && src + n <= length
    && (dest + n <= src || src + n <= dest)
  }

  ghost predicate Transferable(length: nat, chain: seq<Descriptor>) {
    Linked(chain) && forall i :: 0 <= i < |chain| ==> Regions(length, chain[i].dest, chain[i].src, chain[i].length)
  }

  /** Memory after the DMA engine has followed the chain from descriptor `i`. */
  ghost function Executed(mem: seq<byte>, chain: seq<Descriptor>, i: nat): seq<byte>
    requires Transferable(|mem|, chain) && i < |chain|
    decreases |chain| - i
  {
    var after := Copied(mem, chain[i].dest, chain[i].src, chain[i].length);
    match chain[i].next
    case Some(j) => Executed(after, chain, j)
    case None => after
  }

  lemma ChainTransferable(length: nat, chain: seq<Descriptor>, dest: int, src: int, n: nat)
    requires IsChain(chain, dest, src, n) && Regions(length, dest, src, n)
    ensures Transferable(length, chain)
  {
    ChainLinked(chain, dest, src, n);
    forall i | 0 <= i < |chain|
      ensures Regions(length, chain[i].dest, chain[i].src, chain[i].length)
    {
      ChainBlock(chain, dest, src, n, i);
    }
  }

  /** From descriptor `i` on, the chain copies exactly the bytes from its block to the end. */
  lemma {:induction false} ExecutedFrom(mem: seq<byte>, chain: seq<Descriptor>, dest: int, src: int, n: nat, i: nat, rest: int)
    requires IsChain(chain, dest, src, n) && Regions(|mem|, dest, src, n)
    requires Transferable(|mem|, chain) && i < |chain| && rest == n - i * MAX_BLOCK
    ensures Regions(|mem|, chain[i].dest, chain[i].src, rest)
    ensures Executed(mem, chain, i) == Copied(mem, chain[i].dest, chain[i].src, rest)
    decreases |chain| - i
  {
    ChainBlock(chain, dest, src, n, i);
    var d := chain[i];
    if i + 1 < |chain| {
      var e, after := chain[i + 1], Copied(mem, d.dest, d.src, d.length);
      ExecutedFrom(after, chain, dest, src, n, i + 1, rest - d.length);
      TwoCopies(mem, d.dest, d.src, d.length, rest, e.dest, e.src, rest - d.length);
    }
  }

  /** A region copied in two adjacent parts. */
  lemma TwoCopies(mem: seq<byte>, dest: int, src: int, m: int, n: int, dest': int, src': int, n': int)
    requires 0 <= m <= n && Regions(|mem|, dest, src, n)
    requires dest' == dest + m && src' == src + m && n' == n - m
    ensures Copied(Copied(mem, dest, src, m), dest', src', n') == Copied(mem, dest, src, n)
  {
    var first := Copied(mem, dest, src, m);
    assert first[src'..src' + n'] == mem[src'..src' + n'] by {
      SpliceSlices(mem, dest, mem[src..src + m], src', src' + n');
    }
    TwoSplices(mem, dest, dest', src, src', src + n);
  }

  /** Two adjacent slices spliced in one after the other. */
  lemma TwoSplices(mem: seq<byte>, at: int, at': int, lo: int, mid: int, hi: int)
    requires 0 <= lo <= mid <= hi <= |mem| && 0 <= at && at' == at + (mid - lo) && at' + (hi - mid) <= |mem|
    ensures Splice(Splice(mem, at, mem[lo..mid]), at', mem[mid..hi]) == Splice(mem, at, mem[lo..hi])
  {
    var first := Splice(mem, at, mem[lo..mid]);
    SpliceStored(mem, at, mem[lo..mid]);
    SpliceStored(first, at', mem[mid..hi]);
    StoredSlices(mem, first, Splice(first, at', mem[mid..hi]), at, mem, lo, mid, hi);
    StoredIsSplice(mem, Splice(first, at', mem[mid..hi]), at, mem[lo..hi]);
  }

  /** What one memcpy does to each byte. */
  lemma CopiedBytes(mem: seq<byte>, dest: int, src: int, n: int)
    requires Regions(|mem|, dest, src, n)
    ensures |Copied(mem, dest, src, n)| == |mem|
    ensures forall k :: 0 <= k < |mem| ==> Copied(mem, dest, src, n)[k] == if dest <= k < dest + n then mem[src + (k - dest)] else mem[k]
  {
    SpliceStored(mem, dest, mem[src..src + n]);
  }

  /** The descriptor chain refines memcpy. */
  lemma ChainRefinesMemcpy(mem: seq<byte>, chain: seq<Descriptor>, dest: int, src: int, n: nat)
    requires IsChain(chain, dest, src, n) && 0 < n && Regions(|mem|, dest, src, n)
    ensures 0 < |chain| && Transferable(|mem|, chain)
    ensures Executed(mem, chain, 0) == Copied(mem, dest, src, n)
    ensures |Executed(mem, chain, 0)| == |mem|
    ensures forall k :: 0 <= k < |mem| ==> Executed(mem, chain, 0)[k] == if dest <= k < dest + n then mem[src + (k - dest)] else mem[k]
  {
    CopiedBytes(mem, dest, src, n);
    ChainLinked(chain, dest, src, n);
    ChainTransferable(|mem|, chain, dest, src, n);
    ChainBlock(chain, dest, src, n, 0);
    assert chain[0].dest == dest && chain[0].src == src;
    ExecutedFrom(mem, chain, dest, src, n, 0, n);
  }

  /** The synchronous transfer: copy a block, follow the link, stop at the null link. */
  method DoSyncTransfer(mem: array<byte>, chain: seq<Descriptor>)
    requires 0 < |chain| && Transferable(mem.Length, chain)
    modifies mem
    ensures mem[..] == Executed(old(mem[..]), chain, 0)
  {
    ghost var result := Executed(mem[..], chain, 0);
    var current := Some(0);
    while current.Some?
      invariant current.Some? ==> 0 <= current.value < |chain|
      invariant result == if current.Some? then Executed(mem[..], chain, current.value) else mem[..]
      decreases current.Some?, if current.Some? then |chain| - current.value else 0
    {
      var d := chain[current.value];
      MemCpy(mem, d.dest, mem, d.src, d.length);
      current := d.next;
    }
  }

  method MyMemcpy(mem: array<byte>, dest: int, src: int, n: nat, dmaFound: bool)
    requires 0 < n <= ADDRESS_SPACE && Regions(mem.Length, dest, src, n)
    modifies mem
    ensures mem[..] == if dmaFound then Copied(old(mem[..]), dest, src, n) else old(mem[..])
  {
    if !dmaFound {
      return;
    }
    var desc := BuildChain(dest, src, n);
    ChainRefinesMemcpy(mem[..], desc[..], dest, src, n);
    DoSyncTransfer(mem, desc[..]);
  }
}
