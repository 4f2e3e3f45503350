// What each operation of mm.c does to the abstract heap.
module HeapOps {
  import opened Words
  import opened MemLib
  import opened HeapModel

  const CHUNKSIZE := 4096
  const INITCHUNKSIZE := 64

  function Max(a: int, b: int): int { if a > b then a else b }

  function Min(a: int, b: int): int { if a < b then a else b }

  // The index of the block whose payload starts at ptr; |bs| if there is none.
  function IndexOf(bs: seq<Block>, ptr: int): (i: nat)
    ensures i <= |bs|
    ensures i < |bs| ==> bs[i].ptr == ptr
    ensures forall j :: 0 <= j < i ==> bs[j].ptr != ptr
  {
    if bs == [] || bs[0].ptr == ptr then 0 else 1 + IndexOf(bs[1..], ptr)
  }

  predicate FreeAt(bs: seq<Block>, i: int) { 0 <= i < |bs| && !bs[i].alloc }

  function Listing(c: seq<Block>, b: Block): seq<Block> {
    if b.alloc then c else Inserted(c, b)
  }

  // Blocks i .. i + n - 1 become the one or two blocks of cut; the free ones
  // among them are inserted into the list.
  function Recut(h: Heap, i: nat, n: nat, cut: seq<Block>): (g: Heap)
    requires n >= 1 && i + n <= |h.blocks| && 1 <= |cut| <= 2
    ensures g.brk == h.brk && g.blocks == Replace(h.blocks, i, n, cut)
  {
    var c := Listing(h.chain, cut[0]);
    Heap(h.brk, Replace(h.blocks, i, n, cut), if |cut| == 2 then Listing(c, cut[1]) else c)
  }

  // ------------------------------------------------------------- coalescing

  // Blocks i .. i + n - 1 become one free block.
  function Merged(h: Heap, i: nat, n: nat): (g: Heap)
    requires n >= 1 && i + n <= |h.blocks|
    ensures g.brk == h.brk && i < |g.blocks|
    ensures g.blocks[i] == Block(h.blocks[i].ptr, h.blocks[i + n - 1].End() - h.blocks[i].ptr, false)
  {
    Recut(h, i, n, [Block(h.blocks[i].ptr, h.blocks[i + n - 1].End() - h.blocks[i].ptr, false)])
  }

  function Unlisted(h: Heap, b: Block): Heap { h.(chain := Removed(h.chain, b)) }

  // coalesce on free block i: it and its free neighbours leave the list and
  // come back as one block.
  function Coalesced(h: Heap, i: nat): Heap
    requires i < |h.blocks|
  {
    var bs, g := h.blocks, Unlisted(h, h.blocks[i]);
    var prv, nxt := FreeAt(bs, i - 1), FreeAt(bs, i + 1);
    if !prv && !nxt then h
    else if !prv then Merged(Unlisted(g, bs[i + 1]), i, 2)
    else if !nxt then Merged(Unlisted(g, bs[i - 1]), i - 1, 2)
    else Merged(Unlisted(Unlisted(g, bs[i - 1]), bs[i + 1]), i - 1, 3)
  }

  function CoalescedAt(h: Heap, i: nat): nat
    requires i < |h.blocks|
  {
    if FreeAt(h.blocks, i - 1) then i - 1 else i
  }

  // ---------------------------------------------------------------- placing

  // What place makes of free block b for an adjusted size.
  function Cut(b: Block, asize: int): (cut: seq<Block>)
    ensures 1 <= |cut| <= 2
  {
    var r := b.size - asize;
    if r <= 16 then [Block(b.ptr, b.size, true)]
    else if asize >= 100 then [Block(b.ptr, r, false), Block(b.ptr + r, asize, true)]
    else [Block(b.ptr, asize, true), Block(b.ptr + asize, r, false)]
  }

  function Placed(h: Heap, i: nat, asize: int): Heap
    requires i < |h.blocks|
  {
    Recut(Unlisted(h, h.blocks[i]), i, 1, Cut(h.blocks[i], asize))
  }

  // The payload that place returns.
  function PlacedPtr(b: Block, asize: int): int {
    if b.size - asize > 16 && asize >= 100 then b.End() - asize else b.ptr
  }

  // ------------------------------------------------------- heap extension

  predicate CanGrow(h: Heap, n: int) { n < 0x8000_0000 && h.brk + n <= MAX_HEAP }

  // A fresh free block at the end, before coalescing.
  function Extended(h: Heap, n: int): Heap {
    var b := Block(h.brk, n, false);
    Heap(h.brk + n, h.blocks + [b], Inserted(h.chain, b))
  }

  // extend_heap: the heap and the index of the free block it returns.
  function Grown(h: Heap, n: int): Heap { Coalesced(Extended(h, n), |h.blocks|) }

  function GrownAt(h: Heap, n: int): nat { CoalescedAt(Extended(h, n), |h.blocks|) }

  // ------------------------------------------------------------ operations

  function Initial(): Heap { Extended(Heap(FIRST_BLOCK, [], []), INITCHUNKSIZE) }

  // The free block that mm_malloc will place in, in the heap as it then is.
  datatype Spot = Nowhere | Spot(heap: Heap, index: nat)

  // The first listed block that is large enough, else a block from extend_heap.
  function FindSpot(h: Heap, asize: int): Spot {
    var k, n := InsertPos(h.chain, asize), Max(asize, CHUNKSIZE);
    if k < |h.chain| then Spot(h, IndexOf(h.blocks, h.chain[k].ptr))
    else if CanGrow(h, n) then Spot(Grown(h, n), GrownAt(h, n))
    else Nowhere
  }

  // The heap after mm_malloc, and the pointer it returns (0 for NULL).
  function Malloc(h: Heap, size: Word): (Heap, int) {
    var asize := AdjMalloc(size);
    var spot := FindSpot(h, asize);
    if size == 0 || spot == Nowhere || spot.index >= |spot.heap.blocks| then (h, 0)
    else (Placed(spot.heap, spot.index, asize), PlacedPtr(spot.heap.blocks[spot.index], asize))
  }

  // mm_free on live block i.
  function Freed(h: Heap, i: nat): Heap
    requires i < |h.blocks|
  {
    Coalesced(Recut(h, i, 1, [Block(h.blocks[i].ptr, h.blocks[i].size, false)]), i)
  }

  // The blocks that mm_realloc makes of a span when it keeps asize bytes of it.
  function Trim(ptr: int, size: int, asize: int): (cut: seq<Block>)
    ensures 1 <= |cut| <= 2
  {
    if size - asize >= MIN_BLOCK
    then [Block(ptr, asize, true), Block(ptr + asize, size - asize, false)]
    else [Block(ptr, size, true)]
  }

  // mm_realloc where block i is large enough.
  function Shrunk(h: Heap, i: nat, asize: int): Heap
    requires i < |h.blocks|
  {
    Recut(h, i, 1, Trim(h.blocks[i].ptr, h.blocks[i].size, asize))
  }

  predicate CanAbsorb(h: Heap, i: nat, asize: int)
    requires i < |h.blocks|
  {
    FreeAt(h.blocks, i + 1) && h.blocks[i].size + h.blocks[i + 1].size >= asize
  }

  // mm_realloc where block i and the free block after it are large enough.
  function Absorbed(h: Heap, i: nat, asize: int): Heap
    requires i < |h.blocks| && CanAbsorb(h, i, asize)
  {
    var b, nx := h.blocks[i], h.blocks[i + 1];
    Recut(Unlisted(h, nx), i, 2, Trim(b.ptr, b.size + nx.size, asize))
  }

  // The heap after mm_realloc of live block i to size > 0, and the pointer returned.
  function Realloc(h: Heap, i: nat, size: Word): (Heap, int)
    requires i < |h.blocks|
  {
    var asize, b := AdjRealloc(size), h.blocks[i];
    if b.size >= asize then (Shrunk(h, i, asize), b.ptr)
    else if CanAbsorb(h, i, asize) then (Absorbed(h, i, asize), b.ptr)
    else
      var (g, p) := Malloc(h, size);
      var j := IndexOf(g.blocks, b.ptr);
      if p == 0 || j == |g.blocks| then (g, 0) else (Freed(g, j), p)
  }
}
