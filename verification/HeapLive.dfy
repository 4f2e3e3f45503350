// What each operation does to the live blocks.
module HeapLive {
  import opened Words
  import opened MemLib
  import opened HeapModel
  import opened HeapOps
  import opened HeapProofs

  // The same live blocks.
  ghost predicate LiveSame(bs: seq<Block>, bs': seq<Block>) {
    forall b: Block :: b.alloc ==> (b in bs' <==> b in bs)
  }

  // One live block more.
  ghost predicate LivePlus(bs: seq<Block>, bs': seq<Block>, x: Block) {
    && x.alloc && x !in bs
    && forall b: Block :: b.alloc ==> (b in bs' <==> b in bs || b == x)
  }

  // One live block fewer.
  ghost predicate LiveMinus(bs: seq<Block>, bs': seq<Block>, x: Block) {
    && x.alloc && x in bs
    && forall b: Block :: b.alloc ==> (b in bs' <==> b in bs && b != x)
  }

  lemma MergedLive(h: Heap, i: nat, n: nat)
    requires Partial(h) && 2 <= n <= 3 && i + n <= |h.blocks|
    requires FreeAt(h.blocks, i) && FreeAt(h.blocks, i + 1) && FreeAt(h.blocks, i + n - 1)
    ensures LiveSame(h.blocks, Merged(h, i, n).blocks)
  {
    RunMembers(h.blocks, i, n, h.blocks[i..i + n]);
    MergedMembers(h, i, n);
    hide Merged, Partial;
  }

  lemma MergedMembers(h: Heap, i: nat, n: nat)
    requires Partial(h) && n >= 1 && i + n <= |h.blocks|
    ensures forall b: Block :: b.alloc ==>
      (b in Merged(h, i, n).blocks <==> b in h.blocks && b !in h.blocks[i..i + n])
  {
    var m := Block(h.blocks[i].ptr, h.blocks[i + n - 1].End() - h.blocks[i].ptr, false);
    ReplaceMembers(h.blocks, FIRST_BLOCK, h.brk, i, n, [m]);
    assert Merged(h, i, n).blocks == Replace(h.blocks, i, n, [m]);
    hide Merged, Partial, Replace;
  }

  lemma MergedTwoLive(h: Heap, i: nat, x: Block, y: Block)
    requires Good(h) && FreeAt(h.blocks, i) && FreeAt(h.blocks, i + 1)
    requires (x == h.blocks[i] && y == h.blocks[i + 1]) || (x == h.blocks[i + 1] && y == h.blocks[i])
    ensures LiveSame(h.blocks, Merged(Unlisted(Unlisted(h, x), y), i, 2).blocks)
  {
    assert x != y by { TiledApart(h.blocks, FIRST_BLOCK, h.brk); }
    UnlistedPartial(h, x);
    UnlistedPartial(Unlisted(h, x), y);
    MergedLive(Unlisted(Unlisted(h, x), y), i, 2);
  }

  lemma MergedThreeLive(h: Heap, i: nat)
    requires Good(h) && FreeAt(h.blocks, i) && FreeAt(h.blocks, i + 1) && FreeAt(h.blocks, i + 2)
    ensures var g := Unlisted(Unlisted(Unlisted(h, h.blocks[i + 1]), h.blocks[i]), h.blocks[i + 2]);
      LiveSame(h.blocks, Merged(g, i, 3).blocks)
  {
    var x, y, z := h.blocks[i], h.blocks[i + 1], h.blocks[i + 2];
    assert x != y && y != z && x != z by { TiledApart(h.blocks, FIRST_BLOCK, h.brk); }
    UnlistedPartial(h, y);
    UnlistedPartial(Unlisted(h, y), x);
    UnlistedPartial(Unlisted(Unlisted(h, y), x), z);
    MergedLive(Unlisted(Unlisted(Unlisted(h, y), x), z), i, 3);
  }

  lemma CoalescedLive(h: Heap, i: nat)
    requires Good(h) && FreeAt(h.blocks, i)
    ensures LiveSame(h.blocks, Coalesced(h, i).blocks)
  {
    hide Good, Merged, LiveSame;
    if FreeAt(h.blocks, i - 1) {
      if FreeAt(h.blocks, i + 1) {
        MergedThreeLive(h, i - 1);
      } else {
        MergedTwoLive(h, i - 1, h.blocks[i], h.blocks[i - 1]);
      }
    } else if FreeAt(h.blocks, i + 1) {
      MergedTwoLive(h, i, h.blocks[i], h.blocks[i + 1]);
    } else {
      SameLive(h.blocks);
    }
  }

  lemma SameLive(bs: seq<Block>)
    ensures LiveSame(bs, bs)
  {
  }

  lemma GrownLive(h: Heap, n: int)
    requires Good(h) && OkSize(n) && h.brk + n <= MAX_HEAP
    ensures LiveSame(h.blocks, Grown(h, n).blocks)
  {
    ExtendedGood(h, n);
    assert Extended(h, n).blocks[|h.blocks|] == Block(h.brk, n, false);
    hide Good;
    CoalescedLive(Extended(h, n), |h.blocks|);
    assert LiveSame(h.blocks, Extended(h, n).blocks);
  }

  lemma SpotLive(h: Heap, asize: int)
    requires Good(h) && OkSize(asize)
    ensures var s := FindSpot(h, asize); s.Spot? ==> LiveSame(h.blocks, s.heap.blocks)
  {
    ChunkOk(asize);
    hide Good, LiveSame;
    SameLive(h.blocks);
    if CanGrow(h, Max(asize, CHUNKSIZE)) {
      GrownLive(h, Max(asize, CHUNKSIZE));
    }
  }

  // The live block that place makes.
  function PlacedBlock(b: Block, asize: int): Block {
    Block(PlacedPtr(b, asize), if b.size - asize <= 16 then b.size else asize, true)
  }

  lemma PlacedLive(h: Heap, i: nat, asize: int)
    requires Good(h) && FreeAt(h.blocks, i) && OkSize(asize) && asize <= h.blocks[i].size
    ensures LivePlus(h.blocks, Placed(h, i, asize).blocks, PlacedBlock(h.blocks[i], asize))
    ensures asize <= PlacedBlock(h.blocks[i], asize).size <= asize + 16
    ensures FIRST_BLOCK <= PlacedPtr(h.blocks[i], asize)
    ensures var b := h.blocks[i]; var spare := b.size - asize;
      && PlacedPtr(b, asize) == (if spare > 16 && asize >= 100 then b.ptr + spare else b.ptr)
      && PlacedBlock(b, asize).size == if spare > 16 then asize else b.size
  {
    var b := h.blocks[i];
    BlockInside(h, i);
    ReplaceMembers(h.blocks, FIRST_BLOCK, h.brk, i, 1, Cut(b, asize));
    PlacedFresh(h, b, PlacedBlock(b, asize));
    RunOf(h.blocks, i, 1, h.blocks[i..i + 1]);
    CutMembers(b, asize);
    assert Placed(h, i, asize).blocks == Replace(h.blocks, i, 1, Cut(b, asize));
    hide Placed, Replace, Cut, Good;
  }

  lemma CutMembers(b: Block, asize: int)
    ensures forall x: Block :: x.alloc ==> (x in Cut(b, asize) <==> x == PlacedBlock(b, asize))
  {
  }

  lemma PlacedFresh(h: Heap, b: Block, x: Block)
    requires Partial(h) && b in h.blocks && !b.alloc && x.alloc
    requires b.ptr <= x.ptr && x.End() <= b.End() && x.size > 0
    ensures x !in h.blocks
  {
    TiledApart(h.blocks, FIRST_BLOCK, h.brk);
  }

  // The live block a successful mm_malloc makes.
  function NewBlock(h: Heap, size: Word): Block {
    var s := FindSpot(h, AdjMalloc(size));
    if s.Spot? && s.index < |s.heap.blocks| then PlacedBlock(s.heap.blocks[s.index], AdjMalloc(size))
    else Block(0, 0, true)
  }

  // mm_malloc fails without a change, or adds one live block with room for the request.
  lemma MallocLive(h: Heap, size: Word)
    requires Good(h) && size + 15 < WORD_LIMIT
    ensures var (g, p), x := Malloc(h, size), NewBlock(h, size);
      && (p == 0 ==> g == h)
      && (p != 0 ==> x.ptr == p && LivePlus(h.blocks, g.blocks, x))
      && (p != 0 ==> size > 0 && AdjMalloc(size) <= x.size <= AdjMalloc(size) + 16)
  {
    hide Good, LivePlus, LiveSame, OkSize, Placed, PlacedPtr;
    var asize, s := AdjMalloc(size), FindSpot(h, AdjMalloc(size));
    if size > 0 && s.Spot? {
      AdjOk(size);
      SpotGood(h, asize);
      SpotLive(h, asize);
      SpotWhere(h, asize);
      PlacedLive(s.heap, s.index, asize);
      LiveThrough(h.blocks, s.heap.blocks, Placed(s.heap, s.index, asize).blocks, NewBlock(h, size));
    }
  }

  lemma LiveThrough(a: seq<Block>, b: seq<Block>, c: seq<Block>, x: Block)
    requires LiveSame(a, b) && LivePlus(b, c, x)
    ensures LivePlus(a, c, x)
  {
  }

  // mm_free removes one live block and touches no other.
  lemma {:induction false} FreedLive(h: Heap, i: nat)
    requires Good(h) && i < |h.blocks| && h.blocks[i].alloc
    ensures LiveMinus(h.blocks, Freed(h, i).blocks, h.blocks[i])
  {
    var b := Block(h.blocks[i].ptr, h.blocks[i].size, false);
    var g := Recut(h, i, 1, [b]);
    MarkedLive(h, i);
    FreedGood(h, i);
    hide Good, Recut, Coalesced, LiveMinus, LiveSame;
    CoalescedLive(g, i);
    LiveMinusSame(h.blocks, g.blocks, Coalesced(g, i).blocks, h.blocks[i]);
  }

  // The block freed, before it is coalesced.
  lemma MarkedLive(h: Heap, i: nat)
    requires Good(h) && i < |h.blocks| && h.blocks[i].alloc
    ensures var b := Block(h.blocks[i].ptr, h.blocks[i].size, false);
      LiveMinus(h.blocks, Recut(h, i, 1, [b]).blocks, h.blocks[i])
  {
    var b := Block(h.blocks[i].ptr, h.blocks[i].size, false);
    RunOf(h.blocks, i, 1, h.blocks[i..i + 1]);
    ReplaceMembers(h.blocks, FIRST_BLOCK, h.brk, i, 1, [b]);
    hide Good, Recut, Replace, Partial;
    assert h.blocks[i] in h.blocks;
  }

  lemma LiveMinusSame(a: seq<Block>, b: seq<Block>, c: seq<Block>, x: Block)
    requires LiveMinus(a, b, x) && LiveSame(b, c)
    ensures LiveMinus(a, c, x)
  {
  }

  // One live block of the same address instead of another.
  ghost predicate LiveResized(bs: seq<Block>, bs': seq<Block>, x: Block, y: Block) {
    && x.alloc && x in bs && y.alloc && y.ptr == x.ptr
    && forall b: Block :: b.alloc ==> (b in bs' <==> (b in bs && b != x) || b == y)
  }

  lemma ShrunkLive(h: Heap, i: nat, asize: int)
    requires Good(h) && i < |h.blocks| && h.blocks[i].alloc && OkSize(asize) && asize <= h.blocks[i].size
    ensures var b, r := h.blocks[i], h.blocks[i].size - asize;
      LiveResized(h.blocks, Shrunk(h, i, asize).blocks, b, Block(b.ptr, if r < 16 then b.size else asize, true))
  {
    var b := h.blocks[i];
    var cut := Trim(b.ptr, b.size, asize);
    RunOf(h.blocks, i, 1, h.blocks[i..i + 1]);
    ReplaceMembers(h.blocks, FIRST_BLOCK, h.brk, i, 1, cut);
    TrimMembers(b.ptr, b.size, asize);
    hide Good, Recut, Replace, Trim;
    assert h.blocks[i] in h.blocks;
  }

  lemma AbsorbedLive(h: Heap, i: nat, asize: int)
    requires Good(h) && i < |h.blocks| && h.blocks[i].alloc && OkSize(asize) && CanAbsorb(h, i, asize)
    ensures var b, total := h.blocks[i], h.blocks[i].size + h.blocks[i + 1].size;
      LiveResized(h.blocks, Absorbed(h, i, asize).blocks, b,
                  Block(b.ptr, if total - asize < 16 then total else asize, true))
  {
    var b, nx := h.blocks[i], h.blocks[i + 1];
    var cut := Trim(b.ptr, b.size + nx.size, asize);
    RunOf(h.blocks, i, 2, h.blocks[i..i + 2]);
    ReplaceMembers(h.blocks, FIRST_BLOCK, h.brk, i, 2, cut);
    TrimMembers(b.ptr, b.size + nx.size, asize);
    hide Good, Recut, Replace, Trim;
    assert h.blocks[i] in h.blocks;
  }

  lemma TrimMembers(ptr: int, size: int, asize: int)
    ensures forall x: Block :: x.alloc ==>
      (x in Trim(ptr, size, asize) <==> x == Block(ptr, if size - asize < 16 then size else asize, true))
  {
  }
}
