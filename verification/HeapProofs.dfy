// Every operation keeps the heap good.
module HeapProofs {
  import opened Words
  import opened MemLib
  import opened HeapModel
  import opened HeapOps

  // The run i .. i + n - 1 is off the list; every other free block is on it.
  ghost predicate ListedOutside(h: Heap, i: nat, n: nat)
    requires i + n <= |h.blocks|
  {
    && (forall b :: b in h.blocks[i..i + n] ==> b !in h.chain)
    && (forall b :: b in h.blocks && !b.alloc && b !in h.blocks[i..i + n] ==> b in h.chain)
  }

  // A listed block lies apart from every block cut from an unlisted run.
  lemma CutFresh(h: Heap, i: nat, n: nat, cut: seq<Block>)
    requires Partial(h) && n >= 1 && i + n <= |h.blocks| && ListedOutside(h, i, n)
    requires Tiled(cut, h.blocks[i].ptr, h.blocks[i + n - 1].End())
    ensures forall b :: b in cut ==> b !in h.chain
    ensures forall b :: b in h.chain ==> b in Replace(h.blocks, i, n, cut)
  {
    TiledInside(cut, h.blocks[i].ptr, h.blocks[i + n - 1].End());
    TiledInside(h.blocks, FIRST_BLOCK, h.brk);
    forall b | b in h.chain
      ensures b !in cut && b in Replace(h.blocks, i, n, cut)
    {
      OutsideRun(h.blocks, FIRST_BLOCK, h.brk, i, n, cut, b);
    }
  }

  lemma ListingSorted(c: seq<Block>, b: Block)
    requires SortedBySize(c) && Distinct(c) && b !in c
    ensures SortedBySize(Listing(c, b)) && Distinct(Listing(c, b))
    ensures forall x :: x in Listing(c, b) <==> x in c || (x == b && !b.alloc)
  {
    InsertedSorted(c, b);
    InsertedMembers(c, b);
  }

  // The list after a run is cut up anew: sorted, and holding the new free blocks too.
  lemma RecutList(c: seq<Block>, cut: seq<Block>, d: seq<Block>)
    requires SortedBySize(c) && Distinct(c) && 1 <= |cut| <= 2
    requires cut[0] !in c && (|cut| == 2 ==> cut[1] !in c && cut[1] != cut[0])
    requires d == if |cut| == 2 then Listing(Listing(c, cut[0]), cut[1]) else Listing(c, cut[0])
    ensures SortedBySize(d) && Distinct(d)
    ensures forall b :: b in d <==>
      b in c || (b == cut[0] && !b.alloc) || (|cut| == 2 && b == cut[1] && !b.alloc)
  {
    ListingSorted(c, cut[0]);
    var e := Listing(c, cut[0]);
    hide Listing, SortedBySize, Distinct;
    if |cut| == 2 {
      ListingSorted(e, cut[1]);
    }
  }

  lemma RecutParts(h: Heap, i: nat, n: nat, cut: seq<Block>)
    requires Partial(h) && n >= 1 && i + n <= |h.blocks| && ListedOutside(h, i, n)
    requires 1 <= |cut| <= 2 && Tiled(cut, h.blocks[i].ptr, h.blocks[i + n - 1].End())
    ensures var g := Recut(h, i, n, cut);
      && SortedBySize(g.chain) && Distinct(g.chain)
      && (forall b :: b in g.chain <==> b in h.chain || (b in cut && !b.alloc))
  {
    CutPieces(h, i, n, cut);
    assert SortedBySize(h.chain) && Distinct(h.chain);
    hide Replace, Tiled, SortedBySize, Distinct, ListedOutside, Partial, Listing;
    RecutList(h.chain, cut, Recut(h, i, n, cut).chain);
  }

  lemma CutPieces(h: Heap, i: nat, n: nat, cut: seq<Block>)
    requires Partial(h) && n >= 1 && i + n <= |h.blocks| && ListedOutside(h, i, n)
    requires 1 <= |cut| <= 2 && Tiled(cut, h.blocks[i].ptr, h.blocks[i + n - 1].End())
    ensures cut[0] !in h.chain && (|cut| == 2 ==> cut[1] !in h.chain && cut[1] != cut[0])
    ensures forall b :: b in cut <==> b == cut[0] || (|cut| == 2 && b == cut[1])
  {
    CutFresh(h, i, n, cut);
    hide Partial, ListedOutside;
    assert cut[0] in cut;
    if |cut| == 2 {
      assert cut[1] in cut;
      TiledOrder(cut, h.blocks[i].ptr, h.blocks[i + n - 1].End());
    }
  }

  // Cutting up an unlisted run anew gives a good heap.
  lemma {:induction false} RecutGood(h: Heap, i: nat, n: nat, cut: seq<Block>)
    requires Partial(h) && n >= 1 && i + n <= |h.blocks| && ListedOutside(h, i, n)
    requires 1 <= |cut| <= 2 && Tiled(cut, h.blocks[i].ptr, h.blocks[i + n - 1].End())
    ensures Good(Recut(h, i, n, cut))
  {
    TiledReplace(h.blocks, FIRST_BLOCK, h.brk, i, n, cut);
    CutFresh(h, i, n, cut);
    ReplaceMembers(h.blocks, FIRST_BLOCK, h.brk, i, n, cut);
    RecutParts(h, i, n, cut);
    hide Recut, Replace, Tiled, SortedBySize, Distinct;
  }

  lemma UnlistedPartial(h: Heap, b: Block)
    requires Partial(h) && b in h.chain
    ensures Partial(Unlisted(h, b))
    ensures forall x :: x in Unlisted(h, b).chain <==> x in h.chain && x != b
  {
    RemovedSorted(h.chain, b);
    RemovedMembers(h.chain, b);
  }

  lemma BlockInside(h: Heap, i: nat)
    requires Partial(h) && i < |h.blocks|
    ensures FIRST_BLOCK <= h.blocks[i].ptr && h.blocks[i].End() <= h.brk && OkSize(h.blocks[i].size)
    ensures i + 1 < |h.blocks| ==> h.blocks[i].End() == h.blocks[i + 1].ptr
    ensures Mult8(h.blocks[i].ptr)
  {
    assert h.blocks[i] in h.blocks;
    TiledInside(h.blocks, FIRST_BLOCK, h.brk);
    TiledOrder(h.blocks, FIRST_BLOCK, h.brk);
    TiledAligned(h.blocks, FIRST_BLOCK, h.brk, h.blocks[i]);
  }

  lemma SpanSize(h: Heap, i: nat, n: nat)
    requires Partial(h) && n >= 1 && i + n <= |h.blocks|
    ensures OkSize(h.blocks[i + n - 1].End() - h.blocks[i].ptr)
  {
    var lo, hi := h.blocks[i], h.blocks[i + n - 1];
    BlockInside(h, i);
    BlockInside(h, i + n - 1);
    Mult8Sum(hi.ptr, hi.size);
    assert lo.ptr <= hi.ptr by { TiledOrder(h.blocks, FIRST_BLOCK, h.brk); }
    Mult8Sum(hi.End(), lo.ptr);
  }

  lemma MergedGood(h: Heap, i: nat, n: nat)
    requires Partial(h) && 2 <= n <= 3 && i + n <= |h.blocks| && ListedOutside(h, i, n)
    ensures Good(Merged(h, i, n))
  {
    hide Tiled, Recut, Good, Partial, ListedOutside;
    var m := Block(h.blocks[i].ptr, h.blocks[i + n - 1].End() - h.blocks[i].ptr, false);
    SpanSize(h, i, n);
    OneTiled(m);
    RecutGood(h, i, n, [m]);
  }

  lemma RunOf(bs: seq<Block>, i: nat, n: nat, run: seq<Block>)
    requires 1 <= n <= 3 && i + n <= |bs| && run == bs[i..i + n]
    ensures forall b :: b in run <==> b == bs[i] || (n > 1 && b == bs[i + 1]) || (n > 2 && b == bs[i + 2])
  {
    assert run == [bs[i]] + (if n > 1 then [bs[i + 1]] else []) + (if n > 2 then [bs[i + 2]] else []);
  }

  // Taking two neighbouring free blocks off the list, in either order, and merging them.
  lemma MergeTwoGood(h: Heap, i: nat, x: Block, y: Block)
    requires Good(h) && FreeAt(h.blocks, i) && FreeAt(h.blocks, i + 1)
    requires (x == h.blocks[i] && y == h.blocks[i + 1]) || (x == h.blocks[i + 1] && y == h.blocks[i])
    ensures Good(Merged(Unlisted(Unlisted(h, x), y), i, 2))
  {
    assert x in h.chain && y in h.chain;
    assert x != y by { TiledApart(h.blocks, FIRST_BLOCK, h.brk); }
    UnlistedPartial(h, x);
    UnlistedPartial(Unlisted(h, x), y);
    RunOf(h.blocks, i, 2, h.blocks[i..i + 2]);
    MergedGood(Unlisted(Unlisted(h, x), y), i, 2);
  }

  lemma MergeThreeGood(h: Heap, i: nat)
    requires Good(h) && FreeAt(h.blocks, i) && FreeAt(h.blocks, i + 1) && FreeAt(h.blocks, i + 2)
    ensures var g := Unlisted(Unlisted(h, h.blocks[i + 1]), h.blocks[i]);
      Good(Merged(Unlisted(g, h.blocks[i + 2]), i, 3))
  {
    var bs := h.blocks;
    var x, y, z := bs[i], bs[i + 1], bs[i + 2];
    assert x in h.chain && y in h.chain && z in h.chain;
    assert x != y && y != z && x != z by { TiledApart(bs, FIRST_BLOCK, h.brk); }
    UnlistedPartial(h, y);
    UnlistedPartial(Unlisted(h, y), x);
    UnlistedPartial(Unlisted(Unlisted(h, y), x), z);
    RunOf(bs, i, 3, bs[i..i + 3]);
    MergedGood(Unlisted(Unlisted(Unlisted(h, y), x), z), i, 3);
  }

  // coalesce keeps the heap good.
  lemma CoalescedGood(h: Heap, i: nat)
    requires Good(h) && FreeAt(h.blocks, i)
    ensures Good(Coalesced(h, i)) && Coalesced(h, i).brk == h.brk
  {
    hide Good, Merged, Recut;
    if FreeAt(h.blocks, i - 1) {
      if FreeAt(h.blocks, i + 1) {
        MergeThreeGood(h, i - 1);
      } else {
        MergeTwoGood(h, i - 1, h.blocks[i], h.blocks[i - 1]);
      }
    } else if FreeAt(h.blocks, i + 1) {
      MergeTwoGood(h, i, h.blocks[i], h.blocks[i + 1]);
    }
  }

  // coalesce returns a free block that starts no later and ends no earlier.
  lemma CoalescedFree(h: Heap, i: nat)
    requires Partial(h) && FreeAt(h.blocks, i)
    ensures var g, j := Coalesced(h, i), CoalescedAt(h, i);
      FreeAt(g.blocks, j) && g.blocks[j].ptr <= h.blocks[i].ptr && h.blocks[i].End() <= g.blocks[j].End()
  {
    hide Partial, Recut, Removed, Merged, Replace, OkSize, Mult8;
    BlockInside(h, i);
    if i > 0 { InOrder(h, i - 1); }
    if i + 1 < |h.blocks| { InOrder(h, i); }
  }

  lemma InOrder(h: Heap, i: nat)
    requires Partial(h) && i + 1 < |h.blocks|
    ensures h.blocks[i].ptr < h.blocks[i].End() == h.blocks[i + 1].ptr < h.blocks[i + 1].End()
  {
    BlockInside(h, i);
    BlockInside(h, i + 1);
    hide Partial;
  }

  // ------------------------------------------------------------ place

  lemma CutTiled(b: Block, asize: int)
    requires OkSize(b.size) && OkSize(asize) && asize <= b.size
    ensures Tiled(Cut(b, asize), b.ptr, b.End())
    ensures b.size - asize > 16 ==> OkSize(b.size - asize)
  {
    Mult8Sum(b.size, asize);
    var cut := Cut(b, asize);
    if |cut| == 2 { TwoTiled(cut[0], cut[1]); } else { OneTiled(cut[0]); }
  }

  lemma PlacedGood(h: Heap, i: nat, asize: int)
    requires Good(h) && FreeAt(h.blocks, i) && OkSize(asize) && asize <= h.blocks[i].size
    ensures Good(Placed(h, i, asize)) && Placed(h, i, asize).brk == h.brk
  {
    var b := h.blocks[i];
    BlockInside(h, i);
    UnlistedPartial(h, b);
    RunOf(h.blocks, i, 1, h.blocks[i..i + 1]);
    CutTiled(b, asize);
    RecutGood(Unlisted(h, b), i, 1, Cut(b, asize));
  }

  // ------------------------------------------------------ extend_heap

  lemma {:induction false} TiledEnd(bs: seq<Block>, lo: int, hi: int)
    requires Tiled(bs, lo, hi) && Mult8(lo)
    ensures Mult8(hi)
  {
    if bs != [] {
      Mult8Sum(lo, bs[0].size);
      TiledEnd(bs[1..], lo + bs[0].size, hi);
    }
  }

  lemma BrkAligned(h: Heap)
    requires Partial(h)
    ensures Mult8(h.brk)
  {
    assert Mult8(FIRST_BLOCK) by { Mult8Mod(FIRST_BLOCK); }
    TiledEnd(h.blocks, FIRST_BLOCK, h.brk);
  }

  lemma NewUnlisted(h: Heap, n: int)
    requires Partial(h) && n > 0
    ensures Block(h.brk, n, false) !in h.chain
  {
    TiledInside(h.blocks, FIRST_BLOCK, h.brk);
  }

  lemma {:induction false} ExtendedGood(h: Heap, n: int)
    requires Good(h) && OkSize(n) && h.brk + n <= MAX_HEAP
    ensures Good(Extended(h, n)) && FreeAt(Extended(h, n).blocks, |h.blocks|)
  {
    hide Tiled, SortedBySize, Distinct, Inserted, Mult8;
    var b := Block(h.brk, n, false);
    NewUnlisted(h, n);
    OneTiled(b);
    TiledConcat(h.blocks, [b], FIRST_BLOCK, h.brk, h.brk + n);
    InsertedSorted(h.chain, b);
    InsertedMembers(h.chain, b);
  }

  lemma GrownGood(h: Heap, n: int)
    requires Good(h) && OkSize(n) && h.brk + n <= MAX_HEAP
    ensures Good(Grown(h, n)) && Grown(h, n).brk == h.brk + n
    ensures FreeAt(Grown(h, n).blocks, GrownAt(h, n)) && Grown(h, n).blocks[GrownAt(h, n)].size >= n
  {
    ExtendedGood(h, n);
    assert Extended(h, n).blocks[|h.blocks|] == Block(h.brk, n, false);
    hide Good, Extended, Coalesced, CoalescedAt;
    CoalescedGood(Extended(h, n), |h.blocks|);
    CoalescedFree(Extended(h, n), |h.blocks|);
  }

  lemma InitialGood()
    ensures Good(Initial()) && Initial().brk == 80 && Initial().blocks == [Block(16, 64, false)]
  {
    assert Mult8(64) by { Mult8Mod(64); }
    ExtendedGood(Heap(FIRST_BLOCK, [], []), INITCHUNKSIZE);
  }

  // A block of a tiling is found by its payload address.
  lemma IndexOfBlock(h: Heap, i: nat)
    requires Partial(h) && i < |h.blocks|
    ensures IndexOf(h.blocks, h.blocks[i].ptr) == i
  {
    TiledOrder(h.blocks, FIRST_BLOCK, h.brk);
    TiledInside(h.blocks, FIRST_BLOCK, h.brk);
    forall j | 0 <= j < i
      ensures h.blocks[j].ptr != h.blocks[i].ptr
    {
      assert h.blocks[j] in h.blocks && h.blocks[j].End() <= h.blocks[i].ptr;
    }
    assert IndexOf(h.blocks, h.blocks[i].ptr) <= i;
  }

  lemma IndexOfMember(h: Heap, b: Block)
    requires Partial(h) && b in h.blocks
    ensures var i := IndexOf(h.blocks, b.ptr); i < |h.blocks| && h.blocks[i] == b
  {
    var i :| 0 <= i < |h.blocks| && h.blocks[i] == b;
    IndexOfBlock(h, i);
  }

  // mm_malloc places in a free block of a good heap, large enough.
  lemma SpotGood(h: Heap, asize: int)
    requires Good(h) && OkSize(asize)
    ensures var s := FindSpot(h, asize);
      s.Spot? ==> Good(s.heap) && FreeAt(s.heap.blocks, s.index) && s.heap.blocks[s.index].size >= asize
  {
    var k, n := InsertPos(h.chain, asize), Max(asize, CHUNKSIZE);
    if k < |h.chain| {
      assert h.chain[k] in h.chain;
      IndexOfMember(h, h.chain[k]);
    } else if CanGrow(h, n) {
      ChunkOk(asize);
      GrownGood(h, n);
    }
  }

  lemma ChunkOk(asize: int)
    requires OkSize(asize)
    ensures OkSize(Max(asize, CHUNKSIZE)) && Max(asize, CHUNKSIZE) + 7 < WORD_LIMIT
  {
    Mult8Mod(asize);
    Mult8Mod(4096);
  }

  // The spot is the listed block's, or the new one's; no block starts at NULL.
  lemma SpotWhere(h: Heap, asize: int)
    requires Good(h) && OkSize(asize)
    ensures var s, k, n := FindSpot(h, asize), InsertPos(h.chain, asize), Max(asize, CHUNKSIZE);
      && (k < |h.chain| ==> s.Spot? && s.heap == h && s.index < |h.blocks| && h.blocks[s.index] == h.chain[k])
      && (k < |h.chain| ==> h.chain[k].ptr > 0)
      && (k == |h.chain| && CanGrow(h, n) ==> s == Spot(Grown(h, n), GrownAt(h, n)))
      && (k == |h.chain| && !CanGrow(h, n) ==> s == Nowhere)
      && (s.Spot? ==> s.index < |s.heap.blocks| && s.heap.blocks[s.index].ptr > 0)
      && (s.Spot? ==> PlacedPtr(s.heap.blocks[s.index], asize) > 0)
  {
    var k := InsertPos(h.chain, asize);
    var s := FindSpot(h, asize);
    if k < |h.chain| {
      assert h.chain[k] in h.chain;
      IndexOfMember(h, h.chain[k]);
    }
    SpotGood(h, asize);
    if s.Spot? {
      BlockInside(s.heap, s.index);
    }
  }

  lemma MallocGood(h: Heap, size: Word)
    requires Good(h) && size + 15 < WORD_LIMIT
    ensures Good(Malloc(h, size).0)
  {
    if size > 0 {
      AdjOk(size);
      SpotGood(h, AdjMalloc(size));
      var s := FindSpot(h, AdjMalloc(size));
      if s.Spot? {
        PlacedGood(s.heap, s.index, AdjMalloc(size));
      }
    }
  }

  lemma AdjOk(size: Word)
    requires 1 <= size && size + 15 < WORD_LIMIT
    ensures OkSize(AdjMalloc(size)) && AdjRealloc(size) == AdjMalloc(size)
    ensures size + 8 <= AdjMalloc(size) <= size + 15
  {
    AdjAgree(size);
    Mult8Mod(AdjMalloc(size));
  }

  // ------------------------------------------------------------- free

  lemma RunOfOne(h: Heap, i: nat)
    requires Good(h) && i < |h.blocks| && h.blocks[i].alloc
    ensures ListedOutside(h, i, 1)
  {
    RunOf(h.blocks, i, 1, h.blocks[i..i + 1]);
  }

  lemma FreedGood(h: Heap, i: nat)
    requires Good(h) && i < |h.blocks| && h.blocks[i].alloc
    ensures var b := Block(h.blocks[i].ptr, h.blocks[i].size, false);
      Good(Recut(h, i, 1, [b])) && FreeAt(Recut(h, i, 1, [b]).blocks, i)
    ensures Good(Freed(h, i)) && Freed(h, i).brk == h.brk
  {
    var b := Block(h.blocks[i].ptr, h.blocks[i].size, false);
    BlockInside(h, i);
    RunOfOne(h, i);
    OneTiled(b);
    hide Tiled, Good, Partial, ListedOutside, Recut, Coalesced;
    RecutGood(h, i, 1, [b]);
    assert Replace(h.blocks, i, 1, [b])[i] == b;
    CoalescedGood(Recut(h, i, 1, [b]), i);
  }

  // ---------------------------------------------------------- realloc

  lemma TrimTiled(ptr: int, size: int, asize: int)
    requires OkSize(size) && OkSize(asize) && asize <= size
    ensures Tiled(Trim(ptr, size, asize), ptr, ptr + size)
  {
    Mult8Sum(size, asize);
    var cut := Trim(ptr, size, asize);
    if |cut| == 2 { TwoTiled(cut[0], cut[1]); } else { OneTiled(cut[0]); }
  }

  // mm_realloc splits a large enough block only for a remainder of MIN_BLOCK.
  lemma ShrunkCases(h: Heap, i: nat, asize: int)
    requires i < |h.blocks| && h.blocks[i].alloc
    ensures var b, r := h.blocks[i], h.blocks[i].size - asize;
      if r < MIN_BLOCK then Shrunk(h, i, asize) == h
      else Shrunk(h, i, asize) == Recut(h, i, 1, [Block(b.ptr, asize, true), Block(b.ptr + asize, r, false)])
  {
    assert Replace(h.blocks, i, 1, [h.blocks[i]]) == h.blocks;
  }

  lemma ShrunkGood(h: Heap, i: nat, asize: int)
    requires Good(h) && i < |h.blocks| && h.blocks[i].alloc && OkSize(asize) && asize <= h.blocks[i].size
    ensures Good(Shrunk(h, i, asize)) && Shrunk(h, i, asize).brk == h.brk
  {
    var b := h.blocks[i];
    BlockInside(h, i);
    RunOfOne(h, i);
    hide Tiled, Good, Partial, ListedOutside, Recut, Trim;
    TrimTiled(b.ptr, b.size, asize);
    RecutGood(h, i, 1, Trim(b.ptr, b.size, asize));
  }

  lemma AbsorbReady(h: Heap, i: nat)
    requires Good(h) && i < |h.blocks| && h.blocks[i].alloc && FreeAt(h.blocks, i + 1)
    ensures var b, nx := h.blocks[i], h.blocks[i + 1];
      && Partial(Unlisted(h, nx)) && ListedOutside(Unlisted(h, nx), i, 2)
      && OkSize(b.size + nx.size) && b.ptr + (b.size + nx.size) == nx.End()
  {
    SpanSize(h, i, 2);
    InOrder(h, i);
    AbsorbUnlisted(h, i);
    hide Good, Partial, ListedOutside, Unlisted, OkSize;
  }

  // The next block leaves the list, the current one was never on it.
  lemma AbsorbUnlisted(h: Heap, i: nat)
    requires Good(h) && i < |h.blocks| && h.blocks[i].alloc && FreeAt(h.blocks, i + 1)
    ensures Partial(Unlisted(h, h.blocks[i + 1])) && ListedOutside(Unlisted(h, h.blocks[i + 1]), i, 2)
  {
    assert h.blocks[i + 1] in h.chain;
    UnlistedPartial(h, h.blocks[i + 1]);
    RunOf(h.blocks, i, 2, h.blocks[i..i + 2]);
    hide Tiled, SortedBySize, Distinct, Removed;
  }

  lemma {:induction false} AbsorbedGood(h: Heap, i: nat, asize: int)
    requires Good(h) && i < |h.blocks| && h.blocks[i].alloc && OkSize(asize) && CanAbsorb(h, i, asize)
    ensures Good(Absorbed(h, i, asize)) && Absorbed(h, i, asize).brk == h.brk
  {
    hide Tiled, Good, Partial, ListedOutside, Recut, Trim;
    var b, nx := h.blocks[i], h.blocks[i + 1];
    AbsorbReady(h, i);
    TrimTiled(b.ptr, b.size + nx.size, asize);
    RecutGood(Unlisted(h, nx), i, 2, Trim(b.ptr, b.size + nx.size, asize));
  }
}
