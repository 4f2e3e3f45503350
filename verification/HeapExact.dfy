// What mm_malloc, mm_free and mm_realloc do, block by block and written out with
// the sizes of the source: an account of the heap before and after, against
// which the functions of HeapOps are proved.
module HeapExact {
  import opened Words
  import opened MemLib
  import opened HeapModel
  import opened HeapOps
  import opened HeapProofs
  import opened HeapLive
  import opened HeapRuns

  // bs' is bs with [lo, hi) made up of the blocks of mid; every other block stays.
  ghost predicate Rewritten(bs: seq<Block>, lo: int, hi: int, mid: seq<Block>, bs': seq<Block>) {
    forall x :: x in bs' <==> x in mid || (x in bs && (x.End() <= lo || hi <= x.ptr))
  }

  lemma ReplacedExactly(bs: seq<Block>, lo: int, hi: int, i: nat, n: nat, mid: seq<Block>)
    requires Tiled(bs, lo, hi) && n >= 1 && i + n <= |bs|
    ensures Rewritten(bs, bs[i].ptr, bs[i + n - 1].End(), mid, Replace(bs, i, n, mid))
  {
    ReplaceMembers(bs, lo, hi, i, n, mid);
    TiledOrder(bs, lo, hi);
    TiledInside(bs, lo, hi);
    hide Tiled, Replace;
    forall x | x in bs
      ensures x !in bs[i..i + n] <==> x.End() <= bs[i].ptr || bs[i + n - 1].End() <= x.ptr
    {
      if x in bs[i..i + n] {
        RunInside(bs, lo, hi, i, n, x);
      } else {
        OutsideRun(bs, lo, hi, i, n, mid, x);
      }
    }
  }

  lemma RunInside(bs: seq<Block>, lo: int, hi: int, i: nat, n: nat, x: Block)
    requires Tiled(bs, lo, hi) && n >= 1 && i + n <= |bs| && x in bs[i..i + n]
    ensures bs[i].ptr <= x.ptr < x.End() <= bs[i + n - 1].End()
  {
    var k :| 0 <= k < n && bs[i..i + n][k] == x;
    TiledOrder(bs, lo, hi);
    TiledInside(bs, lo, hi);
    assert bs[i + k] == x && bs[i] in bs && bs[i + n - 1] in bs;
  }

  // ------------------------------------------------------- coalesce, mm_free

  // Whether block i exists and is free.
  ghost predicate IsFree(bs: seq<Block>, i: int) { 0 <= i < |bs| && !bs[i].alloc }

  // The free block that takes the place of block i when it is free: from the
  // block before to the block after, as far as those are free.
  ghost function FreeSpan(bs: seq<Block>, i: nat): (b: Block)
    requires i < |bs|
  {
    var lo := if IsFree(bs, i - 1) then bs[i - 1].ptr else bs[i].ptr;
    var hi := if IsFree(bs, i + 1) then bs[i + 1].End() else bs[i].End();
    Block(lo, hi - lo, false)
  }

  ghost predicate Joined(bs: seq<Block>, i: nat, bs': seq<Block>)
    requires i < |bs|
  {
    var m := FreeSpan(bs, i);
    Rewritten(bs, m.ptr, m.End(), [m], bs')
  }

  // coalesce joins the block with its free neighbours and touches nothing else.
  lemma CoalescedExactly(h: Heap, i: nat)
    requires Good(h) && FreeAt(h.blocks, i)
    ensures Joined(h.blocks, i, Coalesced(h, i).blocks) && Coalesced(h, i).brk == h.brk
    ensures var j := CoalescedAt(h, i);
      j < |Coalesced(h, i).blocks| && Coalesced(h, i).blocks[j] == FreeSpan(h.blocks, i)
  {
    hide Partial, Recut, Removed, Replace, Rewritten;
    var bs := h.blocks;
    if IsFree(bs, i - 1) {
      if IsFree(bs, i + 1) {
        MergedExactly(h, Unlisted(Unlisted(Unlisted(h, bs[i]), bs[i - 1]), bs[i + 1]), i - 1, 3);
      } else {
        MergedExactly(h, Unlisted(Unlisted(h, bs[i]), bs[i - 1]), i - 1, 2);
      }
    } else if IsFree(bs, i + 1) {
      MergedExactly(h, Unlisted(Unlisted(h, bs[i]), bs[i + 1]), i, 2);
    } else {
      AloneExactly(h, i);
    }
  }

  lemma MergedExactly(h: Heap, g: Heap, i: nat, n: nat)
    requires Good(h) && n >= 1 && i + n <= |h.blocks| && g.blocks == h.blocks && g.brk == h.brk
    ensures var m := Block(h.blocks[i].ptr, h.blocks[i + n - 1].End() - h.blocks[i].ptr, false);
      && Rewritten(h.blocks, m.ptr, m.End(), [m], Merged(g, i, n).blocks)
      && Merged(g, i, n).brk == h.brk && i < |Merged(g, i, n).blocks| && Merged(g, i, n).blocks[i] == m
  {
    hide Rewritten, Replace, Recut;
    var m := Block(h.blocks[i].ptr, h.blocks[i + n - 1].End() - h.blocks[i].ptr, false);
    ReplacedExactly(h.blocks, FIRST_BLOCK, h.brk, i, n, [m]);
  }

  lemma AloneExactly(h: Heap, i: nat)
    requires Good(h) && FreeAt(h.blocks, i)
    ensures Rewritten(h.blocks, h.blocks[i].ptr, h.blocks[i].End(), [h.blocks[i]], h.blocks)
  {
    var b := h.blocks[i];
    ReplacedExactly(h.blocks, FIRST_BLOCK, h.brk, i, 1, [b]);
    assert Replace(h.blocks, i, 1, [b]) == h.blocks;
    hide Rewritten, Good;
  }

  // mm_free turns the block, with its free neighbours, into one free block, and
  // touches nothing else.
  lemma FreedExactly(h: Heap, i: nat)
    requires Good(h) && i < |h.blocks| && h.blocks[i].alloc
    ensures Joined(h.blocks, i, Freed(h, i).blocks) && Freed(h, i).brk == h.brk
  {
    var b := Block(h.blocks[i].ptr, h.blocks[i].size, false);
    var g := Recut(h, i, 1, [b]);
    FreedGood(h, i);
    BlockInside(h, i);
    ReplacedExactly(h.blocks, FIRST_BLOCK, h.brk, i, 1, [b]);
    CoalescedExactly(g, i);
    SameSpan(h, i, b);
    hide Good, Coalesced, Recut;
    assert FreeSpan(g.blocks, i).ptr <= b.ptr < b.End() <= FreeSpan(g.blocks, i).End();
  }

  lemma SameSpan(h: Heap, i: nat, b: Block)
    requires Good(h) && i < |h.blocks| && b == Block(h.blocks[i].ptr, h.blocks[i].size, false)
    ensures var bs := Replace(h.blocks, i, 1, [b]);
      && i < |bs| && FreeSpan(bs, i) == FreeSpan(h.blocks, i)
      && FreeSpan(bs, i).ptr <= b.ptr && b.End() <= FreeSpan(bs, i).End()
  {
    if i > 0 { InOrder(h, i - 1); }
    if i + 1 < |h.blocks| { InOrder(h, i); }
    hide Good;
    var bs := Replace(h.blocks, i, 1, [b]);
    assert bs[i] == b;
    assert i > 0 ==> bs[i - 1] == h.blocks[i - 1];
    assert i + 1 < |h.blocks| ==> bs[i + 1] == h.blocks[i + 1];
  }

  // ------------------------------------------------------------- extend_heap

  // The free block that an extension by n bytes ends in.
  ghost function Tail(h: Heap, n: int): Block {
    var k := |h.blocks| - 1;
    var lo := if IsFree(h.blocks, k) then h.blocks[k].ptr else h.brk;
    Block(lo, h.brk + n - lo, false)
  }

  // extend_heap adds n bytes at the end, joined with a free last block.
  lemma GrownExactly(h: Heap, n: int)
    requires Good(h) && OkSize(n) && h.brk + n <= MAX_HEAP
    ensures var g, j, f := Grown(h, n), GrownAt(h, n), Tail(h, n);
      && g.brk == h.brk + n && j < |g.blocks| && g.blocks[j] == f
      && Rewritten(h.blocks, f.ptr, f.End(), [f], g.blocks)
  {
    var b, e, k := Block(h.brk, n, false), Extended(h, n), |h.blocks|;
    ExtendedGood(h, n);
    CoalescedExactly(e, k);
    TailSpan(h, n);
    TiledInside(h.blocks, FIRST_BLOCK, h.brk);
    hide Good, Coalesced, CoalescedAt, Tiled, Inserted;
    assert forall x :: x in e.blocks <==> x in h.blocks || x == b;
  }

  lemma TailSpan(h: Heap, n: int)
    requires Good(h) && n > 0
    ensures FreeSpan(Extended(h, n).blocks, |h.blocks|) == Tail(h, n)
    ensures Tail(h, n).ptr <= h.brk
  {
    TiledSpan(h.blocks, FIRST_BLOCK, h.brk);
    if h.blocks != [] {
      BlockInside(h, |h.blocks| - 1);
    }
    hide Good, Tiled, Inserted;
    var bs := Extended(h, n).blocks;
    assert bs[|h.blocks|] == Block(h.brk, n, false);
    assert |h.blocks| > 0 ==> bs[|h.blocks| - 1] == h.blocks[|h.blocks| - 1];
  }

  // --------------------------------------------------------------- mm_malloc

  // Where a request of size bytes goes in the free block f, and what becomes of f.
  ghost predicate Carved(f: Block, size: Word, p: int, cut: seq<Block>) {
    var asize := AdjMalloc(size);
    var r := f.size - asize;
    if r <= 16 then p == f.ptr && cut == [Block(f.ptr, f.size, true)]
    else if size >= 89 then p == f.End() - asize && cut == [Block(f.ptr, r, false), Block(p, asize, true)]
    else p == f.ptr && cut == [Block(p, asize, true), Block(p + asize, r, false)]
  }

  // mm_malloc: nothing without room; else it carves a smallest free block that is
  // large enough, or the end of the heap when there is none.
  ghost predicate MallocEffect(h: Heap, size: Word, g: Heap, p: int, f: Block, cut: seq<Block>) {
    var asize := AdjMalloc(size);
    var fits := Fits(h, asize);
    if size == 0 || (!fits && !HasRoom(h, asize)) then p == 0 && g == h
    else
      && (if fits then Smallest(h, asize, f) && g.brk == h.brk
          else f == Tail(h, Growth(asize)) && g.brk == h.brk + Growth(asize))
      && Carved(f, size, p, cut) && Rewritten(h.blocks, f.ptr, f.End(), cut, g.blocks)
  }

  // An adjusted size of 100 bytes or more is a request of 89 or more.
  lemma HundredFrom89(size: Word)
    requires size >= 1 && size + 15 < WORD_LIMIT
    ensures AdjMalloc(size) >= 100 <==> size >= 89
  {
    AdjAgree(size);
    var a := AdjMalloc(size);
    hide AdjMalloc;
    assert a == 8 * (a / 8);
  }

  lemma CarvedExactly(f: Block, size: Word)
    requires size >= 1 && size + 15 < WORD_LIMIT
    ensures Carved(f, size, PlacedPtr(f, AdjMalloc(size)), Cut(f, AdjMalloc(size)))
  {
    HundredFrom89(size);
    hide AdjMalloc;
  }

  // place in block i of h.
  lemma PlacedExactly(h: Heap, i: nat, size: Word)
    requires Good(h) && i < |h.blocks| && size >= 1 && size + 15 < WORD_LIMIT
    ensures var f, asize := h.blocks[i], AdjMalloc(size);
      && Placed(h, i, asize).brk == h.brk
      && Carved(f, size, PlacedPtr(f, asize), Cut(f, asize))
      && Rewritten(h.blocks, f.ptr, f.End(), Cut(f, asize), Placed(h, i, asize).blocks)
  {
    CarvedExactly(h.blocks[i], size);
    ReplacedExactly(h.blocks, FIRST_BLOCK, h.brk, i, 1, Cut(h.blocks[i], AdjMalloc(size)));
    hide AdjMalloc, Cut, PlacedPtr, Carved, Rewritten, Good, Removed;
  }

  // The free block mm_malloc chooses or makes.
  lemma SpotExactly(h: Heap, size: Word)
    requires Good(h) && size >= 1 && size + 15 < WORD_LIMIT
    ensures var asize := AdjMalloc(size); var s := FindSpot(h, asize);
      && (Fits(h, asize) ==> s.Spot? && s.heap == h && s.index < |h.blocks| && Smallest(h, asize, h.blocks[s.index]))
      && (!Fits(h, asize) ==> (s.Spot? <==> HasRoom(h, asize)))
      && (!Fits(h, asize) && s.Spot? ==>
            var f := Tail(h, Growth(asize));
            && Good(s.heap) && s.heap.brk == h.brk + Growth(asize)
            && s.index < |s.heap.blocks| && s.heap.blocks[s.index] == f
            && Rewritten(h.blocks, f.ptr, f.End(), [f], s.heap.blocks))
  {
    var asize := AdjMalloc(size);
    AdjOk(size);
    BestFitSpot(h, asize);
    SpotWhere(h, asize);
    RoomFor(h, asize);
    hide AdjMalloc, FindSpot, Rewritten, Tail;
    if !Fits(h, asize) && CanGrow(h, Growth(asize)) {
      MissWhere(h, asize);
      GrownGood(h, Growth(asize));
      GrownExactly(h, Growth(asize));
    }
  }

  lemma MissWhere(h: Heap, asize: int)
    requires Good(h) && OkSize(asize) && !Fits(h, asize) && CanGrow(h, Growth(asize))
    ensures FindSpot(h, asize) == Spot(Grown(h, Growth(asize)), GrownAt(h, Growth(asize)))
  {
    var k := InsertPos(h.chain, asize);
    assert forall j :: 0 <= j < |h.chain| ==> h.chain[j] in h.chain && h.chain[j].size < asize;
    hide Grown, GrownAt;
  }

  // What mm_malloc does once it has a block.
  lemma SpotCarved(h: Heap, size: Word)
    requires Good(h) && size >= 1 && size + 15 < WORD_LIMIT && FindSpot(h, AdjMalloc(size)).Spot?
    ensures var asize := AdjMalloc(size); var s := FindSpot(h, asize);
      s.index < |s.heap.blocks| && var f := s.heap.blocks[s.index]; var g := Placed(s.heap, s.index, asize);
      && g.brk == s.heap.brk && Carved(f, size, PlacedPtr(f, asize), Cut(f, asize))
      && Rewritten(h.blocks, f.ptr, f.End(), Cut(f, asize), g.blocks)
  {
    hide AdjMalloc, FindSpot, Cut, PlacedPtr, Carved, Good, Placed, Fits, Smallest, Rewritten;
    var asize := AdjMalloc(size);
    var s := FindSpot(h, asize);
    SpotExactly(h, size);
    var f := s.heap.blocks[s.index];
    PlacedExactly(s.heap, s.index, size);
    if !Fits(h, asize) {
      TailSize(h, Growth(asize));
      RewrittenTwice(h.blocks, f, s.heap.blocks, Cut(f, asize), Placed(s.heap, s.index, asize).blocks);
    }
  }

  lemma TailSize(h: Heap, n: int)
    requires Good(h) && n > 0
    ensures Tail(h, n).size > 0
  {
    TailSpan(h, n);
    hide Good;
  }

  lemma MallocExactly(h: Heap, size: Word) returns (f: Block, cut: seq<Block>)
    requires Good(h) && size + 15 < WORD_LIMIT
    ensures var (g, p) := Malloc(h, size); MallocEffect(h, size, g, p, f, cut)
  {
    hide AdjMalloc, FindSpot, Cut, PlacedPtr, Carved, Good, Placed, Fits, Smallest, Tail, Rewritten;
    f, cut := Block(0, 0, true), [];
    if size > 0 {
      var asize := AdjMalloc(size);
      SpotExactly(h, size);
      var s := FindSpot(h, asize);
      if s.Spot? {
        SpotCarved(h, size);
        f, cut := s.heap.blocks[s.index], Cut(s.heap.blocks[s.index], asize);
      }
    }
  }

  // Making a free block and then carving it is one rewriting.
  lemma RewrittenTwice(a: seq<Block>, f: Block, b: seq<Block>, cut: seq<Block>, c: seq<Block>)
    requires Rewritten(a, f.ptr, f.End(), [f], b) && Rewritten(b, f.ptr, f.End(), cut, c) && f.size > 0
    ensures Rewritten(a, f.ptr, f.End(), cut, c)
  {
  }

  // -------------------------------------------------------------- mm_realloc

  // What becomes of size bytes at ptr when asize of them are kept.
  ghost function Trimmed(ptr: int, size: int, asize: int): seq<Block> {
    if size - asize >= 16 then [Block(ptr, asize, true), Block(ptr + asize, size - asize, false)]
    else [Block(ptr, size, true)]
  }

  // mm_realloc in place: in its own bytes if they are enough, else with those of a
  // free next block if they are.
  ghost predicate InPlaceEffect(h: Heap, i: nat, size: Word, g: Heap, p: int)
    requires i < |h.blocks|
  {
    var b, asize := h.blocks[i], AdjMalloc(size);
    var n := if b.size >= asize then b.size else Reach(h.blocks, i);
    p == b.ptr && g.brk == h.brk && Rewritten(h.blocks, b.ptr, b.ptr + n, Trimmed(b.ptr, n, asize), g.blocks)
  }

  // mm_realloc by moving: mm_malloc gives m and p, and block i, now at j, is freed.
  ghost predicate MoveEffect(h: Heap, i: nat, size: Word, g: Heap, p: int, m: Heap, j: nat, f: Block, cut: seq<Block>)
    requires i < |h.blocks|
  {
    && p != h.blocks[i].ptr && MallocEffect(h, size, m, p, f, cut)
    && if p == 0 then g == h
       else j < |m.blocks| && m.blocks[j] == h.blocks[i] && Joined(m.blocks, j, g.blocks) && g.brk == m.brk
  }

  // mm_realloc keeps the address exactly when the block, or the block and a free
  // next one, are large enough.
  ghost predicate ReallocEffect(h: Heap, i: nat, size: Word, g: Heap, p: int)
    requires i < |h.blocks|
  {
    if Reach(h.blocks, i) >= AdjMalloc(size) then InPlaceEffect(h, i, size, g, p)
    else exists m, j, f, cut :: MoveEffect(h, i, size, g, p, m, j, f, cut)
  }

  lemma ReallocExactly(h: Heap, i: nat, size: Word)
    requires Good(h) && i < |h.blocks| && h.blocks[i].alloc && size >= 1 && size + 15 < WORD_LIMIT
    ensures var (g, p) := Realloc(h, i, size); ReallocEffect(h, i, size, g, p)
  {
    hide Good, Malloc, Freed, Shrunk, Absorbed, AdjMalloc, AdjRealloc, Joined, Rewritten, MallocEffect;
    AdjOk(size);
    var b, asize := h.blocks[i], AdjMalloc(size);
    NextSize(h, i);
    if b.size >= asize {
      ShrunkExactly(h, i, asize);
    } else if Reach(h.blocks, i) >= asize {
      AbsorbedExactly(h, i, asize);
    } else {
      MovedExactly(h, i, size);
    }
  }

  lemma ShrunkExactly(h: Heap, i: nat, asize: int)
    requires Good(h) && i < |h.blocks|
    ensures var b, g := h.blocks[i], Shrunk(h, i, asize);
      g.brk == h.brk && Rewritten(h.blocks, b.ptr, b.End(), Trimmed(b.ptr, b.size, asize), g.blocks)
  {
    var b := h.blocks[i];
    ReplacedExactly(h.blocks, FIRST_BLOCK, h.brk, i, 1, Trim(b.ptr, b.size, asize));
    hide Good, Rewritten, Replace;
  }

  lemma AbsorbedExactly(h: Heap, i: nat, asize: int)
    requires Good(h) && i + 1 < |h.blocks| && CanAbsorb(h, i, asize)
    ensures var b, g, n := h.blocks[i], Absorbed(h, i, asize), h.blocks[i].size + h.blocks[i + 1].size;
      g.brk == h.brk && Rewritten(h.blocks, b.ptr, b.ptr + n, Trimmed(b.ptr, n, asize), g.blocks)
  {
    hide Rewritten, Replace, Removed, Recut, Trim, Trimmed;
    var b, n := h.blocks[i], h.blocks[i].size + h.blocks[i + 1].size;
    NextSize(h, i);
    ReplacedExactly(h.blocks, FIRST_BLOCK, h.brk, i, 2, Trim(b.ptr, n, asize));
    TrimIs(b.ptr, n, asize);
  }

  lemma TrimIs(ptr: int, size: int, asize: int)
    ensures Trim(ptr, size, asize) == Trimmed(ptr, size, asize)
  {
  }

  lemma MovedExactly(h: Heap, i: nat, size: Word)
    requires Good(h) && i < |h.blocks| && h.blocks[i].alloc && size >= 1 && size + 15 < WORD_LIMIT
    requires h.blocks[i].size < AdjMalloc(size) && !CanAbsorb(h, i, AdjMalloc(size))
    ensures var (g, p) := Realloc(h, i, size);
      exists m, j, f, cut :: MoveEffect(h, i, size, g, p, m, j, f, cut)
  {
    hide Good, Malloc, Freed, Shrunk, Absorbed, AdjMalloc, AdjRealloc, CanAbsorb, Joined, MallocEffect;
    AdjOk(size);
    LivePtr(h, i);
    OldStays(h, size, h.blocks[i]);
    var f, cut := MallocExactly(h, size);
    var (m, p) := Malloc(h, size);
    var j := IndexOf(m.blocks, h.blocks[i].ptr);
    if p != 0 {
      FreedExactly(m, j);
    }
    assert MoveEffect(h, i, size, Realloc(h, i, size).0, p, m, j, f, cut);
  }

  lemma LivePtr(h: Heap, i: nat)
    requires Good(h) && i < |h.blocks|
    ensures h.blocks[i] in h.blocks && h.blocks[i].ptr > 0
  {
    BlockInside(h, i);
  }
}
