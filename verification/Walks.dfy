// The two indexes as the code itself sees them: walking headers with the
// pointer macros, and following the links of the free list.
module Walks {
  import opened Words
  import opened MemLib
  import opened HeapModel
  import opened HeapOps
  import opened Layout
  import opened HeapRuns
  import opened Mm

  // NEXT_BLKP and PREV_BLKP on the words of memory.
  ghost function NextOf(w: Words32, bp: int): int { bp + SizeOf(At(w, bp - 4)) }

  ghost function PrevOf(w: Words32, bp: int): int { bp - SizeOf(At(w, bp - 8)) }

  ghost predicate FreeHeader(w: Words32, bp: int) { AllocOf(At(w, bp - 4)) == 0 }

  // The payloads met by walking headers from bp up to the first of size 0.
  ghost function Walk(w: Words32, bp: int, limit: int): seq<int>
    decreases limit - bp
  {
    if bp > limit || SizeOf(At(w, bp - 4)) == 0 then []
    else [bp] + Walk(w, NextOf(w, bp), limit)
  }

  // The nodes met by following next links from p, at most n.
  ghost function Follow(w: Words32, p: int, n: nat): seq<int>
    decreases n
  {
    if p == 0 || n == 0 then [] else [p] + Follow(w, At(w, p), n - 1)
  }

  ghost function Ptrs(bs: seq<Block>): (ps: seq<int>)
    ensures |ps| == |bs|
    ensures forall i :: 0 <= i < |bs| ==> ps[i] == bs[i].ptr
  {
    if bs == [] then [] else [bs[0].ptr] + Ptrs(bs[1..])
  }

  // One block, from its own words: header equals footer, the size is a
  // multiple of 8 and at least 16, and PREV_BLKP undoes NEXT_BLKP.
  ghost predicate SoundBlock(w: Words32, bp: int, next: int) {
    && bp % 8 == 0 && At(w, bp - 4) == At(w, next - 8)
    && NextOf(w, bp) == next && next - bp >= MIN_BLOCK && (next - bp) % 8 == 0
    && PrevOf(w, next) == bp
  }

  // The block after ps[i], or the break.
  ghost function After(ps: seq<int>, i: nat, brk: int): int { if i + 1 < |ps| then ps[i + 1] else brk }

  // Walking from the prologue meets blocks ps and then the epilogue at the break.
  ghost predicate Walkable(w: Words32, brk: int, ps: seq<int>) {
    && NextOf(w, 8) == FIRST_BLOCK && PrevOf(w, FIRST_BLOCK) == 8 && !FreeHeader(w, 8)
    && Walk(w, FIRST_BLOCK, brk) == ps
    && (forall i :: 0 <= i < |ps| ==> SoundBlock(w, ps[i], After(ps, i, brk)))
    && (ps == [] ==> brk == FIRST_BLOCK)
    && SizeOf(At(w, brk - 4)) == 0 && !FreeHeader(w, brk)
  }

  // The list from listp is c: finite, without repeats, doubly linked, sorted by size.
  ghost predicate Threaded(w: Words32, listp: int, c: seq<int>) {
    && (forall n: nat :: n >= |c| ==> Follow(w, listp, n) == c)
    && (forall i, j :: 0 <= i < j < |c| ==> InOrder(w, c[i], c[j]))
    && (forall i, j :: 0 <= i && j == i + 1 < |c| ==> Joined(w, c[i], c[j]))
    && (c != [] ==> At(w, c[0] + 4) == 0 && At(w, c[|c| - 1]) == 0)
  }

  ghost predicate InOrder(w: Words32, p: int, q: int) {
    p != q && NextOf(w, p) - p <= NextOf(w, q) - q
  }

  ghost predicate Joined(w: Words32, p: int, q: int) { At(w, p) == q && At(w, q + 4) == p }

  // Both indexes of the free blocks agree.
  ghost predicate Agree(w: Words32, listp: int, brk: int, ps: seq<int>, c: seq<int>) {
    && Walkable(w, brk, ps) && Threaded(w, listp, c)
    && forall p :: p in c <==> p in ps && FreeHeader(w, p)
  }

  // ------------------------------------------------------------------ proofs

  // What the macros read from the tags of a block.
  lemma BlockReads(w: Words32, b: Block)
    requires TaggedBlock(w, b) && OkTag(b)
    ensures NextOf(w, b.ptr) == b.End() && PrevOf(w, b.End()) == b.ptr
    ensures FreeHeader(w, b.ptr) <==> !b.alloc
    ensures At(w, b.ptr - 4) == At(w, b.End() - 8) && SizeOf(At(w, b.ptr - 4)) == b.size
  {
    TagPacked(b);
    hide SizeOf, AllocOf;
  }

  lemma OkTagOf(h: Heap, b: Block)
    requires Partial(h) && b in h.blocks
    ensures OkTag(b) && OkSize(b.size) && b.size % 8 == 0 && b.ptr % 8 == 0
  {
    TiledInside(h.blocks, FIRST_BLOCK, h.brk);
    assert Mult8(FIRST_BLOCK) by { Mult8Mod(FIRST_BLOCK); }
    TiledAligned(h.blocks, FIRST_BLOCK, h.brk, b);
    Mult8Mod(b.ptr);
    Mult8Mod(b.size);
  }

  lemma WalkStep(w: Words32, bs: seq<Block>, limit: int)
    requires bs != [] && TaggedBlock(w, bs[0]) && OkTag(bs[0]) && bs[0].size > 0 && bs[0].ptr <= limit
    ensures Walk(w, bs[0].ptr, limit) == [bs[0].ptr] + Walk(w, bs[0].End(), limit)
  {
    BlockReads(w, bs[0]);
    hide SizeOf, AllocOf;
  }

  // Walking headers over a tiling meets its blocks, in order.
  lemma {:induction false} WalkTiled(w: Words32, bs: seq<Block>, lo: int, brk: int)
    requires Tiled(bs, lo, brk) && Tagged(w, bs) && SizeOf(At(w, brk - 4)) == 0
    requires forall b :: b in bs ==> OkTag(b)
    ensures Walk(w, lo, brk) == Ptrs(bs)
  {
    hide SizeOf, TaggedBlock, OkTag, Walk, Ptrs, Tiled, At;
    if bs == [] {
      WalkNone(w, lo, brk);
    } else {
      TiledRest(bs, lo, brk);
      assert TaggedBlock(w, bs[0]) && OkTag(bs[0]);
      WalkStep(w, bs, brk);
      assert forall b :: b in bs[1..] ==> b in bs;
      WalkTiled(w, bs[1..], lo + bs[0].size, brk);
      PtrsFirst(bs);
    }
  }

  lemma WalkNone(w: Words32, lo: int, brk: int)
    requires Tiled([], lo, brk) && SizeOf(At(w, brk - 4)) == 0
    ensures Walk(w, lo, brk) == Ptrs([])
  {
    hide SizeOf;
  }

  lemma TiledRest(bs: seq<Block>, lo: int, hi: int)
    requires bs != [] && Tiled(bs, lo, hi)
    ensures bs[0] in bs && bs[0].ptr == lo && lo <= hi && bs[0].size > 0 && Tiled(bs[1..], bs[0].End(), hi)
  {
    TiledSpan(bs, lo, hi);
  }

  lemma PtrsFirst(bs: seq<Block>)
    requires bs != []
    ensures Ptrs(bs) == [bs[0].ptr] + Ptrs(bs[1..])
  {
  }

  lemma {:induction false} FollowChain(w: Words32, listp: int, c: seq<Block>, k: nat, n: nat)
    requires Linked(w, listp, c) && k <= |c| && n >= |c| - k
    requires forall b :: b in c ==> b.ptr != 0
    ensures Follow(w, NodeAt(c, k), n) == Ptrs(c[k..])
    decreases |c| - k
  {
    if k < |c| {
      assert LinkedNode(w, c, k) && c[k] in c;
      FollowChain(w, listp, c, k + 1, n - 1);
      assert c[k..][1..] == c[k + 1..];
    }
  }

  lemma PrologueReads(w: Words32, listp: int, h: Heap)
    requires Shape(w, listp, h)
    ensures NextOf(w, 8) == FIRST_BLOCK && PrevOf(w, FIRST_BLOCK) == 8 && !FreeHeader(w, 8)
    ensures SizeOf(At(w, h.brk - 4)) == 0 && !FreeHeader(w, h.brk)
  {
    assert SizeOf(PROLOGUE_TAG) == 8 && AllocOf(PROLOGUE_TAG) == 1;
    assert SizeOf(EPILOGUE_TAG) == 0 && AllocOf(EPILOGUE_TAG) == 1;
    hide SizeOf, AllocOf;
  }

  lemma BlockSound(w: Words32, listp: int, h: Heap, i: nat)
    requires Shape(w, listp, h) && i < |h.blocks|
    ensures SoundBlock(w, h.blocks[i].ptr, if i + 1 < |h.blocks| then h.blocks[i + 1].ptr else h.brk)
  {
    var b := h.blocks[i];
    assert TaggedBlock(w, b);
    OkTagOf(h, b);
    BlockReads(w, b);
    TiledOrder(h.blocks, FIRST_BLOCK, h.brk);
    TiledSpan(h.blocks, FIRST_BLOCK, h.brk);
    hide NextOf, PrevOf, Tiled, Tagged, Linked, Mult8;
  }

  lemma MakeWalkable(w: Words32, brk: int, ps: seq<int>)
    requires NextOf(w, 8) == FIRST_BLOCK && PrevOf(w, FIRST_BLOCK) == 8 && !FreeHeader(w, 8)
    requires Walk(w, FIRST_BLOCK, brk) == ps
    requires forall i :: 0 <= i < |ps| ==> SoundBlock(w, ps[i], After(ps, i, brk))
    requires ps == [] ==> brk == FIRST_BLOCK
    requires SizeOf(At(w, brk - 4)) == 0 && !FreeHeader(w, brk)
    ensures Walkable(w, brk, ps)
  {
  }

  lemma WalkShape(w: Words32, listp: int, h: Heap)
    requires Shape(w, listp, h)
    ensures Walk(w, FIRST_BLOCK, h.brk) == Ptrs(h.blocks) && (h.blocks == [] ==> h.brk == FIRST_BLOCK)
  {
    PrologueReads(w, listp, h);
    forall b | b in h.blocks
      ensures OkTag(b)
    {
      ShapeTag(w, listp, h, b);
    }
    WalkTiled(w, h.blocks, FIRST_BLOCK, h.brk);
  }

  lemma ShapeWalkable(w: Words32, listp: int, h: Heap)
    requires Shape(w, listp, h)
    ensures Walkable(w, h.brk, Ptrs(h.blocks))
  {
    hide Shape, SoundBlock, Walk, Ptrs, Walkable, NextOf, PrevOf, FreeHeader, SizeOf;
    var bs, ps := h.blocks, Ptrs(h.blocks);
    PrologueReads(w, listp, h);
    WalkShape(w, listp, h);
    forall i | 0 <= i < |ps|
      ensures SoundBlock(w, ps[i], After(ps, i, h.brk))
    {
      BlockSound(w, listp, h, i);
    }
    MakeWalkable(w, h.brk, ps);
  }

  lemma ShapeTag(w: Words32, listp: int, h: Heap, b: Block)
    requires Shape(w, listp, h) && b in h.blocks
    ensures OkTag(b) && NextOf(w, b.ptr) == b.ptr + b.size && TaggedBlock(w, b)
  {
    OkTagOf(h, b);
    BlockReads(w, b);
  }

  // What Shape says of two nodes of the list.
  lemma ChainNodes(w: Words32, listp: int, h: Heap, i: nat, j: nat)
    requires Shape(w, listp, h) && i <= j < |h.chain|
    ensures var x, y := h.chain[i], h.chain[j];
      && 0 < x.ptr && NextOf(w, x.ptr) == x.ptr + x.size && x.size <= y.size
      && LinkedNode(w, h.chain, i) && (i < j ==> x.ptr != y.ptr)
  {
    assert h.chain[i] in h.chain;
    ShapeTag(w, listp, h, h.chain[i]);
    NodesApart(h);
    hide NextOf, Tiled, Tagged;
  }

  lemma ThreadedEnds(w: Words32, listp: int, h: Heap, n: nat)
    requires Shape(w, listp, h) && n >= |h.chain|
    ensures Follow(w, listp, n) == Ptrs(h.chain)
  {
    forall b | b in h.chain
      ensures b.ptr != 0
    {
      var i :| 0 <= i < |h.chain| && h.chain[i] == b;
      ChainNodes(w, listp, h, i, i);
    }
    assert Linked(w, listp, h.chain) && listp == NodeAt(h.chain, 0);
    hide Shape, Linked, Follow, Ptrs;
    FollowChain(w, listp, h.chain, 0, n);
    assert h.chain[0..] == h.chain;
  }

  lemma ThreadedPair(w: Words32, listp: int, h: Heap, i: nat, j: nat)
    requires Shape(w, listp, h) && i < j < |h.chain|
    ensures var p, q := h.chain[i].ptr, h.chain[j].ptr;
      InOrder(w, p, q) && (j == i + 1 ==> Joined(w, p, q))
  {
    hide Shape, NextOf;
    ChainNodes(w, listp, h, i, j);
    ChainNodes(w, listp, h, j, j);
  }

  lemma ThreadedTips(w: Words32, listp: int, h: Heap)
    requires Shape(w, listp, h) && h.chain != []
    ensures At(w, h.chain[0].ptr + 4) == 0 && At(w, h.chain[|h.chain| - 1].ptr) == 0
  {
    hide Shape, NextOf;
    ChainNodes(w, listp, h, 0, 0);
    ChainNodes(w, listp, h, |h.chain| - 1, |h.chain| - 1);
  }

  lemma ShapeThreaded(w: Words32, listp: int, h: Heap)
    requires Shape(w, listp, h)
    ensures Threaded(w, listp, Ptrs(h.chain))
  {
    hide Shape, Follow, InOrder, Joined, Ptrs;
    var ps := Ptrs(h.chain);
    forall n: nat | n >= |ps|
      ensures Follow(w, listp, n) == ps
    {
      ThreadedEnds(w, listp, h, n);
    }
    forall i, j | 0 <= i < j < |ps|
      ensures InOrder(w, ps[i], ps[j]) && (j == i + 1 ==> Joined(w, ps[i], ps[j]))
    {
      ThreadedPair(w, listp, h, i, j);
    }
    if ps != [] {
      ThreadedTips(w, listp, h);
    }
  }

  // The header walk and the list name the same free blocks.
  lemma IndexAgreement(w: Words32, listp: int, h: Heap)
    requires Shape(w, listp, h) && Good(h)
    ensures Agree(w, listp, h.brk, Ptrs(h.blocks), Ptrs(h.chain))
  {
    ShapeWalkable(w, listp, h);
    ShapeThreaded(w, listp, h);
    var bs, c := h.blocks, h.chain;
    forall b | b in bs
      ensures FreeHeader(w, b.ptr) <==> !b.alloc
    {
      assert TaggedBlock(w, b);
      OkTagOf(h, b);
      BlockReads(w, b);
    }
    hide FreeHeader, Walkable, Threaded, Tagged, Linked, Tiled, Distinct, SortedBySize;
    forall p
      ensures p in Ptrs(c) <==> p in Ptrs(bs) && FreeHeader(w, p)
    {
      PtrsMember(c, p);
      PtrsMember(bs, p);
    }
  }

  lemma PtrsMember(bs: seq<Block>, p: int)
    ensures p in Ptrs(bs) <==> exists b :: b in bs && b.ptr == p
  {
    if b :| b in bs && b.ptr == p {
      var i :| 0 <= i < |bs| && bs[i] == b;
      assert Ptrs(bs)[i] == p;
    }
    if i :| 0 <= i < |bs| && Ptrs(bs)[i] == p {
      assert bs[i] in bs;
    }
  }

  // ---------------------------------------------------------- runs of calls

  // The real operations, driven by any legal sequence of calls on a fresh heap:
  // memory then represents the heap of the run, and its two indexes agree.
  method RunCalls(a: Allocator, calls: seq<Call>)
    requires a.mem.Valid() && a.mem.brk == 0 && LegalRun(Start(), calls)
    modifies a, a.mem, a.mem.data
    ensures a.Valid() && a.h == Run(Start(), calls).heap
    ensures exists ps, c :: Agree(a.mem.words, a.listp, a.mem.brk, ps, c)
  {
    var r := a.Init();
    ghost var s := Start();
    StartInv();
    hide Inv, Step, Legal;
    for k := 0 to |calls|
      invariant a.Valid() && a.h == s.heap && Inv(s)
      invariant LegalRun(s, calls[k..]) && Run(s, calls[k..]) == Run(Start(), calls)
    {
      assert calls[k..][0] == calls[k] && calls[k..][1..] == calls[k + 1..];
      StepInv(s, calls[k]);
      DoCall(a, s, calls[k]);
      s := Step(s, calls[k]);
    }
    assert calls[|calls|..] == [];
    IndexAgreement(a.mem.words, a.listp, a.h);
  }

  method DoCall(a: Allocator, ghost s: Sys, c: Call)
    requires a.Valid() && a.h == s.heap && Inv(s) && Legal(s, c)
    modifies a, a.mem, a.mem.data
    ensures a.Valid() && a.h == Step(s, c).heap
  {
    hide *;
    CallFacts(s, c);
    var p;
    match c
    case MallocCall(size) => p := a.Malloc(size);
    case FreeCall(ptr) => a.Free(IndexOf(s.heap.blocks, ptr), ptr);
    case ReallocCall(ptr, size) => p := a.Realloc(IndexOf(s.heap.blocks, ptr), ptr, size);
  }

  lemma CallFacts(s: Sys, c: Call)
    requires Inv(s) && Legal(s, c)
    ensures c.MallocCall? ==> c.size + 15 < WORD_LIMIT && Step(s, c).heap == HeapOps.Malloc(s.heap, c.size).0
    ensures !c.MallocCall? && c.ptr != 0 ==> var i := IndexOf(s.heap.blocks, c.ptr);
      i < |s.heap.blocks| && s.heap.blocks[i].alloc && s.heap.blocks[i].ptr == c.ptr > 0
    ensures c.FreeCall? ==> c.ptr != 0 && Step(s, c).heap == Freed(s.heap, IndexOf(s.heap.blocks, c.ptr))
    ensures c.ReallocCall? ==> c.size + 15 < WORD_LIMIT && var i := IndexOf(s.heap.blocks, c.ptr);
      Step(s, c).heap ==
        if c.ptr == 0 then HeapOps.Malloc(s.heap, c.size).0
        else if c.size == 0 then Freed(s.heap, i)
        else HeapOps.Realloc(s.heap, i, c.size).0
  {
    NotNull(s);
    if !c.MallocCall? && c.ptr != 0 {
      assert LiveAt(s.heap, c.ptr);
      LiveReq(s, IndexOf(s.heap.blocks, c.ptr));
    }
    hide Good, HeapOps.Malloc, HeapOps.Realloc, Freed;
  }
}
