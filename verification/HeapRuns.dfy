// Runs of the allocator: what every sequence of legal calls keeps.
module HeapRuns {
  import opened Words
  import opened MemLib
  import opened HeapModel
  import opened HeapOps
  import opened HeapProofs
  import opened HeapLive

  // The heap, and the last requested size of every live payload, by address.
  datatype Sys = Sys(heap: Heap, req: map<int, int>)

  datatype Call =
    | MallocCall(size: Word)
    | FreeCall(ptr: int)
    | ReallocCall(ptr: int, size: Word)

  // What the allocator demands of its client.
  ghost predicate Legal(s: Sys, c: Call) {
    match c
    case MallocCall(size) => size + 15 < WORD_LIMIT
    case FreeCall(ptr) => ptr in s.req
    case ReallocCall(ptr, size) => size + 15 < WORD_LIMIT && (ptr == 0 || ptr in s.req)
  }

  function AfterMalloc(s: Sys, size: Word): (Sys, int) {
    var (g, p) := Malloc(s.heap, size);
    (Sys(g, if p == 0 then s.req else s.req[p := size]), p)
  }

  function AfterFree(s: Sys, ptr: int): Sys {
    var i := IndexOf(s.heap.blocks, ptr);
    if i < |s.heap.blocks| then Sys(Freed(s.heap, i), s.req - {ptr}) else s
  }

  function AfterRealloc(s: Sys, ptr: int, size: Word): (Sys, int) {
    var i := IndexOf(s.heap.blocks, ptr);
    if ptr == 0 then AfterMalloc(s, size)
    else if size == 0 then (AfterFree(s, ptr), 0)
    else if i == |s.heap.blocks| then (s, 0)
    else
      var (g, p) := Realloc(s.heap, i, size);
      (Sys(g, if p == 0 then s.req else (s.req - {ptr})[p := size]), p)
  }

  function Step(s: Sys, c: Call): Sys {
    match c
    case MallocCall(size) => AfterMalloc(s, size).0
    case FreeCall(ptr) => AfterFree(s, ptr)
    case ReallocCall(ptr, size) => AfterRealloc(s, ptr, size).0
  }

  function Start(): Sys { Sys(Initial(), map[]) }

  // ---------------------------------------------------------- the invariant

  // A live block holds its request and both tags, and wastes at most 16 bytes.
  ghost predicate Snug(b: Block, size: int) {
    1 <= size && size + 15 < WORD_LIMIT && AdjMalloc(size) <= b.size <= AdjMalloc(size) + 16
  }

  ghost predicate LiveAt(h: Heap, ptr: int) {
    var i := IndexOf(h.blocks, ptr); i < |h.blocks| && h.blocks[i].alloc
  }

  ghost predicate Inv(s: Sys) {
    && Good(s.heap)
    && (forall b :: b in s.heap.blocks && b.alloc ==> b.ptr in s.req && Snug(b, s.req[b.ptr]))
    && (forall p :: p in s.req ==> LiveAt(s.heap, p))
  }

  lemma MemberLiveAt(h: Heap, b: Block)
    requires Good(h) && b in h.blocks && b.alloc
    ensures LiveAt(h, b.ptr) && h.blocks[IndexOf(h.blocks, b.ptr)] == b
  {
    IndexOfMember(h, b);
  }

  // Blocks of one heap with the same address are the same block.
  lemma SamePtr(h: Heap, b: Block, c: Block)
    requires Good(h) && b in h.blocks && c in h.blocks && b.ptr == c.ptr
    ensures b == c
  {
    TiledApart(h.blocks, FIRST_BLOCK, h.brk);
    TiledInside(h.blocks, FIRST_BLOCK, h.brk);
  }

  // Adding the live block x with its request.
  lemma InvPlus(s: Sys, g: Heap, x: Block, size: int)
    requires Inv(s) && Good(g) && LivePlus(s.heap.blocks, g.blocks, x) && Snug(x, size)
    ensures Inv(Sys(g, s.req[x.ptr := size]))
  {
    var req := s.req[x.ptr := size];
    hide Good, Snug;
    assert x in g.blocks;
    forall b | b in g.blocks && b.alloc
      ensures b.ptr in req && Snug(b, req[b.ptr])
    {
      if b != x && b.ptr == x.ptr { SamePtr(g, b, x); }
    }
    forall p | p in req
      ensures LiveAt(g, p)
    {
      if p == x.ptr {
        MemberLiveAt(g, x);
      } else {
        var b := s.heap.blocks[IndexOf(s.heap.blocks, p)];
        assert LiveAt(s.heap, p) && b in s.heap.blocks;
        MemberLiveAt(g, b);
      }
    }
  }

  // Removing the live block x.
  lemma InvMinus(s: Sys, g: Heap, x: Block)
    requires Inv(s) && Good(g) && LiveMinus(s.heap.blocks, g.blocks, x)
    ensures Inv(Sys(g, s.req - {x.ptr}))
  {
    var req := s.req - {x.ptr};
    hide Good, Snug;
    forall b | b in g.blocks && b.alloc
      ensures b.ptr in req && Snug(b, req[b.ptr])
    {
      if b.ptr == x.ptr { SamePtr(s.heap, b, x); }
    }
    forall p | p in req
      ensures LiveAt(g, p)
    {
      var b := s.heap.blocks[IndexOf(s.heap.blocks, p)];
      assert LiveAt(s.heap, p) && b in s.heap.blocks;
      MemberLiveAt(g, b);
    }
  }

  // Replacing the live block x by y at the same address.
  lemma InvResized(s: Sys, g: Heap, x: Block, y: Block, size: int)
    requires Inv(s) && Good(g) && LiveResized(s.heap.blocks, g.blocks, x, y) && Snug(y, size)
    ensures Inv(Sys(g, (s.req - {x.ptr})[y.ptr := size]))
  {
    var req := (s.req - {x.ptr})[y.ptr := size];
    hide Good, Snug;
    assert y in g.blocks;
    forall b | b in g.blocks && b.alloc
      ensures b.ptr in req && Snug(b, req[b.ptr])
    {
      if b != y && b.ptr == y.ptr { SamePtr(g, b, y); }
    }
    forall p | p in req
      ensures LiveAt(g, p)
    {
      if p == y.ptr {
        MemberLiveAt(g, y);
      } else {
        var b := s.heap.blocks[IndexOf(s.heap.blocks, p)];
        assert LiveAt(s.heap, p) && b in s.heap.blocks;
        MemberLiveAt(g, b);
      }
    }
  }

  lemma MallocInv(s: Sys, size: Word)
    requires Inv(s) && size + 15 < WORD_LIMIT
    ensures Inv(AfterMalloc(s, size).0)
  {
    MallocLive(s.heap, size);
    MallocGood(s.heap, size);
    var (g, p) := Malloc(s.heap, size);
    hide Good, Malloc, NewBlock, LivePlus, AdjMalloc;
    if p != 0 {
      InvPlus(s, g, NewBlock(s.heap, size), size);
    }
  }

  lemma FreeInv(s: Sys, ptr: int)
    requires Inv(s) && ptr in s.req
    ensures Inv(AfterFree(s, ptr))
  {
    assert LiveAt(s.heap, ptr);
    var i := IndexOf(s.heap.blocks, ptr);
    hide Good, Freed, LiveMinus;
    FreedLive(s.heap, i);
    FreedGood(s.heap, i);
    InvMinus(s, Freed(s.heap, i), s.heap.blocks[i]);
  }

  // mm_realloc in place: the block that stays at the address.
  lemma InPlaceInv(s: Sys, i: nat, size: Word)
    requires Inv(s) && i < |s.heap.blocks| && s.heap.blocks[i].alloc && size > 0 && size + 15 < WORD_LIMIT
    requires s.heap.blocks[i].size >= AdjMalloc(size) || CanAbsorb(s.heap, i, AdjMalloc(size))
    ensures var (g, p) := Realloc(s.heap, i, size);
      p == s.heap.blocks[i].ptr && Inv(Sys(g, (s.req - {p})[p := size]))
  {
    var h, b, asize := s.heap, s.heap.blocks[i], AdjMalloc(size);
    AdjOk(size);
    hide Good, Shrunk, Absorbed, LiveResized;
    if b.size >= asize {
      ShrunkGood(h, i, asize);
      ShrunkLive(h, i, asize);
      InvResized(s, Shrunk(h, i, asize), b, Block(b.ptr, if b.size - asize < 16 then b.size else asize, true), size);
    } else {
      var total := b.size + h.blocks[i + 1].size;
      AbsorbedGood(h, i, asize);
      AbsorbedLive(h, i, asize);
      InvResized(s, Absorbed(h, i, asize), b, Block(b.ptr, if total - asize < 16 then total else asize, true), size);
    }
  }

  lemma ReallocInv(s: Sys, ptr: int, size: Word)
    requires Inv(s) && ptr in s.req && size > 0 && size + 15 < WORD_LIMIT
    ensures Inv(AfterRealloc(s, ptr, size).0)
  {
    assert LiveAt(s.heap, ptr);
    hide Inv, Malloc, Freed, Good, Shrunk, Absorbed, OkSize;
    var h, i := s.heap, IndexOf(s.heap.blocks, ptr);
    var b := h.blocks[i];
    AdjOk(size);
    LiveReq(s, i);
    if b.size >= AdjMalloc(size) || CanAbsorb(h, i, AdjMalloc(size)) {
      InPlaceInv(s, i, size);
    } else {
      MallocInv(s, size);
      MoveInv(s, i, size);
    }
  }

  // After a successful mm_malloc an older live block is still found, elsewhere.
  lemma OldStays(h: Heap, size: Word, b: Block)
    requires Good(h) && size + 15 < WORD_LIMIT && b in h.blocks && b.alloc
    ensures var (g, p) := Malloc(h, size); var j := IndexOf(g.blocks, b.ptr);
      && (p == 0 ==> g == h)
      && (p != 0 ==> Good(g) && b.ptr != p && j < |g.blocks| && g.blocks[j] == b)
  {
    MallocLive(h, size);
    MallocGood(h, size);
    var (g, p) := Malloc(h, size);
    hide Good, Malloc, NewBlock;
    if p != 0 {
      assert b in g.blocks && NewBlock(h, size) in g.blocks;
      MemberLiveAt(g, b);
      if b.ptr == p { SamePtr(g, b, NewBlock(h, size)); }
    }
  }

  lemma LiveReq(s: Sys, i: nat)
    requires Inv(s) && i < |s.heap.blocks| && s.heap.blocks[i].alloc
    ensures Good(s.heap) && s.heap.blocks[i] in s.heap.blocks && s.heap.blocks[i].ptr in s.req
    ensures s.heap.blocks[i].ptr > 0
  {
    assert s.heap.blocks[i] in s.heap.blocks;
    BlockInside(s.heap, i);
  }

  // mm_realloc by moving is mm_malloc, then mm_free of the old block.
  lemma MoveInv(s: Sys, i: nat, size: Word)
    requires Inv(s) && i < |s.heap.blocks| && s.heap.blocks[i].alloc && size + 15 < WORD_LIMIT
    requires Inv(AfterMalloc(s, size).0)
    ensures var (g, p) := Malloc(s.heap, size);
      var ptr := s.heap.blocks[i].ptr; var j := IndexOf(g.blocks, ptr);
      && (p == 0 ==> g == s.heap)
      && (p != 0 ==> j < |g.blocks| && Inv(Sys(Freed(g, j), (s.req - {ptr})[p := size])))
  {
    hide Inv, Malloc, Freed, Good;
    var b := s.heap.blocks[i];
    LiveReq(s, i);
    OldStays(s.heap, size, b);
    var (g, p) := Malloc(s.heap, size);
    if p != 0 {
      FreeInv(Sys(g, s.req[p := size]), b.ptr);
      assert s.req[p := size] - {b.ptr} == (s.req - {b.ptr})[p := size];
    }
  }

  // Every legal call keeps the invariant.
  lemma StepInv(s: Sys, c: Call)
    requires Inv(s) && Legal(s, c)
    ensures Inv(Step(s, c))
  {
    hide Inv;
    match c
    case MallocCall(size) => MallocInv(s, size);
    case FreeCall(ptr) => FreeInv(s, ptr);
    case ReallocCall(ptr, size) =>
      NotNull(s);
      if ptr == 0 { MallocInv(s, size); }
      else if size == 0 { FreeInv(s, ptr); }
      else { ReallocInv(s, ptr, size); }
  }

  lemma NotNull(s: Sys)
    requires Inv(s)
    ensures 0 !in s.req
  {
    if 0 in s.req {
      assert LiveAt(s.heap, 0);
      BlockInside(s.heap, IndexOf(s.heap.blocks, 0));
    }
  }

  // ------------------------------------------------------------------- runs

  ghost predicate LegalRun(s: Sys, calls: seq<Call>)
    decreases |calls|
  {
    calls == [] || (Legal(s, calls[0]) && LegalRun(Step(s, calls[0]), calls[1..]))
  }

  function Run(s: Sys, calls: seq<Call>): Sys
    decreases |calls|
  {
    if calls == [] then s else Run(Step(s, calls[0]), calls[1..])
  }

  lemma StartInv()
    ensures Inv(Start())
  {
    InitialGood();
  }

  // Every legal run keeps the invariant.
  lemma {:induction false} RunInv(s: Sys, calls: seq<Call>)
    requires Inv(s) && LegalRun(s, calls)
    ensures Inv(Run(s, calls))
    decreases |calls|
  {
    hide Inv, Legal, Step;
    if calls != [] {
      StepInv(s, calls[0]);
      RunInv(Step(s, calls[0]), calls[1..]);
    }
  }

  // The payload bytes of a block.
  ghost predicate InPayload(b: Block, k: int) { b.ptr <= k < b.End() - 8 }

  // In every reachable state the blocks cover the heap from the prologue to the
  // epilogue, live payloads are aligned, inside the heap and pairwise disjoint,
  // each live block fits its request within 16 bytes, and the free list is the
  // free blocks, sorted, each once.
  lemma ReachableHeap(calls: seq<Call>)
    requires LegalRun(Start(), calls)
    ensures var s := Run(Start(), calls); var bs := s.heap.blocks;
      && Tiled(bs, FIRST_BLOCK, s.heap.brk)
      && (forall b :: b in bs ==> OkSize(b.size) && b.ptr % 8 == 0)
      && (forall b, c, k :: b in bs && c in bs && b.alloc && InPayload(b, k) && InPayload(c, k) ==> b == c)
      && (forall b :: b in bs && b.alloc ==> b.ptr in s.req && Snug(b, s.req[b.ptr]) && b.End() <= s.heap.brk)
      && (forall p :: p in s.req ==> exists b :: b in bs && b.alloc && b.ptr == p)
      && SortedBySize(s.heap.chain) && Distinct(s.heap.chain)
      && (forall b :: b in s.heap.chain <==> b in bs && !b.alloc)
  {
    StartInv();
    RunInv(Start(), calls);
    var s := Run(Start(), calls);
    hide Run, LegalRun, Snug;
    ShapeOfInv(s);
  }

  lemma ShapeOfInv(s: Sys)
    requires Inv(s)
    ensures var bs := s.heap.blocks;
      && (forall b :: b in bs ==> OkSize(b.size) && b.ptr % 8 == 0)
      && (forall b, c, k :: b in bs && c in bs && b.alloc && InPayload(b, k) && InPayload(c, k) ==> b == c)
      && (forall b :: b in bs && b.alloc ==> b.End() <= s.heap.brk)
      && (forall p :: p in s.req ==> exists b :: b in bs && b.alloc && b.ptr == p)
  {
    var bs, brk := s.heap.blocks, s.heap.brk;
    TiledApart(bs, FIRST_BLOCK, brk);
    TiledInside(bs, FIRST_BLOCK, brk);
    forall b | b in bs
      ensures b.ptr % 8 == 0
    {
      assert Mult8(FIRST_BLOCK) by { Mult8Mod(FIRST_BLOCK); }
      TiledAligned(bs, FIRST_BLOCK, brk, b);
      Mult8Mod(b.ptr);
    }
    forall p | p in s.req
      ensures exists b :: b in bs && b.alloc && b.ptr == p
    {
      assert LiveAt(s.heap, p);
      assert bs[IndexOf(bs, p)] in bs;
    }
  }

  // --------------------------------------------------------------- best fit

  // Some free block has asize bytes or more.
  ghost predicate Fits(h: Heap, asize: int) {
    exists b :: b in h.blocks && !b.alloc && b.size >= asize
  }

  // The extension of a miss: the adjusted size, at least 4096.
  function Growth(asize: int): int { if asize > 4096 then asize else 4096 }

  // The region of 20 MB has room for it.
  predicate HasRoom(h: Heap, asize: int) { h.brk + Growth(asize) <= 20 * 1024 * 1024 }

  lemma RoomFor(h: Heap, asize: int)
    requires Good(h) && OkSize(asize)
    ensures Max(asize, CHUNKSIZE) == Growth(asize) && OkSize(Growth(asize))
    ensures CanGrow(h, Growth(asize)) <==> HasRoom(h, asize)
  {
    ChunkOk(asize);
    TiledSpan(h.blocks, FIRST_BLOCK, h.brk);
  }

  // f is a smallest free block of at least asize bytes.
  ghost predicate Smallest(h: Heap, asize: int, f: Block) {
    && f in h.blocks && !f.alloc && f.size >= asize
    && forall b :: b in h.blocks && !b.alloc && b.size >= asize ==> f.size <= b.size
  }

  // On the sorted list the first large enough node is a smallest one.
  lemma FirstFit(h: Heap, asize: int)
    requires Good(h)
    ensures var k := InsertPos(h.chain, asize);
      if k < |h.chain| then Fits(h, asize) && Smallest(h, asize, h.chain[k]) else !Fits(h, asize)
  {
    var k := InsertPos(h.chain, asize);
    forall b | b in h.blocks && !b.alloc && b.size >= asize
      ensures k < |h.chain| && h.chain[k].size <= b.size
    {
      var j :| 0 <= j < |h.chain| && h.chain[j] == b;
      assert j >= k;
    }
    if k < |h.chain| {
      assert h.chain[k] in h.chain;
    }
  }

  // The search finds a smallest block among the free ones that are large
  // enough, and the heap is extended only when there is none.
  lemma BestFitSpot(h: Heap, asize: int)
    requires Good(h) && OkSize(asize)
    ensures var s := FindSpot(h, asize);
      if Fits(h, asize) then s.Spot? && s.heap == h && s.index < |h.blocks| && Smallest(h, asize, h.blocks[s.index])
      else if HasRoom(h, asize) then s.Spot? && s.heap.brk == h.brk + Growth(asize)
      else s == Nowhere
    ensures Fits(h, asize) <==> InsertPos(h.chain, asize) < |h.chain|
  {
    RoomFor(h, asize);
    FirstFit(h, asize);
    SpotWhere(h, asize);
    hide FindSpot, Fits, Smallest, HasRoom, Growth;
    if !Fits(h, asize) && HasRoom(h, asize) {
      GrownGood(h, Growth(asize));
    }
  }

  // ------------------------------------------------------------ conservation

  function SumSizes(bs: seq<Block>): int {
    if bs == [] then 0 else bs[0].size + SumSizes(bs[1..])
  }

  lemma {:induction false} TiledSum(bs: seq<Block>, lo: int, hi: int)
    requires Tiled(bs, lo, hi)
    ensures SumSizes(bs) == hi - lo
  {
    if bs != [] {
      TiledSum(bs[1..], lo + bs[0].size, hi);
    }
  }

  // The bytes by which one call extends the heap.
  ghost function Extension(s: Sys, size: Word): int {
    var asize := AdjMalloc(size);
    if size > 0 && !Fits(s.heap, asize) && HasRoom(s.heap, asize) then Growth(asize) else 0
  }

  // The bytes that block i can have where it is: its own, and those of a free next block.
  function Reach(bs: seq<Block>, i: nat): int
    requires i < |bs|
  {
    bs[i].size + if i + 1 < |bs| && !bs[i + 1].alloc then bs[i + 1].size else 0
  }

  ghost function CallExtension(s: Sys, c: Call): int {
    match c
    case MallocCall(size) => Extension(s, size)
    case FreeCall(_) => 0
    case ReallocCall(ptr, size) =>
      var i := IndexOf(s.heap.blocks, ptr);
      if ptr == 0 then Extension(s, size)
      else if size == 0 || i == |s.heap.blocks| || Reach(s.heap.blocks, i) >= AdjMalloc(size) then 0
      else Extension(s, size)
  }

  lemma MallocSum(s: Sys, size: Word)
    requires Inv(s) && size + 15 < WORD_LIMIT
    ensures Malloc(s.heap, size).0.brk == s.heap.brk + Extension(s, size)
  {
    hide Good, FindSpot, OkSize, AdjMalloc, Placed, Fits, HasRoom, Growth;
    if size > 0 {
      AdjOk(size);
      var asize := AdjMalloc(size);
      SpotGood(s.heap, asize);
      BestFitSpot(s.heap, asize);
      SpotWhere(s.heap, asize);
      var spot := FindSpot(s.heap, asize);
      if spot.Spot? {
        PlacedGood(spot.heap, spot.index, asize);
      }
    }
  }

  lemma FreeBrk(s: Sys, ptr: int)
    requires Inv(s) && ptr in s.req
    ensures AfterFree(s, ptr).heap.brk == s.heap.brk
  {
    assert LiveAt(s.heap, ptr);
    hide Good, Freed;
    FreedGood(s.heap, IndexOf(s.heap.blocks, ptr));
  }

  lemma ReallocBrk(s: Sys, ptr: int, size: Word)
    requires Inv(s) && ptr in s.req && size > 0 && size + 15 < WORD_LIMIT
    ensures AfterRealloc(s, ptr, size).0.heap.brk == s.heap.brk + CallExtension(s, ReallocCall(ptr, size))
  {
    assert LiveAt(s.heap, ptr) && Good(s.heap);
    hide Inv, Good, Malloc, Realloc, Extension, Reach, AdjMalloc, AdjRealloc;
    var h, i := s.heap, IndexOf(s.heap.blocks, ptr);
    LiveReq(s, i);
    if Reach(h.blocks, i) >= AdjMalloc(size) {
      StayBrk(h, i, size);
    } else {
      MoveBrk(s, i, size);
    }
  }

  // mm_realloc in place leaves the break alone.
  lemma StayBrk(h: Heap, i: nat, size: Word)
    requires Good(h) && i < |h.blocks| && h.blocks[i].alloc && size > 0 && size + 15 < WORD_LIMIT
    requires Reach(h.blocks, i) >= AdjMalloc(size)
    ensures Realloc(h, i, size).0.brk == h.brk
  {
    hide Good, Malloc, Freed, Shrunk, Absorbed, OkSize, AdjMalloc, AdjRealloc;
    AdjOk(size);
    NextSize(h, i);
    if h.blocks[i].size >= AdjRealloc(size) {
      ShrunkGood(h, i, AdjRealloc(size));
    } else {
      AbsorbedGood(h, i, AdjRealloc(size));
    }
  }

  lemma MoveBrk(s: Sys, i: nat, size: Word)
    requires Inv(s) && i < |s.heap.blocks| && s.heap.blocks[i].alloc && size > 0 && size + 15 < WORD_LIMIT
    requires Reach(s.heap.blocks, i) < AdjMalloc(size)
    ensures Realloc(s.heap, i, size).0.brk == s.heap.brk + Extension(s, size)
  {
    hide Inv, Good, Malloc, Freed, Shrunk, Absorbed, OkSize, Extension, AdjMalloc, AdjRealloc;
    var h := s.heap;
    AdjOk(size);
    LiveReq(s, i);
    NextSize(h, i);
    MallocSum(s, size);
    OldStays(h, size, h.blocks[i]);
    var (g, p) := Malloc(h, size);
    if p != 0 {
      FreedGood(g, IndexOf(g.blocks, h.blocks[i].ptr));
    }
  }

  lemma NextSize(h: Heap, i: nat)
    requires Good(h) && i < |h.blocks|
    ensures i + 1 < |h.blocks| ==> h.blocks[i].End() == h.blocks[i + 1].ptr && h.blocks[i + 1].size > 0
  {
    if i + 1 < |h.blocks| {
      InOrder(h, i);
    }
  }

  lemma StepBrk(s: Sys, c: Call)
    requires Inv(s) && Legal(s, c)
    ensures Step(s, c).heap.brk == s.heap.brk + CallExtension(s, c)
  {
    hide Inv, Extension, Malloc;
    match c
    case MallocCall(size) => MallocSum(s, size);
    case FreeCall(ptr) => FreeBrk(s, ptr);
    case ReallocCall(ptr, size) =>
      NotNull(s);
      if ptr == 0 { MallocSum(s, size); }
      else if size == 0 { FreeBrk(s, ptr); }
      else { ReallocBrk(s, ptr, size); }
  }

  // The regular blocks always fill the heap but for its first 16 bytes, and
  // only an extension changes their sum.
  lemma Conservation(s: Sys, c: Call)
    requires Inv(s) && Legal(s, c)
    ensures SumSizes(s.heap.blocks) == s.heap.brk - 16
    ensures SumSizes(Step(s, c).heap.blocks) == SumSizes(s.heap.blocks) + CallExtension(s, c)
  {
    StepInv(s, c);
    StepBrk(s, c);
    hide Step, CallExtension;
    TiledSum(s.heap.blocks, FIRST_BLOCK, s.heap.brk);
    TiledSum(Step(s, c).heap.blocks, FIRST_BLOCK, Step(s, c).heap.brk);
  }

  // The break never moves back and never passes the end of the region.
  lemma {:induction false} BreakMonotone(s: Sys, calls: seq<Call>)
    requires Inv(s) && LegalRun(s, calls)
    ensures s.heap.brk <= Run(s, calls).heap.brk <= MAX_HEAP
    decreases |calls|
  {
    assert s.heap.brk <= MAX_HEAP;
    hide Inv, Legal, Step, CallExtension;
    if calls != [] {
      StepInv(s, calls[0]);
      StepBrk(s, calls[0]);
      ExtensionSign(s, calls[0]);
      BreakMonotone(Step(s, calls[0]), calls[1..]);
    }
  }

  lemma ExtensionSign(s: Sys, c: Call)
    ensures CallExtension(s, c) >= 0
  {
    hide AdjMalloc, IndexOf, Fits, HasRoom;
  }

  // No free block is large enough and the region has no room for another.
  ghost predicate NoRoom(h: Heap, size: Word) {
    && (forall b :: b in h.blocks && !b.alloc ==> b.size < AdjMalloc(size))
    && h.brk + Growth(AdjMalloc(size)) > 20 * 1024 * 1024
  }

  // mm_malloc returns NULL exactly for size 0 and when there is no room.
  lemma MallocNull(h: Heap, size: Word)
    requires Good(h) && size + 15 < WORD_LIMIT
    ensures Malloc(h, size).1 == 0 <==> size == 0 || NoRoom(h, size)
  {
    hide Good, AdjMalloc, Placed, PlacedPtr, FindSpot, OkSize, Growth;
    if size > 0 {
      AdjOk(size);
      SpotGood(h, AdjMalloc(size));
      BestFitSpot(h, AdjMalloc(size));
      MallocLive(h, size);
      PlacedAt(h, size);
    }
  }

  lemma PlacedAt(h: Heap, size: Word)
    requires Good(h) && size + 15 < WORD_LIMIT && size > 0
    ensures FindSpot(h, AdjMalloc(size)).Spot? <==> Malloc(h, size).1 != 0
  {
    AdjOk(size);
    SpotGood(h, AdjMalloc(size));
    var s := FindSpot(h, AdjMalloc(size));
    if s.Spot? {
      hide Good, AdjMalloc, FindSpot, OkSize;
      PlacedLive(s.heap, s.index, AdjMalloc(size));
    }
  }

  // The block at i can neither stay, nor grow in place, nor move.
  ghost predicate CannotResize(h: Heap, i: nat, size: Word)
    requires i < |h.blocks|
  {
    Reach(h.blocks, i) < AdjMalloc(size) && NoRoom(h, size)
  }

  // mm_realloc to a positive size returns NULL exactly then.
  lemma ReallocNullWhen(s: Sys, i: nat, size: Word)
    requires Inv(s) && i < |s.heap.blocks| && s.heap.blocks[i].alloc && size > 0 && size + 15 < WORD_LIMIT
    ensures Realloc(s.heap, i, size).1 == 0 <==> CannotResize(s.heap, i, size)
  {
    hide Inv, Good, Malloc, Freed, Shrunk, Absorbed, AdjMalloc, AdjRealloc, NoRoom;
    AdjOk(size);
    LiveReq(s, i);
    NextSize(s.heap, i);
    MallocNull(s.heap, size);
    OldStays(s.heap, size, s.heap.blocks[i]);
  }

  // A call that returns NULL for want of memory changes nothing.
  lemma NullUnchanged(s: Sys, ptr: int, size: Word)
    requires Inv(s) && Legal(s, ReallocCall(ptr, size)) && size > 0
    ensures AfterMalloc(s, size).1 == 0 ==> AfterMalloc(s, size).0 == s
    ensures AfterRealloc(s, ptr, size).1 == 0 ==> AfterRealloc(s, ptr, size).0 == s
  {
    hide Good, Malloc, Realloc, NewBlock, LivePlus;
    MallocLive(s.heap, size);
    if ptr != 0 {
      assert LiveAt(s.heap, ptr);
      ReallocNull(s, IndexOf(s.heap.blocks, ptr), size);
    }
  }

  lemma ReallocNull(s: Sys, i: nat, size: Word)
    requires Inv(s) && i < |s.heap.blocks| && s.heap.blocks[i].alloc && size > 0 && size + 15 < WORD_LIMIT
    ensures Realloc(s.heap, i, size).1 == 0 ==> Realloc(s.heap, i, size).0 == s.heap
  {
    hide Inv, Good, Malloc, Freed, Shrunk, Absorbed, CanAbsorb, AdjRealloc;
    LiveReq(s, i);
    OldStays(s.heap, size, s.heap.blocks[i]);
  }

  // ------------------------------------------------------------- a small run

  lemma TwoCalls(s: Sys, c: Call, d: Call)
    ensures LegalRun(s, [c, d]) <==> Legal(s, c) && Legal(Step(s, c), d)
    ensures Run(s, [c, d]) == Step(Step(s, c), d)
  {
    hide Legal, Step;
    var t := Step(s, c);
    assert [c, d][1..] == [d] && [d][1..] == [];
    assert LegalRun(t, [d]) <==> Legal(t, d) && LegalRun(Step(t, d), []);
    assert Run(t, [d]) == Run(Step(t, d), []) == Step(t, d);
  }

  // The first mm_malloc(24) takes the low end of the initial block.
  lemma FirstMalloc()
    ensures var (s, p) := AfterMalloc(Start(), 24);
      && s.heap.blocks == [Block(16, 32, true), Block(48, 32, false)]
      && s.req == map[16 := 24] && p == 16
  {
    assert AdjMalloc(24) == 32 by { AdjAgree(24); Mult8Mod(32); }
    FirstSpot();
    FirstPlaced(Initial());
    hide AdjMalloc, FindSpot, Placed, Initial;
  }

  lemma FirstSpot()
    ensures Initial().blocks == [Block(16, 64, false)] && FindSpot(Initial(), 32) == Spot(Initial(), 0)
  {
    var b, h := Block(16, 64, false), Initial();
    assert Inserted([], b) == [b];
    assert h == Heap(80, [b], [b]);
    hide Initial, Grown, GrownAt, CanGrow, Inserted;
    assert InsertPos([b], 32) == 0 && IndexOf([b], 16) == 0;
  }

  lemma FirstPlaced(h: Heap)
    requires h.blocks == [Block(16, 64, false)]
    ensures Placed(h, 0, 32).blocks == [Block(16, 32, true), Block(48, 32, false)]
    ensures PlacedPtr(h.blocks[0], 32) == 16
  {
    hide Removed, Inserted;
    assert Cut(h.blocks[0], 32) == [Block(16, 32, true), Block(48, 32, false)];
  }

  // mm_realloc to 8 then shrinks that block in place.
  lemma FirstResize(s: Sys)
    requires s.heap.blocks == [Block(16, 32, true), Block(48, 32, false)]
    ensures AdjRealloc(8) == 16
    ensures AfterRealloc(s, 16, 8) == (Sys(Shrunk(s.heap, 0, 16), (s.req - {16})[16 := 8]), 16)
  {
    assert IndexOf(s.heap.blocks, 16) == 0;
    hide Shrunk;
  }
}
