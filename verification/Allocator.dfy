// mm.c: the allocator itself, over the simulated memory.
module Mm {
  import opened Words
  import opened MemLib
  import opened HeapModel
  import opened Layout
  import opened HeapOps
  import opened HeapProofs
  import opened HeapLive
  import opened HeapRuns
  import opened HeapExact

  class Allocator {
    const mem: Memory
    var listp: nat       // exp_listp
    ghost var h: Heap    // the heap that memory represents

    constructor (m: Memory)
      ensures mem == m && listp == 0
    {
      mem := m;
      listp := 0;
      h := Heap(0, [], []);
    }

    // Memory represents h; free blocks may be missing from the list.
    ghost predicate Shaped()
      reads this, mem, mem.data
    {
      mem.Valid() && h.brk == mem.brk && mem.brk >= FIRST_BLOCK && Shape(mem.words, listp, h)
    }

    // Between operations the list holds every free block.
    ghost predicate Valid()
      reads this, mem, mem.data
    {
      Shaped() && Good(h)
    }

    // GET_SIZE of the word at p, a tag of b.
    method GetSize(p: int, ghost b: Block) returns (s: nat)
      requires mem.Valid() && mem.WordSpot(p)
      requires At(mem.words, p) == Tag(b) && OkTag(b)
      ensures s == b.size
    {
      var v := mem.Get(p);
      TagPacked(b);
      s := SizeOf(v);
    }

    // GET_ALLOC of the word at p, a tag of b.
    method GetAlloc(p: int, ghost b: Block) returns (a: nat)
      requires mem.Valid() && mem.WordSpot(p)
      requires At(mem.words, p) == Tag(b) && OkTag(b)
      ensures a == if b.alloc then 1 else 0
    {
      var v := mem.Get(p);
      TagPacked(b);
      a := AllocOf(v);
    }

    // A listed node's header and links are as laid out.
    lemma NodeWords(k: nat)
      requires Shaped() && k < |h.chain|
      ensures BlockSpots(h.chain[k], mem.brk) && OkTag(h.chain[k])
      ensures At(mem.words, h.chain[k].ptr - 4) == Tag(h.chain[k])
      ensures At(mem.words, h.chain[k].ptr) == NodeAt(h.chain, k + 1)
      ensures At(mem.words, h.chain[k].ptr + 4) == NodeAt(h.chain, k - 1)
    {
      var b := h.chain[k];
      assert b in h.chain;
      SpotsOf(h, b);
      assert TaggedBlock(mem.words, b) && LinkedNode(mem.words, h.chain, k);
    }

    // exp_listp is the first node; NULL is no node.
    lemma ListHead()
      requires Shaped()
      ensures listp == NodeAt(h.chain, 0) && (listp == 0 <==> h.chain == [])
    {
      if h.chain != [] { NodeWords(0); }
    }

    // The walk of insert_node: past every listed block smaller than size.
    method FindPosition(size: nat) returns (prev: nat, cur: nat)
      requires Shaped()
      ensures var k := InsertPos(h.chain, size); prev == NodeAt(h.chain, k - 1) && cur == NodeAt(h.chain, k)
    {
      hide Shape;
      ListHead();
      cur, prev := listp, 0;
      ghost var k := 0;
      while cur != 0
        invariant 0 <= k <= InsertPos(h.chain, size)
        invariant cur == NodeAt(h.chain, k) && prev == NodeAt(h.chain, k - 1)
        invariant cur == 0 ==> k == |h.chain|
        decreases |h.chain| - k
      {
        NodeWords(k);
        var s := GetSize(cur - 4, h.chain[k]);
        if size <= s {
          break;
        }
        prev := cur;
        cur := mem.Get(cur);
        k := k + 1;
        if k < |h.chain| { NodeWords(k); }
      }
    }

    // Whether p can hold the links of a list node.
    ghost predicate LinkSpot(p: int)
      reads mem
    {
      Mult4(p) && Mult4(p + 4) && FIRST_BLOCK <= p && p + 16 <= mem.brk
    }

    // Only link words of the given nodes differ; 0 stands for no node.
    static ghost predicate LinksOnly(m: seq<Byte>, m': seq<Byte>, p: int, q: int, r: int) {
      |m| == |m'| && forall k :: (0 <= k < |m| && !(p != 0 && p <= k < p + 8) && !(q != 0 && q <= k < q + 8) &&
        !(r != 0 && r <= k < r + 8)) ==> m'[k] == m[k]
    }

    ghost predicate SpotsApart(p: int, q: int) { p + 16 <= q || q + 16 <= p }

    // The four ways insert_node links its node between prev and cur.
    method LinkNode(ptr: nat, prev: nat, cur: nat)
      requires mem.Valid() && LinkSpot(ptr)
      requires prev != 0 ==> LinkSpot(prev) && SpotsApart(prev, ptr)
      requires cur != 0 ==> LinkSpot(cur) && SpotsApart(cur, ptr)
      requires prev != 0 && cur != 0 ==> SpotsApart(prev, cur)
      modifies this`listp, mem`words, mem.data
      ensures mem.Valid()
      ensures forall q :: At(mem.words, q) == LinkWords(old(mem.words), ptr, prev, cur, q)
      ensures listp == if prev == 0 then ptr else old(listp)
      ensures LinksOnly(old(mem.data[..]), mem.data[..], ptr, prev, cur)
    {
      hide LinksOnly, LinkSpot, SpotsApart, Memory.Valid;
      if prev == 0 {
        LinkFirst(ptr, cur);
      } else {
        LinkBehind(ptr, prev, cur);
      }
    }

    // The node becomes the head of the list.
    method LinkFirst(ptr: nat, cur: nat)
      requires mem.Valid() && LinkSpot(ptr) && (cur != 0 ==> LinkSpot(cur) && SpotsApart(cur, ptr))
      modifies this`listp, mem`words, mem.data
      ensures mem.Valid() && listp == ptr
      ensures forall q :: At(mem.words, q) == LinkWords(old(mem.words), ptr, 0, cur, q)
      ensures LinksOnly(old(mem.data[..]), mem.data[..], ptr, 0, cur)
    {
      if cur != 0 {
        mem.Put(ptr, cur);
        mem.Put(cur + 4, ptr);
        mem.Put(ptr + 4, 0);
      } else {
        mem.Put(ptr, 0);
        mem.Put(ptr + 4, 0);
      }
      listp := ptr;
    }

    // The node follows prev, at the end of the list or before cur.
    method LinkBehind(ptr: nat, prev: nat, cur: nat)
      requires mem.Valid() && LinkSpot(ptr) && prev != 0 && LinkSpot(prev) && SpotsApart(prev, ptr)
      requires cur != 0 ==> LinkSpot(cur) && SpotsApart(cur, ptr) && SpotsApart(prev, cur)
      modifies mem`words, mem.data
      ensures mem.Valid()
      ensures forall q :: At(mem.words, q) == LinkWords(old(mem.words), ptr, prev, cur, q)
      ensures LinksOnly(old(mem.data[..]), mem.data[..], ptr, prev, cur)
    {
      if cur == 0 {
        mem.Put(ptr, 0);
        mem.Put(ptr + 4, prev);
        mem.Put(prev, ptr);
      } else {
        mem.Put(ptr, cur);
        mem.Put(ptr + 4, prev);
        mem.Put(prev, ptr);
        mem.Put(cur + 4, ptr);
      }
    }

    // Block b and the list nodes i and j have link words of their own.
    lemma ListSpots(b: Block, i: int, j: int)
      requires Shaped() && b in h.blocks && i != j
      requires 0 <= i < |h.chain| ==> h.chain[i] != b
      requires 0 <= j < |h.chain| ==> h.chain[j] != b
      ensures LinkSpot(b.ptr) && b.ptr > 0
      ensures 0 <= i < |h.chain| <==> NodeAt(h.chain, i) != 0
      ensures 0 <= j < |h.chain| <==> NodeAt(h.chain, j) != 0
      ensures var p, q := NodeAt(h.chain, i), NodeAt(h.chain, j);
        && (p != 0 ==> LinkSpot(p) && SpotsApart(p, b.ptr))
        && (q != 0 ==> LinkSpot(q) && SpotsApart(q, b.ptr))
        && (p != 0 && q != 0 ==> SpotsApart(p, q))
    {
      var x := if 0 <= i < |h.chain| then h.chain[i] else b;
      var y := if 0 <= j < |h.chain| then h.chain[j] else b;
      assert x in h.blocks && y in h.blocks;
      SpotsOf(h, b);
      SpotsOf(h, x);
      SpotsOf(h, y);
      LinksApart(h, b, x, y);
    }

    // Writes to such link words change no live payload.
    lemma ListKept(b: Block, i: int, j: int, m: seq<Byte>, m': seq<Byte>)
      requires Partial(h) && b in h.blocks && !b.alloc
      requires LinksOnly(m, m', b.ptr, NodeAt(h.chain, i), NodeAt(h.chain, j))
      ensures Kept(h.blocks, m, m')
    {
      var x := if 0 <= i < |h.chain| then h.chain[i] else b;
      var y := if 0 <= j < |h.chain| then h.chain[j] else b;
      assert x in h.blocks && y in h.blocks && !x.alloc && !y.alloc;
      var touched := {b, x, y};
      assert b in touched && x in touched && y in touched;
      hide Tiled, Partial, SortedBySize, Distinct;
      LinksKept(h.blocks, FIRST_BLOCK, h.brk, m, m', touched);
    }

    // insert_node
    method InsertNode(ghost b: Block, ptr: nat, size: nat)
      requires Shaped() && b == Block(ptr, size, false)
      requires b in h.blocks && b !in h.chain
      modifies this, mem`words, mem.data
      ensures Shaped() && h == old(h).(chain := Inserted(old(h).chain, b))
      ensures Kept(h.blocks, old(mem.data[..]), mem.data[..])
    {
      ghost var c, k: int, w, g := h.chain, InsertPos(h.chain, size), mem.words, h;
      Bounded();
      ListSpots(b, k - 1, k);
      InsertedNodeAt(c, b, 0);
      hide Shape, Partial, Kept, LinksOnly, LinkSpot, SpotsApart, Inserted, InsertPos, Tiled, Memory.Valid;
      var prev, cur := FindPosition(size);
      LinkNode(ptr, prev, cur);
      ListKept(b, k - 1, k, old(mem.data[..]), mem.data[..]);
      InsertShape(w, mem.words, old(listp), g, b);
      h := h.(chain := Inserted(c, b));
    }

    lemma Bounded()
      requires Shaped()
      ensures Partial(h) && Tiled(h.blocks, FIRST_BLOCK, h.brk) && listp == NodeAt(h.chain, 0)
    {
    }

    // The four ways delete_node unlinks the node between prev and next.
    method UnlinkNode(prev: nat, next: nat)
      requires mem.Valid()
      requires prev != 0 ==> LinkSpot(prev)
      requires next != 0 ==> LinkSpot(next)
      requires prev != 0 && next != 0 ==> SpotsApart(prev, next)
      modifies this`listp, mem`words, mem.data
      ensures mem.Valid()
      ensures forall q :: At(mem.words, q) == UnlinkWords(old(mem.words), prev, next, q)
      ensures listp == if prev == 0 then next else old(listp)
      ensures LinksOnly(old(mem.data[..]), mem.data[..], 0, prev, next)
    {
      if next == 0 && prev == 0 {
        listp := 0;
      } else if prev == 0 {
        mem.Put(next + 4, 0);
        listp := next;
      } else if next == 0 {
        mem.Put(prev, 0);
      } else {
        mem.Put(prev, next);
        mem.Put(next + 4, prev);
      }
    }

    // delete_node
    method DeleteNode(ghost b: Block, ptr: nat)
      requires Shaped() && b in h.chain && ptr == b.ptr
      modifies this, mem`words, mem.data
      ensures Shaped() && h == old(h).(chain := Removed(old(h).chain, b))
      ensures Kept(h.blocks, old(mem.data[..]), mem.data[..])
    {
      ghost var c, k: int, w, g := h.chain, IndexIn(h.chain, b), mem.words, h;
      Bounded();
      NodeWords(k);
      Neighbouring(k);
      ListSpots(b, k - 1, k + 1);
      RemovedNodeAt(c, b, 0);
      assert mem.WordSpot(ptr) && mem.WordSpot(ptr + 4);
      hide Shape, Partial, Kept, LinksOnly, LinkSpot, SpotsApart, Removed, IndexIn, Tiled, Memory.Valid;
      hide BlockSpots, OkTag, Tag, Mult4;
      Detach(ptr, NodeAt(c, k - 1), NodeAt(c, k + 1));
      ListKept(b, k - 1, k + 1, old(mem.data[..]), mem.data[..]);
      DeleteShape(w, mem.words, old(listp), g, b);
      h := h.(chain := Removed(c, b));
    }

    // The reads and writes of delete_node.
    method Detach(ptr: nat, ghost p: int, ghost n: int)
      requires mem.Valid() && mem.WordSpot(ptr) && mem.WordSpot(ptr + 4)
      requires At(mem.words, ptr) == n && At(mem.words, ptr + 4) == p
      requires (p != 0 ==> LinkSpot(p)) && (n != 0 ==> LinkSpot(n)) && (p != 0 && n != 0 ==> SpotsApart(p, n))
      modifies this`listp, mem`words, mem.data
      ensures mem.Valid() && listp == if p == 0 then n else old(listp)
      ensures forall q :: At(mem.words, q) == UnlinkWords(old(mem.words), p, n, q)
      ensures LinksOnly(old(mem.data[..]), mem.data[..], ptr, p, n)
    {
      hide Memory.Valid, LinkSpot, SpotsApart, LinksOnly;
      var next := mem.Get(ptr);
      var prev := mem.Get(ptr + 4);
      UnlinkNode(prev, next);
      UnlinkedOnly(old(mem.data[..]), mem.data[..], ptr, prev, next);
    }

    // A listed node, and that its neighbours are other nodes.
    lemma Neighbouring(k: nat)
      requires Shaped() && k < |h.chain|
      ensures h.chain[k] in h.blocks && !h.chain[k].alloc
      ensures k > 0 ==> h.chain[k - 1] != h.chain[k]
      ensures k + 1 < |h.chain| ==> h.chain[k + 1] != h.chain[k]
    {
      assert h.chain[k] in h.chain;
    }

    static lemma UnlinkedOnly(m: seq<Byte>, m': seq<Byte>, p: int, q: int, r: int)
      requires LinksOnly(m, m', 0, q, r)
      ensures LinksOnly(m, m', p, q, r)
    {
    }

    // What memory says about block i and where its neighbours are.
    lemma BlockWords(i: nat)
      requires Shaped() && i < |h.blocks|
      ensures BlockSpots(h.blocks[i], mem.brk) && OkTag(h.blocks[i])
      ensures At(mem.words, h.blocks[i].ptr - 4) == Tag(h.blocks[i])
      ensures At(mem.words, h.blocks[i].End() - 8) == Tag(h.blocks[i])
      ensures h.blocks[i].End() == if i + 1 < |h.blocks| then h.blocks[i + 1].ptr else h.brk
      ensures i == 0 ==> h.blocks[i].ptr == FIRST_BLOCK
    {
      var b := h.blocks[i];
      assert b in h.blocks;
      SpotsOf(h, b);
      assert TaggedBlock(mem.words, b);
      TiledOrder(h.blocks, FIRST_BLOCK, h.brk);
      TiledSpan(h.blocks, FIRST_BLOCK, h.brk);
    }

    // Memory now holds the tags of mid in place of n blocks from i on.
    ghost method Remodel(i: nat, n: nat, mid: seq<Block>, w: Words32)
      requires mem.Valid() && h.brk == mem.brk && mem.brk >= FIRST_BLOCK && Shape(w, listp, h)
      requires n >= 1 && i + n <= |h.blocks|
      requires forall b :: b in h.blocks[i..i + n] ==> b !in h.chain
      requires Tiled(mid, h.blocks[i].ptr, h.blocks[i + n - 1].End())
      requires Tagged(mem.words, mid)
      requires SameOutside(w, mem.words, h.blocks[i].ptr, h.blocks[i + n - 1].End())
      modifies this`h
      ensures Shaped() && h == old(h).(blocks := Replace(old(h).blocks, i, n, mid))
    {
      Retag(w, mem.words, listp, h, i, n, mid);
      h := h.(blocks := Replace(h.blocks, i, n, mid));
    }

    // Header and footer of the size bytes at p hold size; no other word or byte
    // differs from w and m.
    ghost predicate Retagged(w: Words32, m: seq<Byte>, p: int, size: int)
      reads mem, mem.data
    {
      && |m| == mem.data.Length
      && (forall q :: At(mem.words, q) == if q == p - 4 || q == p + size - 8 then size else At(w, q))
      && forall k :: 0 <= k < |m| && !(p - 4 <= k < p) && !(p + size - 8 <= k < p + size - 4) ==> mem.data[k] == m[k]
    }

    // A run of free blocks has been retagged: memory represents the heap with one block there.
    ghost method AdoptRun(i: nat, n: nat, p: int, size: int, w: Words32, m: seq<Byte>)
      requires mem.Valid() && h.brk == mem.brk && mem.brk >= FIRST_BLOCK && Shape(w, listp, h)
      requires n >= 1 && i + n <= |h.blocks|
      requires forall b :: b in h.blocks[i..i + n] ==> b !in h.chain && !b.alloc
      requires p == h.blocks[i].ptr && p + size == h.blocks[i + n - 1].End() && Retagged(w, m, p, size)
      modifies this`h
      ensures Shaped()
      ensures h == old(h).(blocks := Replace(old(h).blocks, i, n, [Block(p, size, false)]))
      ensures Kept(old(h).blocks, m, mem.data[..])
    {
      assert Partial(h) && Tiled(h.blocks, FIRST_BLOCK, h.brk);
      hide Shape, Partial, Tiled, Retagged, Kept, Mult8, Tagged, SameOutside, Memory.Valid;
      SpanSize(h, i, n);
      OneTiled(Block(p, size, false));
      RetaggedRun(w, m, p, size);
      RunKept(h.blocks, FIRST_BLOCK, h.brk, i, n, m, mem.data[..]);
      Remodel(i, n, [Block(p, size, false)], w);
    }

    lemma RetaggedRun(w: Words32, m: seq<Byte>, p: int, size: int)
      requires Retagged(w, m, p, size) && size >= MIN_BLOCK
      ensures Tagged(mem.words, [Block(p, size, false)]) && SameOutside(w, mem.words, p, p + size)
      ensures |m| == |mem.data[..]|
      ensures forall k :: 0 <= k < |m| && !(p - 4 <= k < p + size - 4) ==> mem.data[..][k] == m[k]
    {
    }

    lemma RunSpots(i: nat, n: nat)
      requires Shaped() && n >= 1 && i + n <= |h.blocks|
      ensures var m := Block(h.blocks[i].ptr, h.blocks[i + n - 1].End() - h.blocks[i].ptr, false);
        OkTag(m) && OkSize(m.size) && BlockSpots(m, mem.brk)
    {
      hide Mult8, Mult4;
      SpanSize(h, i, n);
      BlockInside(h, i);
      BlockInside(h, i + n - 1);
      SpotsOf(h, h.blocks[i]);
      SpotsOf(h, h.blocks[i + n - 1]);
    }

    // GET_SIZE(HDRP(bp)) for block i.
    method HeaderSize(ghost i: nat, bp: nat) returns (s: nat)
      requires Shaped() && i < |h.blocks| && bp == h.blocks[i].ptr
      ensures s == h.blocks[i].size
    {
      BlockWords(i);
      s := GetSize(bp - 4, h.blocks[i]);
    }

    // NEXT_BLKP(bp) for block i.
    method NextBlkp(ghost i: nat, bp: nat) returns (p: nat)
      requires Shaped() && i < |h.blocks| && bp == h.blocks[i].ptr
      ensures p == if i + 1 < |h.blocks| then h.blocks[i + 1].ptr else h.brk
    {
      BlockWords(i);
      var s := GetSize(bp - 4, h.blocks[i]);
      p := bp + s;
    }

    // PREV_BLKP(bp) for block i; the prologue's payload when i is 0.
    method PrevBlkp(ghost i: nat, bp: nat) returns (p: nat)
      requires Shaped() && i < |h.blocks| && bp == h.blocks[i].ptr
      ensures p == if i > 0 then h.blocks[i - 1].ptr else 8
    {
      BeforeWords(i);
      var s := GetSize(bp - 8, BlockBefore(i));
      p := bp - s;
    }

    // GET_ALLOC(FTRP(PREV_BLKP(bp))) for block i.
    method PrevAlloc(ghost i: nat, bp: nat) returns (a: nat)
      requires Shaped() && i < |h.blocks| && bp == h.blocks[i].ptr
      ensures a == if FreeAt(h.blocks, i - 1) then 0 else 1
    {
      var prev := PrevBlkp(i, bp);
      BeforeWords(i);
      var s := GetSize(prev - 4, BlockBefore(i));
      a := GetAlloc(prev + s - 8, BlockBefore(i));
    }

    // GET_ALLOC(HDRP(NEXT_BLKP(bp))) for block i.
    method NextAlloc(ghost i: nat, bp: nat) returns (a: nat)
      requires Shaped() && i < |h.blocks| && bp == h.blocks[i].ptr
      ensures a == if FreeAt(h.blocks, i + 1) then 0 else 1
    {
      var next := NextBlkp(i, bp);
      AfterWords(i);
      a := GetAlloc(next - 4, BlockAfter(i));
    }

    // The prologue and epilogue seen as blocks.
    ghost function BlockBefore(i: nat): Block
      requires i < |h.blocks|
      reads this`h
    {
      if i == 0 then Block(8, 8, true) else h.blocks[i - 1]
    }

    ghost function BlockAfter(i: nat): Block
      requires i < |h.blocks|
      reads this`h
    {
      if i + 1 < |h.blocks| then h.blocks[i + 1] else Block(h.brk, 0, true)
    }

    lemma BeforeWords(i: nat)
      requires Shaped() && i < |h.blocks|
      ensures var b := BlockBefore(i);
        && OkTag(b) && b.End() == h.blocks[i].ptr && 0 <= b.ptr
        && Mult4(b.ptr - 4) && 4 <= b.ptr <= mem.brk && Mult4(b.End() - 8) && b.End() - 4 <= mem.brk
        && At(mem.words, b.ptr - 4) == Tag(b) && At(mem.words, b.End() - 8) == Tag(b)
    {
      BlockWords(i);
      if i > 0 {
        BlockWords(i - 1);
      } else {
        assert Mult8(0) && Mult8(8) && Mult4(4) && Mult4(8);
      }
    }

    lemma AfterWords(i: nat)
      requires Shaped() && i < |h.blocks|
      ensures var b := BlockAfter(i);
        && OkTag(b) && b.ptr == h.blocks[i].End() && 4 <= b.ptr
        && Mult4(b.ptr - 4) && b.ptr <= mem.brk && At(mem.words, b.ptr - 4) == Tag(b)
    {
      BlockWords(i);
      if i + 1 < |h.blocks| {
        BlockWords(i + 1);
      } else {
        assert Mult8(0);
      }
    }

    // Block i is free but not on the list.
    ghost predicate Unlinked(i: int)
      reads this
    {
      FreeAt(h.blocks, i) && h.blocks[i] !in h.chain
    }

    // Two tag writes retag a run.
    lemma RetaggedBy(w: Words32, m0: seq<Byte>, m1: seq<Byte>, p: int, size: Word, a: int, b: int)
      requires mem.words == w[a := size][b := size] && size >= MIN_BLOCK
      requires (a == p - 4 && b == p + size - 8) || (b == p - 4 && a == p + size - 8)
      requires OnlyWithin(m0, m1, a, a + 4) && OnlyWithin(m1, mem.data[..], b, b + 4)
      ensures Retagged(w, m0, p, size)
    {
    }

    // PUT of the tag of a free block of the given size.
    method PutFree(p: int, size: nat)
      requires mem.Valid() && mem.WordSpot(p) && size < WORD_LIMIT && Pack(size, 0) == size
      modifies mem`words, mem.data
      ensures mem.Valid() && mem.words == old(mem.words)[p := size]
      ensures OnlyWithin(old(mem.data[..]), mem.data[..], p, p + 4)
    {
      mem.Put(p, Pack(size, 0));
    }

    // The tags of b are in memory.
    ghost predicate Readable(b: Block)
      reads mem
    {
      mem.brk <= MAX_HEAP && OkTag(b) && BlockSpots(b, mem.brk) && TaggedBlock(mem.words, b)
    }

    lemma BlockReadable(i: nat)
      requires Shaped() && i < |h.blocks|
      ensures Readable(h.blocks[i])
      ensures i + 1 < |h.blocks| ==> h.blocks[i].End() == h.blocks[i + 1].ptr
    {
      BlockWords(i);
    }

    // What PUT writes for a free block of the given size.
    lemma FreeWord(i: nat, n: nat, size: nat)
      requires Shaped() && n >= 1 && i + n <= |h.blocks| && h.blocks[i].ptr + size == h.blocks[i + n - 1].End()
      ensures MIN_BLOCK <= size < WORD_LIMIT && Pack(size, 0) == size
    {
      RunSpots(i, n);
      TagPacked(Block(h.blocks[i].ptr, size, false));
    }

    // Case 2: PUT(HDRP(bp), PACK(size, 0)) and PUT(FTRP(bp), PACK(size, 0)).
    method TagNext(ghost i: nat, bp: nat, size: nat)
      requires Shaped() && i + 1 < |h.blocks| && bp == h.blocks[i].ptr && bp + size == h.blocks[i + 1].End()
      modifies mem`words, mem.data
      ensures mem.Valid() && Retagged(old(mem.words), old(mem.data[..]), bp, size)
    {
      ghost var m := Block(bp, size, false);
      RunSpots(i, 2);
      hide Shape, OkTag, Memory.Valid, Pack, Mult4;
      TagBlock(m, bp, size, 0);
    }

    // Case 3: PUT(FTRP(bp), PACK(size, 0)), PUT(HDRP(PREV_BLKP(bp)), PACK(size, 0))
    // and bp = PREV_BLKP(bp).
    method TagPrev(ghost pv: Block, ghost b: Block, bp: nat, size: nat) returns (p: nat)
      requires mem.Valid() && Readable(pv) && Readable(b) && pv.End() == b.ptr == bp
      requires pv.ptr + size == b.End() && MIN_BLOCK <= size < WORD_LIMIT && Pack(size, 0) == size
      modifies mem`words, mem.data
      ensures p == pv.ptr && mem.Valid() && Retagged(old(mem.words), old(mem.data[..]), p, size)
    {
      hide OkTag, Pack, Mult4, Retagged, OnlyWithin, Memory.Valid;
      ghost var w, m0 := mem.words, mem.data[..];
      var s := GetSize(bp - 4, b);
      PutFree(bp + s - 8, size);
      ghost var m1 := mem.data[..];
      var r := GetSize(bp - 8, pv);
      PutFree(bp - r - 4, size);
      RetaggedBy(w, m0, m1, pv.ptr, size, bp + s - 8, bp - r - 4);
      r := GetSize(bp - 8, pv);
      p := bp - r;
    }

    // Case 4: PUT(HDRP(PREV_BLKP(bp)), PACK(size, 0)), PUT(FTRP(NEXT_BLKP(bp)), PACK(size, 0))
    // and bp = PREV_BLKP(bp).
    method TagBoth(ghost pv: Block, ghost b: Block, ghost nx: Block, bp: nat, size: nat) returns (p: nat)
      requires mem.Valid() && Readable(pv) && Readable(b) && Readable(nx)
      requires pv.End() == b.ptr == bp && b.End() == nx.ptr
      requires pv.ptr + size == nx.End() && MIN_BLOCK <= size < WORD_LIMIT && Pack(size, 0) == size
      modifies mem`words, mem.data
      ensures p == pv.ptr && mem.Valid() && Retagged(old(mem.words), old(mem.data[..]), p, size)
    {
      hide OkTag, Pack, Mult4, Retagged, OnlyWithin, Memory.Valid;
      ghost var w, m0 := mem.words, mem.data[..];
      var r := GetSize(bp - 8, pv);
      PutFree(bp - r - 4, size);
      ghost var m1 := mem.data[..];
      var s := GetSize(bp - 4, b);
      var next := bp + s;
      var t := GetSize(next - 4, nx);
      PutFree(next + t - 8, size);
      RetaggedBy(w, m0, m1, pv.ptr, size, bp - r - 4, next + t - 8);
      r := GetSize(bp - 8, pv);
      p := bp - r;
    }

    // The end of coalesce, once the run is tagged: one node for it.
    method MergeRun(ghost i: nat, ghost n: nat, p: nat, size: nat, ghost w: Words32, ghost m0: seq<Byte>)
      requires mem.Valid() && h.brk == mem.brk && mem.brk >= FIRST_BLOCK && Shape(w, listp, h)
      requires 2 <= n <= 3 && i + n <= |h.blocks|
      requires Unlinked(i) && Unlinked(i + 1) && Unlinked(i + n - 1)
      requires p == h.blocks[i].ptr && p + size == h.blocks[i + n - 1].End() && Retagged(w, m0, p, size)
      modifies this, mem`words, mem.data
      ensures Shaped() && h == Merged(old(h), i, n)
      ensures Kept(old(h).blocks, m0, mem.data[..])
    {
      hide Tiled, SortedBySize, Distinct, Tagged, Linked, Kept, Retagged;
      ghost var bs, m := h.blocks, Block(p, size, false);
      RunMembers(bs, i, n, bs[i..i + n]);
      BlockInside(h, i);
      NotListed(h, i, m);
      LiveStay(bs, FIRST_BLOCK, h.brk, i, n, [m]);
      AdoptRun(i, n, p, size, w, m0);
      ghost var m1 := mem.data[..];
      assert h.blocks[i] == m;
      InsertNode(m, p, size);
      KeptFewer(bs, h.blocks, m1, mem.data[..]);
      KeptTrans(bs, m0, m1, mem.data[..]);
    }

    // Two list deletions of free blocks.
    method DeleteTwo(ghost b: Block, ghost c: Block, p: nat, q: nat)
      requires Shaped() && b in h.chain && c in h.chain && b != c && p == b.ptr && q == c.ptr
      modifies this, mem`words, mem.data
      ensures Shaped() && h == Unlisted(Unlisted(old(h), b), c)
      ensures forall x :: x in h.chain <==> x in old(h).chain && x != b && x != c
      ensures Kept(old(h).blocks, old(mem.data[..]), mem.data[..])
    {
      RemovedMembers(h.chain, b);
      DeleteNode(b, p);
      ghost var m1 := mem.data[..];
      RemovedMembers(h.chain, c);
      DeleteNode(c, q);
      KeptTrans(h.blocks, old(mem.data[..]), m1, mem.data[..]);
    }

    // Where two neighbouring blocks meet, and that they differ.
    lemma Neighbours(i: nat)
      requires Shaped() && i + 1 < |h.blocks|
      ensures h.blocks[i].End() == h.blocks[i + 1].ptr && h.blocks[i].ptr < h.blocks[i + 1].ptr
      ensures 0 <= h.blocks[i].ptr && 0 < h.blocks[i].size && 0 < h.blocks[i + 1].size
    {
      BlockWords(i);
      BlockWords(i + 1);
    }

    // Three list deletions of free blocks.
    method DeleteThree(ghost b: Block, ghost c: Block, ghost d: Block, p: nat, q: nat, r: nat)
      requires Shaped() && b in h.chain && c in h.chain && d in h.chain && b != c && b != d && c != d
      requires p == b.ptr && q == c.ptr && r == d.ptr
      modifies this, mem`words, mem.data
      ensures Shaped() && h == Unlisted(Unlisted(Unlisted(old(h), b), c), d)
      ensures b !in h.chain && c !in h.chain && d !in h.chain
      ensures Kept(old(h).blocks, old(mem.data[..]), mem.data[..])
    {
      DeleteTwo(b, c, p, q);
      ghost var m1 := mem.data[..];
      RemovedMembers(h.chain, d);
      DeleteNode(d, r);
      KeptTrans(h.blocks, old(mem.data[..]), m1, mem.data[..]);
    }

    // Case 2 of coalesce: the next block is free.
    method CoalesceNext(ghost i: nat, bp: nat, size: nat)
      requires Valid() && FreeAt(h.blocks, i) && FreeAt(h.blocks, i + 1)
      requires bp == h.blocks[i].ptr && size == h.blocks[i].size
      modifies this, mem`words, mem.data
      ensures Shaped()
      ensures var b, nx := old(h).blocks[i], old(h).blocks[i + 1];
        h == Merged(Unlisted(Unlisted(old(h), b), nx), i, 2)
      ensures Kept(old(h).blocks, old(mem.data[..]), mem.data[..])
    {
      hide Shape, Good, Kept, Merged, Removed, Readable, Pack, Retagged;
      FreeListed(i);
      FreeListed(i + 1);
      ghost var bs, b, nx, m0 := h.blocks, h.blocks[i], h.blocks[i + 1], mem.data[..];
      Neighbours(i);
      var next := NextBlkp(i, bp);
      DeleteTwo(b, nx, bp, next);
      ghost var w, m1 := mem.words, mem.data[..];
      next := NextBlkp(i, bp);
      var nsize := HeaderSize(i + 1, next);
      TagNext(i, bp, size + nsize);
      MergeRun(i, 2, bp, size + nsize, w, m1);
      KeptTrans(bs, m0, m1, mem.data[..]);
    }

    // Case 3 of coalesce: the previous block is free.
    method CoalescePrev(ghost i: nat, bp: nat, size: nat) returns (p: nat)
      requires Valid() && FreeAt(h.blocks, i) && FreeAt(h.blocks, i - 1)
      requires bp == h.blocks[i].ptr && size == h.blocks[i].size
      modifies this, mem`words, mem.data
      ensures Shaped() && p == old(h).blocks[i - 1].ptr
      ensures var b, pv := old(h).blocks[i], old(h).blocks[i - 1];
        h == Merged(Unlisted(Unlisted(old(h), b), pv), i - 1, 2)
      ensures Kept(old(h).blocks, old(mem.data[..]), mem.data[..])
    {
      hide Shape, Good, Kept, Merged, Removed, Readable, Pack, Retagged;
      FreeListed(i);
      FreeListed(i - 1);
      ghost var bs, b, pv, m0 := h.blocks, h.blocks[i], h.blocks[i - 1], mem.data[..];
      Neighbours(i - 1);
      p := PrevBlkp(i, bp);
      DeleteTwo(b, pv, bp, p);
      ghost var w, m1 := mem.words, mem.data[..];
      p := PrevBlkp(i, bp);
      var psize := HeaderSize(i - 1, p);
      BlockReadable(i - 1);
      BlockReadable(i);
      FreeWord(i - 1, 2, size + psize);
      p := TagPrev(pv, b, bp, size + psize);
      MergeRun(i - 1, 2, p, size + psize, w, m1);
      KeptTrans(bs, m0, m1, mem.data[..]);
    }

    // Case 4 of coalesce: both neighbours are free.
    method CoalesceBoth(ghost i: nat, bp: nat, size: nat) returns (p: nat)
      requires Valid() && FreeAt(h.blocks, i) && FreeAt(h.blocks, i - 1) && FreeAt(h.blocks, i + 1)
      requires bp == h.blocks[i].ptr && size == h.blocks[i].size
      modifies this, mem`words, mem.data
      ensures Shaped() && p == old(h).blocks[i - 1].ptr
      ensures var b, pv, nx := old(h).blocks[i], old(h).blocks[i - 1], old(h).blocks[i + 1];
        h == Merged(Unlisted(Unlisted(Unlisted(old(h), b), pv), nx), i - 1, 3)
      ensures Kept(old(h).blocks, old(mem.data[..]), mem.data[..])
    {
      hide Shape, Good, Kept, Merged, Removed, Readable, Pack, Retagged;
      FreeListed(i);
      FreeListed(i - 1);
      FreeListed(i + 1);
      ghost var bs, b, m0 := h.blocks, h.blocks[i], mem.data[..];
      ghost var pv, nx := h.blocks[i - 1], h.blocks[i + 1];
      Neighbours(i - 1);
      Neighbours(i);
      p := PrevBlkp(i, bp);
      var next := NextBlkp(i, bp);
      DeleteThree(b, pv, nx, bp, p, next);
      ghost var w, m1 := mem.words, mem.data[..];
      p := PrevBlkp(i, bp);
      next := NextBlkp(i, bp);
      var psize := HeaderSize(i - 1, p);
      var nsize := HeaderSize(i + 1, next);
      BlockReadable(i - 1);
      BlockReadable(i);
      BlockReadable(i + 1);
      FreeWord(i - 1, 3, size + psize + nsize);
      p := TagBoth(pv, b, nx, bp, size + psize + nsize);
      MergeRun(i - 1, 3, p, size + psize + nsize, w, m1);
      KeptTrans(bs, m0, m1, mem.data[..]);
    }

    // coalesce
    method Coalesce(ghost i: nat, bp: nat) returns (p: nat)
      requires Valid() && FreeAt(h.blocks, i) && bp == h.blocks[i].ptr
      modifies this, mem`words, mem.data
      ensures Valid() && h == Coalesced(old(h), i)
      ensures CoalescedAt(old(h), i) < |h.blocks| && p == h.blocks[CoalescedAt(old(h), i)].ptr
      ensures Kept(old(h).blocks, old(mem.data[..]), mem.data[..])
    {
      CoalescedGood(h, i);
      CoalescedFree(h, i);
      hide Good, Merged, Kept, Shape;
      p := bp;
      var prevAlloc := PrevAlloc(i, bp);
      var nextAlloc := NextAlloc(i, bp);
      var size := HeaderSize(i, bp);
      if prevAlloc == 1 && nextAlloc == 1 {
      } else if prevAlloc == 1 {
        CoalesceNext(i, bp, size);
      } else if nextAlloc == 1 {
        p := CoalescePrev(i, bp, size);
      } else {
        p := CoalesceBoth(i, bp, size);
      }
    }

    // PUT(HDRP(p), PACK(size, alloc)) and PUT(FTRP(p), PACK(size, alloc)).
    method TagBlock(ghost b: Block, p: nat, size: nat, alloc: nat)
      requires mem.Valid() && OkTag(b) && BlockSpots(b, mem.brk)
      requires b == Block(p, size, alloc == 1) && alloc <= 1
      modifies mem`words, mem.data
      ensures mem.Valid() && mem.words == old(mem.words)[p - 4 := Tag(b)][p + size - 8 := Tag(b)]
      ensures forall k :: 0 <= k < mem.data.Length && !(p - 4 <= k < p) && !(p + size - 8 <= k < p + size - 4) ==>
        mem.data[k] == old(mem.data[k])
    {
      TagPacked(b);
      mem.Put(p - 4, Pack(size, alloc));
      var s := GetSize(p - 4, b);
      mem.Put(p + s - 8, Pack(size, alloc));
    }

    // A block of the given size fits at the start of a run and its words exist.
    lemma PieceSpots(i: nat, n: nat, p: int, b: Block)
      requires Shaped() && n >= 1 && i + n <= |h.blocks|
      requires h.blocks[i].ptr <= b.ptr && b.End() <= h.blocks[i + n - 1].End() && OkSize(b.size)
      requires Mult8(b.ptr - h.blocks[i].ptr)
      ensures OkTag(b) && BlockSpots(b, mem.brk)
    {
      var lo, hi := h.blocks[i], h.blocks[i + n - 1];
      assert lo in h.blocks && hi in h.blocks;
      TiledAligned(h.blocks, FIRST_BLOCK, h.brk, lo);
      TiledInside(h.blocks, FIRST_BLOCK, h.brk);
      Mult8Sum(lo.ptr, b.ptr - lo.ptr);
      Mult8Sum(b.ptr, b.size);
      Mult8Words(b.ptr);
      Mult8Words(b.End());
    }

    lemma RunUnlisted(i: nat, n: nat)
      requires 1 <= n <= 2 && i + n <= |h.blocks| && h.blocks[i] !in h.chain && h.blocks[i + n - 1] !in h.chain
      ensures forall b :: b in h.blocks[i..i + n] ==> b !in h.chain
    {
    }

    // The whole run becomes one block.
    method TagWhole(ghost i: nat, ghost n: nat, p: nat, size: nat, alloc: nat)
      requires Shaped() && 1 <= n <= 2 && i + n <= |h.blocks|
      requires h.blocks[i] !in h.chain && h.blocks[i + n - 1] !in h.chain
      requires p == h.blocks[i].ptr && p + size == h.blocks[i + n - 1].End() && alloc <= 1
      modifies this`h, mem`words, mem.data
      ensures Shaped()
      ensures h == old(h).(blocks := Replace(old(h).blocks, i, n, [Block(p, size, alloc == 1)]))
      ensures forall k :: 0 <= k < mem.data.Length && !(p - 4 <= k < p) && !(p + size - 8 <= k < p + size - 4) ==>
        mem.data[k] == old(mem.data[k])
    {
      ghost var w, b := mem.words, Block(p, size, alloc == 1);
      RunSpots(i, n);
      OneTiled(b);
      RunUnlisted(i, n);
      hide Shape, Partial, OkTag, BlockSpots, OkSize, Memory.Valid, Tiled;
      TagBlock(b, p, size, alloc);
      assert Tagged(mem.words, [b]);
      Remodel(i, n, [b], w);
    }

    // Tags of a first block, NEXT_BLKP, tags of a second.
    method TagTwo(ghost x: Block, ghost y: Block, p: nat, s1: nat, a1: nat, s2: nat, a2: nat)
      requires mem.Valid() && OkTag(x) && BlockSpots(x, mem.brk) && OkTag(y) && BlockSpots(y, mem.brk)
      requires x == Block(p, s1, a1 == 1) && y == Block(p + s1, s2, a2 == 1) && a1 <= 1 && a2 <= 1
      modifies mem`words, mem.data
      ensures mem.Valid() && TaggedBlock(mem.words, x) && TaggedBlock(mem.words, y)
      ensures SameOutside(old(mem.words), mem.words, p, y.End())
      ensures forall k :: (0 <= k < mem.data.Length && !(p - 4 <= k < p) && !(p + s1 - 8 <= k < p + s1) &&
        !(y.End() - 8 <= k < y.End() - 4)) ==> mem.data[k] == old(mem.data[k])
    {
      TagBlock(x, p, s1, a1);
      var s := GetSize(p - 4, x);
      TagBlock(y, p + s, s2, a2);
    }

    // The run becomes two blocks.
    method TagPair(ghost i: nat, ghost n: nat, p: nat, s1: nat, a1: nat, s2: nat, a2: nat)
      requires Shaped() && 1 <= n <= 2 && i + n <= |h.blocks|
      requires h.blocks[i] !in h.chain && h.blocks[i + n - 1] !in h.chain
      requires p == h.blocks[i].ptr && p + s1 + s2 == h.blocks[i + n - 1].End()
      requires OkSize(s1) && OkSize(s2) && a1 <= 1 && a2 <= 1
      modifies this`h, mem`words, mem.data
      ensures Shaped()
      ensures var x, y := Block(p, s1, a1 == 1), Block(p + s1, s2, a2 == 1);
        h == old(h).(blocks := Replace(old(h).blocks, i, n, [x, y]))
      ensures forall k :: (0 <= k < mem.data.Length && !(p - 4 <= k < p) && !(p + s1 - 8 <= k < p + s1) &&
        !(p + s1 + s2 - 8 <= k < p + s1 + s2 - 4)) ==> mem.data[k] == old(mem.data[k])
    {
      ghost var w, x, y := mem.words, Block(p, s1, a1 == 1), Block(p + s1, s2, a2 == 1);
      assert Mult8(0);
      PieceSpots(i, n, p, x);
      PieceSpots(i, n, p, y);
      TwoTiled(x, y);
      RunUnlisted(i, n);
      hide Shape, Partial, OkTag, BlockSpots, Mult8, OkSize, Memory.Valid, Tiled;
      TagTwo(x, y, p, s1, a1, s2, a2);
      assert Tagged(mem.words, [x, y]);
      Remodel(i, n, [x, y], w);
    }

    // place
    method Place(ghost i: nat, bp: nat, asize: nat) returns (p: nat)
      requires Valid() && FreeAt(h.blocks, i) && bp == h.blocks[i].ptr
      requires OkSize(asize) && asize <= h.blocks[i].size
      modifies this, mem`words, mem.data
      ensures Valid() && h == Placed(old(h), i, asize)
      ensures p == PlacedPtr(old(h).blocks[i], asize)
      ensures var spare := old(h).blocks[i].size - asize;
        p == if spare > 16 && asize >= 100 then bp + spare else bp
      ensures Kept(old(h).blocks, old(mem.data[..]), mem.data[..])
    {
      hide Shape, Good, Kept, Recut, Cut, Removed, Memory.Valid;
      ghost var bs, b, m0 := h.blocks, h.blocks[i], mem.data[..];
      PlacedGood(h, i, asize);
      var size := HeaderSize(i, bp);
      FreeListed(i);
      DeleteNode(b, bp);
      ghost var m1 := mem.data[..];
      p := PlaceCut(i, bp, size, asize);
      KeptTrans(bs, m0, m1, mem.data[..]);
    }

    // The three ways place cuts its block.
    method PlaceCut(ghost i: nat, bp: nat, size: nat, asize: nat) returns (p: nat)
      requires Shaped() && Unlinked(i) && bp == h.blocks[i].ptr && size == h.blocks[i].size
      requires OkSize(asize) && asize <= size
      modifies this, mem`words, mem.data
      ensures Shaped() && h == Recut(old(h), i, 1, Cut(old(h).blocks[i], asize))
      ensures p == PlacedPtr(old(h).blocks[i], asize)
      ensures Kept(old(h).blocks, old(mem.data[..]), mem.data[..])
    {
      Span(i);
      CutTiled(h.blocks[i], asize);
      hide Recut, Tiled;
      var remain := size - asize;
      ghost var cut := Cut(h.blocks[i], asize);
      if remain <= 16 {
        assert cut == [Block(bp, size, true)];
        PlaceWhole(i, bp, size);
        p := bp;
      } else if asize >= 100 {
        assert cut == [Block(bp, remain, false), Block(bp + remain, asize, true)];
        p := PlaceHigh(i, bp, remain, asize);
      } else {
        assert cut == [Block(bp, asize, true), Block(bp + asize, remain, false)];
        PlaceLow(i, bp, asize, remain);
        p := bp;
      }
    }

    // place without a split.
    method PlaceWhole(ghost i: nat, bp: nat, size: nat)
      requires Shaped() && Unlinked(i) && bp == h.blocks[i].ptr && size == h.blocks[i].size
      modifies this`h, mem`words, mem.data
      ensures Shaped() && h == Recut(old(h), i, 1, [Block(bp, size, true)])
      ensures Kept(old(h).blocks, old(mem.data[..]), mem.data[..])
    {
      ghost var bs := h.blocks;
      assert bs[i..i + 1] == [bs[i]];
      Span(i);
      TagWhole(i, 1, bp, size, 1);
      RunKept(bs, FIRST_BLOCK, h.brk, i, 1, old(mem.data[..]), mem.data[..]);
    }

    // The bounds of a block.
    lemma Span(i: nat)
      requires Shaped() && i < |h.blocks|
      ensures var b := h.blocks[i]; FIRST_BLOCK <= b.ptr && OkSize(b.size) && b.End() <= mem.brk
      ensures |h.blocks| > 0 && Tiled(h.blocks, FIRST_BLOCK, h.brk)
    {
      BlockInside(h, i);
    }

    // place with the free part first.
    method PlaceHigh(ghost i: nat, bp: nat, remain: nat, asize: nat) returns (p: nat)
      requires Shaped() && Unlinked(i) && bp == h.blocks[i].ptr
      requires OkSize(asize) && OkSize(remain) && remain + asize == h.blocks[i].size
      modifies this, mem`words, mem.data
      ensures Shaped() && p == bp + remain
      ensures h == Recut(old(h), i, 1, [Block(bp, remain, false), Block(bp + remain, asize, true)])
      ensures Kept(old(h).blocks, old(mem.data[..]), mem.data[..])
    {
      hide Good, Tiled, SortedBySize, Distinct, Tagged, Linked, Kept;
      Bounded();
      Span(i);
      ghost var bs, m0 := h.blocks, mem.data[..];
      ghost var f, l := Block(bp, remain, false), Block(bp + remain, asize, true);
      assert bs[i..i + 1] == [bs[i]];
      NotListed(h, i, f);
      TagPair(i, 1, bp, remain, 0, asize, 1);
      ghost var m1 := mem.data[..];
      assert h.blocks[i] == f && h.blocks[i + 1] == l;
      p := NextBlkp(i, bp);
      InsertNode(f, bp, remain);
      KeptThrough(bs, FIRST_BLOCK, h.brk, i, 1, [f, l], m0, m1, mem.data[..]);
    }

    // place with the free part last.
    method PlaceLow(ghost i: nat, bp: nat, asize: nat, remain: nat)
      requires Shaped() && Unlinked(i) && bp == h.blocks[i].ptr
      requires OkSize(asize) && OkSize(remain) && asize + remain == h.blocks[i].size
      modifies this, mem`words, mem.data
      ensures Shaped()
      ensures h == Recut(old(h), i, 1, [Block(bp, asize, true), Block(bp + asize, remain, false)])
      ensures Kept(old(h).blocks, old(mem.data[..]), mem.data[..])
    {
      hide Good, Tiled, SortedBySize, Distinct, Tagged, Linked, Kept;
      Bounded();
      Span(i);
      ghost var bs, m0 := h.blocks, mem.data[..];
      ghost var l, f := Block(bp, asize, true), Block(bp + asize, remain, false);
      assert bs[i..i + 1] == [bs[i]];
      NotListed(h, i, f);
      TagPair(i, 1, bp, asize, 1, remain, 0);
      ghost var m1 := mem.data[..];
      assert h.blocks[i] == l && h.blocks[i + 1] == f;
      var next := NextBlkp(i, bp);
      InsertNode(f, next, remain);
      KeptThrough(bs, FIRST_BLOCK, h.brk, i, 1, [l, f], m0, m1, mem.data[..]);
    }

    // Nothing changed.
    twostate predicate Untouched()
      reads this, mem, mem.data
    {
      && h == old(h) && listp == old(listp) && mem.brk == old(mem.brk)
      && mem.words == old(mem.words) && mem.data[..] == old(mem.data[..])
    }

    // The three tag writes of extend_heap, after mem_sbrk has moved the break by n.
    method TagNew(bp: nat, n: nat)
      requires mem.Valid() && Shape(mem.words, listp, h) && Good(h)
      requires bp == h.brk && bp >= FIRST_BLOCK && OkSize(n) && mem.brk == bp + n
      modifies this`h, mem`words, mem.data
      ensures Shaped()
      ensures h == Heap(old(h).brk + n, old(h).blocks + [Block(bp, n, false)], old(h).chain)
      ensures Kept(old(h).blocks, old(mem.data[..]), mem.data[..])
    {
      ghost var w, b, m := mem.words, Block(bp, n, false), mem.data[..];
      assert h.brk + n <= MAX_HEAP && Tiled(h.blocks, FIRST_BLOCK, h.brk);
      NewSpots(n);
      TagPacked(b);
      hide Good, Shape, Kept, Tiled, OkSize, Pack, Mult4, Memory.Valid, OnlyWithin;
      PutNew(b, bp, n);
      BelowKept(h.blocks, bp, bp + n, m, mem.data[..]);
      ExtendShape(w, mem.words, listp, h, n);
      h := Heap(h.brk + n, h.blocks + [b], h.chain);
    }

    // The three PUTs: header, footer, and the header of the block after.
    method PutNew(ghost b: Block, bp: nat, n: nat)
      requires mem.Valid() && b == Block(bp, n, false) && OkTag(b)
      requires 4 <= bp && MIN_BLOCK <= n < WORD_LIMIT && mem.brk == bp + n
      requires Mult4(bp - 4) && Mult4(bp + n - 8) && Mult4(bp + n - 4)
      requires Pack(n, 0) == n && Pack(0, 1) == EPILOGUE_TAG
      modifies mem`words, mem.data
      ensures mem.Valid()
      ensures mem.words == old(mem.words)[bp - 4 := n][bp + n - 8 := n][bp + n - 4 := EPILOGUE_TAG]
      ensures OnlyWithin(old(mem.data[..]), mem.data[..], bp - 4, bp + n)
    {
      hide OkTag, Pack, Mult4, Memory.Valid;
      mem.Put(bp - 4, Pack(n, 0));
      var s := GetSize(bp - 4, b);
      mem.Put(bp + s - 8, Pack(n, 0));
      s := GetSize(bp - 4, b);
      mem.Put(bp + s - 4, Pack(0, 1));
    }

    // Nothing of the blocks below the old epilogue changes.
    static lemma BelowKept(bs: seq<Block>, bp: int, hi: int, m: seq<Byte>, m': seq<Byte>)
      requires Tiled(bs, FIRST_BLOCK, bp) && OnlyWithin(m, m', bp - 4, hi)
      ensures Kept(bs, m, m')
    {
      TiledInside(bs, FIRST_BLOCK, bp);
    }

    lemma NewSpots(n: nat)
      requires Good(h) && h.brk >= FIRST_BLOCK && OkSize(n)
      ensures Mult4(h.brk - 4) && Mult4(h.brk + n - 8) && Mult4(h.brk + n - 4)
      ensures Pack(0, 1) == EPILOGUE_TAG
    {
      BrkAligned(h);
      Mult8Sum(h.brk, n);
      Mult8Words(h.brk);
      Mult8Words(h.brk + n);
    }

    // The new block is tagged and listed.
    method AppendFree(bp: nat, n: nat)
      requires mem.Valid() && Shape(mem.words, listp, h) && Good(h)
      requires bp == h.brk && bp >= FIRST_BLOCK && OkSize(n) && mem.brk == bp + n
      modifies this, mem`words, mem.data
      ensures Valid() && h == Extended(old(h), n)
      ensures Kept(old(h).blocks, old(mem.data[..]), mem.data[..])
    {
      ghost var g, b, m0 := h, Block(bp, n, false), mem.data[..];
      ExtendedGood(h, n);
      NewUnlisted(h, n);
      hide Good, Tiled, SortedBySize, Distinct;
      TagNew(bp, n);
      ghost var m1 := mem.data[..];
      assert h.blocks[|g.blocks|] == b;
      InsertNode(b, bp, n);
      KeptFewer(g.blocks, h.blocks, m1, mem.data[..]);
      KeptTrans(g.blocks, m0, m1, mem.data[..]);
    }

    // extend_heap; 0 for NULL.
    method ExtendHeap(words: Word) returns (p: nat)
      requires Valid() && OkSize(words) && words + 7 < WORD_LIMIT
      modifies this, mem, mem.data
      ensures CanGrow(old(h), words) ==> Valid() && h == Grown(old(h), words)
      ensures CanGrow(old(h), words) ==>
        GrownAt(old(h), words) < |h.blocks| && p == h.blocks[GrownAt(old(h), words)].ptr
      ensures CanGrow(old(h), words) ==> Kept(old(h).blocks, old(mem.data[..]), mem.data[..])
      ensures !CanGrow(old(h), words) ==> p == 0 && Untouched()
    {
      ghost var g, m0 := h, mem.data[..];
      AlignExact(words);
      var n := Align(words);
      var ok, bp := mem.Sbrk(n);
      if !ok {
        return 0;
      }
      ExtendedGood(h, n);
      AppendFree(bp, n);
      ghost var m1 := mem.data[..];
      assert h.blocks[|g.blocks|] == Block(bp, n, false);
      hide Good, Extended, Coalesced, CoalescedAt, Kept;
      p := Coalesce(|g.blocks|, bp);
      KeptGrown(g, n, m0, m1, mem.data[..]);
    }

    lemma AlignExact(n: Word)
      requires OkSize(n) && n + 7 < WORD_LIMIT
      ensures Align(n) == n
    {
      Mult8Mod(n);
    }

    lemma KeptGrown(g: Heap, n: int, m0: seq<Byte>, m1: seq<Byte>, m2: seq<Byte>)
      requires Kept(g.blocks, m0, m1) && Kept(Extended(g, n).blocks, m1, m2)
      ensures Kept(g.blocks, m0, m2)
    {
      KeptFewer(g.blocks, Extended(g, n).blocks, m1, m2);
    }

    // mm_init, on a memory just reset; -1 for failure.
    method Init() returns (r: int)
      requires mem.Valid() && mem.brk == 0
      modifies this, mem, mem.data
      ensures Valid() && h == Initial() && r == 0
    {
      listp := 0;
      var ok, p := mem.Sbrk(16);
      if !ok {
        assert false;
        return -1;
      }
      ghost var w := mem.words;
      assert Mult4(0) && Mult4(4) && Mult4(8) && Mult4(12);
      PackSum(8, 1);
      PackSum(0, 1);
      mem.Put(p, 0);
      mem.Put(p + 4, Pack(8, 1));
      mem.Put(p + 8, Pack(8, 1));
      mem.Put(p + 12, Pack(0, 1));
      h := Heap(FIRST_BLOCK, [], []);
      InitShape(w, mem.words);
      assert OkSize(INITCHUNKSIZE) by { Mult8Mod(64); }
      var bp := ExtendHeap(INITCHUNKSIZE);
      assert Grown(Heap(FIRST_BLOCK, [], []), INITCHUNKSIZE) == Initial();
      Span(0);
      if bp == 0 {
        return -1;
      }
      return 0;
    }

    // The nodes that are large enough are those from InsertPos on, and the first
    // of them is the smallest.
    static lemma LargeEnough(c: seq<Block>, asize: int, k: nat)
      requires SortedBySize(c) && k < |c|
      ensures var j := InsertPos(c, asize); j <= k <==> c[k].size >= asize
      ensures var j := InsertPos(c, asize); j <= k ==> c[j].size <= c[k].size
    {
    }

    // The search loop of mm_malloc; 0 when no listed block is large enough.
    method BestFit(asize: nat) returns (best: nat)
      requires Valid() && OkSize(asize)
      ensures best == NodeAt(h.chain, InsertPos(h.chain, asize))
    {
      assert SortedBySize(h.chain);
      hide Shape, Good, Tiled, OkSize, InsertPos, SortedBySize, Memory.Valid;
      ghost var c, j, k := h.chain, InsertPos(h.chain, asize), 0;
      ListHead();
      best := 0;
      var bestSize := WORD_LIMIT - 1;
      var ptr := listp;
      while ptr != 0
        invariant 0 <= k <= |c| && (ptr == 0 <==> k == |c|) && (k < |c| ==> ptr == c[k].ptr)
        invariant k <= j ==> best == 0 && bestSize == WORD_LIMIT - 1
        invariant k > j ==> j < |c| && best == c[j].ptr && bestSize == c[j].size
        decreases |c| - k
      {
        LargeEnough(c, asize, k);
        var size, free := NodeTag(k, ptr);
        if free && size >= asize {
          if size < bestSize {
            best := ptr;
            bestSize := size;
          }
          if bestSize == asize {
            assert k >= j;
            k := |c|;
            break;
          }
        }
        ptr := NodeNext(k, ptr);
        k := k + 1;
      }
    }

    // GET_SIZE(HDRP(ptr)) and !GET_ALLOC(HDRP(ptr)) of a listed node.
    method NodeTag(ghost k: nat, ptr: nat) returns (size: nat, free: bool)
      requires Valid() && k < |h.chain| && ptr == h.chain[k].ptr
      ensures free && size == h.chain[k].size && size < WORD_LIMIT - 1
    {
      NodeWords(k);
      assert h.chain[k] in h.chain;
      size := GetSize(ptr - 4, h.chain[k]);
      var a := GetAlloc(ptr - 4, h.chain[k]);
      free := a == 0;
    }

    // SEGLIST_NEXT(ptr).
    method NodeNext(ghost k: nat, ptr: nat) returns (next: nat)
      requires Valid() && k < |h.chain| && ptr == h.chain[k].ptr
      ensures next == NodeAt(h.chain, k + 1) && (next == 0 <==> k + 1 == |h.chain|)
    {
      NodeWords(k);
      next := mem.Get(ptr);
      if k + 1 < |h.chain| { NodeWords(k + 1); }
    }

    // mm_malloc; 0 for NULL.
    method Malloc(size: Word) returns (p: nat)
      requires Valid() && size + 15 < WORD_LIMIT
      modifies this, mem, mem.data
      ensures Valid() && (h, p as int) == HeapOps.Malloc(old(h), size)
      ensures exists f, cut :: MallocEffect(old(h), size, h, p, f, cut)
      ensures Kept(old(h).blocks, old(mem.data[..]), mem.data[..])
      ensures p == 0 ==> Untouched()
    {
      ghost var f, cut := MallocExactly(h, size);
      hide MallocEffect;
      if size == 0 {
        return 0;
      }
      AdjOk(size);
      var asize := AdjMalloc(size);
      SpotGood(h, asize);
      p := Claim(asize);
    }

    // mm_malloc from the search on.
    method Claim(asize: nat) returns (p: nat)
      requires Valid() && OkSize(asize)
      modifies this, mem, mem.data
      ensures var s := FindSpot(old(h), asize);
        && Valid()
        && (s == Nowhere ==> p == 0 && Untouched())
        && (s != Nowhere ==> s.index < |s.heap.blocks| && h == Placed(s.heap, s.index, asize))
        && (s != Nowhere ==> p == PlacedPtr(s.heap.blocks[s.index], asize) && p != 0)
      ensures Kept(old(h).blocks, old(mem.data[..]), mem.data[..])
    {
      ghost var g, s, m0 := h, FindSpot(h, asize), mem.data[..];
      SpotGood(h, asize);
      SpotWhere(h, asize);
      SpotLive(h, asize);
      hide FindSpot, Good, Kept, Shape, Placed, PlacedPtr;
      var best := Reserve(asize);
      if best == 0 {
        return 0;
      }
      ghost var m1 := mem.data[..];
      p := Place(s.index, best, asize);
      KeptFewer(g.blocks, s.heap.blocks, m1, mem.data[..]);
      KeptTrans(g.blocks, m0, m1, mem.data[..]);
    }

    // The free block to place in: the best fit, or a new one from extend_heap.
    method Reserve(asize: nat) returns (best: nat)
      requires Valid() && OkSize(asize)
      modifies this, mem, mem.data
      ensures var s := FindSpot(old(h), asize);
        && (s == Nowhere ==> best == 0 && Untouched())
        && (s != Nowhere ==> Valid() && h == s.heap && best != 0)
        && (s != Nowhere ==> s.index < |h.blocks| && best == h.blocks[s.index].ptr)
      ensures Kept(old(h).blocks, old(mem.data[..]), mem.data[..])
    {
      SpotWhere(h, asize);
      ChunkOk(asize);
      hide FindSpot, Good, Kept, Grown, GrownAt, OkSize;
      best := BestFit(asize);
      if best == 0 {
        best := ExtendHeap(Max(asize, CHUNKSIZE));
      }
    }

    // mm_free
    method Free(ghost i: nat, ptr: nat)
      requires Valid() && i < |h.blocks| && h.blocks[i].alloc && ptr == h.blocks[i].ptr
      modifies this, mem`words, mem.data
      ensures Valid() && h == Freed(old(h), i) && h.brk == old(h).brk && Joined(old(h).blocks, i, h.blocks)
      ensures Kept(Others(old(h).blocks, i), old(mem.data[..]), mem.data[..])
    {
      ghost var g, m0 := h, mem.data[..];
      FreedGood(h, i);
      FreedExactly(h, i);
      var size := HeaderSize(i, ptr);
      ghost var b := Block(ptr, size, false);
      FreeTags(i, ptr, size);
      ghost var m1 := mem.data[..];
      hide Recut, Good, Kept, Shape, Coalesced, Joined;
      var _ := Coalesce(i, ptr);
      OthersStay(g, i, [b]);
      KeptFewer(Others(g.blocks, i), Recut(g, i, 1, [b]).blocks, m1, mem.data[..]);
      KeptTrans(Others(g.blocks, i), m0, m1, mem.data[..]);
    }

    // The tag and list writes of mm_free.
    method FreeTags(ghost i: nat, ptr: nat, size: nat)
      requires Valid() && i < |h.blocks| && h.blocks[i] == Block(ptr, size, true)
      modifies this, mem`words, mem.data
      ensures Shaped() && h == Recut(old(h), i, 1, [Block(ptr, size, false)])
      ensures Kept(Others(old(h).blocks, i), old(mem.data[..]), mem.data[..])
    {
      hide Good, Tiled, SortedBySize, Distinct, Tagged, Linked, Kept, OkSize;
      ghost var g, m0, b := h, mem.data[..], Block(ptr, size, false);
      Span(i);
      NotListed(h, i, b);
      TagWhole(i, 1, ptr, size, 0);
      ghost var m1 := mem.data[..];
      OutsideKept(g.blocks, FIRST_BLOCK, g.brk, i, 1, m0, m1);
      assert h.blocks[i] == b;
      InsertNode(b, ptr, size);
      OthersStay(g, i, [b]);
      KeptFewer(Others(g.blocks, i), h.blocks, m1, mem.data[..]);
      KeptTrans(Others(g.blocks, i), m0, m1, mem.data[..]);
    }

    lemma OthersStay(g: Heap, i: nat, cut: seq<Block>)
      requires i < |g.blocks|
      ensures forall b :: b in Others(g.blocks, i) ==> b in Replace(g.blocks, i, 1, cut)
    {
    }

    // mm_realloc where the block is large enough.
    method Shrink(ghost i: nat, ptr: nat, size: nat, asize: nat)
      requires Valid() && i < |h.blocks| && h.blocks[i] == Block(ptr, size, true)
      requires OkSize(asize) && asize <= size
      modifies this, mem`words, mem.data
      ensures Valid() && h == Shrunk(old(h), i, asize)
      ensures Kept(Others(old(h).blocks, i), old(mem.data[..]), mem.data[..])
      ensures SameBytes(old(mem.data[..]), ptr, mem.data[..], ptr, asize - 8)
    {
      hide Good, Recut, Shrunk, Tiled, Shape;
      Span(i);
      ShrunkGood(h, i, asize);
      ShrunkCases(h, i, asize);
      var remainder := size - asize;
      if remainder >= MIN_BLOCK {
        hide Kept, SameBytes;
        TrimOk(size, asize);
        OneOff(i);
        TrimTags(i, 1, ptr, asize, remainder, asize - 8);
      }
    }

    lemma OneOff(i: nat)
      requires Valid() && i < |h.blocks| && h.blocks[i].alloc
      ensures forall b :: b in h.blocks[i..i + 1] ==> b !in h.chain
    {
      assert h.blocks[i..i + 1] == [h.blocks[i]];
    }

    lemma TrimOk(size: nat, asize: nat)
      requires OkSize(size) && OkSize(asize) && size - asize >= MIN_BLOCK
      ensures OkSize(size - asize)
    {
      Mult8Sum(size, asize);
    }

    // The split of mm_realloc: tags of the kept part, of the rest, and a node for the rest.
    method TrimTags(ghost i: nat, ghost n: nat, ptr: nat, asize: nat, remainder: nat, ghost keep: nat)
      requires Shaped() && 1 <= n <= 2 && i + n <= |h.blocks| && (n == 2 ==> !h.blocks[i + 1].alloc)
      requires forall b :: b in h.blocks[i..i + n] ==> b !in h.chain
      requires ptr == h.blocks[i].ptr && ptr + asize + remainder == h.blocks[i + n - 1].End()
      requires OkSize(asize) && OkSize(remainder) && keep <= asize - 8 && keep <= h.blocks[i].size
      modifies this, mem`words, mem.data
      ensures Shaped()
      ensures h == Recut(old(h), i, n, [Block(ptr, asize, true), Block(ptr + asize, remainder, false)])
      ensures Kept(Others(old(h).blocks, i), old(mem.data[..]), mem.data[..])
      ensures SameBytes(old(mem.data[..]), ptr, mem.data[..], ptr, keep)
    {
      hide Good, Tiled, SortedBySize, Distinct, Tagged, Linked, Kept;
      Bounded();
      ghost var g, m0 := h, mem.data[..];
      ghost var l, f := Block(ptr, asize, true), Block(ptr + asize, remainder, false);
      assert h.blocks[i..i + n][0] == h.blocks[i] && h.blocks[i..i + n][n - 1] == h.blocks[i + n - 1];
      NotListedRun(h, i, n, f);
      TagPair(i, n, ptr, asize, 1, remainder, 0);
      ghost var m1 := mem.data[..];
      assert h.blocks[i] == l && h.blocks[i + 1] == f;
      var next := NextBlkp(i, ptr);
      InsertNode(f, next, remainder);
      TrimKept(g, i, n, [l, f], keep, m0, m1, mem.data[..]);
    }

    lemma TrimKept(g: Heap, i: nat, n: nat, cut: seq<Block>, keep: nat, m0: seq<Byte>, m1: seq<Byte>, m2: seq<Byte>)
      requires Partial(g) && 1 <= n <= 2 && i + n <= |g.blocks| && (n == 2 ==> !g.blocks[i + 1].alloc)
      requires |cut| == 2 && cut[0] == Block(g.blocks[i].ptr, cut[0].size, true)
      requires OkSize(cut[0].size) && OkSize(cut[1].size) && keep <= cut[0].size - 8 && keep <= g.blocks[i].size
      requires cut[0].ptr + cut[0].size + cut[1].size == g.blocks[i + n - 1].End()
      requires |m0| == |m1| == MAX_HEAP && Kept(Replace(g.blocks, i, n, cut), m1, m2)
      requires var p, s1, s2 := cut[0].ptr, cut[0].size, cut[1].size; forall k :: (0 <= k < |m0| &&
        !(p - 4 <= k < p) && !(p + s1 - 8 <= k < p + s1) && !(p + s1 + s2 - 8 <= k < p + s1 + s2 - 4)) ==>
        m1[k] == m0[k]
      ensures Kept(Others(g.blocks, i), m0, m2) && SameBytes(m0, g.blocks[i].ptr, m2, g.blocks[i].ptr, keep)
    {
      BlockInside(g, i);
      BlockInside(g, i + n - 1);
      RunRewritten(g.blocks, FIRST_BLOCK, g.brk, i, n, cut, keep, m0, m1, m2);
    }

    // mm_realloc into the free block after it, once that is off the list.
    method Absorb(ghost i: nat, ptr: nat, size: nat, total: nat, asize: nat)
      requires Shaped() && i + 1 < |h.blocks| && h.blocks[i] == Block(ptr, size, true) && Unlinked(i + 1)
      requires total == size + h.blocks[i + 1].size && OkSize(asize) && size < asize <= total && OkSize(total)
      modifies this, mem`words, mem.data
      ensures Shaped() && h == Recut(old(h), i, 2, Trim(ptr, total, asize))
      ensures Kept(Others(old(h).blocks, i), old(mem.data[..]), mem.data[..])
      ensures SameBytes(old(mem.data[..]), ptr, mem.data[..], ptr, size - 8)
    {
      ghost var g, m0 := h, mem.data[..];
      AbsorbSpan(i, size, asize);
      var remainder := total - asize;
      if remainder >= MIN_BLOCK {
        TrimOk(total, asize);
        assert Trim(ptr, total, asize) == [Block(ptr, asize, true), Block(ptr + asize, remainder, false)];
        hide Recut, Trim, Kept, SameBytes, Tiled;
        TrimTags(i, 2, ptr, asize, remainder, size - 8);
      } else {
        assert Trim(ptr, total, asize) == [Block(ptr, total, true)];
        hide Trim, Kept, SameBytes, Tiled;
        TagWhole(i, 2, ptr, total, 1);
        AbsorbKept(g, i, total, m0, mem.data[..]);
      }
    }

    lemma AbsorbSpan(i: nat, size: nat, asize: nat)
      requires Shaped() && i + 1 < |h.blocks| && h.blocks[i].alloc && Unlinked(i + 1)
      requires OkSize(asize) && size == h.blocks[i].size < asize
      ensures h.blocks[i].ptr + size == h.blocks[i + 1].ptr && MIN_BLOCK <= size <= asize - 8
      ensures forall b :: b in h.blocks[i..i + 2] ==> b !in h.chain
    {
      BlockInside(h, i);
      Mult8Sum(asize, size);
      assert h.blocks[i..i + 2] == [h.blocks[i], h.blocks[i + 1]];
    }

    lemma AbsorbKept(g: Heap, i: nat, total: nat, m0: seq<Byte>, m1: seq<Byte>)
      requires Partial(g) && i + 1 < |g.blocks| && g.blocks[i].alloc && !g.blocks[i + 1].alloc
      requires total == g.blocks[i].size + g.blocks[i + 1].size && |m0| == |m1| == MAX_HEAP
      requires var p := g.blocks[i].ptr; forall k ::
        0 <= k < |m0| && !(p - 4 <= k < p) && !(p + total - 8 <= k < p + total - 4) ==> m1[k] == m0[k]
      ensures Kept(Others(g.blocks, i), m0, m1)
      ensures SameBytes(m0, g.blocks[i].ptr, m1, g.blocks[i].ptr, g.blocks[i].size - 8)
    {
      var m := Block(g.blocks[i].ptr, total, true);
      BlockInside(g, i);
      BlockInside(g, i + 1);
      RunRewritten(g.blocks, FIRST_BLOCK, g.brk, i, 2, [m], g.blocks[i].size - 8, m0, m1, m1);
    }

    // A client's memset inside a live payload.
    method Memset(ghost b: Block, p: nat, v: Byte, n: nat)
      requires Valid() && b in h.blocks && b.alloc && p == b.ptr && n <= b.size - 8
      modifies mem`words, mem.data
      ensures Valid() && h == old(h)
      ensures forall k :: 0 <= k < mem.data.Length && p <= k < p + n ==> mem.data[k] == v
      ensures forall k :: 0 <= k < mem.data.Length && !(p <= k < p + n) ==> mem.data[k] == old(mem.data[k])
    {
      PayloadInside(b);
      ghost var w := mem.words;
      mem.Fill(p, v, n);
      ClientShape(w, mem.words, listp, h, b, p, p + n);
    }

    // memcpy from one live payload into another.
    method Memcpy(ghost b: Block, ghost c: Block, p: nat, q: nat, n: nat)
      requires Valid() && b in h.blocks && c in h.blocks && b != c && b.alloc && c.alloc
      requires p == b.ptr && q == c.ptr && n <= b.size - 8 && n <= c.size - 8
      modifies mem`words, mem.data
      ensures Valid() && h == old(h)
      ensures SameBytes(old(mem.data[..]), q, mem.data[..], p, n)
      ensures OnlyWithin(old(mem.data[..]), mem.data[..], p, p + n)
    {
      PayloadInside(b);
      PayloadInside(c);
      TiledApart(h.blocks, FIRST_BLOCK, h.brk);
      ghost var w := mem.words;
      mem.Copy(p, q, n);
      ClientShape(w, mem.words, listp, h, b, p, p + n);
    }

    lemma PayloadInside(b: Block)
      requires Valid() && b in h.blocks
      ensures FIRST_BLOCK <= b.ptr && b.End() <= mem.brk && MIN_BLOCK <= b.size
    {
      TiledInside(h.blocks, FIRST_BLOCK, h.brk);
    }

    // mm_realloc's last path: a new block, a copy, and the old block freed.
    method Move(ghost i: nat, ptr: nat, size: Word, cur: nat) returns (p: nat)
      requires Valid() && size + 15 < WORD_LIMIT && i < |h.blocks| && h.blocks[i] == Block(ptr, cur, true)
      requires cur < AdjMalloc(size) && size > 0
      modifies this, mem, mem.data
      ensures Valid() && p == HeapOps.Malloc(old(h), size).1 && (p == 0 ==> Untouched())
      ensures var g := HeapOps.Malloc(old(h), size).0; var j := IndexOf(g.blocks, ptr);
        p != 0 ==> j < |g.blocks| && h == Freed(g, j)
      ensures Kept(Others(old(h).blocks, i), old(mem.data[..]), mem.data[..]) || p == 0
      ensures p != 0 ==> SameBytes(old(mem.data[..]), ptr, mem.data[..], p, cur - 8)
    {
      hide MallocEffect, Joined, Memory.Valid, HeapOps.Malloc, Good, Shape;
      hide Kept, SameBytes, OnlyWithin, LivePlus, Freed, Tiled;
      hide NewBlock, Others;
      ghost var b, x, h0, m0 := h.blocks[i], NewBlock(h, size), h, mem.data[..];
      MallocLive(h, size);
      CurFits(i, size);
      p := Malloc(size);
      if p == 0 {
        return 0;
      }
      ghost var g, m1, j := h, mem.data[..], IndexOf(h.blocks, ptr);
      NewBlockIn(h0, size, b);
      LiveIndex(b);
      Memcpy(x, b, p, ptr, if size < cur - 8 then size else cur - 8);
      ghost var m2 := mem.data[..];
      Free(j, ptr);
      MoveKept(h0, g, i, j, x, cur - 8, m0, m1, m2, mem.data[..]);
    }

    lemma LiveIndex(b: Block)
      requires Valid() && b in h.blocks
      ensures IndexOf(h.blocks, b.ptr) < |h.blocks| && h.blocks[IndexOf(h.blocks, b.ptr)] == b
      ensures h.brk <= MAX_HEAP == mem.data.Length
    {
      IndexOfMember(h, b);
    }

    lemma NewBlockIn(h0: Heap, size: Word, b: Block)
      requires LivePlus(h0.blocks, h.blocks, NewBlock(h0, size)) && b in h0.blocks && b.alloc
      ensures var x := NewBlock(h0, size); x.alloc && x in h.blocks && x != b && b in h.blocks
    {
    }

    // The block to move is shorter than the request: the whole payload is copied.
    lemma CurFits(i: nat, size: Word)
      requires Valid() && size + 15 < WORD_LIMIT && size > 0 && i < |h.blocks|
      requires h.blocks[i].size < AdjMalloc(size)
      ensures 8 <= h.blocks[i].size && h.blocks[i].size - 8 <= size && h.blocks[i] in h.blocks
      ensures h.blocks[i].size + 8 <= AdjMalloc(size)
    {
      Span(i);
      AdjOk(size);
      Mult8Sum(AdjMalloc(size), h.blocks[i].size);
    }

    lemma MoveKept(h0: Heap, g: Heap, i: nat, j: nat, x: Block, n: nat,
                   m0: seq<Byte>, m1: seq<Byte>, m2: seq<Byte>, m3: seq<Byte>)
      requires Good(h0) && Good(g) && i < |h0.blocks| && j < |g.blocks| && h0.blocks[i] == g.blocks[j]
      requires LivePlus(h0.blocks, g.blocks, x) && h0.blocks[i].alloc && n == h0.blocks[i].size - 8 <= x.size - 8
      requires g.brk <= |m0| == |m1|
      requires Kept(h0.blocks, m0, m1) && Kept(Others(g.blocks, j), m2, m3)
      requires SameBytes(m1, h0.blocks[i].ptr, m2, x.ptr, n)
      requires OnlyWithin(m1, m2, x.ptr, x.ptr + n)
      ensures Kept(Others(h0.blocks, i), m0, m3)
      ensures SameBytes(m0, h0.blocks[i].ptr, m3, x.ptr, n)
    {
      MovedOthers(h0, g, i, j, x, n, m1, m2);
      MovedBytes(h0, g, i, j, x, n, m0, m1, m2, m3);
      var rest := Others(h0.blocks, i);
      OthersMembers(h0, i);
      hide Good, LivePlus, Kept, SameBytes, OnlyWithin;
      KeptFewer(rest, h0.blocks, m0, m1);
      KeptFewer(rest, Others(g.blocks, j), m2, m3);
      KeptTrans(rest, m0, m1, m2);
      KeptTrans(rest, m0, m2, m3);
    }

    // The copy into the new block x leaves the other live payloads alone.
    lemma MovedOthers(h0: Heap, g: Heap, i: nat, j: nat, x: Block, n: nat, m1: seq<Byte>, m2: seq<Byte>)
      requires Good(h0) && Good(g) && i < |h0.blocks| && j < |g.blocks| && h0.blocks[i] == g.blocks[j]
      requires LivePlus(h0.blocks, g.blocks, x) && n <= x.size - 8 && OnlyWithin(m1, m2, x.ptr, x.ptr + n)
      ensures Kept(Others(h0.blocks, i), m1, m2)
      ensures forall b :: b in Others(h0.blocks, i) && b.alloc ==> b in Others(g.blocks, j)
    {
      OthersMembers(h0, i);
      OthersMembers(g, j);
      TiledApart(g.blocks, FIRST_BLOCK, g.brk);
      hide Good, Tiled, Others;
    }

    // The bytes of the old payload arrive in x and stay there.
    lemma MovedBytes(h0: Heap, g: Heap, i: nat, j: nat, x: Block, n: nat,
                     m0: seq<Byte>, m1: seq<Byte>, m2: seq<Byte>, m3: seq<Byte>)
      requires Good(h0) && Good(g) && i < |h0.blocks| && j < |g.blocks| && h0.blocks[i] == g.blocks[j]
      requires LivePlus(h0.blocks, g.blocks, x) && h0.blocks[i].alloc && n == h0.blocks[i].size - 8 <= x.size - 8
      requires g.brk <= |m0| == |m1|
      requires Kept(h0.blocks, m0, m1) && Kept(Others(g.blocks, j), m2, m3)
      requires SameBytes(m1, h0.blocks[i].ptr, m2, x.ptr, n)
      ensures SameBytes(m0, h0.blocks[i].ptr, m3, x.ptr, n)
    {
      var b := h0.blocks[i];
      assert b in h0.blocks;
      OthersMembers(g, j);
      TiledInside(g.blocks, FIRST_BLOCK, g.brk);
      hide Good, Tiled;
      assert x in Others(g.blocks, j) && b in g.blocks;
      assert m1[b.ptr..b.ptr + n] == m0[b.ptr..b.ptr + n];
      assert m3[x.ptr..x.ptr + n] == m2[x.ptr..x.ptr + n];
    }

    lemma OthersMembers(g: Heap, i: nat)
      requires Good(g) && i < |g.blocks|
      ensures forall b :: b in Others(g.blocks, i) <==> b in g.blocks && b != g.blocks[i]
    {
      TiledApart(g.blocks, FIRST_BLOCK, g.brk);
      hide Good, Tiled;
      var bs := g.blocks;
      assert Others(bs, i) == bs[..i] + bs[i + 1..];
      forall b | b in bs && b != bs[i]
        ensures b in Others(bs, i)
      {
        var k :| 0 <= k < |bs| && bs[k] == b;
        assert k < i ==> bs[..i][k] == b;
        assert k > i ==> bs[i + 1..][k - i - 1] == b;
      }
    }

    // mm_realloc of live block i to size > 0.
    method Resize(ghost i: nat, ptr: nat, size: Word) returns (p: nat)
      requires Valid() && 1 <= size && size + 15 < WORD_LIMIT
      requires i < |h.blocks| && h.blocks[i].alloc && ptr == h.blocks[i].ptr
      modifies this, mem, mem.data
      ensures Valid() && (h, p as int) == HeapOps.Realloc(old(h), i, size)
      ensures p == 0 ==> Untouched()
      ensures p != 0 ==> Kept(Others(old(h).blocks, i), old(mem.data[..]), mem.data[..])
      ensures p != 0 ==>
        SameBytes(old(mem.data[..]), ptr, mem.data[..], p, Min(size, old(h).blocks[i].size - 8))
    {
      hide Good, Shape, Kept, SameBytes, Others, Tiled, Freed, Shrunk, Absorbed, Recut, OkSize, AdjRealloc, AdjMalloc;
      ghost var g, b, m0 := h, h.blocks[i], mem.data[..];
      ResizeFacts(i, size);
      var asize := AdjRealloc(size);
      var cur := HeaderSize(i, ptr);
      if cur >= asize {
        Shrink(i, ptr, cur, asize);
        SameShorter(m0, ptr, mem.data[..], ptr, asize - 8, Min(size, cur - 8));
        return ptr;
      }
      var absorbed := TryAbsorb(i, ptr, cur, asize);
      if absorbed {
        SameShorter(m0, ptr, mem.data[..], ptr, cur - 8, Min(size, cur - 8));
        return ptr;
      }
      p := Move(i, ptr, size, cur);
    }

    lemma ResizeFacts(i: nat, size: Word)
      requires Valid() && 1 <= size && size + 15 < WORD_LIMIT && i < |h.blocks|
      ensures AdjRealloc(size) == AdjMalloc(size) && OkSize(AdjMalloc(size)) && size + 8 <= AdjMalloc(size)
      ensures h.blocks[i].ptr > 0 && h.blocks[i].size >= MIN_BLOCK
      ensures h.blocks[i].size < AdjMalloc(size) ==> h.blocks[i].size - 8 <= size
      ensures HeapOps.Malloc(h, size).1 == 0 ==> HeapOps.Malloc(h, size).0 == h
    {
      MallocLive(h, size);
      AdjOk(size);
      Span(i);
      if h.blocks[i].size < AdjMalloc(size) { CurFits(i, size); }
    }

    lemma SameShorter(m: seq<Byte>, p: int, m': seq<Byte>, q: int, n: int, k: int)
      requires SameBytes(m, p, m', q, n) && 0 <= k <= n
      ensures SameBytes(m, p, m', q, k)
    {
      assert m[p..p + n][..k] == m[p..p + k];
      assert m'[q..q + n][..k] == m'[q..q + k];
    }

    // mm_realloc's second path, if the next block is free and large enough.
    method TryAbsorb(ghost i: nat, ptr: nat, cur: nat, asize: nat) returns (done: bool)
      requires Valid() && OkSize(asize) && cur < asize
      requires i < |h.blocks| && h.blocks[i] == Block(ptr, cur, true)
      modifies this, mem`words, mem.data
      ensures Valid() && done == CanAbsorb(old(h), i, asize)
      ensures done <==> Reach(old(h).blocks, i) >= asize
      ensures done ==> h == Absorbed(old(h), i, asize)
      ensures done ==> Kept(Others(old(h).blocks, i), old(mem.data[..]), mem.data[..])
      ensures done ==> SameBytes(old(mem.data[..]), ptr, mem.data[..], ptr, cur - 8)
      ensures !done ==> Untouched()
    {
      hide Good, Shape, Kept, SameBytes, Tiled, Recut, Trim, OkSize;
      ghost var g, m0 := h, mem.data[..];
      var next := NextBlkp(i, ptr);
      var nextAlloc, nextSize := NextTag(i, ptr);
      if nextAlloc != 0 || cur + nextSize < asize {
        return false;
      }
      AbsorbReady(h, i);
      AbsorbedGood(h, i, asize);
      ghost var nx := h.blocks[i + 1];
      FreeListed(i + 1);
      DeleteNode(nx, next);
      ghost var m1 := mem.data[..];
      Absorb(i, ptr, cur, cur + nextSize, asize);
      AbsorbTwo(g, i, ptr, cur - 8, m0, m1, mem.data[..]);
      return true;
    }

    lemma FreeListed(i: nat)
      requires Valid() && FreeAt(h.blocks, i)
      ensures h.blocks[i] in h.chain && h.blocks[i] !in Removed(h.chain, h.blocks[i])
    {
      assert h.blocks[i] in h.blocks;
      RemovedMembers(h.chain, h.blocks[i]);
    }

    lemma AbsorbTwo(g: Heap, i: nat, ptr: int, n: int, m0: seq<Byte>, m1: seq<Byte>, m2: seq<Byte>)
      requires Good(g) && i < |g.blocks| && g.blocks[i].alloc && g.brk <= |m0|
      requires ptr == g.blocks[i].ptr && n == g.blocks[i].size - 8
      requires Kept(g.blocks, m0, m1) && Kept(Others(g.blocks, i), m1, m2) && SameBytes(m1, ptr, m2, ptr, n)
      ensures Kept(Others(g.blocks, i), m0, m2) && SameBytes(m0, ptr, m2, ptr, n)
    {
      BlockInside(g, i);
      OthersMembers(g, i);
      hide Good;
      KeptFewer(Others(g.blocks, i), g.blocks, m0, m1);
      KeptTrans(Others(g.blocks, i), m0, m1, m2);
      PayloadKept(g.blocks, i, m0, m1);
      assert m1[ptr..ptr + n] == m0[ptr..ptr + n];
    }

    // GET_ALLOC(HDRP(next)) and GET_SIZE(HDRP(next)) of the block after block i,
    // the epilogue after the last.
    method NextTag(ghost i: nat, ptr: nat) returns (a: nat, s: nat)
      requires Shaped() && i < |h.blocks| && ptr == h.blocks[i].ptr
      ensures a == if FreeAt(h.blocks, i + 1) then 0 else 1
      ensures s == BlockAfter(i).size
    {
      var next := NextBlkp(i, ptr);
      AfterWords(i);
      a := GetAlloc(next - 4, BlockAfter(i));
      s := GetSize(next - 4, BlockAfter(i));
    }

    // mm_realloc; 0 for NULL. i is the index of the block at ptr, if ptr is not NULL.
    method Realloc(ghost i: nat, ptr: nat, size: Word) returns (p: nat)
      requires Valid() && size + 15 < WORD_LIMIT
      requires ptr != 0 ==> i < |h.blocks| && h.blocks[i].alloc && ptr == h.blocks[i].ptr
      modifies this, mem, mem.data
      ensures Valid()
      ensures ptr == 0 ==> (h, p as int) == HeapOps.Malloc(old(h), size)
      ensures ptr == 0 ==> Kept(old(h).blocks, old(mem.data[..]), mem.data[..])
      ensures ptr != 0 && size == 0 ==> p == 0 && h == Freed(old(h), i)
      ensures ptr != 0 && size == 0 ==> Kept(Others(old(h).blocks, i), old(mem.data[..]), mem.data[..])
      ensures ptr == 0 ==> exists f, cut :: MallocEffect(old(h), size, h, p, f, cut)
      ensures ptr != 0 && size == 0 ==> Joined(old(h).blocks, i, h.blocks)
      ensures ptr != 0 && size > 0 ==> (h, p as int) == HeapOps.Realloc(old(h), i, size)
      ensures ptr != 0 && size > 0 ==> ReallocEffect(old(h), i, size, h, p)
      ensures p == 0 && (ptr == 0 || size > 0) ==> Untouched()
      ensures ptr != 0 && p != 0 ==> Kept(Others(old(h).blocks, i), old(mem.data[..]), mem.data[..])
      ensures ptr != 0 && p != 0 ==>
        SameBytes(old(mem.data[..]), ptr, mem.data[..], p, Min(size, old(h).blocks[i].size - 8))
    {
      hide Good, Shape, Kept, SameBytes, Others, Freed, HeapOps.Malloc, HeapOps.Realloc;
      hide MallocEffect, ReallocEffect, Joined;
      if ptr == 0 {
        p := Malloc(size);
      } else if size == 0 {
        Free(i, ptr);
        p := 0;
      } else {
        ReallocExactly(h, i, size);
        p := Resize(i, ptr, size);
      }
    }
  }
}
