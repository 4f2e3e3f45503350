// How an abstract heap lies in memory: boundary tags at both ends of every
// block, prologue and epilogue around them, and list links in free payloads.
module Layout {
  import opened Words
  import opened MemLib
  import opened HeapModel

  const PROLOGUE_TAG := 9
  const EPILOGUE_TAG := 1

  // The word in both tags of a block.
  function Tag(b: Block): int { b.size + if b.alloc then 1 else 0 }

  ghost predicate OkTag(b: Block) { b.size < WORD_LIMIT && Mult8(b.size) }

  // PACK writes it, GET_SIZE and GET_ALLOC read it back.
  lemma TagPacked(b: Block)
    requires OkTag(b)
    ensures 0 <= Tag(b) < WORD_LIMIT && Pack(b.size, if b.alloc then 1 else 0) == Tag(b)
    ensures SizeOf(Tag(b)) == b.size && AllocOf(Tag(b)) == if b.alloc then 1 else 0
  {
    Mult8Mod(b.size);
    PackSum(b.size, if b.alloc then 1 else 0);
    PackRoundTrip(b.size, if b.alloc then 1 else 0);
  }

  ghost predicate TaggedBlock(w: Words32, b: Block) {
    At(w, b.ptr - 4) == Tag(b) && At(w, b.End() - 8) == Tag(b)
  }

  ghost predicate Tagged(w: Words32, bs: seq<Block>) {
    forall b :: b in bs ==> TaggedBlock(w, b)
  }

  // The address of the i-th list node, NULL when there is none.
  function NodeAt(c: seq<Block>, i: int): int {
    if 0 <= i < |c| then c[i].ptr else 0
  }

  ghost predicate LinkedNode(w: Words32, c: seq<Block>, i: nat)
    requires i < |c|
  {
    At(w, c[i].ptr) == NodeAt(c, i + 1) && At(w, c[i].ptr + 4) == NodeAt(c, i - 1)
  }

  // The list from listp runs through c and ends in NULL; prev inverts next.
  ghost predicate Linked(w: Words32, listp: int, c: seq<Block>) {
    listp == NodeAt(c, 0) && forall i :: 0 <= i < |c| ==> LinkedNode(w, c, i)
  }

  ghost predicate Shape(w: Words32, listp: int, h: Heap) {
    && Partial(h)
    && At(w, 4) == At(w, 8) == PROLOGUE_TAG
    && At(w, h.brk - 4) == EPILOGUE_TAG
    && Tagged(w, h.blocks)
    && Linked(w, listp, h.chain)
  }

  // ------------------------------------------------------------- frames

  // Payload bytes of the live blocks of bs are the same in both images.
  ghost predicate Kept(bs: seq<Block>, m: seq<Byte>, m': seq<Byte>) {
    |m| == |m'| &&
    forall b, k :: b in bs && b.alloc && b.ptr <= k < b.End() - 8 && 0 <= k < |m| ==> m'[k] == m[k]
  }

  // Only bytes of [lo, hi) differ.
  ghost predicate OnlyWithin(m: seq<Byte>, m': seq<Byte>, lo: int, hi: int) {
    |m| == |m'| && forall k :: 0 <= k < |m| && !(lo <= k < hi) ==> m'[k] == m[k]
  }

  lemma KeptTrans(bs: seq<Block>, m0: seq<Byte>, m1: seq<Byte>, m2: seq<Byte>)
    requires Kept(bs, m0, m1) && Kept(bs, m1, m2)
    ensures Kept(bs, m0, m2)
  {
  }

  lemma KeptFewer(bs: seq<Block>, bs': seq<Block>, m: seq<Byte>, m': seq<Byte>)
    requires Kept(bs', m, m')
    requires forall b :: b in bs && b.alloc ==> b in bs'
    ensures Kept(bs, m, m')
  {
  }

  // Only the tags of the blocks in [lo, hi), or words inside, differ.
  ghost predicate SameOutside(w: Words32, w': Words32, lo: int, hi: int) {
    forall q :: !(lo - 4 <= q < hi - 4) ==> At(w', q) == At(w, q)
  }

  lemma NodesApart(h: Heap)
    requires Partial(h)
    ensures forall i, j :: 0 <= i < |h.chain| && 0 <= j < |h.chain| && i != j ==>
      h.chain[i].ptr + 16 <= h.chain[j].ptr || h.chain[j].ptr + 16 <= h.chain[i].ptr
    ensures forall i :: 0 <= i < |h.chain| ==> 16 <= h.chain[i].ptr && h.chain[i].End() <= h.brk
    ensures forall i :: 0 <= i < |h.chain| ==> OkSize(h.chain[i].size)
  {
    var c := h.chain;
    TiledApart(h.blocks, FIRST_BLOCK, h.brk);
    TiledInside(h.blocks, FIRST_BLOCK, h.brk);
    forall i, j | 0 <= i < |c| && 0 <= j < |c| && i != j
      ensures c[i].ptr + 16 <= c[j].ptr || c[j].ptr + 16 <= c[i].ptr
    {
      assert c[i] in c && c[j] in c;
      assert c[i] != c[j] by { if i < j {} else { assert c[j] != c[i]; } }
    }
  }

  // The words of a block that the allocator reads and writes.
  ghost predicate BlockSpots(b: Block, brk: int) {
    && Mult4(b.ptr - 4) && Mult4(b.ptr) && Mult4(b.ptr + 4)
    && Mult4(b.End() - 8) && Mult4(b.End() - 4)
    && FIRST_BLOCK <= b.ptr && MIN_BLOCK <= b.size && b.End() <= brk
  }

  lemma SpotsOf(h: Heap, b: Block)
    requires Partial(h) && b in h.blocks
    ensures BlockSpots(b, h.brk) && OkTag(b)
  {
    TiledAligned(h.blocks, FIRST_BLOCK, h.brk, b);
    TiledInside(h.blocks, FIRST_BLOCK, h.brk);
    Mult8Sum(b.ptr, b.size);
    Mult8Words(b.ptr);
    Mult8Words(b.End());
  }

  // No tag of a block shares a word with the links of a block.
  lemma TagNotLink(h: Heap, x: Block, f: Block)
    requires Partial(h) && x in h.blocks && f in h.blocks
    ensures 16 <= f.ptr && f.ptr + 16 <= h.brk
    ensures x.ptr - 4 != f.ptr && x.ptr - 4 != f.ptr + 4
    ensures x.End() - 8 != f.ptr && x.End() - 8 != f.ptr + 4
  {
    TiledApart(h.blocks, FIRST_BLOCK, h.brk);
    TiledInside(h.blocks, FIRST_BLOCK, h.brk);
  }

  // Link words of different blocks are different words.
  lemma LinksApart(h: Heap, f: Block, g: Block, e: Block)
    requires Partial(h) && f in h.blocks && g in h.blocks && e in h.blocks
    ensures f != g ==> f.ptr + 16 <= g.ptr || g.ptr + 16 <= f.ptr
    ensures f != e ==> f.ptr + 16 <= e.ptr || e.ptr + 16 <= f.ptr
    ensures g != e ==> g.ptr + 16 <= e.ptr || e.ptr + 16 <= g.ptr
  {
    TiledApart(h.blocks, FIRST_BLOCK, h.brk);
    TiledInside(h.blocks, FIRST_BLOCK, h.brk);
  }

  // Tags survive writes to the link words of up to three blocks.
  lemma TagsKept(w: Words32, w': Words32, h: Heap, f: Block, g: Block, e: Block)
    requires Partial(h) && Tagged(w, h.blocks)
    requires f in h.blocks && g in h.blocks && e in h.blocks
    requires forall q ::
      q != f.ptr && q != f.ptr + 4 && q != g.ptr && q != g.ptr + 4 && q != e.ptr && q != e.ptr + 4 ==>
      At(w', q) == At(w, q)
    ensures Tagged(w', h.blocks)
    ensures At(w', 4) == At(w, 4) && At(w', 8) == At(w, 8) && At(w', h.brk - 4) == At(w, h.brk - 4)
  {
    forall x | x in h.blocks
      ensures TaggedBlock(w', x)
    {
      TagNotLink(h, x, f);
      TagNotLink(h, x, g);
      TagNotLink(h, x, e);
      assert TaggedBlock(w, x);
    }
    TagNotLink(h, f, f);
    TagNotLink(h, g, g);
    TagNotLink(h, e, e);
  }

  // Rewriting the tags of a run of blocks none of which is listed.
  lemma Retag(w: Words32, w': Words32, listp: int, h: Heap, i: nat, n: nat, mid: seq<Block>)
    requires Shape(w, listp, h) && n >= 1 && i + n <= |h.blocks|
    requires forall b :: b in h.blocks[i..i + n] ==> b !in h.chain
    requires Tiled(mid, h.blocks[i].ptr, h.blocks[i + n - 1].End())
    requires Tagged(w', mid)
    requires SameOutside(w, w', h.blocks[i].ptr, h.blocks[i + n - 1].End())
    ensures Shape(w', listp, h.(blocks := Replace(h.blocks, i, n, mid)))
  {
    TiledReplace(h.blocks, FIRST_BLOCK, h.brk, i, n, mid);
    RetagTags(w, w', h, i, n, mid);
    RetagLinks(w, w', listp, h, i, n, mid);
  }

  lemma RetagTags(w: Words32, w': Words32, h: Heap, i: nat, n: nat, mid: seq<Block>)
    requires Partial(h) && Tagged(w, h.blocks) && n >= 1 && i + n <= |h.blocks|
    requires Tagged(w', mid)
    requires SameOutside(w, w', h.blocks[i].ptr, h.blocks[i + n - 1].End())
    ensures Tagged(w', Replace(h.blocks, i, n, mid))
    ensures At(w', 4) == At(w, 4) && At(w', 8) == At(w, 8) && At(w', h.brk - 4) == At(w, h.brk - 4)
  {
    var bs := h.blocks;
    TiledInside(bs, FIRST_BLOCK, h.brk);
    ReplaceMembers(bs, FIRST_BLOCK, h.brk, i, n, mid);
    assert bs[i] in bs && bs[i + n - 1] in bs;
    forall b | b in Replace(bs, i, n, mid)
      ensures TaggedBlock(w', b)
    {
      if b !in mid {
        OutsideRun(bs, FIRST_BLOCK, h.brk, i, n, mid, b);
        assert TaggedBlock(w, b);
      }
    }
  }

  lemma RetagLinks(w: Words32, w': Words32, listp: int, h: Heap, i: nat, n: nat, mid: seq<Block>)
    requires Partial(h) && Linked(w, listp, h.chain) && n >= 1 && i + n <= |h.blocks|
    requires forall b :: b in h.blocks[i..i + n] ==> b !in h.chain
    requires SameOutside(w, w', h.blocks[i].ptr, h.blocks[i + n - 1].End())
    ensures Linked(w', listp, h.chain)
    ensures forall b :: b in h.chain ==> b in Replace(h.blocks, i, n, mid)
  {
    TiledInside(h.blocks, FIRST_BLOCK, h.brk);
    forall b | b in h.chain
      ensures b in Replace(h.blocks, i, n, mid)
      ensures At(w', b.ptr) == At(w, b.ptr) && At(w', b.ptr + 4) == At(w, b.ptr + 4)
    {
      OutsideRun(h.blocks, FIRST_BLOCK, h.brk, i, n, mid, b);
    }
    forall k | 0 <= k < |h.chain|
      ensures LinkedNode(w', h.chain, k)
    {
      assert LinkedNode(w, h.chain, k) && h.chain[k] in h.chain;
    }
  }

  // Live payloads outside a rewritten run keep their bytes.
  lemma RunKept(bs: seq<Block>, lo: int, hi: int, i: nat, n: nat, m: seq<Byte>, m': seq<Byte>)
    requires Tiled(bs, lo, hi) && n >= 1 && i + n <= |bs| && |m| == |m'|
    requires forall b :: b in bs[i..i + n] ==> !b.alloc
    requires forall k :: 0 <= k < |m| && !(bs[i].ptr - 4 <= k < bs[i + n - 1].End() - 4) ==> m'[k] == m[k]
    ensures Kept(bs, m, m')
  {
    TiledInside(bs, lo, hi);
    forall b, k | b in bs && b.alloc && b.ptr <= k < b.End() - 8 && 0 <= k < |m|
      ensures m'[k] == m[k]
    {
      OutsideRun(bs, lo, hi, i, n, [], b);
    }
  }

  // A run of free blocks is rewritten, then the new row keeps its live bytes.
  lemma KeptThrough(bs: seq<Block>, lo: int, hi: int, i: nat, n: nat, mid: seq<Block>,
                    m0: seq<Byte>, m1: seq<Byte>, m2: seq<Byte>)
    requires Tiled(bs, lo, hi) && n >= 1 && i + n <= |bs| && |m0| == |m1|
    requires forall b :: b in bs[i..i + n] ==> !b.alloc
    requires forall k :: 0 <= k < |m0| && !(bs[i].ptr - 4 <= k < bs[i + n - 1].End() - 4) ==> m1[k] == m0[k]
    requires Kept(Replace(bs, i, n, mid), m1, m2)
    ensures Kept(bs, m0, m2)
  {
    RunKept(bs, lo, hi, i, n, m0, m1);
    LiveStay(bs, lo, hi, i, n, mid);
    KeptFewer(bs, Replace(bs, i, n, mid), m1, m2);
    KeptTrans(bs, m0, m1, m2);
  }

  // The blocks of bs other than block i.
  function Others(bs: seq<Block>, i: nat): seq<Block>
    requires i < |bs|
  {
    bs[..i] + bs[i + 1..]
  }

  // Blocks outside a rewritten run keep their live bytes, whatever the run was.
  lemma OutsideKept(bs: seq<Block>, lo: int, hi: int, i: nat, n: nat, m: seq<Byte>, m': seq<Byte>)
    requires Tiled(bs, lo, hi) && n >= 1 && i + n <= |bs| && |m| == |m'|
    requires forall k :: 0 <= k < |m| && !(bs[i].ptr - 4 <= k < bs[i + n - 1].End() - 4) ==> m'[k] == m[k]
    ensures Kept(bs[..i] + bs[i + n..], m, m')
  {
    TiledInside(bs, lo, hi);
    TiledOrder(bs, lo, hi);
  }

  // A client writing inside its payload [lo, hi) of live block b disturbs nothing.
  lemma ClientShape(w: Words32, w': Words32, listp: int, h: Heap, b: Block, lo: int, hi: int)
    requires Shape(w, listp, h) && b in h.blocks && b.alloc
    requires b.ptr <= lo <= hi <= b.End() - 8
    requires forall q :: (q + 4 <= lo || hi <= q) ==> At(w', q) == At(w, q)
    ensures Shape(w', listp, h)
  {
    TiledApart(h.blocks, FIRST_BLOCK, h.brk);
    TiledInside(h.blocks, FIRST_BLOCK, h.brk);
    hide Tiled, SortedBySize, Distinct;
    forall x | x in h.blocks
      ensures TaggedBlock(w', x)
    {
      assert TaggedBlock(w, x);
    }
    forall k | 0 <= k < |h.chain|
      ensures LinkedNode(w', h.chain, k)
    {
      assert LinkedNode(w, h.chain, k) && h.chain[k] in h.chain;
    }
  }

  // mm_init's four writes leave an empty heap.
  lemma InitShape(w: Words32, w': Words32)
    requires w' == w[0 := 0][4 := PROLOGUE_TAG][8 := PROLOGUE_TAG][12 := EPILOGUE_TAG]
    ensures Shape(w', 0, Heap(FIRST_BLOCK, [], []))
  {
  }

  // The words around a new block at brk, n bytes long.
  ghost predicate NewWords(w: Words32, w': Words32, brk: int, n: int) {
    && At(w', brk - 4) == n && At(w', brk + n - 8) == n && At(w', brk + n - 4) == EPILOGUE_TAG
    && forall q :: q < brk - 4 ==> At(w', q) == At(w, q)
  }

  // extend_heap's three writes put a new free block before a new epilogue.
  lemma ExtendShape(w: Words32, w': Words32, listp: int, h: Heap, n: int)
    requires Shape(w, listp, h) && OkSize(n) && h.brk + n <= MAX_HEAP && h.brk >= FIRST_BLOCK
    requires w' == w[h.brk - 4 := n][h.brk + n - 8 := n][h.brk + n - 4 := EPILOGUE_TAG]
    ensures Shape(w', listp, Heap(h.brk + n, h.blocks + [Block(h.brk, n, false)], h.chain))
  {
    var b := Block(h.brk, n, false);
    assert NewWords(w, w', h.brk, n);
    hide NewWords;
    OneTiled(b);
    TiledConcat(h.blocks, [b], FIRST_BLOCK, h.brk, h.brk + n);
    ExtendTags(w, w', h, n);
    ExtendLinks(w, w', listp, h, n);
    hide Tiled, SortedBySize, Distinct, Tagged, Linked;
  }

  lemma ExtendTags(w: Words32, w': Words32, h: Heap, n: int)
    requires Partial(h) && Tagged(w, h.blocks) && h.brk >= FIRST_BLOCK && NewWords(w, w', h.brk, n)
    ensures Tagged(w', h.blocks + [Block(h.brk, n, false)])
    ensures At(w', 4) == At(w, 4) && At(w', 8) == At(w, 8) && At(w', h.brk + n - 4) == EPILOGUE_TAG
  {
    var b := Block(h.brk, n, false);
    TiledInside(h.blocks, FIRST_BLOCK, h.brk);
    hide Tiled;
    forall x | x in h.blocks + [b]
      ensures TaggedBlock(w', x)
    {
      if x != b {
        assert x in h.blocks && TaggedBlock(w, x);
      }
    }
  }

  lemma ExtendLinks(w: Words32, w': Words32, listp: int, h: Heap, n: int)
    requires Partial(h) && Linked(w, listp, h.chain) && NewWords(w, w', h.brk, n)
    ensures Linked(w', listp, h.chain)
  {
    NodesApart(h);
    hide Tiled;
    forall k | 0 <= k < |h.chain|
      ensures LinkedNode(w', h.chain, k)
    {
      assert LinkedNode(w, h.chain, k) && h.chain[k] in h.chain;
    }
  }

  // The bytes of m from p and of m' from q are the same, n of them.
  ghost predicate SameBytes(m: seq<Byte>, p: int, m': seq<Byte>, q: int, n: int) {
    0 <= p <= p + n <= |m| && 0 <= q <= q + n <= |m'| && m[p..p + n] == m'[q..q + n]
  }

  // The writes of mm_realloc's two in-place paths on blocks i .. i + n - 1:
  // the other live blocks keep their bytes, and so do the first keep bytes of block i.
  lemma {:induction false} RunRewritten(bs: seq<Block>, lo: int, hi: int, i: nat, n: nat, mid: seq<Block>, keep: int,
                     m0: seq<Byte>, m1: seq<Byte>, m2: seq<Byte>)
    requires Tiled(bs, lo, hi) && 1 <= n <= 2 && i + n <= |bs| && |m0| == |m1| && 0 <= lo && hi <= |m0|
    requires n == 2 ==> !bs[i + 1].alloc
    requires 0 <= keep <= bs[i].size
    requires forall k :: 0 <= k < |m0| && !(bs[i].ptr - 4 <= k < bs[i + n - 1].End() - 4) ==> m1[k] == m0[k]
    requires forall k :: 0 <= k < |m0| && bs[i].ptr <= k < bs[i].ptr + keep ==> m1[k] == m0[k]
    requires mid != [] && mid[0].alloc && mid[0].ptr == bs[i].ptr && keep <= mid[0].size - 8
    requires Kept(Replace(bs, i, n, mid), m1, m2)
    ensures Kept(Others(bs, i), m0, m2) && SameBytes(m0, bs[i].ptr, m2, bs[i].ptr, keep)
  {
    OutsideKept(bs, lo, hi, i, n, m0, m1);
    var rest := bs[..i] + bs[i + n..];
    TiledInside(bs, lo, hi);
    assert bs[i] in bs;
    hide Tiled;
    var bs' := Replace(bs, i, n, mid);
    assert bs'[i] == mid[0];
    assert forall b :: b in rest ==> b in bs';
    KeptFewer(rest, bs', m1, m2);
    KeptTrans(rest, m0, m1, m2);
    OthersBeside(bs, i, n);
    KeptFewer(Others(bs, i), rest, m0, m2);
    PayloadKept(bs', i, m1, m2);
  }

  // The other live blocks lie outside a run of block i and at most one free block.
  lemma OthersBeside(bs: seq<Block>, i: nat, n: nat)
    requires 1 <= n <= 2 && i + n <= |bs| && (n == 2 ==> !bs[i + 1].alloc)
    ensures forall b :: b in Others(bs, i) && b.alloc ==> b in bs[..i] + bs[i + n..]
  {
    forall b | b in Others(bs, i) && b.alloc
      ensures b in bs[..i] + bs[i + n..]
    {
      var j :| 0 <= j < |Others(bs, i)| && Others(bs, i)[j] == b;
      if j >= i {
        assert bs[j + 1] == b;
      }
    }
  }

  // What Kept says of one live block.
  lemma PayloadKept(bs: seq<Block>, i: nat, m: seq<Byte>, m': seq<Byte>)
    requires i < |bs| && bs[i].alloc && Kept(bs, m, m')
    ensures forall k :: bs[i].ptr <= k < bs[i].End() - 8 && 0 <= k < |m| ==> m'[k] == m[k]
  {
    assert bs[i] in bs;
  }

  // ------------------------------------------------------------- list surgery

  // The word view after linking node ptr between prv and nxt.
  ghost function LinkWords(w: Words32, ptr: int, prv: int, nxt: int, q: int): int {
    if q == ptr then nxt
    else if q == ptr + 4 then prv
    else if prv != 0 && q == prv then ptr
    else if nxt != 0 && q == nxt + 4 then ptr
    else At(w, q)
  }

  ghost function LinkIn(w: Words32, c: seq<Block>, k: nat, ptr: int, q: int): int {
    LinkWords(w, ptr, NodeAt(c, k - 1), NodeAt(c, k), q)
  }

  // A node already on the list: only its two neighbours of the new node change.
  lemma LinkInNode(w: Words32, w': Words32, h: Heap, b: Block, i: nat)
    requires Partial(h) && b in h.blocks && b !in h.chain && i < |h.chain|
    requires var k := InsertPos(h.chain, b.size); forall q :: At(w', q) == LinkIn(w, h.chain, k, b.ptr, q)
    ensures NodeLinkedIn(w, w', h.chain, InsertPos(h.chain, b.size), b.ptr, i)
  {
    var c := h.chain;
    NodesApart(h);
    TiledApart(h.blocks, FIRST_BLOCK, h.brk);
    TiledInside(h.blocks, FIRST_BLOCK, h.brk);
    assert c[i] in c;
  }

  lemma InsertedNodeAt(c: seq<Block>, b: Block, i: int)
    ensures var k := InsertPos(c, b.size);
      NodeAt(Inserted(c, b), i) == if i < k then NodeAt(c, i) else if i == k then b.ptr else NodeAt(c, i - 1)
  {
  }

  // What linking in at position k makes of the i-th node's links.
  ghost predicate NodeLinkedIn(w: Words32, w': Words32, c: seq<Block>, k: nat, ptr: int, i: nat)
    requires i < |c|
  {
    && At(w', c[i].ptr) == (if i == k - 1 then ptr else At(w, c[i].ptr))
    && At(w', c[i].ptr + 4) == (if i == k then ptr else At(w, c[i].ptr + 4))
  }

  lemma {:induction false} LinkInEach(w: Words32, w': Words32, c: seq<Block>, b: Block, i: nat)
    requires i <= |c|
    requires var k := InsertPos(c, b.size);
      if i == k then At(w', b.ptr) == NodeAt(c, k) && At(w', b.ptr + 4) == NodeAt(c, k - 1)
      else var j := if i < k then i else i - 1; LinkedNode(w, c, j) && NodeLinkedIn(w, w', c, k, b.ptr, j)
    ensures |Inserted(c, b)| == |c| + 1 && LinkedNode(w', Inserted(c, b), i)
  {
    var k := InsertPos(c, b.size);
    var d := Inserted(c, b);
    InsertedNodeAt(c, b, i - 1);
    InsertedNodeAt(c, b, i);
    InsertedNodeAt(c, b, i + 1);
    assert d[i].ptr == NodeAt(d, i);
    if i != k {
      var j := if i < k then i else i - 1;
      assert c[j].ptr == NodeAt(c, j);
    }
  }

  lemma LinkInLinked(w: Words32, w': Words32, listp: int, h: Heap, b: Block)
    requires Partial(h) && Linked(w, listp, h.chain)
    requires b in h.blocks && b !in h.chain
    requires var k := InsertPos(h.chain, b.size); forall q :: At(w', q) == LinkIn(w, h.chain, k, b.ptr, q)
    ensures var c := Inserted(h.chain, b); Linked(w', NodeAt(c, 0), c)
  {
    var c, k := h.chain, InsertPos(h.chain, b.size);
    forall i | 0 <= i <= |c|
      ensures |Inserted(c, b)| == |c| + 1 && LinkedNode(w', Inserted(c, b), i)
    {
      if i != k {
        LinkInNode(w, w', h, b, if i < k then i else i - 1);
      }
      LinkInEach(w, w', c, b, i);
    }
  }

  // The word view after joining prv to nxt.
  ghost function UnlinkWords(w: Words32, prv: int, nxt: int, q: int): int {
    if prv != 0 && q == prv then nxt
    else if nxt != 0 && q == nxt + 4 then prv
    else At(w, q)
  }

  ghost function LinkOut(w: Words32, c: seq<Block>, k: nat, q: int): int {
    UnlinkWords(w, NodeAt(c, k - 1), NodeAt(c, k + 1), q)
  }

  lemma LinkOutNode(w: Words32, w': Words32, h: Heap, k: nat, i: nat)
    requires Partial(h) && k < |h.chain| && i < |h.chain| && i != k
    requires forall q :: At(w', q) == LinkOut(w, h.chain, k, q)
    ensures NodeLinkedOut(w, w', h.chain, k, i)
  {
    NodesApart(h);
  }

  lemma RemovedNodeAt(c: seq<Block>, b: Block, i: int)
    requires b in c
    ensures |Removed(c, b)| == |c| - 1
    ensures NodeAt(Removed(c, b), i) == if i < IndexIn(c, b) then NodeAt(c, i) else NodeAt(c, i + 1)
  {
  }

  // What unlinking position k makes of the i-th node's links.
  ghost predicate NodeLinkedOut(w: Words32, w': Words32, c: seq<Block>, k: nat, i: nat)
    requires i < |c|
  {
    && At(w', c[i].ptr) == (if i == k - 1 then NodeAt(c, k + 1) else At(w, c[i].ptr))
    && At(w', c[i].ptr + 4) == (if i == k + 1 then NodeAt(c, k - 1) else At(w, c[i].ptr + 4))
  }

  lemma {:induction false} LinkOutEach(w: Words32, w': Words32, c: seq<Block>, b: Block, i: nat)
    requires b in c && i + 1 < |c|
    requires var k := IndexIn(c, b); var j := if i < k then i else i + 1;
      LinkedNode(w, c, j) && NodeLinkedOut(w, w', c, k, j)
    ensures |Removed(c, b)| == |c| - 1 && LinkedNode(w', Removed(c, b), i)
  {
    hide Removed;
    var k, d := IndexIn(c, b), Removed(c, b);
    RemovedNodeAt(c, b, i - 1);
    RemovedNodeAt(c, b, i);
    RemovedNodeAt(c, b, i + 1);
    assert d[i].ptr == NodeAt(d, i);
    var j := if i < k then i else i + 1;
    assert c[j].ptr == NodeAt(c, j);
  }

  lemma LinkOutLinked(w: Words32, w': Words32, listp: int, h: Heap, b: Block)
    requires Partial(h) && Linked(w, listp, h.chain) && b in h.chain
    requires var k := IndexIn(h.chain, b); forall q :: At(w', q) == LinkOut(w, h.chain, k, q)
    ensures var c := Removed(h.chain, b); Linked(w', NodeAt(c, 0), c)
  {
    var c, k := h.chain, IndexIn(h.chain, b);
    forall i | 0 <= i < |c| - 1
      ensures |Removed(c, b)| == |c| - 1 && LinkedNode(w', Removed(c, b), i)
    {
      LinkOutNode(w, w', h, k, if i < k then i else i + 1);
      LinkOutEach(w, w', c, b, i);
    }
  }

  // insert_node leaves memory in shape for the longer list.
  lemma InsertShape(w: Words32, w': Words32, listp: int, h: Heap, b: Block)
    requires Shape(w, listp, h)
    requires b in h.blocks && !b.alloc && b !in h.chain
    requires var k := InsertPos(h.chain, b.size); forall q :: At(w', q) == LinkIn(w, h.chain, k, b.ptr, q)
    ensures var c := Inserted(h.chain, b); Shape(w', NodeAt(c, 0), h.(chain := c))
  {
    var c, k := h.chain, InsertPos(h.chain, b.size);
    LinkInLinked(w, w', listp, h, b);
    InsertTags(w, w', h, b);
    InsertedSorted(c, b);
    InsertedMembers(c, b);
  }

  lemma InsertTags(w: Words32, w': Words32, h: Heap, b: Block)
    requires Partial(h) && Tagged(w, h.blocks)
    requires b in h.blocks
    requires var k := InsertPos(h.chain, b.size); forall q :: At(w', q) == LinkIn(w, h.chain, k, b.ptr, q)
    ensures Tagged(w', h.blocks)
    ensures At(w', 4) == At(w, 4) && At(w', 8) == At(w, 8) && At(w', h.brk - 4) == At(w, h.brk - 4)
  {
    var c, k := h.chain, InsertPos(h.chain, b.size);
    TagsKept(w, w', h, b, if k > 0 then c[k - 1] else b, if k < |c| then c[k] else b);
  }

  // delete_node leaves memory in shape for the shorter list.
  lemma DeleteShape(w: Words32, w': Words32, listp: int, h: Heap, b: Block)
    requires Shape(w, listp, h) && b in h.chain
    requires var k := IndexIn(h.chain, b); forall q :: At(w', q) == LinkOut(w, h.chain, k, q)
    ensures var c := Removed(h.chain, b); Shape(w', NodeAt(c, 0), h.(chain := c))
  {
    var c := h.chain;
    LinkOutLinked(w, w', listp, h, b);
    DeleteTags(w, w', h, IndexIn(c, b));
    RemovedSorted(c, b);
    RemovedMembers(c, b);
  }

  lemma DeleteTags(w: Words32, w': Words32, h: Heap, k: nat)
    requires Partial(h) && Tagged(w, h.blocks) && k < |h.chain|
    requires forall q :: At(w', q) == LinkOut(w, h.chain, k, q)
    ensures Tagged(w', h.blocks)
    ensures At(w', 4) == At(w, 4) && At(w', 8) == At(w, 8) && At(w', h.brk - 4) == At(w, h.brk - 4)
  {
    var c := h.chain;
    TagsKept(w, w', h, c[k], if k > 0 then c[k - 1] else c[k], if k + 1 < |c| then c[k + 1] else c[k]);
  }

  // Live payloads never meet the link words of free blocks.
  lemma LinksKept(bs: seq<Block>, lo: int, hi: int, m: seq<Byte>, m': seq<Byte>, touched: set<Block>)
    requires Tiled(bs, lo, hi) && |m| == |m'|
    requires forall b :: b in touched ==> b in bs && !b.alloc
    requires forall k :: 0 <= k < |m| && (forall b :: b in touched ==> !(b.ptr <= k < b.ptr + 8)) ==> m'[k] == m[k]
    ensures Kept(bs, m, m')
  {
    TiledApart(bs, lo, hi);
    TiledInside(bs, lo, hi);
    forall b, k | b in bs && b.alloc && b.ptr <= k < b.End() - 8 && 0 <= k < |m|
      ensures m'[k] == m[k]
    {
      assert forall f :: f in touched ==> f.End() <= b.ptr || b.End() <= f.ptr;
    }
  }
}
