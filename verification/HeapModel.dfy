// The abstract heap behind mm.c: the row of blocks that tiles the heap, and the
// explicit free list threaded through the free ones.
module HeapModel {
  import opened Words
  import opened MemLib

  const DSIZE := 8
  const MIN_BLOCK := 16
  const FIRST_BLOCK := 16   // padding, prologue header and footer, first block header

  // A block by its payload address; size counts both tags.
  datatype Block = Block(ptr: int, size: int, alloc: bool) {
    function End(): int { ptr + size }
  }

  // brk is the break, chain the blocks on the free list from its head on.
  datatype Heap = Heap(brk: int, blocks: seq<Block>, chain: seq<Block>)

  ghost predicate OkSize(n: int) { MIN_BLOCK <= n < WORD_LIMIT && Mult8(n) }

  // bs covers [lo, hi) without gap or overlap.
  ghost predicate Tiled(bs: seq<Block>, lo: int, hi: int) {
    if bs == [] then lo == hi
    else bs[0].ptr == lo && OkSize(bs[0].size) && Tiled(bs[1..], lo + bs[0].size, hi)
  }

  ghost predicate SortedBySize(c: seq<Block>) {
    forall i, j :: 0 <= i < j < |c| ==> c[i].size <= c[j].size
  }

  ghost predicate Distinct(c: seq<Block>) {
    forall i, j :: 0 <= i < j < |c| ==> c[i] != c[j]
  }

  // What holds at every point of an operation: the free list is sorted and
  // holds free blocks only, each once.
  ghost predicate Partial(h: Heap) {
    && Tiled(h.blocks, FIRST_BLOCK, h.brk)
    && h.brk <= MAX_HEAP
    && SortedBySize(h.chain)
    && Distinct(h.chain)
    && forall b :: b in h.chain ==> b in h.blocks && !b.alloc
  }

  // What holds between operations: the list holds every free block.
  ghost predicate Good(h: Heap) {
    && Partial(h)
    && forall b :: b in h.blocks && !b.alloc ==> b in h.chain
  }

  // ---------------------------------------------------------------- tilings

  lemma {:induction false} TiledConcat(a: seq<Block>, b: seq<Block>, lo: int, mid: int, hi: int)
    requires Tiled(a, lo, mid) && Tiled(b, mid, hi)
    ensures Tiled(a + b, lo, hi)
  {
    if a == [] {
      assert a + b == b;
    } else {
      TiledConcat(a[1..], b, lo + a[0].size, mid, hi);
      assert (a + b)[1..] == a[1..] + b;
    }
  }

  lemma {:induction false} TiledSplit(bs: seq<Block>, i: nat, lo: int, hi: int)
    requires Tiled(bs, lo, hi) && i <= |bs|
    ensures var mid := if i < |bs| then bs[i].ptr else hi;
      lo <= mid <= hi && Tiled(bs[..i], lo, mid) && Tiled(bs[i..], mid, hi)
  {
    TiledSpan(bs, lo, hi);
    if i == 0 {
      assert bs[..0] == [] && bs[0..] == bs;
    } else {
      TiledSplit(bs[1..], i - 1, lo + bs[0].size, hi);
      assert bs[1..][..i - 1] == bs[..i][1..];
      assert bs[1..][i - 1..] == bs[i..];
    }
  }

  lemma {:induction false} TiledSpan(bs: seq<Block>, lo: int, hi: int)
    requires Tiled(bs, lo, hi)
    ensures lo <= hi
    ensures bs != [] ==> bs[|bs| - 1].End() == hi && lo < hi
  {
    if bs != [] {
      TiledSpan(bs[1..], lo + bs[0].size, hi);
    }
  }

  // Every block of a tiling is aligned, sized and inside.
  lemma {:induction false} TiledInside(bs: seq<Block>, lo: int, hi: int)
    requires Tiled(bs, lo, hi)
    ensures forall b :: b in bs ==> OkSize(b.size) && lo <= b.ptr && b.End() <= hi
  {
    if bs != [] {
      TiledInside(bs[1..], lo + bs[0].size, hi);
      TiledSpan(bs[1..], lo + bs[0].size, hi);
    }
  }

  lemma {:induction false} TiledAligned(bs: seq<Block>, lo: int, hi: int, b: Block)
    requires Tiled(bs, lo, hi) && Mult8(lo) && b in bs
    ensures Mult8(b.ptr)
  {
    if b != bs[0] {
      Mult8Sum(lo, bs[0].size);
      TiledAligned(bs[1..], lo + bs[0].size, hi, b);
    }
  }

  // Earlier blocks end before later ones start.
  lemma {:induction false} TiledOrder(bs: seq<Block>, lo: int, hi: int)
    requires Tiled(bs, lo, hi)
    ensures forall i, j :: 0 <= i < j < |bs| ==> bs[i].End() <= bs[j].ptr
    ensures forall i, j :: 0 <= i && j == i + 1 < |bs| ==> bs[i].End() == bs[j].ptr
  {
    if bs != [] {
      TiledOrder(bs[1..], lo + bs[0].size, hi);
      TiledInside(bs[1..], lo + bs[0].size, hi);
      forall j | 1 <= j < |bs|
        ensures bs[0].End() <= bs[j].ptr && (j == 1 ==> bs[0].End() == bs[j].ptr)
      {
        assert bs[j] == bs[1..][j - 1] && bs[j] in bs[1..];
      }
      forall i, j | 1 <= i < j < |bs|
        ensures bs[i].End() <= bs[j].ptr && (j == i + 1 ==> bs[i].End() == bs[j].ptr)
      {
        assert bs[i] == bs[1..][i - 1] && bs[j] == bs[1..][j - 1];
      }
    }
  }

  // Two blocks of a tiling are the same block or apart.
  lemma TiledApart(bs: seq<Block>, lo: int, hi: int)
    requires Tiled(bs, lo, hi)
    ensures forall b, c :: b in bs && c in bs ==> b == c || b.End() <= c.ptr || c.End() <= b.ptr
    ensures forall i, j :: 0 <= i < j < |bs| ==> bs[i] != bs[j]
  {
    TiledOrder(bs, lo, hi);
    TiledInside(bs, lo, hi);
  }

  lemma OneTiled(b: Block)
    requires OkSize(b.size)
    ensures Tiled([b], b.ptr, b.End())
  {
    assert [b][1..] == [];
  }

  lemma TwoTiled(x: Block, y: Block)
    requires OkSize(x.size) && OkSize(y.size) && y.ptr == x.End()
    ensures Tiled([x, y], x.ptr, y.End())
  {
    OneTiled(y);
    assert [x, y][1..] == [y];
  }

  // ---------------------------------------------- replacing a run of blocks

  // bs with its blocks i .. i + n - 1 replaced by mid.
  function Replace(bs: seq<Block>, i: nat, n: nat, mid: seq<Block>): seq<Block>
    requires i + n <= |bs|
  {
    bs[..i] + mid + bs[i + n..]
  }

  lemma TiledReplace(bs: seq<Block>, lo: int, hi: int, i: nat, n: nat, mid: seq<Block>)
    requires Tiled(bs, lo, hi) && n >= 1 && i + n <= |bs|
    requires Tiled(mid, bs[i].ptr, bs[i + n - 1].End())
    ensures Tiled(Replace(bs, i, n, mid), lo, hi)
  {
    TiledSplit(bs, i, lo, hi);
    TiledSplit(bs, i + n, lo, hi);
    TiledSpan(bs[..i + n], lo, if i + n < |bs| then bs[i + n].ptr else hi);
    assert bs[..i + n][i + n - 1] == bs[i + n - 1];
    TiledConcat(bs[..i], mid, lo, bs[i].ptr, bs[i + n - 1].End());
    TiledConcat(bs[..i] + mid, bs[i + n..], lo, bs[i + n - 1].End(), hi);
  }

  // A block outside the replaced run is still there and lies apart from it.
  lemma OutsideRun(bs: seq<Block>, lo: int, hi: int, i: nat, n: nat, mid: seq<Block>, b: Block)
    requires Tiled(bs, lo, hi) && n >= 1 && i + n <= |bs|
    requires b in bs && b !in bs[i..i + n]
    ensures b in bs[..i] || b in bs[i + n..]
    ensures b.End() <= bs[i].ptr || bs[i + n - 1].End() <= b.ptr
    ensures b in Replace(bs, i, n, mid)
  {
    TiledOrder(bs, lo, hi);
    TiledInside(bs, lo, hi);
    forall k | i <= k < i + n
      ensures bs[k] in bs[i..i + n]
    {
      assert bs[i..i + n][k - i] == bs[k];
    }
    var j :| 0 <= j < |bs| && bs[j] == b;
    if j < i {
      assert bs[..i][j] == b;
    } else {
      assert bs[i + n..][j - i - n] == b;
    }
  }

  // Replacing free blocks loses no live one.
  lemma LiveStay(bs: seq<Block>, lo: int, hi: int, i: nat, n: nat, mid: seq<Block>)
    requires Tiled(bs, lo, hi) && n >= 1 && i + n <= |bs|
    requires forall b :: b in bs[i..i + n] ==> !b.alloc
    ensures forall b :: b in bs && b.alloc ==> b in Replace(bs, i, n, mid)
  {
    forall b | b in bs && b.alloc
      ensures b in Replace(bs, i, n, mid)
    {
      OutsideRun(bs, lo, hi, i, n, mid, b);
    }
  }

  lemma RunMembers(bs: seq<Block>, i: nat, n: nat, run: seq<Block>)
    requires 2 <= n <= 3 && i + n <= |bs| && run == bs[i..i + n]
    ensures forall b :: b in run ==> b == bs[i] || b == bs[i + 1] || b == bs[i + n - 1]
  {
  }

  // A block starting inside an unlisted block is not listed.
  lemma NotListed(h: Heap, i: nat, m: Block)
    requires Partial(h) && i < |h.blocks| && h.blocks[i] !in h.chain
    requires h.blocks[i].ptr <= m.ptr < h.blocks[i].End()
    ensures m !in h.chain
  {
    TiledApart(h.blocks, FIRST_BLOCK, h.brk);
    TiledInside(h.blocks, FIRST_BLOCK, h.brk);
    assert h.blocks[i] in h.blocks;
  }

  // A block starting inside an unlisted run is not listed.
  lemma NotListedRun(h: Heap, i: nat, n: nat, m: Block)
    requires Partial(h) && n >= 1 && i + n <= |h.blocks|
    requires forall b :: b in h.blocks[i..i + n] ==> b !in h.chain
    requires h.blocks[i].ptr <= m.ptr < h.blocks[i + n - 1].End()
    ensures m !in h.chain
  {
    if m in h.chain {
      TiledInside(h.blocks, FIRST_BLOCK, h.brk);
      OutsideRun(h.blocks, FIRST_BLOCK, h.brk, i, n, [], m);
    }
  }

  // The blocks after a replacement are the new ones and those outside the run.
  lemma ReplaceMembers(bs: seq<Block>, lo: int, hi: int, i: nat, n: nat, mid: seq<Block>)
    requires Tiled(bs, lo, hi) && n >= 1 && i + n <= |bs|
    ensures forall b :: b in Replace(bs, i, n, mid) <==> b in mid || (b in bs && b !in bs[i..i + n])
  {
    TiledApart(bs, lo, hi);
    forall b
      ensures b in Replace(bs, i, n, mid) <==> b in mid || (b in bs && b !in bs[i..i + n])
    {
      if b in bs && b !in bs[i..i + n] {
        OutsideRun(bs, lo, hi, i, n, mid, b);
      }
    }
  }

  // ---------------------------------------------------------- the free list

  // The number of nodes insert_node walks past: those smaller than size.
  function InsertPos(c: seq<Block>, size: int): (k: nat)
    ensures k <= |c|
    ensures forall i :: 0 <= i < k ==> c[i].size < size
    ensures k < |c| ==> size <= c[k].size
  {
    if c == [] || size <= c[0].size then 0 else 1 + InsertPos(c[1..], size)
  }

  function Inserted(c: seq<Block>, b: Block): seq<Block> {
    var k := InsertPos(c, b.size);
    c[..k] + [b] + c[k..]
  }

  function IndexIn(c: seq<Block>, b: Block): (k: nat)
    requires b in c
    ensures k < |c| && c[k] == b && forall i :: 0 <= i < k ==> c[i] != b
  {
    if c[0] == b then 0 else 1 + IndexIn(c[1..], b)
  }

  function Removed(c: seq<Block>, b: Block): seq<Block> {
    if b in c then var k := IndexIn(c, b); c[..k] + c[k + 1..] else c
  }

  lemma InsertedMembers(c: seq<Block>, b: Block)
    ensures forall x :: x in Inserted(c, b) <==> x in c || x == b
    ensures multiset(Inserted(c, b)) == multiset(c) + multiset{b}
  {
    assert c == c[..InsertPos(c, b.size)] + c[InsertPos(c, b.size)..];
  }

  // insert_node keeps the list sorted and free of repeats.
  lemma InsertedSorted(c: seq<Block>, b: Block)
    requires SortedBySize(c) && Distinct(c) && b !in c
    ensures SortedBySize(Inserted(c, b)) && Distinct(Inserted(c, b))
  {
    var k, d := InsertPos(c, b.size), Inserted(c, b);
    assert d[k] == b;
    forall i | 0 <= i < |d|
      ensures d[i] == if i < k then c[i] else if i == k then b else c[i - 1]
    {
    }
    forall i, j | 0 <= i < j < |d|
      ensures d[i].size <= d[j].size && d[i] != d[j]
    {
    }
  }

  lemma RemovedMembers(c: seq<Block>, b: Block)
    requires Distinct(c) && b in c
    ensures forall x :: x in Removed(c, b) <==> x in c && x != b
    ensures multiset(Removed(c, b)) == multiset(c) - multiset{b}
  {
    var k := IndexIn(c, b);
    assert c == c[..k] + [b] + c[k + 1..];
    assert b !in c[k + 1..];
  }

  // delete_node keeps the list sorted and free of repeats.
  lemma RemovedSorted(c: seq<Block>, b: Block)
    requires SortedBySize(c) && Distinct(c)
    ensures SortedBySize(Removed(c, b)) && Distinct(Removed(c, b))
  {
    if b in c {
      var k, d := IndexIn(c, b), Removed(c, b);
      forall i | 0 <= i < |d|
        ensures d[i] == if i < k then c[i] else c[i + 1]
      {
      }
    }
  }

  // Deleting what was just inserted gives the list back.
  lemma {:induction false} RemoveInserted(c: seq<Block>, b: Block)
    requires b !in c
    ensures Removed(Inserted(c, b), b) == c
  {
    var k, d := InsertPos(c, b.size), Inserted(c, b);
    hide InsertPos;
    assert d[k] == b;
    assert forall i :: 0 <= i < k ==> d[i] == c[i] && c[i] in c;
    FoundAt(d, b, k);
    assert d[..k] == c[..k] && d[k + 1..] == c[k..];
    hide IndexIn, Inserted;
    assert c == c[..k] + c[k..];
  }

  lemma {:induction false} FoundAt(c: seq<Block>, b: Block, k: nat)
    requires k < |c| && c[k] == b && forall i :: 0 <= i < k ==> c[i] != b
    ensures b in c && IndexIn(c, b) == k
  {
    assert b in c;
    var j := IndexIn(c, b);
    assert !(j < k) && !(k < j);
  }
}
