// Coalescing over runs: how many neighbouring pairs of free blocks there can be.
module HeapPairs {
  import opened Words
  import opened HeapModel
  import opened HeapOps
  import opened HeapProofs
  import opened HeapRuns

  // 1 when a free block of x ends up next to a free block of y.
  function Join(x: seq<Block>, y: seq<Block>): nat {
    if x != [] && y != [] && !x[|x| - 1].alloc && !y[0].alloc then 1 else 0
  }

  // The number of neighbouring pairs of free blocks.
  function FreePairs(bs: seq<Block>): nat {
    if bs == [] then 0 else Join([bs[0]], bs[1..]) + FreePairs(bs[1..])
  }

  lemma {:induction false} PairsConcat(x: seq<Block>, y: seq<Block>)
    ensures FreePairs(x + y) == FreePairs(x) + FreePairs(y) + Join(x, y)
  {
    if x == [] {
      assert x + y == y;
    } else {
      assert (x + y)[1..] == x[1..] + y;
      PairsConcat(x[1..], y);
    }
  }

  lemma PairsThree(x: seq<Block>, y: seq<Block>, z: seq<Block>)
    requires y != []
    ensures FreePairs(x + y + z) == FreePairs(x) + FreePairs(y) + FreePairs(z) + Join(x, y) + Join(y, z)
  {
    PairsConcat(x, y);
    PairsConcat(x + y, z);
  }

  // No pair of neighbours is free exactly when the count is 0.
  lemma {:induction false} NoPairs(bs: seq<Block>)
    ensures FreePairs(bs) == 0 <==> forall i :: 0 <= i && i + 1 < |bs| ==> bs[i].alloc || bs[i + 1].alloc
  {
    if bs != [] {
      NoPairs(bs[1..]);
      if FreePairs(bs) == 0 {
        forall i | 0 <= i && i + 1 < |bs|
          ensures bs[i].alloc || bs[i + 1].alloc
        {
          if i > 0 {
            assert bs[i] == bs[1..][i - 1] && bs[i + 1] == bs[1..][i];
          }
        }
      } else {
        var rest := bs[1..];
        if j: nat :| j + 1 < |rest| && !rest[j].alloc && !rest[j + 1].alloc {
          assert !bs[j + 1].alloc && !bs[j + 1 + 1].alloc;
        } else {
          assert !bs[0].alloc && !bs[0 + 1].alloc;
        }
      }
    }
  }

  // The change in pairs when a run of blocks is replaced.
  lemma PairsReplace(bs: seq<Block>, i: nat, n: nat, mid: seq<Block>)
    requires n >= 1 && i + n <= |bs| && mid != []
    ensures var run := bs[i..i + n];
      FreePairs(Replace(bs, i, n, mid)) + FreePairs(run) + Join(bs[..i], run) + Join(run, bs[i + n..])
      == FreePairs(bs) + FreePairs(mid) + Join(bs[..i], mid) + Join(mid, bs[i + n..])
  {
    PairsThree(bs[..i], mid, bs[i + n..]);
    PairsThree(bs[..i], bs[i..i + n], bs[i + n..]);
    assert bs[..i] + bs[i..i + n] + bs[i + n..] == bs;
  }

  lemma PairsOne(b: Block)
    ensures FreePairs([b]) == 0
  {
    assert FreePairs([b][1..]) == 0;
  }

  lemma PairsTwo(x: Block, y: Block)
    ensures FreePairs([x, y]) == if !x.alloc && !y.alloc then 1 else 0
  {
    assert [x, y] == [x] + [y];
    PairsConcat([x], [y]);
    PairsOne(x);
    PairsOne(y);
  }

  // Merging free neighbours takes away the pairs between them and no more.
  lemma MergedPairs(h: Heap, i: nat, n: nat)
    requires 2 <= n <= 3 && i + n <= |h.blocks|
    requires FreeAt(h.blocks, i) && FreeAt(h.blocks, i + 1) && FreeAt(h.blocks, i + n - 1)
    ensures FreePairs(Merged(h, i, n).blocks) == FreePairs(h.blocks) - (n - 1)
  {
    var bs := h.blocks;
    var m := Block(bs[i].ptr, bs[i + n - 1].End() - bs[i].ptr, false);
    PairsReplace(bs, i, n, [m]);
    PairsOne(m);
    RunPairs(bs, i, n, bs[i..i + n]);
    assert Merged(h, i, n).blocks == Replace(bs, i, n, [m]);
  }

  lemma RunPairs(bs: seq<Block>, i: nat, n: nat, run: seq<Block>)
    requires 2 <= n <= 3 && i + n <= |bs| && run == bs[i..i + n]
    requires FreeAt(bs, i) && FreeAt(bs, i + 1) && FreeAt(bs, i + n - 1)
    ensures FreePairs(run) == n - 1
  {
    PairsTwo(bs[i], bs[i + 1]);
    if n == 2 {
      assert run == [bs[i], bs[i + 1]];
    } else {
      assert run == [bs[i], bs[i + 1]] + [bs[i + 2]];
      PairsConcat([bs[i], bs[i + 1]], [bs[i + 2]]);
      PairsOne(bs[i + 2]);
    }
  }

  // coalesce removes the pairs its block was in.
  lemma CoalescedPairs(h: Heap, i: nat)
    requires FreeAt(h.blocks, i)
    ensures FreePairs(Coalesced(h, i).blocks) + Around(h.blocks, i) == FreePairs(h.blocks)
  {
    var bs, g := h.blocks, Unlisted(h, h.blocks[i]);
    hide Merged;
    if FreeAt(bs, i - 1) {
      if FreeAt(bs, i + 1) {
        MergedPairs(Unlisted(Unlisted(g, bs[i - 1]), bs[i + 1]), i - 1, 3);
      } else {
        MergedPairs(Unlisted(g, bs[i - 1]), i - 1, 2);
      }
    } else if FreeAt(bs, i + 1) {
      MergedPairs(Unlisted(g, bs[i + 1]), i, 2);
    }
  }

  // The number of free neighbours of block i.
  function Around(bs: seq<Block>, i: nat): nat {
    (if FreeAt(bs, i - 1) then 1 else 0) + (if FreeAt(bs, i + 1) then 1 else 0)
  }

  lemma GrownPairs(h: Heap, n: int)
    ensures FreePairs(Grown(h, n).blocks) == FreePairs(h.blocks)
  {
    var b := Block(h.brk, n, false);
    var g := Extended(h, n);
    PairsConcat(h.blocks, [b]);
    PairsOne(b);
    assert FreeAt(g.blocks, |h.blocks|) && Join(h.blocks, [b]) == Around(g.blocks, |h.blocks|);
    hide Coalesced;
    CoalescedPairs(g, |h.blocks|);
  }

  // place never makes a pair.
  lemma PlacedPairs(h: Heap, i: nat, asize: int)
    requires FreeAt(h.blocks, i)
    ensures FreePairs(Placed(h, i, asize).blocks) <= FreePairs(h.blocks)
  {
    var bs, cut := h.blocks, Cut(h.blocks[i], asize);
    PairsReplace(bs, i, 1, cut);
    assert bs[i..i + 1] == [bs[i]];
    PairsOne(bs[i]);
    if |cut| == 2 { PairsTwo(cut[0], cut[1]); assert cut == [cut[0], cut[1]]; }
    else { PairsOne(cut[0]); assert cut == [cut[0]]; }
    assert Placed(h, i, asize).blocks == Replace(bs, i, 1, cut);
  }

  // mm_free never makes a pair: what freeing creates, coalescing removes.
  lemma FreedPairs(h: Heap, i: nat)
    requires i < |h.blocks| && h.blocks[i].alloc
    ensures FreePairs(Freed(h, i).blocks) == FreePairs(h.blocks)
  {
    var bs, b := h.blocks, Block(h.blocks[i].ptr, h.blocks[i].size, false);
    var g := Recut(h, i, 1, [b]);
    PairsReplace(bs, i, 1, [b]);
    assert bs[i..i + 1] == [bs[i]];
    PairsOne(bs[i]);
    PairsOne(b);
    assert g.blocks[i] == b;
    assert i > 0 ==> g.blocks[i - 1] == bs[i - 1];
    assert i + 1 < |bs| ==> g.blocks[i + 1] == bs[i + 1];
    assert Join(bs[..i], [b]) + Join([b], bs[i + 1..]) == Around(g.blocks, i);
    hide Coalesced, Recut;
    CoalescedPairs(g, i);
  }

  // A shrinking mm_realloc that splits before a free block makes one pair.
  lemma ShrunkPairs(h: Heap, i: nat, asize: int)
    requires i < |h.blocks| && h.blocks[i].alloc
    ensures FreePairs(Shrunk(h, i, asize).blocks) == FreePairs(h.blocks) +
      if h.blocks[i].size - asize >= MIN_BLOCK && FreeAt(h.blocks, i + 1) then 1 else 0
  {
    var bs := h.blocks;
    var cut := Trim(bs[i].ptr, bs[i].size, asize);
    PairsReplace(bs, i, 1, cut);
    assert bs[i..i + 1] == [bs[i]];
    PairsOne(bs[i]);
    TrimPairs(bs[i].ptr, bs[i].size, asize);
  }

  lemma TrimPairs(ptr: int, size: int, asize: int)
    ensures FreePairs(Trim(ptr, size, asize)) == 0
  {
    var cut := Trim(ptr, size, asize);
    if |cut| == 2 { PairsTwo(cut[0], cut[1]); assert cut == [cut[0], cut[1]]; }
    else { PairsOne(cut[0]); assert cut == [cut[0]]; }
  }

  // A growing mm_realloc makes no pair.
  lemma AbsorbedPairs(h: Heap, i: nat, asize: int)
    requires i < |h.blocks| && h.blocks[i].alloc && CanAbsorb(h, i, asize)
    ensures FreePairs(Absorbed(h, i, asize).blocks) <= FreePairs(h.blocks)
  {
    var bs := h.blocks;
    var cut := Trim(bs[i].ptr, bs[i].size + bs[i + 1].size, asize);
    PairsReplace(bs, i, 2, cut);
    assert bs[i..i + 2] == [bs[i], bs[i + 1]];
    PairsTwo(bs[i], bs[i + 1]);
    TrimPairs(bs[i].ptr, bs[i].size + bs[i + 1].size, asize);
    assert Absorbed(h, i, asize).blocks == Replace(bs, i, 2, cut);
    hide FreePairs, Absorbed, Replace, Recut;
  }

  lemma MallocPairs(h: Heap, size: Word)
    requires Good(h) && size + 15 < WORD_LIMIT
    ensures FreePairs(Malloc(h, size).0.blocks) <= FreePairs(h.blocks)
  {
    hide Good, OkSize, Placed, Grown, GrownAt, CanGrow, InsertPos, AdjMalloc;
    if size > 0 {
      var asize := AdjMalloc(size);
      AdjOk(size);
      SpotGood(h, asize);
      GrownPairs(h, Max(asize, CHUNKSIZE));
      var s := FindSpot(h, asize);
      if s.Spot? {
        PlacedPairs(s.heap, s.index, asize);
      }
    }
  }

  // Whether a call is a mm_realloc that shrinks its block with a split, right
  // before a free block.
  ghost predicate SplitShrink(s: Sys, c: Call) {
    c.ReallocCall? && c.ptr in s.req && c.size > 0 &&
    var i := IndexOf(s.heap.blocks, c.ptr);
    && i < |s.heap.blocks| && s.heap.blocks[i].size - AdjRealloc(c.size) >= MIN_BLOCK
    && FreeAt(s.heap.blocks, i + 1)
  }

  lemma FreePairsStep(s: Sys, ptr: int)
    requires Inv(s) && ptr in s.req
    ensures FreePairs(AfterFree(s, ptr).heap.blocks) <= FreePairs(s.heap.blocks)
  {
    assert LiveAt(s.heap, ptr);
    hide Freed, Good;
    FreedPairs(s.heap, IndexOf(s.heap.blocks, ptr));
  }

  lemma ReallocPairs(s: Sys, ptr: int, size: Word)
    requires Inv(s) && ptr in s.req && size > 0 && size + 15 < WORD_LIMIT
    ensures FreePairs(AfterRealloc(s, ptr, size).0.heap.blocks) <=
      FreePairs(s.heap.blocks) + if SplitShrink(s, ReallocCall(ptr, size)) then 1 else 0
    ensures SplitShrink(s, ReallocCall(ptr, size)) ==>
      FreePairs(AfterRealloc(s, ptr, size).0.heap.blocks) == FreePairs(s.heap.blocks) + 1
  {
    assert LiveAt(s.heap, ptr) && Good(s.heap);
    hide Inv, Good, Malloc, Freed, Shrunk, Absorbed, OkSize, AdjMalloc, AdjRealloc;
    var h, i := s.heap, IndexOf(s.heap.blocks, ptr);
    AdjOk(size);
    LiveReq(s, i);
    if h.blocks[i].size >= AdjRealloc(size) {
      ShrunkPairs(h, i, AdjRealloc(size));
    } else if CanAbsorb(h, i, AdjRealloc(size)) {
      AbsorbedPairs(h, i, AdjRealloc(size));
    } else {
      MallocPairs(h, size);
      OldStays(h, size, h.blocks[i]);
      var (g, p) := Malloc(h, size);
      if p != 0 { FreedPairs(g, IndexOf(g.blocks, ptr)); }
    }
  }

  // A call raises the number of free pairs exactly when it is a splitting
  // shrink, and then by one.
  lemma StepPairs(s: Sys, c: Call)
    requires Inv(s) && Legal(s, c)
    ensures FreePairs(Step(s, c).heap.blocks) <= FreePairs(s.heap.blocks) + if SplitShrink(s, c) then 1 else 0
    ensures FreePairs(Step(s, c).heap.blocks) > FreePairs(s.heap.blocks) <==> SplitShrink(s, c)
  {
    assert Good(s.heap);
    NotSplit(s, c);
    hide Inv, Good, Malloc, SplitShrink, FreePairs;
    match c
    case MallocCall(size) => MallocPairs(s.heap, size);
    case FreeCall(ptr) => FreePairsStep(s, ptr);
    case ReallocCall(ptr, size) =>
      NotNull(s);
      if ptr == 0 { MallocPairs(s.heap, size); }
      else if size == 0 { FreePairsStep(s, ptr); }
      else { ReallocPairs(s, ptr, size); }
  }

  lemma NotSplit(s: Sys, c: Call)
    requires Inv(s)
    ensures !c.ReallocCall? || c.ptr == 0 || c.size == 0 ==> !SplitShrink(s, c)
  {
    NotNull(s);
  }

  // The number of splitting shrinks in a run.
  ghost function SplitShrinks(s: Sys, calls: seq<Call>): nat
    decreases |calls|
  {
    if calls == [] then 0
    else (if SplitShrink(s, calls[0]) then 1 else 0) + SplitShrinks(Step(s, calls[0]), calls[1..])
  }

  lemma {:induction false} RunPairsFrom(s: Sys, calls: seq<Call>)
    requires Inv(s) && LegalRun(s, calls)
    ensures FreePairs(Run(s, calls).heap.blocks) <= FreePairs(s.heap.blocks) + SplitShrinks(s, calls)
    decreases |calls|
  {
    hide Inv, Legal, Step, SplitShrink, FreePairs;
    if calls != [] {
      StepInv(s, calls[0]);
      StepPairs(s, calls[0]);
      RunPairsFrom(Step(s, calls[0]), calls[1..]);
    }
  }

  // Over any legal run there are never more free pairs than splitting shrinks.
  lemma PairsBound(calls: seq<Call>)
    requires LegalRun(Start(), calls)
    ensures FreePairs(Run(Start(), calls).heap.blocks) <= SplitShrinks(Start(), calls)
  {
    StartInv();
    RunPairsFrom(Start(), calls);
    var b := Block(FIRST_BLOCK, INITCHUNKSIZE, false);
    assert Initial().blocks == [b];
    PairsOne(b);
  }

  lemma {:induction false} NoShrinks(s: Sys, calls: seq<Call>)
    requires forall c :: c in calls ==> !c.ReallocCall?
    ensures SplitShrinks(s, calls) == 0
    decreases |calls|
  {
    if calls != [] {
      NoShrinks(Step(s, calls[0]), calls[1..]);
    }
  }

  // A run of mm_malloc and mm_free alone leaves no two neighbouring free blocks.
  lemma FullyCoalesced(calls: seq<Call>)
    requires LegalRun(Start(), calls)
    requires forall c :: c in calls ==> !c.ReallocCall?
    ensures var bs := Run(Start(), calls).heap.blocks;
      forall i :: 0 <= i && i + 1 < |bs| ==> bs[i].alloc || bs[i + 1].alloc
  {
    PairsBound(calls);
    NoShrinks(Start(), calls);
    NoPairs(Run(Start(), calls).heap.blocks);
  }

  // With mm_realloc a reachable heap can have two neighbouring free blocks.
  lemma PairReachable()
    ensures var calls := [MallocCall(24), ReallocCall(16, 8)];
      LegalRun(Start(), calls) && FreePairs(Run(Start(), calls).heap.blocks) == 1
  {
    hide AfterMalloc, AfterRealloc, FreePairs, LegalRun, Run, Start;
    var s := Step(Start(), MallocCall(24));
    FirstMalloc();
    FirstShrink(s);
    TwoCalls(Start(), MallocCall(24), ReallocCall(16, 8));
  }

  lemma FirstShrink(s: Sys)
    requires s.heap.blocks == [Block(16, 32, true), Block(48, 32, false)]
    ensures FreePairs(AfterRealloc(s, 16, 8).0.heap.blocks) == 1
  {
    FirstResize(s);
    ShrunkPairs(s.heap, 0, 16);
    PairsTwo(s.heap.blocks[0], s.heap.blocks[1]);
    hide FreePairs, Shrunk, AfterRealloc, AdjRealloc;
  }
}
