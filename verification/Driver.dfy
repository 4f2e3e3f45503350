// mdriver.c: the driver that replays a trace against the allocator and checks it.
module Driver {
  import opened Words
  import opened MemLib
  import opened HeapModel
  import opened HeapOps
  import opened HeapRuns
  import opened Layout
  import opened Ranges
  import opened Trace
  import opened Usage
  import opened HeapExact
  import Mm

  // A byte read through a plain char, which is signed.
  function SignedChar(v: Byte): (c: int)
    ensures -128 <= c <= 127 && c % 256 == v
  {
    if v < 128 then v else v - 256
  }

  // A resize is one whose check fails exactly when the id's low byte changes as a char.
  lemma HighByteMeans(op: TraceOp)
    ensures HighByte(op) <==> op.kind == Kind.Realloc && SignedChar(op.index % 256) != op.index % 256
  {
  }

  lemma FitsSize(op: TraceOp, live: set<int>, numIds: int)
    requires OpFits(op, live, numIds)
    ensures 0 <= op.index < numIds && OpFits(op, live, op.index + 1)
    ensures op.kind != Kind.Free ==> 1 <= op.size < 0x8000_0000
    ensures op.kind == Kind.Alloc <==> op.index !in live
  {
  }

  class Driver {
    const a: Mm.Allocator
    const ranges: RangeList
    const blocks: array<int>   // trace->blocks
    const sizes: array<int>    // trace->block_sizes
    ghost var c: Client        // what the run has come to

    constructor (a: Mm.Allocator, numIds: nat)
      ensures this.a == a && fresh(ranges) && ranges.Valid() && ranges.nodes == []
      ensures fresh(blocks) && fresh(sizes) && blocks != sizes && blocks.Length == sizes.Length == numIds
    {
      this.a := a;
      ranges := new RangeList();
      blocks := new int[numIds];
      sizes := new int[numIds];
      c := Client(Start(), map[]);
    }

    // The four structures are different objects.
    ghost predicate Apart() {
      && blocks != sizes && blocks.Length == sizes.Length
      && blocks as object != a.mem.data && sizes as object != a.mem.data
    }

    // The allocator is as c says.
    ghost predicate HeapOk()
      reads this, a, a.mem, a.mem.data
    {
      a.Valid() && a.h == c.sys.heap && Owned(c)
    }

    // The trace arrays hold address and size of every live id.
    ghost predicate TablesOk()
      reads this, blocks, sizes
    {
      && blocks.Length == sizes.Length
      && forall i :: i in c.at ==>
        0 <= i < blocks.Length && blocks[i] == c.at[i] && c.at[i] in c.sys.req && sizes[i] == c.sys.req[c.at[i]]
    }

    // The recorded ranges are live payloads.
    ghost predicate RangesOk()
      reads this, ranges, ranges.nodes
    {
      ranges.Valid() && SpansFit(ranges.Spans(), c.sys.req)
    }

    // Live payloads are filled.
    ghost predicate DataOk()
      reads this, a, a.mem, a.mem.data
    {
      DataFit(a.mem.data[..], c)
    }

    ghost predicate Ok()
      reads this, a, a.mem, a.mem.data, blocks, sizes, ranges, ranges.nodes
    {
      Apart() && HeapOk() && TablesOk() && RangesOk() && DataOk()
    }

    // memset(p, index & 0xFF, size)
    method Fill(p: nat, op: TraceOp, ghost s: Sys)
      requires a.Valid() && a.h == s.heap && Inv(s) && p in s.req && s.req[p] == op.size
      modifies a.mem`words, a.mem.data
      ensures a.Valid() && a.h == old(a.h)
      ensures Filled(old(a.mem.data[..]), a.mem.data[..], p, op)
    {
      hide Inv;
      ReqBlock(s, p);
      a.Memset(s.heap.blocks[IndexOf(s.heap.blocks, p)], p, op.index % 256, op.size);
    }

    // ---------------------------------------------------------------- ALLOC

    // p = mm_malloc(size)
    method CallMalloc(op: TraceOp) returns (p: nat)
      requires HeapOk() && op.kind == Kind.Alloc && OpFits(op, c.at.Keys, op.index + 1)
      modifies a, a.mem, a.mem.data
      ensures p == AfterMalloc(c.sys, op.size).1
      ensures a.Valid() && (p != 0 ==> a.h == AfterMalloc(c.sys, op.size).0.heap)
      ensures Kept(c.sys.heap.blocks, old(a.mem.data[..]), a.mem.data[..])
    {
      hide MallocEffect, ReallocEffect, Joined, Memory.Valid;
      hide Owned, PlayOp, AfterMalloc, HeapOps.Malloc, Kept, Good, Shape;
      AllocPlayed(c, op);
      p := a.Malloc(op.size);
    }

    // The memset after it.
    method FillNew(op: TraceOp, p: nat, ghost m: seq<Byte>)
      requires Owned(c) && op.kind == Kind.Alloc && OpFits(op, c.at.Keys, op.index + 1)
      requires a.Valid() && a.h == AfterMalloc(c.sys, op.size).0.heap
      requires p == AfterMalloc(c.sys, op.size).1 && p != 0
      requires DataFit(m, c) && Kept(c.sys.heap.blocks, m, a.mem.data[..])
      modifies a.mem`words, a.mem.data
      ensures a.Valid() && a.h == old(a.h) && DataFit(a.mem.data[..], PlayOp(c, op).0)
    {
      hide Owned, DataFit, PlayOp, AfterMalloc, Kept, Filled, Good, Shape, Inv;
      AllocReq(c, op);
      Fill(p, op, AfterMalloc(c.sys, op.size).0);
      AllocData(c, op, m, old(a.mem.data[..]), a.mem.data[..]);
    }

    // add_range of the new payload: it is always accepted.
    method AddRange(op: TraceOp, p: nat) returns (v: Verdict)
      requires Owned(c) && RangesOk() && op.kind == Kind.Alloc && OpFits(op, c.at.Keys, op.index + 1)
      requires p == AfterMalloc(c.sys, op.size).1 && p != 0
      requires a.mem.brk == AfterMalloc(c.sys, op.size).0.heap.brk
      modifies ranges
      ensures v == Passed && ranges.Valid() && SpansFit(ranges.Spans(), AfterMalloc(c.sys, op.size).0.req)
      ensures forall n :: n in ranges.nodes ==> n in old(ranges.nodes) || fresh(n)
    {
      hide Owned, SpansFit, AfterMalloc, Judge;
      AllocSpans(c, op, ranges.Spans());
      v := ranges.Add(p, op.size, a.mem);
    }

    // trace->blocks[index] = p; trace->block_sizes[index] = size
    method Record(op: TraceOp, p: int, ghost d: Client)
      requires blocks != sizes && 0 <= op.index < blocks.Length && TablesOk() && Carries(c, d, op, p)
      modifies this, blocks, sizes
      ensures TablesOk() && c == d
    {
      blocks[op.index] := p;
      sizes[op.index] := op.size;
      c := d;
    }

    // The client after the allocation.
    lemma NewPlayed(op: TraceOp, p: int)
      requires Owned(c) && op.kind == Kind.Alloc && OpFits(op, c.at.Keys, op.index + 1)
      requires p == AfterMalloc(c.sys, op.size).1 && p != 0
      ensures var d := PlayOp(c, op).0;
        d.sys == AfterMalloc(c.sys, op.size).0 && Owned(d) && Carries(c, d, op, p)
      ensures 1 <= op.size < WORD_LIMIT && op.index >= 0
    {
      hide Owned, PlayOp, AfterMalloc, Carries;
      AllocPlayed(c, op);
      AllocOwned(c, op);
      AllocCarries(c, op);
    }

    // The ALLOC case after mm_malloc succeeded.
    method CheckNew(op: TraceOp, p: nat, ghost m: seq<Byte>) returns (v: Verdict)
      requires Apart() && Owned(c) && TablesOk() && RangesOk() && DataFit(m, c)
      requires op.kind == Kind.Alloc && OpFits(op, c.at.Keys, blocks.Length)
      requires a.Valid() && a.h == AfterMalloc(c.sys, op.size).0.heap
      requires p == AfterMalloc(c.sys, op.size).1 && p != 0
      requires Kept(c.sys.heap.blocks, m, a.mem.data[..])
      modifies this, a.mem`words, a.mem.data, blocks, sizes, ranges
      ensures v == Passed && Ok() && c == PlayOp(old(c), op).0
      ensures forall n :: n in ranges.nodes ==> n in old(ranges.nodes) || fresh(n)
    {
      hide Owned, DataFit, SpansFit, PlayOp, AfterMalloc, Kept, Good, Shape, Inv, Carries;
      ghost var d := PlayOp(c, op).0;
      NewPlayed(op, p);
      hide Apart, OpFits;
      v := AddRange(op, p);
      if v != Passed {
        return v;
      }
      FillNew(op, p, m);
      Record(op, p, d);
      assert RangesOk();
    }

    // The ALLOC case of eval_mm_valid.
    method Alloc(op: TraceOp) returns (v: Verdict)
      requires Ok() && op.kind == Kind.Alloc && OpFits(op, c.at.Keys, blocks.Length)
      modifies this, a, a.mem, a.mem.data, blocks, sizes, ranges
      ensures v == PlayOp(old(c), op).1 && a.mem.Valid() && ranges.Valid()
      ensures v == Passed ==> Ok() && c == PlayOp(old(c), op).0
      ensures v == Passed ==> forall n :: n in ranges.nodes ==> n in old(ranges.nodes) || fresh(n)
    {
      hide HeapOps.Malloc, HeapOps.Realloc, OpFits, TablesOk, RangeList.Valid, Memory.Valid, Owned, DataFit;
      hide SpansFit, PlayOp, AfterMalloc, Kept, Good, Shape, Inv;
      ghost var m := a.mem.data[..];
      FitsSize(op, c.at.Keys, blocks.Length);
      AllocPlayed(c, op);
      var p := CallMalloc(op);
      if p == 0 {
        return MallocFailed;
      }
      v := CheckNew(op, p, m);
    }

    // -------------------------------------------------------------- REALLOC

    // newp = mm_realloc(oldp, size)
    method CallRealloc(op: TraceOp, oldp: nat) returns (p: nat)
      requires HeapOk() && DataOk() && op.kind == Kind.Realloc && OpFits(op, c.at.Keys, op.index + 1)
      requires oldp == c.at[op.index]
      modifies a, a.mem, a.mem.data
      ensures a.Valid() && p == AfterRealloc(c.sys, oldp, op.size).1
      ensures p != 0 ==> Resized(op, oldp, p, old(a.mem.data[..]))
    {
      hide MallocEffect, ReallocEffect, Joined, Memory.Valid;
      hide PlayOp, AfterRealloc, HeapOps.Realloc, Kept, Others, SameBytes, DataFit, Good, Shape, Inv;
      ReallocPlayed(c, op);
      ReqBlock(c.sys, oldp);
      p := a.Realloc(IndexOf(c.sys.heap.blocks, oldp), oldp, op.size);
    }

    // What mm_realloc has done to the heap when it returns p; m is the data before.
    ghost predicate Resized(op: TraceOp, oldp: int, p: int, m: seq<Byte>)
      requires op.kind == Kind.Realloc && 1 <= op.size < WORD_LIMIT
      reads this, a, a.mem, a.mem.data
    {
      var bs := c.sys.heap.blocks;
      var i := IndexOf(bs, oldp);
      && a.Valid() && a.h == AfterRealloc(c.sys, oldp, op.size).0.heap
      && p == AfterRealloc(c.sys, oldp, op.size).1 && p != 0 && DataFit(m, c)
      && i < |bs| && Kept(Others(bs, i), m, a.mem.data[..])
      && SameBytes(m, oldp, a.mem.data[..], p, Min(op.size, bs[i].size - 8))
    }

    lemma ResizedValid(op: TraceOp, oldp: int, p: int, m: seq<Byte>)
      requires op.kind == Kind.Realloc && 1 <= op.size < WORD_LIMIT && Resized(op, oldp, p, m)
      ensures a.mem.Valid()
    {
    }

    // add_range of the resized payload: it is always accepted.
    method MoveRange(op: TraceOp, oldp: int, p: nat, ghost m: seq<Byte>) returns (v: Verdict)
      requires Owned(c) && RangesOk() && op.kind == Kind.Realloc && OpFits(op, c.at.Keys, op.index + 1)
      requires oldp == c.at[op.index] && Resized(op, oldp, p, m)
      modifies ranges, ranges.nodes
      ensures v == Passed && ranges.Valid() && SpansFit(ranges.Spans(), AfterRealloc(c.sys, oldp, op.size).0.req)
      ensures forall n :: n in ranges.nodes ==> n in old(ranges.nodes) || fresh(n)
    {
      hide RangeList.Valid, Memory.Valid, Owned, SpansFit, AfterRealloc, Judge, Without, Kept, Others;
      hide SameBytes, DataFit, Good, Shape;
      ReallocSpans(c, op, ranges.Spans());
      ranges.Remove(oldp);
      v := ranges.Add(p, op.size, a.mem);
    }

    // The comparison loop of eval_mm_valid.
    method Compare(op: TraceOp, p: nat, n: nat) returns (same: bool)
      requires p + n <= a.mem.data.Length
      ensures same <==> forall k :: p <= k < p + n ==> SignedChar(a.mem.data[k]) == op.index % 256
    {
      var j := 0;
      while j < n
        invariant 0 <= j <= n
        invariant forall k :: p <= k < p + j ==> SignedChar(a.mem.data[k]) == op.index % 256
      {
        if SignedChar(a.mem.data[p + j]) != op.index % 256 {
          return false;
        }
        j := j + 1;
      }
      return true;
    }

    // The check finds the data lost exactly for an id whose low byte is negative as a char.
    method CheckData(op: TraceOp, oldp: int, p: nat, oldsize: int, ghost m: seq<Byte>) returns (same: bool)
      requires Owned(c) && op.kind == Kind.Realloc && 1 <= op.size < WORD_LIMIT
      requires op.index in c.at && oldp == c.at[op.index] && Resized(op, oldp, p, m)
      requires oldp in c.sys.req && oldsize == c.sys.req[oldp]
      ensures same == !HighByte(op)
    {
      hide Owned, DataFit, SameBytes, Kept, Others, AfterRealloc, Good, Shape;
      ghost var m1, n := a.mem.data[..], Compared(c, op);
      ComparedData(c, op, m, m1, p);
      assert forall k :: p <= k < p + n ==> a.mem.data[k] == m1[k];
      same := Compare(op, p, if op.size < oldsize then op.size else oldsize);
      assert a.mem.data[p] as int == op.index % 256;
    }

    // The memset after the check.
    method FillResized(op: TraceOp, oldp: int, p: nat, ghost m: seq<Byte>)
      requires Owned(c) && op.kind == Kind.Realloc && OpFits(op, c.at.Keys, op.index + 1) && oldp == c.at[op.index]
      requires Resized(op, oldp, p, m)
      modifies a.mem`words, a.mem.data
      ensures a.Valid() && a.h == AfterRealloc(c.sys, oldp, op.size).0.heap
      ensures DataFit(a.mem.data[..], PlayOp(c, op).0)
    {
      hide Owned, DataFit, PlayOp, AfterRealloc, Kept, Others, Filled, SameBytes, Good, Shape, Inv;
      ReallocSame(c, op);
      Fill(p, op, AfterRealloc(c.sys, oldp, op.size).0);
      ReallocData(c, op, m, old(a.mem.data[..]), a.mem.data[..]);
    }

    // The client after the resize.
    lemma ResizedPlayed(op: TraceOp, oldp: int, p: int, m: seq<Byte>)
      requires Owned(c) && op.kind == Kind.Realloc && OpFits(op, c.at.Keys, op.index + 1) && oldp == c.at[op.index]
      requires Resized(op, oldp, p, m)
      ensures var d := PlayOp(c, op).0;
        d.sys == AfterRealloc(c.sys, oldp, op.size).0 && Owned(d) && Carries(c, d, op, p)
    {
      hide Owned, DataFit, PlayOp, AfterRealloc, Kept, Others, SameBytes, Good, Shape, Carries;
      ReallocPlayed(c, op);
      ReallocOwned(c, op);
      ReallocCarries(c, op);
    }

    // memset and the trace arrays after the check.
    method Refill(op: TraceOp, oldp: nat, p: nat, ghost m: seq<Byte>)
      requires Apart() && Owned(c) && TablesOk()
      requires op.kind == Kind.Realloc && OpFits(op, c.at.Keys, blocks.Length) && oldp == c.at[op.index]
      requires ranges.Valid() && SpansFit(ranges.Spans(), AfterRealloc(c.sys, oldp, op.size).0.req)
      requires Resized(op, oldp, p, m)
      modifies this, a.mem`words, a.mem.data, blocks, sizes
      ensures Ok() && c == PlayOp(old(c), op).0
    {
      hide Owned, DataFit, SpansFit, PlayOp, AfterRealloc, Kept, Others, SameBytes, Good, Shape, Inv, Carries, HighByte;
      ghost var d := PlayOp(c, op).0;
      ResizedPlayed(op, oldp, p, m);
      hide Resized, Apart;
      FillResized(op, oldp, p, m);
      Record(op, p, d);
      assert RangesOk();
    }

    // The REALLOC case after mm_realloc succeeded.
    method CheckResized(op: TraceOp, oldp: nat, p: nat, ghost m: seq<Byte>) returns (v: Verdict)
      requires Apart() && Owned(c) && TablesOk() && RangesOk()
      requires op.kind == Kind.Realloc && OpFits(op, c.at.Keys, blocks.Length) && oldp == c.at[op.index]
      requires Resized(op, oldp, p, m)
      modifies this, a.mem`words, a.mem.data, blocks, sizes, ranges, ranges.nodes
      ensures v == (if HighByte(op) then LostData else Passed) && a.mem.Valid() && ranges.Valid()
      ensures v == Passed ==> Ok() && c == PlayOp(old(c), op).0
      ensures forall n :: n in ranges.nodes ==> n in old(ranges.nodes) || fresh(n)
    {
      hide Owned, SpansFit, PlayOp, AfterRealloc, HighByte, Resized;
      assert oldp in c.sys.req && sizes[op.index] == c.sys.req[oldp];
      v := MoveRange(op, oldp, p, m);
      if v != Passed {
        return v;
      }
      ResizedValid(op, oldp, p, m);
      var same := CheckData(op, oldp, p, sizes[op.index], m);
      if !same {
        return LostData;
      }
      Refill(op, oldp, p, m);
    }

    // The REALLOC case of eval_mm_valid.
    method Realloc(op: TraceOp) returns (v: Verdict)
      requires Ok() && op.kind == Kind.Realloc && OpFits(op, c.at.Keys, blocks.Length)
      modifies this, a, a.mem, a.mem.data, blocks, sizes, ranges, ranges.nodes
      ensures v == PlayOp(old(c), op).1 && a.mem.Valid() && ranges.Valid()
      ensures v == Passed ==> Ok() && c == PlayOp(old(c), op).0
      ensures v == Passed ==> forall n :: n in ranges.nodes ==> n in old(ranges.nodes) || fresh(n)
    {
      hide HeapOps.Malloc, HeapOps.Realloc, RangeList.Valid, Memory.Valid, Owned, DataFit, SpansFit, PlayOp;
      hide AfterRealloc, Kept, Others, SameBytes, Good, Shape, Inv, Resized, HighByte;
      ghost var m := a.mem.data[..];
      ReallocPlayed(c, op);
      Positive(op.index);
      var oldp := blocks[op.index];
      var p := CallRealloc(op, oldp);
      if p == 0 {
        return ReallocFailed;
      }
      v := CheckResized(op, oldp, p, m);
    }

    lemma Positive(i: int)
      requires HeapOk() && TablesOk() && i in c.at
      ensures 0 <= i < blocks.Length && blocks[i] == c.at[i] && c.at[i] >= FIRST_BLOCK
    {
      ReqBlock(c.sys, c.at[i]);
    }

    // ----------------------------------------------------------------- FREE

    // The FREE case of eval_mm_valid.
    method Free(op: TraceOp) returns (v: Verdict)
      requires Ok() && op.kind == Kind.Free && OpFits(op, c.at.Keys, blocks.Length)
      modifies this, a, a.mem`words, a.mem.data, ranges, ranges.nodes
      ensures v == Passed == PlayOp(old(c), op).1
      ensures Ok() && c == PlayOp(old(c), op).0
      ensures forall n :: n in ranges.nodes ==> n in old(ranges.nodes) || fresh(n)
    {
      hide RangeList.Valid, Memory.Valid, Owned, DataFit, SpansFit, PlayOp, Kept, Others, Without, Good;
      hide Shape, Inv, Freed;
      ghost var m, d := a.mem.data[..], PlayOp(c, op).0;
      FreePlayed(c, op);
      FreeOwned(c, op);
      FreeSpans(c, op, ranges.Spans());
      FreeTables(op);
      Positive(op.index);
      var p := blocks[op.index];
      ranges.Remove(p);
      CallFree(op, p);
      FreeData(c, op, m, a.mem.data[..]);
      c := d;
      v := Passed;
      assert RangesOk() && TablesOk();
    }

    // mm_free(p)
    method CallFree(op: TraceOp, p: nat)
      requires HeapOk() && op.kind == Kind.Free && op.index in c.at && p == c.at[op.index]
      modifies a, a.mem`words, a.mem.data
      ensures IndexOf(c.sys.heap.blocks, p) < |c.sys.heap.blocks|
      ensures a.Valid() && a.h == Freed(c.sys.heap, IndexOf(c.sys.heap.blocks, p))
      ensures Kept(Others(c.sys.heap.blocks, IndexOf(c.sys.heap.blocks, p)), old(a.mem.data[..]), a.mem.data[..])
    {
      hide MallocEffect, ReallocEffect, Joined, Memory.Valid;
      hide Kept, Others, Good, Shape, Inv, Freed;
      ReqBlock(c.sys, p);
      a.Free(IndexOf(c.sys.heap.blocks, p), p);
    }

    // The other ids keep address and size.
    lemma FreeTables(op: TraceOp)
      requires TablesOk() && Owned(c) && op.kind == Kind.Free && op.index in c.at
      ensures var d := PlayOp(c, op).0;
        forall i :: i in d.at ==>
          i in c.at && d.at[i] == c.at[i] && d.at[i] in d.sys.req && d.sys.req[d.at[i]] == c.sys.req[c.at[i]]
    {
      FreePlayed(c, op);
      hide PlayOp, Inv, Freed;
    }

    // One iteration of eval_mm_valid.
    method Operate(op: TraceOp) returns (v: Verdict)
      requires Ok() && OpFits(op, c.at.Keys, blocks.Length)
      modifies this, a, a.mem, a.mem.data, blocks, sizes, ranges, ranges.nodes
      ensures v == PlayOp(old(c), op).1 && a.mem.Valid() && ranges.Valid()
      ensures v == Passed ==> Ok() && c == PlayOp(old(c), op).0
      ensures v == Passed ==> forall n :: n in ranges.nodes ==> n in old(ranges.nodes) || fresh(n)
    {
      match op.kind {
        case Alloc => v := Alloc(op);
        case Realloc => v := Realloc(op);
        case Free => v := Free(op);
      }
    }

    // The start of eval_mm_valid: mem_reset_brk, clear_ranges, mm_init.
    method Reset() returns (v: Verdict)
      requires Apart() && a.mem.Valid() && ranges.Valid()
      modifies this, a, a.mem, a.mem.data, ranges
      ensures v == Passed && Ok() && c == Fresh() && ranges.nodes == []
    {
      a.mem.ResetBrk();
      ghost var freed := ranges.Clear();
      var r := a.Init();
      if r < 0 {
        return InitFailed;
      }
      c := Fresh();
      StartInv();
      return Passed;
    }

    lemma OkMeans()
      requires Ok()
      ensures a.mem.Valid() && ranges.Valid()
    {
    }

    // eval_mm_valid; n is the operation that made it stop.
    method EvalValid(ops: seq<TraceOp>) returns (v: Verdict, n: nat)
      requires Apart() && a.mem.Valid() && ranges.Valid() && WellFormed(ops, blocks.Length)
      modifies this, a, a.mem, a.mem.data, blocks, sizes, ranges
      ensures a.mem.Valid() && ranges.Valid()
      ensures Playable(Fresh(), ops, 0, blocks.Length) && (v, n as int) == Play(Fresh(), ops, 0, blocks.Length)
      ensures exists d :: Leads(Fresh(), ops, 0, d, n, blocks.Length) && StopsAt(d, ops, n, v, blocks.Length)
      ensures if exists j :: 0 <= j < |ops| && HighByte(ops[j]) then v != Passed
              else v in {Passed, MallocFailed, ReallocFailed}
    {
      hide Play, PlayOp, Playable, WellFormed, Ok, HighByte, RangeList.Valid, Memory.Valid;
      PassesUnless(ops, blocks.Length);
      hide Leads, StopsAt;
      ghost var d := PlaySound(Fresh(), ops, 0, blocks.Length);
      PlayStep(Fresh(), ops, 0, blocks.Length);
      v := Reset();
      n := 0;
      if v != Passed {
        return;
      }
      OkMeans();
      while n < |ops|
        invariant n <= |ops| && v == Passed && Ok() && a.mem.Valid() && ranges.Valid()
        invariant Playable(c, ops, n, blocks.Length)
        invariant Play(c, ops, n, blocks.Length) == Play(Fresh(), ops, 0, blocks.Length)
        invariant forall i :: 0 <= i < |ranges.nodes| ==> fresh(ranges.nodes[i])
      {
        PlayStep(c, ops, n, blocks.Length);
        v := Operate(ops[n]);
        if v != Passed {
          return;
        }
        n := n + 1;
        assert forall i :: 0 <= i < |ranges.nodes| ==> ranges.nodes[i] in ranges.nodes;
      }
      PlayStep(c, ops, n, blocks.Length);
    }

    // --------------------------------------------------------- eval_mm_util

    // newp = mm_realloc(oldp, newsize), the data unchecked.
    method ResizeOnly(op: TraceOp, oldp: nat) returns (p: nat)
      requires HeapOk() && op.kind == Kind.Realloc && OpFits(op, c.at.Keys, op.index + 1) && oldp == c.at[op.index]
      modifies a, a.mem, a.mem.data
      ensures p == AfterRealloc(c.sys, oldp, op.size).1
      ensures p != 0 ==> a.Valid() && a.h == AfterRealloc(c.sys, oldp, op.size).0.heap
    {
      hide MallocEffect, ReallocEffect, Joined, Memory.Valid;
      hide PlayOp, AfterRealloc, HeapOps.Realloc, Kept, Others, SameBytes, Good, Shape, Inv;
      ReallocPlayed(c, op);
      ReqBlock(c.sys, oldp);
      p := a.Realloc(IndexOf(c.sys.heap.blocks, oldp), oldp, op.size);
    }

    // The allocator and the tables agree with c.
    ghost predicate Steady()
      reads this, a, a.mem, a.mem.data, blocks, sizes
    {
      Apart() && HeapOk() && TablesOk()
    }

    // The ALLOC case of eval_mm_util.
    method UtilAlloc(op: TraceOp, total: int) returns (ok: bool, sum: int)
      requires Steady() && op.kind == Kind.Alloc && OpFits(op, c.at.Keys, blocks.Length)
      requires total == Total(c.sys.req)
      modifies this, a, a.mem, a.mem.data, blocks, sizes
      ensures ok == (PlayOp(old(c), op).1 in {Passed, LostData})
      ensures ok ==> Steady() && c == PlayOp(old(c), op).0 && sum == Total(c.sys.req)
    {
      hide HeapOps.Malloc, HeapOps.Realloc, OpFits, TablesOk, RangeList.Valid, Memory.Valid, Owned, PlayOp;
      hide AfterMalloc, Kept, Good, Shape, Inv, Carries, Total;
      FitsSize(op, c.at.Keys, blocks.Length);
      ghost var d := PlayOp(c, op).0;
      AllocPlayed(c, op);
      AllocOwned(c, op);
      AllocCarries(c, op);
      OpTotal(c, op, blocks.Length);
      var p := CallMalloc(op);
      if p == 0 {
        return false, total;
      }
      Record(op, p, d);
      return true, total + op.size;
    }

    // The REALLOC case of eval_mm_util.
    method UtilRealloc(op: TraceOp, total: int) returns (ok: bool, sum: int)
      requires Steady() && op.kind == Kind.Realloc && OpFits(op, c.at.Keys, blocks.Length)
      requires total == Total(c.sys.req)
      modifies this, a, a.mem, a.mem.data, blocks, sizes
      ensures ok == (PlayOp(old(c), op).1 in {Passed, LostData})
      ensures ok ==> Steady() && c == PlayOp(old(c), op).0 && sum == Total(c.sys.req)
    {
      hide HeapOps.Malloc, HeapOps.Realloc, Owned, PlayOp, AfterRealloc, Kept, Good, Shape, Inv, Carries;
      hide Total, HighByte;
      ghost var d := PlayOp(c, op).0;
      ReallocPlayed(c, op);
      ReallocOwned(c, op);
      ReallocCarries(c, op);
      OpTotal(c, op, blocks.Length);
      Positive(op.index);
      var oldsize := sizes[op.index];
      var oldp := blocks[op.index];
      var p := ResizeOnly(op, oldp);
      if p == 0 {
        return false, total;
      }
      Record(op, p, d);
      return true, total + (op.size - oldsize);
    }

    // The FREE case of eval_mm_util.
    method UtilFree(op: TraceOp, total: int) returns (ok: bool, sum: int)
      requires Steady() && op.kind == Kind.Free && OpFits(op, c.at.Keys, blocks.Length)
      requires total == Total(c.sys.req)
      modifies this, a, a.mem`words, a.mem.data
      ensures ok == (PlayOp(old(c), op).1 in {Passed, LostData})
      ensures ok ==> Steady() && c == PlayOp(old(c), op).0 && sum == Total(c.sys.req)
    {
      hide Owned, PlayOp, Kept, Others, Good, Shape, Inv, Freed, Total;
      ghost var d := PlayOp(c, op).0;
      FreePlayed(c, op);
      FreeOwned(c, op);
      FreeTables(op);
      OpTotal(c, op, blocks.Length);
      Positive(op.index);
      var size := sizes[op.index];
      var p := blocks[op.index];
      CallFree(op, p);
      c := d;
      return true, total - size;
    }

    // One iteration of eval_mm_util.
    method UtilOperate(op: TraceOp, total: int) returns (ok: bool, sum: int)
      requires Steady() && OpFits(op, c.at.Keys, blocks.Length) && total == Total(c.sys.req)
      modifies this, a, a.mem, a.mem.data, blocks, sizes
      ensures ok == (PlayOp(old(c), op).1 in {Passed, LostData})
      ensures ok ==> Steady() && c == PlayOp(old(c), op).0 && sum == Total(c.sys.req)
    {
      match op.kind {
        case Alloc => ok, sum := UtilAlloc(op, total);
        case Realloc => ok, sum := UtilRealloc(op, total);
        case Free => ok, sum := UtilFree(op, total);
      }
    }

    // eval_mm_util; not ok is an exit through app_error.
    method EvalUtil(ops: seq<TraceOp>) returns (ok: bool, util: real)
      requires Apart() && a.mem.Valid() && WellFormed(ops, blocks.Length)
      modifies this, a, a.mem, a.mem.data, blocks, sizes
      ensures Playable(Fresh(), ops, 0, blocks.Length)
      ensures var (fits, most, brk) := Measure(Fresh(), ops, 0, 0, blocks.Length);
        ok == fits && (ok ==> brk > 0 && util == most as real / brk as real && 0.0 <= util <= 1.0)
    {
      hide Measure, PlayOp, Playable, WellFormed, Steady, Total;
      FreshPlayable(ops, blocks.Length);
      FreshBound(ops);
      var total, most, k := 0, 0, 0;
      a.mem.ResetBrk();
      var r := a.Init();
      if r < 0 {
        return false, 0.0;
      }
      c := Fresh();
      FreshSteady();
      while k < |ops|
        invariant 0 <= k <= |ops| && Steady() && Playable(c, ops, k, blocks.Length) && total == Total(c.sys.req)
        invariant Measure(c, ops, k, most, blocks.Length) == Measure(Fresh(), ops, 0, 0, blocks.Length)
        invariant total <= most
      {
        MeasureStep(c, ops, k, most, blocks.Length);
        ok, total := UtilOperate(ops[k], total);
        if !ok {
          return false, 0.0;
        }
        most := if total > most then total else most;
        k := k + 1;
      }
      MeasureStep(c, ops, k, most, blocks.Length);
      HeapSizeIs();
      Ratio(most, a.mem.HeapSize());
      return true, most as real / a.mem.HeapSize() as real;
    }

    lemma FreshSteady()
      requires Apart() && a.Valid() && a.h == Initial() && c == Fresh()
      ensures Steady() && Total(c.sys.req) == 0
    {
      StartInv();
    }

    lemma HeapSizeIs()
      requires Steady()
      ensures a.mem.brk == c.sys.heap.brk
    {
    }

    lemma FreshBound(ops: seq<TraceOp>)
      requires Playable(Fresh(), ops, 0, blocks.Length)
      ensures var (ok, most, brk) := Measure(Fresh(), ops, 0, 0, blocks.Length); 0 <= most <= brk - 16
    {
      MeasureBound(Fresh(), ops, 0, 0, blocks.Length);
    }

    lemma Ratio(x: int, y: int)
      requires 0 <= x <= y && 0 < y
      ensures 0.0 <= x as real / y as real <= 1.0
    {
    }
  }
}
