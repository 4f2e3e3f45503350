// Traces of allocator requests, and what running one through the allocator does.
module Trace {
  import opened Words
  import opened HeapModel
  import opened HeapOps
  import opened HeapProofs
  import opened HeapRuns
  import opened Layout
  import opened Ranges

  datatype Kind = Alloc | Free | Realloc

  // traceop_t. The size of a Free is not used.
  datatype TraceOp = TraceOp(kind: Kind, index: int, size: int)

  // The ids whose block is live before operation k.
  function LiveIds(ops: seq<TraceOp>, k: nat): set<int>
    requires k <= |ops|
  {
    if k == 0 then {}
    else
      var op := ops[k - 1];
      match op.kind
      case Alloc => LiveIds(ops, k - 1) + {op.index}
      case Free => LiveIds(ops, k - 1) - {op.index}
      case Realloc => LiveIds(ops, k - 1)
  }

  ghost predicate OpFits(op: TraceOp, live: set<int>, numIds: int) {
    && 0 <= op.index < numIds
    && (op.kind != Free ==> 1 <= op.size < 0x8000_0000)
    && (if op.kind == Alloc then op.index !in live else op.index in live)
  }

  // Positive int sizes, and only live ids freed or resized.
  ghost predicate WellFormed(ops: seq<TraceOp>, numIds: int) {
    forall k :: 0 <= k < |ops| ==> OpFits(ops[k], LiveIds(ops, k), numIds)
  }

  // The system, and the address of every live id's block.
  datatype Client = Client(sys: Sys, at: map<int, int>)

  // A resize whose id has a low byte that a signed char cannot hold.
  predicate HighByte(op: TraceOp) { op.kind == Realloc && op.index % 256 >= 128 }

  // One operation, and what eval_mm_valid makes of it.
  function PlayOp(c: Client, op: TraceOp): (Client, Verdict)
    requires op.kind != Free ==> 0 <= op.size < WORD_LIMIT
    requires op.kind != Alloc ==> op.index in c.at
  {
    match op.kind
    case Alloc =>
      var (s, p) := AfterMalloc(c.sys, op.size);
      if p == 0 then (c, MallocFailed) else (Client(s, c.at[op.index := p]), Passed)
    case Free =>
      (Client(AfterFree(c.sys, c.at[op.index]), c.at - {op.index}), Passed)
    case Realloc =>
      var (s, p) := AfterRealloc(c.sys, c.at[op.index], op.size);
      if p == 0 then (c, ReallocFailed)
      else (Client(s, c.at[op.index := p]), if HighByte(op) then LostData else Passed)
  }

  // ------------------------------------------------------------ invariants

  // Live ids own distinct live payloads.
  ghost predicate Owned(c: Client) {
    && Inv(c.sys)
    && (forall i :: i in c.at ==> c.at[i] in c.sys.req)
    && (forall i, j :: i in c.at && j in c.at && i != j ==> c.at[i] != c.at[j])
  }

  // Every recorded range is a live payload, and each once.
  ghost predicate SpansFit(spans: seq<Span>, req: map<int, int>) {
    && DistinctLo(spans)
    && forall x :: x in spans ==> x.lo in req && x.hi == x.lo + req[x.lo] - 1
  }

  // Every live payload is filled with the low byte of its id.
  ghost predicate DataFit(m: seq<Byte>, c: Client) {
    forall i, k :: (i in c.at && c.at[i] in c.sys.req && 0 <= k < |m| &&
      c.at[i] <= k < c.at[i] + c.sys.req[c.at[i]]) ==> m[k] as int == i % 256
  }

  // The driver's memset of the payload at p.
  ghost predicate Filled(m: seq<Byte>, m': seq<Byte>, p: int, op: TraceOp) {
    && OnlyWithin(m, m', p, p + op.size)
    && forall k :: 0 <= k < |m'| && p <= k < p + op.size ==> m'[k] as int == op.index % 256
  }

  // The block behind a live address.
  lemma ReqBlock(s: Sys, p: int)
    requires Inv(s) && p in s.req
    ensures var i := IndexOf(s.heap.blocks, p);
      && i < |s.heap.blocks| && s.heap.blocks[i] in s.heap.blocks && s.heap.blocks[i].alloc
      && s.heap.blocks[i].ptr == p && p % 8 == 0 && FIRST_BLOCK <= p
      && 1 <= s.req[p] && s.req[p] + 15 < WORD_LIMIT && s.req[p] + 8 <= s.heap.blocks[i].size
      && s.heap.blocks[i].End() <= s.heap.brk
  {
    assert LiveAt(s.heap, p);
    var i := IndexOf(s.heap.blocks, p);
    BlockInside(s.heap, i);
    Mult8Mod(p);
    assert Snug(s.heap.blocks[i], s.req[p]);
    AdjOk(s.req[p]);
  }

  // Live payloads lie apart.
  lemma ReqApart(s: Sys, p: int, q: int)
    requires Inv(s) && p in s.req && q in s.req && p != q
    ensures p + s.req[p] + 8 <= q || q + s.req[q] + 8 <= p
  {
    ReqBlock(s, p);
    ReqBlock(s, q);
    TiledApart(s.heap.blocks, FIRST_BLOCK, s.heap.brk);
  }

  // A live payload passes add_range against the ranges of other live payloads.
  lemma Accepted(s: Sys, spans: seq<Span>, p: int)
    requires Inv(s) && p in s.req
    requires forall x :: x in spans ==> x.lo in s.req && x.lo != p && x.hi == x.lo + s.req[x.lo] - 1
    ensures Judge(p, s.req[p], s.heap.brk, spans) == Passed
  {
    ReqBlock(s, p);
    hide Inv;
    forall i | 0 <= i < |spans|
      ensures spans[i].lo <= spans[i].hi && !Meet(p, p + s.req[p] - 1, spans[i])
    {
      assert spans[i] in spans;
      ReqBlock(s, spans[i].lo);
      ReqApart(s, p, spans[i].lo);
    }
    DisjointAccepted(p, s.req[p], s.heap.brk, spans);
  }

  lemma SpansGrow(spans: seq<Span>, req: map<int, int>, req': map<int, int>, p: int)
    requires DistinctLo(spans) && p in req'
    requires forall x :: x in spans ==>
      x.lo in req && x.lo in req' && x.lo != p && x.hi == x.lo + req[x.lo] - 1 && req'[x.lo] == req[x.lo]
    ensures SpansFit([Span(p, p + req'[p] - 1)] + spans, req')
  {
    var t := [Span(p, p + req'[p] - 1)] + spans;
    forall i, j | 0 <= i < j < |t|
      ensures t[i].lo != t[j].lo
    {
      assert t[j] == spans[j - 1] && spans[j - 1] in spans;
      if i > 0 { assert t[i] == spans[i - 1]; }
    }
  }

  // ------------------------------------------------------------- one step

  lemma AllocOwned(c: Client, op: TraceOp)
    requires Owned(c) && op.kind == Alloc && 1 <= op.size && op.size + 15 < WORD_LIMIT && op.index !in c.at
    ensures Owned(PlayOp(c, op).0)
    ensures var (s, p) := AfterMalloc(c.sys, op.size);
      Inv(s) && (p != 0 ==> p !in c.sys.req && s.req == c.sys.req[p := op.size])
  {
    hide Inv, Malloc;
    MallocInv(c.sys, op.size);
    MallocFresh(c.sys, op.size);
  }

  lemma MallocFresh(s: Sys, size: Word)
    requires Inv(s) && size + 15 < WORD_LIMIT
    ensures Malloc(s.heap, size).1 != 0 ==> Malloc(s.heap, size).1 !in s.req
  {
    var (g, p) := Malloc(s.heap, size);
    if p != 0 && p in s.req {
      ReqBlock(s, p);
      assert Good(s.heap);
      hide Inv, Malloc, Good;
      OldStays(s.heap, size, s.heap.blocks[IndexOf(s.heap.blocks, p)]);
    }
  }

  lemma FreeOwned(c: Client, op: TraceOp)
    requires Owned(c) && op.kind == Free && op.index in c.at
    ensures Owned(PlayOp(c, op).0)
    ensures AfterFree(c.sys, c.at[op.index]).req == c.sys.req - {c.at[op.index]}
  {
    hide Inv, Freed;
    FreeInv(c.sys, c.at[op.index]);
    ReqBlock(c.sys, c.at[op.index]);
  }

  // mm_realloc returns an address that is the old one or not live.
  lemma ReallocFresh(s: Sys, ptr: int, size: Word)
    requires Inv(s) && ptr in s.req && 1 <= size && size + 15 < WORD_LIMIT
    ensures var (t, p) := AfterRealloc(s, ptr, size);
      p != 0 ==> (p == ptr || p !in s.req) && t.req == (s.req - {ptr})[p := size]
  {
    hide Inv, Malloc, Freed, Shrunk, Absorbed, AdjRealloc;
    ReqBlock(s, ptr);
    MallocFresh(s, size);
  }

  lemma ReallocOwned(c: Client, op: TraceOp)
    requires Owned(c) && op.kind == Realloc && op.index in c.at && 1 <= op.size && op.size + 15 < WORD_LIMIT
    ensures Owned(PlayOp(c, op).0)
    ensures var ptr := c.at[op.index]; var (s, p) := AfterRealloc(c.sys, ptr, op.size);
      Inv(s) && (p != 0 ==> (p == ptr || p !in c.sys.req) && s.req == (c.sys.req - {ptr})[p := op.size])
  {
    hide Inv, AfterRealloc;
    ReallocInv(c.sys, c.at[op.index], op.size);
    ReallocFresh(c.sys, c.at[op.index], op.size);
  }

  // -------------------------------------------------------------- the data

  // Bytes of a live payload survive what keeps the live blocks.
  lemma ReqKept(s: Sys, bs: seq<Block>, p: int, m: seq<Byte>, m': seq<Byte>)
    requires Inv(s) && p in s.req && Kept(bs, m, m') && s.heap.blocks[IndexOf(s.heap.blocks, p)] in bs
    ensures forall k :: 0 <= k < |m| && p <= k < p + s.req[p] ==> m'[k] == m[k]
  {
    hide Inv;
    ReqBlock(s, p);
  }

  // The request at p is filled anew; every other one keeps its bytes.
  lemma FilledData(c: Client, d: Client, i: int, m: seq<Byte>, m1: seq<Byte>, m2: seq<Byte>)
    requires Owned(d) && DataFit(m, c) && |m| == |m1|
    requires i in d.at && (forall j :: j in d.at && j != i ==> j in c.at && d.at[j] == c.at[j])
    requires forall j :: j in d.at && j != i ==> c.at[j] in c.sys.req && d.sys.req[d.at[j]] == c.sys.req[c.at[j]]
    requires forall j, k :: (j in d.at && j != i && 0 <= k < |m| &&
      c.at[j] <= k < c.at[j] + d.sys.req[c.at[j]]) ==> m1[k] == m[k]
    requires OnlyWithin(m1, m2, d.at[i], d.at[i] + d.sys.req[d.at[i]])
    requires forall k :: 0 <= k < |m2| && d.at[i] <= k < d.at[i] + d.sys.req[d.at[i]] ==> m2[k] as int == i % 256
    ensures DataFit(m2, d)
  {
    hide Inv;
    forall j, k | j in d.at && 0 <= k < |m2| && d.at[j] <= k < d.at[j] + d.sys.req[d.at[j]]
      ensures m2[k] as int == j % 256
    {
      if j != i {
        ReqApart(d.sys, d.at[i], d.at[j]);
      }
    }
  }

  lemma AllocData(c: Client, op: TraceOp, m: seq<Byte>, m1: seq<Byte>, m2: seq<Byte>)
    requires Owned(c) && op.kind == Alloc && 1 <= op.size && op.size + 15 < WORD_LIMIT && op.index !in c.at
    requires DataFit(m, c) && Kept(c.sys.heap.blocks, m, m1)
    requires AfterMalloc(c.sys, op.size).1 != 0
    requires Filled(m1, m2, AfterMalloc(c.sys, op.size).1, op)
    ensures DataFit(m2, PlayOp(c, op).0)
  {
    hide Inv, Malloc, Kept, DataFit;
    AllocOwned(c, op);
    var d := PlayOp(c, op).0;
    KeptSame(c.sys.heap.blocks, m, m1);
    forall j | j in c.at
      ensures forall k :: 0 <= k < |m| && c.at[j] <= k < c.at[j] + c.sys.req[c.at[j]] ==> m1[k] == m[k]
    {
      ReqBlock(c.sys, c.at[j]);
      ReqKept(c.sys, c.sys.heap.blocks, c.at[j], m, m1);
    }
    FilledData(c, d, op.index, m, m1, m2);
  }

  lemma KeptSame(bs: seq<Block>, m: seq<Byte>, m': seq<Byte>)
    requires Kept(bs, m, m')
    ensures |m| == |m'|
  {
  }

  // What mm_realloc and mm_free leave of the other payloads.
  lemma OthersKept(c: Client, i: int, m: seq<Byte>, m1: seq<Byte>, j: int)
    requires Owned(c) && i in c.at && j in c.at && j != i
    requires var b := IndexOf(c.sys.heap.blocks, c.at[i]);
      b < |c.sys.heap.blocks| && Kept(Others(c.sys.heap.blocks, b), m, m1)
    ensures forall k :: 0 <= k < |m| && c.at[j] <= k < c.at[j] + c.sys.req[c.at[j]] ==> m1[k] == m[k]
  {
    hide Inv, Kept, Others;
    var bs := c.sys.heap.blocks;
    ReqBlock(c.sys, c.at[i]);
    ReqBlock(c.sys, c.at[j]);
    InvGood(c.sys);
    OthersHas(c.sys.heap, IndexOf(bs, c.at[i]), bs[IndexOf(bs, c.at[j])]);
    ReqKept(c.sys, Others(bs, IndexOf(bs, c.at[i])), c.at[j], m, m1);
  }

  lemma InvGood(s: Sys)
    requires Inv(s)
    ensures Good(s.heap)
  {
  }

  lemma OthersHas(h: Heap, i: nat, b: Block)
    requires i < |h.blocks| && b in h.blocks && b != h.blocks[i]
    ensures b in Others(h.blocks, i)
  {
    var k :| 0 <= k < |h.blocks| && h.blocks[k] == b;
    assert Others(h.blocks, i)[if k < i then k else k - 1] == b;
  }

  lemma ReallocData(c: Client, op: TraceOp, m: seq<Byte>, m1: seq<Byte>, m2: seq<Byte>)
    requires Owned(c) && op.kind == Realloc && 1 <= op.size && op.size + 15 < WORD_LIMIT && op.index in c.at
    requires var b := IndexOf(c.sys.heap.blocks, c.at[op.index]);
      b < |c.sys.heap.blocks| && DataFit(m, c) && Kept(Others(c.sys.heap.blocks, b), m, m1)
    requires AfterRealloc(c.sys, c.at[op.index], op.size).1 != 0
    requires Filled(m1, m2, AfterRealloc(c.sys, c.at[op.index], op.size).1, op)
    ensures DataFit(m2, PlayOp(c, op).0)
  {
    hide Inv, AfterRealloc, Kept, DataFit, Others;
    ReallocOwned(c, op);
    var d, i := PlayOp(c, op).0, op.index;
    KeptSame(Others(c.sys.heap.blocks, IndexOf(c.sys.heap.blocks, c.at[i])), m, m1);
    forall j | j in c.at && j != i
      ensures forall k :: 0 <= k < |m| && c.at[j] <= k < c.at[j] + c.sys.req[c.at[j]] ==> m1[k] == m[k]
    {
      OthersKept(c, i, m, m1, j);
    }
    FilledData(c, d, i, m, m1, m2);
  }

  lemma FreeData(c: Client, op: TraceOp, m: seq<Byte>, m1: seq<Byte>)
    requires Owned(c) && op.kind == Free && op.index in c.at
    requires var b := IndexOf(c.sys.heap.blocks, c.at[op.index]);
      b < |c.sys.heap.blocks| && DataFit(m, c) && Kept(Others(c.sys.heap.blocks, b), m, m1)
    ensures DataFit(m1, PlayOp(c, op).0)
  {
    hide Inv, Kept, Others, AfterFree;
    FreeOwned(c, op);
    var d, i := PlayOp(c, op).0, op.index;
    KeptSame(Others(c.sys.heap.blocks, IndexOf(c.sys.heap.blocks, c.at[i])), m, m1);
    forall j, k | j in d.at && 0 <= k < |m1| && d.at[j] <= k < d.at[j] + d.sys.req[d.at[j]]
      ensures m1[k] as int == j % 256
    {
      OthersKept(c, i, m, m1, j);
    }
  }

  // ------------------------------------------------------------ the ranges

  // add_range accepts a new payload, and the ranges fit again.
  lemma AllocSpans(c: Client, op: TraceOp, spans: seq<Span>)
    requires Owned(c) && op.kind == Alloc && 1 <= op.size && op.size + 15 < WORD_LIMIT && op.index !in c.at
    requires SpansFit(spans, c.sys.req) && AfterMalloc(c.sys, op.size).1 != 0
    ensures var (s, p) := AfterMalloc(c.sys, op.size);
      Judge(p, op.size, s.heap.brk, spans) == Passed && SpansFit([Span(p, p + op.size - 1)] + spans, s.req)
  {
    hide Inv, AfterMalloc;
    AllocOwned(c, op);
    var (s, p) := AfterMalloc(c.sys, op.size);
    Accepted(s, spans, p);
    SpansGrow(spans, c.sys.req, s.req, p);
  }

  // The same for a resized payload, once the old range is removed.
  lemma ReallocSpans(c: Client, op: TraceOp, spans: seq<Span>)
    requires Owned(c) && op.kind == Realloc && 1 <= op.size && op.size + 15 < WORD_LIMIT && op.index in c.at
    requires SpansFit(spans, c.sys.req) && AfterRealloc(c.sys, c.at[op.index], op.size).1 != 0
    ensures var rest := Without(spans, c.at[op.index]);
      var (s, p) := AfterRealloc(c.sys, c.at[op.index], op.size);
      Judge(p, op.size, s.heap.brk, rest) == Passed && SpansFit([Span(p, p + op.size - 1)] + rest, s.req)
  {
    hide Inv, AfterRealloc;
    ReallocOwned(c, op);
    var (s, p) := AfterRealloc(c.sys, c.at[op.index], op.size);
    var rest := Without(spans, c.at[op.index]);
    WithoutMembers(spans, c.at[op.index]);
    Accepted(s, rest, p);
    SpansGrow(rest, c.sys.req, s.req, p);
  }

  lemma FreeSpans(c: Client, op: TraceOp, spans: seq<Span>)
    requires Owned(c) && op.kind == Free && op.index in c.at && SpansFit(spans, c.sys.req)
    ensures SpansFit(Without(spans, c.at[op.index]), PlayOp(c, op).0.sys.req)
  {
    hide Inv, AfterFree;
    FreeOwned(c, op);
    WithoutMembers(spans, c.at[op.index]);
  }

  // ------------------------------------------------------ reading a step off

  lemma AllocPlayed(c: Client, op: TraceOp)
    requires op.kind == Alloc && 1 <= op.size < WORD_LIMIT
    ensures var (s, p) := AfterMalloc(c.sys, op.size);
      && (s.heap, p) == Malloc(c.sys.heap, op.size)
      && PlayOp(c, op) == if p == 0 then (c, MallocFailed) else (Client(s, c.at[op.index := p]), Passed)
  {
    hide Malloc;
  }

  lemma AllocReq(c: Client, op: TraceOp)
    requires Owned(c) && op.kind == Kind.Alloc && 1 <= op.size && op.size + 15 < WORD_LIMIT && op.index !in c.at
    ensures var (s, p) := AfterMalloc(c.sys, op.size);
      Inv(s) && (p != 0 ==> p in s.req && s.req[p] == op.size)
  {
    hide Inv, AfterMalloc;
    AllocOwned(c, op);
  }

  // The other ids keep address and size.
  lemma AllocSame(c: Client, op: TraceOp)
    requires Owned(c) && op.kind == Kind.Alloc && 1 <= op.size && op.size + 15 < WORD_LIMIT && op.index !in c.at
    ensures var (s, p) := AfterMalloc(c.sys, op.size);
      && (p != 0 ==> p in s.req && s.req[p] == op.size)
      && (p != 0 ==> forall i :: i in c.at && i != op.index ==>
            c.at[i] in c.sys.req && c.at[i] in s.req && s.req[c.at[i]] == c.sys.req[c.at[i]])
  {
    hide Inv, AfterMalloc;
    AllocOwned(c, op);
  }

  lemma ReallocPlayed(c: Client, op: TraceOp)
    requires Owned(c) && op.kind == Realloc && 1 <= op.size < WORD_LIMIT && op.index in c.at
    ensures var i := IndexOf(c.sys.heap.blocks, c.at[op.index]);
      var (s, p) := AfterRealloc(c.sys, c.at[op.index], op.size);
      && i < |c.sys.heap.blocks| && (s.heap, p) == HeapOps.Realloc(c.sys.heap, i, op.size)
      && PlayOp(c, op) == if p == 0 then (c, ReallocFailed)
                          else (Client(s, c.at[op.index := p]), if HighByte(op) then LostData else Passed)
  {
    ReqBlock(c.sys, c.at[op.index]);
    hide Inv, HeapOps.Realloc;
  }

  lemma FreePlayed(c: Client, op: TraceOp)
    requires Owned(c) && op.kind == Free && op.index in c.at
    ensures var i := IndexOf(c.sys.heap.blocks, c.at[op.index]);
      && i < |c.sys.heap.blocks|
      && PlayOp(c, op) == (Client(Sys(Freed(c.sys.heap, i), c.sys.req - {c.at[op.index]}), c.at - {op.index}), Passed)
  {
    ReqBlock(c.sys, c.at[op.index]);
    hide Inv, Freed;
  }

  // The other ids keep address and size over a resize.
  lemma ReallocSame(c: Client, op: TraceOp)
    requires Owned(c) && op.kind == Kind.Realloc && 1 <= op.size && op.size + 15 < WORD_LIMIT && op.index in c.at
    ensures var (s, p) := AfterRealloc(c.sys, c.at[op.index], op.size);
      && (p != 0 ==> Inv(s) && p in s.req && s.req[p] == op.size)
      && (p != 0 ==> forall i :: i in c.at && i != op.index ==>
            c.at[i] in c.sys.req && c.at[i] in s.req && s.req[c.at[i]] == c.sys.req[c.at[i]])
  {
    hide Inv, AfterRealloc;
    ReallocOwned(c, op);
  }

  // What the driver compares after a resize: the bytes it had filled in before.
  function Compared(c: Client, op: TraceOp): int
    requires op.index in c.at && c.at[op.index] in c.sys.req
  {
    Min(op.size, c.sys.req[c.at[op.index]])
  }

  lemma ComparedData(c: Client, op: TraceOp, m: seq<Byte>, m1: seq<Byte>, p: int)
    requires Owned(c) && op.kind == Kind.Realloc && 1 <= op.size && op.index in c.at && DataFit(m, c)
    requires var b := IndexOf(c.sys.heap.blocks, c.at[op.index]);
      b < |c.sys.heap.blocks| && SameBytes(m, c.at[op.index], m1, p, Min(op.size, c.sys.heap.blocks[b].size - 8))
    ensures c.at[op.index] in c.sys.req && 1 <= Compared(c, op) && 0 <= p && p + Compared(c, op) <= |m1|
    ensures forall k :: p <= k < p + Compared(c, op) ==> m1[k] as int == op.index % 256
  {
    hide Inv, SameBytes;
    var q := c.at[op.index];
    ReqBlock(c.sys, q);
    var n := Min(op.size, c.sys.heap.blocks[IndexOf(c.sys.heap.blocks, q)].size - 8);
    SameByte(m, q, m1, p, n, 0);
    forall k | p <= k < p + Compared(c, op)
      ensures m1[k] as int == op.index % 256
    {
      SameByte(m, q, m1, p, n, k - p);
      assert m[q + (k - p)] as int == op.index % 256;
    }
  }

  lemma SameByte(m: seq<Byte>, q: int, m1: seq<Byte>, p: int, n: int, k: int)
    requires SameBytes(m, q, m1, p, n) && 0 <= k < n
    ensures 0 <= q && q + n <= |m| && 0 <= p && p + n <= |m1| && m1[p + k] == m[q + k]
  {
    assert m1[p..p + n][k] == m[q..q + n][k];
  }

  // d is c with the id of op at p; the other ids keep address and size.
  ghost predicate Carries(c: Client, d: Client, op: TraceOp, p: int) {
    && d.at == c.at[op.index := p] && p in d.sys.req && d.sys.req[p] == op.size
    && forall i :: i in c.at && i != op.index ==>
      c.at[i] in c.sys.req && c.at[i] in d.sys.req && d.sys.req[c.at[i]] == c.sys.req[c.at[i]]
  }

  lemma AllocCarries(c: Client, op: TraceOp)
    requires Owned(c) && op.kind == Kind.Alloc && 1 <= op.size && op.size + 15 < WORD_LIMIT && op.index !in c.at
    ensures var p := AfterMalloc(c.sys, op.size).1; p != 0 ==> Carries(c, PlayOp(c, op).0, op, p)
  {
    hide Inv, AfterMalloc;
    AllocPlayed(c, op);
    AllocSame(c, op);
  }

  lemma ReallocCarries(c: Client, op: TraceOp)
    requires Owned(c) && op.kind == Kind.Realloc && 1 <= op.size && op.size + 15 < WORD_LIMIT && op.index in c.at
    ensures var p := AfterRealloc(c.sys, c.at[op.index], op.size).1; p != 0 ==> Carries(c, PlayOp(c, op).0, op, p)
  {
    hide Inv, AfterRealloc;
    ReallocPlayed(c, op);
    ReallocSame(c, op);
  }

  // --------------------------------------------------------- whole traces

  // A passed operation changes the live ids as the trace says.
  lemma PlayKeys(c: Client, op: TraceOp, numIds: int)
    requires Owned(c) && OpFits(op, c.at.Keys, numIds)
    ensures var (d, v) := PlayOp(c, op);
      && Owned(d)
      && (v == Passed || v == LostData ==> d.at.Keys == match op.kind
            case Alloc => c.at.Keys + {op.index}
            case Free => c.at.Keys - {op.index}
            case Realloc => c.at.Keys)
  {
    hide Owned, AfterMalloc, AfterRealloc, AfterFree;
    match op.kind
    case Alloc => AllocOwned(c, op);
    case Free => FreeOwned(c, op);
    case Realloc => ReallocOwned(c, op);
  }

  ghost predicate Playable(c: Client, ops: seq<TraceOp>, k: nat, numIds: int) {
    k <= |ops| && WellFormed(ops, numIds) && Owned(c) && c.at.Keys == LiveIds(ops, k)
  }

  lemma PlayNext(c: Client, ops: seq<TraceOp>, k: nat, numIds: int)
    requires Playable(c, ops, k, numIds) && k < |ops|
    ensures OpFits(ops[k], c.at.Keys, numIds)
    ensures PlayOp(c, ops[k]).1 in {Passed, LostData} ==> Playable(PlayOp(c, ops[k]).0, ops, k + 1, numIds)
  {
    assert OpFits(ops[k], LiveIds(ops, k), numIds);
    PlayKeys(c, ops[k], numIds);
    hide Owned, PlayOp;
  }

  // What eval_mm_valid makes of a trace from operation k on: its verdict, and
  // the operation it stops at.
  ghost function Play(c: Client, ops: seq<TraceOp>, k: nat, numIds: int): (Verdict, int)
    requires Playable(c, ops, k, numIds)
    decreases |ops| - k
  {
    if k == |ops| then (Passed, k)
    else
      hide Owned, PlayOp;
      PlayNext(c, ops, k, numIds);
      var (d, v) := PlayOp(c, ops[k]);
      if v != Passed then (v, k) else Play(d, ops, k + 1, numIds)
  }

  lemma PlayStep(c: Client, ops: seq<TraceOp>, k: nat, numIds: int)
    requires Playable(c, ops, k, numIds)
    ensures k == |ops| ==> Play(c, ops, k, numIds) == (Passed, k)
    ensures k < |ops| ==> OpFits(ops[k], c.at.Keys, numIds) && var (d, v) := PlayOp(c, ops[k]);
      if v != Passed then Play(c, ops, k, numIds) == (v, k)
      else Playable(d, ops, k + 1, numIds) && Play(c, ops, k, numIds) == Play(d, ops, k + 1, numIds)
  {
    hide Playable, PlayOp;
    if k < |ops| {
      PlayNext(c, ops, k, numIds);
    }
  }

  lemma PlayEnd(c: Client, ops: seq<TraceOp>, k: nat, numIds: int)
    requires Playable(c, ops, k, numIds)
    ensures k <= |ops|
  {
  }

  // The verdict an operation must get, from the heap it finds.
  ghost predicate Outcome(c: Client, op: TraceOp, v: Verdict)
    requires op.kind != Free ==> 0 <= op.size < WORD_LIMIT
    requires op.kind != Alloc ==> op.index in c.at
  {
    var h := c.sys.heap;
    match op.kind
    case Alloc => v == if NoRoom(h, op.size) then MallocFailed else Passed
    case Free => v == Passed
    case Realloc =>
      var i := IndexOf(h.blocks, c.at[op.index]);
      i < |h.blocks| &&
      v == if CannotResize(h, i, op.size) then ReallocFailed else if HighByte(op) then LostData else Passed
  }

  lemma PlayOutcome(c: Client, op: TraceOp, numIds: int)
    requires Owned(c) && OpFits(op, c.at.Keys, numIds)
    ensures Outcome(c, op, PlayOp(c, op).1)
  {
    hide Inv, AfterMalloc, AfterRealloc, AfterFree, HeapOps.Malloc, HeapOps.Realloc, NoRoom, CannotResize, HighByte;
    match op.kind
    case Alloc =>
      InvGood(c.sys);
      AllocPlayed(c, op);
      MallocNull(c.sys.heap, op.size);
    case Free =>
    case Realloc =>
      ReqBlock(c.sys, c.at[op.index]);
      ReallocPlayed(c, op);
      ReallocNullWhen(c.sys, IndexOf(c.sys.heap.blocks, c.at[op.index]), op.size);
  }

  // Operations k .. n - 1 all pass and lead from c to d.
  ghost predicate Leads(c: Client, ops: seq<TraceOp>, k: nat, d: Client, n: nat, numIds: int)
    decreases |ops| - k
  {
    if k >= n || k >= |ops| then k == n && c == d
    else
      && OpFits(ops[k], c.at.Keys, numIds) && PlayOp(c, ops[k]).1 == Passed
      && Leads(PlayOp(c, ops[k]).0, ops, k + 1, d, n, numIds)
  }

  // Where a trace stops: an allocation or resize without room, or the first
  // resize whose id the signed comparison cannot match.
  ghost predicate StopsAt(d: Client, ops: seq<TraceOp>, n: nat, v: Verdict, numIds: int) {
    if n >= |ops| then v == Passed
    else Owned(d) && OpFits(ops[n], d.at.Keys, numIds) && v != Passed && Outcome(d, ops[n], v)
  }

  // A well-formed trace passes up to its end or to such an operation.
  lemma {:induction false} PlaySound(c: Client, ops: seq<TraceOp>, k: nat, numIds: int) returns (d: Client)
    requires Playable(c, ops, k, numIds)
    ensures var (v, n) := Play(c, ops, k, numIds);
      && k <= n <= |ops| && (forall j :: k <= j < n ==> !HighByte(ops[j]))
      && Leads(c, ops, k, d, n, numIds) && StopsAt(d, ops, n, v, numIds)
    decreases |ops| - k
  {
    hide Playable, Play, PlayOp, HighByte, Outcome;
    PlayStep(c, ops, k, numIds);
    assert k <= |ops| by { PlayEnd(c, ops, k, numIds); }
    d := c;
    if k < |ops| {
      PlayOwned(c, ops, k, numIds);
      PlayOutcome(c, ops[k], numIds);
      var (e, v) := PlayOp(c, ops[k]);
      if v == Passed {
        PassedLow(c, ops[k], numIds);
        d := PlaySound(e, ops, k + 1, numIds);
      }
    }
  }

  lemma PlayOwned(c: Client, ops: seq<TraceOp>, k: nat, numIds: int)
    requires Playable(c, ops, k, numIds)
    ensures Owned(c)
  {
  }

  lemma PassedLow(c: Client, op: TraceOp, numIds: int)
    requires Owned(c) && OpFits(op, c.at.Keys, numIds) && PlayOp(c, op).1 == Passed
    ensures !HighByte(op)
  {
    hide AfterMalloc, AfterRealloc, AfterFree, Inv;
  }

  function Fresh(): Client { Client(Start(), map[]) }

  lemma FreshPlayable(ops: seq<TraceOp>, numIds: int)
    requires WellFormed(ops, numIds)
    ensures Playable(Fresh(), ops, 0, numIds)
  {
    StartInv();
  }

  // Without high-byte resizes a well-formed trace can only pass or stop at a NULL.
  lemma NeverRejected(ops: seq<TraceOp>, numIds: int)
    requires WellFormed(ops, numIds)
    requires forall j :: 0 <= j < |ops| ==> !HighByte(ops[j])
    ensures Playable(Fresh(), ops, 0, numIds)
    ensures Play(Fresh(), ops, 0, numIds).0 in {Passed, MallocFailed, ReallocFailed}
  {
    FreshPlayable(ops, numIds);
    hide Play, Playable, WellFormed, Outcome, Leads, Owned;
    var d := PlaySound(Fresh(), ops, 0, numIds);
    var (v, n) := Play(Fresh(), ops, 0, numIds);
    if n < |ops| {
      LowOutcome(d, ops[n], v, numIds);
    }
  }

  lemma LowOutcome(d: Client, op: TraceOp, v: Verdict, numIds: int)
    requires OpFits(op, d.at.Keys, numIds) && Outcome(d, op, v) && !HighByte(op)
    ensures v in {Passed, MallocFailed, ReallocFailed}
  {
  }

  // With one, it cannot pass.
  lemma HighByteRejected(ops: seq<TraceOp>, numIds: int, j: nat)
    requires WellFormed(ops, numIds) && j < |ops| && HighByte(ops[j])
    ensures Playable(Fresh(), ops, 0, numIds)
    ensures Play(Fresh(), ops, 0, numIds).0 != Passed
  {
    FreshPlayable(ops, numIds);
    hide Play, Playable, WellFormed, HighByte, StopsAt, Leads;
    var d := PlaySound(Fresh(), ops, 0, numIds);
    PassedEnds(d, ops, Play(Fresh(), ops, 0, numIds).1, Play(Fresh(), ops, 0, numIds).0, numIds);
  }

  lemma PassedEnds(d: Client, ops: seq<TraceOp>, n: nat, v: Verdict, numIds: int)
    requires StopsAt(d, ops, n, v, numIds)
    ensures v == Passed ==> n >= |ops|
  {
    hide Outcome, Owned;
  }

  // Whether a trace can pass is decided by its resizes.
  lemma PassesUnless(ops: seq<TraceOp>, numIds: int)
    requires WellFormed(ops, numIds)
    ensures Playable(Fresh(), ops, 0, numIds)
    ensures var v := Play(Fresh(), ops, 0, numIds).0;
      if exists j :: 0 <= j < |ops| && HighByte(ops[j]) then v != Passed
      else v in {Passed, MallocFailed, ReallocFailed}
  {
    FreshPlayable(ops, numIds);
    hide Play, Playable, WellFormed, HighByte;
    if j: nat :| j < |ops| && HighByte(ops[j]) {
      HighByteRejected(ops, numIds, j);
    } else {
      NeverRejected(ops, numIds);
    }
  }

  // Such a rejection: id 128 is resized from 24 to 8 bytes. Its data is kept,
  // and reported lost.
  lemma LostDataReported()
    ensures var ops := [TraceOp(Kind.Alloc, 128, 24), TraceOp(Kind.Realloc, 128, 8)];
      Playable(Fresh(), ops, 0, 129) && Play(Fresh(), ops, 0, 129) == (LostData, 1)
  {
    hide Play, PlayOp, Playable, LiveIds, OpFits;
    var ops := [TraceOp(Kind.Alloc, 128, 24), TraceOp(Kind.Realloc, 128, 8)];
    TwoOpsFit();
    FreshPlayable(ops, 129);
    PlayStep(Fresh(), ops, 0, 129);
    var c := PlayOp(Fresh(), ops[0]).0;
    FirstPlayed();
    PlayStep(c, ops, 1, 129);
  }

  lemma TwoOpsFit()
    ensures WellFormed([TraceOp(Kind.Alloc, 128, 24), TraceOp(Kind.Realloc, 128, 8)], 129)
  {
    var ops := [TraceOp(Kind.Alloc, 128, 24), TraceOp(Kind.Realloc, 128, 8)];
    assert LiveIds(ops, 0) == {} && LiveIds(ops, 1) == {128};
  }

  lemma FirstPlayed()
    ensures var (c, v) := PlayOp(Fresh(), TraceOp(Kind.Alloc, 128, 24));
      v == Passed && 128 in c.at && PlayOp(c, TraceOp(Kind.Realloc, 128, 8)).1 == LostData
  {
    hide AfterMalloc, AfterRealloc;
    FirstMalloc();
    FirstResize(AfterMalloc(Start(), 24).0);
  }
}
