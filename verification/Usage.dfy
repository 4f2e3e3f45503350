// Space: the sum of the live requests, against the heap.
module Usage {
  import opened Words
  import opened HeapModel
  import opened HeapOps
  import opened HeapProofs
  import opened HeapRuns
  import opened Ranges
  import opened Trace

  // Some key of a map that has one.
  ghost function Pick(m: map<int, int>): (k: int)
    requires |m| != 0
    ensures k in m
  {
    assert (forall k :: k !in m) ==> m == map[];
    var k :| k in m;
    k
  }

  // The sum of the values of a map.
  ghost function Total(m: map<int, int>): int
    decreases |m|
  {
    if |m| == 0 then 0
    else
      KeysFewer(m, Pick(m));
      m[Pick(m)] + Total(m - {Pick(m)})
  }

  lemma KeysFewer(m: map<int, int>, k: int)
    requires k in m
    ensures |m - {k}| == |m| - 1
  {
    assert (m - {k}).Keys == m.Keys - {k};
    assert |m| == |m.Keys| && |m - {k}| == |(m - {k}).Keys|;
  }

  // Any key can be taken out first.
  lemma {:induction false} TotalMinus(m: map<int, int>, k: int)
    requires k in m
    ensures Total(m) == m[k] + Total(m - {k})
    decreases |m|
  {
    var j := Pick(m);
    if j != k {
      KeysFewer(m, j);
      KeysFewer(m, k);
      TotalMinus(m - {j}, k);
      TotalMinus(m - {k}, j);
      assert m - {j} - {k} == m - {k} - {j};
    }
  }

  lemma TotalPlus(m: map<int, int>, k: int, v: int)
    requires k !in m
    ensures Total(m[k := v]) == Total(m) + v && |m[k := v]| == |m| + 1
  {
    TotalMinus(m[k := v], k);
    KeysFewer(m[k := v], k);
    assert m[k := v] - {k} == m;
  }

  // req holds the requests of exactly the live blocks of bs, each within its block.
  ghost predicate Requests(bs: seq<Block>, req: map<int, int>) {
    && (forall b :: b in bs ==> b.size >= 0)
    && (forall b :: b in bs && b.alloc ==> b.ptr in req && req[b.ptr] + 8 <= b.size)
    && (forall i, j :: 0 <= i < j < |bs| ==> bs[i].ptr != bs[j].ptr)
    && (forall p :: p in req ==> exists b :: b in bs && b.alloc && b.ptr == p)
  }

  lemma RequestsRest(bs: seq<Block>, req: map<int, int>)
    requires bs != [] && Requests(bs, req)
    ensures Requests(bs[1..], if bs[0].alloc then req - {bs[0].ptr} else req)
  {
    var rest := if bs[0].alloc then req - {bs[0].ptr} else req;
    forall x | x in bs[1..]
      ensures x in bs && x.ptr != bs[0].ptr
    {
      var i :| 0 <= i < |bs[1..]| && bs[1..][i] == x;
      assert bs[i + 1] == x;
    }
    forall i, j | 0 <= i < j < |bs[1..]|
      ensures bs[1..][i].ptr != bs[1..][j].ptr
    {
      assert bs[1..][i] == bs[i + 1] && bs[1..][j] == bs[j + 1];
    }
    forall p | p in rest
      ensures exists x :: x in bs[1..] && x.alloc && x.ptr == p
    {
      var x :| x in bs && x.alloc && x.ptr == p;
      assert x in bs[1..];
    }
  }

  // The requests of a row of blocks, with 8 bytes of tags each, fit in the row.
  lemma {:induction false} Room(bs: seq<Block>, req: map<int, int>)
    requires Requests(bs, req)
    ensures Total(req) + 8 * |req| <= SumSizes(bs)
  {
    if bs == [] {
      assert forall p :: p !in req;
      assert req.Keys == {};
      assert |req| == |req.Keys|;
    } else {
      var b := bs[0];
      assert b in bs;
      assert b.size >= 0 && (b.alloc ==> b.ptr in req && req[b.ptr] + 8 <= b.size);
      RequestsRest(bs, req);
      hide Requests;
      if b.alloc {
        TotalMinus(req, b.ptr);
        KeysFewer(req, b.ptr);
        Room(bs[1..], req - {b.ptr});
      } else {
        Room(bs[1..], req);
      }
    }
  }

  // In a reachable state the live requests, with their tags, fit in the heap.
  lemma RoomBound(s: Sys)
    requires Inv(s)
    ensures Total(s.req) + 8 * |s.req| <= s.heap.brk - 16
  {
    TiledSum(s.heap.blocks, FIRST_BLOCK, s.heap.brk);
    InvRequests(s);
    Room(s.heap.blocks, s.req);
  }

  lemma InvRequests(s: Sys)
    requires Inv(s)
    ensures Requests(s.heap.blocks, s.req)
  {
    var bs := s.heap.blocks;
    TiledOrder(bs, FIRST_BLOCK, s.heap.brk);
    TiledInside(bs, FIRST_BLOCK, s.heap.brk);
    assert forall i :: 0 <= i < |bs| ==> bs[i] in bs;
    hide Good, Tiled;
    forall b | b in bs && b.alloc
      ensures b.ptr in s.req && s.req[b.ptr] + 8 <= b.size
    {
      assert Snug(b, s.req[b.ptr]);
      AdjOk(s.req[b.ptr]);
    }
    forall p | p in s.req
      ensures exists b :: b in bs && b.alloc && b.ptr == p
    {
      assert LiveAt(s.heap, p) && bs[IndexOf(bs, p)] in bs;
    }
  }

  // How one operation of a trace changes the total.
  lemma OpTotal(c: Client, op: TraceOp, numIds: int)
    requires Owned(c) && OpFits(op, c.at.Keys, numIds)
    ensures var (d, v) := PlayOp(c, op);
      && Owned(d) && d.sys.heap.brk >= c.sys.heap.brk
      && (v == MallocFailed || v == ReallocFailed ==> d == c)
      && (op.kind != Alloc ==> op.index in c.at && c.at[op.index] in c.sys.req)
      && (v == Passed || v == LostData ==> Total(d.sys.req) == Total(c.sys.req) + match op.kind
            case Alloc => op.size
            case Free => -c.sys.req[c.at[op.index]]
            case Realloc => op.size - c.sys.req[c.at[op.index]])
  {
    hide Inv, AfterMalloc, AfterRealloc, AfterFree;
    PlayKeys(c, op, numIds);
    OpBrk(c, op, numIds);
    match op.kind
    case Alloc =>
      AllocOwned(c, op);
      var (s, p) := AfterMalloc(c.sys, op.size);
      if p != 0 { TotalPlus(c.sys.req, p, op.size); }
    case Free =>
      FreeOwned(c, op);
      TotalMinus(c.sys.req, c.at[op.index]);
    case Realloc =>
      ReallocOwned(c, op);
      var q := c.at[op.index];
      var (s, p) := AfterRealloc(c.sys, q, op.size);
      TotalMinus(c.sys.req, q);
      if p != 0 { TotalPlus(c.sys.req - {q}, p, op.size); }
  }

  lemma OpBrk(c: Client, op: TraceOp, numIds: int)
    requires Owned(c) && OpFits(op, c.at.Keys, numIds)
    ensures PlayOp(c, op).0.sys.heap.brk >= c.sys.heap.brk
  {
    var call := match op.kind
      case Alloc => MallocCall(op.size)
      case Free => FreeCall(c.at[op.index])
      case Realloc => ReallocCall(c.at[op.index], op.size);
    hide Inv, AfterMalloc, AfterRealloc, AfterFree, Extension;
    StepBrk(c.sys, call);
    ExtensionPositive(c.sys, op.size % WORD_LIMIT);
    hide PlayOp;
    CallPlayed(c, op, call);
  }

  lemma ExtensionPositive(s: Sys, size: Word)
    ensures Extension(s, size) >= 0
  {
  }

  lemma CallPlayed(c: Client, op: TraceOp, call: Call)
    requires Owned(c) && (op.kind != Alloc ==> op.index in c.at) && (op.kind != Free ==> 1 <= op.size < 0x8000_0000)
    requires call == match op.kind
      case Alloc => MallocCall(op.size)
      case Free => FreeCall(c.at[op.index])
      case Realloc => ReallocCall(c.at[op.index], op.size)
    ensures PlayOp(c, op).0.sys == c.sys || PlayOp(c, op).0.sys == Step(c.sys, call)
  {
    hide Inv, AfterMalloc, AfterRealloc, AfterFree;
  }

  // ----------------------------------------------------------- eval_mm_util

  // The highest total over a trace and the final heap size; the first part is
  // false when an mm_malloc or mm_realloc returns NULL on the way.
  ghost function Measure(c: Client, ops: seq<TraceOp>, k: nat, most: int, numIds: int): (bool, int, int)
    requires Playable(c, ops, k, numIds)
    decreases |ops| - k
  {
    if k == |ops| then (true, most, c.sys.heap.brk)
    else
      hide Owned, PlayOp;
      PlayNext(c, ops, k, numIds);
      var (d, v) := PlayOp(c, ops[k]);
      if v in {Passed, LostData} then Measure(d, ops, k + 1, Max(most, Total(d.sys.req)), numIds)
      else (false, most, c.sys.heap.brk)
  }

  lemma MeasureStep(c: Client, ops: seq<TraceOp>, k: nat, most: int, numIds: int)
    requires Playable(c, ops, k, numIds)
    ensures k == |ops| ==> Measure(c, ops, k, most, numIds) == (true, most, c.sys.heap.brk)
    ensures k < |ops| ==> OpFits(ops[k], c.at.Keys, numIds) && Owned(c) && var (d, v) := PlayOp(c, ops[k]);
      if v in {Passed, LostData}
      then Playable(d, ops, k + 1, numIds) &&
        Measure(c, ops, k, most, numIds) == Measure(d, ops, k + 1, Max(most, Total(d.sys.req)), numIds)
      else Measure(c, ops, k, most, numIds) == (false, most, c.sys.heap.brk)
  {
    hide PlayOp;
    if k < |ops| {
      PlayNext(c, ops, k, numIds);
    }
  }

  // The highest total never exceeds the final heap size: the ratio is at most 1.
  lemma {:induction false} MeasureBound(c: Client, ops: seq<TraceOp>, k: nat, most: int, numIds: int)
    requires Playable(c, ops, k, numIds) && 0 <= most <= c.sys.heap.brk - 16
    ensures var (ok, m, brk) := Measure(c, ops, k, most, numIds); most <= m <= brk - 16
    decreases |ops| - k
  {
    hide Measure, PlayOp, Playable, Owned, Total;
    MeasureStep(c, ops, k, most, numIds);
    PlayEnd(c, ops, k, numIds);
    if k < |ops| {
      var (d, v) := PlayOp(c, ops[k]);
      OpTotal(c, ops[k], numIds);
      if v in {Passed, LostData} {
        OwnedRoom(d);
        MeasureBound(d, ops, k + 1, Max(most, Total(d.sys.req)), numIds);
      }
    }
  }

  lemma OwnedRoom(c: Client)
    requires Owned(c)
    ensures Total(c.sys.req) <= c.sys.heap.brk - 16
  {
    hide Inv;
    RoomBound(c.sys);
  }
}
