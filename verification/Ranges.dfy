// mdriver.c: the list of payload ranges that the driver keeps beside the allocator.
module Ranges {
  import opened MemLib

  const ALIGNMENT := 8

  datatype Span = Span(lo: int, hi: int)

  datatype Verdict =
    | Passed
    | InitFailed
    | MallocFailed
    | ReallocFailed
    | Misaligned
    | OutsideHeap
    | Overlaps
    | LostData

  // add_range's overlap test: an end of the new range lies in an old one.
  predicate Touches(lo: int, hi: int, s: Span) {
    (s.lo <= lo <= s.hi) || (s.lo <= hi <= s.hi)
  }

  ghost predicate Clash(lo: int, hi: int, spans: seq<Span>) {
    exists i :: 0 <= i < |spans| && Touches(lo, hi, spans[i])
  }

  lemma NoClash(lo: int, hi: int)
    ensures !Clash(lo, hi, [])
  {
  }

  lemma ClashStep(lo: int, hi: int, spans: seq<Span>, k: nat)
    requires k < |spans|
    ensures Clash(lo, hi, spans[..k + 1]) <==> Clash(lo, hi, spans[..k]) || Touches(lo, hi, spans[k])
    ensures Touches(lo, hi, spans[k]) ==> Clash(lo, hi, spans)
  {
    forall i | 0 <= i < k
      ensures spans[..k + 1][i] == spans[..k][i]
    {
    }
    assert spans[..k + 1][k] == spans[k];
    if Clash(lo, hi, spans[..k]) {
      var i :| 0 <= i < k && Touches(lo, hi, spans[..k][i]);
      assert Touches(lo, hi, spans[..k + 1][i]);
    }
  }

  // What add_range answers.
  ghost function Judge(lo: int, size: int, brk: int, spans: seq<Span>): Verdict {
    var hi := lo + size - 1;
    if lo % ALIGNMENT != 0 then Misaligned
    else if lo < 0 || lo > brk - 1 || hi < 0 || hi > brk - 1 then OutsideHeap
    else if Clash(lo, hi, spans) then Overlaps
    else Passed
  }

  // Two ranges share a byte.
  predicate Meet(lo: int, hi: int, s: Span) { lo <= s.hi && s.lo <= hi }

  // s lies strictly inside [lo, hi].
  predicate Inside(lo: int, hi: int, s: Span) { lo < s.lo && s.hi < hi }

  // The overlap test misses exactly the old ranges strictly inside the new one.
  lemma TouchesOrInside(lo: int, hi: int, s: Span)
    requires lo <= hi && s.lo <= s.hi
    ensures Meet(lo, hi, s) <==> Touches(lo, hi, s) || Inside(lo, hi, s)
  {
  }

  // What each verdict says of the range.
  lemma JudgeMeans(lo: int, size: int, brk: int, spans: seq<Span>)
    requires size >= 1
    ensures var v := Judge(lo, size, brk, spans);
      && (v == Misaligned <==> lo % 8 != 0)
      && (v == OutsideHeap <==> lo % 8 == 0 && !(0 <= lo && lo + size <= brk))
      && (v == Overlaps <==> lo % 8 == 0 && 0 <= lo && lo + size <= brk && EndInside(lo, lo + size - 1, spans))
      && v in {Misaligned, OutsideHeap, Overlaps, Passed}
  {
    ClashMeans(lo, lo + size - 1, spans);
    hide Clash, Touches, EndInside;
  }

  // An end of [lo, hi] lies in a recorded range.
  ghost predicate EndInside(lo: int, hi: int, spans: seq<Span>) {
    exists i :: 0 <= i < |spans| && (spans[i].lo <= lo <= spans[i].hi || spans[i].lo <= hi <= spans[i].hi)
  }

  lemma ClashMeans(lo: int, hi: int, spans: seq<Span>)
    ensures Clash(lo, hi, spans) <==> EndInside(lo, hi, spans)
  {
    if i :| 0 <= i < |spans| && (spans[i].lo <= lo <= spans[i].hi || spans[i].lo <= hi <= spans[i].hi) {
      assert Touches(lo, hi, spans[i]);
    }
  }

  // An accepted range overlaps a recorded one exactly when it has one strictly inside it.
  lemma AcceptedOverlap(lo: int, size: int, brk: int, spans: seq<Span>)
    requires 1 <= size && forall i :: 0 <= i < |spans| ==> spans[i].lo <= spans[i].hi
    requires Judge(lo, size, brk, spans) == Passed
    ensures var hi := lo + size - 1;
      (exists i :: 0 <= i < |spans| && Meet(lo, hi, spans[i])) <==>
      (exists i :: 0 <= i < |spans| && Inside(lo, hi, spans[i]))
  {
    var hi := lo + size - 1;
    forall i | 0 <= i < |spans|
      ensures Meet(lo, hi, spans[i]) <==> Inside(lo, hi, spans[i])
    {
      TouchesOrInside(lo, hi, spans[i]);
    }
  }

  // Such a range: 64 bytes at 16 around 8 bytes at 32.
  lemma OverlapAccepted()
    ensures Judge(16, 64, 4096, [Span(32, 39)]) == Passed && Meet(16, 79, Span(32, 39))
  {
    assert !Touches(16, 79, Span(32, 39));
  }

  // An aligned range inside the heap that meets no other is accepted.
  lemma DisjointAccepted(lo: int, size: int, brk: int, spans: seq<Span>)
    requires lo % ALIGNMENT == 0 && 0 <= lo && 1 <= size && lo + size <= brk
    requires forall i :: 0 <= i < |spans| ==> spans[i].lo <= spans[i].hi && !Meet(lo, lo + size - 1, spans[i])
    ensures Judge(lo, size, brk, spans) == Passed
  {
    forall i | 0 <= i < |spans|
      ensures !Touches(lo, lo + size - 1, spans[i])
    {
      TouchesOrInside(lo, lo + size - 1, spans[i]);
    }
  }

  class Range {
    const lo: int
    const hi: int
    var next: Range?

    constructor (lo: int, hi: int, next: Range?)
      ensures this.lo == lo && this.hi == hi && this.next == next
    {
      this.lo := lo;
      this.hi := hi;
      this.next := next;
    }
  }

  // The spans of a row of nodes.
  function SpansOf(nodes: seq<Range>): (s: seq<Span>)
    ensures |s| == |nodes|
    ensures forall i :: 0 <= i < |s| ==> s[i] == Span(nodes[i].lo, nodes[i].hi)
  {
    seq(|nodes|, i requires 0 <= i < |nodes| => Span(nodes[i].lo, nodes[i].hi))
  }

  ghost predicate AllDifferent(nodes: seq<Range>) {
    forall i, j :: 0 <= i < j < |nodes| ==> nodes[i] != nodes[j]
  }

  lemma SpliceDifferent(nodes: seq<Range>, k: nat)
    requires AllDifferent(nodes) && k < |nodes|
    ensures AllDifferent(nodes[..k] + nodes[k + 1..])
    ensures forall i :: 0 <= i < |nodes| && i != k ==> nodes[i] != nodes[k]
    ensures k > 0 ==> forall i :: 0 <= i < |nodes| && i != k - 1 ==> nodes[i] != nodes[k - 1]
  {
    var ns := nodes[..k] + nodes[k + 1..];
    forall i, j | 0 <= i < j < |ns|
      ensures ns[i] != ns[j]
    {
      assert ns[i] == nodes[if i < k then i else i + 1] && ns[j] == nodes[if j < k then j else j + 1];
    }
  }

  lemma SpliceSpans(nodes: seq<Range>, k: nat)
    requires k < |nodes|
    ensures SpansOf(nodes[..k] + nodes[k + 1..]) == SpansOf(nodes)[..k] + SpansOf(nodes)[k + 1..]
  {
  }

  class RangeList {
    var head: Range?
    ghost var nodes: seq<Range>

    ghost predicate Valid()
      reads this, nodes
    {
      && head == NodeAt(0)
      && (forall i :: 0 <= i < |nodes| ==> nodes[i].next == NodeAt(i + 1))
      && AllDifferent(nodes)
    }

    ghost function NodeAt(i: nat): Range?
      reads this
    {
      if i < |nodes| then nodes[i] else null
    }

    ghost function Spans(): seq<Span>
      reads this
    {
      SpansOf(nodes)
    }

    constructor ()
      ensures Valid() && nodes == []
    {
      head := null;
      nodes := [];
    }

    // clear_ranges. Each record is freed once, in the order of the list.
    method Clear() returns (ghost freed: seq<Range>)
      requires Valid()
      modifies this
      ensures Valid() && nodes == [] && freed == old(nodes)
    {
      var p := head;
      freed := [];
      while p != null
        invariant |freed| <= |nodes| && freed == nodes[..|freed|] && p == NodeAt(|freed|)
        decreases |nodes| - |freed|
      {
        var pnext := p.next;
        freed := freed + [p];
        p := pnext;
      }
      head := null;
      nodes := [];
    }

    // add_range. All errors but Passed make the driver report and stop.
    method Add(lo: int, size: int, mem: Memory) returns (v: Verdict)
      requires Valid() && size > 0
      modifies this
      ensures Valid() && v == Judge(lo, size, mem.brk, old(Spans()))
      ensures v == Passed ==> Spans() == [Span(lo, lo + size - 1)] + old(Spans())
      ensures v == Passed ==> forall n :: n in nodes ==> n in old(nodes) || fresh(n)
      ensures v != Passed ==> nodes == old(nodes)
    {
      hide Judge;
      v := Check(lo, size, mem);
      if v == Passed {
        Push(lo, lo + size - 1);
      }
    }

    // The three tests of add_range.
    method Check(lo: int, size: int, mem: Memory) returns (v: Verdict)
      requires Valid()
      ensures v == Judge(lo, size, mem.brk, Spans())
    {
      var hi := lo + size - 1;
      if lo % ALIGNMENT != 0 {
        return Misaligned;
      }
      if lo < mem.HeapLo() || lo > mem.HeapHi() || hi < mem.HeapLo() || hi > mem.HeapHi() {
        return OutsideHeap;
      }
      var clash := Clashes(lo, hi);
      return if clash then Overlaps else Passed;
    }

    // The walk of add_range over the old ranges.
    method Clashes(lo: int, hi: int) returns (b: bool)
      requires Valid()
      ensures b <==> Clash(lo, hi, Spans())
    {
      hide Clash;
      var p := head;
      ghost var k, spans := 0, Spans();
      NoClash(lo, hi);
      assert spans[..0] == [];
      while p != null
        invariant 0 <= k <= |nodes| && p == NodeAt(k) && !Clash(lo, hi, spans[..k])
        decreases |nodes| - k
      {
        ClashStep(lo, hi, spans, k);
        if (lo >= p.lo && lo <= p.hi) || (hi >= p.lo && hi <= p.hi) {
          return true;
        }
        p := p.next;
        k := k + 1;
      }
      assert spans[..k] == spans;
      return false;
    }

    // A new range at the front of the list.
    method Push(lo: int, hi: int)
      requires Valid()
      modifies this
      ensures Valid() && Spans() == [Span(lo, hi)] + old(Spans())
      ensures |nodes| > 0 && fresh(nodes[0]) && nodes == [nodes[0]] + old(nodes)
    {
      ghost var spans := Spans();
      var q := new Range(lo, hi, head);
      head := q;
      nodes := [q] + nodes;
      assert Spans() == [Span(lo, hi)] + spans;
    }

    // remove_range
    method Remove(lo: int)
      requires Valid()
      modifies this, nodes
      ensures Valid() && Spans() == Without(old(Spans()), lo)
      ensures forall n :: n in nodes ==> n in old(nodes)
    {
      var p, prev: Range? := head, null;
      ghost var k := 0;
      while p != null && p.lo != lo
        invariant 0 <= k <= |nodes| && p == NodeAt(k)
        invariant prev == if k == 0 then null else nodes[k - 1]
        invariant forall i :: 0 <= i < k ==> nodes[i].lo != lo
        decreases |nodes| - k
      {
        prev := p;
        p := p.next;
        k := k + 1;
      }
      WithoutAt(Spans(), lo, k);
      if p != null {
        SpliceSpans(nodes, k);
        Unlink(k, prev, p);
      }
    }

    // Node k leaves the list; prev is the node before it.
    method Unlink(ghost k: nat, prev: Range?, p: Range)
      requires Valid() && k < |nodes| && p == nodes[k] && prev == if k == 0 then null else nodes[k - 1]
      modifies this, nodes
      ensures Valid() && nodes == old(nodes[..k] + nodes[k + 1..])
    {
      SpliceDifferent(nodes, k);
      if prev == null {
        head := p.next;
        nodes := nodes[1..];
      } else {
        hide AllDifferent;
        ghost var was := nodes;
        prev.next := p.next;
        nodes := was[..k] + was[k + 1..];
        SpliceAt(was, k);
        assert forall i :: 0 <= i < k - 1 ==> nodes[i].next == NodeAt(i + 1);
        assert forall i {:trigger was[i + 1]} :: k <= i < |nodes| ==> nodes[i].next == NodeAt(i + 1);
      }
    }
  }

  lemma SpliceAt(was: seq<Range>, k: nat)
    requires k < |was|
    ensures var ns := was[..k] + was[k + 1..];
      && |ns| == |was| - 1 && (forall i :: 0 <= i < k ==> ns[i] == was[i])
      && forall i {:trigger ns[i]} {:trigger was[i + 1]} :: k <= i < |ns| ==> ns[i] == was[i + 1]
  {
  }

  // The spans after the first one starting at lo is taken away.
  function Without(s: seq<Span>, lo: int): seq<Span> {
    if s == [] then []
    else if s[0].lo == lo then s[1..]
    else [s[0]] + Without(s[1..], lo)
  }

  lemma {:induction false} WithoutAt(s: seq<Span>, lo: int, k: nat)
    requires k <= |s| && forall i :: 0 <= i < k ==> s[i].lo != lo
    requires k < |s| ==> s[k].lo == lo
    ensures Without(s, lo) == if k < |s| then s[..k] + s[k + 1..] else s
  {
    if s != [] && k > 0 {
      WithoutAt(s[1..], lo, k - 1);
      if k < |s| {
        assert [s[0]] + (s[1..][..k - 1] + s[1..][k..]) == s[..k] + s[k + 1..];
      }
    }
  }

  // No two spans start at the same address.
  ghost predicate DistinctLo(s: seq<Span>) {
    forall i, j :: 0 <= i < j < |s| ==> s[i].lo != s[j].lo
  }

  // With distinct starts, removing a range removes it and nothing else.
  lemma {:induction false} WithoutMembers(s: seq<Span>, lo: int)
    requires DistinctLo(s)
    ensures DistinctLo(Without(s, lo))
    ensures forall x :: x in Without(s, lo) <==> x in s && x.lo != lo
  {
    if s != [] {
      var r := Without(s[1..], lo);
      WithoutMembers(s[1..], lo);
      if s[0].lo == lo {
        forall x | x in s[1..]
          ensures x.lo != lo
        {
        }
      } else {
        forall j | 0 <= j < |r|
          ensures r[j].lo != s[0].lo
        {
          assert r[j] in s[1..];
        }
      }
    }
  }
}
