// fcyc.c: the K-best sampler. Times are real numbers.
module Fcyc {

  // ------------------------------------------------------- specification

  ghost predicate Sorted(v: seq<real>) {
    forall i, j :: 0 <= i < j < |v| ==> v[i] <= v[j]
  }

  // The place of x behind everything not above it.
  function PlaceFor(v: seq<real>, x: real): (k: nat)
    ensures k <= |v|
    ensures forall i :: k <= i < |v| ==> x < v[i]
    ensures k > 0 ==> v[k - 1] <= x
  {
    if v == [] || v[|v| - 1] <= x then |v| else PlaceFor(v[..|v| - 1], x)
  }

  // v with x before its k-th value.
  function Slot(v: seq<real>, k: nat, x: real): (w: seq<real>)
    requires k <= |v|
    ensures |w| == |v| + 1 && w[k] == x
    ensures k > 0 ==> w[k - 1] == v[k - 1]
  {
    v[..k] + [x] + v[k..]
  }

  function Insert(v: seq<real>, x: real): seq<real> { Slot(v, PlaceFor(v, x), x) }

  // Exchanging x with the value before it.
  lemma SlotSwap(v: seq<real>, k: nat, x: real)
    requires 0 < k <= |v|
    ensures Slot(v, k, x)[k - 1 := x][k := v[k - 1]] == Slot(v, k - 1, x)
  {
  }

  // The k best after one more sample.
  function Keep(v: seq<real>, x: real, k: nat): seq<real> {
    var w := Insert(v, x);
    if |w| <= k then w else w[..k]
  }

  // The k best of a row of samples, taken in turn.
  function KBest(s: seq<real>, k: nat): seq<real> {
    if s == [] then [] else Keep(KBest(s[..|s| - 1], k), s[|s| - 1], k)
  }

  // v holds, in order, k smallest samples of s: the samples left out are no smaller.
  ghost predicate IsBest(v: seq<real>, s: seq<real>, k: nat, out: multiset<real>) {
    && Sorted(v) && |v| == (if |s| < k then |s| else k)
    && multiset(s) == multiset(v) + out
    && forall x, y :: x in v && y in out ==> x <= y
  }

  lemma {:induction false} InsertSorted(v: seq<real>, x: real)
    requires Sorted(v)
    ensures Sorted(Insert(v, x)) && multiset(Insert(v, x)) == multiset(v) + multiset{x}
  {
    var k := PlaceFor(v, x);
    hide PlaceFor, Slot;
    assert forall i :: 0 <= i < k ==> v[i] <= x;
    SlotParts(v, k, x);
    SpreadSorted(v, Slot(v, k, x), k, x);
  }

  lemma SlotParts(v: seq<real>, k: nat, x: real)
    requires k <= |v|
    ensures var w := Slot(v, k, x);
      && multiset(w) == multiset(v) + multiset{x}
      && (forall i :: 0 <= i < k ==> w[i] == v[i])
      && forall i {:trigger w[i]} :: k < i < |w| ==> w[i] == v[i - 1]
  {
    assert v == v[..k] + v[k..];
  }

  lemma SpreadSorted(v: seq<real>, w: seq<real>, k: nat, x: real)
    requires Sorted(v) && k <= |v| && |w| == |v| + 1
    requires (forall i :: 0 <= i < k ==> w[i] == v[i]) && w[k] == x
    requires forall i {:trigger w[i]} :: k < i < |w| ==> w[i] == v[i - 1]
    requires (forall i :: 0 <= i < k ==> v[i] <= x) && (forall i :: k <= i < |v| ==> x < v[i])
    ensures Sorted(w)
  {
    forall i, j | 0 <= i < j < |w|
      ensures w[i] <= w[j]
    {
      var a, b := if i < k then i else i - 1, if j < k then j else j - 1;
      assert w[i] == (if i == k then x else v[a]) && w[j] == (if j == k then x else v[b]);
      if i == k { assert x < v[b]; }
      else if j == k { assert v[a] <= x; }
      else { assert a < b && v[a] <= v[b]; }
    }
  }

  lemma KeepBest(v: seq<real>, s: seq<real>, k: nat, out: multiset<real>, x: real) returns (out': multiset<real>)
    requires IsBest(v, s, k, out) && k >= 1
    ensures IsBest(Keep(v, x, k), s + [x], k, out')
  {
    var w := Insert(v, x);
    InsertSorted(v, x);
    assert |multiset(s)| == |multiset(v)| + |out|;
    if |w| <= k {
      out' := out;
      assert |out| == 0;
    } else {
      out' := out + multiset{w[k]};
      DropLast(v, s, k, out, x);
    }
  }

  // The sample pushed out joins those left out.
  lemma DropLast(v: seq<real>, s: seq<real>, k: nat, out: multiset<real>, x: real)
    requires IsBest(v, s, k, out) && k >= 1 && |v| == k
    ensures |Insert(v, x)| == k + 1
    ensures IsBest(Insert(v, x)[..k], s + [x], k, out + multiset{Insert(v, x)[k]})
  {
    var w := Insert(v, x);
    InsertSorted(v, x);
    DropCounts(w, v, s, k, out, x);
    assert Sorted(w[..k]) && |s| >= k;
    hide Insert;
    forall a, b | a in w[..k] && b in out + multiset{w[k]}
      ensures a <= b
    {
      var i :| 0 <= i < k && w[i] == a;
      if b == w[k] {
        assert w[i] <= w[k];
      } else {
        BelowOut(v, x, out, i, b);
      }
    }
    assert forall a, b :: a in w[..k] && b in out + multiset{w[k]} ==> a <= b;
  }

  lemma DropCounts(w: seq<real>, v: seq<real>, s: seq<real>, k: nat, out: multiset<real>, x: real)
    requires |w| == k + 1 && multiset(w) == multiset(v) + multiset{x} && multiset(s) == multiset(v) + out
    ensures |w[..k]| == k && multiset(s + [x]) == multiset(w[..k]) + (out + multiset{w[k]})
    ensures |s| >= |v|
  {
    assert w == w[..k] + [w[k]];
    assert multiset(w) == multiset(w[..k]) + multiset{w[k]};
    assert multiset(s + [x]) == multiset(s) + multiset{x};
    assert |multiset(s)| == |s| && |multiset(v)| == |v|;
    assert |multiset(v) + out| == |multiset(v)| + |out|;
    calc {
      multiset(s + [x]);
      multiset(v) + out + multiset{x};
      multiset(w) + out;
      multiset(w[..k]) + multiset{w[k]} + out;
      multiset(w[..k]) + (out + multiset{w[k]});
    }
  }

  // What stays among the k best stays below what was left out.
  lemma BelowOut(v: seq<real>, x: real, out: multiset<real>, i: nat, b: real)
    requires Sorted(v) && i < |v| && b in out && forall y, z :: y in v && z in out ==> y <= z
    ensures Insert(v, x)[i] <= b
  {
    assert v[i] in v;
    assert Insert(v, x)[i] <= v[i];
  }

  // After any row of samples the sampler's values are its k smallest, in order.
  lemma {:induction false} KBestIsBest(s: seq<real>, k: nat) returns (out: multiset<real>)
    requires k >= 1
    ensures IsBest(KBest(s, k), s, k, out)
  {
    hide IsBest, KBest, Keep;
    if s == [] {
      out := multiset{};
      NoneBest(k);
    } else {
      var r, x := s[..|s| - 1], s[|s| - 1];
      var o := KBestIsBest(r, k);
      out := KeepBest(KBest(r, k), r, k, o, x);
      KBestLast(s, k);
      assert s == r + [x];
    }
  }

  lemma NoneBest(k: nat)
    ensures IsBest(KBest([], k), [], k, multiset{})
  {
  }

  lemma KBestLast(s: seq<real>, k: nat)
    requires s != []
    ensures KBest(s, k) == Keep(KBest(s[..|s| - 1], k), s[|s| - 1], k)
  {
    hide Keep;
  }

  // So the first value is the least sample.
  lemma KBestFirst(s: seq<real>, k: nat)
    requires k >= 1 && s != []
    ensures |KBest(s, k)| >= 1 && KBest(s, k)[0] in s && forall x :: x in s ==> KBest(s, k)[0] <= x
  {
    var out := KBestIsBest(s, k);
    var v := KBest(s, k);
    assert v[0] in multiset(v) && v[0] in multiset(s);
    assert v[0] in v;
    forall x | x in s
      ensures v[0] <= x
    {
      assert x in multiset(s);
      if x in multiset(v) {
        var i :| 0 <= i < |v| && v[i] == x;
        assert i == 0 || v[0] <= v[i];
      } else {
        assert x in out;
      }
    }
  }

  // ------------------------------------------------------------- sampler

  // The first n measured times.
  function Times(cyc: nat -> real, n: nat): (s: seq<real>)
    ensures |s| == n && forall i :: 0 <= i < n ==> s[i] == cyc(i)
  {
    if n == 0 then [] else Times(cyc, n - 1) + [cyc(n - 1)]
  }

  lemma OnePlus(e: real, x: real)
    ensures (1.0 + e) * x == x + e * x
  {
  }

  lemma TimesMore(cyc: nat -> real, n: nat)
    ensures Times(cyc, n + 1) == Times(cyc, n) + [cyc(n)] && Times(cyc, 0) == []
  {
  }

  class Sampler {
    const kbest: nat
    const maxsamples: int
    const epsilon: real
    var values: array<real>
    var samplecount: nat
    ghost var samples: seq<real>   // every sample since init_sampler

    // The values filled in so far.
    ghost function Filled(): seq<real>
      reads this, values
    {
      values[..if samplecount < values.Length then samplecount else values.Length]
    }

    ghost predicate Valid()
      reads this, values
    {
      && kbest >= 1 && values.Length == kbest && samplecount == |samples|
      && Filled() == KBest(samples, kbest)
    }

    constructor (kbest: nat, maxsamples: int, epsilon: real)
      requires kbest >= 1
      ensures this.kbest == kbest && this.maxsamples == maxsamples && this.epsilon == epsilon
      ensures Valid() && samples == [] && fresh(values)
    {
      this.kbest, this.maxsamples, this.epsilon := kbest, maxsamples, epsilon;
      values := new real[kbest](_ => 0.0);
      samplecount := 0;
      samples := [];
    }

    // init_sampler
    method Init()
      requires kbest >= 1
      modifies this
      ensures Valid() && samples == [] && samplecount == 0 && fresh(values)
    {
      values := new real[kbest](_ => 0.0);
      samplecount := 0;
      samples := [];
    }

    // add_sample
    method AddSample(val: real)
      requires Valid()
      modifies this, values
      ensures Valid() && samples == old(samples) + [val] && values == old(values)
      ensures samplecount == old(samplecount) + 1
    {
      hide KBest, IsBest, PlaceFor, Insert;
      ghost var v := KBest(samples, kbest);
      ghost var s := samples + [val];
      KBestStep(samples, val, kbest);
      var pos := 0;
      if samplecount < kbest {
        pos := samplecount;
        values[pos] := val;
        samplecount := samplecount + 1;
        samples := s;
        SiftDown(pos, v, val);
      } else if val < values[kbest - 1] {
        pos := kbest - 1;
        values[pos] := val;
        samplecount := samplecount + 1;
        samples := s;
        KeepShort(v, val, kbest);
        SiftDown(pos, v[..kbest - 1], val);
      } else {
        KeepLong(v, val, kbest);
        samplecount := samplecount + 1;
        samples := s;
      }
    }

    // The insertion sort of add_sample: val at pos moves down to its place among
    // the sorted values v before it.
    method SiftDown(start: nat, ghost v: seq<real>, val: real)
      requires start < values.Length && values[..start + 1] == v + [val] && |v| == start && Sorted(v)
      modifies values
      ensures values[..start + 1] == Insert(v, val)
      ensures values[start + 1..] == old(values[start + 1..])
    {
      hide Slot, Insert, Sorted;
      SlotEnd(v, val);
      var pos := start;
      while pos > 0 && values[pos - 1] > values[pos]
        invariant 0 <= pos <= start && values[..start + 1] == Slot(v, pos, val)
        invariant forall i :: pos <= i < start ==> val < v[i]
        invariant values[start + 1..] == old(values[start + 1..])
      {
        ghost var row := values[..start + 1];
        assert values[pos - 1] == row[pos - 1] && values[pos] == row[pos];
        var temp := values[pos - 1];
        values[pos - 1] := values[pos];
        values[pos] := temp;
        assert values[..start + 1] == row[pos - 1 := val][pos := temp];
        SlotSwap(v, pos, val);
        pos := pos - 1;
      }
      ghost var row := values[..start + 1];
      assert pos > 0 ==> values[pos - 1] == row[pos - 1] && values[pos] == row[pos];
      PlaceIs(v, val, pos);
    }

    // has_converged
    method HasConverged() returns (b: bool)
      requires Valid()
      ensures b <==> samplecount >= kbest && values[kbest - 1] - values[0] <= epsilon * values[0]
    {
      hide KBest;
      if samplecount < kbest {
        return false;
      }
      b := Within(values[0], values[kbest - 1]);
    }

    // In terms of all samples.
    lemma Decides(b: bool)
      requires Valid()
      requires b <==> samplecount >= kbest && values[kbest - 1] - values[0] <= epsilon * values[0]
      ensures b == Converged(samples)
    {
      hide KBest, Converged;
      if samplecount < kbest {
        TooFew(samples);
      } else {
        AllFilled();
        ConvergedIs(samples, values[0], values[kbest - 1]);
      }
    }

    lemma {:induction false} TooFew(s: seq<real>)
      requires |s| < kbest
      ensures !Converged(s)
    {
      hide KBest;
    }

    // (1 + epsilon) * best >= last
    method Within(best: real, last: real) returns (b: bool)
      ensures b <==> last - best <= epsilon * best
    {
      OnePlus(epsilon, best);
      b := (1.0 + epsilon) * best >= last;
    }

    lemma {:induction false} ConvergedIs(s: seq<real>, best: real, last: real)
      requires |s| >= kbest >= 1 && |KBest(s, kbest)| == kbest
      requires best == KBest(s, kbest)[0] && last == KBest(s, kbest)[kbest - 1]
      ensures Converged(s) <==> last - best <= epsilon * best
    {
      hide KBest;
    }

    // There are kbest samples, and the kbest-th smallest is at most the least one
    // and epsilon times the least one more.
    ghost predicate Converged(s: seq<real>) {
      && |s| >= kbest >= 1 && |KBest(s, kbest)| == kbest
      && KBest(s, kbest)[kbest - 1] - KBest(s, kbest)[0] <= epsilon * KBest(s, kbest)[0]
    }

    lemma {:induction false} AllFilled()
      requires Valid() && samplecount >= kbest
      ensures |KBest(samples, kbest)| == kbest
      ensures KBest(samples, kbest)[0] == values[0] && KBest(samples, kbest)[kbest - 1] == values[kbest - 1]
    {
      assert Filled() == values[..kbest];
    }

    // fcyc, on a function whose i-th run takes cyc(i). It takes n samples, stops
    // at the first point where it may, and returns the least of them.
    method Measure(cyc: nat -> real) returns (result: real, n: nat)
      requires kbest >= 1
      modifies this
      ensures 1 <= n && (n <= 1 || n <= maxsamples)
      ensures (exists i :: 0 <= i < n && cyc(i) == result) && (forall i :: 0 <= i < n ==> result <= cyc(i))
      ensures forall j :: 1 <= j < n ==> j < maxsamples && !Converged(Times(cyc, j))
      ensures n >= maxsamples || Converged(Times(cyc, n))
      ensures n < maxsamples ==>
        && n >= kbest && |KBest(Times(cyc, n), kbest)| == kbest
        && KBest(Times(cyc, n), kbest)[kbest - 1] - result <= epsilon * result
    {
      hide KBest, Converged, Times, Insert, PlaceFor, Sorted, Valid;
      TimesMore(cyc, 0);
      Init();
      AddSample(cyc(0));
      n := 1;
      assert samples == Times(cyc, 1);
      var done := HasConverged();
      Decides(done);
      while !done && samplecount < maxsamples
        invariant Valid() && fresh(values) && 1 <= n == samplecount && samples == Times(cyc, n)
        invariant n <= 1 || n <= maxsamples
        invariant done == Converged(samples)
        invariant forall j :: 1 <= j < n ==> j < maxsamples && !Converged(Times(cyc, j))
        decreases maxsamples - n
      {
        TimesMore(cyc, n);
        AddSample(cyc(n));
        n := n + 1;
        done := HasConverged();
        Decides(done);
      }
      FirstValue();
      result := values[0];
      if n < maxsamples {
        ConvergedMeans(samples);
      }
      Least(cyc, n, kbest, result);
    }

    lemma {:induction false} ConvergedMeans(s: seq<real>)
      requires Converged(s)
      ensures |s| >= kbest >= 1 && |KBest(s, kbest)| == kbest
      ensures KBest(s, kbest)[kbest - 1] - KBest(s, kbest)[0] <= epsilon * KBest(s, kbest)[0]
    {
      hide KBest;
    }

    lemma FirstValue()
      requires Valid() && samples != []
      ensures |KBest(samples, kbest)| >= 1 && values.Length >= 1 && values[0] == KBest(samples, kbest)[0]
    {
      assert Filled()[0] == values[0];
    }
  }

  // The first value is the least of the measured times.
  lemma Least(cyc: nat -> real, n: nat, k: nat, r: real)
    requires n >= 1 && k >= 1
    requires |KBest(Times(cyc, n), k)| >= 1 && r == KBest(Times(cyc, n), k)[0]
    ensures (exists i :: 0 <= i < n && cyc(i) == r) && (forall i :: 0 <= i < n ==> r <= cyc(i))
  {
    var s := Times(cyc, n);
    KBestFirst(s, k);
    hide KBest;
    forall i | 0 <= i < n
      ensures r <= cyc(i)
    {
      assert s[i] == cyc(i) && s[i] in s;
    }
    var i :| 0 <= i < |s| && s[i] == r;
    assert cyc(i) == r;
  }

  lemma KBestStep(s: seq<real>, x: real, k: nat)
    requires k >= 1
    ensures KBest(s + [x], k) == Keep(KBest(s, k), x, k)
    ensures Sorted(KBest(s, k)) && |KBest(s, k)| == if |s| < k then |s| else k
    ensures |Insert(KBest(s, k), x)| == |KBest(s, k)| + 1
  {
    assert (s + [x])[..|s|] == s;
    var out := KBestIsBest(s, k);
  }

  // A sample not below the last value of a full row is left out.
  lemma KeepLong(v: seq<real>, x: real, k: nat)
    requires k >= 1 && |v| == k && v[k - 1] <= x
    ensures Keep(v, x, k) == v
  {
    assert PlaceFor(v, x) == |v|;
  }

  lemma PlaceIs(v: seq<real>, x: real, k: nat)
    requires k <= |v| && (k > 0 ==> v[k - 1] <= x) && forall i :: k <= i < |v| ==> x < v[i]
    ensures PlaceFor(v, x) == k && Insert(v, x) == Slot(v, k, x)
  {
  }

  lemma SlotEnd(v: seq<real>, x: real)
    ensures Slot(v, |v|, x) == v + [x]
  {
  }

  // A sample below the last value pushes it out.
  lemma KeepShort(v: seq<real>, x: real, k: nat)
    requires k >= 1 && |v| == k && x < v[k - 1]
    ensures Keep(v, x, k) == Insert(v[..k - 1], x)
  {
    assert PlaceFor(v, x) == PlaceFor(v[..k - 1], x);
  }
}
