// memlib.c: the simulated memory system below the allocator.
//
// Addresses are offsets from the first heap byte; that byte is 8-aligned and
// offset 0 doubles as NULL, which no block pointer ever equals.
module MemLib {
  import opened Words

  const MAX_HEAP := 20 * 1024 * 1024

  // The little-endian word stored at p.
  function Load(m: seq<Byte>, p: nat): Word
    requires p + 4 <= |m|
  {
    LittleEndian(m[p], m[p + 1], m[p + 2], m[p + 3])
  }

  function LittleEndian(b0: int, b1: int, b2: int, b3: int): int {
    b0 + 0x100 * b1 + 0x1_0000 * b2 + 0x100_0000 * b3
  }

  // A word view of memory, by address.
  type Words32 = map<int, Word>

  ghost function At(w: Words32, p: int): Word {
    if p in w then w[p] else 0
  }

  // The word view w agrees with the aligned words of the image m.
  ghost predicate Synced(m: seq<Byte>, w: Words32) {
    forall p: nat {:trigger Load(m, p)} :: p + 4 <= |m| && Mult4(p) ==> At(w, p) == Load(m, p)
  }

  // Storing the four bytes of v is one update of the word view.
  lemma SyncedStore(m: seq<Byte>, m': seq<Byte>, w: Words32, p: nat, v: Word)
    requires Synced(m, w) && |m| == |m'| && Mult4(p) && p + 4 <= |m|
    requires Load(m', p) == v
    requires forall k :: 0 <= k < |m| && !(p <= k < p + 4) ==> m'[k] == m[k]
    ensures Synced(m', w[p := v])
  {
    hide LittleEndian, Mult4;
    forall q: nat | q + 4 <= |m| && Mult4(q)
      ensures At(w[p := v], q) == Load(m', q)
    {
      if q != p {
        Mult4Apart(p, q);
        SameWord(m, m', q);
      }
    }
  }

  // The same four bytes make the same word.
  lemma SameWord(m: seq<Byte>, m': seq<Byte>, q: nat)
    requires |m| == |m'| && q + 4 <= |m| && forall k :: q <= k < q + 4 ==> m'[k] == m[k]
    ensures Load(m', q) == Load(m, q)
  {
    hide LittleEndian;
  }

  // Every image has a word view.
  ghost function WordsOf(m: seq<Byte>): (w: Words32)
    ensures Synced(m, w)
  {
    map p: nat | 0 <= p < |m| && p + 4 <= |m| && Mult4(p) :: Load(m, p)
  }

  lemma FourBytes(v: Word)
    ensures LittleEndian(v % 0x100, v / 0x100 % 0x100, v / 0x1_0000 % 0x100, v / 0x100_0000) == v
  {
    assert v / 0x1_0000 == v / 0x100 / 0x100;
    assert v / 0x100_0000 == v / 0x100 / 0x100 / 0x100;
  }

  class Memory {
    const data: array<Byte>
    var brk: nat
    ghost var words: Words32   // the aligned words of data

    ghost predicate Valid()
      reads this, data
    {
      data.Length == MAX_HEAP && brk <= data.Length && Synced(data[..], words)
    }

    // mem_init
    constructor ()
      ensures Valid() && brk == 0 && fresh(data)
    {
      data := new Byte[MAX_HEAP];
      brk := 0;
      new;
      words := WordsOf(data[..]);
    }

    // mem_reset_brk
    method ResetBrk()
      requires Valid()
      modifies this`brk
      ensures Valid() && brk == 0
    {
      brk := 0;
    }

    // mem_sbrk. The argument is a size_t converted to int; false is (void *)-1.
    method Sbrk(n: Word) returns (ok: bool, p: nat)
      requires Valid()
      modifies this`brk
      ensures Valid()
      ensures ok <==> n < 0x8000_0000 && old(brk) + n <= MAX_HEAP
      ensures ok ==> p == old(brk) && brk == old(brk) + n
      ensures !ok ==> brk == old(brk)
    {
      var incr: int := if n < 0x8000_0000 then n else n - WORD_LIMIT;
      p := brk;
      if incr < 0 || brk + incr > MAX_HEAP {
        return false, p;
      }
      brk := brk + incr;
      return true, p;
    }

    // mem_heap_lo, mem_heap_hi, mem_heapsize
    function HeapLo(): int { 0 }
    function HeapHi(): int reads this { brk - 1 }
    function HeapSize(): nat reads this { brk }

    // Whether a word can be read and written at p.
    ghost predicate WordSpot(p: int)
      reads this
    {
      Mult4(p) && 0 <= p && p + 4 <= brk
    }

    // GET
    method Get(p: int) returns (v: Word)
      requires Valid() && WordSpot(p)
      ensures v == At(words, p)
    {
      assert At(words, p) == Load(data[..], p);
      v := LittleEndian(data[p], data[p + 1], data[p + 2], data[p + 3]);
    }

    // PUT
    method Put(p: int, v: Word)
      requires Valid() && WordSpot(p)
      modifies this`words, data
      ensures Valid() && words == old(words)[p := v]
      ensures forall k :: 0 <= k < data.Length && !(p <= k < p + 4) ==> data[k] == old(data[k])
    {
      data[p], data[p + 1], data[p + 2], data[p + 3] :=
        v % 0x100, v / 0x100 % 0x100, v / 0x1_0000 % 0x100, v / 0x100_0000;
      words := words[p := v];
      FourBytes(v);
      SyncedStore(old(data[..]), data[..], old(words), p, v);
    }

    // Words that no byte of [lo, hi) belongs to are the same as in w.
    ghost predicate WordsKept(w: Words32, lo: int, hi: int)
      reads this
    {
      forall q :: (q + 4 <= lo || hi <= q) ==> At(words, q) == At(w, q)
    }

    // A store to one byte.
    method SetByte(k: nat, v: Byte)
      requires Valid() && k < brk
      modifies this`words, data
      ensures Valid() && WordsKept(old(words), k, k + 1)
      ensures data[..] == old(data[..])[k := v]
    {
      ghost var p := k - k % 4;
      assert Mult4(p) by { Mult4Mod(p); }
      assert p + 4 <= data.Length;
      data[k] := v;
      words := words[p := Load(data[..], p)];
      SyncedStore(old(data[..]), data[..], old(words), p, Load(data[..], p));
    }

    // memset
    method Fill(lo: nat, v: Byte, n: nat)
      requires Valid() && lo + n <= brk
      modifies this`words, data
      ensures Valid() && WordsKept(old(words), lo, lo + n)
      ensures forall k :: lo <= k < lo + n ==> data[k] == v
      ensures forall k :: 0 <= k < data.Length && !(lo <= k < lo + n) ==> data[k] == old(data[k])
    {
      for i := 0 to n
        invariant Valid() && WordsKept(old(words), lo, lo + i)
        invariant forall k :: lo <= k < lo + i ==> data[k] == v
        invariant forall k :: 0 <= k < data.Length && !(lo <= k < lo + i) ==> data[k] == old(data[k])
      {
        SetByte(lo + i, v);
      }
    }

    // memcpy of ranges that do not overlap.
    method Copy(dst: nat, src: nat, n: nat)
      requires Valid() && dst + n <= brk && src + n <= brk
      requires dst + n <= src || src + n <= dst
      modifies this`words, data
      ensures Valid() && WordsKept(old(words), dst, dst + n)
      ensures data[dst..dst + n] == old(data[src..src + n])
      ensures forall k :: 0 <= k < data.Length && !(dst <= k < dst + n) ==> data[k] == old(data[k])
    {
      ghost var m := data[..];
      for i := 0 to n
        invariant Valid() && WordsKept(old(words), dst, dst + i)
        invariant forall k :: dst <= k < dst + i ==> data[k] == m[k - dst + src]
        invariant forall k :: 0 <= k < data.Length && !(dst <= k < dst + i) ==> data[k] == m[k]
      {
        SetByte(dst + i, data[src + i]);
      }
      assert data[dst..dst + n] == m[src..src + n];
    }
  }
}
