// The tag and rounding macros of mm.c, over 32-bit unsigned words.
//
// The bit operators are written out on natural numbers, so that the masks of
// the source stay masks here and their arithmetic meaning is something proved.
module Words {

  const WORD_LIMIT := 0x1_0000_0000
  const MASK_SIZE := 0xFFFF_FFF8     // ~0x7 on 32 bits

  type Byte = b: int | 0 <= b < 256
  type Word = v: int | 0 <= v < WORD_LIMIT

  // Multiples of the word size and of the doubleword size.
  ghost predicate Mult4(n: int) { n == 0 || (n >= 4 && Mult4(n - 4)) }

  ghost predicate Mult8(n: int) { n == 0 || (n >= 8 && Mult8(n - 8)) }

  lemma {:induction false} Mult4Mod(n: int)
    ensures Mult4(n) <==> n >= 0 && n % 4 == 0
    decreases n
  {
    if n >= 4 { Mult4Mod(n - 4); }
  }

  lemma {:induction false} Mult8Mod(n: int)
    ensures Mult8(n) <==> n >= 0 && n % 8 == 0
    decreases n
  {
    if n >= 8 { Mult8Mod(n - 8); }
  }

  // Different word addresses are a word apart.
  lemma {:induction false} Mult4Apart(a: int, b: int)
    requires Mult4(a) && Mult4(b) && a != b
    ensures a + 4 <= b || b + 4 <= a
    decreases a
  {
    if a >= 4 && b >= 4 {
      Mult4Apart(a - 4, b - 4);
    }
  }

  lemma Mult8Sum(a: int, b: int)
    requires Mult8(a) && Mult8(b)
    ensures Mult8(a + b) && (a >= b ==> Mult8(a - b))
  {
    Mult8Mod(a);
    Mult8Mod(b);
    Mult8Mod(a + b);
    Mult8Mod(a - b);
  }

  lemma {:induction false} Mult8Words(p: int)
    requires Mult8(p)
    ensures Mult4(p) && Mult4(p + 4) && (p >= 8 ==> Mult4(p - 4) && Mult4(p - 8))
    decreases p
  {
    if p >= 8 {
      Mult8Words(p - 8);
    }
  }

  function BitAnd(a: nat, b: nat): nat {
    if a == 0 || b == 0 then 0
    else (if a % 2 == 1 && b % 2 == 1 then 1 else 0) + 2 * BitAnd(a / 2, b / 2)
  }

  function BitOr(a: nat, b: nat): nat
    decreases a + b
  {
    if a == 0 then b
    else if b == 0 then a
    else (if a % 2 == 1 || b % 2 == 1 then 1 else 0) + 2 * BitOr(a / 2, b / 2)
  }

  function Pow2(n: nat): (r: nat)
    ensures r >= 1
  {
    if n == 0 then 1 else 2 * Pow2(n - 1)
  }

  // Masking with n one bits keeps every number below 2^n.
  lemma {:induction false} AndOnes(x: nat, n: nat)
    requires x < Pow2(n)
    ensures BitAnd(x, Pow2(n) - 1) == x
  {
    if n > 0 {
      AndOnes(x / 2, n - 1);
      AndOdd(x, Pow2(n - 1) - 1);
    }
  }

  lemma {:induction false} AndOdd(x: nat, m: nat)
    ensures BitAnd(x, 2 * m + 1) == x % 2 + 2 * BitAnd(x / 2, m)
  {
    var b := 2 * m + 1;
    assert b / 2 == m && b % 2 == 1;
  }

  // x & ~0x7 clears the low three bits and nothing else.
  lemma {:induction false} AndMask(x: nat)
    requires x < WORD_LIMIT
    ensures BitAnd(x, MASK_SIZE) == x - x % 8
  {
    var y := x / 8;
    assert Pow2(29) == 0x2000_0000 by {
      assert Pow2(5) == 32;
      assert Pow2(10) == 1024;
      assert Pow2(15) == 32768;
      assert Pow2(20) == 1048576;
      assert Pow2(25) == 33554432;
    }
    AndOnes(y, 29);
    if x > 0 {
      AndEven(x, 0x7FFF_FFFC);
      AndEven(x / 2, 0x3FFF_FFFE);
      AndEven(x / 4, 0x1FFF_FFFF);
      assert x / 2 / 2 / 2 == y;
    }
  }

  lemma AndEven(x: nat, m: nat)
    ensures BitAnd(x, 2 * m) == 2 * BitAnd(x / 2, m)
  {
  }

  // PACK, GET_SIZE and GET_ALLOC.
  function Pack(size: nat, alloc: nat): nat { BitOr(size, alloc) }

  function SizeOf(v: Word): (s: nat)
    ensures s == v - v % 8
  {
    AndMask(v);
    BitAnd(v, MASK_SIZE)
  }

  function AllocOf(v: Word): (a: nat)
    ensures a == v % 2
  {
    assert BitAnd(v / 2, 1 / 2) == 0;
    BitAnd(v, 1)
  }

  lemma PackSum(size: nat, alloc: nat)
    requires size % 8 == 0 && alloc <= 1
    ensures Pack(size, alloc) == size + alloc
  {
    if alloc == 1 && size > 0 {
      assert BitOr(size / 2, 0) == size / 2;
    }
  }

  // A packed tag gives back the size and the bit it was built from.
  lemma PackRoundTrip(size: nat, alloc: nat)
    requires size % 8 == 0 && size < WORD_LIMIT && alloc <= 1
    ensures Pack(size, alloc) < WORD_LIMIT
    ensures SizeOf(Pack(size, alloc)) == size
    ensures AllocOf(Pack(size, alloc)) == alloc
  {
    PackSum(size, alloc);
    LowBits(size / 8, alloc);
    hide Pack, SizeOf, AllocOf;
  }

  lemma LowBits(q: nat, alloc: nat)
    requires alloc <= 1
    ensures (8 * q + alloc) % 8 == alloc && (8 * q + alloc) % 2 == alloc
  {
    var n := 8 * q + alloc;
    assert n / 8 == q;
    assert n / 2 == 4 * q;
  }

  // ALIGN on a size_t: the addition wraps at 2^32.
  function Align(size: Word): (r: nat)
    ensures r == (size + 7) % WORD_LIMIT - (size + 7) % WORD_LIMIT % 8
  {
    AndMask((size + 7) % WORD_LIMIT);
    BitAnd((size + 7) % WORD_LIMIT, MASK_SIZE)
  }

  // Without a wrap ALIGN is the least multiple of 8 not below its argument.
  lemma AlignLeast(size: Word, m: nat)
    requires size + 7 < WORD_LIMIT
    ensures Align(size) % 8 == 0 && size <= Align(size) < size + 8
    ensures m % 8 == 0 && size <= m ==> Align(size) <= m
  {
    hide Align, BitAnd;
    var n := size + 7;
    assert Align(size) == n - n % 8;
    RoundDown(n, n / 8);
    LeastMultiple(size, n / 8, m / 8);
  }

  lemma RoundDown(n: nat, q: nat)
    requires q == n / 8
    ensures n - n % 8 == 8 * q && (8 * q) % 8 == 0 && 8 * q <= n < 8 * q + 8
  {
    assert n == 8 * q + n % 8;
    LowBits(q, 0);
  }

  lemma LeastMultiple(size: nat, q: nat, r: nat)
    requires 8 * q <= size + 7 < 8 * q + 8
    ensures size <= 8 * r ==> 8 * q <= 8 * r
  {
  }

  // mm_malloc's adjusted block size.
  function AdjMalloc(size: Word): nat { Align((size + 8) % WORD_LIMIT) }

  // mm_realloc's adjusted block size.
  function AdjRealloc(size: Word): nat {
    if size <= 8 then 16 else Align((size + 8) % WORD_LIMIT)
  }

  // Room for the payload and both tags holds exactly when size + 15 does not wrap.
  lemma AdjHoldsPayload(size: Word)
    ensures AdjMalloc(size) >= size + 8 <==> size + 15 < WORD_LIMIT
  {
    hide Align;
    if size + 15 < WORD_LIMIT {
      AlignLeast(size + 8, 0);
    } else {
      AlignBelow((size + 8) % WORD_LIMIT);
    }
  }

  // The least size that wraps gets a block of no bytes.
  lemma AdjWraps()
    ensures AdjMalloc(0xFFFF_FFF1) == 0 && 0xFFFF_FFF1 + 15 == WORD_LIMIT
  {
    hide Align;
  }

  lemma AlignBelow(size: Word)
    ensures Align(size) <= size + 7 && (size + 7 >= WORD_LIMIT ==> Align(size) < 8)
  {
    hide Align;
  }

  lemma AdjAgree(size: Word)
    requires size >= 1
    ensures AdjRealloc(size) == AdjMalloc(size)
    ensures size + 15 < WORD_LIMIT ==>
      AdjMalloc(size) >= 16 && AdjMalloc(size) % 8 == 0 && size + 8 <= AdjMalloc(size) <= size + 15
  {
    hide Align;
    if size + 15 < WORD_LIMIT {
      AlignLeast(size + 8, 0);
      AtLeastTwo(Align(size + 8), Align(size + 8) / 8);
    }
  }

  lemma AtLeastTwo(n: nat, q: nat)
    requires n % 8 == 0 && n > 8 && q == n / 8
    ensures n >= 16 && (n < 24 ==> n == 16)
  {
    assert n == 8 * q;
  }
}
