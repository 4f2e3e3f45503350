// csapp.c: sio_ltoa and sio_reverse, which write a number in base b.
module Sio {

  const NUL := 0 as char

  function DigitChar(c: nat): (d: char)
    requires c < 36
  {
    if c < 10 then '0' + c as char else 'a' + (c - 10) as char
  }

  function DigitValue(d: char): int {
    if d <= '9' then d as int - '0' as int else d as int - 'a' as int + 10
  }

  // v in base b, the most significant digit first.
  function Numeral(v: nat, b: nat): (s: string)
    requires 2 <= b <= 36
    ensures s != ""
  {
    if v < b then [DigitChar(v)] else Smaller(v, b); Numeral(v / b, b) + [DigitChar(v % b)]
  }

  lemma Smaller(v: nat, b: nat)
    requires 2 <= b <= v
    ensures 1 <= v / b < v && v == v / b * b + v % b
  {
  }

  // What a reader makes of a numeral.
  function Value(s: string, b: nat): int {
    if s == "" then 0 else Value(s[..|s| - 1], b) * b + DigitValue(s[|s| - 1])
  }

  // Reading gives back the number, and there is no leading zero.
  lemma {:induction false} NumeralRoundTrip(v: nat, b: nat)
    requires 2 <= b <= 36
    ensures Value(Numeral(v, b), b) == v
    ensures Numeral(v, b)[0] == '0' ==> v == 0
  {
    if v < b {
      assert Value("", b) * b == 0;
    } else {
      Smaller(v, b);
      NumeralRoundTrip(v / b, b);
      var high := Numeral(v / b, b);
      assert Numeral(v, b)[..|high|] == high;
    }
  }

  // d is a digit of base b, as csapp.c writes it: '0' to '9', then 'a' on.
  predicate IsDigit(d: char, b: nat) {
    || ('0' <= d <= '9' && d as int - '0' as int < b)
    || ('a' <= d <= 'z' && d as int - 'a' as int + 10 < b)
  }

  // A numeral is made of digits of its base.
  lemma {:induction false} NumeralDigits(v: nat, b: nat)
    requires 2 <= b <= 36
    ensures forall i :: 0 <= i < |Numeral(v, b)| ==> IsDigit(Numeral(v, b)[i], b)
  {
    hide DigitChar, IsDigit;
    NumeralStep(v, b);
    DigitIsDigit(v % b, b);
    if v / b > 0 {
      NumeralDigits(v / b, b);
    }
    hide Numeral;
  }

  lemma DigitIsDigit(c: nat, b: nat)
    requires c < b <= 36
    ensures IsDigit(DigitChar(c), b)
  {
  }

  function Backwards(s: string): (r: string)
    ensures |r| == |s|
  {
    seq(|s|, i requires 0 <= i < |s| => s[|s| - 1 - i])
  }

  // The buffer up to its first NUL.
  ghost predicate Holds(buf: seq<char>, s: string) {
    |s| < |buf| && buf[..|s|] == s && buf[|s|] == NUL && NUL !in s
  }

  method Strlen(buf: array<char>, ghost s: string) returns (n: nat)
    requires Holds(buf[..], s)
    ensures n == |s|
  {
    n := 0;
    assert forall i :: 0 <= i < |s| ==> buf[i] == s[i] && s[i] in s;
    while buf[n] != NUL
      invariant n <= |s|
      decreases |s| - n
    {
      n := n + 1;
    }
  }

  // sio_reverse
  method Reverse(buf: array<char>, ghost s: string)
    requires Holds(buf[..], s)
    modifies buf
    ensures Holds(buf[..], Backwards(s)) && buf[|s|..] == old(buf[|s|..])
  {
    var n := Strlen(buf, s);
    var i, j := 0, n - 1;
    assert forall k :: 0 <= k < n ==> buf[k] == s[k];
    while i < j
      invariant 0 <= i && i + j == n - 1 && i <= j + 2
      invariant forall k :: 0 <= k < n && (k < i || j < k) ==> buf[k] == s[n - 1 - k]
      invariant forall k :: i <= k <= j ==> buf[k] == s[k]
      invariant buf[n..] == old(buf[n..])
    {
      ghost var tail := buf[n..];
      buf[i], buf[j] := buf[j], buf[i];
      assert buf[n..] == tail;
      i, j := i + 1, j - 1;
    }
    assert buf[..n] == Backwards(s);
    assert buf[n] == buf[n..][0];
  }

  // sio_ltoa for v >= 0
  method Ltoa(v: nat, buf: array<char>, b: nat)
    requires 2 <= b <= 36 && |Numeral(v, b)| < buf.Length
    modifies buf
    ensures Holds(buf[..], Numeral(v, b))
    ensures forall k :: 0 <= k < |Numeral(v, b)| ==> IsDigit(buf[k], b)
  {
    NumeralDigits(v, b);
    var i, left := PutDigit(v, buf, 0, b, v, "");
    while left > 0
      invariant 0 < i < buf.Length && Written(v, b, left, buf[..i])
      decreases left
    {
      i, left := PutDigit(v, buf, i, b, left, buf[..i]);
    }
    buf[i] := NUL;
    ghost var digits := buf[..i];
    Reverse(buf, digits);
    assert forall k :: 0 <= k < |Numeral(v, b)| ==> buf[k] == buf[..|Numeral(v, b)|][k];
  }

  // The digits written so far, last first, with left still to be written.
  ghost predicate Written(v: nat, b: nat, left: nat, digits: string)
    requires 2 <= b <= 36
  {
    && NUL !in digits
    && Numeral(v, b) == (if left > 0 || digits == "" then Numeral(left, b) else "") + Backwards(digits)
  }

  // s[i++] = digit of v % b, and v /= b
  method PutDigit(v: nat, buf: array<char>, i: nat, b: nat, left: nat, ghost digits: string)
    returns (i': nat, left': nat)
    requires 2 <= b <= 36 && |Numeral(v, b)| < buf.Length && i < buf.Length && buf[..i] == digits
    requires Written(v, b, left, digits) && (left > 0 || digits == "")
    modifies buf
    ensures i' == i + 1 < buf.Length && left' <= left && (left > 0 ==> left' < left)
    ensures Written(v, b, left', buf[..i'])
  {
    hide Numeral, DigitChar, Written;
    var c, q := left % b, left / b;
    NumeralStep(left, b);
    buf[i] := DigitChar(c);
    assert buf[..i + 1] == digits + [DigitChar(c)];
    DigitStep(v, b, left, q, DigitChar(c), digits);
    return i + 1, q;
  }

  lemma NumeralStep(v: nat, b: nat)
    requires 2 <= b <= 36
    ensures var q, d := v / b, DigitChar(v % b);
      && q <= v && (v > 0 ==> q < v) && d != NUL
      && Numeral(v, b) == (if q > 0 then Numeral(q, b) else "") + [d]
  {
    hide DigitChar;
    if v < b {
      assert v / b == 0 && v % b == v;
    } else {
      Smaller(v, b);
    }
    DigitNotNul(v % b);
  }

  lemma DigitNotNul(c: nat)
    requires c < 36
    ensures DigitChar(c) != NUL
  {
  }

  lemma DigitStep(v: nat, b: nat, left: nat, q: nat, d: char, digits: string)
    requires 2 <= b <= 36 && Written(v, b, left, digits) && (left > 0 || digits == "")
    requires d != NUL && Numeral(left, b) == (if q > 0 then Numeral(q, b) else "") + [d]
    ensures Written(v, b, q, digits + [d])
    ensures |digits| + 1 <= |Numeral(v, b)|
  {
    hide Numeral;
    assert Backwards(digits + [d]) == [d] + Backwards(digits);
    var high := if q > 0 then Numeral(q, b) else "";
    assert high + [d] + Backwards(digits) == high + ([d] + Backwards(digits));
  }
}
