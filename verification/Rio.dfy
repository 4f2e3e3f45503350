// csapp.c: the Rio buffered reader over a kernel that may cut every read
// short, interrupt it, or fail; and the number formatting of the sio package.
module Rio {

  const BUFSIZE := 8192
  const NUL := 0 as char

  // What one system call does: return -1 with EINTR, return -1 with another
  // errno, or move up to k bytes (at least one, if there are any).
  datatype Event = Interrupt | Fail | Move(k: nat)

  function Least(a: nat, b: nat): nat { if a < b then a else b }

  class Kernel {
    var stream: seq<char>     // bytes not yet read from the descriptor
    var output: seq<char>     // bytes written so far
    var script: seq<Event>    // what the next calls do; past its end, calls move all they can

    constructor (bytes: seq<char>, events: seq<Event>)
      ensures stream == bytes && script == events && output == []
    {
      stream, script, output := bytes, events, [];
    }

    // No call fails with an errno other than EINTR.
    ghost predicate Reliable()
      reads this
    {
      Fail !in script
    }

    // The number of bytes the next call moves when it is offered n, or -1.
    method Next(n: nat) returns (k: int, interrupted: bool)
      modifies this`script
      ensures script == if old(script) == [] then [] else old(script[1..])
      ensures k == -1 && interrupted ==> |script| < |old(script)|
      ensures k == -1 && !interrupted ==> !old(Reliable())
      ensures k == -1 || (0 <= k <= n && (n > 0 ==> k > 0))
      ensures old(Reliable()) ==> Reliable()
    {
      interrupted := false;
      if script == [] {
        return n, false;
      }
      var event := script[0];
      script := script[1..];
      match event
      case Interrupt => k, interrupted := -1, true;
      case Fail => k := -1;
      case Move(m) => k := Least(n, if m == 0 then 1 else m);
    }

    // read(fd, buf, n)
    method Read(buf: array<char>, n: nat) returns (rc: int, interrupted: bool)
      requires 0 < n <= buf.Length
      modifies this`script, this`stream, buf
      ensures rc == -1 && interrupted ==> |script| < |old(script)|
      ensures rc == -1 && !interrupted ==> !old(Reliable())
      ensures rc == -1 ==> stream == old(stream)
      ensures rc != -1 ==> 0 <= rc <= n && (rc == 0 <==> old(stream) == [])
      ensures rc != -1 ==> old(stream) == buf[..rc] + stream
      ensures old(Reliable()) ==> Reliable()
    {
      rc, interrupted := Next(Least(n, |stream|));
      if rc != -1 {
        forall i | 0 <= i < rc {
          buf[i] := stream[i];
        }
        stream := stream[rc..];
      }
    }

    // write(fd, buf + from, n)
    method Write(buf: array<char>, from: nat, n: nat) returns (rc: int, interrupted: bool)
      requires 0 < n && from + n <= buf.Length
      modifies this`script, this`output
      ensures rc == -1 && interrupted ==> |script| < |old(script)|
      ensures rc == -1 && !interrupted ==> !old(Reliable())
      ensures rc == -1 ==> output == old(output)
      ensures rc != -1 ==> 0 < rc <= n && output == old(output) + buf[from..from + rc]
      ensures old(Reliable()) ==> Reliable()
    {
      rc, interrupted := Next(n);
      if rc != -1 {
        output := output + buf[from..from + rc];
      }
    }
  }

  // rio_writen
  method WriteN(kernel: Kernel, usrbuf: array<char>, n: nat) returns (rc: int)
    requires n <= usrbuf.Length
    modifies kernel`script, kernel`output
    ensures rc == n || rc == -1
    ensures old(kernel.Reliable()) ==> rc == n
    ensures rc == n ==> kernel.output == old(kernel.output) + usrbuf[..n]
    ensures rc == -1 ==> exists k: nat :: k < n && kernel.output == old(kernel.output) + usrbuf[..k]
  {
    var nleft, bufp := n, 0;
    while nleft > 0
      invariant 0 <= nleft <= n && nleft + bufp == n
      invariant kernel.output == old(kernel.output) + usrbuf[..bufp]
      invariant old(kernel.Reliable()) ==> kernel.Reliable()
      decreases nleft, |kernel.script|
    {
      ghost var before := kernel.output;
      var nwritten, interrupted := kernel.Write(usrbuf, bufp, nleft);
      if nwritten <= 0 {
        if interrupted {
          nwritten := 0;
        } else {
          assert kernel.output == old(kernel.output) + usrbuf[..bufp];
          return -1;
        }
      }
      assert usrbuf[..bufp] + usrbuf[bufp..bufp + nwritten] == usrbuf[..bufp + nwritten];
      nleft, bufp := nleft - nwritten, bufp + nwritten;
    }
    return n;
  }

  // ------------------------------------------------------- the reader's meaning

  datatype Request = Bytes(n: nat) | Line(maxlen: nat)

  // How many bytes of s the first line takes, at most m.
  function LineLen(s: seq<char>, m: nat): (k: nat)
    ensures k <= |s| && k <= m
  {
    if s == [] || m == 0 then 0
    else if s[0] == '\n' then 1
    else 1 + LineLen(s[1..], m - 1)
  }

  // The bytes a request gets when the stream continues with s.
  function Answer(s: seq<char>, r: Request): (a: seq<char>)
    ensures a <= s
  {
    match r
    case Bytes(n) => s[..Least(n, |s|)]
    case Line(maxlen) => s[..LineLen(s, if maxlen == 0 then 0 else maxlen - 1)]
  }

  function Serve(s: seq<char>, rs: seq<Request>): (answers: seq<seq<char>>)
    ensures |answers| == |rs|
    decreases |rs|
  {
    if rs == [] then [] else
    var a := Answer(s, rs[0]);
    [a] + Serve(s[|a|..], rs[1..])
  }

  function Concat(ss: seq<seq<char>>): seq<char> {
    if ss == [] then [] else ss[0] + Concat(ss[1..])
  }

  // What the answers are, without the functions above.
  lemma AnswerMeans(s: seq<char>, r: Request)
    ensures var a := Answer(s, r); match r
      case Bytes(n) => a == s[..if n < |s| then n else |s|]
      case Line(maxlen) =>
        && a <= s && (|a| == 0 || |a| < maxlen)
        && (forall i :: 0 <= i < |a| - 1 ==> a[i] != '\n')
        && (|a| >= maxlen - 1 || |a| == |s| || (a != [] && a[|a| - 1] == '\n'))
  {
    match r
    case Bytes(n) =>
    case Line(maxlen) =>
      var m := if maxlen == 0 then 0 else maxlen - 1;
      LineEnds(s, m, LineLen(s, m));
  }

  // A line request stops at the first newline, after maxlen - 1 bytes or at
  // the end, and nowhere else.
  lemma {:induction false} LineEnds(s: seq<char>, m: nat, k: nat)
    requires k <= |s| && k <= m
    ensures k == LineLen(s, m) <==>
      && (forall i :: 0 <= i < k - 1 ==> s[i] != '\n')
      && (k == m || k == |s| || (k > 0 && s[k - 1] == '\n'))
  {
    if k > 0 {
      LineEnds(s[1..], m - 1, k - 1);
      assert forall i :: 0 <= i < k - 2 ==> s[1..][i] == s[i + 1];
      assert k > 1 ==> s[1..][k - 2] == s[k - 1];
      assert (forall i :: 0 <= i < k - 1 ==> s[i] != '\n')
        == ((k > 1 ==> s[0] != '\n') && forall i :: 0 <= i < k - 2 ==> s[1..][i] != '\n');
    }
  }

  lemma ConcatFirst(a: seq<char>, later: seq<seq<char>>)
    ensures Concat([a] + later) == a + Concat(later)
  {
    assert ([a] + later)[1..] == later;
  }

  lemma ServeFirst(s: seq<char>, rs: seq<Request>)
    requires rs != []
    ensures var a := Answer(s, rs[0]); Serve(s, rs) == [a] + Serve(s[|a|..], rs[1..])
  {
  }

  lemma ServeNone(s: seq<char>)
    ensures Serve(s, []) == []
  {
  }

  lemma NothingServed()
    ensures Concat([]) == []
  {
  }

  // Requests take consecutive bytes: none lost, none twice, and each answer
  // depends only on how many bytes came before it.
  lemma {:induction false} ServeConsecutive(s: seq<char>, rs: seq<Request>, i: nat)
    requires i < |rs|
    ensures var before := Concat(Serve(s, rs)[..i]);
      && before + Serve(s, rs)[i] <= s
      && Serve(s, rs)[i] == Answer(s[|before|..], rs[i])
    decreases |rs|
  {
    hide Serve, Concat, Answer, LineLen;
    ServeFirst(s, rs);
    NothingServed();
    var a := Answer(s, rs[0]);
    var rest := s[|a|..];
    var later := Serve(rest, rs[1..]);
    if i > 0 {
      ServeConsecutive(rest, rs[1..], i - 1);
      assert ([a] + later)[..i] == [a] + later[..i - 1];
      ConcatFirst(a, later[..i - 1]);
      Behind(s, a, Concat(later[..i - 1]), later[i - 1]);
    }
  }

  lemma Behind(s: seq<char>, a: seq<char>, b: seq<char>, c: seq<char>)
    requires a <= s && b + c <= s[|a|..]
    ensures a + b + c <= s && s[|a + b|..] == s[|a|..][|b|..]
  {
    assert s == a + s[|a|..];
  }

  lemma SliceSplit(b: seq<char>, lo: int, mid: int, hi: int, s: seq<char>)
    requires 0 <= lo <= mid <= hi <= |b|
    ensures b[lo..hi] + s == b[lo..mid] + (b[mid..hi] + s)
    ensures mid == hi ==> b[lo..hi] + s == b[lo..mid] + s
  {
    assert b[lo..hi] == b[lo..mid] + b[mid..hi];
  }

  lemma Untouched(was: seq<char>, now: seq<char>, k: nat)
    requires |was| == |now| && k <= |was| && now[..k] == was[..k] && now[k..] == was[k..]
    ensures now == was
  {
    assert now == now[..k] + now[k..] && was == was[..k] + was[k..];
  }

  // More bytes given, fewer pending.
  lemma Given(all: seq<char>, given: seq<char>, more: seq<char>, pending: seq<char>)
    requires all == given + (more + pending)
    ensures all == given + more + pending
  {
  }

  lemma BytesDone(all: seq<char>, given: seq<char>, pending: seq<char>, n: nat)
    requires all == given + pending && |given| <= n && (|given| == n || pending == [])
    ensures given == Answer(all, Bytes(n))
  {
  }

  predicate NoNewline(s: seq<char>) { forall i :: 0 <= i < |s| ==> s[i] != '\n' }

  lemma NoNewlineYet()
    ensures NoNewline([])
  {
  }

  lemma NoNewlineStill(s: seq<char>, c: char)
    requires NoNewline(s) && c != '\n'
    ensures NoNewline(s + [c])
  {
  }

  // A line is done when its newline arrives,
  lemma LineDone(all: seq<char>, given: seq<char>, c: char, pending: seq<char>, maxlen: nat)
    requires all == given + [c] + pending && NoNewline(given) && c == '\n' && |given| + 1 < maxlen
    ensures given + [c] == Answer(all, Line(maxlen))
  {
    LineEnds(all, maxlen - 1, |given| + 1);
  }

  // or when the bytes or the room run out.
  lemma LineCut(all: seq<char>, given: seq<char>, pending: seq<char>, maxlen: nat)
    requires all == given + pending && NoNewline(given) && (given == [] || |given| < maxlen)
    requires |given| + 1 >= maxlen || pending == []
    ensures given == Answer(all, Line(maxlen))
  {
    LineEnds(all, if maxlen == 0 then 0 else maxlen - 1, |given|);
  }

  // ---------------------------------------------------------------- the reader

  class Reader {
    const kernel: Kernel
    const buf: array<char>
    var cnt: int
    var bufptr: nat

    ghost predicate Valid()
      reads this
    {
      buf.Length == BUFSIZE && -1 <= cnt && (cnt > 0 ==> bufptr + cnt <= BUFSIZE)
    }

    // The bytes the caller has not yet been given.
    ghost function Pending(): seq<char>
      requires Valid()
      reads this, buf, kernel
    {
      if cnt > 0 then buf[bufptr..bufptr + cnt] + kernel.stream else kernel.stream
    }

    // rio_readinitb
    constructor (k: Kernel)
      ensures Valid() && kernel == k && fresh(buf) && Pending() == k.stream
    {
      kernel := k;
      buf := new char[BUFSIZE](_ => NUL);
      cnt, bufptr := 0, 0;
    }

    // The loop of rio_read that refills an empty buffer: -1, 0 at the end, or 1.
    method Refill() returns (rc: int)
      requires Valid()
      modifies this, buf, kernel`stream, kernel`script
      ensures Valid() && Pending() == old(Pending())
      ensures old(kernel.Reliable()) ==> kernel.Reliable() && rc != -1
      ensures (rc == -1 && cnt <= 0) || (rc == 0 && cnt <= 0 && Pending() == []) || (rc == 1 && cnt > 0)
    {
      while cnt <= 0
        invariant Valid() && Pending() == old(Pending())
        invariant old(kernel.Reliable()) ==> kernel.Reliable()
        decreases if cnt <= 0 then 1 else 0, |kernel.script|
      {
        var interrupted;
        cnt, interrupted := kernel.Read(buf, BUFSIZE);
        if cnt < 0 {
          if !interrupted {
            return -1;
          }
        } else if cnt == 0 {
          return 0;
        } else {
          bufptr := 0;
        }
      }
      return 1;
    }

    // rio_read into usrbuf + from
    method Read(usrbuf: array<char>, from: nat, n: nat) returns (rc: int)
      requires Valid() && from + n <= usrbuf.Length && usrbuf != buf
      modifies this, buf, kernel`stream, kernel`script, usrbuf
      ensures Valid() && -1 <= rc <= n
      ensures old(kernel.Reliable()) ==> kernel.Reliable() && rc != -1
      ensures rc <= 0 ==> usrbuf[..] == old(usrbuf[..]) && Pending() == old(Pending())
      ensures rc == 0 ==> n == 0 || old(Pending()) == []
      ensures rc > 0 ==> old(Pending()) == usrbuf[from..from + rc] + Pending()
      ensures rc > 0 ==> usrbuf[..from] == old(usrbuf[..from]) && usrbuf[from + rc..] == old(usrbuf[from + rc..])
    {
      hide Pending;
      rc := Refill();
      if rc <= 0 {
        return;
      }
      rc := if cnt < n then cnt else n;
      Hand(usrbuf, from, rc);
    }

    // The next k buffered bytes, handed over.
    method Hand(usrbuf: array<char>, from: nat, k: nat)
      requires Valid() && k <= cnt && 0 < cnt && from + k <= usrbuf.Length && usrbuf != buf
      modifies this`bufptr, this`cnt, usrbuf
      ensures Valid() && old(Pending()) == usrbuf[from..from + k] + Pending()
      ensures usrbuf[..from] == old(usrbuf[..from]) && usrbuf[from + k..] == old(usrbuf[from + k..])
      ensures k == 0 ==> usrbuf[..] == old(usrbuf[..]) && Pending() == old(Pending())
    {
      hide Pending;
      ghost var b, s, was := buf[..], kernel.stream, usrbuf[..];
      PendingIs();
      Copy(usrbuf, from, k);
      SliceSplit(b, bufptr, bufptr + k, bufptr + cnt, s);
      assert buf[bufptr..bufptr + k] == b[bufptr..bufptr + k] && buf[bufptr..bufptr + cnt] == b[bufptr..bufptr + cnt];
      bufptr, cnt := bufptr + k, cnt - k;
      PendingIs();
      assert buf[bufptr..bufptr + cnt] == b[bufptr..bufptr + cnt];
      if k == 0 {
        Untouched(was, usrbuf[..], from);
      }
    }

    lemma PendingIs()
      requires Valid()
      ensures cnt > 0 ==> Pending() == buf[bufptr..bufptr + cnt] + kernel.stream
      ensures cnt <= 0 ==> Pending() == kernel.stream
    {
    }

    // memcpy(usrbuf + from, bufptr, k)
    method Copy(usrbuf: array<char>, from: nat, k: nat)
      requires bufptr + k <= buf.Length && from + k <= usrbuf.Length && usrbuf != buf
      modifies usrbuf
      ensures usrbuf[from..from + k] == buf[bufptr..bufptr + k]
      ensures usrbuf[..from] == old(usrbuf[..from]) && usrbuf[from + k..] == old(usrbuf[from + k..])
    {
      var i := 0;
      while i < k
        invariant i <= k && usrbuf[from..from + i] == buf[bufptr..bufptr + i]
        invariant usrbuf[..from] == old(usrbuf[..from]) && usrbuf[from + i..] == old(usrbuf[from + i..])
      {
        ghost var done, ahead := usrbuf[from..from + i], usrbuf[from + i..];
        usrbuf[from + i] := buf[bufptr + i];
        assert usrbuf[from..from + i + 1] == done + [buf[bufptr + i]];
        assert usrbuf[from + i + 1..] == ahead[1..];
        i := i + 1;
      }
    }

    // rio_readnb
    method ReadN(usrbuf: array<char>, n: nat) returns (rc: int)
      requires Valid() && n <= usrbuf.Length && usrbuf != buf
      modifies this, buf, kernel`stream, kernel`script, usrbuf
      ensures Valid() && -1 <= rc <= n
      ensures old(kernel.Reliable()) ==> kernel.Reliable() && rc != -1
      ensures rc >= 0 ==> usrbuf[..rc] == Answer(old(Pending()), Bytes(n))
      ensures rc >= 0 ==> old(Pending()) == usrbuf[..rc] + Pending()
      ensures rc == -1 ==> exists k: nat :: k < n && old(Pending()) == usrbuf[..k] + Pending()
    {
      hide Valid, Pending, Answer, LineLen;
      ghost var all := Pending();
      var nleft, bufp := n, 0;
      while nleft > 0
        invariant 0 <= nleft <= n && nleft + bufp == n && Valid()
        invariant all == usrbuf[..bufp] + Pending()
        invariant old(kernel.Reliable()) ==> kernel.Reliable()
        decreases nleft
      {
        ghost var given := usrbuf[..bufp];
        var nread := Read(usrbuf, bufp, nleft);
        assert usrbuf[..bufp] == given;
        if nread < 0 {
          return -1;
        } else if nread == 0 {
          break;
        }
        Given(all, given, usrbuf[bufp..bufp + nread], Pending());
        assert usrbuf[..bufp + nread] == given + usrbuf[bufp..bufp + nread];
        nleft, bufp := nleft - nread, bufp + nread;
      }
      BytesDone(all, usrbuf[..bufp], Pending(), n);
      return n - nleft;
    }

    // rio_readlineb
    method ReadLine(usrbuf: array<char>, maxlen: nat) returns (rc: int)
      requires Valid() && maxlen <= usrbuf.Length && usrbuf.Length > 0 && usrbuf != buf
      modifies this, buf, kernel`stream, kernel`script, usrbuf
      ensures Valid() && -1 <= rc && (rc > 0 ==> rc < maxlen)
      ensures old(kernel.Reliable()) ==> kernel.Reliable() && rc != -1
      ensures rc >= 0 ==> rc < usrbuf.Length && usrbuf[..rc] == Answer(old(Pending()), Line(maxlen))
      ensures rc >= 0 ==> old(Pending()) == usrbuf[..rc] + Pending()
      ensures rc > 0 || (rc == 0 && maxlen <= 1) ==> usrbuf[rc] == NUL
      ensures rc == 0 && maxlen > 1 ==> usrbuf[..] == old(usrbuf[..])
      ensures rc == -1 ==> exists k: nat :: k < maxlen && old(Pending()) == usrbuf[..k] + Pending()
    {
      hide Valid, Pending, Answer, LineLen, NoNewline;
      ghost var all, line := Pending(), [];
      var n := 1;
      NoNewlineYet();
      while n < maxlen
        invariant 1 <= n && (n <= maxlen || n == 1) && Valid()
        invariant all == line + Pending() && line == usrbuf[..n - 1] && NoNewline(line)
        invariant n == 1 ==> usrbuf[..] == old(usrbuf[..])
        invariant old(kernel.Reliable()) ==> kernel.Reliable()
        decreases maxlen - n
      {
        var rc, c := ReadChar(usrbuf, n - 1);
        if rc == 1 {
          Given(all, line, [c], Pending());
          n := n + 1;
          if c == '\n' {
            LineDone(all, line, c, Pending(), maxlen);
            line := line + [c];
            break;
          }
          NoNewlineStill(line, c);
          line := line + [c];
        } else if rc == 0 {
          LineCut(all, line, Pending(), maxlen);
          if n == 1 {
            return 0;
          }
          break;
        } else {
          return -1;
        }
      }
      if maxlen <= n && NoNewline(line) {
        LineCut(all, line, Pending(), maxlen);
      }
      PutChar(usrbuf, n - 1, NUL);
      return n - 1;
    }

    // c = the next byte, and *bufp = c.
    method ReadChar(usrbuf: array<char>, i: nat) returns (rc: int, c: char)
      requires Valid() && i < usrbuf.Length && usrbuf != buf
      modifies this, buf, kernel`stream, kernel`script, usrbuf
      ensures Valid() && -1 <= rc <= 1 && (rc == 0 ==> old(Pending()) == [])
      ensures old(kernel.Reliable()) ==> kernel.Reliable() && rc != -1
      ensures rc == 1 ==> old(Pending()) == [c] + Pending() && usrbuf[..i + 1] == old(usrbuf[..i]) + [c]
      ensures rc != 1 ==> Pending() == old(Pending()) && usrbuf[..] == old(usrbuf[..])
    {
      hide Valid, Pending;
      var cell := new char[1];
      rc := Read(cell, 0, 1);
      c := cell[0];
      if rc == 1 {
        assert cell[0..1] == [c];
        PutChar(usrbuf, i, c);
      }
    }

    static method PutChar(usrbuf: array<char>, i: nat, c: char)
      requires i < usrbuf.Length
      modifies usrbuf
      ensures usrbuf[i] == c && usrbuf[..i] == old(usrbuf[..i])
      ensures usrbuf[..i + 1] == old(usrbuf[..i]) + [c]
    {
      usrbuf[i] := c;
    }
  }

  // Any interleaving of requests over any reliable kernel: the answers are
  // those of Serve, whatever the kernel's short reads and interrupts were.
  method Session(r: Reader, rs: seq<Request>) returns (answers: seq<seq<char>>)
    requires r.Valid() && r.kernel.Reliable()
    modifies r, r.buf, r.kernel`stream, r.kernel`script
    ensures r.Valid() && r.kernel.Reliable()
    ensures answers == Serve(old(r.Pending()), rs)
    ensures old(r.Pending()) == Concat(answers) + r.Pending()
  {
    hide *;
    answers := [];
    NothingServed();
    if rs == [] {
      ServeNone(r.Pending());
      return;
    }
    ghost var s := r.Pending();
    var a := Satisfy(r, rs[0]);
    assert s[|a|..] == r.Pending();
    ServeFirst(s, rs);
    var later := Session(r, rs[1..]);
    answers := [a] + later;
    ConcatFirst(a, later);
    Given(s, a, Concat(later), r.Pending());
  }

  method Satisfy(r: Reader, q: Request) returns (a: seq<char>)
    requires r.Valid() && r.kernel.Reliable()
    modifies r, r.buf, r.kernel`stream, r.kernel`script
    ensures r.Valid() && r.kernel.Reliable()
    ensures a == Answer(old(r.Pending()), q) && old(r.Pending()) == a + r.Pending()
  {
    var rc;
    match q
    case Bytes(n) =>
      var usrbuf := new char[n];
      rc := r.ReadN(usrbuf, n);
      a := usrbuf[..rc];
    case Line(maxlen) =>
      var usrbuf := new char[maxlen + 1];
      rc := r.ReadLine(usrbuf, maxlen);
      a := usrbuf[..rc];
  }
}
