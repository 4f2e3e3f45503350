// myshell.c: the in-place tokenizer and the bounded command history.
module Shell {

  const MAXARGS := 128
  const MAXHISTORY := 1000
  const NUL := 0 as char

  // -------------------------------------------------------------- parseline

  predicate NoNul(s: string) { forall i :: 0 <= i < |s| ==> s[i] != NUL }

  // The number of characters before the first space.
  function ToSpace(s: string): (k: nat)
    ensures k <= |s|
    ensures forall i :: 0 <= i < k ==> s[i] != ' '
    ensures k < |s| ==> s[k] == ' '
  {
    if s == "" || s[0] == ' ' then 0 else 1 + ToSpace(s[1..])
  }

  predicate IsWord(w: string) { |w| > 0 && forall i :: 0 <= i < |w| ==> w[i] != ' ' }

  // The words of s, each ended by a space; a last word without one is not counted.
  function Words(s: string): seq<string>
    decreases |s|
  {
    if s == "" then []
    else if s[0] == ' ' then Words(s[1..])
    else if ToSpace(s) == |s| then []
    else [s[..ToSpace(s)]] + Words(s[ToSpace(s) + 1..])
  }

  // What parseline splits: the line with its last character made a space.
  function Spaced(line: string): string
    requires line != ""
  {
    line[..|line| - 1] + " "
  }

  // The words passed on, and parseline's result.
  function Parsed(line: string): (seq<string>, bool)
    requires line != ""
  {
    var w := Words(Spaced(line));
    if w == [] then ([], true)
    else if "&" <= w[|w| - 1] then (w[..|w| - 1], true)
    else (w, false)
  }

  // The C string at p.
  ghost predicate StringAt(buf: seq<char>, p: int, s: string) {
    0 <= p && p + |s| < |buf| && buf[p..p + |s|] == s && NoNul(s) && buf[p + |s|] == NUL
  }

  // strlen
  method Strlen(buf: array<char>) returns (n: nat)
    requires exists i :: 0 <= i < buf.Length && buf[i] == NUL
    ensures n < buf.Length && buf[n] == NUL && NoNul(buf[..n])
  {
    n := 0;
    while buf[n] != NUL
      invariant n < buf.Length && NoNul(buf[..n])
      invariant exists i :: n <= i < buf.Length && buf[i] == NUL
      decreases buf.Length - n
    {
      n := n + 1;
    }
  }

  // strchr(buf + p, ' '): the first space before the NUL at n, if any.
  method FindSpace(buf: array<char>, p: nat, ghost n: nat) returns (found: bool, q: nat)
    requires p <= n < buf.Length && buf[n] == NUL && NoNul(buf[p..n])
    ensures found <==> ToSpace(buf[p..n]) < n - p
    ensures found ==> q == p + ToSpace(buf[p..n]) < n
  {
    q := p;
    while buf[q] != ' ' && buf[q] != NUL
      invariant p <= q <= n
      invariant forall i :: p <= i < q ==> buf[i] != ' '
      decreases n - q
    {
      assert buf[q] == buf[p..n][q - p];
      q := q + 1;
    }
    found := buf[q] == ' ';
    ghost var s := buf[p..n];
    assert forall i :: 0 <= i < |s| ==> s[i] == buf[p + i];
  }

  // The loops that step over spaces.
  method SkipSpaces(buf: array<char>, p: nat, ghost n: nat) returns (q: nat)
    requires p <= n < buf.Length && buf[n] == NUL && NoNul(buf[p..n])
    ensures p <= q <= n && Words(buf[q..n]) == Words(buf[p..n]) && NoNul(buf[q..n])
    ensures q < n ==> buf[q] != ' '
  {
    q := p;
    while buf[q] != NUL && buf[q] == ' '
      invariant p <= q <= n && Words(buf[q..n]) == Words(buf[p..n])
      decreases n - q
    {
      assert buf[q..n][1..] == buf[q + 1..n];
      q := q + 1;
    }
    if q < n {
      assert buf[p..n][q - p] == buf[q];
    }
    assert buf[p..n][q - p..] == buf[q..n];
  }

  // buf holds a line, up to its first NUL.
  ghost predicate Holds(buf: seq<char>, line: string) {
    line != "" && StringAt(buf, 0, line)
  }

  // The first |args| pointers of argv are the strings args, all before p.
  ghost predicate Points(buf: seq<char>, argv: seq<int>, args: seq<string>, p: int) {
    |args| <= |argv| &&
    forall i :: 0 <= i < |args| ==> StringAt(buf, argv[i], args[i]) && argv[i] + |args[i]| < p
  }

  // parseline. Pointers are offsets into buf, -1 is NULL, and argv ends with NULL.
  method ParseLine(buf: array<char>, argv: array<int>, ghost line: string) returns (bg: bool)
    requires Holds(buf[..], line) && argv.Length == MAXARGS
    requires |Words(Spaced(line))| < MAXARGS
    modifies buf, argv
    ensures var (args, b) := Parsed(line);
      bg == b && |args| < 128 && Points(buf[..], argv[..], args, buf.Length) && argv[|args|] == -1
  {
    var n := Terminate(buf, line);
    var argc;
    ghost var args;
    argc, args := Split(buf, argv, n);
    argv[argc] := -1;
    if argc == 0 {
      return true;
    }
    assert StringAt(buf[..], argv[argc - 1], args[argc - 1]);
    Ampersand(buf[..], argv[argc - 1], args[argc - 1]);
    bg := buf[argv[argc - 1]] == '&';
    if bg {
      argc := argc - 1;
      argv[argc] := -1;
    }
  }

  lemma Ampersand(buf: seq<char>, p: int, s: string)
    requires StringAt(buf, p, s)
    ensures "&" <= s <==> buf[p] == '&'
  {
    assert s != "" ==> buf[p] == buf[p..p + |s|][0];
  }

  // The last character of the line becomes a space; n is the line's length.
  method Terminate(buf: array<char>, ghost line: string) returns (n: nat)
    requires Holds(buf[..], line)
    modifies buf
    ensures n == |line| < buf.Length && buf[..n] == Spaced(line) && buf[n] == NUL && NoNul(buf[..n])
  {
    assert buf[..][|line|] == NUL;
    n := Strlen(buf);
    FirstNul(buf[..], line, n);
    assert buf[..n] == line;
    buf[n - 1] := ' ';
  }

  // The loop that builds argv.
  method Split(buf: array<char>, argv: array<int>, n: nat) returns (argc: nat, ghost args: seq<string>)
    requires n < buf.Length && buf[n] == NUL && NoNul(buf[..n])
    requires argv.Length == MAXARGS && |Words(buf[..n])| < MAXARGS
    modifies buf, argv
    ensures args == Words(old(buf[..n])) && argc == |args| && Points(buf[..], argv[..], args, buf.Length)
  {
    hide Words, Points, NoNul, ToSpace;
    ghost var t := buf[..n];
    assert buf[0..n] == t;
    NoPoints(buf[..], argv[..]);
    var p := SkipSpaces(buf, 0, n);
    argc, args := 0, [];
    var found, q := FindSpace(buf, p, n);
    while found
      invariant p <= n < buf.Length && buf[n] == NUL && NoNul(buf[p..n]) && (p < n ==> buf[p] != ' ')
      invariant found <==> ToSpace(buf[p..n]) < n - p
      invariant found ==> q == p + ToSpace(buf[p..n]) < n
      invariant |args| == argc && Words(t) == args + Words(buf[p..n])
      invariant Points(buf[..], argv[..], args, p)
      decreases n - p
    {
      ghost var word := CutWord(buf, argv, n, p, q, argc, args);
      ghost var rest := Words(buf[q + 1..n]);
      assert args + ([word] + rest) == (args + [word]) + rest;
      argc, args := argc + 1, args + [word];
      p := SkipSpaces(buf, q + 1, n);
      PointsWider(buf[..], argv[..], args, q + 1, p);
      found, q := FindSpace(buf, p, n);
    }
    NoWord(buf[p..n]);
    PointsWider(buf[..], argv[..], args, p, buf.Length);
  }

  lemma NoPoints(buf: seq<char>, argv: seq<int>)
    ensures forall p :: Points(buf, argv, [], p)
  {
  }

  lemma PointsWider(buf: seq<char>, argv: seq<int>, args: seq<string>, p: int, q: int)
    requires Points(buf, argv, args, p) && p <= q
    ensures Points(buf, argv, args, q)
  {
  }

  // argv[argc] = buf; *delim = NUL
  method CutWord(buf: array<char>, argv: array<int>, ghost n: nat, p: nat, q: nat, argc: nat, ghost args: seq<string>)
    returns (ghost word: string)
    requires p < n < buf.Length && buf[n] == NUL && NoNul(buf[p..n]) && buf[p] != ' '
    requires q == p + ToSpace(buf[p..n]) < n
    requires |args| == argc < argv.Length && Points(buf[..], argv[..], args, p)
    modifies buf, argv
    ensures buf[n] == NUL && NoNul(buf[q + 1..n])
    ensures Words(old(buf[p..n])) == [word] + Words(buf[q + 1..n])
    ensures Points(buf[..], argv[..], args + [word], q + 1)
  {
    hide Words, ToSpace, Points, NoNul;
    ghost var before, pointers, t := buf[..], argv[..], buf[p..n];
    word := buf[p..q];
    assert t[..q - p] == word && t[q - p + 1..] == buf[q + 1..n] && t[0] == buf[p];
    TakeWord(t, q - p);
    NoNulParts(t, q - p);
    argv[argc] := p;
    buf[q] := NUL;
    assert buf[q + 1..n] == before[q + 1..n] && buf[p..q] == word;
    PointsMore(before, buf[..], pointers, argv[..], args, p, word);
  }

  lemma NoNulParts(s: string, k: nat)
    requires NoNul(s) && k < |s|
    ensures NoNul(s[..k]) && NoNul(s[k + 1..])
  {
  }

  lemma FirstNul(buf: seq<char>, line: string, n: nat)
    requires Holds(buf, line) && n < |buf| && buf[n] == NUL && NoNul(buf[..n])
    ensures n == |line| && n >= 1
  {
    assert forall i :: 0 <= i < |line| ==> buf[i] == buf[0..|line|][i];
    assert forall i :: 0 <= i < n ==> buf[i] == buf[..n][i];
  }

  lemma TakeWord(s: string, k: nat)
    requires s != "" && s[0] != ' ' && k == ToSpace(s) < |s|
    ensures Words(s) == [s[..k]] + Words(s[k + 1..]) && k >= 1
  {
    SpaceLater(s);
  }

  lemma SpaceLater(s: string)
    requires s != "" && s[0] != ' '
    ensures ToSpace(s) >= 1
  {
  }

  // Words are not empty and hold no space.
  lemma {:induction false} WordsOnly(s: string)
    ensures forall i :: 0 <= i < |Words(s)| ==> IsWord(Words(s)[i])
    decreases |s|
  {
    if s == "" {
      NoWord(s);
    } else if s[0] == ' ' {
      WordsOnly(s[1..]);
    } else if ToSpace(s) < |s| {
      TakeWord(s, ToSpace(s));
      WordsOnly(s[ToSpace(s) + 1..]);
    }
  }

  lemma NoWord(s: string)
    requires (s != "" ==> s[0] != ' ') && ToSpace(s) == |s|
    ensures Words(s) == []
  {
  }

  lemma PointsMore(buf: seq<char>, buf': seq<char>, argv: seq<int>, argv': seq<int>, args: seq<string>,
                   p: int, word: string)
    requires Points(buf, argv, args, p) && |buf'| == |buf| && |argv'| == |argv| > |args|
    requires 0 <= p && forall i :: 0 <= i < p && i < |buf| ==> buf'[i] == buf[i]
    requires (forall i :: 0 <= i < |args| ==> argv'[i] == argv[i]) && argv'[|args|] == p
    requires StringAt(buf', p, word)
    ensures Points(buf', argv', args + [word], p + |word| + 1)
  {
    forall i | 0 <= i < |args|
      ensures StringAt(buf', argv'[i], args[i]) && argv'[i] + |args[i]| < p
    {
      assert StringAt(buf, argv[i], args[i]);
      assert buf'[argv[i]..argv[i] + |args[i]|] == buf[argv[i]..argv[i] + |args[i]|];
    }
  }

  // ------------------------------------------------- lines made from words

  function Spaces(n: nat): string { if n == 0 then "" else " " + Spaces(n - 1) }

  // The words, each followed by one space more than its gap says.
  function Render(words: seq<string>, gaps: seq<nat>): string
    requires |gaps| == |words|
  {
    if words == [] then "" else words[0] + " " + Spaces(gaps[0]) + Render(words[1..], gaps[1..])
  }

  lemma {:induction false} SkipLeading(n: nat, s: string)
    ensures Words(Spaces(n) + s) == Words(s)
  {
    if n == 0 {
      assert Spaces(0) + s == s;
    } else {
      assert (Spaces(n) + s)[1..] == Spaces(n - 1) + s;
      SkipLeading(n - 1, s);
    }
  }

  lemma {:induction false} WordFirst(w: string, s: string)
    requires forall i :: 0 <= i < |w| ==> w[i] != ' '
    ensures ToSpace(w + " " + s) == |w|
  {
    var t := w + " " + s;
    if w != "" {
      assert t[1..] == w[1..] + " " + s;
      WordFirst(w[1..], s);
    }
  }

  // Splitting undoes joining, whatever runs of spaces stand before and between.
  lemma {:induction false} SplitRender(words: seq<string>, gaps: seq<nat>, lead: nat)
    requires |gaps| == |words| && forall i :: 0 <= i < |words| ==> IsWord(words[i])
    ensures Words(Spaces(lead) + Render(words, gaps)) == words
    decreases |words|
  {
    hide Words, ToSpace, IsWord, Spaces;
    NoWord([]);
    SkipLeading(lead, Render(words, gaps));
    if words == [] {
    } else {
      SplitRender(words[1..], gaps[1..], gaps[0]);
      SplitFirst(words[0], Spaces(gaps[0]) + Render(words[1..], gaps[1..]));
      RenderFirst(words, gaps);
    }
  }

  lemma RenderFirst(words: seq<string>, gaps: seq<nat>)
    requires words != [] && |gaps| == |words|
    ensures Render(words, gaps) == words[0] + " " + (Spaces(gaps[0]) + Render(words[1..], gaps[1..]))
  {
    hide Spaces;
  }

  lemma SplitFirst(w: string, s: string)
    requires IsWord(w)
    ensures Words(w + " " + s) == [w] + Words(s)
  {
    hide Words, ToSpace;
    var t := w + " " + s;
    WordFirst(w, s);
    assert t[..|w|] == w && t[|w| + 1..] == s && t[0] == w[0];
    TakeWord(t, |w|);
  }

  // A typed line: spaces, words with runs of spaces between and after them, a newline.
  function Typed(words: seq<string>, gaps: seq<nat>, lead: nat): (line: string)
    requires |gaps| == |words| && words != []
    ensures line != "" && Spaced(line) == Spaces(lead) + Render(words, gaps)
  {
    var text := Spaces(lead) + Render(words, gaps);
    RenderEnds(words, gaps);
    assert text[..|text| - 1] + " " == text;
    text[..|text| - 1] + "\n"
  }

  lemma {:induction false} SpacesAreSpaces(n: nat)
    ensures |Spaces(n)| == n && forall i :: 0 <= i < n ==> Spaces(n)[i] == ' '
  {
    if n > 0 {
      SpacesAreSpaces(n - 1);
    }
  }

  lemma {:induction false} RenderEnds(words: seq<string>, gaps: seq<nat>)
    requires |gaps| == |words| && words != []
    ensures var t := Render(words, gaps); t != "" && t[|t| - 1] == ' '
  {
    SpacesAreSpaces(gaps[0]);
    if |words| > 1 {
      RenderEnds(words[1..], gaps[1..]);
    }
  }

  // parseline gives back the words a line was made of; a last word starting
  // with '&' is dropped and sets the result.
  lemma ParseRoundTrip(words: seq<string>, gaps: seq<nat>, lead: nat)
    requires words != [] && |gaps| == |words| && forall i :: 0 <= i < |words| ==> IsWord(words[i])
    ensures var (args, bg) := Parsed(Typed(words, gaps, lead));
      && bg == ("&" <= words[|words| - 1])
      && args == if bg then words[..|words| - 1] else words
  {
    SplitRender(words, gaps, lead);
  }

  // A blank line has no words, and counts as a background job.
  lemma BlankLine(n: nat)
    ensures Parsed(Spaces(n) + "\n") == ([], true)
  {
    var line := Spaces(n) + "\n";
    SpacesAreSpaces(n);
    SpacesAreSpaces(n + 1);
    assert Spaced(line) == Spaces(n + 1) + "";
    SkipLeading(n + 1, "");
    NoWord("");
  }

  // The result is true exactly when there are no words or the last starts with '&'.
  lemma BackgroundWhen(line: string)
    requires line != ""
    ensures var w := Words(Spaced(line));
      Parsed(line).1 <==> |w| == 0 || (|w[|w| - 1]| > 0 && w[|w| - 1][0] == '&')
  {
    hide Words;
    WordsOnly(Spaced(line));
  }

  // Every line is one of these: splitting loses nothing but the spaces.
  lemma {:induction false} SplitCovers(s: string) returns (lead: nat, gaps: seq<nat>)
    requires s != "" ==> s[|s| - 1] == ' '
    ensures |gaps| == |Words(s)| && s == Spaces(lead) + Render(Words(s), gaps)
    decreases |s|
  {
    hide Words, Spaces, IsWord;
    if s == "" {
      NoWord(s);
      SkipLeading(0, "");
      NoSpaces();
      lead, gaps := 0, [];
    } else if s[0] == ' ' {
      lead, gaps := SplitCovers(s[1..]);
      OneSpace(s, lead, Render(Words(s[1..]), gaps));
      lead := lead + 1;
    } else {
      var k := ToSpace(s);
      var rest := s[k + 1..];
      lead, gaps := SplitCovers(rest);
      TakeWord(s, k);
      NoSpaces();
      var words := Words(s);
      assert words[1..] == Words(rest) && ([lead] + gaps)[1..] == gaps;
      lead, gaps := 0, [lead] + gaps;
      RenderFirst(words, gaps);
      assert s == s[..k] + " " + rest;
    }
  }

  lemma NoSpaces()
    ensures Spaces(0) == ""
  {
  }

  lemma OneSpace(s: string, lead: nat, rest: string)
    requires s != "" && s[0] == ' ' && s[1..] == Spaces(lead) + rest
    ensures Words(s) == Words(s[1..]) && s == Spaces(lead + 1) + rest
  {
    hide Words;
    SkipSpace(s);
    assert s == " " + s[1..];
  }

  lemma {:induction false} SkipSpace(s: string)
    requires s != "" && s[0] == ' '
    ensures Words(s) == Words(s[1..])
  {
    hide ToSpace;
  }

  // ---------------------------------------------------------------- history

  function LastN(s: seq<string>, n: nat): seq<string> {
    if |s| <= n then s else s[|s| - n..]
  }

  // The lines without those equal to the one before.
  function Collapse(s: seq<string>): seq<string> {
    if |s| <= 1 then s
    else if s[|s| - 1] == s[|s| - 2] then Collapse(s[..|s| - 1])
    else Collapse(s[..|s| - 1]) + [s[|s| - 1]]
  }

  class History {
    const lines: array<string>
    var count: nat
    ghost var inputs: seq<string>   // every line given to save_history

    ghost predicate Valid()
      reads this, lines
    {
      && lines.Length == MAXHISTORY && count <= MAXHISTORY
      && lines[..count] == LastN(Collapse(inputs), MAXHISTORY)
    }

    constructor ()
      ensures Valid() && inputs == [] && fresh(lines)
    {
      lines := new string[MAXHISTORY](_ => "");
      count := 0;
      inputs := [];
    }

    // save_history: the array holds the last lines of the collapsed input.
    method Save(line: string)
      requires Valid()
      modifies this, lines
      ensures Valid() && inputs == old(inputs) + [line]
      ensures lines[..count] == LastN(Collapse(inputs), 1000)
    {
      hide Collapse, LastN;
      ghost var before, h := inputs, lines[..count];
      SaveStep(before, line);
      assert count > 0 ==> h[|h| - 1] == lines[count - 1];
      if count == 0 || line != lines[count - 1] {
        Store(line);
      }
      inputs := before + [line];
    }

    // One more line at the end, pushing out the first when the array is full.
    method Store(line: string)
      requires lines.Length == MAXHISTORY && count <= MAXHISTORY
      modifies this`count, lines
      ensures count == if old(count) < MAXHISTORY then old(count) + 1 else MAXHISTORY
      ensures lines[..count] == (if old(count) < MAXHISTORY then old(lines[..count]) else old(lines[1..])) + [line]
    {
      if count < MAXHISTORY {
        lines[count] := line;
        count := count + 1;
      } else {
        Shift();
        ghost var front := lines[..MAXHISTORY - 1];
        lines[MAXHISTORY - 1] := line;
        assert lines[..MAXHISTORY - 1] == front;
      }
    }

    // The loop that moves every line one place down.
    method Shift()
      requires lines.Length == MAXHISTORY
      modifies lines
      ensures lines[..MAXHISTORY - 1] == old(lines[1..])
    {
      var i := 1;
      while i < MAXHISTORY
        invariant 1 <= i <= MAXHISTORY
        invariant forall k :: 0 <= k < i - 1 ==> lines[k] == old(lines[k + 1])
        invariant forall k :: i - 1 <= k < MAXHISTORY ==> lines[k] == old(lines[k])
      {
        lines[i - 1] := lines[i];
        i := i + 1;
      }
    }
  }

  lemma {:induction false} CollapseLast(s: seq<string>)
    requires s != []
    ensures Collapse(s) != [] && Collapse(s)[|Collapse(s)| - 1] == s[|s| - 1]
  {
    if |s| > 1 {
      CollapseLast(s[..|s| - 1]);
    }
  }

  lemma CollapseStep(s: seq<string>, line: string)
    ensures Collapse(s + [line]) ==
      if s != [] && s[|s| - 1] == line then Collapse(s) else Collapse(s) + [line]
    ensures s != [] ==> Collapse(s) != [] && Collapse(s)[|Collapse(s)| - 1] == s[|s| - 1]
  {
    var t := s + [line];
    assert t[..|t| - 1] == s;
    if s != [] {
      CollapseLast(s);
      assert t[|t| - 2] == s[|s| - 1];
    }
  }

  lemma LastNMore(s: seq<string>, n: nat, line: string)
    requires n > 0
    ensures LastN(s + [line], n) == if |s| < n then s + [line] else LastN(s, n)[1..] + [line]
    ensures |LastN(s, n)| == if |s| < n then |s| else n
    ensures s != [] ==> LastN(s, n) != [] && LastN(s, n)[|LastN(s, n)| - 1] == s[|s| - 1]
  {
    if |s| >= n {
      assert s == LastN(s, n) || s[|s| - n..][1..] == s[|s| - n + 1..];
      assert (s + [line])[|s| + 1 - n..] == s[|s| + 1 - n..] + [line];
    }
  }

  // One more line, seen from the lines kept so far.
  lemma SaveStep(s: seq<string>, line: string)
    ensures var h, h' := LastN(Collapse(s), MAXHISTORY), LastN(Collapse(s + [line]), MAXHISTORY);
      if h != [] && h[|h| - 1] == line then h' == h
      else if |h| < MAXHISTORY then h' == h + [line]
      else |h| == MAXHISTORY && h' == h[1..] + [line]
  {
    CollapseStep(s, line);
    assert s == [] ==> Collapse(s) == [];
    hide Collapse, LastN;
    LastNMore(Collapse(s), MAXHISTORY, line);
    LastNShort(Collapse(s), MAXHISTORY);
  }

  lemma LastNShort(s: seq<string>, n: nat)
    ensures |s| < n ==> LastN(s, n) == s
    ensures LastN([], n) == []
  {
  }
}
