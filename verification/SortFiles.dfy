/**
 `sort` from the bytes of its files: lines are read into a buffer of L bytes, a line that fills
 it is thrown away, and a missing last newline is supplied.
 */
module SortFiles {
  import opened LineOrder

  /** The size of the line buffer. */
  const L: nat := 1024

  /** `getc` at the end, and any byte 255 once it is stored in a signed character. */
  const EOF: int := -1

  predicate Ends(c: int) { c == NEWLINE || c == EOF }

  /** What is left after throwing bytes away up to a newline or an EOF. */
  function Discard(s: seq<int>): (rest: seq<int>)
    ensures |rest| <= |s| && (s != [] ==> |rest| < |s|)
  {
    if s == [] then [] else if Ends(s[0]) then s[1..] else Discard(s[1..])
  }

  /** The number of bytes before the first newline. */
  function LineLength(s: seq<int>): (n: nat)
    ensures n <= |s| && (n < |s| ==> s[n] == NEWLINE)
    ensures forall k :: 0 <= k < n ==> s[k] != NEWLINE
  {
    if s == [] || s[0] == NEWLINE then 0 else 1 + LineLength(s[1..])
  }

  function Before(line: Line, lines: seq<Line>): seq<Line> { [line] + lines }

  /** The lines that a file contributes. */
  function Lines(text: seq<int>): seq<Line>
    decreases |text|
  {
    var n := LineLength(text);
    if text == [] then []
    else if n < |text| && n + 1 < L then Before(text[..n + 1], Lines(text[n + 1..]))
    else if |text| + 1 < L then [text + [NEWLINE]]
    else Lines(Discard(text[L - 1..]))
  }

  // ----- What reading keeps of a text made of lines

  function Concat(lines: seq<Line>): seq<int> {
    if lines == [] then [] else lines[0] + Concat(lines[1..])
  }

  /** The lines that fit the buffer. */
  function Short(lines: seq<Line>): seq<Line> {
    if lines == [] then []
    else (if |lines[0]| < L then [lines[0]] else []) + Short(lines[1..])
  }

  lemma LineLengthIs(s: seq<int>, n: nat)
    requires n < |s| && s[n] == NEWLINE && forall k :: 0 <= k < n ==> s[k] != NEWLINE
    ensures LineLength(s) == n
  {
  }

  lemma FirstLineLength(line: Line, rest: seq<int>)
    ensures LineLength(line + rest) == |line| - 1
  {
    LineLengthIs(line + rest, |line| - 1);
  }

  /** Throwing away the rest of a line stops after it if and only if no byte 255 comes first. */
  lemma {:induction false} DiscardsLineIff(s: seq<int>, rest: seq<int>)
    requires IsLine(s)
    ensures Discard(s + rest) == rest <==> EOF !in s
    ensures |rest| <= |Discard(s + rest)|
    decreases |s|
  {
    assert (s + rest)[0] == s[0] && (s + rest)[1..] == s[1..] + rest;
    if s[0] == NEWLINE {
      assert |s| == 1;
    } else if s[0] == EOF {
      assert |s[1..] + rest| > |rest|;
    } else {
      DiscardsLineIff(s[1..], rest);
    }
  }

  /** No line loses its tail halfway: byte 255 does not occur beyond the buffer. */
  ghost predicate Discardable(lines: seq<Line>) {
    forall k :: 0 <= k < |lines| && L <= |lines[k]| ==> EOF !in lines[k][L - 1..]
  }

  lemma LongLineGone(line: Line, rest: seq<int>)
    requires L <= |line| && EOF !in line[L - 1..]
    ensures Lines(line + rest) == Lines(rest)
  {
    FirstLineLength(line, rest);
    assert (line + rest)[L - 1..] == line[L - 1..] + rest;
    DiscardsLineIff(line[L - 1..], rest);
  }

  /** A byte 255 right behind the buffer: what follows it is sorted as a line of its own. */
  lemma StrayLine(head: seq<int>, tail: Line)
    requires |head| == 1023 && 10 !in head && |tail| < 1024
    ensures Lines(head + [-1] + tail) == [tail]
  {
    var text := head + [EOF] + tail;
    assert forall k :: 0 <= k < L - 1 ==> text[k] == head[k];
    assert text[L - 1..] == [EOF] + tail && ([EOF] + tail)[1..] == tail == tail + [];
    LongLine(text);
    ShortLineKept(tail, []);
  }

  lemma LongLine(s: seq<int>)
    requires L - 1 <= |s| && forall k :: 0 <= k < L - 1 ==> s[k] != NEWLINE
    ensures Lines(s) == Lines(Discard(s[L - 1..]))
  {
    hide Discard;
  }

  lemma ShortLineKept(line: Line, rest: seq<int>)
    requires |line| < L
    ensures Lines(line + rest) == [line] + Lines(rest)
  {
    FirstLineLength(line, rest);
    assert (line + rest)[..|line|] == line && (line + rest)[|line|..] == rest;
  }

  /** A text made of lines contributes those that fit the buffer, in order. */
  lemma {:induction false} ShortLinesAreRead(lines: seq<Line>)
    requires Discardable(lines)
    ensures Lines(Concat(lines)) == Short(lines)
    decreases |lines|
  {
    if lines != [] {
      var rest := lines[1..];
      assert forall k :: 0 <= k < |rest| ==> rest[k] == lines[k + 1];
      ShortLinesAreRead(rest);
      if |lines[0]| < L {
        ShortLineKept(lines[0], Concat(rest));
      } else {
        assert EOF !in lines[0][L - 1..];
        LongLineGone(lines[0], Concat(rest));
      }
    }
  }

  lemma LineLengthStable(s: seq<int>, t: seq<int>)
    requires LineLength(s) < |s|
    ensures LineLength(s + t) == LineLength(s)
  {
    LineLengthIs(s + t, LineLength(s));
  }

  lemma {:induction false} DiscardBeforeNewline(s: seq<int>)
    requires s == [] || !Ends(s[|s| - 1])
    ensures Discard(s) == [] ==> Discard(s + [NEWLINE]) == []
    ensures Discard(s) != [] ==>
              Discard(s + [NEWLINE]) == Discard(s) + [NEWLINE] && Discard(s)[|Discard(s)| - 1] == s[|s| - 1]
  {
    var t := s + [NEWLINE];
    if s == [] {
      assert t[1..] == [];
    } else {
      assert t[0] == s[0] && t[1..] == s[1..] + [NEWLINE];
      if !Ends(s[0]) {
        DiscardBeforeNewline(s[1..]);
      }
    }
  }

  // ----- The loops

  /** How many bytes `fgets` takes. */
  function Got(s: seq<int>): (g: nat)
    ensures g <= |s| && (s != [] ==> 0 < g)
  {
    var n := LineLength(s);
    if n < |s| && n + 1 < L then n + 1 else if |s| < L - 1 then |s| else L - 1
  }

  /** One `fgets` and what it contributes. */
  lemma LinesStep(s: seq<int>, g: nat)
    requires s != [] && g == Got(s)
    ensures s[g - 1] == NEWLINE ==> IsLine(s[..g]) && Lines(s) == Before(s[..g], Lines(s[g..]))
    ensures s[g - 1] != NEWLINE && g == L - 1 ==> Lines(s) == Lines(Discard(s[g..]))
    ensures s[g - 1] != NEWLINE && g != L - 1 ==>
              g == |s| && IsLine(s[..g] + [NEWLINE]) && Lines(s) == [s[..g] + [NEWLINE]]
  {
    hide Discard, LineLength, Lines, Before, IsLine;
    var n := LineLength(s);
    if n < |s| && n + 1 < L {
      WholeLine(s);
    } else if |s| < L - 1 {
      LastLine(s);
      assert s[..g] == s;
    } else {
      LongLine(s);
    }
  }

  lemma UpToNewline(s: seq<int>)
    requires LineLength(s) < |s|
    ensures IsLine(s[..LineLength(s) + 1])
  {
    hide LineLength;
  }

  lemma WholeLine(s: seq<int>)
    requires LineLength(s) < |s| && LineLength(s) + 1 < L
    ensures var n := LineLength(s); IsLine(s[..n + 1]) && Lines(s) == Before(s[..n + 1], Lines(s[n + 1..]))
  {
    hide Discard, LineLength, Before, IsLine;
    UpToNewline(s);
  }

  lemma LastLine(s: seq<int>)
    requires s != [] && |s| < L - 1 && LineLength(s) == |s|
    ensures IsLine(s + [NEWLINE]) && Lines(s) == [s + [NEWLINE]]
  {
    hide Discard, LineLength;
  }

  lemma LinesOfNothing()
    ensures Lines([]) == []
  {
  }

  /** A missing last newline makes no difference. */
  lemma {:induction false} LastNewlineSupplied(text: seq<int>)
    requires text != [] && !Ends(text[|text| - 1])
    ensures Lines(text) == Lines(text + [NEWLINE])
    decreases |text|
  {
    hide Lines, LineLength, Discard, IsLine;
    var whole, n := text + [NEWLINE], LineLength(text);
    if n == |text| {
      LineLengthIs(whole, n);
    } else {
      LineLengthStable(text, [NEWLINE]);
    }
    if L <= n + 1 {
      var tail := text[L - 1..];
      assert whole[L - 1..] == tail + [NEWLINE];
      DiscardBeforeNewline(tail);
      LongLine(text);
      LongLine(whole);
      if Discard(tail) != [] {
        LastNewlineSupplied(Discard(tail));
      }
    } else if n == |text| {
      LastLine(text);
      WholeLine(whole);
      LinesOfNothing();
      assert whole[..n + 1] == whole && whole[n + 1..] == [];
    } else {
      WholeLine(text);
      WholeLine(whole);
      assert whole[..n + 1] == text[..n + 1] && whole[n + 1..] == text[n + 1..] + [NEWLINE];
      LastNewlineSupplied(text[n + 1..]);
    }
  }

  /** No line longer than the buffer is read. */
  lemma {:induction false} LinesFit(s: seq<int>)
    ensures forall k :: 0 <= k < |Lines(s)| ==> |Lines(s)[k]| <= 1023
    decreases |s|
  {
    hide Lines, Discard, LineLength, IsLine;
    if s == [] {
      LinesOfNothing();
    } else if LineLength(s) < |s| && LineLength(s) + 1 < L {
      WholeLine(s);
      LinesFit(s[LineLength(s) + 1..]);
    } else if |s| < L - 1 {
      LastLine(s);
    } else {
      LongLine(s);
      LinesFit(Discard(s[L - 1..]));
    }
  }

  /** A line is read whole if and only if it has at most 1023 bytes, its newline included. */
  lemma ReadWholeIff(s: seq<int>)
    requires s != [] && s[|s| - 1] == 10 && 10 !in s[..|s| - 1]
    ensures IsLine(s) && (Lines(s) == [s] <==> |s| <= 1023)
  {
    assert forall k :: 0 <= k < |s| - 1 ==> s[k] == s[..|s| - 1][k];
    LinesFit(s);
    if |s| <= 1023 {
      assert s + [] == s;
      ShortLineKept(s, []);
      LinesOfNothing();
    }
  }

  lemma SnocThen<T>(a: seq<T>, x: T, b: seq<T>)
    ensures a + ([x] + b) == (a + [x]) + b
  {
  }

  /** `fgets`: up to L - 1 bytes, ending after a newline. */
  method Fgets(text: seq<int>, pos: nat) returns (end: nat)
    requires pos < |text|
    ensures end == pos + Got(text[pos..])
  {
    end := pos;
    while end < |text| && end - pos < L - 1
      invariant pos <= end <= |text| && end - pos <= L - 1
      invariant forall k :: pos <= k < end ==> text[k] != NEWLINE
    {
      end := end + 1;
      if text[end - 1] == NEWLINE {
        break;
      }
    }
  }

  /** The rest of a line is thrown away. */
  method SkipLine(text: seq<int>, pos: nat) returns (end: nat)
    requires pos <= |text|
    ensures pos <= end <= |text| && text[end..] == Discard(text[pos..])
  {
    end := pos;
    while end < |text|
      invariant pos <= end <= |text| && Discard(text[end..]) == Discard(text[pos..])
    {
      var c := text[end];
      assert text[end..][1..] == text[end + 1..];
      end := end + 1;
      if Ends(c) {
        return;
      }
    }
  }

  method ReadFile(text: seq<int>) returns (lines: seq<Line>)
    ensures lines == Lines(text)
  {
    hide Lines, Discard, Got, IsLine;
    assert text[0..] == text;
    LinesOfNothing();
    lines := [];
    var pos := 0;
    while pos < |text|
      invariant 0 <= pos <= |text| && Lines(text) == lines + Lines(text[pos..])
      decreases |text| - pos
    {
      ghost var s := text[pos..];
      var end := Fgets(text, pos);
      var line := text[pos..end];
      LinesStep(s, end - pos);
      assert s[..end - pos] == line && s[end - pos..] == text[end..];
      if line[|line| - 1] == NEWLINE {
        SnocThen(lines, line, Lines(text[end..]));
        lines := lines + [line];
        pos := end;
      } else if |line| == L - 1 {
        pos := SkipLine(text, end);
      } else {
        lines := lines + [line + [NEWLINE]];
        pos := end;
        assert text[pos..] == [];
      }
    }
    assert text[pos..] == [];
  }

  function AllLines(files: seq<seq<int>>): seq<Line> {
    if files == [] then [] else AllLines(files[..|files| - 1]) + Lines(files[|files| - 1])
  }

  /** `sort` from files to sorted lines. */
  method Sort(files: seq<seq<int>>, rflg: int, nlines: int, ntext: int) returns (out: seq<Line>)
    requires (rflg == 1 || rflg == -1) && 0 < nlines && 0 < ntext
    ensures multiset(out) == multiset(AllLines(files))
    ensures if rflg == 1 then Rising(out) else Falling(out)
  {
    var input: seq<Line> := [];
    for k := 0 to |files|
      invariant input == AllLines(files[..k])
    {
      var lines := ReadFile(files[k]);
      assert files[..k + 1][..k] == files[..k];
      input := input + lines;
    }
    assert files[..|files|] == files;
    out := SortText(input, rflg, nlines, ntext);
  }
}
