/** `join` from the text of its files to its output items: lines are read into a buffer and split, then merged. */
module JoinText {
  import opened Join
  import opened JoinFields

  const BUFSIZ: nat := 1024

  ghost predicate IsBytes(s: seq<int>) {
    forall k :: 0 <= k < |s| ==> 0 < s[k] < 256
  }

  /** Lines that fit the buffer and end in a newline or a separator. */
  ghost predicate IsText(q: Separators, text: seq<seq<int>>) {
    forall k :: 0 <= k < |text| ==> Gets(text[k]) && Closed(q, text[k]) && |text[k]| < BUFSIZ && IsBytes(text[k])
  }

  lemma {:induction false} FieldsAreBytes(q: Separators, s: seq<int>, f: nat)
    requires IsBytes(s) && f < |Fields(q, s)|
    ensures IsBytes(Fields(q, s)[f])
    decreases |s|
  {
    SkipIsSuffix(q, s);
    var t := Skip(q, s);
    var n := WordLength(q, t);
    if 0 < f {
      FieldsAreBytes(q, if n < |t| then t[n + 1..] else [], f - 1);
    }
  }

  lemma {:induction false} SkipIsSuffix(q: Separators, s: seq<int>)
    requires IsBytes(s)
    ensures IsBytes(Skip(q, s))
  {
    if q.Strips() && s != [] && q.Has(s[0]) {
      SkipIsSuffix(q, s[1..]);
    }
  }

  /** The line as the merge sees it. */
  ghost function LineOf(q: Separators, s: seq<int>): Line
    requires IsBytes(s)
  {
    Line(FieldsOf(q, s))
  }

  ghost function FieldsOf(q: Separators, s: seq<int>): (r: seq<Field>)
    requires IsBytes(s)
    ensures r == Fields(q, s)
  {
    assert forall f :: 0 <= f < |Fields(q, s)| ==> IsBytes(Fields(q, s)[f]) by {
      forall f | 0 <= f < |Fields(q, s)|
        ensures IsBytes(Fields(q, s)[f])
      {
        FieldsAreBytes(q, s, f);
      }
    }
    Fields(q, s)
  }

  ghost function LinesOf(q: Separators, text: seq<seq<int>>): (lines: seq<Line>)
    requires IsText(q, text)
    ensures |lines| == |text| && forall k :: 0 <= k < |text| ==> lines[k] == LineOf(q, text[k])
  {
    if text == [] then []
    else LinesOf(q, text[..|text| - 1]) + [LineOf(q, text[|text| - 1])]
  }

  /** `fgets`: the line and a zero; what was in the buffer behind them stays. */
  method Gets1(buf: array<int>, line: seq<int>)
    requires |line| < buf.Length
    modifies buf
    ensures buf[..] == line + [0] + old(buf[|line| + 1..])
  {
    for k := 0 to |line|
      invariant buf[..k] == line[..k] && buf[k..] == old(buf[k..])
    {
      buf[k] := line[k];
    }
    buf[|line|] := 0;
  }

  /** The C string at p. */
  method StringFrom(buf: array<int>, p: nat, ghost field: seq<int>) returns (s: Field)
    requires StringAt(buf[..], p, field) && IsBytes(field)
    ensures s == field
  {
    assert forall k :: p <= k < p + |field| ==> buf[k] == buf[..][p..p + |field|][k - p];
    var e := p;
    while buf[e] != 0
      invariant p <= e <= p + |field|
      invariant forall k :: p <= k < p + |field| ==> buf[k] == field[k - p]
      decreases p + |field| - e
    {
      e := e + 1;
    }
    s := buf[p..e];
  }

  /** `input`: one line into the buffer and apart. */
  method ReadLine(q: Separators, buf: array<int>, line: seq<int>) returns (r: Line)
    requires q.Legal() && Gets(line) && Closed(q, line) && IsBytes(line) && |line| < buf.Length
    modifies buf
    ensures r == LineOf(q, line)
  {
    hide Fields, Gets, Closed, EndsAtOnce, Strings;
    ghost var stale := buf[|line| + 1..];
    Gets1(buf, line);
    var ok, starts := SplitLine(q, buf, line, stale);
    var fields := Collect(q, buf, starts, line);
    r := Line(fields);
  }

  method Collect(q: Separators, buf: array<int>, starts: seq<nat>, ghost line: seq<int>) returns (fields: seq<Field>)
    requires IsBytes(line) && Strings(buf[..], starts, Fields(q, line))
    ensures fields == FieldsOf(q, line)
  {
    ghost var all := FieldsOf(q, line);
    fields := [];
    for f := 0 to |starts|
      invariant fields == all[..f]
    {
      FieldsAreBytes(q, line, f);
      var s := StringFrom(buf, starts[f], all[f]);
      fields := fields + [s];
    }
  }

  method ReadFile(q: Separators, buf: array<int>, text: seq<seq<int>>) returns (lines: seq<Line>)
    requires q.Legal() && IsText(q, text) && buf.Length == BUFSIZ
    modifies buf
    ensures lines == LinesOf(q, text)
  {
    lines := [];
    for k := 0 to |text|
      invariant |lines| == k && forall i :: 0 <= i < k ==> lines[i] == LineOf(q, text[i])
    {
      var line := ReadLine(q, buf, text[k]);
      lines := lines + [line];
    }
  }

  /** Two sorted texts, joined: the nested-loop join of their fields, and each unpaired line once. */
  method JoinTexts(q: Separators, text1: seq<seq<int>>, f1: nat, text2: seq<seq<int>>, f2: nat, a: Flags)
      returns (out: seq<Item>)
    requires q.Legal() && IsText(q, text1) && IsText(q, text2)
    requires ByteSorted(LinesOf(q, text1), f1) && ByteSorted(LinesOf(q, text2), f2)
    ensures Pairs(out) == NestedLoop(LinesOf(q, text1), f1, LinesOf(q, text2), f2)
    ensures Lefts(out) == if a.a1 then Unpaired(LinesOf(q, text1), f1, LinesOf(q, text2), f2) else []
    ensures Rights(out) == if a.a2 then Unpaired(LinesOf(q, text2), f2, LinesOf(q, text1), f1) else []
    ensures InByteOrder(Input(LinesOf(q, text1), f1, LinesOf(q, text2), f2), out)
  {
    hide NestedLoop, Unpaired, ByteSorted, InByteOrder, Pairs, Lefts, Rights, LinesOf, IsText;
    var buf1, buf2 := new int[BUFSIZ], new int[BUFSIZ];
    var file1 := ReadFile(q, buf1, text1);
    var file2 := ReadFile(q, buf2, text2);
    out := JoinFiles(Input(file1, f1, file2, f2), a);
  }
}
