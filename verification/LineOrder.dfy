/** `cmpa`: whole-line comparison of newline-terminated lines, reversed by -r. */
module LineOrder {
  import opened Order
  import opened Lex
  import MergeSort

  const NEWLINE: int := 10

  /** A line: a newline at its end and nowhere else.  Characters are signed. */
  ghost predicate IsLine(s: seq<int>) {
    0 < |s| && s[|s| - 1] == NEWLINE && forall k :: 0 <= k < |s| - 1 ==> s[k] != NEWLINE
  }

  type Line = s: seq<int> | IsLine(s) witness [NEWLINE]

  /** What `cmpa` computes when its pointers have reached these tails; rflg is 1 or -1. */
  function CompareTails(a: seq<int>, b: seq<int>, rflg: int): int
    requires IsLine(a) && IsLine(b)
  {
    if a[0] == b[0] then (if a[0] == NEWLINE then 0 else CompareTails(a[1..], b[1..], rflg))
    else if a[0] == NEWLINE then rflg
    else if b[0] == NEWLINE then -rflg
    else if b[0] > a[0] then rflg
    else -rflg
  }

  method Cmpa(a: Line, b: Line, rflg: int) returns (c: int)
    ensures c == CompareTails(a, b, rflg)
  {
    var i := 0;
    while a[i] == b[i]
      invariant 0 <= i < |a| && i < |b| && IsLine(a[i..]) && IsLine(b[i..])
      invariant CompareTails(a[i..], b[i..], rflg) == CompareTails(a, b, rflg)
      decreases |a| - i
    {
      assert a[i..][1..] == a[i + 1..] && b[i..][1..] == b[i + 1..];
      if a[i] == NEWLINE {
        return 0;
      }
      i := i + 1;
    }
    c := if a[i] == NEWLINE then rflg
         else if b[i] == NEWLINE then -rflg
         else if b[i] > a[i] then rflg
         else -rflg;
  }

  /** Only identical lines compare equal. */
  lemma {:induction false} EqualOnlyIfSame(a: Line, b: Line, rflg: int)
    requires rflg != 0
    ensures CompareTails(a, b, rflg) == 0 <==> a == b
    decreases |a|
  {
    if a[0] == b[0] && a[0] != NEWLINE {
      EqualOnlyIfSame(a[1..], b[1..], rflg);
      assert a == [a[0]] + a[1..] && b == [b[0]] + b[1..];
    } else if a[0] == b[0] {
      assert |a| == 1 && |b| == 1;
    }
  }

  lemma {:induction false} Antisymmetric(a: Line, b: Line, rflg: int)
    ensures CompareTails(a, b, rflg) == -CompareTails(b, a, rflg)
    decreases |a|
  {
    if a[0] == b[0] && a[0] != NEWLINE {
      Antisymmetric(a[1..], b[1..], rflg);
    }
  }

  lemma {:induction false} Transitive(a: Line, b: Line, c: Line, rflg: int)
    requires rflg == 1 || rflg == -1
    requires CompareTails(a, b, rflg) <= 0 && CompareTails(b, c, rflg) <= 0
    ensures CompareTails(a, c, rflg) <= 0
    decreases |a|
  {
    if a[0] == b[0] && b[0] == c[0] && a[0] != NEWLINE {
      Transitive(a[1..], b[1..], c[1..], rflg);
    }
  }

  /** `cmpa` is a comparison as the sort needs it, and its classes are single lines. */
  lemma CmpaIsTotalOrder(rflg: int)
    requires rflg == 1 || rflg == -1
    ensures TotalPreorder((a: Line, b: Line) => CompareTails(a, b, rflg))
    ensures forall a: Line, b: Line :: CompareTails(a, b, rflg) == 0 <==> a == b
  {
    var cmp := (a: Line, b: Line) => CompareTails(a, b, rflg);
    forall a: Line, b: Line
      ensures CompareTails(a, b, rflg) == 0 <==> a == b
      ensures cmp(a, b) < 0 <==> cmp(b, a) > 0
    {
      EqualOnlyIfSame(a, b, rflg);
      Antisymmetric(a, b, rflg);
    }
    forall a: Line, b: Line, c: Line | cmp(a, b) <= 0 && cmp(b, c) <= 0
      ensures cmp(a, c) <= 0
    {
      Transitive(a, b, c, rflg);
    }
  }

  /** Without -r a proper prefix is the greater line: the output is written backwards. */
  lemma {:induction false} PrefixIsGreater(a: Line, b: Line)
    requires |a| < |b| && a[..|a| - 1] == b[..|a| - 1]
    ensures CompareTails(a, b, 1) == 1
    decreases |a|
  {
    if |a| > 1 {
      assert a[0] == a[..|a| - 1][0] == b[..|a| - 1][0];
      assert a[1..][..|a| - 2] == a[..|a| - 1][1..] == b[..|a| - 1][1..] == b[1..][..|a| - 2];
      PrefixIsGreater(a[1..], b[1..]);
    }
  }

  /** The line without its newline. */
  function Content(line: Line): seq<int> {
    line[..|line| - 1]
  }

  /** `cmpa` is the lexicographic order of the contents; its result is positive for the line that comes first. */
  lemma {:induction false} CmpaIsLexicographic(a: Line, b: Line)
    ensures CompareTails(a, b, 1) > 0 <==> Precedes(Content(a), Content(b))
    ensures CompareTails(a, b, 1) < 0 <==> Precedes(Content(b), Content(a))
    ensures CompareTails(a, b, -1) == -CompareTails(a, b, 1)
    decreases |a|
  {
    var x, y := Content(a), Content(b);
    if a[0] == b[0] && a[0] != NEWLINE {
      CmpaIsLexicographic(a[1..], b[1..]);
      assert x[1..] == Content(a[1..]) && y[1..] == Content(b[1..]);
      SameHead(x, y);
      SameHead(y, x);
    } else {
      OtherHead(x, y);
      OtherHead(y, x);
    }
  }

  /** The first difference decides, whatever comes after it. */
  lemma FirstDifferenceDecides(p: seq<int>, x: int, s: Line, y: int, t: Line)
    requires NEWLINE !in p && x < y && x != NEWLINE && y != NEWLINE
    ensures IsLine(p + [x] + s) && IsLine(p + [y] + t)
    ensures CompareTails(p + [x] + s, p + [y] + t, 1) == 1 && CompareTails(p + [x] + s, p + [y] + t, -1) == -1
  {
    var a, b := p + [x] + s, p + [y] + t;
    assert Content(a)[..|p|] == p == Content(b)[..|p|];
    assert FirstDifference(Content(a), Content(b), |p|);
    CmpaIsLexicographic(a, b);
    OnlyOneOrMinusOne(a, b, 1);
  }

  lemma {:induction false} OnlyOneOrMinusOne(a: Line, b: Line, rflg: int)
    ensures CompareTails(a, b, rflg) in {0, rflg, -rflg}
    decreases |a|
  {
    if a[0] == b[0] && a[0] != NEWLINE {
      OnlyOneOrMinusOne(a[1..], b[1..], rflg);
    }
  }

  /** No line comes before an earlier one. */
  ghost predicate Rising(lines: seq<Line>) {
    forall x, y :: 0 <= x < y < |lines| ==> !Precedes(Content(lines[y]), Content(lines[x]))
  }

  ghost predicate Falling(lines: seq<Line>) {
    forall x, y :: 0 <= x < y < |lines| ==> !Precedes(Content(lines[x]), Content(lines[y]))
  }

  lemma OutputOrder(out: seq<Line>, rflg: int)
    requires rflg == 1 || rflg == -1
    requires forall x, y :: 0 <= x < y < |out| ==> CompareTails(out[x], out[y], rflg) >= 0
    ensures if rflg == 1 then Rising(out) else Falling(out)
  {
    forall x, y | 0 <= x < y < |out|
      ensures rflg == 1 ==> !Precedes(Content(out[y]), Content(out[x]))
      ensures rflg == -1 ==> !Precedes(Content(out[x]), Content(out[y]))
    {
      CmpaIsLexicographic(out[x], out[y]);
    }
  }

  /** `sort` and `sort -r` on whole lines. */
  method SortText(input: seq<Line>, rflg: int, nlines: int, ntext: int) returns (out: seq<Line>)
    requires (rflg == 1 || rflg == -1) && 0 < nlines && 0 < ntext
    ensures multiset(out) == multiset(input)
    ensures forall x, y :: 0 <= x < y < |out| ==> CompareTails(out[x], out[y], rflg) >= 0
    ensures if rflg == 1 then Rising(out) else Falling(out)
  {
    CmpaIsTotalOrder(rflg);
    out := MergeSort.SortAll(input, (a: Line, b: Line) => CompareTails(a, b, rflg), nlines, ntext,
                             (line: Line) => |line| + 1);
    OutputOrder(out, rflg);
  }
}
