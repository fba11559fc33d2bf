/**
 `join`: the merge of two sorted files on a field.  When a group of lines of the second file
 matches, the file is rewound to the start of the group for every further matching line of
 the first file.
 */
module Join {
  import opened Lex

  /** A byte of a field; a field is a C string, so there is no zero among its bytes. */
  type Byte = b: int | 0 < b < 256 witness 1
  type Field = seq<Byte>

  /** An input line, split into fields. */
  datatype Line = Line(fields: seq<Field>)

  /** What `output` prints: a joined pair, or an unpaired line of either file. */
  datatype Item = Pair(left: Line, right: Line) | Left(line: Line) | Right(line: Line)

  // ----- The order of keys

  /** `strcmp`. */
  function Compare(a: Field, b: Field): int {
    if a == [] && b == [] then 0
    else if a == [] then -b[0]
    else if b == [] then a[0]
    else if a[0] != b[0] then a[0] - b[0]
    else Compare(a[1..], b[1..])
  }

  lemma {:induction false} CompareIsAntisymmetric(a: Field, b: Field)
    ensures Compare(a, b) == -Compare(b, a)
    ensures Compare(a, b) == 0 <==> a == b
    decreases |a|
  {
    if a != [] && b != [] {
      CompareIsAntisymmetric(a[1..], b[1..]);
      assert a == [a[0]] + a[1..] && b == [b[0]] + b[1..];
    }
  }

  lemma {:induction false} CompareIsTransitive(a: Field, b: Field, c: Field)
    ensures Compare(a, b) <= 0 && Compare(b, c) <= 0 ==> Compare(a, c) <= 0
    ensures Compare(a, b) <= 0 && Compare(b, c) < 0 ==> Compare(a, c) < 0
    ensures Compare(a, b) < 0 && Compare(b, c) <= 0 ==> Compare(a, c) < 0
    decreases |a|
  {
    if a != [] && b != [] && c != [] {
      CompareIsTransitive(a[1..], b[1..], c[1..]);
    }
  }

  /** `strcmp` is the order by byte values: the first difference decides, and a prefix comes first. */
  lemma {:induction false} CompareIsByteOrder(a: Field, b: Field)
    ensures Compare(a, b) < 0 <==> Precedes(a, b)
    decreases |a|
  {
    if a != [] && b != [] && a[0] == b[0] {
      CompareIsByteOrder(a[1..], b[1..]);
      SameHead(a, b);
    } else {
      OtherHead(a, b);
    }
  }

  lemma FirstDifferenceDecides(p: Field, x: Byte, s: Field, y: Byte, t: Field)
    requires x != y
    ensures Compare(p + [x] + s, p + [y] + t) < 0 <==> x < y
    ensures s != [] ==> Compare(p, p + s) < 0
  {
    var a, b := p + [x] + s, p + [y] + t;
    assert a[..|p|] == p == b[..|p|] && (p + s)[..|p|] == p;
    assert x < y ==> FirstDifference(a, b, |p|);
    assert y < x ==> FirstDifference(b, a, |p|);
    assert s != [] ==> FirstDifference(p, p + s, |p|);
    CompareIsByteOrder(a, b);
    CompareIsByteOrder(b, a);
    CompareIsByteOrder(p, p + s);
    CompareIsAntisymmetric(a, b);
  }

  // ----- The nested-loop join

  /** Every line has the join field f. */
  ghost predicate Joinable(file: seq<Line>, f: nat) {
    forall k :: 0 <= k < |file| ==> f < |file[k].fields|
  }

  /** The keys never fall. */
  ghost predicate Sorted(file: seq<Line>, f: nat) {
    Joinable(file, f) &&
    forall a, b :: 0 <= a <= b < |file| ==> Compare(file[a].fields[f], file[b].fields[f]) <= 0
  }

  /** Sorted by the byte values of the join field: no key comes before an earlier one. */
  ghost predicate ByteSorted(file: seq<Line>, f: nat) {
    Joinable(file, f) && forall a, b :: 0 <= a < b < |file| ==> !Precedes(file[b].fields[f], file[a].fields[f])
  }

  lemma SortedIsByteSorted(file: seq<Line>, f: nat)
    ensures Sorted(file, f) <==> ByteSorted(file, f)
  {
    if Joinable(file, f) {
      forall a, b | 0 <= a <= b < |file|
        ensures Compare(file[a].fields[f], file[b].fields[f]) <= 0 <==>
                a == b || !Precedes(file[b].fields[f], file[a].fields[f])
      {
        CompareIsAntisymmetric(file[a].fields[f], file[b].fields[f]);
        CompareIsByteOrder(file[b].fields[f], file[a].fields[f]);
      }
    }
  }

  /** The pairs of one line of the first file with lines of the second, in order. */
  ghost function Row(line: Line, key: Field, file2: seq<Line>, f2: nat): seq<Item>
    requires Joinable(file2, f2)
  {
    if file2 == [] then []
    else
      var last := file2[|file2| - 1];
      Row(line, key, file2[..|file2| - 1], f2) + if Compare(key, last.fields[f2]) == 0 then [Pair(line, last)] else []
  }

  ghost function NestedLoop(file1: seq<Line>, f1: nat, file2: seq<Line>, f2: nat): seq<Item>
    requires Joinable(file1, f1) && Joinable(file2, f2)
  {
    if file1 == [] then []
    else
      var last := file1[|file1| - 1];
      NestedLoop(file1[..|file1| - 1], f1, file2, f2) + Row(last, last.fields[f1], file2, f2)
  }

  /** Some line of the file has the key. */
  ghost predicate Has(file: seq<Line>, f: nat, key: Field)
    requires Joinable(file, f)
  {
    exists k :: 0 <= k < |file| && Compare(file[k].fields[f], key) == 0
  }

  /** The lines of a file whose key is not in the other, in order. */
  ghost function Unpaired(file: seq<Line>, f: nat, other: seq<Line>, g: nat): seq<Line>
    requires Joinable(file, f) && Joinable(other, g)
  {
    if file == [] then []
    else
      var last := file[|file| - 1];
      Unpaired(file[..|file| - 1], f, other, g) + if Has(other, g, last.fields[f]) then [] else [last]
  }

  lemma LastOrBefore<T>(s: seq<T>, x: T)
    requires s != []
    ensures x in s <==> x in s[..|s| - 1] || x == s[|s| - 1]
  {
    assert s == s[..|s| - 1] + [s[|s| - 1]];
  }

  lemma {:induction false} RowHolds(line: Line, key: Field, file2: seq<Line>, f2: nat, x: Item)
    requires Joinable(file2, f2)
    ensures x in Row(line, key, file2, f2) <==>
            x.Pair? && x.left == line && x.right in file2 && x.right.fields[f2] == key
    decreases |file2|
  {
    if file2 != [] {
      var last := file2[|file2| - 1];
      RowHolds(line, key, file2[..|file2| - 1], f2, x);
      CompareIsAntisymmetric(key, last.fields[f2]);
      if x.Pair? {
        LastOrBefore(file2, x.right);
      }
    }
  }

  /** The pairs of the nested loop are the pairs of lines with equal join fields. */
  lemma {:induction false} PairsAreEqualKeys(file1: seq<Line>, f1: nat, file2: seq<Line>, f2: nat, x: Item)
    requires Joinable(file1, f1) && Joinable(file2, f2)
    ensures x in NestedLoop(file1, f1, file2, f2) <==>
            x.Pair? && x.left in file1 && x.right in file2 && x.left.fields[f1] == x.right.fields[f2]
    decreases |file1|
  {
    if file1 != [] {
      var last := file1[|file1| - 1];
      PairsAreEqualKeys(file1[..|file1| - 1], f1, file2, f2, x);
      RowHolds(last, last.fields[f1], file2, f2, x);
      if x.Pair? {
        LastOrBefore(file1, x.left);
      }
    }
  }

  /** A line is unpaired if no line of the other file has its key. */
  lemma {:induction false} UnpairedHaveNoPartner(file: seq<Line>, f: nat, other: seq<Line>, g: nat, line: Line)
    requires Joinable(file, f) && Joinable(other, g)
    ensures line in Unpaired(file, f, other, g) <==>
            line in file && forall k :: 0 <= k < |other| ==> other[k].fields[g] != line.fields[f]
    decreases |file|
  {
    if file != [] {
      var last := file[|file| - 1];
      UnpairedHaveNoPartner(file[..|file| - 1], f, other, g, line);
      LastOrBefore(file, line);
      forall k | 0 <= k < |other|
        ensures Compare(other[k].fields[g], last.fields[f]) == 0 <==> other[k].fields[g] == last.fields[f]
      {
        CompareIsAntisymmetric(other[k].fields[g], last.fields[f]);
      }
    }
  }

  // ----- Reading the output

  ghost function Pairs(out: seq<Item>): seq<Item> {
    if out == [] then []
    else
      var last := out[|out| - 1];
      Pairs(out[..|out| - 1]) + if last.Pair? then [last] else []
  }

  ghost function Lefts(out: seq<Item>): seq<Line> {
    if out == [] then []
    else
      var last := out[|out| - 1];
      Lefts(out[..|out| - 1]) + if last.Left? then [last.line] else []
  }

  ghost function Rights(out: seq<Item>): seq<Line> {
    if out == [] then []
    else
      var last := out[|out| - 1];
      Rights(out[..|out| - 1]) + if last.Right? then [last.line] else []
  }

  lemma Appended(out: seq<Item>, x: Item)
    ensures x.Pair? ==>
              Pairs(out + [x]) == Pairs(out) + [x] && Lefts(out + [x]) == Lefts(out) &&
              Rights(out + [x]) == Rights(out)
    ensures x.Left? ==>
              Pairs(out + [x]) == Pairs(out) && Lefts(out + [x]) == Lefts(out) + [x.line] &&
              Rights(out + [x]) == Rights(out)
    ensures x.Right? ==>
              Pairs(out + [x]) == Pairs(out) && Lefts(out + [x]) == Lefts(out) &&
              Rights(out + [x]) == Rights(out) + [x.line]
  {
    assert (out + [x])[..|out|] == out;
  }

  // ----- The merge

  /** Two files and the places of their join fields. */
  datatype Input = Input(file1: seq<Line>, f1: nat, file2: seq<Line>, f2: nat) {

    ghost predicate Ready() {
      Sorted(file1, f1) && Sorted(file2, f2)
    }

    ghost function Key1(a: nat): Field
      requires Ready() && a < |file1|
    {
      file1[a].fields[f1]
    }

    ghost function Key2(b: nat): Field
      requires Ready() && b < |file2|
    {
      file2[b].fields[f2]
    }

    /** Lines of file 1 before i are below lines of file 2 from j on, and the other way round. */
    ghost predicate Cut(i: nat, j: nat)
      requires Ready()
    {
      i <= |file1| && j <= |file2| &&
      (forall a: nat, b: nat :: a < i && j <= b < |file2| ==> Compare(Key1(a), Key2(b)) < 0) &&
      (forall a: nat, b: nat :: i <= a < |file1| && b < j ==> Compare(Key2(b), Key1(a)) < 0)
    }

    /** The lines j..top of file 2 are those with the key. */
    ghost predicate Group(key: Field, j: nat, top: nat)
      requires Ready()
    {
      j < top <= |file2| &&
      (forall b: nat :: b < j ==> Compare(Key2(b), key) < 0) &&
      (forall b: nat :: j <= b < top ==> Key2(b) == key) &&
      (forall b: nat :: top <= b < |file2| ==> Compare(key, Key2(b)) < 0)
    }

    /** The rows of the first i lines of file 1. */
    ghost function Rows(i: nat): seq<Item>
      requires Ready() && i <= |file1|
    {
      NestedLoop(file1[..i], f1, file2, f2)
    }

    /** The part of row i made with the first b lines of file 2. */
    ghost function PartRow(i: nat, b: nat): seq<Item>
      requires Ready() && i < |file1| && b <= |file2|
    {
      Row(file1[i], Key1(i), file2[..b], f2)
    }

    ghost function Unpaired1(i: nat): seq<Line>
      requires Ready() && i <= |file1|
    {
      Unpaired(file1[..i], f1, file2, f2)
    }

    ghost function Unpaired2(j: nat): seq<Line>
      requires Ready() && j <= |file2|
    {
      Unpaired(file2[..j], f2, file1, f1)
    }

    lemma RowsStep(i: nat)
      requires Ready() && i < |file1|
      ensures Rows(i + 1) == Rows(i) + PartRow(i, |file2|)
      ensures PartRow(i, |file2|) == [] ==> Rows(i + 1) == Rows(i)
      ensures Has(file2, f2, Key1(i)) ==> Unpaired1(i + 1) == Unpaired1(i)
      ensures !Has(file2, f2, Key1(i)) ==> Unpaired1(i + 1) == Unpaired1(i) + [file1[i]]
    {
      hide Row, Has, Sorted;
      assert file1[..i + 1][..i] == file1[..i];
      assert file2[..|file2|] == file2;
    }

    lemma Unpaired2Step(j: nat)
      requires Ready() && j < |file2|
      ensures Has(file1, f1, Key2(j)) ==> Unpaired2(j + 1) == Unpaired2(j)
      ensures !Has(file1, f1, Key2(j)) ==> Unpaired2(j + 1) == Unpaired2(j) + [file2[j]]
    {
      hide Has, Sorted;
      assert file2[..j + 1][..j] == file2[..j];
    }

    lemma PartRowStep(i: nat, b: nat)
      requires Ready() && i < |file1| && b < |file2|
      ensures Key1(i) == Key2(b) ==> PartRow(i, b + 1) == PartRow(i, b) + [Pair(file1[i], file2[b])]
      ensures Key1(i) != Key2(b) ==> PartRow(i, b + 1) == PartRow(i, b)
    {
      hide Sorted;
      assert file2[..b + 1][..b] == file2[..b];
      CompareIsAntisymmetric(Key1(i), Key2(b));
    }

    /** Lines of file 2 with other keys add nothing to a row. */
    lemma {:induction false} NoPairs(i: nat, b: nat, c: nat)
      requires Ready() && i < |file1| && b <= c <= |file2|
      requires forall k: nat :: b <= k < c ==> Key2(k) != Key1(i)
      ensures PartRow(i, c) == PartRow(i, b)
      decreases c
    {
      hide PartRow;
      if b < c {
        NoPairs(i, b, c - 1);
        PartRowStep(i, c - 1);
      }
    }

    lemma EmptyRow(i: nat)
      requires Ready() && i < |file1|
      ensures PartRow(i, 0) == []
    {
    }

    lemma Different(a: Field, b: Field)
      ensures Compare(a, b) < 0 ==> a != b && Compare(b, a) > 0
      ensures Compare(a, b) > 0 ==> a != b && Compare(b, a) < 0
      ensures Compare(a, b) == 0 <==> a == b
    {
      CompareIsAntisymmetric(a, b);
    }

    /** A row before the group's first line is empty, and after its last it is complete. */
    lemma RowOfGroup(i: nat, j: nat, top: nat)
      requires Ready() && i < |file1| && Group(Key1(i), j, top)
      ensures PartRow(i, j) == [] && PartRow(i, |file2|) == PartRow(i, top)
      ensures Has(file2, f2, Key1(i))
    {
      forall k: nat | k < j || top <= k < |file2|
        ensures Key2(k) != Key1(i)
      {
        Different(Key2(k), Key1(i));
      }
      NoPairs(i, 0, j);
      EmptyRow(i);
      NoPairs(i, top, |file2|);
      Different(Key2(j), Key1(i));
      assert Compare(file2[j].fields[f2], Key1(i)) == 0;
    }

    /** A line of file 1 that falls between lines of file 2. */
    lemma UnpairedRow(i: nat, j: nat)
      requires Ready() && i < |file1| && j <= |file2| && Cut(i, j)
      requires j < |file2| ==> Compare(Key1(i), Key2(j)) < 0
      ensures PartRow(i, |file2|) == [] && !Has(file2, f2, Key1(i))
    {
      forall b: nat | b < |file2|
        ensures Key2(b) != Key1(i) && Compare(file2[b].fields[f2], Key1(i)) != 0
      {
        Different(Key2(b), Key1(i));
        if j <= b {
          CompareIsTransitive(Key1(i), Key2(j), Key2(b));
          Different(Key1(i), Key2(b));
        }
      }
      NoPairs(i, 0, |file2|);
      EmptyRow(i);
    }

    /** A line of file 2 that falls between lines of file 1. */
    lemma UnpairedLine(i: nat, j: nat)
      requires Ready() && i <= |file1| && j < |file2| && Cut(i, j)
      requires i < |file1| ==> Compare(Key1(i), Key2(j)) > 0
      ensures !Has(file1, f1, Key2(j))
    {
      forall a: nat | a < |file1|
        ensures Compare(file1[a].fields[f1], Key2(j)) != 0
      {
        if i <= a {
          Different(Key1(i), Key2(j));
          CompareIsTransitive(Key2(j), Key1(i), Key1(a));
          Different(Key2(j), Key1(a));
        } else {
          assert Compare(Key1(a), Key2(j)) < 0;
        }
      }
    }

    // ----- Moving the cut

    lemma CutPastLine2(i: nat, j: nat)
      requires Ready() && Cut(i, j) && j < |file2|
      requires i < |file1| ==> Compare(Key1(i), Key2(j)) > 0
      ensures Cut(i, j + 1)
    {
      forall a: nat | i <= a < |file1|
        ensures Compare(Key2(j), Key1(a)) < 0
      {
        Different(Key1(i), Key2(j));
        CompareIsTransitive(Key2(j), Key1(i), Key1(a));
      }
    }

    lemma CutPastLine1(i: nat, j: nat)
      requires Ready() && Cut(i, j) && i < |file1|
      requires j < |file2| ==> Compare(Key1(i), Key2(j)) < 0
      ensures Cut(i + 1, j)
    {
      forall b: nat | j <= b < |file2|
        ensures Compare(Key1(i), Key2(b)) < 0
      {
        CompareIsTransitive(Key1(i), Key2(j), Key2(b));
      }
    }

    lemma CutPastGroup(i: nat, j: nat, top: nat)
      requires Ready() && 0 < i <= |file1| && Group(Key1(i - 1), j, top)
      requires i < |file1| ==> Compare(Key1(i), Key1(i - 1)) > 0
      ensures Cut(i, top)
    {
      var key := Key1(i - 1);
      forall a: nat, b: nat | a < i && top <= b < |file2|
        ensures Compare(Key1(a), Key2(b)) < 0
      {
        CompareIsTransitive(Key1(a), key, Key2(b));
      }
      forall a: nat, b: nat | i <= a < |file1| && b < top
        ensures Compare(Key2(b), Key1(a)) < 0
      {
        Different(Key1(i), key);
        CompareIsTransitive(key, Key1(i), Key1(a));
        Different(key, key);
        CompareIsTransitive(Key2(b), key, Key1(a));
      }
    }

    /** The group that starts at line j, once its end is found. */
    lemma GroupFound(i: nat, j: nat, top: nat)
      requires Ready() && Cut(i, j) && i < |file1| && j < top <= |file2|
      requires forall b: nat :: j <= b < top ==> Key2(b) == Key1(i)
      requires top < |file2| ==> Compare(Key1(i), Key2(top)) != 0
      ensures Group(Key1(i), j, top)
    {
      forall b: nat | top <= b < |file2|
        ensures Compare(Key1(i), Key2(b)) < 0
      {
        assert Key2(top - 1) == Key1(i) && Compare(Key2(top - 1), Key2(top)) <= 0;
        CompareIsTransitive(Key1(i), Key2(top), Key2(b));
      }
    }

    lemma RowStarts(i: nat, j: nat)
      requires Ready() && Cut(i, j) && i < |file1|
      ensures PartRow(i, j) == [] && Rows(i) + PartRow(i, j) == Rows(i)
    {
      forall k: nat | k < j
        ensures Key2(k) != Key1(i)
      {
        Different(Key2(k), Key1(i));
      }
      NoPairs(i, 0, j);
      EmptyRow(i);
    }

    /** Lines of file 2 in a group that file 1 has are paired. */
    lemma {:induction false} GroupIsPaired(i: nat, j: nat, b: nat)
      requires Ready() && i < |file1| && j <= b <= |file2|
      requires forall k: nat :: j <= k < b ==> Key2(k) == Key1(i)
      ensures Unpaired2(b) == Unpaired2(j)
      decreases b
    {
      hide Unpaired2;
      if j < b {
        GroupIsPaired(i, j, b - 1);
        Unpaired2Step(b - 1);
        Different(Key1(i), Key2(b - 1));
        assert Compare(file1[i].fields[f1], Key2(b - 1)) == 0;
      }
    }

    /** Once file 2 is used up the remaining rows are empty. */
    lemma {:induction false} NoMoreRows(i: nat, c: nat)
      requires Ready() && Cut(i, |file2|) && i <= c <= |file1|
      ensures Rows(c) == Rows(i)
      decreases c
    {
      hide Rows, PartRow, Unpaired1, Has, Sorted;
      if i < c {
        NoMoreRows(i, c - 1);
        RowsStep(c - 1);
        forall b: nat | b < |file2|
          ensures Key2(b) != Key1(c - 1)
        {
          Different(Key2(b), Key1(c - 1));
        }
        NoPairs(c - 1, 0, |file2|);
        EmptyRow(c - 1);
      }
    }
  }

  // ----- The order of the output

  /** The key under which an item is printed. */
  ghost function KeyOf(p: Input, x: Item): Field {
    var line := if x.Pair? then x.left else x.line;
    var f := if x.Right? then p.f2 else p.f1;
    if f < |line.fields| then line.fields[f] else []
  }

  ghost predicate Rising(p: Input, out: seq<Item>) {
    forall x, y :: 0 <= x < y < |out| ==> Compare(KeyOf(p, out[x]), KeyOf(p, out[y])) <= 0
  }

  ghost predicate UpTo(p: Input, out: seq<Item>, key: Field) {
    forall x :: 0 <= x < |out| ==> Compare(KeyOf(p, out[x]), key) <= 0
  }

  lemma RaiseBound(p: Input, out: seq<Item>, key: Field, more: Field)
    requires UpTo(p, out, key) && Compare(key, more) <= 0
    ensures UpTo(p, out, more)
  {
    forall x | 0 <= x < |out|
      ensures Compare(KeyOf(p, out[x]), more) <= 0
    {
      CompareIsTransitive(KeyOf(p, out[x]), key, more);
    }
  }

  /** No item is printed after one with a greater key. */
  ghost predicate InByteOrder(p: Input, out: seq<Item>) {
    forall x, y :: 0 <= x < y < |out| ==> !Precedes(KeyOf(p, out[y]), KeyOf(p, out[x]))
  }

  lemma RisingIsByteOrder(p: Input, out: seq<Item>)
    requires Rising(p, out)
    ensures InByteOrder(p, out)
  {
    forall x, y | 0 <= x < y < |out|
      ensures !Precedes(KeyOf(p, out[y]), KeyOf(p, out[x]))
    {
      CompareIsAntisymmetric(KeyOf(p, out[x]), KeyOf(p, out[y]));
      CompareIsByteOrder(KeyOf(p, out[y]), KeyOf(p, out[x]));
    }
  }

  lemma AppendRising(p: Input, out: seq<Item>, x: Item)
    requires Rising(p, out) && UpTo(p, out, KeyOf(p, x))
    ensures Rising(p, out + [x]) && UpTo(p, out + [x], KeyOf(p, x))
  {
    hide KeyOf;
    CompareIsAntisymmetric(KeyOf(p, x), KeyOf(p, x));
  }

  // ----- What has been printed

  datatype Flags = Flags(a1: bool, a2: bool)

  /** The pairs, and the unpaired lines that were asked for, in the order of their keys. */
  ghost predicate Printed(p: Input, a: Flags, out: seq<Item>, i: nat, j: nat, pairs: seq<Item>)
    requires p.Ready() && i <= |p.file1| && j <= |p.file2|
  {
    Pairs(out) == pairs &&
    Lefts(out) == (if a.a1 then p.Unpaired1(i) else []) &&
    Rights(out) == (if a.a2 then p.Unpaired2(j) else []) &&
    Rising(p, out)
  }

  /** No key printed so far is above the next line of either file. */
  ghost predicate BelowNext(p: Input, out: seq<Item>, i: nat, j: nat)
    requires p.Ready()
  {
    (i < |p.file1| ==> UpTo(p, out, p.Key1(i))) && (j < |p.file2| ==> UpTo(p, out, p.Key2(j)))
  }

  /** The invariant of the outer loop. */
  ghost predicate Settled(p: Input, a: Flags, out: seq<Item>, i: nat, j: nat)
    requires p.Ready()
  {
    p.Cut(i, j) && Printed(p, a, out, i, j, p.Rows(i)) && BelowNext(p, out, i, j)
  }

  lemma KeyOfPair(p: Input, i: nat, j: nat)
    requires p.Ready() && i < |p.file1| && j < |p.file2|
    ensures KeyOf(p, Pair(p.file1[i], p.file2[j])) == p.Key1(i)
  {
  }

  lemma KeyOfLeft(p: Input, i: nat)
    requires p.Ready() && i < |p.file1|
    ensures KeyOf(p, Left(p.file1[i])) == p.Key1(i)
  {
  }

  lemma KeyOfRight(p: Input, j: nat)
    requires p.Ready() && j < |p.file2|
    ensures KeyOf(p, Right(p.file2[j])) == p.Key2(j)
  {
  }

  lemma NextKeys(p: Input, i: nat, j: nat)
    requires p.Ready()
    ensures i + 1 < |p.file1| ==> Compare(p.Key1(i), p.Key1(i + 1)) <= 0
    ensures j + 1 < |p.file2| ==> Compare(p.Key2(j), p.Key2(j + 1)) <= 0
  {
  }

  lemma BelowAfterLine2(p: Input, out: seq<Item>, i: nat, j: nat)
    requires p.Ready() && j < |p.file2| && UpTo(p, out, p.Key2(j))
    requires i < |p.file1| ==> Compare(p.Key1(i), p.Key2(j)) > 0
    ensures BelowNext(p, out, i, j + 1)
  {
    NextKeys(p, i, j);
    hide Sorted, UpTo, Compare;
    if i < |p.file1| {
      p.Different(p.Key1(i), p.Key2(j));
      RaiseBound(p, out, p.Key2(j), p.Key1(i));
    }
    if j + 1 < |p.file2| {
      RaiseBound(p, out, p.Key2(j), p.Key2(j + 1));
    }
  }

  lemma BelowAfterLine1(p: Input, out: seq<Item>, i: nat, j: nat)
    requires p.Ready() && i < |p.file1| && UpTo(p, out, p.Key1(i))
    requires j < |p.file2| ==> Compare(p.Key1(i), p.Key2(j)) <= 0
    ensures BelowNext(p, out, i + 1, j)
  {
    NextKeys(p, i, j);
    hide Sorted, UpTo, Compare;
    if j < |p.file2| {
      RaiseBound(p, out, p.Key1(i), p.Key2(j));
    }
    if i + 1 < |p.file1| {
      RaiseBound(p, out, p.Key1(i), p.Key1(i + 1));
    }
  }

  lemma PrintPair(p: Input, a: Flags, out: seq<Item>, i: nat, j: nat, pairs: seq<Item>, x: Item)
    requires p.Ready() && i <= |p.file1| && j <= |p.file2|
    requires Printed(p, a, out, i, j, pairs) && UpTo(p, out, KeyOf(p, x)) && x.Pair?
    ensures Printed(p, a, out + [x], i, j, pairs + [x]) && UpTo(p, out + [x], KeyOf(p, x))
  {
    hide Input.Unpaired1, Input.Unpaired2, Input.Ready, Rising, UpTo, KeyOf, Pairs, Lefts, Rights;
    Appended(out, x);
    AppendRising(p, out, x);
  }

  lemma PrintLeft(p: Input, a: Flags, out: seq<Item>, i: nat, j: nat, pairs: seq<Item>, x: Item)
    requires p.Ready() && i < |p.file1| && j <= |p.file2|
    requires Printed(p, a, out, i, j, pairs) && UpTo(p, out, KeyOf(p, x))
    requires x == Left(p.file1[i]) && a.a1 && p.Unpaired1(i + 1) == p.Unpaired1(i) + [p.file1[i]]
    ensures Printed(p, a, out + [x], i + 1, j, pairs) && UpTo(p, out + [x], KeyOf(p, x))
  {
    hide Input.Unpaired1, Input.Unpaired2, Input.Ready, Rising, UpTo, KeyOf, Pairs, Lefts, Rights;
    Appended(out, x);
    AppendRising(p, out, x);
  }

  lemma PrintRight(p: Input, a: Flags, out: seq<Item>, i: nat, j: nat, pairs: seq<Item>, x: Item)
    requires p.Ready() && i <= |p.file1| && j < |p.file2|
    requires Printed(p, a, out, i, j, pairs) && UpTo(p, out, KeyOf(p, x))
    requires x == Right(p.file2[j]) && a.a2 && p.Unpaired2(j + 1) == p.Unpaired2(j) + [p.file2[j]]
    ensures Printed(p, a, out + [x], i, j + 1, pairs) && UpTo(p, out + [x], KeyOf(p, x))
  {
    hide Input.Unpaired1, Input.Unpaired2, Input.Ready, Rising, UpTo, KeyOf, Pairs, Lefts, Rights;
    Appended(out, x);
    AppendRising(p, out, x);
  }

  /** Line j of file 2 has no partner and is printed if -a2 was given. */
  lemma SettleLine2(p: Input, a: Flags, out: seq<Item>, i: nat, j: nat, out': seq<Item>)
    requires p.Ready() && Settled(p, a, out, i, j) && j < |p.file2|
    requires i < |p.file1| ==> Compare(p.Key1(i), p.Key2(j)) > 0
    requires out' == if a.a2 then out + [Right(p.file2[j])] else out
    ensures Settled(p, a, out', i, j + 1)
  {
    p.CutPastLine2(i, j);
    p.UnpairedLine(i, j);
    p.Unpaired2Step(j);
    KeyOfRight(p, j);
    hide Input.Cut, Input.Unpaired2, Input.Unpaired1, Input.Rows, Has, Rising, UpTo, KeyOf, Compare, Sorted;
    hide Pairs, Lefts, Rights, Input.Key1, Input.Key2;
    if a.a2 {
      PrintRight(p, a, out, i, j, p.Rows(i), Right(p.file2[j]));
    }
    BelowAfterLine2(p, out', i, j);
  }

  /** Line i of file 1 has no partner and is printed if -a1 was given. */
  lemma SettleLine1(p: Input, a: Flags, out: seq<Item>, i: nat, j: nat, out': seq<Item>)
    requires p.Ready() && Settled(p, a, out, i, j) && i < |p.file1|
    requires j < |p.file2| ==> Compare(p.Key1(i), p.Key2(j)) < 0
    requires out' == if a.a1 then out + [Left(p.file1[i])] else out
    ensures Settled(p, a, out', i + 1, j)
  {
    p.CutPastLine1(i, j);
    p.UnpairedRow(i, j);
    p.RowsStep(i);
    KeyOfLeft(p, i);
    hide Input.Cut, Input.Unpaired2, Input.Unpaired1, Input.Rows, Input.PartRow, Has, Rising, UpTo, KeyOf;
    hide Compare, Sorted, Pairs, Lefts, Rights, Input.Key1, Input.Key2;
    if a.a1 {
      PrintLeft(p, a, out, i, j, p.Rows(i), Left(p.file1[i]));
    }
    BelowAfterLine1(p, out', i, j);
  }

  lemma AppendLast(a: seq<Item>, b: seq<Item>, x: Item)
    ensures a + b + [x] == a + (b + [x])
  {
  }

  /** One more pair of row i. */
  lemma SettlePair(p: Input, a: Flags, out: seq<Item>, i: nat, j: nat, b: nat)
    requires p.Ready() && i < |p.file1| && j <= |p.file2| && b < |p.file2|
    requires Printed(p, a, out, i, j, p.Rows(i) + p.PartRow(i, b)) && UpTo(p, out, p.Key1(i)) && p.Key1(i) == p.Key2(b)
    ensures var out' := out + [Pair(p.file1[i], p.file2[b])];
            Printed(p, a, out', i, j, p.Rows(i) + p.PartRow(i, b + 1)) && UpTo(p, out', p.Key1(i))
  {
    p.PartRowStep(i, b);
    KeyOfPair(p, i, b);
    hide *;
    var x := Pair(p.file1[i], p.file2[b]);
    PrintPair(p, a, out, i, j, p.Rows(i) + p.PartRow(i, b), x);
    AppendLast(p.Rows(i), p.PartRow(i, b), x);
  }

  /** Row i has been printed up to line b of file 2; lines j..b have its key. */
  ghost predicate InRow(p: Input, a: Flags, out: seq<Item>, i: nat, j: nat, b: nat)
    requires p.Ready()
  {
    i < |p.file1| && j <= b <= |p.file2| &&
    Printed(p, a, out, i, j, p.Rows(i) + p.PartRow(i, b)) && UpTo(p, out, p.Key1(i)) &&
    forall k: nat :: j <= k < b ==> p.Key2(k) == p.Key1(i)
  }

  lemma RowBegins(p: Input, a: Flags, out: seq<Item>, i: nat, j: nat)
    requires p.Ready() && i < |p.file1| && Settled(p, a, out, i, j)
    ensures InRow(p, a, out, i, j, j) && p.Cut(i, j)
  {
    p.RowStarts(i, j);
    hide Input.Cut, Input.Rows, Input.PartRow, Printed, UpTo, Sorted;
  }

  lemma RowGrows(p: Input, a: Flags, out: seq<Item>, i: nat, j: nat, b: nat)
    requires p.Ready() && InRow(p, a, out, i, j, b) && b < |p.file2| && Compare(p.Key1(i), p.Key2(b)) == 0
    ensures InRow(p, a, out + [Pair(p.file1[i], p.file2[b])], i, j, b + 1)
  {
    hide Input.Rows, Input.PartRow, Printed, UpTo, Sorted, Compare, Input.Key1, Input.Key2;
    p.Different(p.Key1(i), p.Key2(b));
    SettlePair(p, a, out, i, j, b);
  }

  /** Row i is complete at the end of the group. */
  lemma RowEnds(p: Input, a: Flags, out: seq<Item>, i: nat, j: nat, top: nat)
    requires p.Ready() && InRow(p, a, out, i, j, top) && p.Group(p.Key1(i), j, top)
    ensures Printed(p, a, out, i + 1, j, p.Rows(i + 1)) && UpTo(p, out, p.Key1(i))
  {
    SettleRow(p, a, out, i, j, top);
  }

  lemma GroupEnds(p: Input, a: Flags, out: seq<Item>, i: nat, j: nat, top: nat)
    requires p.Ready() && InRow(p, a, out, i, j, top) && p.Cut(i, j) && j < top
    requires top < |p.file2| ==> Compare(p.Key1(i), p.Key2(top)) != 0
    ensures p.Group(p.Key1(i), j, top)
  {
    hide Printed, UpTo, Input.Rows, Input.PartRow;
    p.GroupFound(i, j, top);
  }

  /** The rows up to i are complete. */
  lemma SettleRow(p: Input, a: Flags, out: seq<Item>, i: nat, j: nat, top: nat)
    requires p.Ready() && i < |p.file1| && p.Group(p.Key1(i), j, top)
    requires Printed(p, a, out, i, j, p.Rows(i) + p.PartRow(i, top))
    ensures Printed(p, a, out, i + 1, j, p.Rows(i + 1))
  {
    p.RowOfGroup(i, j, top);
    p.RowsStep(i);
  }

  lemma PrintedPastGroup(p: Input, a: Flags, out: seq<Item>, i: nat, j: nat, top: nat, pairs: seq<Item>)
    requires p.Ready() && i <= |p.file1| && j <= top <= |p.file2| && p.Unpaired2(j) == p.Unpaired2(top)
    requires Printed(p, a, out, i, j, pairs)
    ensures Printed(p, a, out, i, top, pairs)
  {
  }

  /** Past the group of the line before i. */
  lemma SettleGroup(p: Input, a: Flags, out: seq<Item>, i: nat, j: nat, top: nat)
    requires p.Ready() && 0 < i <= |p.file1| && p.Group(p.Key1(i - 1), j, top)
    requires i < |p.file1| ==> Compare(p.Key1(i), p.Key1(i - 1)) > 0
    requires Printed(p, a, out, i, j, p.Rows(i)) && UpTo(p, out, p.Key1(i - 1))
    ensures Settled(p, a, out, i, top)
  {
    hide *;
    p.CutPastGroup(i, j, top);
    WholeGroupIsPaired(p, i - 1, j, top);
    PrintedPastGroup(p, a, out, i, j, top, p.Rows(i));
    NextOfGroup(p, i - 1, j, top);
    BelowAfterLine1(p, out, i - 1, top);
    Settle(p, a, out, i, top);
  }

  lemma Settle(p: Input, a: Flags, out: seq<Item>, i: nat, j: nat)
    requires p.Ready() && p.Cut(i, j) && Printed(p, a, out, i, j, p.Rows(i)) && BelowNext(p, out, i, j)
    ensures Settled(p, a, out, i, j)
  {
  }

  lemma WholeGroupIsPaired(p: Input, i: nat, j: nat, top: nat)
    requires p.Ready() && i < |p.file1| && p.Group(p.Key1(i), j, top)
    ensures j <= top <= |p.file2| && p.Unpaired2(j) == p.Unpaired2(top)
  {
    p.GroupIsPaired(i, j, top);
  }

  lemma NextOfGroup(p: Input, i: nat, j: nat, top: nat)
    requires p.Ready() && i < |p.file1| && p.Group(p.Key1(i), j, top)
    ensures top < |p.file2| ==> Compare(p.Key1(i), p.Key2(top)) < 0
  {
  }

  /**
   Going through the group j..top again for line i of file 1, now at line b of file 2; the
   line before i has the key of the group.
   */
  ghost predicate InGroup(p: Input, a: Flags, out: seq<Item>, i: nat, j: nat, b: nat, top: nat)
    requires p.Ready()
  {
    0 < i <= |p.file1| && j <= b <= top && p.Group(p.Key1(i - 1), j, top) &&
    if b == j then Printed(p, a, out, i, j, p.Rows(i)) && UpTo(p, out, p.Key1(i - 1))
    else i < |p.file1| && p.Key1(i) == p.Key1(i - 1) && InRow(p, a, out, i, j, b)
  }

  /** Where line b of file 2 stands when lines j..top are the group of a key. */
  lemma GroupOrder(p: Input, key: Field, j: nat, b: nat, top: nat)
    requires p.Ready() && p.Group(key, j, top) && j <= b <= top
    ensures j < top <= |p.file2|
    ensures b < top ==> p.Key2(b) == key && Compare(key, p.Key2(b)) == 0
    ensures b == top < |p.file2| ==> Compare(key, p.Key2(b)) < 0
  {
    CompareIsAntisymmetric(key, key);
  }

  lemma KeysRise(p: Input, i: nat)
    requires p.Ready() && 0 < i < |p.file1|
    ensures Compare(p.Key1(i - 1), p.Key1(i)) <= 0 && Compare(p.Key1(i), p.Key1(i - 1)) >= 0
  {
    CompareIsAntisymmetric(p.Key1(i - 1), p.Key1(i));
  }

  lemma RowDone(p: Input, a: Flags, out: seq<Item>, i: nat, j: nat, top: nat)
    requires p.Ready() && InRow(p, a, out, i, j, top) && p.Group(p.Key1(i), j, top)
    ensures InGroup(p, a, out, i + 1, j, j, top)
  {
    RowEnds(p, a, out, i, j, top);
    GroupOrder(p, p.Key1(i), j, j, top);
    hide Printed, UpTo, Input.Rows, InRow, Input.Group, Sorted;
  }

  lemma RowAgain(p: Input, a: Flags, out: seq<Item>, i: nat, j: nat, top: nat)
    requires p.Ready() && i < |p.file1| && p.Group(p.Key1(i), j, top)
    requires Printed(p, a, out, i, j, p.Rows(i)) && UpTo(p, out, p.Key1(i))
    ensures InRow(p, a, out, i, j, j)
  {
    p.RowOfGroup(i, j, top);
    assert p.Rows(i) + [] == p.Rows(i);
    hide Printed, UpTo, Input.Rows, Input.PartRow;
  }

  /** A line of file 1 that equals a line of the group has the key of the group. */
  lemma GroupPair(p: Input, a: Flags, out: seq<Item>, i: nat, j: nat, b: nat, top: nat)
    requires p.Ready() && InGroup(p, a, out, i, j, b, top) && i < |p.file1| && b < |p.file2|
    requires Compare(p.Key1(i), p.Key2(b)) == 0
    ensures b < top && p.Key1(i) == p.Key1(i - 1) && InRow(p, a, out, i, j, b)
  {
    hide Printed, UpTo, Input.Rows, InRow, Input.Group, Sorted, Compare;
    GroupOrder(p, p.Key1(i - 1), j, b, top);
    p.Different(p.Key1(i), p.Key2(b));
    if b == j {
      RowAgain(p, a, out, i, j, top);
    }
  }

  lemma GroupGrows(p: Input, a: Flags, out: seq<Item>, i: nat, j: nat, b: nat, top: nat)
    requires p.Ready() && 0 < i < |p.file1| && j < b <= top && p.Group(p.Key1(i - 1), j, top)
    requires p.Key1(i) == p.Key1(i - 1) && InRow(p, a, out, i, j, b)
    ensures InGroup(p, a, out, i, j, b, top)
  {
  }

  /** At the end of the group the row is complete. */
  lemma GroupNext(p: Input, a: Flags, out: seq<Item>, i: nat, j: nat, b: nat, top: nat)
    requires p.Ready() && InGroup(p, a, out, i, j, b, top)
    requires b == |p.file2| || (b < |p.file2| && i < |p.file1| && Compare(p.Key1(i), p.Key2(b)) < 0)
    ensures i < |p.file1| && InGroup(p, a, out, i + 1, j, j, top)
  {
    hide Printed, UpTo, Input.Rows, InRow, Input.Group, Sorted, Compare;
    GroupOrder(p, p.Key1(i - 1), j, b, top);
    if i < |p.file1| {
      KeysRise(p, i);
    }
    assert j < b == top;
    RowDone(p, a, out, i, j, top);
  }

  /** A larger line of file 1, or its end, finishes the group. */
  lemma GroupLeft(p: Input, a: Flags, out: seq<Item>, i: nat, j: nat, b: nat, top: nat)
    requires p.Ready() && InGroup(p, a, out, i, j, b, top) && b < |p.file2|
    requires i < |p.file1| ==> Compare(p.Key1(i), p.Key2(b)) > 0
    ensures Settled(p, a, out, i, top) && top <= |p.file2|
  {
    hide Printed, UpTo, Input.Rows, InRow, Input.Group, Sorted, Compare, Settled;
    GroupOrder(p, p.Key1(i - 1), j, b, top);
    assert b == j;
    SettleGroup(p, a, out, i, j, top);
  }

  /** The whole output. */
  ghost predicate Joined(p: Input, a: Flags, out: seq<Item>)
    requires p.Ready()
  {
    Pairs(out) == NestedLoop(p.file1, p.f1, p.file2, p.f2) &&
    Lefts(out) == (if a.a1 then Unpaired(p.file1, p.f1, p.file2, p.f2) else []) &&
    Rights(out) == (if a.a2 then Unpaired(p.file2, p.f2, p.file1, p.f1) else []) &&
    Rising(p, out)
  }

  lemma Start(p: Input, a: Flags)
    requires p.Ready()
    ensures Settled(p, a, [], 0, 0)
  {
  }

  lemma Finish(p: Input, a: Flags, out: seq<Item>, i: nat, j: nat)
    requires p.Ready() && Settled(p, a, out, i, j)
    requires i == |p.file1| || j == |p.file2|
    requires a.a1 ==> i == |p.file1|
    requires a.a2 ==> j == |p.file2|
    ensures Joined(p, a, out)
  {
    hide NestedLoop, Unpaired, Sorted, Rising, BelowNext, Pairs, Lefts, Rights;
    hide Input.Cut, Input.Rows, Input.Unpaired1, Input.Unpaired2;
    SettledCut(p, a, out, i, j);
    if j == |p.file2| {
      p.NoMoreRows(i, |p.file1|);
    }
    WholeFiles(p);
  }

  lemma SettledCut(p: Input, a: Flags, out: seq<Item>, i: nat, j: nat)
    requires p.Ready() && Settled(p, a, out, i, j)
    ensures p.Cut(i, j) && i <= |p.file1| && j <= |p.file2|
  {
  }

  lemma WholeFiles(p: Input)
    requires p.Ready()
    ensures p.Rows(|p.file1|) == NestedLoop(p.file1, p.f1, p.file2, p.f2)
    ensures p.Unpaired1(|p.file1|) == Unpaired(p.file1, p.f1, p.file2, p.f2)
    ensures p.Unpaired2(|p.file2|) == Unpaired(p.file2, p.f2, p.file1, p.f1)
  {
    hide NestedLoop, Unpaired, Sorted;
    assert p.file1[..|p.file1|] == p.file1 && p.file2[..|p.file2|] == p.file2;
  }

  // ----- The merge itself

  class Merge {
    const p: Input
    const a: Flags
    var pos1: nat
    var pos2: nat
    var n1: nat
    var n2: nat
    var line1: Line
    var line2: Line
    var out: seq<Item>

    /** The line buffers hold the lines just before the file positions, or the files are at their ends. */
    ghost predicate Valid()
      reads this
    {
      p.Ready() &&
      (if n1 == 0 then pos1 == |p.file1| else 0 < pos1 <= |p.file1| && line1 == p.file1[pos1 - 1]) &&
      (if n2 == 0 then pos2 == |p.file2| else 0 < pos2 <= |p.file2| && line2 == p.file2[pos2 - 1])
    }

    ghost function At1(): nat
      requires Valid()
      reads this
    {
      if n1 == 0 then pos1 else pos1 - 1
    }

    ghost function At2(): nat
      requires Valid()
      reads this
    {
      if n2 == 0 then pos2 else pos2 - 1
    }

    constructor (p: Input, a: Flags)
      requires p.Ready()
      ensures this.p == p && this.a == a && out == [] && pos1 == 0 && pos2 == 0
      ensures n1 == 0 && n2 == 0
    {
      this.p, this.a := p, a;
      pos1, pos2, n1, n2, line1, line2, out := 0, 0, 0, 0, Line([]), Line([]), [];
    }

    method Get1()
      requires p.Ready() && pos1 <= |p.file1|
      modifies this`pos1, this`n1, this`line1
      ensures if old(pos1) < |p.file1|
              then pos1 == old(pos1) + 1 && line1 == p.file1[old(pos1)] && n1 == |line1.fields| > 0
              else pos1 == old(pos1) && n1 == 0
    {
      if pos1 < |p.file1| {
        line1 := p.file1[pos1];
        n1 := |line1.fields|;
        pos1 := pos1 + 1;
      } else {
        n1 := 0;
      }
    }

    method Get2()
      requires p.Ready() && pos2 <= |p.file2|
      modifies this`pos2, this`n2, this`line2
      ensures if old(pos2) < |p.file2|
              then pos2 == old(pos2) + 1 && line2 == p.file2[old(pos2)] && n2 == |line2.fields| > 0
              else pos2 == old(pos2) && n2 == 0
    {
      if pos2 < |p.file2| {
        line2 := p.file2[pos2];
        n2 := |line2.fields|;
        pos2 := pos2 + 1;
      } else {
        n2 := 0;
      }
    }

    function Comp(): (c: int)
      requires Valid() && 0 < n1 && 0 < n2
      reads this
      ensures c == Compare(p.Key1(At1()), p.Key2(At2()))
    {
      Compare(line1.fields[p.f1], line2.fields[p.f2])
    }

    /** Between rounds of the outer loop. */
    ghost predicate Inv()
      reads this
    {
      Valid() && Settled(p, a, out, At1(), At2())
    }

    /** Line 2 is below line 1, or file 1 is at its end. */
    method PassLine2() returns (bot2: nat)
      requires Inv() && 0 < n2 && (0 < n1 ==> Comp() > 0)
      modifies this`out, this`pos2, this`n2, this`line2
      ensures Inv() && bot2 == At2() && At1() == old(At1()) && At2() == old(At2()) + 1
    {
      hide Settled, Sorted, Compare, Printed, UpTo, BelowNext, Input.Rows, Input.PartRow, Input.Group;
      hide Input.Cut, Input.Key1, Input.Key2;
      ghost var i, j := At1(), At2();
      ghost var was := out;
      if a.a2 {
        out := out + [Right(line2)];
      }
      SettleLine2(p, a, was, i, j, out);
      bot2 := pos2;
      Get2();
    }

    /** Line 1 is below line 2, or file 2 is at its end. */
    method PassLine1()
      requires Inv() && 0 < n1 && (0 < n2 ==> Comp() < 0)
      modifies this`out, this`pos1, this`n1, this`line1
      ensures Inv() && At1() == old(At1()) + 1 && At2() == old(At2())
    {
      hide Settled, Sorted, Compare, Printed, UpTo, BelowNext, Input.Rows, Input.PartRow, Input.Group;
      hide Input.Cut, Input.Key1, Input.Key2;
      ghost var i, j := At1(), At2();
      ghost var was := out;
      if a.a1 {
        out := out + [Left(line1)];
      }
      SettleLine1(p, a, was, i, j, out);
      Get1();
    }

    /** Prints a pair and reads on in file 2. */
    method EmitPair(ghost j: nat)
      requires Valid() && 0 < n1 && 0 < n2 && InRow(p, a, out, At1(), j, At2()) && Comp() == 0
      modifies this`out, this`pos2, this`n2, this`line2
      ensures Valid() && At1() == old(At1()) && At2() == old(At2()) + 1
      ensures InRow(p, a, out, At1(), j, At2())
    {
      hide InRow, Sorted, Compare, Input.Key1, Input.Key2;
      RowGrows(p, a, out, At1(), j, At2());
      out := out + [Pair(line1, line2)];
      Get2();
    }

    /** The first line of a matching group of file 1: finds the end of the group of file 2. */
    method FirstRow() returns (top2: nat)
      requires Inv() && 0 < n1 && 0 < n2 && Comp() == 0
      modifies this`out, this`pos2, this`n2, this`line2
      ensures Valid() && At1() == old(At1()) && p.Group(p.Key1(At1()), old(At2()), top2)
      ensures InRow(p, a, out, At1(), old(At2()), top2) && old(At2()) < top2 <= |p.file2|
    {
      hide Settled, Sorted, Compare, InRow, Input.Group, Input.Cut, Input.Key1, Input.Key2;
      ghost var i, j := At1(), At2();
      RowBegins(p, a, out, i, j);
      top2 := pos2;
      while 0 < n2 && Comp() == 0
        invariant Valid() && At1() == i && InRow(p, a, out, i, j, At2())
        invariant if j < At2() then top2 == At2() else j == At2() && 0 < n2 && Comp() == 0
        decreases |p.file2| - At2()
      {
        top2 := pos2;
        EmitPair(j);
      }
      GroupEnds(p, a, out, i, j, top2);
    }

    /** The remaining lines of file 1 with the key of the group. */
    method GroupRows(bot2: nat, top2: nat)
      requires Valid() && At2() == bot2 && InGroup(p, a, out, At1(), bot2, bot2, top2)
      modifies this`out, this`pos1, this`n1, this`line1, this`pos2, this`n2, this`line2
      ensures Inv() && At2() == top2 && old(At1()) <= At1()
    {
      hide Settled, Sorted, Compare, InRow, Printed, UpTo, Input.Rows, Input.Group, Input.Cut, Input.Key1, Input.Key2;
      while true
        invariant Valid() && InGroup(p, a, out, At1(), bot2, At2(), top2) && old(At1()) <= At1()
        decreases |p.file1| - At1(), top2 - At2()
      {
        ghost var i, b := At1(), At2();
        if 0 < n1 && 0 < n2 && Comp() == 0 {
          GroupPair(p, a, out, i, bot2, b, top2);
          EmitPair(bot2);
          GroupGrows(p, a, out, i, bot2, b + 1, top2);
        } else if (0 < n1 && 0 < n2 && Comp() < 0) || n2 == 0 {
          GroupNext(p, a, out, i, bot2, b, top2);
          pos2 := bot2;
          Get2();
          Get1();
        } else {
          GroupLeft(p, a, out, i, bot2, b, top2);
          pos2 := top2;
          Get2();
          break;
        }
      }
    }

    /** The merge of the two files. */
    method Run()
      requires p.Ready() && out == [] && pos1 == 0 && pos2 == 0
      modifies this
      ensures Joined(p, a, out)
    {
      hide Settled, Sorted, Compare, InRow, InGroup, Joined, Input.Group, Input.Cut, Input.Key1, Input.Key2;
      Start(p, a);
      Get1();
      var bot2 := pos2;
      Get2();
      while (0 < n1 && 0 < n2) || ((a.a1 || a.a2) && 0 < n1 + n2)
        invariant Inv() && bot2 == At2()
        decreases |p.file1| - At1() + |p.file2| - At2()
      {
        if (0 < n1 && 0 < n2 && Comp() > 0) || n1 == 0 {
          bot2 := PassLine2();
        } else if (0 < n1 && 0 < n2 && Comp() < 0) || n2 == 0 {
          PassLine1();
        } else {
          ghost var i := At1();
          var top2 := FirstRow();
          RowDone(p, a, out, i, bot2, top2);
          pos2 := bot2;
          Get2();
          Get1();
          GroupRows(bot2, top2);
          bot2 := top2;
        }
      }
      Finish(p, a, out, At1(), At2());
    }
  }

  /** Joining two files sorted by byte values gives the nested-loop join and each unpaired line once. */
  method JoinFiles(p: Input, a: Flags) returns (out: seq<Item>)
    requires ByteSorted(p.file1, p.f1) && ByteSorted(p.file2, p.f2)
    ensures Pairs(out) == NestedLoop(p.file1, p.f1, p.file2, p.f2)
    ensures Lefts(out) == if a.a1 then Unpaired(p.file1, p.f1, p.file2, p.f2) else []
    ensures Rights(out) == if a.a2 then Unpaired(p.file2, p.f2, p.file1, p.f1) else []
    ensures InByteOrder(p, out)
  {
    SortedIsByteSorted(p.file1, p.f1);
    SortedIsByteSorted(p.file2, p.f2);
    hide NestedLoop, Unpaired, Sorted, ByteSorted, Rising, InByteOrder, Pairs, Lefts, Rights;
    var m := new Merge(p, a);
    m.Run();
    out := m.out;
    RisingIsByteOrder(p, out);
  }
}
