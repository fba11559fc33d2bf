/** `join`'s `input`: a line is cut into fields in place, by overwriting separators with zeros. */
module JoinFields {

  const NEWLINE: int := 10
  const BLANK: int := 32
  const TAB: int := 9

  /** The two separator characters; a blank in first place means that runs of separators count as one. */
  datatype Separators = Separators(sep1: int, sep2: int) {
    predicate Has(c: int) {
      c == sep1 || c == sep2
    }

    predicate Strips() {
      sep1 == BLANK
    }

    /** The default pair, blank and tab, or the one character of -t. */
    predicate Legal() {
      sep1 == sep2 || (sep1 == BLANK && sep2 == TAB)
    }
  }

  // ----- The fields of a line

  function Skip(q: Separators, s: seq<int>): (r: seq<int>)
    ensures |r| <= |s|
    ensures q.Strips() && r != [] ==> !q.Has(r[0])
  {
    if q.Strips() && s != [] && q.Has(s[0]) then Skip(q, s[1..]) else s
  }

  function WordLength(q: Separators, s: seq<int>): (n: nat)
    ensures n <= |s| && (n < |s| ==> q.Has(s[n]) || s[n] == NEWLINE)
    ensures forall k :: 0 <= k < n ==> !q.Has(s[k]) && s[k] != NEWLINE
  {
    if s == [] || q.Has(s[0]) || s[0] == NEWLINE then 0 else 1 + WordLength(q, s[1..])
  }

  function Fields(q: Separators, s: seq<int>): seq<seq<int>>
    decreases |s|
  {
    var t := Skip(q, s);
    if t == [] || t[0] == NEWLINE then []
    else
      var n := WordLength(q, t);
      [t[..n]] + Fields(q, if n < |t| then t[n + 1..] else [])
  }

  // ----- Printing fields and reading them back

  function Glue(sep: int, fields: seq<seq<int>>): seq<int> {
    if fields == [] then []
    else if |fields| == 1 then fields[0]
    else fields[0] + [sep] + Glue(sep, fields[1..])
  }

  /** No field has a separator or a newline in it. */
  ghost predicate Printable(q: Separators, fields: seq<seq<int>>) {
    q.sep1 != NEWLINE &&
    forall f, k :: 0 <= f < |fields| && 0 <= k < |fields[f]| ==> !q.Has(fields[f][k]) && fields[f][k] != NEWLINE
  }

  lemma {:induction false} WordIs(q: Separators, word: seq<int>, rest: seq<int>)
    requires forall k :: 0 <= k < |word| ==> !q.Has(word[k]) && word[k] != NEWLINE
    requires rest != [] && (q.Has(rest[0]) || rest[0] == NEWLINE)
    ensures WordLength(q, word + rest) == |word|
  {
    var n, t := WordLength(q, word + rest), word + rest;
    assert t[|word|] == rest[0];
    assert forall k :: 0 <= k < |word| ==> t[k] == word[k];
  }

  lemma FirstField(q: Separators, word: seq<int>, rest: seq<int>)
    requires forall k :: 0 <= k < |word| ==> !q.Has(word[k]) && word[k] != NEWLINE
    requires rest != [] && (q.Has(rest[0]) || rest[0] == NEWLINE)
    requires word != [] || (!q.Strips() && rest[0] != NEWLINE)
    ensures Fields(q, word + rest) == [word] + Fields(q, rest[1..])
  {
    hide WordLength;
    var t := word + rest;
    assert t[0] == if word != [] then word[0] else rest[0];
    WordIs(q, word, rest);
    assert t[..|word|] == word && t[|word| + 1..] == rest[1..];
    FieldsStep(q, t);
  }

  lemma FieldsStep(q: Separators, t: seq<int>)
    requires t != [] && t[0] != NEWLINE && (q.Strips() ==> !q.Has(t[0]))
    ensures var n := WordLength(q, t);
            Fields(q, t) == [t[..n]] + Fields(q, if n < |t| then t[n + 1..] else [])
  {
    hide WordLength;
    assert Skip(q, t) == t;
  }

  /** Without a blank in first place, only an empty last field is lost. */
  lemma {:induction false} ReadBackPlain(q: Separators, fields: seq<seq<int>>)
    requires Printable(q, fields) && !q.Strips()
    ensures Fields(q, Glue(q.sep1, fields) + [NEWLINE]) == fields <==> fields == [] || fields[|fields| - 1] != []
    decreases |fields|
  {
    hide Fields, Glue;
    if fields == [] {
      NothingToRead(q);
    } else if |fields| == 1 {
      OneField(q, fields);
    } else {
      ReadBackPlain(q, fields[1..]);
      ReadBackStep(q, fields);
      assert fields == [fields[0]] + fields[1..];
    }
  }

  lemma NothingToRead(q: Separators)
    requires q.sep1 != NEWLINE
    ensures Fields(q, Glue(q.sep1, []) + [NEWLINE]) == []
  {
    hide WordLength;
    assert [] + [NEWLINE] == [NEWLINE];
  }

  lemma OneField(q: Separators, fields: seq<seq<int>>)
    requires Printable(q, fields) && |fields| == 1
    ensures Fields(q, Glue(q.sep1, fields) + [NEWLINE]) == if fields[0] == [] then [] else fields
  {
    assert Glue(q.sep1, fields) == fields[0];
    NothingToRead(q);
    assert Fields(q, []) == [] && [NEWLINE][1..] == [];
    hide Fields, Glue;
    if fields[0] != [] {
      FirstField(q, fields[0], [NEWLINE]);
      assert fields == [fields[0]] + [];
    }
  }

  lemma ReadBackStep(q: Separators, fields: seq<seq<int>>)
    requires Printable(q, fields) && 1 < |fields| && (q.Strips() ==> fields[0] != [])
    ensures Fields(q, Glue(q.sep1, fields) + [NEWLINE]) ==
            [fields[0]] + Fields(q, Glue(q.sep1, fields[1..]) + [NEWLINE])
  {
    var more := Glue(q.sep1, fields[1..]) + [NEWLINE];
    var rest := [q.sep1] + more;
    assert rest[1..] == more;
    assert Glue(q.sep1, fields) + [NEWLINE] == fields[0] + rest;
    hide Fields, Glue;
    FirstField(q, fields[0], rest);
  }

  lemma {:induction false} WordsAreNotEmpty(q: Separators, s: seq<int>, k: nat)
    requires q.Strips() && k < |Fields(q, s)|
    ensures Fields(q, s)[k] != []
    decreases |s|
  {
    var t := Skip(q, s);
    var n := WordLength(q, t);
    assert 0 < n;
    if 0 < k {
      WordsAreNotEmpty(q, if n < |t| then t[n + 1..] else [], k - 1);
    }
  }

  lemma {:induction false} ReadBackWords(q: Separators, fields: seq<seq<int>>)
    requires Printable(q, fields) && q.Strips() && forall f :: 0 <= f < |fields| ==> fields[f] != []
    ensures Fields(q, Glue(q.sep1, fields) + [NEWLINE]) == fields
    decreases |fields|
  {
    hide Fields, Glue;
    if fields == [] {
      NothingToRead(q);
    } else if |fields| == 1 {
      OneField(q, fields);
    } else {
      ReadBackWords(q, fields[1..]);
      ReadBackStep(q, fields);
      assert fields == [fields[0]] + fields[1..];
    }
  }

  // ----- The default separators

  /** Blanks and tabs. */
  ghost predicate Gap(s: seq<int>) {
    forall k :: 0 <= k < |s| ==> s[k] == 32 || s[k] == 9
  }

  ghost predicate Word(s: seq<int>) {
    s != [] && 32 !in s && 9 !in s && 10 !in s
  }

  /** Words, each with a gap before it, then a gap and a newline. */
  function Spread(gaps: seq<seq<int>>, words: seq<seq<int>>, tail: seq<int>): seq<int>
    requires |gaps| == |words|
  {
    if words == [] then tail + [10] else gaps[0] + (words[0] + Spread(gaps[1..], words[1..], tail))
  }

  lemma {:induction false} GapSkipped(gap: seq<int>, s: seq<int>)
    requires Gap(gap)
    ensures Skip(Separators(32, 9), gap + s) == Skip(Separators(32, 9), s)
    decreases |gap|
  {
    if gap == [] {
      assert gap + s == s;
    } else {
      GapSkipped(gap[1..], s);
      assert (gap + s)[1..] == gap[1..] + s;
    }
  }

  lemma GapIgnored(gap: seq<int>, s: seq<int>)
    requires Gap(gap)
    ensures Fields(Separators(32, 9), gap + s) == Fields(Separators(32, 9), s)
  {
    GapSkipped(gap, s);
    SameSkip(Separators(32, 9), gap + s, s);
  }

  lemma SameSkip(q: Separators, s: seq<int>, t: seq<int>)
    requires Skip(q, s) == Skip(q, t)
    ensures Fields(q, s) == Fields(q, t)
  {
    hide Skip, WordLength;
  }

  lemma WordTaken(word: seq<int>, rest: seq<int>)
    requires Word(word) && rest != [] && (rest[0] == 32 || rest[0] == 9 || rest[0] == 10)
    ensures var q := Separators(32, 9);
            Fields(q, word + rest) == [word] + (if rest[0] == 10 then Fields(q, rest[1..]) else Fields(q, rest))
  {
    var q := Separators(32, 9);
    assert forall k :: 0 <= k < |word| ==> word[k] in word;
    FirstField(q, word, rest);
    if rest[0] != 10 {
      GapIgnored([rest[0]], rest[1..]);
      assert [rest[0]] + rest[1..] == rest;
    }
  }

  /** A gap comes before the next word, and a newline only at the end. */
  lemma SpreadStarts(gaps: seq<seq<int>>, words: seq<seq<int>>, tail: seq<int>)
    requires |gaps| == |words| && Gap(tail) && forall k :: 0 <= k < |words| ==> Gap(gaps[k]) && gaps[k] != []
    ensures var s := Spread(gaps, words, tail);
            s != [] && s[0] in {32, 9, 10} && (s[0] == 10 ==> words == [] && s == [10])
  {
  }

  lemma NoText(q: Separators)
    ensures Fields(q, []) == []
    ensures q == Separators(32, 9) ==> Fields(q, [10]) == []
  {
  }

  /** However many blanks and tabs there are, the words are the fields. */
  lemma {:induction false} WordsAreFields(gaps: seq<seq<int>>, words: seq<seq<int>>, tail: seq<int>)
    requires |gaps| == |words| && Gap(tail) && forall k :: 0 <= k < |words| ==> Word(words[k]) && Gap(gaps[k])
    requires forall k :: 0 < k < |words| ==> gaps[k] != []
    ensures Separators(32, 9).Legal() && Fields(Separators(32, 9), Spread(gaps, words, tail)) == words
    decreases |words|
  {
    hide Fields, Word;
    var q := Separators(32, 9);
    if words == [] {
      GapIgnored(tail, [10]);
      NoText(q);
    } else {
      var rest := Spread(gaps[1..], words[1..], tail);
      SpreadStarts(gaps[1..], words[1..], tail);
      GapIgnored(gaps[0], words[0] + rest);
      WordTaken(words[0], rest);
      WordsAreFields(gaps[1..], words[1..], tail);
      if rest[0] == 10 {
        assert rest[1..] == [];
        NoText(q);
      }
      assert words == [words[0]] + words[1..];
    }
  }

  /** With blanks as separators, every empty field is lost. */
  lemma ReadBackStripped(q: Separators, fields: seq<seq<int>>)
    requires Printable(q, fields) && q.Strips()
    ensures Fields(q, Glue(q.sep1, fields) + [NEWLINE]) == fields <==> forall f :: 0 <= f < |fields| ==> fields[f] != []
  {
    var s := Glue(q.sep1, fields) + [NEWLINE];
    if Fields(q, s) == fields {
      forall f | 0 <= f < |fields|
        ensures fields[f] != []
      {
        WordsAreNotEmpty(q, s, f);
      }
    } else if forall f :: 0 <= f < |fields| ==> fields[f] != [] {
      ReadBackWords(q, fields);
    }
  }

  // ----- What the buffer is read as

  /** A field ends at a separator, a newline or a zero. */
  predicate Stops(q: Separators, c: int) {
    q.Has(c) || c == NEWLINE || c == 0
  }

  function StringLength(q: Separators, s: seq<int>): (n: nat)
    ensures n <= |s| && (n < |s| ==> Stops(q, s[n]))
    ensures forall k :: 0 <= k < n ==> !Stops(q, s[k])
  {
    if s == [] || Stops(q, s[0]) then 0 else 1 + StringLength(q, s[1..])
  }

  /** The fields found, or that the end of the buffer was reached before the end of a line. */
  datatype Reading = Found(fields: seq<seq<int>>) | LeftBuffer

  function After(fields: seq<seq<int>>, r: Reading): Reading {
    match r
    case Found(more) => Found(fields + more)
    case LeftBuffer => LeftBuffer
  }

  /** What `input` makes of a whole buffer, whatever it holds. */
  function ReadAs(q: Separators, s: seq<int>): Reading
    decreases |s|
  {
    var t := Skip(q, s);
    if t == [] then LeftBuffer
    else if t[0] == NEWLINE || t[0] == 0 then Found([])
    else
      var n := StringLength(q, t);
      if n == |t| then LeftBuffer else After([t[..n]], ReadAs(q, t[n + 1..]))
  }

  /** A string as `fgets` delivers it: no zero, and a newline only at its end. */
  ghost predicate Gets(line: seq<int>) {
    0 !in line && forall k :: 0 <= k < |line| - 1 ==> line[k] != NEWLINE
  }

  /** The last character is a newline or a separator. */
  ghost predicate Closed(q: Separators, line: seq<int>) {
    line == [] || q.Has(line[|line| - 1]) || line[|line| - 1] == NEWLINE
  }

  /** What an earlier line has left behind the zero ends at once, separators skipped. */
  ghost predicate EndsAtOnce(q: Separators, stale: seq<int>) {
    var t := Skip(q, stale);
    t != [] && (t[0] == NEWLINE || t[0] == 0)
  }

  lemma SkipInside(q: Separators, line: seq<int>, rest: seq<int>)
    requires line != []
    ensures q.Strips() && q.Has(line[0]) ==>
              Skip(q, line + rest) == Skip(q, line[1..] + rest) && Skip(q, line) == Skip(q, line[1..])
    ensures !(q.Strips() && q.Has(line[0])) ==> Skip(q, line + rest) == line + rest && Skip(q, line) == line
  {
    assert (line + rest)[1..] == line[1..] + rest;
  }

  lemma ReadSkips(q: Separators, s: seq<int>, t: seq<int>)
    requires Skip(q, s) == Skip(q, t)
    ensures ReadAs(q, s) == ReadAs(q, t) && Fields(q, s) == Fields(q, t)
  {
    hide Skip, WordLength, StringLength;
  }

  /** The field at the start of a line, in the line and in the buffer. */
  lemma FirstWord(q: Separators, line: seq<int>, stale: seq<int>)
    requires Gets(line) && line != [] && line[0] != NEWLINE && !(q.Strips() && q.Has(line[0]))
    ensures var n := WordLength(q, line);
            Fields(q, line) == [line[..n]] + Fields(q, if n < |line| then line[n + 1..] else []) &&
            ReadAs(q, line + [0] + stale)
            == After([line[..n]], ReadAs(q, if n < |line| then line[n + 1..] + [0] + stale else stale))
  {
    hide Skip, WordLength, StringLength, ReadAs, Fields;
    var n, s := WordLength(q, line), line + [0] + stale;
    WordInBuffer(q, line, stale);
    FieldsStep(q, line);
    GetsFirst(line);
    ReadStep(q, s);
    assert s[..n] == line[..n];
    if n < |line| {
      assert s[n + 1..] == line[n + 1..] + [0] + stale;
    } else {
      assert s[n + 1..] == stale;
    }
  }

  lemma GetsFirst(line: seq<int>)
    requires Gets(line) && line != []
    ensures line[0] != 0
  {
    assert line[0] in line;
  }

  lemma ReadStep(q: Separators, t: seq<int>)
    requires t != [] && t[0] != NEWLINE && t[0] != 0 && (q.Strips() ==> !q.Has(t[0]))
    ensures var n := StringLength(q, t);
            ReadAs(q, t) == if n == |t| then LeftBuffer else After([t[..n]], ReadAs(q, t[n + 1..]))
  {
    hide StringLength;
    assert Skip(q, t) == t;
  }

  /** A line, or what is left of one, that has no more fields. */
  lemma ReadEnd(q: Separators, s: seq<int>)
    requires q.Legal() && (s == [] || s[0] == NEWLINE || s[0] == 0) && (s != [] && q.Strips() ==> !q.Has(s[0]))
    ensures s != [] ==> ReadAs(q, s) == Found([])
    ensures s == [] || s[0] == NEWLINE ==> Fields(q, s) == []
  {
    hide WordLength, StringLength;
    assert Skip(q, s) == s;
  }

  lemma WordInBuffer(q: Separators, line: seq<int>, stale: seq<int>)
    requires Gets(line)
    ensures StringLength(q, line + [0] + stale) == WordLength(q, line)
  {
    var n, s := WordLength(q, line), line + [0] + stale;
    assert s[|line|] == 0 && forall k :: 0 <= k < |line| ==> s[k] == line[k] && line[k] in line;
  }

  /** What is read: the fields of the line, and then, if the line is not closed, what is left behind it. */
  lemma {:induction false} ReadExactly(q: Separators, line: seq<int>, stale: seq<int>)
    requires q.Legal() && Gets(line)
    ensures ReadAs(q, line + [0] + stale)
            == if Closed(q, line) then Found(Fields(q, line)) else After(Fields(q, line), ReadAs(q, stale))
    decreases |line|
  {
    hide ReadAs, Fields, Skip, Closed, Gets;
    var s := line + [0] + stale;
    ClosedAtOnce(q, line);
    if line == [] {
      ReadEnd(q, s);
      ReadEnd(q, line);
    } else if q.Strips() && q.Has(line[0]) {
      ReadExactly(q, line[1..], stale);
      SkipInside(q, line, [0] + stale);
      assert line + ([0] + stale) == s && line[1..] + ([0] + stale) == line[1..] + [0] + stale;
      ReadSkips(q, s, line[1..] + [0] + stale);
      ReadSkips(q, line, line[1..]);
    } else if line[0] == NEWLINE {
      ReadEnd(q, s);
      ReadEnd(q, line);
    } else {
      ReadWordThenRest(q, line, stale);
    }
  }

  lemma ClosedAtOnce(q: Separators, line: seq<int>)
    requires Gets(line)
    ensures line == [] ==> Closed(q, line)
    ensures line != [] && q.Has(line[0]) ==> Gets(line[1..]) && (Closed(q, line[1..]) <==> Closed(q, line))
    ensures line != [] && line[0] == NEWLINE ==> |line| == 1 && Closed(q, line)
  {
    if line != [] {
      var rest := line[1..];
      assert forall k :: 0 <= k < |rest| ==> rest[k] == line[1 + k] && line[1 + k] in line;
    }
  }

  lemma {:induction false} ReadWordThenRest(q: Separators, line: seq<int>, stale: seq<int>)
    requires q.Legal() && Gets(line) && line != [] && line[0] != NEWLINE && !(q.Strips() && q.Has(line[0]))
    ensures ReadAs(q, line + [0] + stale)
            == if Closed(q, line) then Found(Fields(q, line)) else After(Fields(q, line), ReadAs(q, stale))
    decreases |line|, 0
  {
    hide ReadAs, Fields, WordLength, Closed, Gets;
    var n := WordLength(q, line);
    FirstWord(q, line, stale);
    ClosedRest(q, line);
    if n < |line| {
      ReadExactly(q, line[n + 1..], stale);
      AfterWord(line[..n], Fields(q, line[n + 1..]), ReadAs(q, stale));
    } else {
      NoFields(q, line[..n]);
    }
  }

  lemma NoFields(q: Separators, w: seq<int>)
    ensures [w] + Fields(q, []) == [w]
  {
  }

  /** Past its first field a line is closed or not as before. */
  lemma ClosedRest(q: Separators, line: seq<int>)
    requires Gets(line) && line != []
    ensures var n := WordLength(q, line);
            if n < |line| then Gets(line[n + 1..]) && (Closed(q, line[n + 1..]) <==> Closed(q, line))
            else !Closed(q, line)
  {
    hide WordLength;
    var n := WordLength(q, line);
    if n < |line| {
      var rest := line[n + 1..];
      assert forall k :: 0 <= k < |rest| ==> rest[k] == line[n + 1 + k] && line[n + 1 + k] in line;
    }
  }

  lemma AfterWord(w: seq<int>, fields: seq<seq<int>>, r: Reading)
    ensures After([w], After(fields, r)) == After([w] + fields, r)
  {
    if r.Found? {
      assert [w] + (fields + r.fields) == [w] + fields + r.fields;
    }
  }

  lemma AfterNothing(fields: seq<seq<int>>, r: Reading)
    ensures After(fields, r) == Found(fields) <==> r == Found([])
    ensures r.Found? && r != Found([]) ==> |After(fields, r).fields| > |fields|
  {
    assert fields + [] == fields;
  }

  /**
   The fields of the line are read if and only if its last character is a newline or a
   separator, or what is left in the buffer behind its zero ends at once.
   */
  lemma ReadIff(q: Separators, line: seq<int>, stale: seq<int>)
    requires q.Legal() && Gets(line)
    ensures ReadAs(q, line + [0] + stale) == Found(Fields(q, line)) <==> Closed(q, line) || EndsAtOnce(q, stale)
  {
    hide ReadAs, Fields;
    ReadExactly(q, line, stale);
    NothingRead(q, stale);
    AfterNothing(Fields(q, line), ReadAs(q, stale));
  }

  lemma NothingRead(q: Separators, s: seq<int>)
    ensures ReadAs(q, s) == Found([]) <==> EndsAtOnce(q, s)
  {
  }

  /** A last line without its newline takes in a field of an earlier line. */
  lemma StaleField()
    ensures var q := Separators(BLANK, TAB);
            Gets([97]) && Fields(q, [97]) == [[97]] && ReadAs(q, [97] + [0] + [98, NEWLINE, 0]) == Found([[97], [98]])
  {
    var q := Separators(BLANK, TAB);
    assert ReadAs(q, [0]) == Found([]);
    assert ReadAs(q, [98, NEWLINE, 0]) == After([[98]], ReadAs(q, [0])) by {
      var t := [98, NEWLINE, 0];
      assert t[..1] == [98] && t[2..] == [0] && StringLength(q, t) == 1;
    }
    FirstWord(q, [97], [98, NEWLINE, 0]);
    assert WordLength(q, [97]) == 1 && [97][..1] == [97] && Fields(q, []) == [];
    assert [[98]] + [] == [[98]] && [[97]] + [[98]] == [[97], [98]];
  }

  // ----- Cutting in place

  /** The C string that starts at p is the field. */
  ghost predicate StringAt(s: seq<int>, p: nat, field: seq<int>) {
    p + |field| < |s| && s[p..p + |field|] == field && s[p + |field|] == 0
  }

  lemma SkipStep(q: Separators, s: seq<int>)
    ensures s != [] && q.Strips() && q.Has(s[0]) ==> Skip(q, s) == Skip(q, s[1..])
    ensures s == [] || !q.Strips() || !q.Has(s[0]) ==> Skip(q, s) == s
  {
  }

  /** Stops at the first character that is not skipped, or at the end of the buffer. */
  method SkipBlanks(q: Separators, buf: array<int>, start: nat) returns (bp: nat)
    requires start <= buf.Length
    ensures start <= bp <= buf.Length && buf[bp..] == Skip(q, buf[start..])
  {
    hide Skip;
    bp := start;
    if q.Strips() {
      while bp < buf.Length && q.Has(buf[bp])
        invariant start <= bp <= buf.Length && Skip(q, buf[bp..]) == Skip(q, buf[start..])
      {
        SkipStep(q, buf[bp..]);
        assert buf[bp..][1..] == buf[bp + 1..];
        bp := bp + 1;
      }
    }
    SkipStep(q, buf[bp..]);
  }

  /** Stops at the end of the field, or at the end of the buffer. */
  method ScanWord(q: Separators, buf: array<int>, start: nat) returns (bp: nat)
    requires start <= buf.Length
    ensures start <= bp <= buf.Length && bp - start == StringLength(q, buf[start..])
  {
    bp := start;
    while bp < buf.Length && buf[bp] != q.sep1 && buf[bp] != NEWLINE && buf[bp] != q.sep2 && buf[bp] != 0
      invariant start <= bp <= buf.Length
      invariant StringLength(q, buf[start..]) == bp - start + StringLength(q, buf[bp..])
    {
      assert buf[bp..][1..] == buf[bp + 1..];
      bp := bp + 1;
    }
  }

  ghost predicate Strings(s: seq<int>, starts: seq<nat>, fields: seq<seq<int>>) {
    |starts| == |fields| && forall f :: 0 <= f < |fields| ==> StringAt(s, starts[f], fields[f])
  }

  lemma StringsWiden(s: seq<int>, s': seq<int>, starts: seq<nat>, fields: seq<seq<int>>)
    requires Strings(s, starts, fields) && |s| <= |s'| && s'[..|s|] == s
    ensures Strings(s', starts, fields)
  {
    forall f | 0 <= f < |fields|
      ensures StringAt(s', starts[f], fields[f])
    {
      assert StringAt(s, starts[f], fields[f]);
      assert forall k :: 0 <= k < |s| ==> s'[k] == s'[..|s|][k] == s[k];
    }
  }

  lemma StringsExtend(s: seq<int>, s': seq<int>, starts: seq<nat>, fields: seq<seq<int>>, p: nat, field: seq<int>)
    requires Strings(s, starts, fields) && |s| <= |s'| && s'[..|s|] == s && StringAt(s', p, field)
    ensures Strings(s', starts + [p], fields + [field])
  {
    StringsWiden(s, s', starts, fields);
  }

  /** The buffer up to bp has been cut into the fields; the rest is as it was. */
  ghost predicate Cutting(q: Separators, was: seq<int>, s: seq<int>, bp: nat,
                          starts: seq<nat>, fields: seq<seq<int>>) {
    bp <= |s| == |was| && s[bp..] == was[bp..] && Strings(s[..bp], starts, fields) &&
    ReadAs(q, was) == After(fields, ReadAs(q, s[bp..]))
  }

  lemma CuttingStarts(q: Separators, was: seq<int>)
    ensures Cutting(q, was, was, 0, [], [])
  {
    hide ReadAs;
    assert was[0..] == was;
    var r := ReadAs(q, was);
    if r.Found? {
      assert [] + r.fields == r.fields;
    }
  }

  /** The end of a line, or of the buffer before a field. */
  lemma CuttingEnds(q: Separators, was: seq<int>, s: seq<int>, bp: nat,
                    starts: seq<nat>, fields: seq<seq<int>>, p: nat)
    requires Cutting(q, was, s, bp, starts, fields) && bp <= p <= |s| && s[p..] == Skip(q, s[bp..])
    requires p == |s| || s[p] == NEWLINE || s[p] == 0
    ensures if p == |s| then ReadAs(q, was) == LeftBuffer
            else ReadAs(q, was) == Found(fields) && Strings(s, starts, fields)
  {
    hide Strings, Skip, StringLength;
    assert fields + [] == fields;
    StringsWiden(s[..bp], s, starts, fields);
  }

  lemma FieldString(s: seq<int>, p: nat, e: nat)
    requires p <= e < |s| && s[e] == 0
    ensures StringAt(s[..e + 1], p, s[p..e])
  {
    assert s[..e + 1][p..e] == s[p..e];
  }

  lemma AfterTwice(a: seq<seq<int>>, w: seq<int>, r: Reading)
    ensures After(a, After([w], r)) == After(a + [w], r)
  {
    if r.Found? {
      assert a + ([w] + r.fields) == a + [w] + r.fields;
    }
  }

  lemma CuttingGoesOn(q: Separators, was: seq<int>, s: seq<int>, bp: nat,
                      starts: seq<nat>, fields: seq<seq<int>>, p: nat, e: nat)
    requires Cutting(q, was, s, bp, starts, fields) && bp <= p < |s| && s[p..] == Skip(q, s[bp..])
    requires s[p] != NEWLINE && s[p] != 0 && p <= e <= |s| && e - p == StringLength(q, s[p..])
    ensures e == |s| ==> ReadAs(q, was) == LeftBuffer
    ensures e < |s| ==> Cutting(q, was, s[e := 0], e + 1, starts + [p], fields + [s[p..e]])
  {
    ReadWord(q, s, bp, p, e);
    if e < |s| {
      hide ReadAs, Strings, Skip, StringLength;
      var s' := s[e := 0];
      AfterTwice(fields, s[p..e], ReadAs(q, s[e + 1..]));
      FieldString(s', p, e);
      assert s'[p..e] == s[p..e] && s'[..e + 1][..bp] == s[..bp] && s'[e + 1..] == s[e + 1..];
      StringsExtend(s[..bp], s'[..e + 1], starts, fields, p, s[p..e]);
      assert s[e + 1..] == s[bp..][e + 1 - bp..] == was[bp..][e + 1 - bp..] == was[e + 1..];
    }
  }

  lemma ReadWord(q: Separators, s: seq<int>, bp: nat, p: nat, e: nat)
    requires bp <= p < |s| && s[p..] == Skip(q, s[bp..]) && s[p] != NEWLINE && s[p] != 0
    requires p <= e <= |s| && e - p == StringLength(q, s[p..])
    ensures ReadAs(q, s[bp..]) == if e == |s| then LeftBuffer else After([s[p..e]], ReadAs(q, s[e + 1..]))
  {
    hide Skip, StringLength;
    var t := s[p..];
    if e < |s| {
      assert t[..e - p] == s[p..e] && t[e - p + 1..] == s[e + 1..];
    }
  }

  /** `input`: where each field starts; every field has become a C string.  Not ok: the buffer has been left. */
  method Split(q: Separators, buf: array<int>) returns (ok: bool, starts: seq<nat>)
    modifies buf
    ensures ok <==> ReadAs(q, old(buf[..])).Found?
    ensures ok ==> Strings(buf[..], starts, ReadAs(q, old(buf[..])).fields)
  {
    hide Cutting, Strings, ReadAs, Skip, StringLength;
    ghost var was := buf[..];
    ghost var fields: seq<seq<int>> := [];
    starts := [];
    var bp := 0;
    CuttingStarts(q, was);
    while true
      invariant bp <= buf.Length && Cutting(q, was, buf[..], bp, starts, fields)
      decreases buf.Length - bp
    {
      ghost var from, s := bp, buf[..];
      bp := SkipBlanks(q, buf, bp);
      assert buf[from..] == s[from..] && buf[bp..] == s[bp..];
      if bp == buf.Length {
        CuttingEnds(q, was, s, from, starts, fields, bp);
        return false, starts;
      }
      if buf[bp] == NEWLINE || buf[bp] == 0 {
        CuttingEnds(q, was, s, from, starts, fields, bp);
        return true, starts;
      }
      var start := bp;
      bp := ScanWord(q, buf, bp);
      CuttingGoesOn(q, was, s, from, starts, fields, start, bp);
      if bp == buf.Length {
        return false, starts;
      }
      buf[bp] := 0;
      assert buf[..] == s[bp := 0];
      fields := fields + [s[start..bp]];
      starts := starts + [start];
      bp := bp + 1;
    }
  }

  /** A line in a buffer whose rest is left from earlier lines. */
  method SplitLine(q: Separators, buf: array<int>, ghost line: seq<int>, ghost stale: seq<int>)
      returns (ok: bool, starts: seq<nat>)
    requires q.Legal() && Gets(line) && buf[..] == line + [0] + stale
    modifies buf
    ensures ok && |starts| == |Fields(q, line)| <==> Closed(q, line) || EndsAtOnce(q, stale)
    ensures ok && |starts| == |Fields(q, line)| ==> Strings(buf[..], starts, Fields(q, line))
    ensures ok ==> |Fields(q, line)| <= |starts|
  {
    hide ReadAs, Fields, EndsAtOnce, Closed;
    ok, starts := Split(q, buf);
    ReadExactly(q, line, stale);
    NothingRead(q, stale);
    AfterNothing(Fields(q, line), ReadAs(q, stale));
  }
}
