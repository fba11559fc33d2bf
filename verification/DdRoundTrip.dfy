/** What conv=block followed by conv=unblock makes of a text, and when that is the text itself. */
module DdRoundTrip {
  import opened Dd

  /** The record size is set and no case conversion is asked for. */
  predicate Plain(o: Options) {
    0 < o.cbs && !o.ucase && !o.lcase
  }

  function LineLength(t: seq<int>): (n: nat)
    ensures n <= |t| && (n < |t| ==> t[n] == NEWLINE) && forall k :: 0 <= k < n ==> t[k] != NEWLINE
  {
    if t == [] || t[0] == NEWLINE then 0 else 1 + LineLength(t[1..])
  }

  function Stripped(s: seq<int>): (r: seq<int>)
    ensures |r| <= |s|
  {
    if s == [] || s[|s| - 1] != SPACE then s else Stripped(s[..|s| - 1])
  }

  function Cut(s: seq<int>, n: nat): (r: seq<int>)
    ensures |r| <= n && r <= s && (|s| <= n ==> r == s)
  {
    if |s| <= n then s else s[..n]
  }

  /** Lines cut to the record size and stripped of trailing blanks. */
  function Normalised(cbs: nat, t: seq<int>): seq<int> {
    var n := LineLength(t);
    if n < |t| then Stripped(Cut(t[..n], cbs)) + [NEWLINE] + Normalised(cbs, t[n + 1..])
    else if cbs <= n then Stripped(Cut(t, cbs)) + [NEWLINE]
    else Stripped(t)
  }

  /** No line is longer than a record or ends in a blank; an unfinished one is shorter still. */
  ghost predicate Clean(cbs: nat, t: seq<int>) {
    var n := LineLength(t);
    Stripped(t[..n]) == t[..n] &&
    if n < |t| then n <= cbs && Clean(cbs, t[n + 1..]) else n < cbs
  }

  function LongLines(cbs: nat, t: seq<int>): nat {
    var n := LineLength(t);
    (if cbs < n then 1 else 0) + if n < |t| then LongLines(cbs, t[n + 1..]) else 0
  }

  // ----- block, line by line

  function Record(cbs: nat, line: seq<int>): (r: seq<int>)
    ensures |r| == cbs
  {
    Cut(line, cbs) + Spaces(cbs - |Cut(line, cbs)|)
  }

  ghost predicate NoNewline(s: seq<int>) {
    forall k :: 0 <= k < |s| ==> s[k] != NEWLINE
  }

  lemma Assoc(a: seq<int>, b: seq<int>, c: seq<int>)
    ensures a + (b + c) == (a + b) + c && [] + a == a && a + [] == a
  {
  }

  lemma BlockCons(o: Options, c: int, rest: seq<int>, cbc: nat)
    ensures Block(o, [c] + rest, cbc) == BlockOne(o, cbc, c) + Block(o, rest, BlockCount(o, cbc, c))
    ensures Truncations(o, [c] + rest, cbc)
            == (if 0 < o.cbs == cbc && c != NEWLINE then 1 else 0) + Truncations(o, rest, BlockCount(o, cbc, c))
  {
    hide BlockOne, BlockCount;
    var t := [c] + rest;
    assert t[0] == c && t[1..] == rest;
  }

  lemma UnblockCons(o: Options, c: int, rest: seq<int>, at: Place)
    ensures Unblock(o, [c] + rest, at) == UnblockOne(o, at, c) + Unblock(o, rest, UnblockPlace(o, at, c))
  {
    hide UnblockOne, UnblockPlace;
    var t := [c] + rest;
    assert t[0] == c && t[1..] == rest;
  }

  function Room(o: Options, cbc: nat): nat {
    if cbc < o.cbs then o.cbs - cbc else 0
  }

  lemma {:induction false} BlockCharacters(o: Options, s: seq<int>, rest: seq<int>, cbc: nat)
    requires Plain(o) && NoNewline(s)
    ensures Block(o, s + rest, cbc) == Cut(s, Room(o, cbc)) + Block(o, rest, cbc + |s|)
    ensures Truncations(o, s + rest, cbc) ==
            (if cbc <= o.cbs < cbc + |s| then 1 else 0) + Truncations(o, rest, cbc + |s|)
    decreases |s|
  {
    hide Block, Truncations;
    if s == [] {
      assert s + rest == rest;
      Assoc(Block(o, rest, cbc), [], []);
    } else {
      BlockCharacters(o, s[1..], rest, cbc + 1);
      Rotate([], s, rest);
      BlockCons(o, s[0], s[1..] + rest, cbc);
      BlockOneAndCut(o, s, cbc);
      hide BlockOne, Cut, Room;
      Assoc(BlockOne(o, cbc, s[0]), Cut(s[1..], Room(o, cbc + 1)), Block(o, rest, cbc + |s|));
    }
  }

  lemma BlockOneAndCut(o: Options, s: seq<int>, cbc: nat)
    requires Plain(o) && s != [] && s[0] != NEWLINE
    ensures BlockOne(o, cbc, s[0]) + Cut(s[1..], Room(o, cbc + 1)) == Cut(s, Room(o, cbc))
    ensures BlockCount(o, cbc, s[0]) == cbc + 1
  {
    CutCons(s, Room(o, cbc));
  }

  lemma CutCons(s: seq<int>, n: nat)
    requires s != []
    ensures Cut(s, n) == if n == 0 then [] else [s[0]] + Cut(s[1..], n - 1)
    ensures n == 0 ==> Cut(s[1..], 0) == []
  {
  }

  /** A finished line becomes one record. */
  lemma BlockLine(o: Options, line: seq<int>, rest: seq<int>)
    requires Plain(o) && NoNewline(line)
    ensures Block(o, line + [NEWLINE] + rest, 0) == Record(o.cbs, line) + Block(o, rest, 0)
    ensures Truncations(o, line + [NEWLINE] + rest, 0) == (if o.cbs < |line| then 1 else 0) + Truncations(o, rest, 0)
  {
    hide Block, Truncations;
    Assoc(line, [NEWLINE], rest);
    BlockCharacters(o, line, [NEWLINE] + rest, 0);
    BlockCons(o, NEWLINE, rest, |line|);
    var c := Cut(line, o.cbs);
    assert BlockOne(o, |line|, NEWLINE) == Spaces(o.cbs - |c|);
    Assoc(c, Spaces(o.cbs - |c|), Block(o, rest, 0));
  }

  // ----- unblock, record by record

  /** Only blanks have been dropped, and all of them at the end. */
  lemma {:induction false} HeldBack(q: seq<int>)
    ensures forall k :: 0 <= k < |Stripped(q)| ==> Stripped(q)[k] == q[k]
    ensures forall k :: |Stripped(q)| <= k < |q| ==> q[k] == SPACE
    ensures Stripped(q) != [] ==> Stripped(q)[|Stripped(q)| - 1] != SPACE
  {
    if q != [] && q[|q| - 1] == SPACE {
      var init := q[..|q| - 1];
      HeldBack(init);
      assert forall k :: 0 <= k < |init| ==> init[k] == q[k];
    }
  }

  lemma StrippedSnoc(q: seq<int>, c: int)
    ensures c == SPACE ==> Stripped(q + [c]) == Stripped(q)
    ensures c != SPACE ==> Stripped(q + [c]) == q + [c]
  {
    assert (q + [c])[..|q|] == q;
  }

  ghost function After(q: seq<int>): Place {
    Place(|q|, |q| - |Stripped(q)|)
  }

  lemma OneWritten(o: Options, at: Place, c: int)
    requires Plain(o) && at.cbc + 1 < o.cbs
    ensures c == SPACE ==> UnblockOne(o, at, c) == []
    ensures c != SPACE ==> UnblockOne(o, at, c) == Spaces(at.nspace) + [c]
    ensures UnblockPlace(o, at, c) == Place(at.cbc + 1, if c == SPACE then at.nspace + 1 else 0)
  {
  }

  lemma PlaceInside(o: Options, q: seq<int>, c: int)
    requires Plain(o) && |q| + 1 < o.cbs
    ensures UnblockPlace(o, After(q), c) == After(q + [c])
  {
    hide Stripped;
    StrippedSnoc(q, c);
  }

  lemma BlankInside(o: Options, q: seq<int>)
    requires Plain(o) && |q| + 1 < o.cbs
    ensures Stripped(q) + UnblockOne(o, After(q), SPACE) == Stripped(q + [SPACE])
  {
    StrippedSnoc(q, SPACE);
    hide Stripped;
    Assoc(Stripped(q), [], []);
  }

  lemma OtherInside(o: Options, q: seq<int>, c: int)
    requires Plain(o) && |q| + 1 < o.cbs && c != SPACE
    ensures Stripped(q) + UnblockOne(o, After(q), c) == q + [c]
  {
    var n := |q| - |Stripped(q)|;
    OneWritten(o, Place(|q|, n), c);
    Released(q, c);
    hide Stripped, UnblockOne, Spaces;
    calc {
      Stripped(q) + UnblockOne(o, After(q), c);
      Stripped(q) + UnblockOne(o, Place(|q|, n), c);
      Stripped(q) + (Spaces(n) + [c]);
      q + [c];
    }
  }

  lemma OneInside(o: Options, q: seq<int>, c: int)
    requires Plain(o) && |q| + 1 < o.cbs
    ensures Stripped(q) + UnblockOne(o, After(q), c) == Stripped(q + [c])
  {
    hide Stripped, UnblockOne, After;
    if c == SPACE {
      BlankInside(o, q);
    } else {
      OtherInside(o, q, c);
      StrippedSnoc(q, c);
    }
  }

  lemma Released(q: seq<int>, c: int)
    ensures Stripped(q) + (Spaces(|q| - |Stripped(q)|) + [c]) == q + [c]
  {
    HeldBack(q);
    Rejoined(Stripped(q), Spaces(|q| - |Stripped(q)|), q, c);
  }

  lemma Rejoined(p: seq<int>, held: seq<int>, q: seq<int>, c: int)
    requires |p| + |held| == |q| && (forall k :: 0 <= k < |p| ==> p[k] == q[k])
    requires (forall k :: |p| <= k < |q| ==> q[k] == SPACE) && forall k :: 0 <= k < |held| ==> held[k] == SPACE
    ensures p + (held + [c]) == q + [c]
  {
    var s, t := p + (held + [c]), q + [c];
    forall k | 0 <= k < |t|
      ensures s[k] == t[k]
    {
    }
  }

  /** One character in the middle of a record. */
  lemma UnblockInside(o: Options, q: seq<int>, c: int, rest: seq<int>)
    requires Plain(o) && |q| + 1 < o.cbs
    ensures Stripped(q) + Unblock(o, [c] + rest, After(q)) == Stripped(q + [c]) + Unblock(o, rest, After(q + [c]))
  {
    hide Unblock, Stripped, UnblockOne, UnblockPlace, After;
    UnblockCons(o, c, rest, After(q));
    OneInside(o, q, c);
    PlaceInside(o, q, c);
    Assoc(Stripped(q), UnblockOne(o, After(q), c), Unblock(o, rest, After(q + [c])));
  }

  /** The last character of a record. */
  lemma UnblockLast(o: Options, q: seq<int>, c: int, rest: seq<int>)
    requires Plain(o) && |q| + 1 == o.cbs
    ensures Stripped(q) + Unblock(o, [c] + rest, After(q)) ==
            Stripped(q + [c]) + [NEWLINE] + Unblock(o, rest, Place(0, 0))
  {
    hide Unblock, Stripped;
    HeldBack(q);
    StrippedSnoc(q, c);
    UnblockCons(o, c, rest, After(q));
    var one := UnblockOne(o, After(q), c);
    assert Stripped(q) + one == Stripped(q + [c]) + [NEWLINE];
    Assoc(Stripped(q), one, Unblock(o, rest, Place(0, 0)));
  }

  lemma Rotate(q: seq<int>, x: seq<int>, rest: seq<int>)
    requires x != []
    ensures x + rest == [x[0]] + (x[1..] + rest) && q + [x[0]] + x[1..] == q + x
  {
  }

  lemma {:induction false} UnblockRest(o: Options, q: seq<int>, x: seq<int>, rest: seq<int>)
    requires Plain(o) && 0 < |x| && |q| + |x| == o.cbs
    ensures Stripped(q) + Unblock(o, x + rest, After(q)) == Stripped(q + x) + [NEWLINE] + Unblock(o, rest, Place(0, 0))
    decreases |x|
  {
    hide Unblock, Stripped, After;
    Rotate(q, x, rest);
    if |x| == 1 {
      assert x[1..] == [] && x == [x[0]];
      Assoc(rest, [], []);
      UnblockLast(o, q, x[0], rest);
    } else {
      UnblockInside(o, q, x[0], x[1..] + rest);
      UnblockRest(o, q + [x[0]], x[1..], rest);
    }
  }

  lemma {:induction false} UnblockPartial(o: Options, q: seq<int>, x: seq<int>)
    requires Plain(o) && |q| + |x| < o.cbs
    ensures Stripped(q) + Unblock(o, x, After(q)) == Stripped(q + x)
    decreases |x|
  {
    if x == [] {
      assert q + x == q && Stripped(q) + [] == Stripped(q);
    } else {
      hide Unblock, Stripped, After;
      Rotate(q, x, []);
      Assoc(x, [], []);
      Assoc(x[1..], [], []);
      UnblockInside(o, q, x[0], x[1..]);
      UnblockPartial(o, q + [x[0]], x[1..]);
    }
  }

  /** A whole record becomes its contents without trailing blanks, and a newline. */
  lemma UnblockRecord(o: Options, record: seq<int>, rest: seq<int>)
    requires Plain(o) && |record| == o.cbs
    ensures Unblock(o, record + rest, Place(0, 0)) == Stripped(record) + [NEWLINE] + Unblock(o, rest, Place(0, 0))
  {
    assert Stripped([]) == [] && After([]) == Place(0, 0);
    hide Unblock, Stripped, After;
    UnblockRest(o, [], record, rest);
    Assoc(record, [], []);
    Assoc(Unblock(o, record + rest, Place(0, 0)), [], []);
  }

  lemma {:induction false} StrippedOfPadded(s: seq<int>, n: nat)
    ensures Stripped(s + Spaces(n)) == Stripped(s)
    decreases n
  {
    if n == 0 {
      assert s + Spaces(0) == s;
    } else {
      StrippedOfPadded(s, n - 1);
      assert s + Spaces(n) == (s + Spaces(n - 1)) + [SPACE];
      StrippedSnoc(s + Spaces(n - 1), SPACE);
    }
  }

  // ----- There and back

  /** conv=block then conv=unblock cuts long lines and drops trailing blanks, nothing else. */
  lemma {:induction false} BlockThenUnblock(o: Options, t: seq<int>)
    requires Plain(o)
    ensures Unblock(o, Block(o, t, 0), Place(0, 0)) == Normalised(o.cbs, t)
    ensures Truncations(o, t, 0) == LongLines(o.cbs, t)
    decreases |t|
  {
    hide Unblock, Block, Truncations, Stripped, Cut, LineLength;
    var n := LineLength(t);
    if n < |t| {
      var line, rest := t[..n], t[n + 1..];
      assert t == line + [NEWLINE] + rest;
      BlockLine(o, line, rest);
      UnblockRecord(o, Record(o.cbs, line), Block(o, rest, 0));
      StrippedOfPadded(Cut(line, o.cbs), o.cbs - |Cut(line, o.cbs)|);
      BlockThenUnblock(o, rest);
    } else {
      LastLine(o, t);
    }
  }

  lemma Nothing(o: Options, n: nat)
    ensures Stripped([]) == [] && After([]) == Place(0, 0)
    ensures Block(o, [], n) == [] && Truncations(o, [], n) == 0 && Unblock(o, [], Place(0, 0)) == []
  {
  }

  lemma LastLine(o: Options, t: seq<int>)
    requires Plain(o) && LineLength(t) == |t|
    ensures Unblock(o, Block(o, t, 0), Place(0, 0)) == Normalised(o.cbs, t)
    ensures Truncations(o, t, 0) == LongLines(o.cbs, t)
  {
    hide Unblock, Block, Truncations, Stripped, LineLength, After;
    Nothing(o, |t|);
    Assoc(t, [], []);
    BlockCharacters(o, t, [], 0);
    var c := Cut(t, o.cbs);
    Assoc(c, [], []);
    assert Block(o, t, 0) == c;
    if o.cbs <= |t| {
      UnblockRecord(o, c, []);
      Assoc(Stripped(c) + [NEWLINE], [], []);
    } else {
      UnblockPartial(o, [], t);
      Assoc(Unblock(o, t, Place(0, 0)), [], []);
    }
  }

  /** The text comes back unchanged if and only if it is clean. */
  lemma {:induction false} RoundTripIff(o: Options, t: seq<int>)
    requires Plain(o)
    ensures Unblock(o, Block(o, t, 0), Place(0, 0)) == t <==> Clean(o.cbs, t)
  {
    BlockThenUnblock(o, t);
    NormalisedIff(o.cbs, t);
  }

  lemma {:induction false} NormalisedIff(cbs: nat, t: seq<int>)
    requires 0 < cbs
    ensures Normalised(cbs, t) == t <==> Clean(cbs, t)
    decreases |t|
  {
    hide Stripped, LineLength, Cut;
    var n := LineLength(t);
    if n < |t| {
      var line, rest := t[..n], t[n + 1..];
      NormalisedIff(cbs, rest);
      assert t == line + [NEWLINE] + rest;
      FirstLineIff(cbs, line, rest, Normalised(cbs, rest));
    } else {
      LastLineIff(cbs, t);
    }
  }

  lemma LastLineIff(cbs: nat, t: seq<int>)
    requires 0 < cbs && LineLength(t) == |t|
    ensures Normalised(cbs, t) == t <==> Clean(cbs, t)
  {
    hide Stripped, LineLength;
    assert t[..|t|] == t;
    LastOf(Stripped(Cut(t, cbs)), t);
  }

  lemma LastOf(c: seq<int>, t: seq<int>)
    requires NoNewline(t)
    ensures c + [NEWLINE] != t
  {
    assert (c + [NEWLINE])[|c|] == NEWLINE;
  }

  lemma FirstLineIff(cbs: nat, line: seq<int>, rest: seq<int>, rest': seq<int>)
    requires NoNewline(line)
    ensures Stripped(Cut(line, cbs)) + [NEWLINE] + rest' == line + [NEWLINE] + rest
            <==> |line| <= cbs && Stripped(line) == line && rest' == rest
  {
    hide Stripped, Spaces;
    HeldBack(Cut(line, cbs));
    var c := Stripped(Cut(line, cbs));
    var s, t := c + [NEWLINE] + rest', line + [NEWLINE] + rest;
    assert s[|c|] == NEWLINE && s[|c| + 1..] == rest';
    assert t[|line|] == NEWLINE && t[|line| + 1..] == rest;
    assert forall k :: 0 <= k < |line| ==> t[k] == line[k];
    if s == t {
      assert |c| == |line|;
    }
  }

  /** With one set of options and any two output block sizes, the second copy restores a clean text. */
  method CopyThereAndBack(o: Options, text: seq<int>, obs1: nat, obs2: nat)
        returns (blocked: seq<seq<int>>, back: seq<seq<int>>)
    requires Plain(o) && 0 < obs1 && 0 < obs2
    ensures Flatten(blocked) == Block(o, text, 0)
    ensures Flatten(back) == Normalised(o.cbs, text)
    ensures Flatten(back) == text <==> Clean(o.cbs, text)
  {
    hide Block, Unblock, Normalised, Clean, Flatten;
    var first := new Copier(o, obs1);
    first.BlockAll(text);
    blocked := first.written;
    var second := new Copier(o, obs2);
    second.UnblockAll(Flatten(blocked));
    back := second.written;
    BlockThenUnblock(o, text);
    RoundTripIff(o, text);
  }
}
