/**
 What follows for `grep`: which strings are patterns, that every list of items can be written,
 and which lines some common patterns select.
 */
module GrepLaws {
  import opened GrepPattern
  import opened Grep
  import opened GrepText

  // ----- Every string that parses is the text of a tree

  lemma StandsJoin(p: string, k: nat, s: string, t: string)
    requires Stands(p, k, s) && Stands(p, k + |s|, t)
    ensures Stands(p, k, s + t)
  {
    forall i | 0 <= i < |s + t|
      ensures (s + t)[i] == At(p, k + i)
    {
      if |s| <= i {
        assert (s + t)[i] == t[i - |s|];
      }
    }
  }

  lemma OneStands(p: string, k: nat)
    requires k < |p|
    ensures Stands(p, k, [p[k]])
  {
  }

  lemma TwoStand(p: string, k: nat)
    requires k + 1 < |p|
    ensures Stands(p, k, [p[k], p[k + 1]])
  {
  }

  /** The element that the parser takes at position k. */
  function ElemAt(p: string, k: nat, first: nat): Elem
    requires k < |p|
  {
    if RangeAt(p, k, first) then To(p[k + 1]) else One(p[k])
  }

  lemma ElemAtStands(p: string, k: nat, first: nat)
    requires Ascii(p) && k < |p|
    ensures Stands(p, k, ElemText(ElemAt(p, k, first))) && CharOk(Last(ElemAt(p, k, first)))
  {
    OneStands(p, k);
    if RangeAt(p, k, first) {
      TwoStand(p, k);
    }
  }

  lemma ElemTaken(p: string, k: nat, first: nat, m: Members) returns (n: nat, e: Elem, m': Members)
    requires Ascii(p) && first <= k && ClassFrom(p, k, first, m).ClassOk? && (first < k ==> At(p, k) != ']')
    ensures k < |p| && n == k + |ElemText(e)| && Stands(p, k, ElemText(e)) && CharOk(Last(e)) && n <= |p|
    ensures if e.To? then first < k && e.hi != ']'
            else k == first || (e.c != ']' && (e.c == '-' ==> At(p, n) == ']'))
    ensures ClassFrom(p, k, first, m) == if At(p, n) == ']' then ClassOk(m', n + 1) else ClassFrom(p, n, first, m')
  {
    assert k < |p| && !(p[k] == '-' && first < k && k + 1 == |p|);
    e := ElemAt(p, k, first);
    ClassStep(p, k, first, m);
    ElemAtStands(p, k, first);
    n, m' := k + |ElemText(e)|, Added(m, e, Before(p, k, first));
    NextStep(p, n, first, m');
  }

  lemma EndStands(p: string, n: nat)
    requires At(p, n) == ']'
    ensures Stands(p, n, "]")
  {
  }

  /** A class that parses has been written with elements. */
  lemma {:induction false} ClassIsElems(p: string, k: nat, first: nat, m: Members) returns (es: seq<Elem>)
    requires Ascii(p) && first <= k && ClassFrom(p, k, first, m).ClassOk? && (first < k ==> At(p, k) != ']')
    ensures es != [] && ElemsOk(es, k == first) && Stands(p, k, ElemsText(es) + "]")
    ensures ClassFrom(p, k, first, m).next == k + |ElemsText(es)| + 1
    decreases |p| - k
  {
    hide ClassFrom, ClassNext, ElemsText, Added, Before, Stands, At;
    var n, e, m' := ElemTaken(p, k, first, m);
    if At(p, n) == ']' {
      es := [e];
      EndStands(p, n);
      NoElems();
    } else {
      var rest := ClassIsElems(p, n, first, m');
      es := [e] + rest;
      assert es[1..] == rest;
    }
    ElemsSplit(es, "]");
    StandsJoin(p, k, ElemText(e), ElemsText(es[1..]) + "]");
  }

  lemma BracketIsShape(p: string, k: nat) returns (s: Shape)
    requires Ascii(p) && k < |p| && p[k] == '[' && ParseClass(p, k + 1).ClassOk?
    ensures ShapeOk(s) && Stands(p, k, ShapeText(s)) && ParseClass(p, k + 1).next == k + |ShapeText(s)| && s.Bracket?
  {
    hide ElemsText, ElemsOk, Stands, ClassFrom;
    var negated := At(p, k + 1) == '^';
    var from := if negated then k + 2 else k + 1;
    var es := ClassIsElems(p, from, from, NoMembers());
    s := Bracket(negated, es);
    OneStands(p, k);
    if negated {
      OneStands(p, k + 1);
      StandsJoin(p, k, "[", "^");
      assert "[" + "^" == "[^";
      StandsJoin(p, k, "[^", ElemsText(es) + "]");
      assert "[^" + (ElemsText(es) + "]") == ShapeText(s);
    } else {
      StandsJoin(p, k, "[", ElemsText(es) + "]");
      assert "[" + (ElemsText(es) + "]") == ShapeText(s);
      FirstStands(p, k + 1, ElemsText(es) + "]");
      FirstOfElems(es);
    }
  }

  lemma AtomIsShape(p: string, k: nat) returns (s: Shape)
    requires Ascii(p) && k < |p| && p[k] != '*' && ParseAtom(p, k).AtomOk? && ParseAtom(p, k).item.Item?
    ensures ShapeOk(s) && Stands(p, k, ShapeText(s)) && ParseAtom(p, k).next == k + |ShapeText(s)|
    ensures s == Plain('$') ==> k + 1 < |p|
    ensures s == Plain('^') ==> p[k] == '^'
  {
    OneStands(p, k);
    if p[k] == '.' {
      s := Dot;
    } else if p[k] == '[' {
      s := BracketIsShape(p, k);
    } else if p[k] == '\\' {
      TwoStand(p, k);
      s := Escaped(p[k + 1]);
    } else {
      s := Plain(p[k]);
    }
  }

  lemma {:induction false} StarsStand(p: string, n: nat)
    requires n <= |p|
    ensures n <= SkipStars(p, n) <= |p| && Stands(p, n, Stars(SkipStars(p, n) - n))
    decreases |p| - n
  {
    if At(p, n) == '*' {
      StarsStand(p, n + 1);
      var c := SkipStars(p, n) - n;
      assert Stars(c) == ['*'] + Stars(c - 1);
      OneStands(p, n);
      StandsJoin(p, n, ['*'], Stars(c - 1));
    }
  }

  lemma ParsedStep(p: string, k: nat)
    requires Ascii(p) && k < |p| && ParseItems(p, k).Parsed?
    ensures ParseAtom(p, k).AtomOk? && k < ParseAtom(p, k).next <= |p|
    ensures var n := SkipStars(p, ParseAtom(p, k).next); n <= |p| && ParseItems(p, n).Parsed?
    ensures ParseAtom(p, k).item.EndOfLine? ==> p[k] == '$' && k + 1 == |p|
  {
    AtomAdvances(p, k);
  }

  lemma JoinPieces(p: string, k: nat, s: Shape, c: nat, ps: seq<Piece>, atEnd: bool)
    requires Stands(p, k, ShapeText(s)) && Stands(p, k + |ShapeText(s)|, Stars(c))
    requires EndsWith(p, k + |ShapeText(s)| + c, PiecesText(ps) + Tail(atEnd))
    ensures EndsWith(p, k, PiecesText([Piece(s, c)] + ps) + Tail(atEnd))
  {
    hide PiecesText, Stands, ShapeText, Stars, Tail;
    var all := [Piece(s, c)] + ps;
    assert all[1..] == ps;
    PiecesSplit(all, Tail(atEnd));
    var more := PiecesText(ps) + Tail(atEnd);
    StandsJoin(p, k + |ShapeText(s)|, Stars(c), more);
    StandsJoin(p, k, ShapeText(s), Stars(c) + more);
  }

  lemma {:induction false} ItemsArePieces(p: string, k: nat) returns (ps: seq<Piece>, atEnd: bool)
    requires Ascii(p) && k <= |p| && At(p, k) != '*' && ParseItems(p, k).Parsed?
    ensures PiecesOk(ps, atEnd) && EndsWith(p, k, PiecesText(ps) + Tail(atEnd))
    ensures ps != [] && ps[0].shape == Plain('^') ==> k < |p| && p[k] == '^'
    decreases |p| - k
  {
    hide ParseItems, ParseAtom, Stands, EndsWith, PiecesText, PiecesOk, ShapeOk, ShapeText, SkipStars, Tail;
    if k == |p| {
      ps, atEnd := [], false;
      NothingLeftOver(p);
      return;
    }
    ParsedStep(p, k);
    if ParseAtom(p, k).item.EndOfLine? {
      ps, atEnd := [], true;
      DollarLeftOver(p, k);
      return;
    }
    var s := AtomIsShape(p, k);
    var next := k + |ShapeText(s)|;
    StarsStand(p, next);
    var c := SkipStars(p, next) - next;
    ps, atEnd := ItemsArePieces(p, next + c);
    JoinPieces(p, k, s, c, ps, atEnd);
    LastPiece(p, k, s, c, ps, atEnd);
    ps := [Piece(s, c)] + ps;
  }

  lemma NothingLeftOver(p: string)
    ensures PiecesOk([], false) && EndsWith(p, |p|, PiecesText([]) + Tail(false))
  {
    NoPieces("");
  }

  lemma DollarLeftOver(p: string, k: nat)
    requires k + 1 == |p| && p[k] == '$'
    ensures PiecesOk([], true) && EndsWith(p, k, PiecesText([]) + Tail(true))
  {
    NoPieces("$");
    OneStands(p, k);
  }

  lemma LastPiece(p: string, k: nat, s: Shape, c: nat, ps: seq<Piece>, atEnd: bool)
    requires ShapeOk(s) && PiecesOk(ps, atEnd) && (s == Plain('$') ==> k + 1 < |p|)
    requires EndsWith(p, k + |ShapeText(s)| + c, PiecesText(ps) + Tail(atEnd))
    ensures PiecesOk([Piece(s, c)] + ps, atEnd)
  {
    hide ShapeOk;
    var all := [Piece(s, c)] + ps;
    assert ps != [] ==> all[|all| - 1] == ps[|ps| - 1];
    if ps == [] {
      NoPieces(Tail(atEnd));
    }
  }

  lemma {:induction false} LeadingStars(p: string, k: nat)
    requires Ascii(p) && k <= |p| && ParseLeadingStars(p, k).Parsed?
    ensures SkipStars(p, k) <= |p| && ParseItems(p, SkipStars(p, k)).Parsed?
    decreases |p| - k
  {
    if At(p, k) == '*' {
      LeadingStars(p, k + 1);
    }
  }

  lemma WholeText(p: string, t: Pattern)
    requires EndsWith(p, 0, Text(t))
    ensures Text(t) == p
  {
  }

  lemma TreeStands(p: string, t: Pattern, start: nat)
    requires Stands(p, start, Stars(t.leading)) && start == if t.anchored then 1 else 0
    requires t.anchored ==> At(p, 0) == '^'
    requires EndsWith(p, start + t.leading, PiecesText(t.pieces) + Tail(t.atEnd))
    ensures EndsWith(p, 0, Text(t))
  {
    hide Text, PiecesText, Stars, Tail, Stands;
    TextSplit(t);
    var more := Stars(t.leading) + (PiecesText(t.pieces) + Tail(t.atEnd));
    StandsJoin(p, start, Stars(t.leading), PiecesText(t.pieces) + Tail(t.atEnd));
    if t.anchored {
      OneStands(p, 0);
      StandsJoin(p, 0, "^", more);
    } else {
      assert "" + more == more;
    }
  }

  /** A string is accepted if and only if it is the text of a well-formed tree. */
  lemma ParsedIsText(p: string) returns (t: Pattern)
    requires Ascii(p) && ParsePattern(p).Parsed?
    ensures WellFormed(t) && Text(t) == p && ParsePattern(p).items == Items(t) && (Anchored(p) <==> t.anchored)
  {
    hide ParseItems, ParseLeadingStars, Stands, Text, PiecesText, PiecesOk, Items, SkipStars, Stars, Tail;
    var start := if Anchored(p) then 1 else 0;
    LeadingStars(p, start);
    StarsStand(p, start);
    var n := SkipStars(p, start) - start;
    var ps, atEnd := ItemsArePieces(p, start + n);
    t := Pattern(Anchored(p), n, ps, atEnd);
    TreeStands(p, t, start);
    WholeText(p, t);
    TextParses(t);
  }

  // ----- Every list of items can be written

  predicate NeedsNoEscape(c: char) { c in {'<', '>', '(', ')'} || '1' <= c <= '9' }

  function EndElem(m: Members): seq<Elem> { if m['-' as int] then [One('-')] else [] }

  /** The members from x on, without `]` and `-`, and then the `-`. */
  function ListedFrom(m: Members, x: int): seq<Elem>
    requires 0 <= x <= 128
    decreases 128 - x
  {
    if x == 128 then EndElem(m)
    else if m[x] && x as char != ']' && x as char != '-' then [One(x as char)] + ListedFrom(m, x + 1)
    else ListedFrom(m, x + 1)
  }

  /** All members of a set that holds the `]`. */
  function Listed(m: Members): seq<Elem> { [One(']')] + ListedFrom(m, 1) }

  function ShapeFor(a: Atom): Shape {
    match a
    case Lit(c) => if NeedsNoEscape(c) then Plain(c) else Escaped(c)
    case Any => Dot
    case Class(m) => if m[']' as int] then Bracket(false, Listed(m)) else Bracket(true, Listed(Negated(m)))
  }

  /** The end of the line can be asked for in last place only. */
  predicate Printable(items: seq<Item>) {
    AllSane(items) && forall k :: 0 <= k < |items| - 1 ==> items[k].Item?
  }

  function PiecesFor(items: seq<Item>): seq<Piece> {
    if items == [] || items[0].EndOfLine? then []
    else [Piece(ShapeFor(items[0].atom), if items[0].star then 1 else 0)] + PiecesFor(items[1..])
  }

  function PatternFor(items: seq<Item>): Pattern {
    Pattern(false, 0, PiecesFor(items), items != [] && items[|items| - 1].EndOfLine?)
  }

  lemma {:induction false} ListedOk(m: Members, x: int)
    requires 1 <= x <= 128
    ensures ElemsOk(ListedFrom(m, x), false)
    decreases 128 - x
  {
    if x < 128 {
      ListedOk(m, x + 1);
    }
  }

  predicate HoldsOne(es: seq<Elem>, y: int) {
    exists k :: 0 <= k < |es| && es[k].One? && es[k].c as int == y
  }

  lemma HoldsOneCons(c: char, es: seq<Elem>, y: int)
    ensures HoldsOne([One(c)] + es, y) <==> c as int == y || HoldsOne(es, y)
  {
    var all := [One(c)] + es;
    assert all[0] == One(c) && forall k :: 0 <= k < |es| ==> all[k + 1] == es[k];
    if k :| 0 <= k < |all| && all[k].One? && all[k].c as int == y {
      assert k == 0 || es[k - 1] == all[k];
    }
  }

  predicate OnlyOnes(es: seq<Elem>) {
    forall k :: 0 <= k < |es| ==> es[k].One?
  }

  lemma OnesHold(es: seq<Elem>, prev: char, y: int)
    requires OnlyOnes(es)
    ensures InElems(es, prev, y) <==> HoldsOne(es, y)
  {
    if k :| 0 <= k < |es| && es[k].One? && es[k].c as int == y {
      assert InElem(es[k], Prev(es, prev, k), y);
    }
  }

  lemma {:induction false} ListedOnes(m: Members, x: int)
    requires 1 <= x <= 128
    ensures OnlyOnes(ListedFrom(m, x))
    decreases 128 - x
  {
    if x < 128 {
      ListedOnes(m, x + 1);
    }
  }

  lemma EndHolds(m: Members, y: int)
    ensures HoldsOne(EndElem(m), y) <==> m['-' as int] && y == '-' as int
  {
    if m['-' as int] {
      HoldsOneCons('-', [], y);
      assert [One('-')] + [] == [One('-')];
    }
  }

  /** The list from x on holds exactly the members from x on, and the `-`. */
  lemma {:induction false} ListedHolds(m: Members, x: int, y: int)
    requires 1 <= x <= 128 && 0 <= y < 128
    ensures HoldsOne(ListedFrom(m, x), y) <==> m[y] && (y == '-' as int || (x <= y && y != ']' as int))
    decreases 128 - x
  {
    hide HoldsOne, EndElem;
    if x == 128 {
      EndHolds(m, y);
    } else {
      ListedHolds(m, x + 1, y);
      if m[x] && x as char != ']' && x as char != '-' {
        HoldsOneCons(x as char, ListedFrom(m, x + 1), y);
      }
    }
  }

  lemma ListedIs(m: Members, y: int)
    requires m[']' as int] && !m[0] && 0 <= y < 128
    ensures InElems(Listed(m), NUL, y) <==> m[y]
  {
    hide HoldsOne, InElems, ListedFrom;
    ListedHolds(m, 1, y);
    HoldsOneCons(']', ListedFrom(m, 1), y);
    ListedOnes(m, 1);
    OnesHold(Listed(m), NUL, y);
  }

  lemma ListedSet(m: Members)
    requires !m[0]
    ensures m[']' as int] ==> SetOf(false, Listed(m)) == m
    ensures !m[']' as int] ==> SetOf(true, Listed(Negated(m))) == m
  {
    hide Listed, InElems;
    if m[']' as int] {
      forall y | 0 <= y < 128
        ensures SetOf(false, Listed(m))[y] == m[y]
      {
        ListedIs(m, y);
      }
    } else {
      forall y | 0 <= y < 128
        ensures SetOf(true, Listed(Negated(m)))[y] == m[y]
      {
        ListedIs(Negated(m), y);
      }
    }
  }

  lemma ListedAllOk(m: Members)
    ensures Listed(m) != [] && ElemsOk(Listed(m), true) && Listed(m)[0] == One(']')
  {
    hide ListedFrom;
    ListedOk(m, 1);
    assert Listed(m)[1..] == ListedFrom(m, 1);
  }

  lemma ShapeForOk(a: Atom)
    requires Sane(Item(a, false))
    ensures ShapeOk(ShapeFor(a)) && AtomOf(ShapeFor(a)) == a
    ensures ShapeFor(a) != Plain('$') && ShapeFor(a) != Plain('^')
  {
    hide SetOf, Listed, ElemsOk, Negated;
    if a.Class? {
      ListedSet(a.members);
      ListedAllOk(a.members);
      ListedAllOk(Negated(a.members));
    }
  }

  /** The pieces stand for the items, and none of them is an unescaped `$` or `^`. */
  ghost predicate PiecesFit(ps: seq<Piece>, items: seq<Item>) {
    && (forall k :: 0 <= k < |ps| ==> ShapeOk(ps[k].shape))
    && (forall k :: 0 <= k < |ps| ==> ps[k].shape != Plain('$') && ps[k].shape != Plain('^'))
    && PieceItems(ps) + TailItems(items != [] && items[|items| - 1].EndOfLine?) == items
  }

  lemma PiecesFitCons(s: Shape, c: nat, ps: seq<Piece>, item: Item, items: seq<Item>)
    requires PiecesFit(ps, items) && ShapeOk(s) && s != Plain('$') && s != Plain('^')
    requires item == Item(AtomOf(s), c > 0)
    ensures PiecesFit([Piece(s, c)] + ps, [item] + items)
  {
    hide ShapeOk, AtomOf;
    var all, whole := [Piece(s, c)] + ps, [item] + items;
    assert all[1..] == ps;
    assert items != [] ==> whole[|whole| - 1] == items[|items| - 1];
    var atEnd := items != [] && items[|items| - 1].EndOfLine?;
    assert PieceItems(all) + TailItems(atEnd) == [item] + (PieceItems(ps) + TailItems(atEnd));
  }

  lemma {:induction false} PiecesForOk(items: seq<Item>)
    requires Printable(items)
    ensures PiecesFit(PiecesFor(items), items)
    decreases |items|
  {
    if items != [] && items[0].Item? {
      hide ShapeOk, ShapeFor, AtomOf, PiecesFit;
      assert Sane(items[0]) && Sane(Item(items[0].atom, false));
      ShapeForOk(items[0].atom);
      PiecesForOk(items[1..]);
      assert items == [items[0]] + items[1..];
      var stars := if items[0].star then 1 else 0;
      PiecesFitCons(ShapeFor(items[0].atom), stars, PiecesFor(items[1..]), items[0], items[1..]);
    }
  }

  lemma PatternForOk(items: seq<Item>)
    requires Printable(items)
    ensures WellFormed(PatternFor(items)) && Items(PatternFor(items)) == items
  {
    PiecesForOk(items);
    hide PiecesFor, ShapeOk, PieceItems, Printable;
    assert Literals(0) == [];
  }

  /** Whatever items there are, they have a text, and it is read as those items. */
  lemma PrintedParses(items: seq<Item>)
    requires Printable(items)
    ensures var p := Text(PatternFor(items)); Ascii(p) && ParsePattern(p) == Parsed(items) && !Anchored(p)
  {
    hide PiecesFor, Text, Ascii, ParsePattern, Anchored, WellFormed, Items, Printable;
    PatternForOk(items);
    TextParses(PatternFor(items));
  }

  // ----- Which lines some patterns select

  /** What `grep` with the pattern p does with a line. */
  ghost predicate Selects(p: string, line: string)
    requires Ascii(p) && Ascii(line)
  {
    ParsePattern(p).Parsed? && Selected(ParsePattern(p).items, Anchored(p), line)
  }

  lemma OneAtomSelected(a: Atom, line: string)
    requires Ascii(line)
    ensures Selected([Item(a, false)], false, line) <==> exists i :: 0 <= i < |line| && AtomMatches(a, line[i])
  {
    var items := [Item(a, false)];
    assert items[1..] == [];
    forall i | 0 <= i <= |line|
      ensures MatchesFrom(items, line, i) <==> i < |line| && AtomMatches(a, line[i])
    {
      AtomStep(items, line, i);
      if i < |line| {
        NothingLeft(line, i + 1);
      }
    }
    hide MatchesFrom, AtomMatches;
    if i :| 0 <= i < |line| && AtomMatches(a, line[i]) {
      assert MatchesFrom(items, line, i);
    }
  }

  lemma OnePiece(anchored: bool, s: Shape, stars: nat, atEnd: bool)
    ensures var t := Pattern(anchored, 0, [Piece(s, stars)], atEnd);
            && Text(t) == (if anchored then "^" else "") + ShapeText(s) + Stars(stars) + Tail(atEnd)
            && Items(t) == [Item(AtomOf(s), stars > 0)] + TailItems(atEnd)
  {
    hide ShapeText, AtomOf, Stars;
    var ps := [Piece(s, stars)];
    assert ps[1..] == [];
    assert PiecesText(ps) == ShapeText(s) + Stars(stars) && PieceItems(ps) == [Item(AtomOf(s), stars > 0)];
  }

  lemma ShapeAlone(s: Shape)
    requires ShapeOk(s) && s != Plain('^') && s != Plain('$')
    ensures Ascii(ShapeText(s)) && ParsePattern(ShapeText(s)) == Parsed([Item(AtomOf(s), false)])
    ensures !Anchored(ShapeText(s))
  {
    hide ShapeText, AtomOf, ShapeOk, Text, Items, ParsePattern, Ascii, Anchored;
    var t := Pattern(false, 0, [Piece(s, 0)], false);
    OnePiece(false, s, 0, false);
    assert "" + ShapeText(s) + Stars(0) + Tail(false) == ShapeText(s);
    assert [Item(AtomOf(s), false)] + TailItems(false) == [Item(AtomOf(s), false)];
    TextParses(t);
  }

  lemma BracketMatches(negated: bool, es: seq<Elem>, c: char)
    requires CharOk(c)
    ensures AtomMatches(AtomOf(Bracket(negated, es)), c) <==> (negated <==> !InElems(es, NUL, c as int))
  {
    hide InElems;
  }

  /** A pattern that is a single bracket class. */
  lemma BracketSelects(negated: bool, es: seq<Elem>, line: string)
    requires ShapeOk(Bracket(negated, es)) && Ascii(line)
    ensures Ascii(ShapeText(Bracket(negated, es)))
    ensures Selects(ShapeText(Bracket(negated, es)), line) <==>
            exists i :: 0 <= i < |line| && (negated <==> !InElems(es, NUL, line[i] as int))
  {
    hide Selected, ParsePattern, InElems, ShapeOk, ShapeText, AtomOf, AtomMatches;
    var s := Bracket(negated, es);
    ShapeAlone(s);
    OneAtomSelected(AtomOf(s), line);
    forall i | 0 <= i < |line|
      ensures AtomMatches(AtomOf(s), line[i]) <==> (negated <==> !InElems(es, NUL, line[i] as int))
    {
      BracketMatches(negated, es, line[i]);
    }
  }

  function Ones(cs: string): (es: seq<Elem>)
    ensures |es| == |cs| && OnlyOnes(es) && forall k :: 0 <= k < |cs| ==> es[k] == One(cs[k])
  {
    seq(|cs|, k requires 0 <= k < |cs| => One(cs[k]))
  }

  lemma {:induction false} OnesText(cs: string)
    ensures ElemsText(Ones(cs)) == cs
  {
    if cs != [] {
      OnesText(cs[1..]);
      assert Ones(cs)[1..] == Ones(cs[1..]);
      assert cs == [cs[0]] + cs[1..];
    }
  }

  lemma {:induction false} OnesOk(cs: string, first: bool)
    requires Ascii(cs) && ']' !in cs && '-' !in cs
    ensures ElemsOk(Ones(cs), first)
    decreases |cs|
  {
    if cs != [] {
      OnesOk(cs[1..], false);
      assert Ones(cs)[1..] == Ones(cs[1..]);
    }
  }

  lemma CharsHold(cs: string, c: char)
    ensures HoldsOne(Ones(cs), c as int) <==> c in cs
  {
    if c in cs {
      var k :| 0 <= k < |cs| && cs[k] == c;
      assert Ones(cs)[k].c == c;
    }
  }

  lemma OnesShape(negated: bool, cs: string)
    requires cs != [] && Ascii(cs) && ']' !in cs && '-' !in cs && (!negated ==> cs[0] != '^')
    ensures ShapeOk(Bracket(negated, Ones(cs)))
    ensures ShapeText(Bracket(negated, Ones(cs))) == (if negated then "[^" else "[") + cs + "]"
  {
    hide ElemsText, ElemsOk, ShapeText, Ascii, Ones;
    OnesText(cs);
    OnesOk(cs, true);
    BracketText(negated, Ones(cs));
  }

  lemma BracketText(negated: bool, es: seq<Elem>)
    ensures ShapeText(Bracket(negated, es)) == (if negated then "[^" else "[") + ElemsText(es) + "]"
  {
    hide ElemsText;
    assert "[" + "^" == "[^" && "[" + "" == "[";
  }

  lemma OnesSelect(negated: bool, cs: string, line: string)
    requires cs != [] && Ascii(cs) && ']' !in cs && '-' !in cs && (!negated ==> cs[0] != '^') && Ascii(line)
    ensures var p := (if negated then "[^" else "[") + cs + "]";
            Ascii(p) && (Selects(p, line) <==> exists i :: 0 <= i < |line| && (negated <==> line[i] !in cs))
  {
    hide Selects, ShapeText, InElems, ElemsOk, ShapeOk, Ones, HoldsOne;
    var es := Ones(cs);
    OnesShape(negated, cs);
    BracketSelects(negated, es, line);
    forall i | 0 <= i < |line|
      ensures InElems(es, NUL, line[i] as int) <==> line[i] in cs
    {
      OnesHold(es, NUL, line[i] as int);
      CharsHold(cs, line[i]);
    }
  }

  /** `[^cs]` selects the lines with a character that is not in cs. */
  lemma NegatedClassSelects(cs: string, line: string)
    requires cs != [] && Ascii(cs) && ']' !in cs && '-' !in cs && Ascii(line)
    ensures Ascii("[^" + cs + "]")
    ensures Selects("[^" + cs + "]", line) <==> exists i :: 0 <= i < |line| && line[i] !in cs
  {
    hide Selects;
    OnesSelect(true, cs, line);
  }

  /** `[cs]` selects the lines with a character in cs. */
  lemma ClassSelects(cs: string, line: string)
    requires cs != [] && Ascii(cs) && ']' !in cs && '-' !in cs && cs[0] != '^' && Ascii(line)
    ensures Ascii("[" + cs + "]")
    ensures Selects("[" + cs + "]", line) <==> exists i :: 0 <= i < |line| && line[i] in cs
  {
    hide Selects;
    OnesSelect(false, cs, line);
  }

  /** `[x-y]` selects the lines with a character from x to y; the wrong way round, those with an x. */
  lemma RangeSelects(x: char, y: char, line: string)
    requires CharOk(x) && CharOk(y) && x != '^' && y != ']' && Ascii(line)
    ensures Ascii(['[', x, '-', y, ']'])
    ensures Selects(['[', x, '-', y, ']'], line) <==>
            exists i :: 0 <= i < |line| && (line[i] == x || x <= line[i] <= y)
  {
    hide Selects, ShapeText, ShapeOk, InElems;
    var es := [One(x), To(y)];
    RangeShape(x, y);
    BracketSelects(false, es, line);
    forall i | 0 <= i < |line|
      ensures InElems(es, NUL, line[i] as int) <==> line[i] == x || x <= line[i] <= y
    {
      RangeHolds(x, y, line[i]);
    }
  }

  lemma RangeShape(x: char, y: char)
    requires CharOk(x) && CharOk(y) && x != '^' && y != ']'
    ensures ShapeOk(Bracket(false, [One(x), To(y)]))
    ensures ShapeText(Bracket(false, [One(x), To(y)])) == ['[', x, '-', y, ']']
  {
    var es := [One(x), To(y)];
    assert es[1..] == [To(y)] && [To(y)][1..] == [];
    assert ElemsText([To(y)]) == ['-', y] && ElemsOk([To(y)], false);
    assert ElemsText(es) == [x, '-', y];
  }

  lemma RangeHolds(x: char, y: char, c: char)
    ensures InElems([One(x), To(y)], NUL, c as int) <==> c == x || x <= c <= y
  {
    var es := [One(x), To(y)];
    assert InElem(es[0], Prev(es, NUL, 0), c as int) <==> c == x;
    assert InElem(es[1], Prev(es, NUL, 1), c as int) <==> c == x || x <= c <= y;
  }

  /** `.` selects the lines that are not empty. */
  lemma DotSelects(line: string)
    requires Ascii(line)
    ensures Selects(".", line) <==> line != []
  {
    hide Selected, ParsePattern;
    ShapeAlone(Dot);
    OneAtomSelected(Any, line);
    if line != [] {
      assert AtomMatches(Any, line[0]);
    }
  }

  // ----- Words and stars

  /** Characters that stand for themselves wherever they are. */
  predicate Ordinary(w: string) {
    forall k :: 0 <= k < |w| ==> CharOk(w[k]) && w[k] !in {'.', '[', '\\', '*', '^', '$'}
  }

  function Lits(w: string): seq<Item> {
    if w == [] then [] else [Item(Lit(w[0]), false)] + Lits(w[1..])
  }

  function Plains(w: string): (ps: seq<Piece>)
    ensures |ps| == |w| && forall k :: 0 <= k < |w| ==> ps[k] == Piece(Plain(w[k]), 0)
  {
    seq(|w|, k requires 0 <= k < |w| => Piece(Plain(w[k]), 0))
  }

  lemma {:induction false} PlainsText(w: string)
    ensures PiecesText(Plains(w)) == w && PieceItems(Plains(w)) == Lits(w)
  {
    if w != [] {
      PlainsText(w[1..]);
      assert Plains(w)[1..] == Plains(w[1..]);
      assert w == [w[0]] + Stars(0) + w[1..];
    }
  }

  lemma {:induction false} LitsMatch(w: string, line: string, i: int, j: int)
    requires Ascii(line) && 0 <= i <= j <= |line|
    ensures Matches(Lits(w), line, i, j) <==> line[i..j] == w
    decreases |w|
  {
    if w != [] {
      assert Lits(w)[1..] == Lits(w[1..]);
      if i < j {
        LitsMatch(w[1..], line, i + 1, j);
        assert line[i..j] == [line[i]] + line[i + 1..j] && w == [w[0]] + w[1..];
      }
    }
  }

  /** The word stands somewhere in the line. */
  ghost predicate Occurs(w: string, line: string) {
    exists i, j :: 0 <= i <= j <= |line| && line[i..j] == w
  }

  lemma LitsSelected(w: string, line: string)
    requires Ascii(line)
    ensures Selected(Lits(w), false, line) <==> Occurs(w, line)
  {
    forall i, j | 0 <= i <= j <= |line|
      ensures Matches(Lits(w), line, i, j) <==> line[i..j] == w
    {
      LitsMatch(w, line, i, j);
    }
    hide Matches, Lits;
    if i, j :| 0 <= i <= j <= |line| && line[i..j] == w {
      assert MatchesFrom(Lits(w), line, i);
    }
  }

  /** A word selects the lines that it occurs in. */
  lemma WordSelects(w: string, line: string)
    requires Ordinary(w) && Ascii(line)
    ensures Ascii(w) && (Selects(w, line) <==> Occurs(w, line))
  {
    hide Plains, Selected, ParsePattern, Lits, Occurs, Text, Items, Ascii;
    var t := Pattern(false, 0, Plains(w), false);
    WordText(w);
    TextParses(t);
    LitsSelected(w, line);
  }

  lemma WordText(w: string)
    requires Ordinary(w)
    ensures var t := Pattern(false, 0, Plains(w), false); WellFormed(t) && Text(t) == w && Items(t) == Lits(w)
  {
    PlainsText(w);
    hide PiecesText, PieceItems, Lits;
  }

  /** `^c*$` selects the lines that hold no other character than c. */
  lemma StarredLineSelects(c: char, line: string)
    requires Ordinary([c]) && Ascii(line)
    ensures Ascii(['^', c, '*', '$'])
    ensures Selects(['^', c, '*', '$'], line) <==> forall i :: 0 <= i < |line| ==> line[i] == c
  {
    hide ParsePattern, Text, Items, Selected;
    var t := Pattern(true, 0, [Piece(Plain(c), 1)], true);
    assert [c][0] == c;
    OnePiece(true, Plain(c), 1, true);
    assert [Item(Lit(c), true)] + TailItems(true) == [Item(Lit(c), true), EndOfLine];
    assert "^" + [c] + Stars(1) + "$" == ['^', c, '*', '$'];
    TextParses(t);
    StarredLine(c, line);
  }

  lemma StarredLine(c: char, line: string)
    requires Ascii(line)
    ensures Selected([Item(Lit(c), true), EndOfLine], true, line) <==> forall i :: 0 <= i < |line| ==> line[i] == c
  {
    var items := [Item(Lit(c), true), EndOfLine];
    assert items[1..] == [EndOfLine] && [EndOfLine][1..] == [];
    if MatchesFrom(items, line, 0) {
      var j :| 0 <= j <= |line| && Matches(items, line, 0, j);
      var k :| 0 <= k <= j && AllMatch(Lit(c), line, 0, k) && Matches(items[1..], line, k, j);
      assert k == |line|;
    }
    if forall i :: 0 <= i < |line| ==> line[i] == c {
      var n := |line|;
      assert Matches([], line, n, n);
      assert Matches(items[1..], line, n, n);
      assert AllMatch(Lit(c), line, 0, n);
      assert Matches(items, line, 0, n);
    }
  }
}
