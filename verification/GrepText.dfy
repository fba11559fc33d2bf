/**
 How `grep` patterns are written: a syntax tree, its text, and the items it stands for, none of
 them by way of the parser.  The parser is measured by them.
 */
module GrepText {
  import opened GrepPattern
  import opened Grep

  // ----- Syntax trees

  /** An element of a bracket class: a character, or a range from the character written before it. */
  datatype Elem = One(c: char) | To(hi: char)

  datatype Shape = Plain(c: char) | Escaped(c: char) | Dot | Bracket(negated: bool, elems: seq<Elem>)

  /** A shape and the stars behind it. */
  datatype Piece = Piece(shape: Shape, stars: nat)

  /** `^`, stars that stand for themselves, pieces, and `$`. */
  datatype Pattern = Pattern(anchored: bool, leading: nat, pieces: seq<Piece>, atEnd: bool)

  // ----- Their text

  function ElemText(e: Elem): (s: string)
    ensures s != []
  {
    match e
    case One(c) => [c]
    case To(hi) => ['-', hi]
  }

  function ElemsText(es: seq<Elem>): (s: string)
    ensures es != [] ==> s != []
  {
    if es == [] then [] else ElemText(es[0]) + ElemsText(es[1..])
  }

  function ShapeText(s: Shape): (r: string)
    ensures r != []
  {
    match s
    case Plain(c) => [c]
    case Escaped(c) => ['\\', c]
    case Dot => "."
    case Bracket(negated, es) => "[" + (if negated then "^" else "") + ElemsText(es) + "]"
  }

  function Stars(n: nat): (s: string)
    ensures |s| == n && forall k :: 0 <= k < n ==> s[k] == '*'
  {
    seq(n, _ => '*')
  }

  function PiecesText(ps: seq<Piece>): string {
    if ps == [] then [] else ShapeText(ps[0].shape) + Stars(ps[0].stars) + PiecesText(ps[1..])
  }

  function Tail(atEnd: bool): string { if atEnd then "$" else "" }

  function Text(t: Pattern): string {
    (if t.anchored then "^" else "") + Stars(t.leading) + PiecesText(t.pieces) + Tail(t.atEnd)
  }

  // ----- Which trees can be written

  predicate CharOk(c: char) { NUL < c && c as int < 128 }

  /** The character written last. */
  function Last(e: Elem): char { if e.One? then e.c else e.hi }

  /**
   A range does not come first.  A `]` can stand only in first place, and a `-` in first or
   last place.
   */
  predicate ElemsOk(es: seq<Elem>, first: bool) {
    es == [] ||
    (&& CharOk(Last(es[0]))
     && (if es[0].To? then !first && es[0].hi != ']' else first || (es[0].c != ']' && (es[0].c == '-' ==> |es| == 1)))
     && ElemsOk(es[1..], false))
  }

  predicate ShapeOk(s: Shape) {
    match s
    case Plain(c) => CharOk(c) && c !in {'.', '[', '\\', '*'}
    case Escaped(c) => CharOk(c) && c !in {'<', '>', '(', ')'} && !('1' <= c <= '9')
    case Dot => true
    case Bracket(negated, es) => es != [] && ElemsOk(es, true) && (!negated ==> es[0] != One('^'))
  }

  /** A `$` in last place is no plain character. */
  predicate PiecesOk(ps: seq<Piece>, atEnd: bool) {
    (forall k :: 0 <= k < |ps| ==> ShapeOk(ps[k].shape)) &&
    (ps != [] && ps[|ps| - 1] == Piece(Plain('$'), 0) ==> atEnd)
  }

  predicate WellFormed(t: Pattern) {
    PiecesOk(t.pieces, t.atEnd) &&
    (!t.anchored && t.leading == 0 && t.pieces != [] ==> t.pieces[0].shape != Plain('^'))
  }

  // ----- What they stand for

  /** A range whose ends are the wrong way round holds its first end. */
  predicate InElem(e: Elem, prev: char, x: int) {
    match e
    case One(c) => x == c as int
    case To(hi) => x == prev as int || prev as int <= x <= hi as int
  }

  function Prev(es: seq<Elem>, prev: char, k: nat): char
    requires k <= |es|
  {
    if k == 0 then prev else Last(es[k - 1])
  }

  /** Some element holds x; `prev` was written before the first. */
  predicate InElems(es: seq<Elem>, prev: char, x: int) {
    exists k :: 0 <= k < |es| && InElem(es[k], Prev(es, prev, k), x)
  }

  function SetOf(negated: bool, es: seq<Elem>): Members {
    seq(128, x requires 0 <= x < 128 => if negated then x != 0 && !InElems(es, NUL, x) else InElems(es, NUL, x))
  }

  function AtomOf(s: Shape): Atom {
    match s
    case Plain(c) => Lit(c)
    case Escaped(c) => Lit(c)
    case Dot => Any
    case Bracket(negated, es) => Class(SetOf(negated, es))
  }

  function PieceItems(ps: seq<Piece>): seq<Item> {
    if ps == [] then [] else [Item(AtomOf(ps[0].shape), ps[0].stars > 0)] + PieceItems(ps[1..])
  }

  function Literals(n: nat): seq<Item> {
    seq(n, _ => Item(Lit('*'), false))
  }

  function TailItems(atEnd: bool): seq<Item> { if atEnd then [EndOfLine] else [] }

  function Items(t: Pattern): seq<Item> {
    Literals(t.leading) + PieceItems(t.pieces) + TailItems(t.atEnd)
  }

  // ----- Classes are parsed

  /** The set with the elements added. */
  function Joined(m: Members, es: seq<Elem>, prev: char): Members {
    seq(128, x requires 0 <= x < 128 => m[x] || InElems(es, prev, x))
  }

  function Added(m: Members, e: Elem, prev: char): Members
    requires CharOk(Last(e))
  {
    match e
    case One(c) => m[c as int := true]
    case To(hi) => AddRange(m, prev as int, if prev <= hi then hi as int else prev as int)
  }

  lemma InElemsCons(es: seq<Elem>, prev: char, x: int)
    requires es != []
    ensures InElems(es, prev, x) <==> InElem(es[0], prev, x) || InElems(es[1..], Last(es[0]), x)
  {
    var rest := es[1..];
    forall k | 0 <= k < |rest|
      ensures Prev(rest, Last(es[0]), k) == Prev(es, prev, k + 1) && rest[k] == es[k + 1]
    {
    }
    if k :| 0 <= k < |es| && InElem(es[k], Prev(es, prev, k), x) {
      assert k == 0 || InElem(rest[k - 1], Prev(rest, Last(es[0]), k - 1), x);
    }
    if k :| 0 <= k < |rest| && InElem(rest[k], Prev(rest, Last(es[0]), k), x) {
      assert InElem(es[k + 1], Prev(es, prev, k + 1), x);
    }
    assert InElem(es[0], Prev(es, prev, 0), x) <==> InElem(es[0], prev, x);
  }

  lemma JoinedCons(m: Members, es: seq<Elem>, prev: char)
    requires es != [] && CharOk(Last(es[0]))
    ensures Joined(m, es, prev) == Joined(Added(m, es[0], prev), es[1..], Last(es[0]))
  {
    forall x | 0 <= x < 128
      ensures Joined(m, es, prev)[x] == Joined(Added(m, es[0], prev), es[1..], Last(es[0]))[x]
    {
      InElemsCons(es, prev, x);
    }
  }

  /** The string s stands in p at position k. */
  ghost predicate Stands(p: string, k: nat, s: string) {
    k + |s| <= |p| && forall i :: 0 <= i < |s| ==> s[i] == At(p, k + i)
  }

  lemma StandsSplit(p: string, k: nat, s: string, t: string)
    requires Stands(p, k, s + t)
    ensures Stands(p, k, s) && Stands(p, k + |s|, t)
  {
    assert forall i :: 0 <= i < |s| ==> s[i] == (s + t)[i];
    assert forall i :: 0 <= i < |t| ==> t[i] == (s + t)[|s| + i];
  }

  lemma FirstStands(p: string, k: nat, s: string)
    requires Stands(p, k, s) && s != []
    ensures k < |p| && At(p, k) == p[k] == s[0]
  {
  }

  /** The character before position k, if that is inside the class. */
  function Before(p: string, k: nat, first: nat): char {
    if first < k <= |p| then p[k - 1] else NUL
  }

  /** The parser takes a range here. */
  predicate RangeAt(p: string, k: nat, first: nat) {
    k + 1 < |p| && p[k] == '-' && first < k && p[k + 1] != ']'
  }

  /** One element, and either the end of the class or the next. */
  lemma ClassStep(p: string, k: nat, first: nat, m: Members)
    requires Ascii(p) && first <= k < |p|
    ensures RangeAt(p, k, first) ==>
              ClassFrom(p, k, first, m) == ClassNext(p, k + 2, first, Added(m, To(p[k + 1]), Before(p, k, first)))
    ensures !RangeAt(p, k, first) && !(p[k] == '-' && first < k && k + 1 == |p|) ==>
              ClassFrom(p, k, first, m) == ClassNext(p, k + 1, first, Added(m, One(p[k]), Before(p, k, first)))
  {
  }

  lemma NextStep(p: string, n: nat, first: nat, m: Members)
    requires Ascii(p)
    ensures ClassNext(p, n, first, m) == if At(p, n) == ']' then ClassOk(m, n + 1) else ClassFrom(p, n, first, m)
  {
  }

  lemma ElemStep(p: string, k: nat, first: nat, m: Members, es: seq<Elem>)
    requires Ascii(p) && first <= k && es != [] && ElemsOk(es, k == first) && Stands(p, k, ElemText(es[0]))
    requires |es| == 1 ==> At(p, k + |ElemText(es[0])|) == ']'
    ensures var n := k + |ElemText(es[0])|;
            && ClassFrom(p, k, first, m) == ClassNext(p, n, first, Added(m, es[0], Before(p, k, first)))
            && Before(p, n, first) == Last(es[0])
  {
    hide ClassFrom, ClassNext, AddRange;
    FirstStands(p, k, ElemText(es[0]));
    if es[0].To? {
      assert ElemText(es[0])[1] == At(p, k + 1);
    }
    ClassStep(p, k, first, m);
  }

  lemma ElemsSplit(es: seq<Elem>, s: string)
    requires es != []
    ensures ElemsText(es) + s == ElemText(es[0]) + (ElemsText(es[1..]) + s)
  {
  }

  lemma FirstOfElems(es: seq<Elem>)
    requires es != []
    ensures ElemsText(es)[0] == if es[0].One? then es[0].c else '-'
  {
  }

  lemma {:induction false} ElemsParse(p: string, k: nat, first: nat, m: Members, es: seq<Elem>)
    requires Ascii(p) && first <= k && es != [] && ElemsOk(es, k == first)
    requires Stands(p, k, ElemsText(es) + "]")
    ensures ClassFrom(p, k, first, m) == ClassOk(Joined(m, es, Before(p, k, first)), k + |ElemsText(es)| + 1)
    decreases |es|
  {
    hide ClassFrom, ClassNext, Joined, ElemsText, Added, Stands, At, Before;
    var rest, prev := es[1..], Before(p, k, first);
    ElemsSplit(es, "]");
    StandsSplit(p, k, ElemText(es[0]), ElemsText(rest) + "]");
    var n := k + |ElemText(es[0])|;
    FirstStands(p, n, ElemsText(rest) + "]");
    NextStep(p, n, first, Added(m, es[0], prev));
    JoinedCons(m, es, prev);
    if rest == [] {
      NoElems();
      ElemStep(p, k, first, m, es);
      JoinedNone(Added(m, es[0], prev), Last(es[0]));
    } else {
      ElemStep(p, k, first, m, es);
      FirstOfElems(rest);
      ElemsParse(p, n, first, Added(m, es[0], prev), rest);
    }
  }

  lemma NoElems()
    ensures ElemsText([]) == []
  {
  }

  lemma JoinedNone(m: Members, prev: char)
    ensures Joined(m, [], prev) == m
  {
  }

  lemma SetsAreJoined(es: seq<Elem>)
    ensures SetOf(false, es) == Joined(NoMembers(), es, NUL)
    ensures SetOf(true, es) == Negated(Joined(NoMembers(), es, NUL))
  {
  }

  lemma BracketParses(p: string, k: nat, negated: bool, es: seq<Elem>)
    requires Ascii(p) && ShapeOk(Bracket(negated, es)) && Stands(p, k, ShapeText(Bracket(negated, es)))
    ensures ParseClass(p, k + 1) == ClassOk(SetOf(negated, es), k + |ShapeText(Bracket(negated, es))|)
  {
    hide ClassFrom, Joined, SetOf, Negated, Stands, At, ElemsText, ElemsOk;
    var inner := ElemsText(es) + "]";
    SetsAreJoined(es);
    if negated {
      assert ShapeText(Bracket(negated, es)) == "[" + ("^" + inner);
      StandsSplit(p, k, "[", "^" + inner);
      StandsSplit(p, k + 1, "^", inner);
      FirstStands(p, k + 1, "^");
      ElemsParse(p, k + 2, k + 2, NoMembers(), es);
    } else {
      assert ShapeText(Bracket(negated, es)) == "[" + inner;
      StandsSplit(p, k, "[", inner);
      FirstStands(p, k + 1, inner);
      FirstOfElems(es);
      ElemsParse(p, k + 1, k + 1, NoMembers(), es);
    }
  }

  // ----- Pieces are parsed

  lemma ShapeParses(p: string, k: nat, s: Shape)
    requires Ascii(p) && ShapeOk(s) && Stands(p, k, ShapeText(s)) && (s == Plain('$') ==> k + 1 < |p|)
    ensures k < |p| && ParseAtom(p, k) == AtomOk(Item(AtomOf(s), false), k + |ShapeText(s)|)
  {
    hide ParseClass, SetOf, ElemsText, ElemsOk;
    FirstStands(p, k, ShapeText(s));
    match s {
      case Plain(c) =>
      case Escaped(c) => assert ShapeText(s)[1] == At(p, k + 1);
      case Dot =>
      case Bracket(negated, es) =>
        hide ShapeText, ShapeOk, Stands;
        FirstOfBracket(negated, es);
        BracketParses(p, k, negated, es);
    }
  }

  lemma FirstOfBracket(negated: bool, es: seq<Elem>)
    ensures ShapeText(Bracket(negated, es))[0] == '['
  {
  }

  lemma {:induction false} SkipsStars(p: string, n: nat, c: nat)
    requires Stands(p, n, Stars(c)) && At(p, n + c) != '*'
    ensures SkipStars(p, n) == n + c && (At(p, n) == '*' <==> 0 < c)
    decreases c
  {
    if 0 < c {
      assert Stars(c) == ['*'] + Stars(c - 1);
      StandsSplit(p, n, ['*'], Stars(c - 1));
      FirstStands(p, n, ['*']);
      SkipsStars(p, n + 1, c - 1);
    }
  }

  /** The text from here to the end. */
  ghost predicate EndsWith(p: string, k: nat, s: string) {
    Stands(p, k, s) && k + |s| == |p|
  }

  lemma FirstOfShape(s: Shape)
    requires ShapeOk(s)
    ensures ShapeText(s)[0] != '*'
  {
  }

  /** What follows the stars of a piece is no star. */
  lemma NoStarNext(p: string, k: nat, ps: seq<Piece>, atEnd: bool)
    requires PiecesOk(ps, atEnd) && EndsWith(p, k, PiecesText(ps) + Tail(atEnd))
    ensures At(p, k) != '*'
    ensures (ps != [] || atEnd) ==> k < |p|
  {
    hide ShapeText, ShapeOk, PiecesText, Stands;
    if ps != [] {
      PiecesSplit(ps, Tail(atEnd));
      StandsSplit(p, k, ShapeText(ps[0].shape), Stars(ps[0].stars) + (PiecesText(ps[1..]) + Tail(atEnd)));
      FirstOfShape(ps[0].shape);
      FirstStands(p, k, ShapeText(ps[0].shape));
    } else {
      NoPieces(Tail(atEnd));
      if atEnd {
        FirstStands(p, k, "$");
      }
    }
  }

  lemma PiecesSplit(ps: seq<Piece>, s: string)
    requires ps != []
    ensures PiecesText(ps) + s == ShapeText(ps[0].shape) + (Stars(ps[0].stars) + (PiecesText(ps[1..]) + s))
  {
  }

  lemma NoPieces(s: string)
    ensures PiecesText([]) + s == s
  {
  }

  lemma EndsAfter(p: string, k: nat, s: string, t: string)
    requires EndsWith(p, k, s + t)
    ensures Stands(p, k, s) && EndsWith(p, k + |s|, t)
  {
    StandsSplit(p, k, s, t);
  }

  lemma RestOk(ps: seq<Piece>, atEnd: bool)
    requires ps != [] && PiecesOk(ps, atEnd)
    ensures ShapeOk(ps[0].shape) && PiecesOk(ps[1..], atEnd)
    ensures ps[0] == Piece(Plain('$'), 0) ==> ps[1..] != [] || atEnd
  {
  }

  lemma ItemsStep(p: string, k: nat, s: Shape, stars: nat, next: nat, more: seq<Item>)
    requires Ascii(p) && k < |p| && ParseAtom(p, k) == AtomOk(Item(AtomOf(s), false), next)
    requires (At(p, next) == '*' <==> 0 < stars) && SkipStars(p, next) <= |p|
    requires ParseItems(p, SkipStars(p, next)) == Parsed(more)
    ensures ParseItems(p, k) == Parsed([Item(AtomOf(s), stars > 0)] + more)
  {
    AtomAdvances(p, k);
    hide ParseAtom, AtomOf, SkipStars;
  }

  lemma {:induction false} PiecesParse(p: string, k: nat, ps: seq<Piece>, atEnd: bool)
    requires Ascii(p) && PiecesOk(ps, atEnd) && EndsWith(p, k, PiecesText(ps) + Tail(atEnd))
    ensures k <= |p| && ParseItems(p, k) == Parsed(PieceItems(ps) + TailItems(atEnd))
    decreases |ps|
  {
    hide PiecesOk, ShapeOk, ShapeText, Stands, At, ParseAtom, AtomOf, SkipStars;
    if ps == [] {
      EndParses(p, k, atEnd);
    } else {
      hide ParseItems, PiecesText;
      var shape, stars, rest := ps[0].shape, ps[0].stars, ps[1..];
      RestOk(ps, atEnd);
      PiecesSplit(ps, Tail(atEnd));
      var more := PiecesText(rest) + Tail(atEnd);
      EndsAfter(p, k, ShapeText(shape), Stars(stars) + more);
      var next := k + |ShapeText(shape)|;
      EndsAfter(p, next, Stars(stars), more);
      NoStarNext(p, next + stars, rest, atEnd);
      SkipsStars(p, next, stars);
      ShapeParses(p, k, shape);
      PiecesParse(p, next + stars, rest, atEnd);
      ItemsStep(p, k, shape, stars, next, PieceItems(rest) + TailItems(atEnd));
      assert PieceItems(ps) + TailItems(atEnd) ==
             [Item(AtomOf(shape), stars > 0)] + (PieceItems(rest) + TailItems(atEnd));
    }
  }

  lemma EndParses(p: string, k: nat, atEnd: bool)
    requires Ascii(p) && EndsWith(p, k, PiecesText([]) + Tail(atEnd))
    ensures k <= |p| && ParseItems(p, k) == Parsed(PieceItems([]) + TailItems(atEnd))
  {
    assert PiecesText([]) + Tail(atEnd) == Tail(atEnd);
    if atEnd {
      FirstStands(p, k, "$");
      assert ParseAtom(p, k) == AtomOk(EndOfLine, k + 1);
      assert ParseItems(p, k + 1) == Parsed([]);
    }
  }

  lemma {:induction false} LeadingParse(p: string, k: nat, n: nat, items: seq<Item>)
    requires Ascii(p) && Stands(p, k, Stars(n)) && At(p, k + n) != '*'
    requires k + n <= |p| && ParseItems(p, k + n) == Parsed(items)
    ensures ParseLeadingStars(p, k) == Parsed(Literals(n) + items)
    decreases n
  {
    hide ParseItems;
    if n == 0 {
      assert Literals(0) + items == items;
    } else {
      assert Stars(n) == ['*'] + Stars(n - 1);
      StandsSplit(p, k, ['*'], Stars(n - 1));
      FirstStands(p, k, ['*']);
      LeadingParse(p, k + 1, n - 1, items);
      assert Literals(n) + items == [Item(Lit('*'), false)] + (Literals(n - 1) + items);
    }
  }

  // ----- The text is in seven-bit characters

  lemma AsciiConcat(s: string, t: string)
    requires Ascii(s) && Ascii(t)
    ensures Ascii(s + t)
  {
  }

  lemma {:induction false} ElemsAreAscii(es: seq<Elem>, first: bool)
    requires ElemsOk(es, first)
    ensures Ascii(ElemsText(es))
    decreases |es|
  {
    if es != [] {
      ElemsAreAscii(es[1..], false);
      assert Ascii(ElemText(es[0]));
      AsciiConcat(ElemText(es[0]), ElemsText(es[1..]));
    }
  }

  lemma ShapeIsAscii(s: Shape)
    requires ShapeOk(s)
    ensures Ascii(ShapeText(s))
  {
    if s.Bracket? {
      ElemsAreAscii(s.elems, true);
      hide ElemsText, ElemsOk;
      AsciiConcat("[" + (if s.negated then "^" else ""), ElemsText(s.elems));
      AsciiConcat("[" + (if s.negated then "^" else "") + ElemsText(s.elems), "]");
    }
  }

  lemma {:induction false} PiecesAreAscii(ps: seq<Piece>)
    requires forall k :: 0 <= k < |ps| ==> ShapeOk(ps[k].shape)
    ensures Ascii(PiecesText(ps))
    decreases |ps|
  {
    if ps != [] {
      ShapeIsAscii(ps[0].shape);
      hide ShapeText, ShapeOk;
      PiecesAreAscii(ps[1..]);
      AsciiConcat(ShapeText(ps[0].shape), Stars(ps[0].stars));
      AsciiConcat(ShapeText(ps[0].shape) + Stars(ps[0].stars), PiecesText(ps[1..]));
    }
  }

  lemma TextIsAscii(t: Pattern)
    requires WellFormed(t)
    ensures Ascii(Text(t))
  {
    PiecesAreAscii(t.pieces);
    hide PiecesText;
    var start := (if t.anchored then "^" else "") + Stars(t.leading);
    AsciiConcat(start, PiecesText(t.pieces));
    AsciiConcat(start + PiecesText(t.pieces), Tail(t.atEnd));
  }

  // ----- The law

  lemma Whole(p: string)
    ensures EndsWith(p, 0, p)
  {
  }

  lemma AnchoredIff(t: Pattern)
    requires WellFormed(t)
    ensures Anchored(Text(t)) <==> t.anchored
  {
    if !t.anchored && t.leading == 0 && t.pieces != [] {
      assert Text(t)[0] == ShapeText(t.pieces[0].shape)[0];
    }
  }

  lemma AfterCaret(p: string, start: nat, t: Pattern)
    requires WellFormed(t) && Ascii(p)
    requires EndsWith(p, start, Stars(t.leading) + (PiecesText(t.pieces) + Tail(t.atEnd)))
    ensures start <= |p| && ParseLeadingStars(p, start) == Parsed(Items(t))
  {
    hide PiecesText, Ascii, Stands, At, PiecesOk, ParseItems, PieceItems, Items, ParseLeadingStars, Literals;
    hide Stars, Tail;
    var more := PiecesText(t.pieces) + Tail(t.atEnd);
    EndsAfter(p, start, Stars(t.leading), more);
    PiecesParse(p, start + t.leading, t.pieces, t.atEnd);
    NoStarNext(p, start + t.leading, t.pieces, t.atEnd);
    LeadingParse(p, start, t.leading, PieceItems(t.pieces) + TailItems(t.atEnd));
    ItemsSplit(t);
  }

  /** The parser reads every pattern that can be written as what it stands for. */
  lemma TextParses(t: Pattern)
    requires WellFormed(t)
    ensures Ascii(Text(t)) && ParsePattern(Text(t)) == Parsed(Items(t)) && (Anchored(Text(t)) <==> t.anchored)
  {
    hide PiecesText, Text, Ascii, Anchored, Stands, WellFormed, Items, ParseLeadingStars, Stars, Tail, EndsWith;
    TextIsAscii(t);
    AnchoredIff(t);
    var p, caret := Text(t), if t.anchored then "^" else "";
    TextSplit(t);
    Whole(p);
    EndsAfter(p, 0, caret, Stars(t.leading) + (PiecesText(t.pieces) + Tail(t.atEnd)));
    AfterCaret(p, |caret|, t);
  }

  lemma TextSplit(t: Pattern)
    ensures Text(t) ==
            (if t.anchored then "^" else "") + (Stars(t.leading) + (PiecesText(t.pieces) + Tail(t.atEnd)))
  {
    hide PiecesText, Stars;
  }

  lemma ItemsSplit(t: Pattern)
    ensures Items(t) == Literals(t.leading) + (PieceItems(t.pieces) + TailItems(t.atEnd))
  {
    hide PieceItems, Literals;
  }
}
