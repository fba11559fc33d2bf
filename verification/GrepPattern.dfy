/**
 What a `grep` pattern means: its parse into items and the strings the items match.  The
 patterns are those made of literals, `.`, bracket classes, `*`, a leading `^` and a
 trailing `$`.
 */
module GrepPattern {

  const NUL: char := '\0'

  /** A set of seven-bit characters, one flag for each. */
  type Members = m: seq<bool> | |m| == 128 witness seq(128, _ => false)

  datatype Atom = Lit(c: char) | Any | Class(members: Members)

  datatype Item = Item(atom: Atom, star: bool) | EndOfLine

  datatype Fault =
    | Malformed
    | Unsupported  // a group or a word boundary
    | PastEnd      // a range that runs over the end of the pattern string

  /** All items of a pattern, or those before the place where it goes wrong. */
  datatype Parse = Parsed(items: seq<Item>) | Stopped(items: seq<Item>, why: Fault)

  /** The character at a position; the string ends with a NUL. */
  function At(s: string, i: nat): char {
    if i < |s| then s[i] else NUL
  }

  /** Seven-bit characters other than NUL. */
  predicate Ascii(s: string) {
    forall i :: 0 <= i < |s| ==> NUL < s[i] && s[i] as int < 128
  }

  // ----- Bracket classes

  datatype ClassParse = ClassOk(members: Members, next: nat) | ClassBad | ClassPastEnd

  function NoMembers(): Members { seq(128, _ => false) }

  function AddRange(m: Members, lo: int, hi: int): Members {
    seq(128, x requires 0 <= x < 128 => m[x] || lo <= x <= hi)
  }

  /** A negated class still does not hold the NUL that ends a line. */
  function Negated(m: Members): Members {
    seq(128, x requires 0 <= x < 128 => x != 0 && !m[x])
  }

  /**
   The class elements from position k on; `first` is where the first element stands.  A
   range with its ends the wrong way round adds only its first end.
   */
  function ClassFrom(p: string, k: nat, first: nat, m: Members): ClassParse
    requires Ascii(p)
    decreases |p| - k, 0
  {
    if |p| <= k then ClassBad
    else if p[k] == '-' && first < k && At(p, k + 1) != ']' then
      if |p| <= k + 1 then ClassPastEnd
      else
        var lo, hi := p[k - 1] as int, p[k + 1] as int;
        ClassNext(p, k + 2, first, AddRange(m, lo, if lo <= hi then hi else lo))
    else
      ClassNext(p, k + 1, first, m[p[k] as int := true])
  }

  function ClassNext(p: string, k: nat, first: nat, m: Members): ClassParse
    requires Ascii(p)
    decreases |p| - k, 1
  {
    if At(p, k) == ']' then ClassOk(m, k + 1) else ClassFrom(p, k, first, m)
  }

  /** A class whose `[` stands just before position k. */
  function ParseClass(p: string, k: nat): ClassParse
    requires Ascii(p)
  {
    if At(p, k) == '^' then
      match ClassFrom(p, k + 1, k + 1, NoMembers())
      case ClassOk(m, next) => ClassOk(Negated(m), next)
      case other => other
    else
      ClassFrom(p, k, k, NoMembers())
  }

  lemma {:induction false} ClassAdvances(p: string, k: nat, first: nat, m: Members)
    requires Ascii(p)
    ensures ClassFrom(p, k, first, m).ClassOk? ==> k < ClassFrom(p, k, first, m).next <= |p|
    decreases |p| - k
  {
    if k < |p| {
      if p[k] == '-' && first < k && At(p, k + 1) != ']' {
        if k + 1 < |p| && At(p, k + 2) != ']' {
          var lo, hi := p[k - 1] as int, p[k + 1] as int;
          ClassAdvances(p, k + 2, first, AddRange(m, lo, if lo <= hi then hi else lo));
        }
      } else if At(p, k + 1) != ']' {
        ClassAdvances(p, k + 1, first, m[p[k] as int := true]);
      }
    }
  }

  // ----- Patterns

  datatype AtomParse = AtomOk(item: Item, next: nat) | AtomBad(why: Fault)

  predicate IsDigit1To9(c: char) { '1' <= c <= '9' }

  /** The atom at position i, before any star. */
  function ParseAtom(p: string, i: nat): AtomParse
    requires Ascii(p) && i < |p|
  {
    var c := p[i];
    if c == '.' then AtomOk(Item(Any, false), i + 1)
    else if c == '$' && i + 1 == |p| then AtomOk(EndOfLine, i + 1)
    else if c == '[' then
      match ParseClass(p, i + 1)
      case ClassOk(m, next) => AtomOk(Item(Class(m), false), next)
      case ClassBad => AtomBad(Malformed)
      case ClassPastEnd => AtomBad(PastEnd)
    else if c == '\\' then ParseEscape(p, i + 1)
    else AtomOk(Item(Lit(c), false), i + 1)
  }

  /** The character after a backslash.  There are no groups to close or to refer to. */
  function ParseEscape(p: string, i: nat): AtomParse {
    var c := At(p, i);
    if c == NUL || c == ')' || IsDigit1To9(c) then AtomBad(Malformed)
    else if c == '<' || c == '>' || c == '(' then AtomBad(Unsupported)
    else AtomOk(Item(Lit(c), false), i + 1)
  }

  lemma AtomAdvances(p: string, i: nat)
    requires Ascii(p) && i < |p|
    ensures ParseAtom(p, i).AtomOk? ==> i < ParseAtom(p, i).next <= |p|
    ensures ParseAtom(p, i).AtomOk? && ParseAtom(p, i).item.EndOfLine? ==> ParseAtom(p, i).next == |p|
  {
    if p[i] == '[' {
      ClassAdvances(p, i + 1, i + 1, NoMembers());
      ClassAdvances(p, i + 2, i + 2, NoMembers());
    }
  }

  function SkipStars(p: string, i: nat): (j: nat)
    ensures i <= j && (i <= |p| ==> j <= |p|) && At(p, j) != '*'
    decreases |p| - i
  {
    if At(p, i) == '*' then SkipStars(p, i + 1) else i
  }

  function Starred(item: Item, star: bool): Item {
    match item
    case Item(a, s) => Item(a, s || star)
    case EndOfLine => EndOfLine
  }

  function Prepend(items: seq<Item>, r: Parse): Parse {
    r.(items := items + r.items)
  }

  /** An atom with the stars after it, then the rest of the pattern. */
  function ParseItems(p: string, i: nat): Parse
    requires Ascii(p) && i <= |p|
    decreases |p| - i
  {
    if i == |p| then Parsed([])
    else
      AtomAdvances(p, i);
      match ParseAtom(p, i)
      case AtomBad(why) => Stopped([], why)
      case AtomOk(item, next) =>
        Prepend([Starred(item, At(p, next) == '*')], ParseItems(p, SkipStars(p, next)))
  }

  /** Stars with nothing before them stand for themselves. */
  function ParseLeadingStars(p: string, i: nat): Parse
    requires Ascii(p) && i <= |p|
    decreases |p| - i
  {
    if At(p, i) == '*' then Prepend([Item(Lit('*'), false)], ParseLeadingStars(p, i + 1))
    else ParseItems(p, i)
  }

  predicate Anchored(p: string) { At(p, 0) == '^' }

  /** The parse of a pattern, apart from the circumflex that may lead it. */
  function ParsePattern(p: string): Parse
    requires Ascii(p)
  {
    ParseLeadingStars(p, if Anchored(p) then 1 else 0)
  }

  // ----- Meaning

  predicate AtomMatches(a: Atom, c: char)
    requires c as int < 128
  {
    match a
    case Lit(l) => c == l
    case Any => true
    case Class(m) => m[c as int]
  }

  /** All characters at i..k match the atom. */
  predicate AllMatch(a: Atom, line: string, i: int, k: int)
    requires Ascii(line) && 0 <= i && k <= |line|
  {
    forall x :: i <= x < k ==> AtomMatches(a, line[x])
  }

  /** The items match the part of the line from i to j. */
  ghost predicate Matches(items: seq<Item>, line: string, i: int, j: int)
    requires Ascii(line) && 0 <= i <= j <= |line|
    decreases |items|
  {
    if items == [] then i == j
    else if items[0].EndOfLine? then i == |line| && Matches(items[1..], line, i, j)
    else if items[0].star then
      exists k :: i <= k <= j && AllMatch(items[0].atom, line, i, k) && Matches(items[1..], line, k, j)
    else i < j && AtomMatches(items[0].atom, line[i]) && Matches(items[1..], line, i + 1, j)
  }

  /** Some part of the line that starts at i is matched. */
  ghost predicate MatchesFrom(items: seq<Item>, line: string, i: int)
    requires Ascii(line) && 0 <= i <= |line|
  {
    exists j :: i <= j <= |line| && Matches(items, line, i, j)
  }

  /** The line is selected: some part of it, an initial one after `^`, is matched. */
  ghost predicate Selected(items: seq<Item>, anchored: bool, line: string)
    requires Ascii(line)
  {
    exists i :: 0 <= i <= |line| && (anchored ==> i == 0) && MatchesFrom(items, line, i)
  }
}
