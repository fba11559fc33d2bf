/**
 `grep`: the byte code of a pattern, the backtracking matcher `advance` and the scan loop of
 `execute`.
 */
module Grep {
  import opened GrepPattern

  const CCHR: int := 2
  const CDOT: int := 4
  const CCL: int := 6
  const CDOL: int := 10
  const CEOF: int := 11
  const STAR: int := 1

  /** A byte of the code: an opcode or a character, or eight bits of a class. */
  datatype Cell = Byte(v: int) | Bits(b: seq<bool>)

  function Opcode(op: int, star: bool): Cell {
    Byte(if star then op + STAR else op)
  }

  /** The 128 flags of a class in sixteen bytes. */
  function BitMap(m: Members): (code: seq<Cell>)
    ensures |code| == 16
  {
    seq(16, b requires 0 <= b < 16 => Bits(seq(8, k requires 0 <= k < 8 => m[8 * b + k])))
  }

  function EncodeItem(item: Item): (code: seq<Cell>)
    ensures 0 < |code|
  {
    match item
    case EndOfLine => [Byte(CDOL)]
    case Item(Lit(c), star) => [Opcode(CCHR, star), Byte(c as int)]
    case Item(Any, star) => [Opcode(CDOT, star)]
    case Item(Class(m), star) => [Opcode(CCL, star)] + BitMap(m)
  }

  function Encode(items: seq<Item>): (code: seq<Cell>)
    ensures 0 < |code|
  {
    if items == [] then [Byte(CEOF)] else EncodeItem(items[0]) + Encode(items[1..])
  }

  /** No atom matches the NUL at the end of a line. */
  predicate Sane(item: Item) {
    match item
    case Item(Lit(c), _) => NUL < c && c as int < 128
    case Item(Class(m), _) => !m[0]
    case _ => true
  }

  predicate AllSane(items: seq<Item>) {
    forall k :: 0 <= k < |items| ==> Sane(items[k])
  }

  // ----- Meaning, one item at a time

  lemma NothingLeft(line: string, i: int)
    requires Ascii(line) && 0 <= i <= |line|
    ensures MatchesFrom([], line, i)
  {
    assert Matches([], line, i, i);
  }

  lemma EndStep(items: seq<Item>, line: string, i: int)
    requires Ascii(line) && 0 <= i <= |line| && items != [] && items[0].EndOfLine?
    ensures MatchesFrom(items, line, i) <==> i == |line| && MatchesFrom(items[1..], line, i)
  {
    if MatchesFrom(items, line, i) {
      var j :| i <= j <= |line| && Matches(items, line, i, j);
      assert Matches(items[1..], line, i, j);
    }
    if i == |line| && MatchesFrom(items[1..], line, i) {
      var j :| i <= j <= |line| && Matches(items[1..], line, i, j);
      assert Matches(items, line, i, j);
    }
  }

  lemma AtomStep(items: seq<Item>, line: string, i: int)
    requires Ascii(line) && 0 <= i <= |line| && items != [] && items[0].Item? && !items[0].star
    ensures MatchesFrom(items, line, i) <==>
            i < |line| && AtomMatches(items[0].atom, line[i]) && MatchesFrom(items[1..], line, i + 1)
  {
    if MatchesFrom(items, line, i) {
      var j :| i <= j <= |line| && Matches(items, line, i, j);
      assert Matches(items[1..], line, i + 1, j);
    }
    if i < |line| && AtomMatches(items[0].atom, line[i]) && MatchesFrom(items[1..], line, i + 1) {
      var j :| i + 1 <= j <= |line| && Matches(items[1..], line, i + 1, j);
      assert Matches(items, line, i, j);
    }
  }

  /** The longest run of the atom from i ends at m. */
  predicate RunEnds(a: Atom, line: string, i: int, m: int)
    requires Ascii(line)
  {
    0 <= i <= m <= |line| && AllMatch(a, line, i, m) && (m < |line| ==> !AtomMatches(a, line[m]))
  }

  /** A star matches iff the rest matches after some part of the longest run. */
  lemma StarStep(items: seq<Item>, line: string, i: int, m: int)
    requires Ascii(line) && items != [] && items[0].Item? && items[0].star && RunEnds(items[0].atom, line, i, m)
    ensures MatchesFrom(items, line, i) <==> exists k :: i <= k <= m && MatchesFrom(items[1..], line, k)
  {
    var a := items[0].atom;
    if MatchesFrom(items, line, i) {
      var j :| i <= j <= |line| && Matches(items, line, i, j);
      var k :| i <= k <= j && AllMatch(a, line, i, k) && Matches(items[1..], line, k, j);
      assert k <= m by {
        if m < k {
          assert false;
        }
      }
      assert MatchesFrom(items[1..], line, k);
    }
    if k :| i <= k <= m && MatchesFrom(items[1..], line, k) {
      var j :| k <= j <= |line| && Matches(items[1..], line, k, j);
      assert AllMatch(a, line, i, k);
      assert Matches(items, line, i, j);
    }
  }

  // ----- advance

  /** The code at `ep` is that of the items. */
  ghost predicate CodeAt(code: seq<Cell>, ep: int, items: seq<Item>) {
    0 <= ep <= |code| && code[ep..] == Encode(items) && AllSane(items)
  }

  /** What the byte at `ep` tells about the next item. */
  lemma NextItem(code: seq<Cell>, ep: int, items: seq<Item>)
    requires CodeAt(code, ep, items)
    ensures ep < |code|
    ensures items == [] ==> code[ep] == Byte(CEOF)
    ensures items != [] ==> code[ep] == EncodeItem(items[0])[0]
    ensures items != [] ==>
              ep + |EncodeItem(items[0])| <= |code| && CodeAt(code, ep + |EncodeItem(items[0])|, items[1..])
    ensures items != [] ==> forall k :: 0 <= k < |EncodeItem(items[0])| ==> code[ep + k] == EncodeItem(items[0])[k]
  {
    assert code[ep] == code[ep..][0];
    if items != [] {
      var n := |EncodeItem(items[0])|;
      var rest := Encode(items[1..]);
      assert code[ep..] == EncodeItem(items[0]) + rest;
      assert code[ep + n..] == code[ep..][n..] == rest;
      forall k | 0 <= k < n
        ensures code[ep + k] == EncodeItem(items[0])[k]
      {
        assert code[ep + k] == code[ep..][k];
      }
    }
  }

  /** The test of a class bit. */
  function InClass(code: seq<Cell>, ep: int, c: int): bool
    requires 0 <= c < 128 && 0 <= ep && ep + 16 <= |code|
  {
    var cell := code[ep + c / 8];
    cell.Bits? && |cell.b| == 8 && cell.b[c % 8]
  }

  lemma ClassBit(code: seq<Cell>, ep: int, m: Members, c: int)
    requires 0 <= ep && ep + 16 <= |code| && 0 <= c < 128
    requires forall k :: 0 <= k < 16 ==> code[ep + k] == BitMap(m)[k]
    ensures InClass(code, ep, c) == m[c]
  {
    assert code[ep + c / 8] == BitMap(m)[c / 8];
    assert 8 * (c / 8) + c % 8 == c;
  }

  /** Does the atom coded at `ep` (past its opcode) match the character? */
  function TestAtom(code: seq<Cell>, ep: int, op: int, c: char): bool
    requires 0 <= ep && c as int < 128
    requires op == CCHR ==> ep < |code|
    requires op == CCL ==> ep + 16 <= |code|
  {
    if op == CDOT then c != NUL
    else if op == CCHR then code[ep] == Byte(c as int)
    else if op == CCL then InClass(code, ep, c as int % 128)
    else false
  }

  function OpOf(a: Atom): int {
    match a
    case Lit(_) => CCHR
    case Any => CDOT
    case Class(_) => CCL
  }

  function WidthOf(a: Atom): int {
    match a
    case Lit(_) => 1
    case Any => 0
    case Class(_) => 16
  }

  /** The opcode tells the kind of the next item, and where the code of the rest starts. */
  lemma Decode(code: seq<Cell>, ep: int, items: seq<Item>)
    requires CodeAt(code, ep, items)
    ensures 0 <= ep < |code| && code[ep].Byte?
    ensures code[ep].v == CEOF <==> items == []
    ensures code[ep].v == CDOL <==> items != [] && items[0].EndOfLine?
    ensures items != [] && items[0].Item? ==> code[ep] == Opcode(OpOf(items[0].atom), items[0].star)
    ensures items != [] && items[0].Item? ==>
              ep + 1 + WidthOf(items[0].atom) <= |code| && CodeAt(code, ep + 1 + WidthOf(items[0].atom), items[1..])
    ensures items != [] && items[0].EndOfLine? ==> CodeAt(code, ep + 1, items[1..])
  {
    NextItem(code, ep, items);
    hide CodeAt, BitMap;
    if items != [] && items[0].Item? {
      assert |EncodeItem(items[0])| == 1 + WidthOf(items[0].atom);
    }
  }

  /** The code of an atom tests what the atom means; it fails at the end of the line. */
  lemma TestAtomMeans(code: seq<Cell>, ep: int, items: seq<Item>, line: string, i: nat)
    requires CodeAt(code, ep, items) && items != [] && items[0].Item? && Ascii(line) && i <= |line|
    requires ep + 1 + WidthOf(items[0].atom) <= |code|
    ensures TestAtom(code, ep + 1, OpOf(items[0].atom), At(line, i)) <==>
            i < |line| && AtomMatches(items[0].atom, line[i])
  {
    NextItem(code, ep, items);
    assert Sane(items[0]);
    var c := At(line, i);
    assert (c != NUL <==> i < |line|) && c as int < 128;
    hide AllSane, CodeAt, TestAtom, AtomMatches;
    TestAtomAt(code, ep, items[0], c);
  }

  lemma TestAtomAt(code: seq<Cell>, ep: int, item: Item, c: char)
    requires item.Item? && Sane(item) && 0 <= ep && ep + 1 + WidthOf(item.atom) <= |code| && c as int < 128
    requires forall k :: 0 <= k < |EncodeItem(item)| ==> code[ep + k] == EncodeItem(item)[k]
    ensures TestAtom(code, ep + 1, OpOf(item.atom), c) <==> c != NUL && AtomMatches(item.atom, c)
  {
    hide InClass, BitMap;
    if item.atom.Lit? {
      assert code[ep + 1] == EncodeItem(item)[1];
    } else if item.atom.Class? {
      ClassCode(code, ep, item, c as int);
    }
  }

  lemma ClassCode(code: seq<Cell>, ep: int, item: Item, c: int)
    requires item.Item? && item.atom.Class? && 0 <= ep && ep + 17 <= |code| && 0 <= c < 128
    requires forall k :: 0 <= k < |EncodeItem(item)| ==> code[ep + k] == EncodeItem(item)[k]
    ensures InClass(code, ep + 1, c) == item.atom.members[c]
  {
    forall k | 0 <= k < 16
      ensures code[ep + 1 + k] == BitMap(item.atom.members)[k]
    {
      assert code[ep + (k + 1)] == EncodeItem(item)[k + 1];
    }
    ClassBit(code, ep + 1, item.atom.members, c);
  }

  /** The loops before label `star`: the longest run of the atom. */
  method ScanRun(line: string, code: seq<Cell>, ep: int, op: int, curlp: nat, ghost items: seq<Item>) returns (lp: nat)
    requires Ascii(line) && curlp <= |line| && 1 <= ep
    requires CodeAt(code, ep - 1, items) && items != [] && items[0].Item? && op == OpOf(items[0].atom)
    requires ep + WidthOf(items[0].atom) <= |code|
    ensures RunEnds(items[0].atom, line, curlp, lp)
  {
    hide CodeAt, TestAtom;
    lp := curlp;
    TestAtomMeans(code, ep - 1, items, line, lp);
    while TestAtom(code, ep, op, At(line, lp))
      invariant curlp <= lp <= |line| && AllMatch(items[0].atom, line, curlp, lp)
      invariant TestAtom(code, ep, op, At(line, lp)) <==> lp < |line| && AtomMatches(items[0].atom, line[lp])
      decreases |line| - lp
    {
      lp := lp + 1;
      TestAtomMeans(code, ep - 1, items, line, lp);
    }
  }

  /** If the code at `ep` starts with a plain character, only places with it can match. */
  lemma FirstCharacter(code: seq<Cell>, ep: int, items: seq<Item>, line: string, i: nat)
    requires CodeAt(code, ep, items) && ep < |code| && code[ep] == Byte(CCHR) && Ascii(line) && i <= |line|
    ensures ep + 1 < |code| && code[ep + 1].Byte?
    ensures MatchesFrom(items, line, i) ==> Byte(At(line, i) as int) == code[ep + 1]
  {
    NextItem(code, ep, items);
    assert items != [];
    assert items[0].Item? && items[0].atom.Lit? && !items[0].star;
    assert code[ep + 1] == EncodeItem(items[0])[1];
    AtomStep(items, line, i);
  }

  /** `advance`: does the code from `ep` match the line from `lp`? */
  method Advance(line: string, code: seq<Cell>, lp0: nat, ep0: int, ghost items: seq<Item>) returns (found: bool)
    requires Ascii(line) && lp0 <= |line| && CodeAt(code, ep0, items)
    ensures found <==> MatchesFrom(items, line, lp0)
    decreases |items|, 1
  {
    hide MatchesFrom, CodeAt, EncodeItem, TestAtom, AtomMatches;
    var lp, ep := lp0, ep0;
    ghost var rest := items;
    while true
      invariant 0 <= lp <= |line| && CodeAt(code, ep, rest) && |rest| <= |items|
      invariant MatchesFrom(items, line, lp0) <==> MatchesFrom(rest, line, lp)
      decreases |rest|
    {
      Decode(code, ep, rest);
      var op := code[ep].v;
      ep := ep + 1;
      if op == CEOF {
        NothingLeft(line, lp);
        return true;
      } else if op == CDOL {
        EndStep(rest, line, lp);
        if At(line, lp) != NUL {
          return false;
        }
        rest := rest[1..];
      } else if op == CCHR || op == CDOT || op == CCL {
        TestAtomMeans(code, ep - 1, rest, line, lp);
        AtomStep(rest, line, lp);
        if !TestAtom(code, ep, op, At(line, lp)) {
          return false;
        }
        lp := lp + 1;
        ep := ep + if op == CCHR then 1 else if op == CCL then 16 else 0;
        rest := rest[1..];
      } else {
        TestAtomMeans(code, ep - 1, rest, line, lp);
        op := op - STAR;
        var curlp := lp;
        lp := ScanRun(line, code, ep, op, curlp, rest);
        ep := ep + if op == CCHR then 1 else if op == CCL then 16 else 0;
        StarStep(rest, line, curlp, lp);
        rest := rest[1..];
        if lp != curlp {
          found := BackTrack(line, code, curlp, lp, ep, rest);
          return;
        }
      }
    }
  }

  /** Label `star`: the rest is tried from the end of the run back to its start. */
  method BackTrack(line: string, code: seq<Cell>, curlp: nat, lp0: nat, ep: int, ghost items: seq<Item>)
        returns (found: bool)
    requires Ascii(line) && curlp <= lp0 <= |line| && CodeAt(code, ep, items)
    ensures found <==> exists k :: curlp <= k <= lp0 && MatchesFrom(items, line, k)
    decreases |items|, 2
  {
    var lp := lp0;
    NextItem(code, ep, items);
    var plain := code[ep] == Byte(CCHR);
    while true
      invariant curlp <= lp <= lp0
      invariant forall k :: lp < k <= lp0 ==> !MatchesFrom(items, line, k)
      decreases lp
    {
      if plain {
        FirstCharacter(code, ep, items, line, lp);
      }
      if !plain || code[ep + 1] == Byte(At(line, lp) as int) {
        found := Advance(line, code, lp, ep, items);
        if found {
          return;
        }
      }
      if lp == curlp {
        return false;
      }
      lp := lp - 1;
    }
  }

  // ----- execute

  /** The scan of one line: at its start after `^`, else at every place, the end included. */
  method SelectLine(line: string, code: seq<Cell>, circf: bool, ghost items: seq<Item>) returns (found: bool)
    requires Ascii(line) && CodeAt(code, 0, items)
    ensures found <==> Selected(items, circf, line)
  {
    if circf {
      found := Advance(line, code, 0, 0, items);
      return;
    }
    NextItem(code, 0, items);
    var plain := code[0] == Byte(CCHR);
    var p1 := 0;
    while true
      invariant 0 <= p1 <= |line|
      invariant forall i :: 0 <= i < p1 ==> !MatchesFrom(items, line, i)
      decreases |line| - p1
    {
      if plain {
        FirstCharacter(code, 0, items, line, p1);
      }
      if !plain || code[1] == Byte(At(line, p1) as int) {
        found := Advance(line, code, p1, 0, items);
        if found {
          return;
        }
      }
      if At(line, p1) == NUL {
        return false;
      }
      p1 := p1 + 1;
    }
  }
}
