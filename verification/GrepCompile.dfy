/** `compile`: from a pattern string to byte code in a fixed buffer. */
module GrepCompile {
  import opened GrepPattern
  import opened Grep
  import GrepLaws
  import GrepText

  const ESIZE: int := 256

  /** A byte of the static buffer before anything is written to it. */
  const ZERO: Cell := Bits([false, false, false, false, false, false, false, false])

  datatype Compiled =
    | Code(len: int, circf: bool)
    | ReError
    | Unmodelled    // a group or a word boundary
    | ReadPastEnd   // reads on beyond the end of the pattern
    | WrotePastEnd  // stores a character just past the buffer, then reports

  // ----- Bits of a class

  /** The sixteen bytes at `ep` are the bit map of `m`. */
  ghost predicate MapAt(buf: seq<Cell>, ep: int, m: Members) {
    0 <= ep && ep + 16 <= |buf| && buf[ep..ep + 16] == BitMap(m)
  }

  lemma BitMapSet(m: Members, c: int)
    requires 0 <= c < 128
    ensures BitMap(m)[c / 8].Bits? && |BitMap(m)[c / 8].b| == 8
    ensures BitMap(m[c := true]) == BitMap(m)[c / 8 := Bits(BitMap(m)[c / 8].b[c % 8 := true])]
  {
    var m' := m[c := true];
    var t := BitMap(m)[c / 8 := Bits(BitMap(m)[c / 8].b[c % 8 := true])];
    forall b | 0 <= b < 16
      ensures BitMap(m')[b] == t[b]
    {
      if b == c / 8 {
        assert 8 * b + c % 8 == c;
        assert BitMap(m')[b].b == t[b].b;
      } else {
        assert BitMap(m')[b].b == BitMap(m)[b].b;
      }
    }
  }

  lemma BitMapEmpty()
    ensures forall b :: 0 <= b < 16 ==> BitMap(NoMembers())[b] == ZERO
  {
    forall b | 0 <= b < 16
      ensures BitMap(NoMembers())[b] == ZERO
    {
      assert BitMap(NoMembers())[b].b == ZERO.b;
    }
  }

  function Flipped(b: seq<bool>): seq<bool> {
    seq(|b|, k requires 0 <= k < |b| => !b[k])
  }

  /** All bits flipped, and bit 0 of byte 0 cleared. */
  lemma BitMapNegated(m: Members, t: seq<Cell>)
    requires |t| == 16
    requires forall b :: 1 <= b < 16 ==> t[b] == Bits(Flipped(BitMap(m)[b].b))
    requires t[0] == Bits(Flipped(BitMap(m)[0].b)[0 := false])
    ensures t == BitMap(Negated(m))
  {
    forall b | 0 <= b < 16
      ensures t[b] == BitMap(Negated(m))[b]
    {
      assert t[b].b == BitMap(Negated(m))[b].b;
    }
  }

  ghost predicate OnlyWithin(s: seq<Cell>, t: seq<Cell>, lo: int, hi: int) {
    |s| == |t| && forall k :: 0 <= k < |s| && (k < lo || hi <= k) ==> s[k] == t[k]
  }

  method SetBit(buf: array<Cell>, ep: int, c: int, ghost m: Members)
    requires 0 <= c < 128 && MapAt(buf[..], ep, m)
    modifies buf
    ensures MapAt(buf[..], ep, m[c := true]) && OnlyWithin(old(buf[..]), buf[..], ep, ep + 16)
  {
    BitMapSet(m, c);
    assert buf[ep + c / 8] == buf[..][ep..ep + 16][c / 8];
    buf[ep + c / 8] := Bits(buf[ep + c / 8].b[c % 8 := true]);
    assert buf[..][ep..ep + 16] == old(buf[..])[ep..ep + 16][c / 8 := buf[ep + c / 8]];
  }

  /** The loop over a range: all characters from lo to below hi, then the last one. */
  method SetRange(buf: array<Cell>, ep: int, lo: int, hi: int, ghost m: Members)
    requires 0 <= lo < 128 && 0 <= hi < 128 && MapAt(buf[..], ep, m)
    modifies buf
    ensures MapAt(buf[..], ep, AddRange(m, lo, if lo <= hi then hi else lo))
    ensures OnlyWithin(old(buf[..]), buf[..], ep, ep + 16)
  {
    var c := lo;
    ghost var m' := m;
    while c < hi
      invariant lo <= c && (lo <= hi ==> c <= hi) && (hi < lo ==> c == lo)
      invariant MapAt(buf[..], ep, m') && m' == AddRange(m, lo, c - 1)
      invariant OnlyWithin(old(buf[..]), buf[..], ep, ep + 16)
    {
      SetBit(buf, ep, c, m');
      m' := m'[c := true];
      assert m' == AddRange(m, lo, c);
      c := c + 1;
    }
    SetBit(buf, ep, c, m');
    assert m'[c := true] == AddRange(m, lo, c);
  }

  method NegateMap(buf: array<Cell>, ep: int, ghost m: Members)
    requires MapAt(buf[..], ep, m)
    modifies buf
    ensures MapAt(buf[..], ep, Negated(m)) && OnlyWithin(old(buf[..]), buf[..], ep, ep + 16)
  {
    ghost var s := buf[..][ep..ep + 16];
    assert forall b :: 0 <= b < 16 ==> s[b] == buf[ep + b];
    var cclcnt := 0;
    while cclcnt < 16
      invariant 0 <= cclcnt <= 16
      invariant forall b :: 0 <= b < cclcnt ==> buf[ep + b] == Bits(Flipped(BitMap(m)[b].b))
      invariant forall b :: cclcnt <= b < 16 ==> buf[ep + b] == BitMap(m)[b]
      invariant OnlyWithin(old(buf[..]), buf[..], ep, ep + 16)
    {
      assert buf[ep + cclcnt] == BitMap(m)[cclcnt];
      buf[ep + cclcnt] := Bits(Flipped(buf[ep + cclcnt].b));
      cclcnt := cclcnt + 1;
    }
    assert buf[ep + 0] == Bits(Flipped(BitMap(m)[0].b));
    buf[ep] := Bits(buf[ep].b[0 := false]);
    ghost var t := buf[..][ep..ep + 16];
    assert forall b :: 0 <= b < 16 ==> t[b] == buf[ep + b];
    BitMapNegated(m, t);
  }

  datatype ClassResult = ClassCode(next: nat) | ClassError | ClassReadPastEnd

  /** What a class from the element at position k on comes to. */
  ghost predicate Ends(r: ClassResult, spec: ClassParse, bits: seq<Cell>) {
    match spec
    case ClassOk(m, next) => r == ClassCode(next) && bits == BitMap(m)
    case ClassBad => r == ClassError
    case ClassPastEnd => r == ClassReadPastEnd
  }

  /** The do-while loop over the elements; `sp` has just passed the first one. */
  method ClassElements(p: string, first: nat, buf: array<Cell>, ep: int) returns (r: ClassResult)
    requires Ascii(p) && 0 <= ep && ep + 16 <= buf.Length && MapAt(buf[..], ep, NoMembers())
    modifies buf
    ensures Ends(r, ClassFrom(p, first, first, NoMembers()), buf[..][ep..ep + 16])
    ensures OnlyWithin(old(buf[..]), buf[..], ep, ep + 16)
  {
    var sp := first + 1;
    ghost var m := NoMembers();
    var c := At(p, first);
    while true
      invariant first < sp && c == At(p, sp - 1)
      invariant MapAt(buf[..], ep, m) && OnlyWithin(old(buf[..]), buf[..], ep, ep + 16)
      invariant ClassFrom(p, sp - 1, first, m) == ClassFrom(p, first, first, NoMembers())
      decreases |p| + 1 - sp
    {
      if c == NUL {
        return ClassError;
      }
      if c == '-' && sp > first + 1 && At(p, sp) != ']' {
        if |p| <= sp {
          return ClassReadPastEnd;
        }
        SetRange(buf, ep, p[sp - 2] as int, p[sp] as int, m);
        ghost var lo, hi := p[sp - 2] as int, p[sp] as int;
        m := AddRange(m, lo, if lo <= hi then hi else lo);
        sp := sp + 1;
      } else {
        SetBit(buf, ep, c as int, m);
        m := m[c as int := true];
      }
      c := At(p, sp);
      sp := sp + 1;
      if c == ']' {
        return ClassCode(sp);
      }
    }
  }

  /** A class whose `[` stands just before position k. */
  method CompileClass(p: string, k: nat, buf: array<Cell>, ep: int) returns (r: ClassResult)
    requires Ascii(p) && 0 <= ep && ep + 16 <= buf.Length
    requires forall i :: ep <= i < ep + 16 ==> buf[i] == ZERO
    modifies buf
    ensures Ends(r, ParseClass(p, k), buf[..][ep..ep + 16])
    ensures OnlyWithin(old(buf[..]), buf[..], ep, ep + 16)
  {
    hide ClassFrom;
    BitMapEmpty();
    assert buf[..][ep..ep + 16] == BitMap(NoMembers());
    if At(p, k) == '^' {
      r := ClassElements(p, k + 1, buf, ep);
      if r.ClassCode? {
        NegateMap(buf, ep, ClassFrom(p, k + 1, k + 1, NoMembers()).members);
      }
    } else {
      r := ClassElements(p, k, buf, ep);
    }
  }

  // ----- Items

  /** No class holds the NUL. */
  lemma {:induction false} ClassWithoutNul(p: string, k: nat, first: nat, m: Members)
    requires Ascii(p) && !m[0]
    ensures var r := ClassFrom(p, k, first, m); r.ClassOk? ==> !r.members[0]
    decreases |p| - k
  {
    if k < |p| {
      if p[k] == '-' && first < k && At(p, k + 1) != ']' {
        if k + 1 < |p| {
          var lo, hi := p[k - 1] as int, p[k + 1] as int;
          var m' := AddRange(m, lo, if lo <= hi then hi else lo);
          assert !m'[0];
          ClassWithoutNul(p, k + 2, first, m');
        }
      } else {
        ClassWithoutNul(p, k + 1, first, m[p[k] as int := true]);
      }
    }
  }

  lemma AtomIsSane(p: string, i: nat)
    requires Ascii(p) && i < |p|
    ensures ParseAtom(p, i).AtomOk? ==> Sane(ParseAtom(p, i).item)
  {
    if p[i] == '[' {
      ClassWithoutNul(p, i + 1, i + 1, NoMembers());
      ClassWithoutNul(p, i + 2, i + 2, NoMembers());
    }
  }

  /** The code written so far, without the end mark. */
  ghost function Emitted(items: seq<Item>): seq<Cell> {
    if items == [] then [] else Emitted(items[..|items| - 1]) + EncodeItem(items[|items| - 1])
  }

  lemma EmittedSnoc(items: seq<Item>, item: Item)
    ensures Emitted(items + [item]) == Emitted(items) + EncodeItem(item)
  {
    assert (items + [item])[..|items|] == items;
  }

  lemma {:induction false} EmittedConcat(items: seq<Item>, more: seq<Item>)
    ensures Emitted(items + more) == Emitted(items) + Emitted(more)
    decreases |more|
  {
    if more == [] {
      assert items + more == items && Emitted(more) == [];
    } else {
      hide Emitted, EncodeItem;
      var init, last := more[..|more| - 1], more[|more| - 1];
      assert more == init + [last];
      EmittedConcat(items, init);
      EmittedConcatStep(items, init, last);
    }
  }

  lemma EmittedConcatStep(items: seq<Item>, more: seq<Item>, last: Item)
    requires Emitted(items + more) == Emitted(items) + Emitted(more)
    ensures Emitted(items + (more + [last])) == Emitted(items) + Emitted(more + [last])
  {
    hide Emitted, EncodeItem;
    EmittedSnoc(items + more, last);
    EmittedSnoc(more, last);
    assert items + (more + [last]) == items + more + [last];
  }

  lemma {:induction false} EncodeIsEmitted(items: seq<Item>)
    ensures Encode(items) == Emitted(items) + [Byte(CEOF)]
  {
    if items != [] {
      EncodeIsEmitted(items[1..]);
      EmittedConcat([items[0]], items[1..]);
      assert items == [items[0]] + items[1..];
      EmittedOne(items[0]);
      hide Emitted, EncodeItem;
    }
  }

  lemma EmittedOne(item: Item)
    ensures Emitted([item]) == EncodeItem(item)
  {
    assert [item][..0] == [];
    assert Emitted([item]) == Emitted([]) + EncodeItem(item);
  }

  datatype AtomResult =
    | Emit(next: nat, ep: int)
    | NoRoom
    | Overrun
    | AtomError
    | AtomUnmodelled
    | AtomReadPastEnd

  /** The item at `i` and what came of compiling it at `ep`. */
  ghost predicate AtomDone(p: string, i: nat, r: AtomResult, before: seq<Cell>, after: seq<Cell>, ep: int)
    requires Ascii(p) && i < |p|
  {
    |before| == |after| == ESIZE && 0 <= ep < ESIZE &&
    match ParseAtom(p, i)
    case AtomOk(item, next) =>
      if IsLiteral(item) && ep + 1 == ESIZE then r == Overrun
      else if p[i] == '[' && ESIZE <= ep + 17 then r == NoRoom
      else
        && r == Emit(next, ep + |EncodeItem(item)|) && r.ep <= ESIZE
        && after[ep..r.ep] == EncodeItem(item) && OnlyWithin(before, after, ep, r.ep)
    case AtomBad(why) => r == if p[i] == '[' && ESIZE <= ep + 17 then NoRoom else FaultResult(why)
  }

  predicate IsLiteral(item: Item) {
    item.Item? && item.atom.Lit?
  }

  function FaultResult(why: Fault): AtomResult {
    match why
    case Malformed => AtomError
    case Unsupported => AtomUnmodelled
    case PastEnd => AtomReadPastEnd
  }

  /** Label `defchar`.  With one byte left the character goes just past the end of the buffer. */
  method EmitLiteral(c: char, next: nat, expbuf: array<Cell>, ep: int) returns (r: AtomResult)
    requires expbuf.Length == ESIZE && 0 <= ep < ESIZE
    modifies expbuf
    ensures r == if ESIZE < ep + 2 then Overrun else Emit(next, ep + 2)
    ensures r.Emit? ==> expbuf[..][ep..ep + 2] == [Byte(CCHR), Byte(c as int)]
    ensures OnlyWithin(old(expbuf[..]), expbuf[..], ep, ep + 2)
  {
    expbuf[ep] := Byte(CCHR);
    if ep + 1 == ESIZE {
      return Overrun;
    }
    expbuf[ep + 1] := Byte(c as int);
    return Emit(next, ep + 2);
  }

  /** The cases of the switch other than `*` and the end of the pattern. */
  method CompileAtom(p: string, i: nat, expbuf: array<Cell>, ep: int) returns (r: AtomResult)
    requires Ascii(p) && i < |p| && expbuf.Length == ESIZE && 0 <= ep < ESIZE
    requires forall k :: ep <= k < ESIZE ==> expbuf[k] == ZERO
    modifies expbuf
    ensures AtomDone(p, i, r, old(expbuf[..]), expbuf[..], ep)
  {
    var c := p[i];
    if c == '.' {
      expbuf[ep] := Byte(CDOT);
      return Emit(i + 1, ep + 1);
    } else if c == '$' && i + 1 == |p| {
      expbuf[ep] := Byte(CDOL);
      return Emit(i + 1, ep + 1);
    } else if c == '[' {
      r := EmitClass(p, i, expbuf, ep);
    } else if c == '\\' {
      var e := At(p, i + 1);
      if e == NUL || e == ')' || IsDigit1To9(e) {
        return AtomError;
      } else if e == '<' || e == '>' || e == '(' {
        return AtomUnmodelled;
      }
      r := EmitLiteral(e, i + 2, expbuf, ep);
    } else {
      r := EmitLiteral(c, i + 1, expbuf, ep);
    }
  }

  method EmitClass(p: string, i: nat, expbuf: array<Cell>, ep: int) returns (r: AtomResult)
    requires Ascii(p) && i < |p| && p[i] == '[' && expbuf.Length == ESIZE && 0 <= ep < ESIZE
    requires forall k :: ep <= k < ESIZE ==> expbuf[k] == ZERO
    modifies expbuf
    ensures AtomDone(p, i, r, old(expbuf[..]), expbuf[..], ep)
  {
    if ep + 17 >= ESIZE {
      return NoRoom;
    }
    expbuf[ep] := Byte(CCL);
    ghost var before := expbuf[..];
    var cr := CompileClass(p, i + 1, expbuf, ep + 1);
    match cr
    case ClassCode(next) => r := Emit(next, ep + 17);
    case ClassError => r := AtomError;
    case ClassReadPastEnd => r := AtomReadPastEnd;
    ClassDone(p, i, cr, old(expbuf[..]), before, expbuf[..], ep, r);
  }

  /** The opcode and the bit map are the code of the class. */
  lemma ClassDone(p: string, i: nat, cr: ClassResult, start: seq<Cell>, before: seq<Cell>, after: seq<Cell>, ep: int,
        r: AtomResult)
    requires Ascii(p) && i < |p| && p[i] == '[' && |start| == |after| == ESIZE && 0 <= ep && ep + 17 < ESIZE
    requires before == start[ep := Byte(CCL)] && OnlyWithin(before, after, ep + 1, ep + 17)
    requires Ends(cr, ParseClass(p, i + 1), after[ep + 1..ep + 17])
    requires match cr
             case ClassCode(next) => r == Emit(next, ep + 17)
             case ClassError => r == AtomError
             case ClassReadPastEnd => r == AtomReadPastEnd
    ensures AtomDone(p, i, r, start, after, ep)
  {
    hide ParseClass, BitMap;
    assert after[ep] == before[ep];
    assert after[ep..ep + 17] == [Byte(CCL)] + after[ep + 1..ep + 17];
  }

  // ----- compile

  /** The parse still to come, given the items done; `loose` says that a star may follow the last. */
  ghost function StillToParse(p: string, sp: nat, done: seq<Item>, loose: bool): Parse
    requires Ascii(p) && sp <= |p| && (loose ==> done != [])
  {
    if loose then
      var n := |done| - 1;
      Prepend(done[..n] + [Starred(done[n], At(p, sp) == '*')], ParseItems(p, SkipStars(p, sp)))
    else Prepend(done, ParseLeadingStars(p, sp))
  }

  ghost predicate CompileState(p: string, sp: nat, ep: int, lastep: int, done: seq<Item>, buf: seq<Cell>)
    requires Ascii(p)
  {
    sp <= |p| && 0 <= ep <= ESIZE == |buf| && AllSane(done) && -1 <= lastep &&
    buf[..ep] == Emitted(done) && (forall k :: ep <= k < ESIZE ==> buf[k] == ZERO) &&
    (lastep != -1 ==> done != [] && lastep == |Emitted(done[..|done| - 1])| &&
                      (done[|done| - 1].EndOfLine? ==> sp == |p|)) &&
    ParsePattern(p) == StillToParse(p, sp, done, lastep != -1)
  }

  lemma PrependTwice(a: seq<Item>, b: seq<Item>, r: Parse)
    ensures Prepend(a, Prepend(b, r)) == Prepend(a + b, r)
  {
    assert a + (b + r.items) == a + b + r.items;
  }

  /** Before an atom or the end the items done are final. */
  lemma BeforeAtom(p: string, sp: nat, done: seq<Item>, loose: bool)
    requires Ascii(p) && sp <= |p| && (loose ==> done != []) && At(p, sp) != '*'
    ensures StillToParse(p, sp, done, loose) == Prepend(done, ParseItems(p, sp))
  {
    if loose {
      var n := |done| - 1;
      assert Starred(done[n], false) == done[n];
      assert done[..n] + [done[n]] == done;
    }
  }

  /** An atom has been added. */
  lemma AfterAtom(p: string, sp: nat, done: seq<Item>)
    requires Ascii(p) && sp < |p| && ParseAtom(p, sp).AtomOk?
    ensures var a := ParseAtom(p, sp);
            a.next <= |p| && Prepend(done, ParseItems(p, sp)) == StillToParse(p, a.next, done + [a.item], true)
  {
    AtomAdvances(p, sp);
    var a := ParseAtom(p, sp);
    var star := At(p, a.next) == '*';
    PrependTwice(done, [Starred(a.item, star)], ParseItems(p, SkipStars(p, a.next)));
    assert (done + [a.item])[..|done|] == done;
  }

  /** A star after an atom, and a star with no atom before it. */
  lemma AfterStar(p: string, sp: nat, done: seq<Item>)
    requires Ascii(p) && sp < |p| && p[sp] == '*' && done != []
    ensures var n := |done| - 1;
            StillToParse(p, sp, done, true) == StillToParse(p, sp + 1, done[..n] + [Starred(done[n], true)], true)
  {
    var n := |done| - 1;
    var done' := done[..n] + [Starred(done[n], true)];
    assert done'[..n] == done[..n];
    assert Starred(Starred(done[n], true), At(p, sp + 1) == '*') == Starred(done[n], true);
  }

  lemma AfterLeadingStar(p: string, sp: nat, done: seq<Item>)
    requires Ascii(p) && sp < |p| && p[sp] == '*'
    ensures StillToParse(p, sp, done, false) == StillToParse(p, sp + 1, done + [Item(Lit('*'), false)], false)
  {
    PrependTwice(done, [Item(Lit('*'), false)], ParseLeadingStars(p, sp + 1));
  }

  /** The pattern is well formed and its code fits the buffer. */
  ghost predicate Fits(p: string)
    requires Ascii(p)
  {
    ParsePattern(p).Parsed? && |Encode(ParsePattern(p).items)| <= ESIZE
  }

  /** The code of the items before a literal leaves exactly one byte of the buffer. */
  ghost predicate OverrunAt(items: seq<Item>, k: int) {
    0 <= k < |items| && IsLiteral(items[k]) && |Emitted(items[..k])| == ESIZE - 1
  }

  /** Some literal finds exactly one byte left. */
  ghost predicate Overruns(p: string)
    requires Ascii(p)
  {
    exists k :: OverrunAt(ParsePattern(p).items, k)
  }

  /** A range runs over the end of the pattern, in a class that there is room for. */
  ghost predicate ReadsPastEnd(p: string)
    requires Ascii(p)
  {
    ParsePattern(p).Stopped? && ParsePattern(p).why == PastEnd && |Emitted(ParsePattern(p).items)| + 17 < ESIZE
  }

  /** A group or a word boundary is reached before the buffer is full. */
  ghost predicate HasUnsupported(p: string)
    requires Ascii(p)
  {
    ParsePattern(p).Stopped? && ParsePattern(p).why == Unsupported && |Emitted(ParsePattern(p).items)| < ESIZE
  }

  /** What comes of a pattern; any other pattern is reported. */
  ghost predicate Verdict(p: string, r: Compiled)
    requires Ascii(p)
  {
    (r.Code? <==> Fits(p)) && (r.WrotePastEnd? <==> Overruns(p)) &&
    (r.ReadPastEnd? <==> ReadsPastEnd(p)) && (r.Unmodelled? <==> HasUnsupported(p))
  }

  lemma CodeGrows(items: seq<Item>, n: nat, k: nat)
    requires n <= k <= |items|
    ensures |Emitted(items[..n])| <= |Emitted(items[..k])|
    ensures n < k ==> |Emitted(items[..n])| + |EncodeItem(items[n])| <= |Emitted(items[..k])|
  {
    hide Emitted, EncodeItem;
    if n < k {
      assert items[..k] == items[..n + 1] + items[n + 1..k] && items[..n + 1] == items[..n] + [items[n]];
      EmittedConcat(items[..n + 1], items[n + 1..k]);
      EmittedSnoc(items[..n], items[n]);
    }
  }

  lemma LiteralSize(item: Item)
    ensures IsLiteral(item) ==> |EncodeItem(item)| == 2
  {
  }

  /** Items whose code fits have no overrun among them. */
  lemma NoOverrunBefore(items: seq<Item>, n: nat, k: int)
    requires n <= |items| && |Emitted(items[..n])| <= ESIZE && k < n
    ensures !OverrunAt(items, k)
  {
    hide Emitted, EncodeItem;
    if 0 <= k {
      CodeGrows(items, k, n);
      LiteralSize(items[k]);
    }
  }

  lemma NoOverrunAfter(items: seq<Item>, n: nat, k: int)
    requires n <= |items| && ESIZE <= |Emitted(items[..n])| && n <= k
    ensures !OverrunAt(items, k)
  {
    hide Emitted, EncodeItem;
    if k < |items| {
      CodeGrows(items, n, k);
    }
  }

  /** Code that leaves no room for the end mark cannot be completed, and nothing else is reached. */
  lemma TooLong(p: string, items: seq<Item>, rest: Parse)
    requires Ascii(p) && ParsePattern(p) == Prepend(items, rest) && ESIZE <= |Emitted(items)|
    ensures !Fits(p) && !ReadsPastEnd(p) && !HasUnsupported(p)
  {
    hide Emitted, ParsePattern, Encode;
    var all := ParsePattern(p).items;
    assert all[..|items|] == items && all[..|all|] == all;
    CodeGrows(all, |items|, |all|);
    EncodeIsEmitted(all);
  }

  /** The buffer is full: nothing was stored past its end. */
  lemma FullVerdict(p: string, items: seq<Item>, rest: Parse)
    requires Ascii(p) && ParsePattern(p) == Prepend(items, rest) && |Emitted(items)| == ESIZE
    ensures Verdict(p, ReError)
  {
    hide Emitted, ParsePattern, Fits, ReadsPastEnd, HasUnsupported, OverrunAt;
    TooLong(p, items, rest);
    var all := ParsePattern(p).items;
    assert all[..|items|] == items;
    forall k
      ensures !OverrunAt(all, k)
    {
      if k < |items| {
        NoOverrunBefore(all, |items|, k);
      } else {
        NoOverrunAfter(all, |items|, k);
      }
    }
  }

  /** An item that cannot be coded, with the buffer not yet full. */
  lemma NoRoomVerdict(p: string, done: seq<Item>, item: Item, rest: Parse)
    requires Ascii(p) && ParsePattern(p) == Prepend(done + [item], rest) && !IsLiteral(item)
    requires |Emitted(done)| < ESIZE <= |Emitted(done)| + |EncodeItem(item)|
    ensures Verdict(p, ReError)
  {
    hide Emitted, EncodeItem, ParsePattern, Fits, ReadsPastEnd, HasUnsupported, IsLiteral;
    EmittedSnoc(done, item);
    TooLong(p, done + [item], rest);
    var all, n := ParsePattern(p).items, |done|;
    assert all[..n] == done && all[..n + 1] == done + [item] && all[n] == item;
    forall k
      ensures !OverrunAt(all, k)
    {
      if k < n {
        NoOverrunBefore(all, n, k);
      } else if n < k {
        NoOverrunAfter(all, n + 1, k);
      }
    }
  }

  lemma OverrunVerdict(p: string, done: seq<Item>, item: Item, rest: Parse)
    requires Ascii(p) && ParsePattern(p) == Prepend(done + [item], rest) && IsLiteral(item)
    requires |Emitted(done)| == ESIZE - 1
    ensures Verdict(p, WrotePastEnd)
  {
    hide Emitted, EncodeItem, ParsePattern, Fits, ReadsPastEnd, HasUnsupported, IsLiteral;
    EmittedSnoc(done, item);
    LiteralSize(item);
    TooLong(p, done + [item], rest);
    var all, n := ParsePattern(p).items, |done|;
    assert all[..n] == done && all[n] == item;
    assert OverrunAt(all, n);
  }

  /** All items coded: the end mark or a fault comes next. */
  lemma NoOverrunAtAll(p: string, done: seq<Item>)
    requires Ascii(p) && ParsePattern(p).items == done && |Emitted(done)| <= ESIZE
    ensures !Overruns(p)
  {
    hide Emitted, ParsePattern, OverrunAt;
    assert done[..|done|] == done;
    forall k
      ensures !OverrunAt(done, k)
    {
      if k < |done| {
        NoOverrunBefore(done, |done|, k);
      } else {
        OverrunInside(done, k);
      }
    }
  }

  lemma OverrunInside(items: seq<Item>, k: int)
    ensures OverrunAt(items, k) ==> k < |items|
  {
  }

  lemma StarKeepsSize(item: Item)
    ensures |EncodeItem(Starred(item, true))| == |EncodeItem(item)|
    ensures item.Item? ==> EncodeItem(item)[0].Byte?
    ensures item.Item? ==>
              EncodeItem(Starred(item, true)) == EncodeItem(item)[0 := Byte(WithStar(EncodeItem(item)[0].v))]
  {
  }

  /** `|= STAR` on an opcode. */
  function WithStar(v: int): int {
    if v % 2 == 0 then v + STAR else v
  }

  lemma FullBuffer(p: string, sp: nat, ep: int, lastep: int, done: seq<Item>, buf: seq<Cell>)
    requires Ascii(p) && CompileState(p, sp, ep, lastep, done, buf) && ep == ESIZE
    ensures Verdict(p, ReError)
  {
    hide ParseItems, ParseLeadingStars, Emitted, Verdict;
    if lastep != -1 {
      var n := |done| - 1;
      var last := Starred(done[n], At(p, sp) == '*');
      EmittedSnoc(done[..n], done[n]);
      EmittedSnoc(done[..n], last);
      assert done == done[..n] + [done[n]];
      StarKeepsSize(done[n]);
      FullVerdict(p, done[..n] + [last], ParseItems(p, SkipStars(p, sp)));
    } else {
      FullVerdict(p, done, ParseLeadingStars(p, sp));
    }
  }

  /** The state before an atom, in terms of the items still to parse. */
  lemma StateBeforeAtom(p: string, sp: nat, ep: int, lastep: int, done: seq<Item>, buf: seq<Cell>)
    requires Ascii(p) && CompileState(p, sp, ep, lastep, done, buf) && At(p, sp) != '*'
    ensures ParsePattern(p) == Prepend(done, ParseItems(p, sp))
  {
    BeforeAtom(p, sp, done, lastep != -1);
  }

  lemma AtomAppended(p: string, sp: nat, ep: int, lastep: int, done: seq<Item>, buf: seq<Cell>, buf': seq<Cell>,
        r: AtomResult)
    requires Ascii(p) && CompileState(p, sp, ep, lastep, done, buf) && sp < |p| && p[sp] != '*'
    requires AtomDone(p, sp, r, buf, buf', ep) && r.Emit?
    ensures ParseAtom(p, sp).AtomOk? && sp < r.next && ep < r.ep
    ensures CompileState(p, r.next, r.ep, ep, done + [ParseAtom(p, sp).item], buf')
  {
    StateBeforeAtom(p, sp, ep, lastep, done, buf);
    AfterAtom(p, sp, done);
    AtomAdvances(p, sp);
    AtomIsSane(p, sp);
    var item := ParseAtom(p, sp).item;
    hide ParseAtom, ParseItems, ParseLeadingStars, StillToParse, Emitted, EncodeItem, Sane;
    EmittedSnoc(done, item);
    assert buf'[..r.ep] == buf'[..ep] + buf'[ep..r.ep];
    assert buf'[..ep] == buf[..ep];
    assert (done + [item])[..|done|] == done;
  }

  /** What a pass that emits no code leads to. */
  function Failure(r: AtomResult): Compiled {
    match r
    case AtomUnmodelled => Unmodelled
    case AtomReadPastEnd => ReadPastEnd
    case Overrun => WrotePastEnd
    case _ => ReError
  }

  /** No room, an overrun or a malformed atom. */
  lemma AtomFails(p: string, sp: nat, ep: int, lastep: int, done: seq<Item>,
                  buf: seq<Cell>, buf': seq<Cell>, r: AtomResult)
    requires Ascii(p) && CompileState(p, sp, ep, lastep, done, buf) && sp < |p| && p[sp] != '*'
    requires AtomDone(p, sp, r, buf, buf', ep) && !r.Emit?
    ensures Verdict(p, Failure(r))
  {
    StateBeforeAtom(p, sp, ep, lastep, done, buf);
    StateSize(p, sp, ep, lastep, done, buf);
    hide Verdict, CompileState, Emitted;
    if ParseAtom(p, sp).AtomOk? {
      AtomOverflows(p, sp, ep, done, r);
    } else {
      AtomFaults(p, sp, ep, done, r);
    }
  }

  lemma StateSize(p: string, sp: nat, ep: int, lastep: int, done: seq<Item>, buf: seq<Cell>)
    requires Ascii(p) && CompileState(p, sp, ep, lastep, done, buf)
    ensures |Emitted(done)| == ep
  {
    assert |buf[..ep]| == ep;
  }

  lemma AtomOverflows(p: string, sp: nat, ep: int, done: seq<Item>, r: AtomResult)
    requires Ascii(p) && sp < |p| && ParseAtom(p, sp).AtomOk? && |Emitted(done)| == ep < ESIZE
    requires ParsePattern(p) == Prepend(done, ParseItems(p, sp))
    requires if IsLiteral(ParseAtom(p, sp).item) && ep + 1 == ESIZE then r == Overrun
             else p[sp] == '[' && ESIZE <= ep + 17 && r == NoRoom
    ensures Verdict(p, Failure(r))
  {
    AtomAdvances(p, sp);
    var item, next := ParseAtom(p, sp).item, ParseAtom(p, sp).next;
    var last := Starred(item, At(p, next) == '*');
    PrependTwice(done, [last], ParseItems(p, SkipStars(p, next)));
    hide Verdict, Emitted;
    if r == Overrun {
      OverrunVerdict(p, done, last, ParseItems(p, SkipStars(p, next)));
    } else {
      ClassItem(p, sp);
      NoRoomVerdict(p, done, last, ParseItems(p, SkipStars(p, next)));
    }
  }

  /** A bracket is a class, which is coded in seventeen bytes, and never a group. */
  lemma ClassItem(p: string, i: nat)
    requires Ascii(p) && i < |p| && p[i] == '['
    ensures ParseAtom(p, i).AtomOk? ==>
              var last := Starred(ParseAtom(p, i).item, At(p, ParseAtom(p, i).next) == '*');
              !IsLiteral(last) && |EncodeItem(last)| == 17
    ensures ParseAtom(p, i).AtomBad? ==> ParseAtom(p, i).why != Unsupported
  {
    hide ParseClass;
  }

  lemma AtomFaults(p: string, sp: nat, ep: int, done: seq<Item>, r: AtomResult)
    requires Ascii(p) && sp < |p| && ParseAtom(p, sp).AtomBad? && |Emitted(done)| == ep < ESIZE
    requires ParsePattern(p) == Prepend(done, ParseItems(p, sp))
    requires r == if p[sp] == '[' && ESIZE <= ep + 17 then NoRoom else FaultResult(ParseAtom(p, sp).why)
    ensures Verdict(p, Failure(r))
  {
    var why := ParseAtom(p, sp).why;
    assert ParsePattern(p) == Stopped(done + [], why) && done + [] == done;
    NoOverrunAtAll(p, done);
    OnlyClassesRunOver(p, sp);
    hide Emitted, ParsePattern, ParseAtom, Encode, Overruns;
  }

  /** Only a class can run over the end of the pattern. */
  lemma OnlyClassesRunOver(p: string, i: nat)
    requires Ascii(p) && i < |p| && ParseAtom(p, i).AtomBad?
    ensures ParseAtom(p, i).why == PastEnd ==> p[i] == '['
    ensures ParseAtom(p, i).why == Unsupported ==> p[i] != '['
  {
    hide ParseClass;
  }

  lemma StarApplied(p: string, sp: nat, ep: int, lastep: int, done: seq<Item>, buf: seq<Cell>)
    requires Ascii(p) && CompileState(p, sp, ep, lastep, done, buf) && sp < |p| && p[sp] == '*' && lastep != -1
    ensures 0 <= lastep < ep && buf[lastep].Byte?
    ensures CompileState(p, sp + 1, ep, lastep, done[..|done| - 1] + [Starred(done[|done| - 1], true)],
                         buf[lastep := Byte(WithStar(buf[lastep].v))])
  {
    var n := |done| - 1;
    AfterStar(p, sp, done);
    SaneStarred(done);
    var head, last := done[..n], done[n];
    var done' := head + [Starred(last, true)];
    assert done'[..n] == head;
    hide ParseItems, ParseLeadingStars, StillToParse, Emitted, EncodeItem, Sane, AllSane, WithStar;
    EmittedSnoc(head, last);
    EmittedSnoc(head, Starred(last, true));
    assert done == head + [last];
    StarKeepsSize(last);
    StarInBuffer(buf, ep, lastep, Emitted(head), EncodeItem(last));
  }

  lemma SaneStarred(done: seq<Item>)
    requires AllSane(done) && done != []
    ensures AllSane(done[..|done| - 1] + [Starred(done[|done| - 1], true)])
  {
    assert Sane(done[|done| - 1]);
  }

  /** Setting the star bit in the buffer sets it in the code. */
  lemma StarInBuffer(buf: seq<Cell>, ep: int, lastep: int, head: seq<Cell>, code: seq<Cell>)
    requires 0 <= ep <= |buf| && buf[..ep] == head + code && lastep == |head| && code != [] && code[0].Byte?
    ensures lastep < ep && buf[lastep] == code[0]
    ensures buf[lastep := Byte(WithStar(buf[lastep].v))][..ep] == head + code[0 := Byte(WithStar(code[0].v))]
  {
    hide WithStar;
    assert buf[lastep] == buf[..ep][lastep] == (head + code)[lastep];
    var c := Byte(WithStar(code[0].v));
    assert buf[lastep := c][..ep] == buf[..ep][lastep := c];
    assert (head + code)[lastep := c] == head + code[0 := c];
  }

  lemma LeadingStar(p: string, sp: nat, ep: int, done: seq<Item>, buf: seq<Cell>, buf': seq<Cell>)
    requires Ascii(p) && CompileState(p, sp, ep, -1, done, buf) && sp < |p| && p[sp] == '*'
    requires |buf'| == ESIZE && ep + 2 <= ESIZE && buf'[ep..ep + 2] == [Byte(CCHR), Byte('*' as int)]
    requires OnlyWithin(buf, buf', ep, ep + 2)
    ensures CompileState(p, sp + 1, ep + 2, -1, done + [Item(Lit('*'), false)], buf')
  {
    AfterLeadingStar(p, sp, done);
    var item := Item(Lit('*'), false);
    assert Sane(item) && EncodeItem(item) == [Byte(CCHR), Byte('*' as int)];
    hide ParseItems, ParseLeadingStars, StillToParse, Emitted, Sane;
    EmittedSnoc(done, item);
    assert buf'[..ep + 2] == buf'[..ep] + buf'[ep..ep + 2];
    assert buf'[..ep] == buf[..ep];
  }

  lemma LeadingStarFails(p: string, sp: nat, ep: int, done: seq<Item>, buf: seq<Cell>)
    requires Ascii(p) && CompileState(p, sp, ep, -1, done, buf) && sp < |p| && p[sp] == '*' && ep + 1 == ESIZE
    ensures Verdict(p, WrotePastEnd)
  {
    StateSize(p, sp, ep, -1, done, buf);
    AfterLeadingStar(p, sp, done);
    hide Verdict, Emitted;
    OverrunVerdict(p, done, Item(Lit('*'), false), ParseLeadingStars(p, sp + 1));
  }

  lemma EndMark(p: string, sp: nat, ep: int, lastep: int, done: seq<Item>, buf: seq<Cell>)
    requires Ascii(p) && CompileState(p, sp, ep, lastep, done, buf) && sp == |p| && ep < ESIZE
    ensures ParsePattern(p) == Parsed(done) && AllSane(done) && forall n, c :: Verdict(p, Code(n, c))
    ensures buf[ep := Byte(CEOF)][..ep + 1] == Encode(done)
  {
    StateBeforeAtom(p, sp, ep, lastep, done, buf);
    assert done + [] == done;
    EncodeIsEmitted(done);
    NoOverrunAtAll(p, done);
    assert buf[ep := Byte(CEOF)][..ep + 1] == buf[..ep] + [Byte(CEOF)];
  }

  lemma StartState(p: string, buf: seq<Cell>)
    requires Ascii(p) && |buf| == ESIZE && forall k :: 0 <= k < ESIZE ==> buf[k] == ZERO
    ensures CompileState(p, if Anchored(p) then 1 else 0, 0, -1, [], buf)
  {
    var sp := if Anchored(p) then 1 else 0;
    var r := ParseLeadingStars(p, sp);
    assert [] + r.items == r.items;
  }

  /**
   `compile`: a well-formed pattern whose code fits gets exactly the code of its items.  Every
   other outcome has its exact condition as well: memory beyond the buffer is written if and
   only if a literal finds one byte left, memory beyond the pattern is read if and only if
   there is room for a class whose last range is cut off, and all else is reported.
   */
  method Compile(p: string, expbuf: array<Cell>) returns (r: Compiled)
    requires Ascii(p) && expbuf.Length == ESIZE && forall k :: 0 <= k < ESIZE ==> expbuf[k] == ZERO
    modifies expbuf
    ensures r.Code? <==> Fits(p)
    ensures r.Code? ==> r.circf == Anchored(p) && 0 < r.len <= ESIZE &&
                        CodeAt(expbuf[..r.len], 0, ParsePattern(p).items)
    ensures r.WrotePastEnd? <==> Overruns(p)
    ensures r.ReadPastEnd? <==> ReadsPastEnd(p)
    ensures r.Unmodelled? <==> HasUnsupported(p)
  {
    hide ParsePattern, CompileState, Fits, AtomDone, AllSane, Encode, Overruns, ReadsPastEnd, HasUnsupported;
    StartState(p, expbuf[..]);
    var ep, lastep := 0, -1;
    var circf := At(p, 0) == '^';
    var sp: nat := if circf then 1 else 0;
    ghost var done := [];
    while true
      invariant CompileState(p, sp, ep, lastep, done, expbuf[..])
      decreases |p| - sp
    {
      StateBounds(p, sp, ep, lastep, done, expbuf[..]);
      if ep >= ESIZE {
        FullBuffer(p, sp, ep, lastep, done, expbuf[..]);
        return ReError;
      }
      var c := At(p, sp);
      if c == '*' && lastep == -1 {
        ghost var buf := expbuf[..];
        var a := EmitLiteral('*', sp + 1, expbuf, ep);
        if a.Overrun? {
          LeadingStarFails(p, sp, ep, done, buf);
          return WrotePastEnd;
        }
        LeadingStar(p, sp, ep, done, buf, expbuf[..]);
        sp, ep := sp + 1, ep + 2;
        done := done + [Item(Lit('*'), false)];
      } else if c == '*' {
        StarApplied(p, sp, ep, lastep, done, expbuf[..]);
        done := done[..|done| - 1] + [Starred(done[|done| - 1], true)];
        ghost var buf := expbuf[..];
        expbuf[lastep] := Byte(WithStar(expbuf[lastep].v));
        assert expbuf[..] == buf[lastep := Byte(WithStar(buf[lastep].v))];
        sp := sp + 1;
      } else if c == NUL {
        EndMark(p, sp, ep, lastep, done, expbuf[..]);
        ghost var buf := expbuf[..];
        expbuf[ep] := Byte(CEOF);
        assert expbuf[..] == buf[ep := Byte(CEOF)];
        assert expbuf[..][..ep + 1] == expbuf[..ep + 1];
        assert expbuf[..ep + 1][0..] == expbuf[..ep + 1];
        return Code(ep + 1, circf);
      } else {
        ghost var buf := expbuf[..];
        var a := CompileAtom(p, sp, expbuf, ep);
        if !a.Emit? {
          AtomFails(p, sp, ep, lastep, done, buf, expbuf[..], a);
          return Failure(a);
        }
        AtomAppended(p, sp, ep, lastep, done, buf, expbuf[..], a);
        done := done + [ParseAtom(p, sp).item];
        sp, ep, lastep := a.next, a.ep, ep;
      }
    }
  }

  // ----- Patterns that leave the buffer or the pattern

  /** A class cut off after its `-`. */
  lemma ClassCutOff()
    ensures Ascii("[a-") && ParsePattern("[a-") == Stopped([], PastEnd) && ReadsPastEnd("[a-")
  {
    var p, m := "[a-", NoMembers();
    var m' := m[p[1] as int := true];
    assert ClassFrom(p, 2, 1, m') == ClassPastEnd;
    assert ClassFrom(p, 1, 1, m) == ClassNext(p, 2, 1, m') == ClassFrom(p, 2, 1, m');
    assert ParseClass(p, 1) == ClassPastEnd;
    assert ParseAtom(p, 0) == AtomBad(PastEnd);
    assert ParseItems(p, 0) == Stopped([], PastEnd);
  }

  /** n dots and a letter. */
  function Dots(n: nat): string {
    seq(n, _ => '.') + "a"
  }

  ghost function DotItems(n: nat): seq<Item> {
    seq(n, _ => Item(Any, false))
  }

  lemma {:induction false} DotsParse(n: nat, i: nat)
    requires i <= n
    ensures Ascii(Dots(n)) && ParseItems(Dots(n), i) == Parsed(DotItems(n - i) + [Item(Lit('a'), false)])
    decreases n - i
  {
    var p := Dots(n);
    if i == n {
      assert ParseItems(p, n + 1) == Parsed([]);
      assert ParseAtom(p, n) == AtomOk(Item(Lit('a'), false), n + 1);
      assert DotItems(0) + [Item(Lit('a'), false)] == [Item(Lit('a'), false)] + [];
    } else {
      DotsParse(n, i + 1);
      assert p[i] == '.' && ParseAtom(p, i) == AtomOk(Item(Any, false), i + 1);
      assert At(p, i + 1) != '*';
      assert [Item(Any, false)] + (DotItems(n - i - 1) + [Item(Lit('a'), false)])
          == DotItems(n - i) + [Item(Lit('a'), false)];
    }
  }

  lemma {:induction false} DotsSize(n: nat)
    ensures |Emitted(DotItems(n))| == n
  {
    if 0 < n {
      DotsSize(n - 1);
      EmittedSnoc(DotItems(n - 1), Item(Any, false));
      assert DotItems(n) == DotItems(n - 1) + [Item(Any, false)];
    }
  }

  /** Of the patterns that are dots and a letter, the one with 255 dots stores past the buffer. */
  lemma LetterAfterDots(n: nat)
    ensures Ascii(Dots(n)) && (Overruns(Dots(n)) <==> n == 255)
  {
    DotsParse(n, 0);
    DotsSize(n);
    var items := DotItems(n) + [Item(Lit('a'), false)];
    assert At(Dots(n), 0) != '*' && At(Dots(n), 0) != '^';
    assert ParsePattern(Dots(n)).items == items && items[..n] == DotItems(n);
    hide Emitted, ParsePattern;
    if n == 255 {
      assert OverrunAt(items, n);
    }
    assert forall k :: OverrunAt(items, k) ==> k == n;
  }

  lemma StateBounds(p: string, sp: nat, ep: int, lastep: int, done: seq<Item>, buf: seq<Cell>)
    requires Ascii(p) && CompileState(p, sp, ep, lastep, done, buf)
    ensures sp <= |p| && 0 <= ep <= ESIZE && -1 <= lastep && (lastep != -1 ==> done != [])
    ensures forall k :: ep <= k < ESIZE ==> buf[k] == ZERO
    ensures At(p, sp) == NUL ==> sp == |p|
  {
  }

  /** The pattern string is the text of the tree. */
  ghost predicate WrittenAs(t: GrepText.Pattern, p: string) {
    GrepText.WellFormed(t) && GrepText.Text(t) == p
  }

  /** A string has one tree at most, as far as its meaning goes. */
  lemma OneMeaning(t: GrepText.Pattern, u: GrepText.Pattern, p: string)
    requires WrittenAs(t, p) && WrittenAs(u, p)
    ensures GrepText.Items(t) == GrepText.Items(u) && t.anchored == u.anchored
  {
    GrepText.TextParses(t);
    GrepText.TextParses(u);
  }

  /** A pattern fits if and only if it can be written and the code of what it stands for has at most 256 bytes. */
  lemma FitsIff(p: string)
    requires Ascii(p)
    ensures Fits(p) <==> exists t :: WrittenAs(t, p) && |Encode(GrepText.Items(t))| <= 256
  {
    if ParsePattern(p).Parsed? {
      var t := GrepLaws.ParsedIsText(p);
      assert WrittenAs(t, p);
    }
    forall t | WrittenAs(t, p)
      ensures ParsePattern(p) == Parsed(GrepText.Items(t))
    {
      GrepText.TextParses(t);
    }
  }

  /**
   `grep` with one pattern on one line: unless the pattern is reported, the line is selected
   iff some part of it is matched by the pattern.
   */
  method GrepLine(p: string, line: string) returns (r: Compiled, found: bool)
    requires Ascii(p) && Ascii(line)
    ensures r.Code? <==> Fits(p)
    ensures r.Code? ==> (found <==> Selected(ParsePattern(p).items, Anchored(p), line))
    ensures r.Code? ==> exists t :: WrittenAs(t, p) && (found <==> Selected(GrepText.Items(t), t.anchored, line))
  {
    var expbuf := new Cell[ESIZE](_ => ZERO);
    r := Compile(p, expbuf);
    found := false;
    if r.Code? {
      found := SelectLine(line, expbuf[..r.len], r.circf, ParsePattern(p).items);
      ghost var t := GrepLaws.ParsedIsText(p);
      assert WrittenAs(t, p);
    }
  }
}
