/**
 The software instruction cache of the MIPS emulator: `FetchProgramWord`.

 The text segment of the program stays in the executable file.  Lines of eight words are
 read on demand into a 4-way set-associative cache, and a counter and a pointer to the last
 word fetched let the next word of the same line be taken without a lookup.
 */
module ICache {
  import opened Arith

  type Word = x: int | 0 <= x < 0x1_0000_0000

  const LINE_WORDS: int := 8
  const LINE_BYTES: int := 32
  const SETS: int := 64
  const WAYS: int := 4
  const INVALID: Word := 0xFFFF_FFFF
  const TOP_BIT: int := 0x8000_0000

  datatype Option<T> = None | Some(value: T)

  /** Memory outside the text segment, by address; what was never written reads as 0. */
  type Memory = map<Word, Word>

  function Load(mem: Memory, addr: Word): Word {
    if addr in mem then mem[addr] else 0
  }

  function Plus(a: Word, b: int): Word {
    (a + b) % 0x1_0000_0000
  }

  lemma PlusPlus(a: Word, b: int, c: int)
    ensures Plus(Plus(a, b), c) == Plus(a, b + c)
  {
  }

  /** The word as a two's complement number. */
  function Signed(w: Word): int { if w < TOP_BIT then w else w - 0x1_0000_0000 }

  function OffsetOf(addr: Word): int { addr % LINE_BYTES / 4 }
  function SetOf(addr: Word): int { addr / LINE_BYTES % SETS }
  function TagOf(addr: Word): int { addr / LINE_BYTES / SETS }

  /** The address of the line that a tag in a set stands for. */
  function LineAddress(tag: int, idx: int): int { (tag * SETS + idx) * LINE_BYTES }

  /** An address as line, word and byte. */
  lemma AddressForm(a: int, m: int, ofs: int, r: int)
    requires a == LINE_BYTES * m + 4 * ofs + r && 0 <= ofs < LINE_WORDS && 0 <= r < 4
    ensures a / LINE_BYTES == m && a % LINE_BYTES / 4 == ofs && a / 4 == LINE_WORDS * m + ofs
  {
    ModOfMultiplePlus(LINE_BYTES, m, 4 * ofs + r);
    ModOfMultiplePlus(4, ofs, r);
    ModOfMultiplePlus(4, LINE_WORDS * m + ofs, r);
  }

  lemma AddressSplits(addr: Word)
    ensures LineAddress(TagOf(addr), SetOf(addr)) == addr / LINE_BYTES * LINE_BYTES
    ensures addr / 4 * 4 == addr / LINE_BYTES * LINE_BYTES + OffsetOf(addr) * 4
    ensures 0 <= OffsetOf(addr) < LINE_WORDS && 0 <= SetOf(addr) < SETS && 0 <= TagOf(addr) < TOP_BIT
  {
    AddressForm(addr, addr / LINE_BYTES, OffsetOf(addr), addr % LINE_BYTES % 4);
  }

  lemma AddressBytes(addr: Word)
    ensures addr == LINE_BYTES * (addr / LINE_BYTES) + 4 * OffsetOf(addr) + addr % LINE_BYTES % 4
    ensures 0 <= addr / LINE_BYTES < 0x800_0000
  {
  }

  lemma PlusSmall(a: Word, k: nat)
    requires a + k < 0x1_0000_0000
    ensures Plus(a, k) == a + k
  {
  }

  /** An address inside a line, read back as line and offset. */
  lemma OffsetInLine(addr: Word, tag: int, idx: int, ofs: int)
    requires addr / 4 * 4 == LineAddress(tag, idx) + ofs * 4 && 0 <= ofs < LINE_WORDS
    ensures addr / LINE_BYTES * LINE_BYTES == LineAddress(tag, idx) && OffsetOf(addr) == ofs
  {
    AddressForm(addr, tag * SETS + idx, ofs, addr % 4);
  }

  lemma LineBelowEnd(addr: Word, base: int, end: Word)
    requires addr / LINE_BYTES * LINE_BYTES == base < end
    ensures base <= addr && (end % LINE_BYTES == 0 ==> addr < end)
  {
  }

  lemma NextWordInLine(addr: Word)
    requires OffsetOf(addr) < LINE_WORDS - 1
    ensures Plus(addr, 4) / 4 * 4 == addr / LINE_BYTES * LINE_BYTES + (OffsetOf(addr) + 1) * 4
  {
    AddressBytes(addr);
    AddressForm(addr + 4, addr / LINE_BYTES, OffsetOf(addr) + 1, addr % LINE_BYTES % 4);
    PlusSmall(addr, 4);
  }

  lemma SkipInLine(addr: Word, base: int, ofs: int, k: int)
    requires base % LINE_BYTES == 0 && addr / 4 * 4 == base + ofs * 4 && 0 <= ofs <= ofs + k < LINE_WORDS
    ensures Plus(addr, 4 * k) / 4 * 4 == base + (ofs + k) * 4
  {
    var m := base / LINE_BYTES;
    assert addr + 4 * k == LINE_BYTES * m + 4 * (ofs + k) + addr % 4;
    AddressForm(addr, m, ofs, addr % 4);
    AddressBytes(addr);
    AddressForm(addr + 4 * k, m, ofs + k, addr % 4);
    PlusSmall(addr, 4 * k);
  }

  /** The word of an address lies in its line. */
  lemma IndexInLine(addr: int, begin: int)
    requires begin % LINE_BYTES == 0 && begin <= addr
    ensures 0 <= (addr - begin) / 4 < (addr / LINE_BYTES * LINE_BYTES - begin) / 4 + LINE_WORDS
  {
    var q, r, t := addr / LINE_BYTES, addr % LINE_BYTES, begin / LINE_BYTES;
    var d := q - t;
    assert addr - begin == LINE_BYTES * d + r && addr / LINE_BYTES * LINE_BYTES - begin == LINE_BYTES * d;
    assert (LINE_BYTES * d + r) / 4 == LINE_WORDS * d + r / 4 && LINE_BYTES * d / 4 == LINE_WORDS * d;
  }

  /** What a program sees at an address: the text in the file, or memory. */
  datatype Image = Image(textBegin: Word, textEnd: Word, exe: seq<Word>) {
    /** The segment starts on a line boundary. */
    predicate Placed() {
      textBegin % LINE_BYTES == 0
    }

    predicate InText(addr: Word) {
      textBegin <= addr < textEnd
    }

    /** The file reaches to the end of the line of `addr`. */
    predicate LineInFile(addr: int) {
      textBegin <= addr && (addr / LINE_BYTES * LINE_BYTES - textBegin) / 4 + LINE_WORDS <= |exe|
    }

    /** The word of the file that belongs to `addr`. */
    function TextWord(addr: int): Word
      requires Placed() && LineInFile(addr)
    {
      IndexInLine(addr, textBegin);
      exe[(addr - textBegin) / 4]
    }

    /** The line of the file that starts at address `base`. */
    function Line(base: int): seq<Word>
      requires Placed() && LineInFile(base)
    {
      var at := (base / LINE_BYTES * LINE_BYTES - textBegin) / 4;
      exe[at..at + LINE_WORDS]
    }

    lemma LineInFileFromBase(addr: Word, base: int)
      requires Placed() && textBegin <= addr && base == addr / LINE_BYTES * LINE_BYTES && LineInFile(base)
      ensures LineInFile(addr)
    {
      AddressForm(base, addr / LINE_BYTES, 0, 0);
    }

    lemma WordOfLine(addr: Word, base: int)
      requires Placed() && LineInFile(addr) && base == addr / LINE_BYTES * LINE_BYTES
      ensures LineInFile(base) && |Line(base)| == LINE_WORDS
      ensures 0 <= OffsetOf(addr) < LINE_WORDS && Line(base)[OffsetOf(addr)] == TextWord(addr)
      ensures textBegin <= base && (addr < textEnd ==> base < textEnd)
    {
      AddressBytes(addr);
      var m, b := addr / LINE_BYTES, textBegin / LINE_BYTES;
      AddressForm(base, m, 0, 0);
      AddressForm(base - textBegin, m - b, 0, 0);
      AddressForm(addr - textBegin, m - b, OffsetOf(addr), addr % LINE_BYTES % 4);
    }

    /** The word at `addr`; none when the file is too short to hold its line. */
    function WordAt(mem: Memory, addr: Word): Option<Word>
      requires Placed()
    {
      if !InText(addr) then Some(Load(mem, addr))
      else if LineInFile(addr) then Some(TextWord(addr))
      else None
    }
  }

  /** Where `CachedInstr` points. */
  datatype Pointer = InCache(idx: int, way: int, ofs: int) | InMemory(addr: int) {
    function Advance(k: int): Pointer {
      match this
      case InCache(idx, way, ofs) => InCache(idx, way, ofs + k)
      case InMemory(a) => InMemory(a + 4 * k)
    }
  }

  class Cache {
    const image: Image
    const tags: array2<Word>
    const rows: array2<seq<Word>>
    var cachedCnt: int
    var cachedInstr: Pointer
    var victim: int

    ghost predicate Shape() {
      image.Placed() &&
      tags.Length0 == SETS && tags.Length1 == WAYS && rows.Length0 == SETS && rows.Length1 == WAYS
    }

    /** Way `way` of set `idx` holds a whole line of the text. */
    ghost predicate HoldsLine(idx: int, way: int)
      requires Shape() && 0 <= idx < SETS && 0 <= way < WAYS
      reads tags, rows
    {
      var base := LineAddress(tags[idx, way], idx);
      tags[idx, way] < TOP_BIT &&
      image.textBegin <= base < image.textEnd && image.LineInFile(base) &&
      rows[idx, way] == image.Line(base)
    }

    /** Every way is empty or holds a line, and no line is held twice. */
    ghost predicate Coherent()
      reads tags, rows
    {
      Shape() &&
      (forall idx, way :: 0 <= idx < SETS && 0 <= way < WAYS ==> tags[idx, way] == INVALID || HoldsLine(idx, way)) &&
      (forall idx, way, way' :: 0 <= idx < SETS && 0 <= way < way' < WAYS && tags[idx, way] == tags[idx, way']
          ==> tags[idx, way] == INVALID)
    }

    /** While the counter is positive, the word after the pointer is the one at `addr`. */
    ghost predicate Synced(cnt: int, p: Pointer, addr: Word)
      requires Shape()
      reads tags, rows
    {
      0 < cnt ==>
        && p.InCache?
        && 0 <= p.idx < SETS && 0 <= p.way < WAYS && 0 <= p.ofs && p.ofs + cnt < LINE_WORDS
        && HoldsLine(p.idx, p.way)
        && addr / 4 * 4 == LineAddress(tags[p.idx, p.way], p.idx) + (p.ofs + 1) * 4
    }

    ghost predicate InSync(addr: Word)
      requires Shape()
      reads this`cachedCnt, this`cachedInstr, tags, rows
    {
      Synced(cachedCnt, cachedInstr, addr)
    }

    constructor (image: Image)
      requires image.Placed()
      ensures this.image == image && fresh(tags) && fresh(rows)
      ensures Coherent() && cachedCnt == 0 && 0 <= victim < WAYS
    {
      this.image := image;
      tags := new Word[SETS, WAYS]((_, _) => INVALID);
      rows := new seq<Word>[SETS, WAYS]((_, _) => []);
      cachedCnt := 0;
      cachedInstr := InCache(0, 0, 0);
      victim := WAYS - 1;
    }

    /** The first way of the set that satisfies the lookup, or WAYS. */
    method FindTag(idx: int, tag: Word) returns (way: int)
      requires Shape() && 0 <= idx < SETS
      ensures 0 <= way <= WAYS
      ensures way < WAYS ==> tags[idx, way] == tag
      ensures forall w :: 0 <= w < way ==> tags[idx, w] != tag
    {
      way := 0;
      while way < WAYS
        invariant 0 <= way <= WAYS
        invariant forall w :: 0 <= w < way ==> tags[idx, w] != tag
      {
        if tags[idx, way] == tag { return; }
        way := way + 1;
      }
    }

    /** An empty way if there is one, else the next victim in turn. */
    method ChooseWay(idx: int) returns (way: int)
      requires Shape() && 0 <= idx < SETS && 0 <= victim < WAYS
      modifies this`victim
      ensures 0 <= victim < WAYS && 0 <= way < WAYS
      ensures victim != old(victim) ==> way == victim == (old(victim) + 1) % WAYS
      ensures victim != old(victim) ==> forall w :: 0 <= w < WAYS ==> tags[idx, w] < TOP_BIT
      ensures victim == old(victim) ==> tags[idx, way] >= TOP_BIT && forall w :: 0 <= w < way ==> tags[idx, w] < TOP_BIT
    {
      way := 0;
      while way < WAYS
        invariant 0 <= way <= WAYS && victim == old(victim)
        invariant forall w :: 0 <= w < way ==> tags[idx, w] < TOP_BIT
      {
        if tags[idx, way] >= TOP_BIT { return; }
        way := way + 1;
      }
      victim := (victim + 1) % WAYS;
      way := victim;
    }

    /** Reads the line of `addr` from the file into a way of its set. */
    method Fill(idx: int, way: int, addr: Word)
      requires Coherent() && image.InText(addr) && image.LineInFile(addr)
      requires idx == SetOf(addr) && 0 <= way < WAYS
      requires forall w :: 0 <= w < WAYS ==> tags[idx, w] != TagOf(addr)
      modifies tags, rows
      ensures Coherent() && HoldsLine(idx, way) && tags[idx, way] == TagOf(addr)
      ensures forall i, w :: 0 <= i < SETS && 0 <= w < WAYS && !(i == idx && w == way) ==>
                tags[i, w] == old(tags[i, w]) && rows[i, w] == old(rows[i, w])
    {
      AddressSplits(addr);
      image.WordOfLine(addr, addr / LINE_BYTES * LINE_BYTES);
      rows[idx, way] := image.Line(addr / LINE_BYTES * LINE_BYTES);
      tags[idx, way] := TagOf(addr);
    }

    /** The lookup proper: the set is searched, and on a miss a way is filled from the file. */
    method Lookup(addr: Word) returns (way: int)
      requires Coherent() && 0 <= victim < WAYS && image.InText(addr)
      modifies this`victim, tags, rows
      ensures Coherent() && 0 <= victim < WAYS && 0 <= way <= WAYS
      ensures way < WAYS <==> image.LineInFile(addr)
      ensures way < WAYS ==> HoldsLine(SetOf(addr), way) && tags[SetOf(addr), way] == TagOf(addr)
    {
      AddressSplits(addr);
      var idx, tag := SetOf(addr), TagOf(addr);
      way := FindTag(idx, tag);
      if way == WAYS {
        way := ChooseWay(idx);
        if !image.LineInFile(addr) {
          return WAYS;
        }
        Fill(idx, way, addr);
      } else {
        image.LineInFileFromBase(addr, LineAddress(tag, idx));
      }
    }

    /** The fast path: the next word of the line fetched last. */
    method NextInLine(addr: Word) returns (instr: Word)
      requires Coherent() && InSync(addr) && 0 < cachedCnt
      modifies this`cachedCnt, this`cachedInstr
      ensures image.LineInFile(addr) && instr == image.TextWord(addr)
      ensures InSync(Plus(addr, 4))
    {
      CoherentShape();
      hide Coherent, LineAddress, Plus, OffsetOf;
      cachedCnt := cachedCnt - 1;
      cachedInstr := cachedInstr.(ofs := cachedInstr.ofs + 1);
      var p := cachedInstr;
      OffsetInLine(addr, tags[p.idx, p.way], p.idx, p.ofs);
      image.WordOfLine(addr, LineAddress(tags[p.idx, p.way], p.idx));
      instr := rows[p.idx, p.way][p.ofs];
      if 0 < cachedCnt {
        NextWordInLine(addr);
      }
    }

    lemma CoherentShape()
      requires Coherent()
      ensures Shape()
    {
    }

    /** A lookup that leaves counter and pointer ready for the rest of the line. */
    method FetchLine(addr: Word) returns (instr: Option<Word>)
      requires Coherent() && 0 <= victim < WAYS && image.InText(addr)
      modifies this, tags, rows
      ensures Coherent() && 0 <= victim < WAYS
      ensures instr == if image.LineInFile(addr) then Some(image.TextWord(addr)) else None
      ensures instr.Some? ==> InSync(Plus(addr, 4)) && cachedCnt == LINE_WORDS - 1 - OffsetOf(addr)
    {
      var way := Lookup(addr);
      if way == WAYS {
        return None;
      }
      AddressSplits(addr);
      image.WordOfLine(addr, addr / LINE_BYTES * LINE_BYTES);
      cachedCnt := LINE_WORDS - 1 - OffsetOf(addr);
      cachedInstr := InCache(SetOf(addr), way, OffsetOf(addr));
      instr := Some(rows[SetOf(addr), way][OffsetOf(addr)]);
      if 0 < cachedCnt {
        NextWordInLine(addr);
      }
    }

    /** With the segment ending on a line boundary the fast path never leaves the text. */
    lemma LineStaysInText(addr: Word)
      requires Coherent() && InSync(addr) && 0 < cachedCnt
      ensures image.textEnd % LINE_BYTES == 0 ==> image.InText(addr)
    {
      var p := cachedInstr;
      var base := LineAddress(tags[p.idx, p.way], p.idx);
      OffsetInLine(addr, tags[p.idx, p.way], p.idx, p.ofs + 1);
      LineBelowEnd(addr, base, image.textEnd);
    }

    /** Words of the current line are dropped from the fast path. */
    method Skip(k: nat)
      modifies this`cachedCnt, this`cachedInstr
      ensures cachedCnt == old(cachedCnt) - k && cachedInstr == old(cachedInstr).Advance(k)
    {
      cachedCnt := cachedCnt - k;
      cachedInstr := cachedInstr.Advance(k);
    }

    lemma SkipKeepsSync(cnt: int, p: Pointer, addr: Word, k: nat)
      requires Shape() && Synced(cnt, p, addr)
      ensures Synced(cnt - k, p.Advance(k), Plus(addr, 4 * k))
    {
      hide HoldsLine, Plus;
      if 0 < cnt - k {
        SkipInLine(addr, LineAddress(tags[p.idx, p.way], p.idx), p.ofs + 1, k);
      }
    }

    /** `FetchProgramWord`. */
    method FetchProgramWord(addr: Word, mem: Memory) returns (instr: Option<Word>)
      requires Coherent() && InSync(addr) && 0 <= victim < WAYS
      modifies this, tags, rows
      ensures Coherent() && 0 <= victim < WAYS
      ensures old(cachedCnt) > 0 ==>
                image.LineInFile(addr) && instr == Some(image.TextWord(addr))
      ensures old(cachedCnt) <= 0 ==> instr == image.WordAt(mem, addr)
      ensures image.textEnd % LINE_BYTES == 0 ==> instr == image.WordAt(mem, addr)
      ensures instr.Some? ==> InSync(Plus(addr, 4))
      ensures old(cachedCnt) <= 0 && image.InText(addr) && instr.Some? ==>
                cachedCnt == LINE_WORDS - 1 - OffsetOf(addr)
    {
      if cachedCnt > 0 {
        LineStaysInText(addr);
        var w := NextInLine(addr);
        return Some(w);
      }
      if addr < image.textBegin || addr >= image.textEnd {
        cachedCnt := 0;
        cachedInstr := InMemory(addr);
        return Some(Load(mem, addr));
      }
      instr := FetchLine(addr);
    }
  }

  lemma LastWordOffset(end: Word)
    requires 4 <= end && end % 4 == 0
    ensures Plus(end - 4, 4) == end
    ensures end % LINE_BYTES != 0 ==> OffsetOf(end - 4) < LINE_WORDS - 1
  {
    PlusSmall(end - 4, 4);
    AddressBytes(end);
    var m, ofs := end / LINE_BYTES, OffsetOf(end);
    if 0 < ofs {
      AddressForm(end - 4, m, ofs - 1, end % LINE_BYTES % 4);
    }
  }

  /**
   Straight-line execution over the end of the segment: the word after the last one is taken
   from memory exactly when the segment ends on a line boundary, else from the file.
   */
  method FetchAcrossEnd(image: Image, mem: Memory) returns (last: Option<Word>, after: Option<Word>)
    requires image.Placed() && image.textBegin < image.textEnd && image.textEnd % 4 == 0
    requires image.LineInFile(image.textEnd - 4)
    ensures last == Some(image.TextWord(image.textEnd - 4))
    ensures image.textEnd % LINE_BYTES == 0 ==> after == image.WordAt(mem, image.textEnd)
    ensures image.textEnd % LINE_BYTES != 0 ==>
              image.LineInFile(image.textEnd) && after == Some(image.TextWord(image.textEnd))
    ensures after == image.WordAt(mem, image.textEnd) <==>
              image.textEnd % LINE_BYTES == 0 || Load(mem, image.textEnd) == image.TextWord(image.textEnd)
  {
    var c := new Cache(image);
    last := c.FetchProgramWord(image.textEnd - 4, mem);
    LastWordOffset(image.textEnd);
    after := c.FetchProgramWord(image.textEnd, mem);
  }
}
