/**
 `ed`'s temporary file: lines are appended to a file of 512-byte blocks through one write
 buffer and read back through one read buffer.  A line is known by its address, a count of
 two-byte units that is always even; bit 0 of a stored address is a mark.
 */
module EdStore {

  const NEWLINE: int := 10
  const BLOCK: nat := 512
  const LBSIZE: nat := 512

  /** The last block number that may not be used. */
  const BLOCKS: nat := 255

  datatype Result = Stored(address: nat) | Full

  // ----- The bytes of the store

  /** The blocks written out, and the block in the write buffer, which comes after them. */
  datatype Disk = Disk(file: seq<seq<int>>, last: seq<int>)

  ghost predicate WellFormed(d: Disk) {
    |d.last| == BLOCK && forall b :: 0 <= b < |d.file| ==> |d.file[b]| == BLOCK
  }

  ghost function BlockOf(d: Disk, b: nat): (s: seq<int>)
    requires WellFormed(d) && b <= |d.file|
    ensures |s| == BLOCK
  {
    if b < |d.file| then d.file[b] else d.last
  }

  /** The first bytes of the store are m. */
  ghost predicate Holds(d: Disk, m: seq<int>) {
    WellFormed(d) && |m| <= BLOCK * (|d.file| + 1) &&
    forall b, o :: 0 <= b <= |d.file| && 0 <= o < BLOCK && BLOCK * b + o < |m| ==> BlockOf(d, b)[o] == m[BLOCK * b + o]
  }

  lemma HoldsWrite(d: Disk, m: seq<int>, bp: nat, c: int)
    requires Holds(d, m) && bp < BLOCK && |m| == BLOCK * |d.file| + bp
    ensures Holds(d.(last := d.last[bp := c]), m + [c])
  {
    var e, m' := d.(last := d.last[bp := c]), m + [c];
    forall b, o | 0 <= b <= |e.file| && 0 <= o < BLOCK && BLOCK * b + o < |m'|
      ensures BlockOf(e, b)[o] == m'[BLOCK * b + o]
    {
      if BLOCK * b + o < |m| {
        assert BlockOf(d, b)[o] == m[BLOCK * b + o];
      }
    }
  }

  lemma HoldsNext(d: Disk, m: seq<int>)
    requires Holds(d, m) && |m| == BLOCK * (|d.file| + 1)
    ensures Holds(Disk(d.file + [d.last], d.last), m)
  {
    var e := Disk(d.file + [d.last], d.last);
    forall b, o | 0 <= b <= |e.file| && 0 <= o < BLOCK && BLOCK * b + o < |m|
      ensures BlockOf(e, b)[o] == m[BLOCK * b + o]
    {
      assert BlockOf(e, b) == BlockOf(d, b);
    }
  }

  lemma HoldsPrefix(d: Disk, m: seq<int>, n: nat)
    requires Holds(d, m) && n <= |m|
    ensures Holds(d, m[..n])
  {
  }

  /** Bytes that happen to be in the write buffer after m. */
  lemma HoldsMore(d: Disk, m: seq<int>, bp: nat, e: nat)
    requires Holds(d, m) && bp <= e <= BLOCK && |m| == BLOCK * |d.file| + bp
    ensures Holds(d, m + d.last[bp..e])
  {
    var m' := m + d.last[bp..e];
    forall b, o | 0 <= b <= |d.file| && 0 <= o < BLOCK && BLOCK * b + o < |m'|
      ensures BlockOf(d, b)[o] == m'[BLOCK * b + o]
    {
      if |m| <= BLOCK * b + o {
        assert b == |d.file|;
      }
    }
  }

  // ----- The lines

  /** The address of a line without its mark bit. */
  function Unmarked(tl: nat): nat {
    tl - tl % 2
  }

  /** The line is at address a, ended by a zero. */
  ghost predicate LineAt(m: seq<int>, a: nat, line: seq<int>) {
    a % 2 == 0 && |line| < LBSIZE && 0 !in line && NEWLINE !in line &&
    2 * a + |line| < |m| && m[2 * a..2 * a + |line|] == line && m[2 * a + |line|] == 0
  }

  /** Every stored line is in its place, and no two lines overlap. */
  ghost predicate InPlace(m: seq<int>, lines: map<nat, seq<int>>) {
    (forall a :: a in lines ==> LineAt(m, a, lines[a])) &&
    forall a, b :: a in lines && b in lines && a < b ==> 2 * a + |lines[a]| < 2 * b
  }

  lemma LineStays(m: seq<int>, more: seq<int>, a: nat, line: seq<int>)
    requires LineAt(m, a, line)
    ensures LineAt(m + more, a, line)
  {
    assert (m + more)[2 * a..2 * a + |line|] == m[2 * a..2 * a + |line|];
  }

  lemma LineEnds(m: seq<int>, a: nat, line: seq<int>)
    requires LineAt(m, a, line)
    ensures 2 * a + |line| < |m|
  {
  }

  lemma LineAdded(m: seq<int>, a: nat, line: seq<int>, pad: seq<int>)
    requires |m| == 2 * a && a % 2 == 0 && |line| < LBSIZE && 0 !in line && NEWLINE !in line
    ensures LineAt(m + (line + [0] + pad), a, line)
  {
    var m' := m + (line + [0] + pad);
    assert m'[2 * a..2 * a + |line|] == line && m'[2 * a + |line|] == 0;
  }

  lemma InPlaceNew(m: seq<int>, lines: map<nat, seq<int>>, a: nat, line: seq<int>, pad: seq<int>)
    requires InPlace(m, lines) && |m| == 2 * a && a % 2 == 0 && |line| < LBSIZE && 0 !in line && NEWLINE !in line
    ensures a !in lines && InPlace(m + (line + [0] + pad), lines[a := line])
  {
    var more := line + [0] + pad;
    LineAdded(m, a, line, pad);
    forall b | b in lines
      ensures LineAt(m + more, b, lines[b]) && 2 * b + |lines[b]| < 2 * a
    {
      LineStays(m, more, b, lines[b]);
      LineEnds(m, b, lines[b]);
    }
    hide LineAt;
  }

  lemma Found(m: seq<int>, lines: map<nat, seq<int>>, a: nat)
    requires InPlace(m, lines) && a in lines
    ensures LineAt(m, a, lines[a]) && 2 * a + |lines[a]| < |m|
  {
  }

  lemma LineBytes(m: seq<int>, a: nat, line: seq<int>)
    requires LineAt(m, a, line)
    ensures |line| < LBSIZE && 2 * a + |line| < |m|
    ensures forall k :: 0 <= k < |line| ==> line[k] != 0 && line[k] != NEWLINE
    ensures forall k :: 0 <= k <= |line| ==> m[2 * a + k] == (line + [0])[k]
  {
    forall k | 0 <= k < |line|
      ensures m[2 * a + k] == line[k]
    {
      assert m[2 * a..2 * a + |line|][k] == m[2 * a + k];
    }
  }

  // ----- Addresses

  /** The block number in an address. */
  function Number(atl: nat): (b: nat)
    ensures b < 256
  {
    atl / 256 % 256
  }

  /** The byte offset in the block; the mark bit has no part in it. */
  function Offset(atl: nat): (off: nat)
    ensures off < BLOCK && off % 4 == 0
  {
    4 * (atl / 2 % 128)
  }

  /** Units that a line of len bytes, with its final zero, takes up. */
  function Units(len: nat): nat {
    2 * ((len + 3) / 4)
  }

  lemma AddressIsBytes(atl: nat)
    requires atl < 65536
    ensures BLOCK * Number(atl) + Offset(atl) == 2 * Unmarked(atl)
  {
    var h := atl / 2;
    HalvesOf(atl, h);
    hide Number, Offset, Unmarked;
    assert BLOCK * (h / 128) + 4 * (h % 128) == 4 * h;
  }

  lemma HalvesOf(atl: nat, h: nat)
    requires atl < 65536 && h == atl / 2
    ensures Number(atl) == h / 128 && Offset(atl) == 4 * (h % 128) && Unmarked(atl) == 2 * h
  {
    assert atl == 2 * h + atl % 2;
    assert h / 128 < 256 && h == 128 * (h / 128) + h % 128;
    assert atl == 256 * (h / 128) + (2 * (h % 128) + atl % 2);
  }

  /** Looks for the zero or newline that ends the line in the buffer. */
  ghost function EndOf(s: seq<int>): (n: nat)
    ensures n <= |s| && (n < |s| ==> s[n] == 0 || s[n] == NEWLINE)
    ensures forall k :: 0 <= k < n ==> s[k] != 0 && s[k] != NEWLINE
  {
    if s == [] || s[0] == 0 || s[0] == NEWLINE then 0 else 1 + EndOf(s[1..])
  }

  lemma EndFound(m: seq<int>, a: nat, line: seq<int>, s: seq<int>)
    requires LineAt(m, a, line) && |line| < |s| && s[..|line| + 1] == line + [0]
    ensures EndOf(s) == |line| && s[..|line|] == line && s[|line|] == 0
  {
    hide EndOf, LineAt;
    LineBytes(m, a, line);
    assert forall k :: 0 <= k <= |line| ==> s[k] == s[..|line| + 1][k] == (line + [0])[k];
    assert s[|line|] == 0 && forall k :: 0 <= k < |line| ==> s[k] == line[k];
  }

  // ----- The buffers

  class Store {
    const ibuff: array<int>
    const obuff: array<int>
    const linebuf: array<int>
    var file: seq<seq<int>>
    var iblock: int
    var oblock: int
    var ichanged: bool
    var nleft: nat
    var tline: nat
    var linebp: nat
    ghost var mem: seq<int>
    ghost var lines: map<nat, seq<int>>

    ghost predicate Shape()
      reads this`file, this`iblock, this`oblock, this`ichanged
    {
      ibuff.Length == obuff.Length == BLOCK && linebuf.Length == LBSIZE &&
      ibuff != obuff && ibuff != linebuf && obuff != linebuf &&
      (forall b :: 0 <= b < |file| ==> |file[b]| == BLOCK) &&
      -1 <= iblock < |file| && -1 <= oblock <= |file| && (ichanged ==> 0 <= iblock)
    }

    /** `getblock`: finds a block in one of the two buffers, or brings it into one. */
    method GetBlock(atl: nat, write: bool) returns (ok: bool, out: bool, bp: nat)
      requires Shape()
      requires !write ==> Number(atl) < |file| || Number(atl) == oblock || BLOCKS <= Number(atl)
      requires write ==> Number(atl) <= |file| || (Number(atl) == |file| + 1 && oblock == |file|)
      modifies this`file, this`iblock, this`oblock, this`ichanged, this`nleft, ibuff
      ensures Shape() && ok == (Number(atl) < BLOCKS)
      ensures ok ==> bp == Offset(atl) && nleft == BLOCK - bp
      ensures !ok || Number(atl) == old(iblock) || Number(atl) == old(oblock) ==>
                file == old(file) && iblock == old(iblock) && oblock == old(oblock) && ibuff[..] == old(ibuff[..])
      ensures !ok ==> ichanged == old(ichanged)
      ensures ok && Number(atl) == old(iblock) ==> !out && ichanged == (old(ichanged) || write)
      ensures ok && Number(atl) == old(oblock) != old(iblock) ==> out && ichanged == old(ichanged)
      ensures ok && Number(atl) != old(iblock) && Number(atl) != old(oblock) && !write ==>
                !out && iblock == Number(atl) && !ichanged && oblock == old(oblock) && ibuff[..] == file[iblock]
      ensures ok && Number(atl) != old(iblock) && Number(atl) != old(oblock) && !write ==>
                file == if old(ichanged) then old(file)[old(iblock) := old(ibuff[..])] else old(file)
      ensures ok && Number(atl) != old(iblock) && Number(atl) != old(oblock) && write ==>
                out && oblock == Number(atl) && iblock == old(iblock) && ichanged == old(ichanged) &&
                ibuff[..] == old(ibuff[..])
      ensures ok && Number(atl) != old(iblock) && Number(atl) != old(oblock) && write ==>
                file == if 0 <= old(oblock) then Written(old(file), old(oblock), old(obuff[..])) else old(file)
    {
      var bno, off := Number(atl), Offset(atl);
      if BLOCKS <= bno {
        return false, false, 0;
      }
      nleft := BLOCK - off;
      ok, out, bp := true, false, off;
      if bno == iblock {
        ichanged := ichanged || write;
        return;
      }
      if bno == oblock {
        out := true;
        return;
      }
      if !write {
        if ichanged {
          file := Written(file, iblock, ibuff[..]);
        }
        ichanged := false;
        iblock := bno;
        ReadInto(file[bno]);
        return;
      }
      if 0 <= oblock {
        file := Written(file, oblock, obuff[..]);
      }
      oblock := bno;
      out := true;
    }

    method ReadInto(s: seq<int>)
      requires ibuff.Length == BLOCK == |s|
      modifies ibuff
      ensures ibuff[..] == s
    {
      for k := 0 to BLOCK
        invariant ibuff[..k] == s[..k]
      {
        ibuff[k] := s[k];
      }
    }

    /**
     The buffers represent the bytes m: all blocks but the one being written are in the file,
     the read buffer holds a copy of one of them, and it has not been changed.
     */
    ghost predicate Rep(m: seq<int>)
      reads this`file, this`iblock, this`oblock, this`ichanged, ibuff, obuff
    {
      Shape() && |file| < BLOCKS && (oblock == |file| || (oblock == -1 && file == [])) &&
      !ichanged && (0 <= iblock ==> ibuff[..] == file[iblock]) &&
      Holds(Disk(file, obuff[..]), m)
    }

    lemma RepFacts(m: seq<int>)
      requires Rep(m)
      ensures |m| <= BLOCK * (|file| + 1) && |file| < BLOCKS && linebuf.Length == LBSIZE
      ensures oblock == |file| || (oblock == -1 && file == [])
      ensures linebuf != ibuff && linebuf != obuff && obuff.Length == BLOCK && !ichanged
    {
    }

    lemma RepPrefix(m: seq<int>, more: seq<int>)
      requires Rep(m + more)
      ensures Rep(m)
    {
      assert (m + more)[..|m|] == m;
      HoldsPrefix(Disk(file, obuff[..]), m + more, |m|);
      hide Holds;
    }

    /** The state between two calls. */
    ghost predicate Valid()
      reads this, ibuff, obuff
    {
      Rep(mem) && |mem| == 2 * tline && tline % 2 == 0 && BLOCK * |file| <= |mem| && InPlace(mem, lines) &&
      (oblock == -1 ==> tline == 2 && lines == map[])
    }

    lemma ValidFacts()
      requires Valid()
      ensures linebuf.Length == LBSIZE && linebuf != ibuff && linebuf != obuff && tline % 2 == 0
    {
    }

    /** `init`. */
    constructor ()
      ensures Valid() && fresh(ibuff) && fresh(obuff) && fresh(linebuf) && lines == map[] && tline == 2
    {
      ibuff, obuff, linebuf := new int[BLOCK], new int[BLOCK], new int[LBSIZE];
      file, iblock, oblock, ichanged, nleft, tline, linebp := [], -1, -1, false, 0, 2, 0;
      lines := map[];
      new;
      mem := obuff[..4];
    }

    /** `getblock` for writing: the next block is always a new one. */
    method WriteBlock(atl: nat, ghost m: seq<int>) returns (ok: bool, bp: nat)
      requires Rep(m)
      requires Number(atl) == |file| || (Number(atl) == |file| + 1 && oblock == |file| && |m| == BLOCK * (|file| + 1))
      modifies this`file, this`iblock, this`oblock, this`ichanged, this`nleft, ibuff
      ensures Rep(m) && ok == (Number(atl) < BLOCKS)
      ensures ok ==> oblock == |file| == Number(atl) && bp == Offset(atl) && nleft == BLOCK - bp
      ensures !ok ==> file == old(file) && oblock == old(oblock)
    {
      if oblock == |file| < Number(atl) {
        HoldsNext(Disk(file, obuff[..]), m);
      }
      hide Holds, Offset, Number;
      var out;
      ok, out, bp := GetBlock(atl, true);
    }

    /** Block b is in the write buffer or in the read buffer. */
    ghost predicate InBuffer(out: bool, b: nat)
      reads this`file, ibuff, obuff
    {
      ibuff.Length == obuff.Length == BLOCK && b <= |file| &&
      (if out then obuff[..] else ibuff[..]) == if b < |file| then file[b] else obuff[..]
    }

    /** `getblock` for reading: the block is in a buffer or in the file. */
    method ReadBlock(atl: nat, ghost m: seq<int>) returns (out: bool, bp: nat)
      requires Rep(m) && 0 <= oblock && Number(atl) <= |file|
      modifies this`file, this`iblock, this`oblock, this`ichanged, this`nleft, ibuff
      ensures Rep(m) && file == old(file) && oblock == old(oblock) && bp == Offset(atl) && nleft == BLOCK - bp
      ensures InBuffer(out, Number(atl))
    {
      hide Holds, Offset, Number;
      var ok;
      ok, out, bp := GetBlock(atl, false);
    }

    /** One byte into the write buffer. */
    method Store1(bp: nat, c: int, ghost m: seq<int>)
      requires Rep(m) && oblock == |file| && bp < BLOCK && |m| == BLOCK * |file| + bp
      modifies obuff
      ensures Rep(m + [c]) && linebuf[..] == old(linebuf[..])
      ensures obuff[..] == old(obuff[..])[bp := c]
    {
      HoldsWrite(Disk(file, obuff[..]), m, bp, c);
      hide Holds;
      obuff[bp] := c;
      assert obuff[..] == old(obuff[..])[bp := c];
    }

    /** The copying loop of `putline`, from position bp of the block being written. */
    method CopyOut(from: nat, start: nat, ghost m: seq<int>, ghost n: nat) returns (ok: bool, bp: nat, lp: nat)
      requires Rep(m) && oblock == |file| && start < BLOCK && |m| == BLOCK * |file| + start && nleft == BLOCK - start
      requires from == 256 * |file| && n == EndOf(linebuf[..]) < LBSIZE
      modifies this`file, this`iblock, this`oblock, this`ichanged, this`nleft, this`linebp, ibuff, obuff
      ensures ok <==> |m| + n < BLOCK * BLOCKS
      ensures linebuf[..] == old(linebuf[..]) && oblock == |file|
      ensures ok ==> Rep(m + linebuf[..n] + [0]) && bp < BLOCK && |m| + n == BLOCK * |file| + bp && lp == n + 1
      ensures ok ==> linebp == if linebuf[n] == NEWLINE then n + 1 else old(linebp)
      ensures !ok ==> Rep(m) && BLOCK * |file| <= |m| && linebp == old(linebp)
    {
      hide Rep, Offset, Number, EndOf;
      RepFacts(m);
      ghost var text := linebuf[..];
      var tl, nl := from, nleft;
      ok, bp, lp := true, start, 0;
      assert m + text[..0] == m;
      while true
        invariant linebuf[..] == text && 0 <= lp <= n && oblock == |file| && bp < BLOCK && nl == BLOCK - bp
        invariant Rep(m + text[..lp]) && |m| + lp == BLOCK * |file| + bp && tl == 256 * |file|
        invariant ok && linebp == old(linebp)
        decreases n - lp
      {
        var c := linebuf[lp];
        Store1(bp, c, m + text[..lp]);
        lp := lp + 1;
        if c == 0 {
          break;
        }
        if c == NEWLINE {
          Restore(bp, m + text[..lp - 1], c);
          linebp := lp;
          break;
        }
        bp := bp + 1;
        nl := nl - 1;
        assert m + text[..lp - 1] + [c] == m + text[..lp];
        if nl == 0 {
          tl := tl + 256;
          RepFacts(m + text[..lp]);
          NextAddress(tl, |file|);
          ok, bp := WriteBlock(tl, m + text[..lp]);
          if !ok {
            RepPrefix(m, text[..lp]);
            return;
          }
          nl := nleft;
        }
      }
      RepFacts(m + text[..n] + [0]);
    }

    /** A newline that was stored is overwritten by the zero that ends the line. */
    method Restore(bp: nat, ghost m: seq<int>, ghost c: int)
      requires Rep(m + [c]) && oblock == |file| && bp < BLOCK && |m| == BLOCK * |file| + bp
      modifies obuff
      ensures Rep(m + [0]) && linebuf[..] == old(linebuf[..])
    {
      assert (m + [c])[..|m|] == m;
      HoldsPrefix(Disk(file, obuff[..]), m + [c], |m|);
      hide Holds;
      Store1(bp, 0, m);
    }

    /**
     `putline`: the line in the buffer, up to a zero or a newline, is stored at the address
     tline, unless it would reach beyond the last block.
     */
    method PutLine() returns (r: Result)
      requires Valid() && EndOf(linebuf[..]) < LBSIZE
      modifies this, ibuff, obuff
      ensures Valid() && linebuf[..] == old(linebuf[..])
      ensures var line := linebuf[..EndOf(linebuf[..])];
              if 2 * old(tline) + |line| < BLOCK * BLOCKS
              then r == Stored(old(tline)) && r.address !in old(lines) && lines == old(lines)[r.address := line] &&
                   tline == old(tline) + Units(|line| + 1)
              else r == Full && lines == old(lines) && tline == old(tline)
      ensures r.Stored? && linebuf[EndOf(linebuf[..])] == NEWLINE ==> linebp == EndOf(linebuf[..]) + 1
      ensures r.Full? || linebuf[EndOf(linebuf[..])] == 0 ==> linebp == old(linebp)
    {
      hide Rep, InPlace, EndOf, Number, Offset;
      ghost var n := EndOf(linebuf[..]);
      RepFacts(mem);
      PutAddress(tline, |file|, |mem|);
      var tl := tline;
      var ok, bp := WriteBlock(tl, mem);
      if !ok {
        return Full;
      }
      var lp;
      ok, bp, lp := CopyOut(tl - tl % 256, bp, mem, n);
      if !ok {
        return Full;
      }
      r := EndLine(lp, bp, linebuf[..n]);
    }

    /** The end of `putline`: tline moves past the line that has been copied. */
    method EndLine(lp: nat, bp: nat, ghost line: seq<int>) returns (r: Result)
      requires |mem| == 2 * tline && tline % 2 == 0 && InPlace(mem, lines) && |line| < LBSIZE && 0 !in line &&
               NEWLINE !in line
      requires Rep(mem + line + [0]) && oblock == |file| && bp < BLOCK && |mem| + |line| == BLOCK * |file| + bp
      requires lp == |line| + 1
      modifies this`tline, this`mem, this`lines
      ensures Valid() && r == Stored(old(tline)) && old(tline) !in old(lines)
      ensures lines == old(lines)[old(tline) := line] && tline == old(tline) + Units(lp)
    {
      hide Rep, InPlace, Units, Pad;
      RepFacts(mem + line + [0]);
      ghost var e := bp + 1 + Pad(lp);
      EndAligned(tline, lp, |file|, bp + 1);
      ghost var pad := obuff[bp + 1..e];
      RepMore(mem + line + [0], bp + 1, e);
      InPlaceNew(mem, lines, tline, line, pad);
      Regroup(mem, line, pad);
      r := Stored(tline);
      mem, lines := mem + line + [0] + pad, lines[tline := line];
      tline := tline + Units(lp);
    }

    /** One byte of the store, from the buffer that holds its block. */
    method Load1(out: bool, bp: nat, ghost m: seq<int>, ghost b: nat) returns (c: int)
      requires Rep(m) && InBuffer(out, b) && bp < BLOCK && BLOCK * b + bp < |m|
      ensures c == m[BLOCK * b + bp]
    {
      ghost var d := Disk(file, obuff[..]);
      assert BlockOf(d, b)[bp] == m[BLOCK * b + bp];
      c := if out then obuff[bp] else ibuff[bp];
      assert c == (if out then obuff[..] else ibuff[..])[bp];
    }

    /** The copying loop of `getline`. */
    method CopyIn(from: nat, start: nat, outStart: bool, ghost a: nat, ghost line: seq<int>, ghost b0: nat)
      requires Rep(mem) && 0 <= oblock && LineAt(mem, a, line) && nleft == BLOCK - start
      requires start < BLOCK && BLOCK * b0 + start == 2 * a && from == 256 * b0 && b0 <= |file|
      requires InBuffer(outStart, b0)
      modifies this`file, this`iblock, this`oblock, this`ichanged, this`nleft, ibuff, linebuf
      ensures Rep(mem) && file == old(file) && oblock == old(oblock) && linebuf.Length == LBSIZE
      ensures linebuf[..|line| + 1] == line + [0]
    {
      hide Rep, LineAt, InBuffer, Number, Offset;
      RepFacts(mem);
      ghost var text := line + [0];
      LineBytes(mem, a, line);
      var lp, bp, nl, tl, out := 0, start, nleft, from, outStart;
      ghost var b := b0;
      while true
        invariant Rep(mem) && file == old(file) && oblock == old(oblock)
        invariant 0 <= lp < |text| && 0 <= bp < BLOCK && nl == BLOCK - bp && tl == 256 * b
        invariant BLOCK * b + bp == 2 * a + lp && b <= |file|
        invariant InBuffer(out, b)
        invariant linebuf[..lp] == text[..lp]
        decreases |text| - lp
      {
        var c := Load1(out, bp, mem, b);
        assert c == mem[2 * a + lp] == text[lp];
        linebuf[lp] := c;
        lp, bp := lp + 1, bp + 1;
        if c == 0 {
          break;
        }
        nl := nl - 1;
        if nl == 0 {
          tl, b := tl + 256, b + 1;
          NextAddress(tl, b - 1);
          out, bp := ReadBlock(tl, mem);
          nl := nleft;
        }
      }
    }

    /** `getline`: the line stored at the address comes back, whatever has been put or got since. */
    method GetLine(tl: nat)
      requires Valid() && Unmarked(tl) in lines
      modifies this`file, this`iblock, this`oblock, this`ichanged, this`nleft, ibuff, linebuf
      ensures Valid() && linebuf.Length == LBSIZE && EndOf(linebuf[..]) < LBSIZE && linebuf[EndOf(linebuf[..])] == 0
      ensures EndOf(linebuf[..]) == |lines[Unmarked(tl)]| && linebuf[..EndOf(linebuf[..])] == lines[Unmarked(tl)]
    {
      hide Rep, InPlace, EndOf, Number, Offset;
      ghost var a := Unmarked(tl);
      ghost var line := lines[a];
      RepFacts(mem);
      Found(mem, lines, a);
      GetAddress(tl, |file|, |mem|, |line|);
      var out, bp := ReadBlock(tl, mem);
      CopyIn(tl - tl % 256, bp, out, a, line, Number(tl));
      EndFound(mem, a, line, linebuf[..]);
    }

    lemma RepMore(m: seq<int>, bp: nat, e: nat)
      requires Rep(m) && bp <= e <= BLOCK && |m| == BLOCK * |file| + bp
      ensures obuff.Length == BLOCK && Rep(m + obuff[bp..e])
    {
      HoldsMore(Disk(file, obuff[..]), m, bp, e);
      assert obuff[..][bp..e] == obuff[bp..e];
      hide Holds;
    }
  }

  lemma Regroup(m: seq<int>, line: seq<int>, pad: seq<int>)
    ensures m + (line + [0] + pad) == m + line + [0] + pad
  {
  }

  /** Bytes skipped so that the next line starts at a multiple of four. */
  function Pad(len: nat): (p: nat)
    ensures p < 4 && len + p == 2 * Units(len)
  {
    4 * ((len + 3) / 4) - len
  }

  /** The padding stays in the block, and the next address is even again. */
  lemma EndAligned(tline: nat, len: nat, blocks: nat, bp: nat)
    requires tline % 2 == 0 && 2 * tline + len == BLOCK * blocks + bp && bp <= BLOCK
    ensures bp + Pad(len) <= BLOCK && (tline + Units(len)) % 2 == 0
  {
    var k, u := tline / 2, (len + 3) / 4;
    assert tline == 2 * k && Units(len) == 2 * u && len + Pad(len) == 4 * u;
    hide Pad, Units;
    RoundUp(k + u - 128 * blocks, bp, Pad(len));
    assert tline + Units(len) == 2 * (k + u);
  }

  lemma RoundUp(t: int, bp: nat, p: nat)
    requires bp + p == 4 * t && p < 4 && bp <= 512
    ensures bp + p <= 512
  {
  }

  /** The block where the next line goes: the one being written, or the one after it. */
  lemma PutAddress(tline: nat, blocks: nat, size: nat)
    requires size == 2 * tline && tline % 2 == 0 && BLOCK * blocks <= size <= BLOCK * (blocks + 1) && blocks < BLOCKS
    ensures size < BLOCK * (blocks + 1) ==> Number(tline) == blocks && tline - tline % 256 == 256 * blocks
    ensures size == BLOCK * (blocks + 1) ==> Number(tline) == blocks + 1 && tline - tline % 256 == 256 * (blocks + 1)
    ensures BLOCK * Number(tline) + Offset(tline) == size
  {
    AddressIsBytes(tline);
    hide Offset;
    if size < BLOCK * (blocks + 1) {
      assert tline == 256 * blocks + (tline - 256 * blocks) && tline / 256 == blocks;
    } else {
      assert tline == 256 * (blocks + 1) && tline / 256 == blocks + 1;
    }
  }

  lemma GetAddress(tl: nat, blocks: nat, size: nat, len: nat)
    requires 2 * Unmarked(tl) + len < size <= BLOCK * (blocks + 1) && blocks < BLOCKS
    ensures BLOCK * Number(tl) + Offset(tl) == 2 * Unmarked(tl) && Number(tl) <= blocks &&
            tl - tl % 256 == 256 * Number(tl)
  {
    assert tl < 65536;
    AddressIsBytes(tl);
    hide Offset, Unmarked;
  }

  lemma NextAddress(tl: nat, blocks: nat)
    requires tl == 256 * (blocks + 1) && blocks < BLOCKS
    ensures Number(tl) == blocks + 1 && Offset(tl) == 0
  {
    assert tl / 256 == blocks + 1 && tl / 2 == 128 * (blocks + 1);
  }

  /** The file after its block b has been written. */
  function Written(file: seq<seq<int>>, b: nat, s: seq<int>): seq<seq<int>>
    requires b <= |file|
  {
    if b < |file| then file[b := s] else file + [s]
  }

  // ----- Any interleaving of puts and gets

  /** A request: to store what is in a line buffer, or to fetch the k-th stored line by its address, marked or not. */
  datatype Request = Put(text: seq<int>) | Get(k: nat, marked: bool)

  datatype Answer = Accepted | Refused | Text(line: seq<int>) | Unknown

  /** What a line buffer that starts with the text stores. */
  ghost function LineOf(text: seq<int>): seq<int> {
    text[..EndOf(text)]
  }

  /** The same requests put to a plain list of lines with a limit on the units used. */
  ghost function Replay(requests: seq<Request>, stored: seq<seq<int>>, used: nat): seq<Answer> {
    if requests == [] then []
    else
      match requests[0]
      case Put(text) =>
        var line := LineOf(text);
        if 2 * used + |line| < BLOCK * BLOCKS
        then [Accepted] + Replay(requests[1..], stored + [line], used + Units(|line| + 1))
        else [Refused] + Replay(requests[1..], stored, used)
      case Get(k, marked) =>
        [if k < |stored| then Text(stored[k]) else Unknown] + Replay(requests[1..], stored, used)
  }

  /** The addresses lead to the lines. */
  ghost predicate Directory(lines: map<nat, seq<int>>, addresses: seq<nat>, stored: seq<seq<int>>) {
    |addresses| == |stored| &&
    forall k :: 0 <= k < |stored| ==> addresses[k] % 2 == 0 && addresses[k] in lines && lines[addresses[k]] == stored[k]
  }

  lemma DirectoryGrows(lines: map<nat, seq<int>>, addresses: seq<nat>, stored: seq<seq<int>>, a: nat, line: seq<int>)
    requires Directory(lines, addresses, stored) && a !in lines && a % 2 == 0
    ensures Directory(lines[a := line], addresses + [a], stored + [line])
  {
  }

  lemma ReplayPut(requests: seq<Request>, i: nat, stored: seq<seq<int>>, used: nat, answers: seq<Answer>)
    requires i < |requests| && requests[i].Put?
    ensures var line := LineOf(requests[i].text);
            if 2 * used + |line| < BLOCK * BLOCKS
            then answers + Replay(requests[i..], stored, used)
                 == answers + [Accepted] + Replay(requests[i + 1..], stored + [line], used + Units(|line| + 1))
            else answers + Replay(requests[i..], stored, used) ==
                 answers + [Refused] + Replay(requests[i + 1..], stored, used)
  {
    hide LineOf, Units;
    assert requests[i..][1..] == requests[i + 1..];
  }

  lemma ReplayGet(requests: seq<Request>, i: nat, stored: seq<seq<int>>, used: nat, answers: seq<Answer>)
    requires i < |requests| && requests[i].Get?
    ensures var answer := if requests[i].k < |stored| then Text(stored[requests[i].k]) else Unknown;
            answers + Replay(requests[i..], stored, used) ==
            answers + [answer] + Replay(requests[i + 1..], stored, used)
  {
    assert requests[i..][1..] == requests[i + 1..];
  }

  lemma {:induction false} EndOfPadded(text: seq<int>, s: seq<int>)
    requires |text| < |s| && s[..|text| + 1] == text + [0]
    ensures EndOf(s) == EndOf(text) && s[..EndOf(s)] == LineOf(text)
  {
    var n := EndOf(text);
    hide EndOf;
    assert forall k :: 0 <= k <= |text| ==> s[k] == s[..|text| + 1][k] == (text + [0])[k];
    assert s[|text|] == 0 && forall k :: 0 <= k < |text| ==> s[k] == text[k];
    assert s[n] == 0 || s[n] == NEWLINE;
  }

  method Fill(linebuf: array<int>, text: seq<int>)
    requires |text| < linebuf.Length
    modifies linebuf
    ensures linebuf[..|text| + 1] == text + [0]
  {
    for k := 0 to |text|
      invariant linebuf[..k] == text[..k]
    {
      linebuf[k] := text[k];
    }
    linebuf[|text|] := 0;
  }

  lemma Lookup(lines: map<nat, seq<int>>, addresses: seq<nat>, stored: seq<seq<int>>, k: nat)
    requires Directory(lines, addresses, stored) && k < |addresses|
    ensures k < |stored| && addresses[k] in lines && lines[addresses[k]] == stored[k]
    ensures Unmarked(addresses[k]) == addresses[k] == Unmarked(addresses[k] + 1)
  {
  }

  method Fetch(store: Store, addresses: seq<nat>, k: nat, marked: bool, ghost stored: seq<seq<int>>)
        returns (line: seq<int>)
    requires store.Valid() && Directory(store.lines, addresses, stored) && k < |addresses|
    modifies store`file, store`iblock, store`oblock, store`ichanged, store`nleft, store.ibuff, store.linebuf
    ensures store.Valid() && line == stored[k]
  {
    hide Store.Valid, Directory, EndOf, Unmarked;
    Lookup(store.lines, addresses, stored, k);
    var tl := addresses[k] + if marked then 1 else 0;
    store.GetLine(tl);
    line := CString(store.linebuf, |stored[k]|);
  }

  /** The C string in a buffer. */
  method CString(linebuf: array<int>, ghost n: nat) returns (line: seq<int>)
    requires n == EndOf(linebuf[..]) < linebuf.Length && linebuf[n] == 0
    ensures line == linebuf[..n]
  {
    var k := 0;
    while linebuf[k] != 0
      invariant k <= n
      decreases n - k
    {
      k := k + 1;
    }
    line := linebuf[..k];
  }

  method Submit(store: Store, text: seq<int>) returns (r: Result)
    requires store.Valid() && |text| < LBSIZE
    modifies store, store.ibuff, store.obuff, store.linebuf
    ensures store.Valid()
    ensures var line := LineOf(text);
            if 2 * old(store.tline) + |line| < BLOCK * BLOCKS
            then r.Stored? && r.address !in old(store.lines) && r.address % 2 == 0 &&
                 store.lines == old(store.lines)[r.address := line] &&
                 store.tline == old(store.tline) + Units(|line| + 1)
            else r == Full && store.lines == old(store.lines) && store.tline == old(store.tline)
  {
    hide Store.Valid, EndOf, LineOf, Units;
    store.ValidFacts();
    Fill(store.linebuf, text);
    EndOfPadded(text, store.linebuf[..]);
    r := store.PutLine();
  }

  /** Whatever is put and got, in whatever order, the answers are those of the plain list. */
  method Session(requests: seq<Request>) returns (answers: seq<Answer>)
    requires forall i :: 0 <= i < |requests| && requests[i].Put? ==> |requests[i].text| < LBSIZE
    ensures answers == Replay(requests, [], 2)
  {
    hide Store.Valid, Directory, Replay, EndOf, LineOf, Units;
    var store := new Store();
    var addresses: seq<nat> := [];
    ghost var stored: seq<seq<int>> := [];
    answers := [];
    Begin(requests, store.lines, answers);
    for i := 0 to |requests|
      invariant fresh(store) && fresh(store.ibuff) && fresh(store.obuff) && fresh(store.linebuf)
      invariant store.Valid() && Directory(store.lines, addresses, stored)
      invariant answers + Replay(requests[i..], stored, store.tline) == Replay(requests, [], 2)
    {
      match requests[i]
      case Put(text) =>
        ReplayPut(requests, i, stored, store.tline, answers);
        ghost var lines := store.lines;
        var r := Submit(store, text);
        if r.Stored? {
          DirectoryGrows(lines, addresses, stored, r.address, LineOf(text));
          answers, addresses, stored := answers + [Accepted], addresses + [r.address], stored + [LineOf(text)];
        } else {
          answers := answers + [Refused];
        }
      case Get(k, marked) =>
        ReplayGet(requests, i, stored, store.tline, answers);
        SameLength(store.lines, addresses, stored);
        if k < |addresses| {
          var line := Fetch(store, addresses, k, marked, stored);
          answers := answers + [Text(line)];
        } else {
          answers := answers + [Unknown];
        }
    }
    End(requests, stored, store.tline, answers);
  }

  lemma SameLength(lines: map<nat, seq<int>>, addresses: seq<nat>, stored: seq<seq<int>>)
    requires Directory(lines, addresses, stored)
    ensures |addresses| == |stored|
  {
  }

  lemma Begin(requests: seq<Request>, lines: map<nat, seq<int>>, answers: seq<Answer>)
    requires answers == []
    ensures Directory(lines, [], []) && answers + Replay(requests[0..], [], 2) == Replay(requests, [], 2)
  {
    assert requests[0..] == requests;
  }

  lemma End(requests: seq<Request>, stored: seq<seq<int>>, used: nat, answers: seq<Answer>)
    ensures answers + Replay(requests[|requests|..], stored, used) == answers
  {
  }
}
