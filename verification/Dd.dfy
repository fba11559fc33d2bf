/**
 `dd`: the output buffer that cuts the converted stream into blocks of obs bytes, and the
 converters conv=block and conv=unblock, which take one character at a time.
 */
module Dd {

  const NEWLINE: int := 10
  const SPACE: int := 32

  /** Conversion options: the record size and the two case flags. */
  datatype Options = Options(cbs: nat, ucase: bool, lcase: bool)

  /** The case mapping of `cnull` and `block`. */
  function Fold(o: Options, c: int): int {
    var up := if o.ucase && 97 <= c <= 122 then c - 32 else c;
    if o.lcase && 65 <= up <= 90 then up + 32 else up
  }

  function Spaces(n: nat): (s: seq<int>)
    ensures |s| == n && forall k :: 0 <= k < n ==> s[k] == SPACE
  {
    seq(n, _ => SPACE)
  }

  function Flatten(blocks: seq<seq<int>>): seq<int> {
    if blocks == [] then [] else Flatten(blocks[..|blocks| - 1]) + blocks[|blocks| - 1]
  }

  // ----- What the converters write

  /** What `block` writes for one character, with cbc characters of the line behind it. */
  function BlockOne(o: Options, cbc: nat, c: int): seq<int> {
    if o.cbs == 0 then [Fold(o, c)]
    else if c == NEWLINE then Spaces(if cbc < o.cbs then o.cbs - cbc else 0)
    else if cbc < o.cbs then [Fold(o, c)]
    else []
  }

  function BlockCount(o: Options, cbc: nat, c: int): nat {
    if o.cbs == 0 then cbc else if c == NEWLINE then 0 else cbc + 1
  }

  function Block(o: Options, text: seq<int>, cbc: nat): seq<int> {
    if text == [] then []
    else BlockOne(o, cbc, text[0]) + Block(o, text[1..], BlockCount(o, cbc, text[0]))
  }

  /** The number of lines cut short. */
  function Truncations(o: Options, text: seq<int>, cbc: nat): nat {
    if text == [] then 0
    else (if 0 < o.cbs == cbc && text[0] != NEWLINE then 1 else 0)
         + Truncations(o, text[1..], BlockCount(o, cbc, text[0]))
  }

  /** Position in the record and blanks held back by `unblock`. */
  datatype Place = Place(cbc: nat, nspace: nat)

  function UnblockOne(o: Options, at: Place, c: int): seq<int> {
    if o.cbs == 0 then [Fold(o, c)]
    else
      (if c == SPACE then [] else Spaces(at.nspace) + [Fold(o, c)]) +
      (if at.cbc + 1 >= o.cbs then [NEWLINE] else [])
  }

  function UnblockPlace(o: Options, at: Place, c: int): Place {
    if o.cbs == 0 then at
    else if at.cbc + 1 >= o.cbs then Place(0, 0)
    else Place(at.cbc + 1, if c == SPACE then at.nspace + 1 else 0)
  }

  function Unblock(o: Options, data: seq<int>, at: Place): seq<int> {
    if data == [] then []
    else UnblockOne(o, at, data[0]) + Unblock(o, data[1..], UnblockPlace(o, at, data[0]))
  }

  lemma BlockStep(o: Options, text: seq<int>, i: nat, cbc: nat, s: seq<int>)
    requires i < |text|
    ensures var n := BlockCount(o, cbc, text[i]);
            && s + Block(o, text[i..], cbc) == (s + BlockOne(o, cbc, text[i])) + Block(o, text[i + 1..], n)
            && Truncations(o, text[i..], cbc)
               == (if 0 < o.cbs == cbc && text[i] != NEWLINE then 1 else 0) + Truncations(o, text[i + 1..], n)
  {
    assert text[i..][1..] == text[i + 1..];
  }

  lemma BlockEnds(o: Options, text: seq<int>, s: seq<int>)
    ensures text[0..] == text && text[|text|..] == [] && [] + Block(o, text, 0) == Block(o, text, 0)
    ensures forall n: nat :: s + Block(o, [], n) == s && Truncations(o, [], n) == 0
  {
  }

  lemma UnblockStep(o: Options, data: seq<int>, i: nat, at: Place, s: seq<int>)
    requires i < |data|
    ensures s + Unblock(o, data[i..], at)
            == (s + UnblockOne(o, at, data[i])) + Unblock(o, data[i + 1..], UnblockPlace(o, at, data[i]))
  {
    assert data[i..][1..] == data[i + 1..];
  }

  lemma UnblockEnds(o: Options, data: seq<int>, s: seq<int>, at: Place)
    ensures data[0..] == data && data[|data|..] == [] &&
            [] + Unblock(o, data, Place(0, 0)) == Unblock(o, data, Place(0, 0))
    ensures s + Unblock(o, [], at) == s
  {
  }

  // ----- The output side

  class Copier {
    const o: Options
    const obs: nat
    const obuf: array<int>
    var obc: nat
    var written: seq<seq<int>>
    var nofr: nat
    var nopr: nat
    var cbc: nat
    var nspace: nat
    var ntrunc: nat

    /** Only full blocks have been written, and the buffer is not full. */
    ghost predicate Valid()
      reads this
    {
      0 < obs == obuf.Length && obc < obs && nopr == 0 && nofr == |written| &&
      forall k :: 0 <= k < |written| ==> |written[k]| == obs
    }

    /** Everything converted so far. */
    ghost function Stream(): seq<int>
      requires obc <= obuf.Length
      reads this, obuf
    {
      Flatten(written) + obuf[..obc]
    }

    constructor (o: Options, obs: nat)
      requires 0 < obs
      ensures Valid() && this.o == o && this.obs == obs && Stream() == [] && fresh(obuf)
      ensures cbc == 0 && nspace == 0 && ntrunc == 0
    {
      this.o := o;
      this.obs := obs;
      obuf := new int[obs];
      obc, written, nofr, nopr := 0, [], 0, 0;
      cbc, nspace, ntrunc := 0, 0, 0;
    }

    /** `flsh`: writes what is in the buffer, if anything. */
    method Flsh()
      requires 0 < obs == obuf.Length && obc <= obs && nopr == 0
      modifies this`obc, this`written, this`nofr, this`nopr
      ensures obc == 0 && Stream() == old(Stream())
      ensures old(obc) == 0 ==> written == old(written) && nofr == old(nofr) && nopr == 0
      ensures old(obc) > 0 ==> written == old(written) + [old(obuf[..obc])]
      ensures old(obc) == obs ==> nofr == old(nofr) + 1 && nopr == 0
      ensures 0 < old(obc) < obs ==> nofr == old(nofr) && nopr == 1
    {
      if obc != 0 {
        if obc == obs {
          nofr := nofr + 1;
        } else {
          nopr := nopr + 1;
        }
        written := written + [obuf[..obc]];
        assert written[..|written| - 1] == old(written);
        obc := 0;
      }
      assert obuf[..0] == [];
    }

    /** `null`: one character into the buffer, which is written when it is full. */
    method Null(c: int)
      requires Valid()
      modifies this`obc, this`written, this`nofr, this`nopr, obuf
      ensures Valid() && Stream() == old(Stream()) + [c]
    {
      ghost var s := Stream();
      obuf[obc] := c;
      obc := obc + 1;
      assert obuf[..obc] == old(obuf[..obc]) + [c];
      assert Stream() == s + [c];
      if obc >= obs {
        Flsh();
      }
    }

    /** `cnull`. */
    method CNull(c: int)
      requires Valid()
      modifies this`obc, this`written, this`nofr, this`nopr, obuf
      ensures Valid() && Stream() == old(Stream()) + [Fold(o, c)]
    {
      var cc := c;
      if o.ucase && 97 <= cc <= 122 {
        cc := cc - 32;
      }
      if o.lcase && 65 <= cc <= 90 {
        cc := cc + 32;
      }
      Null(cc);
    }

    /** One character of conv=block. */
    method DoBlock(c: int)
      requires Valid()
      modifies this, obuf
      ensures Valid() && Stream() == old(Stream()) + BlockOne(o, old(cbc), c)
      ensures cbc == BlockCount(o, old(cbc), c) && nspace == old(nspace)
      ensures ntrunc == old(ntrunc) + if 0 < o.cbs == old(cbc) && c != NEWLINE then 1 else 0
    {
      if o.cbs == 0 {
        CNull(c);
        return;
      }
      if c == NEWLINE {
        ghost var s, start := Stream(), cbc;
        while cbc < o.cbs
          invariant Valid() && start <= cbc && (start <= o.cbs ==> cbc <= o.cbs) && (o.cbs <= start ==> cbc == start)
          invariant Stream() == s + Spaces(cbc - start)
          invariant nspace == old(nspace) && ntrunc == old(ntrunc)
        {
          Null(SPACE);
          cbc := cbc + 1;
          assert Spaces(cbc - 1 - start) + [SPACE] == Spaces(cbc - start);
        }
        cbc := 0;
        return;
      }
      if cbc == o.cbs {
        ntrunc := ntrunc + 1;
      }
      cbc := cbc + 1;
      if cbc <= o.cbs {
        CNull(c);
      }
    }

    /** One character of conv=unblock. */
    method DoUnblock(c: int)
      requires Valid()
      modifies this, obuf
      ensures Valid() && Stream() == old(Stream()) + UnblockOne(o, old(Place(cbc, nspace)), c)
      ensures Place(cbc, nspace) == UnblockPlace(o, old(Place(cbc, nspace)), c) && ntrunc == old(ntrunc)
    {
      if o.cbs == 0 {
        CNull(c);
        return;
      }
      ghost var s := Stream();
      ghost var part := if c == SPACE then [] else Spaces(nspace) + [Fold(o, c)];
      if c == SPACE {
        nspace := nspace + 1;
        assert s + [] == s;
      } else {
        HeldBlanks();
        CNull(c);
        assert s + Spaces(old(nspace)) + [Fold(o, c)] == s + part;
      }
      assert Stream() == s + part;
      cbc := cbc + 1;
      EndOfRecord(s, part);
    }

    /** The end of a record is marked by a newline. */
    method EndOfRecord(ghost s: seq<int>, ghost part: seq<int>)
      requires Valid() && Stream() == s + part && 0 < cbc
      modifies this`obc, this`written, this`nofr, this`nopr, this`nspace, this`cbc, obuf
      ensures Valid() && Stream() == s + (part + if old(cbc) >= o.cbs then [NEWLINE] else [])
      ensures Place(cbc, nspace) == if old(cbc) >= o.cbs then Place(0, 0) else old(Place(cbc, nspace))
    {
      assert part + [] == part;
      assert s + part + [NEWLINE] == s + (part + [NEWLINE]);
      if cbc >= o.cbs {
        Null(NEWLINE);
        cbc := 0;
        nspace := 0;
      }
    }

    /** The blanks held back turn out not to be trailing. */
    method HeldBlanks()
      requires Valid()
      modifies this`obc, this`written, this`nofr, this`nopr, this`nspace, obuf
      ensures Valid() && nspace == 0 && Stream() == old(Stream()) + Spaces(old(nspace))
    {
      ghost var s, held := Stream(), nspace;
      while nspace > 0
        invariant Valid() && nspace <= held && Stream() == s + Spaces(held - nspace)
      {
        Null(SPACE);
        nspace := nspace - 1;
        assert Spaces(held - nspace - 1) + [SPACE] == Spaces(held - nspace);
      }
    }

    /** The main loop with conv=block, then the last `flsh`. */
    method BlockAll(text: seq<int>)
      requires Valid() && Stream() == [] && cbc == 0 && ntrunc == 0
      modifies this, obuf
      ensures Flatten(written) == Block(o, text, 0) && ntrunc == Truncations(o, text, 0)
      ensures Rechunked()
    {
      hide Stream, Block, BlockOne, BlockCount, Truncations;
      BlockEnds(o, text, Stream());
      for i := 0 to |text|
        invariant Valid()
        invariant Stream() + Block(o, text[i..], cbc) == Block(o, text, 0)
        invariant ntrunc + Truncations(o, text[i..], cbc) == Truncations(o, text, 0)
      {
        BlockStep(o, text, i, cbc, Stream());
        DoBlock(text[i]);
      }
      BlockEnds(o, text, Stream());
      Finish();
    }

    /** The main loop with conv=unblock, then the last `flsh`. */
    method UnblockAll(data: seq<int>)
      requires Valid() && Stream() == [] && cbc == 0 && nspace == 0
      modifies this, obuf
      ensures Flatten(written) == Unblock(o, data, Place(0, 0))
      ensures Rechunked()
    {
      hide Stream, Unblock, UnblockOne, UnblockPlace;
      UnblockEnds(o, data, Stream(), Place(0, 0));
      for i := 0 to |data|
        invariant Valid()
        invariant Stream() + Unblock(o, data[i..], Place(cbc, nspace)) == Unblock(o, data, Place(0, 0))
      {
        UnblockStep(o, data, i, Place(cbc, nspace), Stream());
        DoUnblock(data[i]);
      }
      UnblockEnds(o, data, Stream(), Place(cbc, nspace));
      Finish();
    }

    /** Every write but the last is of obs bytes, and the counters say how many there were. */
    ghost predicate Rechunked()
      reads this
    {
      |written| == nofr + nopr && nopr <= 1 && 0 < obs &&
      (forall k :: 0 <= k < nofr ==> |written[k]| == obs) &&
      (nopr == 1 ==> 0 < |written[nofr]| < obs)
    }

    method Finish()
      requires Valid()
      modifies this, obuf
      ensures Flatten(written) == old(Stream()) && Rechunked() && ntrunc == old(ntrunc)
    {
      Flsh();
      assert obuf[..0] == [];
      assert Flatten(written) + [] == Flatten(written);
    }
  }
}
