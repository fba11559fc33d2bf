/** What `dd` writes, byte by byte: conv=ucase and conv=lcase, the padding and the newlines. */
module DdCase {
  import opened Dd
  import opened DdRoundTrip

  /** The k-th letter; both flags together leave only small letters. */
  lemma LettersChange(o: Options, k: nat)
    requires k < 26
    ensures Fold(o, 97 + k) == if o.ucase && !o.lcase then 65 + k else 97 + k
    ensures Fold(o, 65 + k) == if o.lcase then 97 + k else 65 + k
  {
  }

  lemma OthersStay(o: Options, c: int)
    requires !(97 <= c <= 122) && !(65 <= c <= 90)
    ensures Fold(o, c) == c
  {
  }

  function Folded(o: Options, s: seq<int>): (r: seq<int>)
    ensures |r| == |s| && forall k :: 0 <= k < |s| ==> r[k] == Fold(o, s[k])
  {
    seq(|s|, k requires 0 <= k < |s| => Fold(o, s[k]))
  }

  function WithoutCase(o: Options): Options { o.(ucase := false, lcase := false) }

  lemma FoldedConcat(o: Options, s: seq<int>, t: seq<int>)
    ensures Folded(o, s + t) == Folded(o, s) + Folded(o, t)
  {
  }

  /** conv=block with a case flag writes what it writes without, with the case of every letter changed. */
  lemma {:induction false} BlockFolds(o: Options, text: seq<int>, cbc: nat)
    ensures Block(o, text, cbc) == Folded(o, Block(WithoutCase(o), text, cbc))
    decreases |text|
  {
    if text != [] {
      var p, c := WithoutCase(o), text[0];
      var n := BlockCount(o, cbc, c);
      BlockFolds(o, text[1..], n);
      assert BlockOne(o, cbc, c) == Folded(o, BlockOne(p, cbc, c));
      FoldedConcat(o, BlockOne(p, cbc, c), Block(p, text[1..], n));
    }
  }

  lemma {:induction false} UnblockFolds(o: Options, data: seq<int>, at: Place)
    ensures Unblock(o, data, at) == Folded(o, Unblock(WithoutCase(o), data, at))
    decreases |data|
  {
    if data != [] {
      var p, c := WithoutCase(o), data[0];
      var next := UnblockPlace(o, at, c);
      UnblockFolds(o, data[1..], next);
      OneFolds(o, at, c);
      FoldedConcat(o, UnblockOne(p, at, c), Unblock(p, data[1..], next));
    }
  }

  lemma OneFolds(o: Options, at: Place, c: int)
    ensures UnblockOne(o, at, c) == Folded(o, UnblockOne(WithoutCase(o), at, c))
  {
    var p := WithoutCase(o);
    var a := if c == SPACE then [] else Spaces(at.nspace) + [c];
    var b := if at.cbc + 1 >= o.cbs then [NEWLINE] else [];
    FoldedConcat(o, a, b);
    assert Folded(o, Spaces(at.nspace)) == Spaces(at.nspace);
    FoldedConcat(o, Spaces(at.nspace), [c]);
    assert o.cbs != 0 ==> UnblockOne(p, at, c) == a + b;
    assert o.cbs != 0 ==> UnblockOne(o, at, c) == Folded(o, a) + Folded(o, b);
  }

  /** With conv=ucase alone no small letter is written, with conv=lcase no capital. */
  lemma OneCaseOnly(o: Options, text: seq<int>)
    ensures o.ucase && !o.lcase ==>
              forall c | 97 <= c <= 122 :: c !in Block(o, text, 0) && c !in Unblock(o, text, Place(0, 0))
    ensures o.lcase ==>
              forall c | 65 <= c <= 90 :: c !in Block(o, text, 0) && c !in Unblock(o, text, Place(0, 0))
  {
    BlockFolds(o, text, 0);
    UnblockFolds(o, text, Place(0, 0));
    hide Block, Unblock;
  }

  /** A line is cut to the record or filled up with blanks, in the case asked for. */
  lemma RecordBytes(o: Options, line: seq<int>)
    requires 0 < o.cbs && 10 !in line
    ensures Block(o, line + [10], 0) ==
            if o.cbs < |line| then Folded(o, line[..o.cbs]) else Folded(o, line) + seq(o.cbs - |line|, _ => 32)
  {
    hide Block, Record, Fold, Folded;
    BlockFolds(o, line + [10], 0);
    OneRecord(WithoutCase(o), line);
    FoldedRecord(o, line);
  }

  lemma OneRecord(p: Options, line: seq<int>)
    requires Plain(p) && 10 !in line
    ensures Block(p, line + [10], 0) == Record(p.cbs, line)
  {
    BlockLine(p, line, []);
    assert Block(p, [], 0) == [];
    hide Block, Record;
    assert line + [10] + [] == line + [10] && Record(p.cbs, line) + [] == Record(p.cbs, line);
  }

  lemma FoldedRecord(o: Options, line: seq<int>)
    ensures Folded(o, Record(o.cbs, line)) ==
            if o.cbs < |line| then Folded(o, line[..o.cbs]) else Folded(o, line) + seq(o.cbs - |line|, _ => 32)
  {
    if o.cbs < |line| {
      assert Record(o.cbs, line) == line[..o.cbs];
    } else {
      var pad := seq(o.cbs - |line|, _ => 32);
      assert Record(o.cbs, line) == line + pad;
      FoldedConcat(o, line, pad);
      assert Folded(o, pad) == pad;
    }
  }

  /** A record comes back as its line, in the case asked for. */
  lemma LineBytes(o: Options, line: seq<int>)
    requires 0 < o.cbs && |line| <= o.cbs && (line != [] ==> line[|line| - 1] != 32)
    ensures Unblock(o, line + seq(o.cbs - |line|, _ => 32), Place(0, 0)) == Folded(o, line) + [10]
  {
    var p, pad := WithoutCase(o), seq(o.cbs - |line|, _ => 32);
    UnblockFolds(o, line + pad, Place(0, 0));
    UnblockRecord(p, line + pad, []);
    StrippedOfPadded(line, |pad|);
    assert pad == Spaces(|pad|);
    assert line + pad + [] == line + pad && Unblock(p, [], Place(0, 0)) == [];
    assert Unblock(p, line + pad, Place(0, 0)) == line + [10];
    FoldedConcat(o, line, [10]);
  }
}
