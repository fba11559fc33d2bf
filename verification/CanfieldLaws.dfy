/**
 The rule book of the solitaire, in card numbers and pile numbers: what each command does to the
 piles.  Pile 0 is the stock, 1 the talon, 2 the hand, 3 to 6 the foundations, 7 to 10 the tableau.
 Cards 0 to 12 are the spades from the ace up, then come clubs, hearts and diamonds.
 */
module CanfieldLaws {
  import opened Arith
  import opened Canfield
  import opened CanfieldRules
  import opened CanfieldDeck

  ghost predicate Proper(t: Table) {
    |t.g.piles| == 11 && |t.g.where| == 52 && |t.g.at| == 52 &&
    forall i, a :: 0 <= i < 11 && 0 <= a < |t.g.piles[i]| ==> t.g.piles[i][a] < 52
  }

  /** The card of a suit and a rank. */
  lemma CardNumbers(suit: nat, rank: nat)
    requires suit < 4 && 1 <= rank <= 13
    ensures var c := 13 * suit + (rank - 1);
            Suit(c) == suit && Rank(c) == rank && (Black(c) <==> suit == 0 || suit == 1)
  {
    ModOfMultiplePlus(13, suit, rank - 1);
  }

  /** Same suit, one rank higher, the ace above the king. */
  predicate OneUp(c: nat, d: nat) {
    c / 13 == d / 13 && (c % 13 == d % 13 + 1 || (c % 13 == 0 && d % 13 == 12))
  }

  /** One rank lower and of the other colour. */
  predicate OneDown(c: nat, d: nat) {
    (c < 26 <==> d >= 26) && (d % 13 == c % 13 + 1 || (d % 13 == 0 && c % 13 == 12))
  }

  lemma RulesOfRank(c: nat, d: nat)
    requires c < 52 && d < 52
    ensures OneUp(c, d) <==> RankHigher(c, d) && Suit(c) == Suit(d)
    ensures OneDown(c, d) <==> RankLower(c, d) && Black(c) != Black(d)
  {
  }

  /** The last card of pile s goes to the end of pile d. */
  function OneMoved(piles: seq<seq<nat>>, s: nat, d: nat): seq<seq<nat>>
    requires s < |piles| && d < |piles| && s != d && piles[s] != []
  {
    var n := |piles[s]| - 1;
    piles[s := piles[s][..n]][d := piles[d] + [piles[s][n]]]
  }

  /** The pile that a source character names. */
  predicate Names(src: char, s: nat) {
    (src == 's' && s == 0) || (src == 't' && s == 1) ||
    (src == '1' && s == 7) || (src == '2' && s == 8) || (src == '3' && s == 9) || (src == '4' && s == 10)
  }

  predicate NamesTableau(dst: char, d: nat) {
    (dst == '1' && d == 7) || (dst == '2' && d == 8) || (dst == '3' && d == 9) || (dst == '4' && d == 10)
  }

  // ----- To a foundation

  ghost predicate GoesUp(t: Table, s: nat, k: nat) {
    Proper(t) && s < 11 && k < 4 && t.g.piles[s] != [] && t.g.piles[3 + k] != [] &&
    OneUp(t.g.piles[s][|t.g.piles[s]| - 1], t.g.piles[3 + k][|t.g.piles[3 + k]| - 1])
  }

  lemma GoesUpIsFits(t: Table, s: nat, k: nat)
    requires Proper(t) && s < 11 && k < 4
    ensures GoesUp(t, s, k) <==> Fits(t.g, s, k)
    ensures t.g.piles[s] != [] <==> HasTop(t.g, s)
  {
    hide RankHigher, Suit, OneUp;
    if t.g.piles[s] != [] && t.g.piles[3 + k] != [] {
      RulesOfRank(TopOf(t.g, s), TopOf(t.g, 3 + k));
    }
  }

  /** Foundation k is the first that the card is one above. */
  ghost predicate FirstUp(t: Table, s: nat, k: nat) {
    GoesUp(t, s, k) && forall j: nat :: j < k ==> !GoesUp(t, s, j)
  }

  /** Type a source and `f`: the card goes to the first foundation that it is one above, and otherwise stays. */
  lemma FoundationCommand(t: Table, rank: nat, src: char, dst: char, declined: bool, s: nat, k: nat)
    requires Proper(t) && Names(src, s) && (dst == 'f' || dst == 'F')
    ensures (forall j: nat :: j < 4 ==> !GoesUp(t, s, j)) ==> Move(t, rank, src, dst, declined) == t
    ensures FirstUp(t, s, k) ==>
              var r := Move(t, rank, src, dst, declined);
              r.g.piles == OneMoved(t.g.piles, s, 3 + k) && r.times == 0 && r.over == t.over
  {
    assert Move(t, rank, src, dst, declined) == ToFoundation(t, s);
    GoesUpIsFits(t, s, 0);
    GoesUpIsFits(t, s, 1);
    GoesUpIsFits(t, s, 2);
    GoesUpIsFits(t, s, 3);
    hide Fits, Move;
    if FirstUp(t, s, k) {
      assert ToFoundation(t, s) == Table(Shift(t.g, s, 3 + k), 0, t.over);
    }
  }

  // ----- To the tableau

  /** A card may go into a space from the stock, and from the talon when the stock is used up. */
  ghost predicate GoesDown(t: Table, s: nat, d: nat) {
    Proper(t) && s < 11 && d < 11 && t.g.piles[s] != [] &&
    if t.g.piles[d] == [] then s == 0 || t.g.piles[0] == []
    else OneDown(t.g.piles[s][|t.g.piles[s]| - 1], t.g.piles[d][|t.g.piles[d]| - 1])
  }

  lemma GoesDownIsMayPlay(t: Table, s: nat, des: nat)
    requires Proper(t) && s < 2 && des < 4
    ensures GoesDown(t, s, 7 + des) <==> MayPlay(t.g, s, des)
  {
    hide RankLower, Black, OneDown;
    if t.g.piles[s] != [] && t.g.piles[7 + des] != [] {
      RulesOfRank(TopOf(t.g, s), TopOf(t.g, 7 + des));
    }
  }

  /** Type `s` or `t` and a tableau pile: the top card goes if it may, and otherwise stays. */
  lemma TableauCommand(t: Table, rank: nat, src: char, dst: char, declined: bool, s: nat, d: nat)
    requires Proper(t) && s < 2 && Names(src, s) && NamesTableau(dst, d)
    ensures !GoesDown(t, s, d) ==> Move(t, rank, src, dst, declined) == t
    ensures GoesDown(t, s, d) ==>
              var r := Move(t, rank, src, dst, declined);
              r.g.piles == OneMoved(t.g.piles, s, d) && r.times == 0 && r.over == t.over
  {
    hide Follows;
    GoesDownIsMayPlay(t, s, d - 7);
    assert Move(t, rank, src, dst, declined) == ToTableau(t, s, d - 7);
  }

  /** The bottom card of pile s may go on the top card of pile d; a space takes no pile. */
  ghost predicate GoesOnto(t: Table, s: nat, d: nat) {
    Proper(t) && s < 11 && d < 11 && s != d && t.g.piles[s] != [] && t.g.piles[d] != [] &&
    OneDown(t.g.piles[s][0], t.g.piles[d][|t.g.piles[d]| - 1])
  }

  lemma GoesOntoIsMayStack(t: Table, sour: nat, des: nat)
    requires Proper(t) && sour < 4 && des < 4
    ensures GoesOnto(t, 7 + sour, 7 + des) <==> sour != des && MayStack(t.g, sour, des)
  {
    hide RankLower, Black, OneDown;
    if t.g.piles[7 + sour] != [] && t.g.piles[7 + des] != [] {
      RulesOfRank(t.g.piles[7 + sour][0], TopOf(t.g, 7 + des));
    }
  }

  /** Type two tableau piles: the whole pile goes if it may, and otherwise stays. */
  lemma PileCommand(t: Table, rank: nat, src: char, dst: char, declined: bool, s: nat, d: nat)
    requires Proper(t) && NamesTableau(src, s) && NamesTableau(dst, d)
    ensures !GoesOnto(t, s, d) ==> Move(t, rank, src, dst, declined) == t
    ensures GoesOnto(t, s, d) ==>
              var r := Move(t, rank, src, dst, declined);
              r.g.piles == t.g.piles[s := []][d := t.g.piles[d] + t.g.piles[s]] && r.times == 0 && r.over == t.over
  {
    hide Follows;
    GoesOntoIsMayStack(t, s - 7, d - 7);
    assert Move(t, rank, src, dst, declined) == Onto(t, s - 7, d - 7);
  }

  // ----- Everything else

  /** `q` ends the game, and a character that names no pile does nothing. */
  lemma OtherCommands(t: Table, rank: nat, src: char, dst: char, declined: bool)
    requires Proper(t)
    ensures src == 'q' ==> Move(t, rank, src, dst, declined) == Table(t.g, t.times, true)
    ensures src !in {'s', 't', 'h', 'q', '1', '2', '3', '4'} ==> Move(t, rank, src, dst, declined) == t
    ensures src != 'h' && src != 'q' && dst !in {'f', 'F', '1', '2', '3', '4'} ==>
              Move(t, rank, src, dst, declined) == t
    ensures src == 'h' && dst != 't' && dst != 'T' ==> Move(t, rank, src, dst, declined) == t
    ensures src == 'h' && (dst == 't' || dst == 'T') && declined ==>
              Move(t, rank, src, dst, declined) == Table(t.g, t.times, true)
  {
    hide ToFoundation, ToTableau, Onto, Turned;
  }
}
