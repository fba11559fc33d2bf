/** Canfield solitaire: each kind of move keeps the foundations and the tableau as the rules want them. */
module CanfieldRules {
  import opened Canfield

  ghost predicate IsFoundation(i: nat) {
    FOUND <= i < TABLEAU
  }

  // ----- Foundations

  /** A card that fits goes onto foundation k. */
  lemma FoundedGrows(g: Layout, s: nat, k: nat, base: nat, rank: nat)
    requires Founded(g.piles, base, rank) && HasTop(g, s) && !IsFoundation(s) && k <= base
    requires g.piles[FOUND + k] != [] ==>
               var c, d := TopOf(g, s), TopOf(g, FOUND + k); Suit(c) == Suit(d) && Rank(c) == Up(Rank(d))
    ensures Founded(Shift(g, s, FOUND + k).piles, base, rank)
  {
    var piles := Shift(g, s, FOUND + k).piles;
    forall j | 0 <= j < 4
      ensures FoundationOk(piles, base, rank, j)
    {
      assert FoundationOk(g.piles, base, rank, j);
      if j == k {
        hide Rank, Suit, FoundationRun;
        RunGrows(g.piles[FOUND + k], rank, TopOf(g, s));
      }
    }
  }

  /** A base-rank card starts the next foundation. */
  lemma FoundedStarts(g: Layout, s: nat, base: nat, rank: nat)
    requires Founded(g.piles, base, rank) && HasTop(g, s) && !IsFoundation(s) && base < 3 && Rank(TopOf(g, s)) == rank
    ensures Founded(Shift(g, s, FOUND + base + 1).piles, base + 1, rank)
  {
    var piles, base' := Shift(g, s, FOUND + base + 1).piles, base + 1;
    forall j | 0 <= j < 4
      ensures FoundationOk(piles, base', rank, j)
    {
      assert FoundationOk(g.piles, base, rank, j);
      if j == base + 1 {
        RunStarts(rank, TopOf(g, s));
      }
    }
  }

  /** Moves among the other piles leave the foundations alone. */
  lemma FoundedStays(g: Layout, g': Layout, base: nat, rank: nat)
    requires Founded(g.piles, base, rank) && |g'.piles| == PILES
    requires forall i: nat :: IsFoundation(i) ==> g'.piles[i] == g.piles[i]
    ensures Founded(g'.piles, base, rank)
  {
    forall j | 0 <= j < 4
      ensures FoundationOk(g'.piles, base, rank, j)
    {
      assert FoundationOk(g.piles, base, rank, j) && IsFoundation(FOUND + j);
    }
  }

  // ----- The tableau

  lemma PlayedStays(g: Layout, s: nat, d: nat, bottom: int)
    requires HasTop(g, s) && d < PILES && s != d && g.where[TopOf(g, s)] == s && (FOUND <= d || s < FOUND)
    requires BottomPlayed(g.where, bottom)
    ensures BottomPlayed(Shift(g, s, d).where, bottom)
  {
  }

  /** A tableau pile that a move does not touch. */
  lemma TableauStays(g: Layout, s: nat, d: nat, bottom: int, rank: nat, open: nat, k: nat)
    requires HasTop(g, s) && d < PILES && s != d && g.where[TopOf(g, s)] == s && (FOUND <= d || s < FOUND) && k < 4
    requires s != TABLEAU + k && d != TABLEAU + k && TableauOk(g, bottom, rank, open, k)
    ensures TableauOk(Shift(g, s, d), bottom, rank, open, k)
  {
    PlayedStays(g, s, d, bottom);
    assert Shift(g, s, d).piles[TABLEAU + k] == g.piles[TABLEAU + k];
  }

  /** Stock, talon, hand and foundations only: no tableau pile changes. */
  lemma TabledStays(g: Layout, s: nat, d: nat, bottom: seq<int>, rank: nat, open: nat)
    requires HasTop(g, s) && d < TABLEAU && s < TABLEAU && s != d && g.where[TopOf(g, s)] == s &&
             (FOUND <= d || s < FOUND)
    requires Tabled(g, bottom, rank, open)
    ensures Tabled(Shift(g, s, d), bottom, rank, open)
  {
    forall k | 0 <= k < 4
      ensures TableauOk(Shift(g, s, d), bottom[k], rank, open, k)
    {
      TableauStays(g, s, d, bottom[k], rank, open, k);
    }
  }

  lemma Shrinks(g: Layout, d: nat, bottom: int, rank: nat, open: nat, k: nat)
    requires k < 4 && HasTop(g, TABLEAU + k) && IsFoundation(d) && g.where[TopOf(g, TABLEAU + k)] == TABLEAU + k
    requires TableauOk(g, bottom, rank, open, k) && k <= open
    ensures TableauOk(Shift(g, TABLEAU + k, d), bottom, rank, if k == open then open + 1 else open, k)
  {
    PlayedStays(g, TABLEAU + k, d, bottom);
    DescentShrinks(g.piles[TABLEAU + k]);
  }

  /** The top of tableau pile k goes to a foundation. */
  lemma TabledShrinks(g: Layout, d: nat, bottom: seq<int>, rank: nat, open: nat, k: nat)
    requires k < 4 && HasTop(g, TABLEAU + k) && IsFoundation(d) && g.where[TopOf(g, TABLEAU + k)] == TABLEAU + k
    requires Tabled(g, bottom, rank, open) && k <= open
    ensures Tabled(Shift(g, TABLEAU + k, d), bottom, rank, if k == open then open + 1 else open)
  {
    var open' := if k == open then open + 1 else open;
    forall j | 0 <= j < 4
      ensures TableauOk(Shift(g, TABLEAU + k, d), bottom[j], rank, open', j)
    {
      if j == k {
        Shrinks(g, d, bottom[j], rank, open, k);
      } else {
        TableauStays(g, TABLEAU + k, d, bottom[j], rank, open, j);
      }
    }
  }

  /** What `tabok` allows on tableau pile k, apart from who may fill a space. */
  ghost predicate Follows(g: Layout, c: nat, k: nat)
    requires |g.piles| == PILES && k < 4
  {
    g.piles[TABLEAU + k] != [] ==>
      RankLower(c, TopOf(g, TABLEAU + k)) && Black(c) != Black(TopOf(g, TABLEAU + k))
  }

  lemma Grows(g: Layout, s: nat, bottom: int, rank: nat, k: nat)
    requires HasTop(g, s) && s < FOUND && g.where[TopOf(g, s)] == s && k < 4 && Rank(TopOf(g, s)) != rank
    requires TableauOk(g, bottom, rank, 4, k) && Follows(g, TopOf(g, s), k)
    ensures var b := if g.piles[TABLEAU + k] == [] then TopOf(g, s) else bottom;
            TableauOk(Shift(g, s, TABLEAU + k), b, rank, 4, k)
  {
    PlayedStays(g, s, TABLEAU + k, bottom);
    DescentGrows(g.piles[TABLEAU + k], TopOf(g, s));
    hide Rank, RankLower, Black;
  }

  /** The top of stock or talon goes onto tableau pile k. */
  lemma TabledGrows(g: Layout, s: nat, bottom: seq<int>, rank: nat, k: nat)
    requires HasTop(g, s) && s < FOUND && g.where[TopOf(g, s)] == s && k < 4 && Rank(TopOf(g, s)) != rank
    requires Tabled(g, bottom, rank, 4) && Follows(g, TopOf(g, s), k)
    ensures var bottom' := if g.piles[TABLEAU + k] == [] then bottom[k := TopOf(g, s)] else bottom;
            Tabled(Shift(g, s, TABLEAU + k), bottom', rank, 4)
  {
    var bottom' := if g.piles[TABLEAU + k] == [] then bottom[k := TopOf(g, s)] else bottom;
    forall j | 0 <= j < 4
      ensures TableauOk(Shift(g, s, TABLEAU + k), bottom'[j], rank, 4, j)
    {
      if j == k {
        Grows(g, s, bottom[k], rank, k);
      } else {
        TableauStays(g, s, TABLEAU + k, bottom[j], rank, 4, j);
      }
    }
  }

  /** Tableau pile s goes onto tableau pile d. */
  lemma TabledStacks(g: Layout, bottom: seq<int>, rank: nat, s: nat, d: nat)
    requires s < 4 && d < 4 && s != d && |g.at| == DECKSIZE && Tabled(g, bottom, rank, 4)
    requires g.piles[TABLEAU + s] != [] && g.piles[TABLEAU + d] != [] && Follows(g, g.piles[TABLEAU + s][0], d)
    ensures Tabled(Stack(g, TABLEAU + s, TABLEAU + d), bottom[s := NIL], rank, 4)
  {
    var g', bottom' := Stack(g, TABLEAU + s, TABLEAU + d), bottom[s := NIL];
    forall j | 0 <= j < 4
      ensures TableauOk(g', bottom'[j], rank, 4, j)
    {
      assert TableauOk(g, bottom[j], rank, 4, j) && TableauOk(g, bottom[s], rank, 4, s);
      if j == d {
        DescentJoins(g.piles[TABLEAU + d], g.piles[TABLEAU + s]);
      }
      hide Rank, RankLower, Black, TableauRun;
    }
  }

  // ----- The game as it would be played with cards on a table

  /**
   What the player sees: the piles, how often the hand has been gone through since the last move, and whether
   the game is over.
   */
  datatype Table = Table(g: Layout, times: int, over: bool)

  /** The first foundation without a card, or 4. */
  ghost function FirstEmpty(piles: seq<seq<nat>>): nat {
    if |piles| != PILES then 4
    else if piles[FOUND] == [] then 0
    else if piles[FOUND + 1] == [] then 1
    else if piles[FOUND + 2] == [] then 2
    else if piles[FOUND + 3] == [] then 3
    else 4
  }

  lemma FirstEmptyIs(piles: seq<seq<nat>>, base: nat, rank: nat)
    requires Founded(piles, base, rank)
    ensures FirstEmpty(piles) == base + 1
  {
    assert FoundationOk(piles, base, rank, 0) && FoundationOk(piles, base, rank, 1);
    assert FoundationOk(piles, base, rank, 2) && FoundationOk(piles, base, rank, 3);
  }

  /** Base-rank cards on top of a pile start foundations. */
  ghost function BasesOut(g: Layout, cp: nat, rank: nat): Layout
    requires !IsFoundation(cp)
    decreases if cp < |g.piles| then |g.piles[cp]| else 0
  {
    if HasTop(g, cp) && Rank(TopOf(g, cp)) == rank && FirstEmpty(g.piles) < 4
    then BasesOut(Shift(g, cp, FOUND + FirstEmpty(g.piles)), cp, rank)
    else g
  }

  lemma BasesStep(g: Layout, cp: nat, rank: nat, base: nat)
    requires !IsFoundation(cp) && Founded(g.piles, base, rank)
    ensures HasTop(g, cp) && Rank(TopOf(g, cp)) == rank && base < 3 ==>
              BasesOut(g, cp, rank) == BasesOut(Shift(g, cp, FOUND + base + 1), cp, rank)
    ensures !HasTop(g, cp) || Rank(TopOf(g, cp)) != rank ==> BasesOut(g, cp, rank) == g
  {
    hide Rank, Shift, TopOf, Founded, HasTop;
    FirstEmptyIs(g.piles, base, rank);
  }

  /** n cards from one pile to another, one by one. */
  ghost function Dealt(g: Layout, s: nat, d: nat, n: nat): Layout
    requires d < PILES && s != d
    decreases n
  {
    if 0 < n && HasTop(g, s) then Dealt(Shift(g, s, d), s, d, n - 1) else g
  }

  lemma DealtStep(g: Layout, s: nat, d: nat, n: nat)
    requires d < PILES && s != d
    ensures Dealt(g, s, d, 0) == g
    ensures 0 < n && HasTop(g, s) ==> Dealt(g, s, d, n) == Dealt(Shift(g, s, d), s, d, n - 1)
  {
  }

  function Three(n: nat): nat {
    if n >= 3 then 3 else n
  }

  /** Three cards are turned; an empty hand is first refilled from the talon, but not a fourth time. */
  ghost function Turned(t: Table, rank: nat): Table
    requires |t.g.piles| == PILES
  {
    var hand, talon := |t.g.piles[HAND]|, |t.g.piles[TALON]|;
    if 0 < hand then t.(g := BasesOut(Dealt(t.g, HAND, TALON, Three(hand)), TALON, rank))
    else if 0 < talon && t.times + 1 != 4 then
      t.(g := BasesOut(Dealt(Dealt(t.g, TALON, HAND, talon), HAND, TALON, Three(talon)), TALON, rank),
         times := t.times + 1)
    else if 0 < talon then t.(times := t.times + 1, over := true)
    else t
  }

  /** The top card of pile cp fits foundation k. */
  ghost predicate Fits(g: Layout, cp: nat, k: nat) {
    k < 4 && HasTop(g, cp) && g.piles[FOUND + k] != [] &&
    RankHigher(TopOf(g, cp), TopOf(g, FOUND + k)) && Suit(TopOf(g, cp)) == Suit(TopOf(g, FOUND + k))
  }

  ghost function ToFoundation(t: Table, cp: nat): Table
    requires !IsFoundation(cp)
  {
    if Fits(t.g, cp, 0) then Table(Shift(t.g, cp, FOUND), 0, t.over)
    else if Fits(t.g, cp, 1) then Table(Shift(t.g, cp, FOUND + 1), 0, t.over)
    else if Fits(t.g, cp, 2) then Table(Shift(t.g, cp, FOUND + 2), 0, t.over)
    else if Fits(t.g, cp, 3) then Table(Shift(t.g, cp, FOUND + 3), 0, t.over)
    else t
  }

  /** A space is filled from the stock, and from the talon once the stock is used up. */
  ghost predicate MayPlay(g: Layout, cp: nat, des: nat) {
    HasTop(g, cp) && des < 4 && Follows(g, TopOf(g, cp), des) &&
    (g.piles[TABLEAU + des] == [] ==> cp == STOCK || g.piles[STOCK] == [])
  }

  ghost function ToTableau(t: Table, cp: nat, des: nat): Table
    requires cp < TABLEAU
  {
    if MayPlay(t.g, cp, des) then Table(Shift(t.g, cp, TABLEAU + des), 0, t.over) else t
  }

  /** A whole pile goes onto a card that its bottom card follows; never into a space, never onto itself. */
  ghost predicate MayStack(g: Layout, sour: nat, des: nat) {
    |g.piles| == PILES && |g.where| == |g.at| && sour < 4 && des < 4 &&
    g.piles[TABLEAU + sour] != [] && g.piles[TABLEAU + des] != [] && Follows(g, g.piles[TABLEAU + sour][0], des)
  }

  ghost function Onto(t: Table, sour: nat, des: nat): Table {
    if sour != des && MayStack(t.g, sour, des) then Table(Stack(t.g, TABLEAU + sour, TABLEAU + des), 0, t.over) else t
  }

  /** What a command does before bases are looked for. */
  ghost function Move(t: Table, rank: nat, src: char, dst: char, declined: bool): Table
    requires |t.g.piles| == PILES
  {
    var toFoundation, toTableau := dst == 'f' || dst == 'F', '1' <= dst <= '4';
    if src == 't' && toFoundation then ToFoundation(t, TALON)
    else if src == 't' && toTableau then ToTableau(t, TALON, dst as int - '1' as int)
    else if src == 's' && toFoundation then ToFoundation(t, STOCK)
    else if src == 's' && toTableau then ToTableau(t, STOCK, dst as int - '1' as int)
    else if src == 'h' && (dst == 't' || dst == 'T') then (if declined then t.(over := true) else Turned(t, rank))
    else if src == 'q' then t.(over := true)
    else if '1' <= src <= '4' && toFoundation then ToFoundation(t, TABLEAU + (src as int - '1' as int))
    else if '1' <= src <= '4' && toTableau then Onto(t, src as int - '1' as int, dst as int - '1' as int)
    else t
  }

  /** An empty talon is refilled while there is a hand. */
  ghost function Refilled(t: Table, rank: nat): Table
    requires |t.g.piles| == PILES
  {
    if t.g.piles[TALON] == [] && t.g.piles[HAND] != [] then Turned(t, rank) else t
  }

  /** All cards are on the foundations. */
  ghost predicate Won(piles: seq<seq<nat>>)
    requires |piles| == PILES
  {
    |piles[FOUND]| + |piles[FOUND + 1]| + |piles[FOUND + 2]| + |piles[FOUND + 3]| == DECKSIZE
  }

  ghost function BothBasesOut(t: Table, rank: nat): Table {
    t.(g := BasesOut(BasesOut(t.g, STOCK, rank), TALON, rank))
  }

  /** A whole round: the talon is refilled, the command is done, and bases go to the foundations. */
  ghost function Round(t: Table, rank: nat, src: char, dst: char, declined: bool): Table {
    if |t.g.piles| != PILES then t
    else
      var t1 := Refilled(t, rank);
      if |t1.g.piles| != PILES then t1
      else BothBasesOut(Move(t1, rank, if Won(t1.g.piles) then 'q' else src, dst, declined), rank)
  }

  ghost function Rounds(t: Table, rank: nat, commands: seq<(char, char, bool)>): Table
    decreases |commands|
  {
    if commands == [] || t.over then t
    else Rounds(Round(t, rank, commands[0].0, commands[0].1, commands[0].2), rank, commands[1..])
  }
}
