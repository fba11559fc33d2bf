/** Canfield solitaire: the game as a state machine over its commands. */
module CanfieldGame {
  import opened Canfield
  import opened CanfieldRules
  import opened CanfieldDeck
  import CanfieldLaws

  const TABROW: int := 8

  /** The counters of the game. */
  datatype Counts = Counts(stock: int, talon: int, hand: int, off: int, length: seq<int>)

  /** Every counter is the size of its pile, and the sizes add up to the total. */
  ghost predicate Tally(piles: seq<seq<nat>>, n: Counts, total: int) {
    |piles| == PILES && |n.length| == 4 &&
    n.stock == |piles[STOCK]| && n.talon == |piles[TALON]| && n.hand == |piles[HAND]| &&
    n.off == |piles[FOUND]| + |piles[FOUND + 1]| + |piles[FOUND + 2]| + |piles[FOUND + 3]| &&
    (forall k :: 0 <= k < 4 ==> n.length[k] == TABROW - 1 + |piles[TABLEAU + k]|) &&
    n.stock + n.talon + n.hand + n.off + n.length[0] + n.length[1] + n.length[2] + n.length[3]
    == total + 4 * (TABROW - 1)
  }

  /** The counters after pile i has gained or lost a card. */
  ghost function Bump(n: Counts, i: nat, x: int): (m: Counts)
    requires i < PILES && |n.length| == 4
    ensures |m.length| == 4
  {
    if i == STOCK then n.(stock := n.stock + x)
    else if i == TALON then n.(talon := n.talon + x)
    else if i == HAND then n.(hand := n.hand + x)
    else if i < TABLEAU then n.(off := n.off + x)
    else n.(length := n.length[i - TABLEAU := n.length[i - TABLEAU] + x])
  }

  lemma TallyBump(piles: seq<seq<nat>>, n: Counts, total: int, i: nat, pile: seq<nat>)
    requires i < PILES && Tally(piles, n, total)
    ensures |piles| == PILES && |n.length| == 4
    ensures Tally(piles[i := pile], Bump(n, i, |pile| - |piles[i]|), total + |pile| - |piles[i]|)
  {
  }

  lemma TallyShift(g: Layout, s: nat, d: nat, n: Counts)
    requires HasTop(g, s) && d < PILES && s != d && Tally(g.piles, n, DECKSIZE)
    ensures |n.length| == 4 && Tally(Shift(g, s, d).piles, Bump(Bump(n, s, -1), d, 1), DECKSIZE)
  {
    hide Bump, Tally;
    var rest := g.piles[s][..|g.piles[s]| - 1];
    TallyBump(g.piles, n, DECKSIZE, s, rest);
    TallyBump(g.piles[s := rest], Bump(n, s, -1), DECKSIZE - 1, d, g.piles[d] + [TopOf(g, s)]);
  }

  lemma TallyStack(g: Layout, s: nat, d: nat, n: Counts)
    requires |g.piles| == PILES && |g.where| == |g.at| && s < 4 && d < 4 && s != d && Tally(g.piles, n, DECKSIZE)
    ensures |n.length| == 4
    ensures Tally(Stack(g, TABLEAU + s, TABLEAU + d).piles,
                  n.(length := n.length[d := n.length[d] + (n.length[s] - (TABROW - 1))][s := TABROW - 1]), DECKSIZE)
  {
  }

  ghost function Reversed(s: seq<nat>): seq<nat> {
    if s == [] then [] else [s[|s| - 1]] + Reversed(s[..|s| - 1])
  }

  /** The last card of s goes to the end of t. */
  lemma ReversedStep(t: seq<nat>, s: seq<nat>)
    requires s != []
    ensures t + Reversed(s) == t + [s[|s| - 1]] + Reversed(s[..|s| - 1])
  {
    Regroup(t, [s[|s| - 1]], Reversed(s[..|s| - 1]));
  }

  lemma Regroup(t: seq<nat>, a: seq<nat>, b: seq<nat>)
    ensures t + (a + b) == t + a + b
  {
  }

  lemma ShiftsOnly(g: Layout, s: nat, d: nat)
    requires HasTop(g, s) && d < PILES && s != d
    ensures var piles := Shift(g, s, d).piles;
            |piles| == PILES && |piles[s]| == |g.piles[s]| - 1 && piles[d] == g.piles[d] + [TopOf(g, s)] &&
            forall i :: 0 <= i < PILES && i != s && i != d ==> piles[i] == g.piles[i]
  {
  }

  // ----- What is turned, in cards

  /** The top n cards, as they come off the pile one by one. */
  ghost function FromTop(pile: seq<nat>, n: nat): (s: seq<nat>)
    requires n <= |pile|
    ensures |s| == n && forall a :: 0 <= a < n ==> s[a] == pile[|pile| - 1 - a]
  {
    seq(n, a requires 0 <= a < n => pile[|pile| - 1 - a])
  }

  lemma FromTopStep(t: seq<nat>, pile: seq<nat>, n: nat)
    requires n < |pile|
    ensures t + FromTop(pile, n) + [pile[|pile| - n - 1]] == t + FromTop(pile, n + 1)
    ensures pile[..|pile| - n][..|pile| - n - 1] == pile[..|pile| - n - 1]
    ensures pile[..|pile| - n][|pile| - n - 1] == pile[|pile| - n - 1]
  {
  }

  /** Only cards of the rank have left the top of the pile. */
  ghost predicate BasesGone(before: seq<nat>, after: seq<nat>, rank: nat) {
    after <= before && forall a :: |after| <= a < |before| ==> Rank(before[a]) == rank
  }

  lemma NoneGone(pile: seq<nat>, rank: nat)
    ensures BasesGone(pile, pile, rank)
  {
  }

  lemma MoreGone(a: seq<nat>, b: seq<nat>, c: seq<nat>, rank: nat)
    requires BasesGone(a, b, rank) && BasesGone(b, c, rank)
    ensures BasesGone(a, c, rank)
  {
    hide Rank;
    assert forall k :: 0 <= k < |b| ==> b[k] == a[k];
  }

  lemma TopGone(g: Layout, cp: nat, d: nat, rank: nat)
    requires HasTop(g, cp) && d < PILES && cp != d && Rank(TopOf(g, cp)) == rank
    ensures BasesGone(g.piles[cp], Shift(g, cp, d).piles[cp], rank)
  {
    hide Rank;
  }

  /**
   Three cards at a time: what hand and talon hold after turning, by what they held before.  An
   empty hand is filled from the talon, but the fourth time since the last move nothing is turned.
   */
  ghost predicate Turning(hand: seq<nat>, talon: seq<nat>, hand': seq<nat>, talon': seq<nat>, times: int, times': int,
      rank: nat)
  {
    var n := if |hand| < 3 then |hand| else 3;
    var m := if |talon| < 3 then |talon| else 3;
    if hand != [] then
      hand' == hand[..|hand| - n] && BasesGone(talon + FromTop(hand, n), talon', rank) && times' == times
    else if talon == [] then hand' == [] && talon' == [] && times' == times
    else if times == 3 then hand' == [] && talon' == talon && times' == 4
    else
      hand' == FromTop(talon, |talon| - m) && BasesGone(talon[..m], talon', rank) && times' == times + 1
  }

  lemma TurnFromHand(hand: seq<nat>, talon: seq<nat>, n: nat, hand': seq<nat>, talon': seq<nat>, times: int, rank: nat)
    requires hand != [] && n == (if |hand| < 3 then |hand| else 3)
    requires hand' == hand[..|hand| - n] && BasesGone(talon + FromTop(hand, n), talon', rank)
    ensures Turning(hand, talon, hand', talon', times, times, rank)
  {
    hide BasesGone, FromTop;
  }

  lemma TurnRecycled(talon: seq<nat>, filled: seq<nat>, m: nat, hand': seq<nat>, talon': seq<nat>, times: int,
      rank: nat)
    requires talon != [] && times != 3 && m == (if |talon| < 3 then |talon| else 3)
    requires filled == Reversed(talon) && |filled| == |talon|
    requires hand' == filled[..|filled| - m] && BasesGone([] + FromTop(filled, m), talon', rank)
    ensures Turning([], talon, hand', talon', times, times + 1, rank)
  {
    hide BasesGone, Reversed;
    ReversedAtTop(talon, m);
    assert [] + FromTop(filled, m) == FromTop(filled, m);
  }

  /** The first j tableau piles have been looked at for bases; stock and hand have not been touched. */
  ghost predicate PartOpened(was: seq<seq<nat>>, piles: seq<seq<nat>>, rank: nat, j: nat) {
    |was| == |piles| == 11 && piles[0] == was[0] && piles[2] == was[2] &&
    forall i :: 7 <= i < 11 ==> if i < 7 + j then BasesGone(was[i], piles[i], rank) else piles[i] == was[i]
  }

  lemma OpenOneMore(was: seq<seq<nat>>, g: Layout, g': Layout, rank: nat, j: nat)
    requires PartOpened(was, g.piles, rank, j) && j < 4 && |g'.piles| == 11
    requires BasesGone(g.piles[7 + j], g'.piles[7 + j], rank)
    requires forall i: nat :: i < PILES && i != TABLEAU + j && !IsFoundation(i) ==> g'.piles[i] == g.piles[i]
    ensures PartOpened(was, g'.piles, rank, j + 1)
  {
    hide BasesGone;
  }

  /** The table when the first command is read, by the order of the deck; bases may have gone to the foundations. */
  ghost predicate Opening(deck: seq<nat>, piles: seq<seq<nat>>) {
    |deck| == 52 && |piles| == 11 &&
    var rank := deck[13] % 13 + 1;
    && BasesGone(deck[..13], piles[0], rank)
    && BasesGone([deck[18], deck[19], deck[20]], piles[1], rank)
    && |piles[2]| == 31 && (forall a :: 0 <= a < 31 ==> piles[2][a] == deck[51 - a])
    && (forall i :: 7 <= i < 11 ==> BasesGone([deck[7 + i]], piles[i], rank))
  }

  lemma IsOpening(deck: seq<nat>, place: seq<nat>, piles: seq<seq<nat>>, times: int)
    requires Permuted(deck, place) && |piles| == 11
    requires var was, rank := DealtLayout(deck, place).piles, Rank(deck[13]);
             && Turning(was[2], [], piles[2], piles[1], times, times, rank) && BasesGone(was[0], piles[0], rank)
             && forall i :: 7 <= i < 11 ==> BasesGone(was[i], piles[i], rank)
    ensures Opening(deck, piles)
  {
    hide BasesGone;
    var was := DealtLayout(deck, place).piles;
    assert was == DealtPiles(deck);
    assert [] + FromTop(was[2], 3) == [deck[18], deck[19], deck[20]];
  }

  lemma TurnNothing(talon: seq<nat>, times: int, rank: nat)
    ensures talon == [] ==> Turning([], talon, [], talon, times, times, rank)
    ensures talon != [] && times == 3 ==> Turning([], talon, [], talon, times, times + 1, rank)
  {
  }

  class Game {
    var next: seq<int>
    var top: seq<int>
    var bottom: seq<int>
    var length: seq<int>
    var basecard: nat
    var base: nat
    var stockcnt: int
    var taloncnt: int
    var cinhand: int
    var cardsoff: int
    var timesthru: int
    var done: bool
    ghost var g: Layout

    /** The chains of cards are the piles, and every card is in one of them. */
    ghost predicate Cards()
      reads this`next, this`top, this`g
    {
      Sound(g, next, top)
    }

    ghost function Counters(): Counts
      reads this`stockcnt, this`taloncnt, this`cinhand, this`cardsoff, this`length
    {
      Counts(stockcnt, taloncnt, cinhand, cardsoff, length)
    }

    /** Everything but the counters. */
    ghost predicate Board(open: nat)
      reads this`next, this`top, this`bottom, this`basecard, this`base, this`g
    {
      Cards() && Founded(g.piles, base, Rank(basecard)) && Tabled(g, bottom, Rank(basecard), open)
    }

    ghost predicate Valid(open: nat)
      reads this
    {
      Board(open) && Tally(g.piles, Counters(), DECKSIZE)
    }

    /** The card on top of pile s is not a base-rank card. */
    ghost predicate TopPlayable(s: nat)
      reads this`g, this`basecard
    {
      s < |g.piles| && (g.piles[s] != [] ==> Rank(TopOf(g, s)) != Rank(basecard))
    }

    /** The state in which a command is accepted. */
    ghost predicate Ready()
      reads this
    {
      Valid(4) && TopPlayable(STOCK) && TopPlayable(TALON)
    }

    /** The game without the links, counters and bottom pointers that represent it. */
    ghost function View(): Table
      reads this`g, this`timesthru, this`done
    {
      Table(g, timesthru, done)
    }

    lemma Heads(s: nat)
      requires Cards() && s < PILES
      ensures |top| == PILES == |g.piles| && |next| == DECKSIZE == |g.where| == |g.at|
      ensures top[s] == NIL <==> g.piles[s] == []
      ensures g.piles[s] != [] ==> HasTop(g, s) && top[s] == TopOf(g, s) && g.where[top[s]] == s
    {
      HeadOf(g, next, top, s);
    }

    /** `transit`: the top card of one pile goes to the top of another. */
    method Transit(s: nat, d: nat)
      requires Cards() && HasTop(g, s) && d < PILES && s != d
      modifies this`next, this`top, this`g
      ensures Cards() && g == Shift(old(g), s, d)
    {
      hide Sound, Shift, TopOf;
      ShiftSound(g, next, top, s, d);
      Heads(s);
      var temp := top[s];
      top := top[s := next[temp]];
      next := next[temp := top[d]];
      top := top[d := temp];
      g := Shift(g, s, d);
    }

    // ----- Foundation bases

    method UsedTalon()
      modifies this`taloncnt
      ensures taloncnt == old(taloncnt) - 1
    {
      taloncnt := taloncnt - 1;
    }

    method UsedStock()
      modifies this`stockcnt
      ensures stockcnt == old(stockcnt) - 1
    {
      stockcnt := stockcnt - 1;
    }

    /** The four tests of `fndbase` for a card on top of a tableau pile. */
    method Shorten(c: int)
      requires |top| == PILES && |length| == 4
      modifies this`length
      ensures |length| == 4
      ensures forall k :: 0 <= k < 4 ==> length[k] == old(length[k]) - if c == top[TABLEAU + k] then 1 else 0
    {
      for k := 0 to 4
        invariant |length| == 4
        invariant forall j :: 0 <= j < k ==> length[j] == old(length[j]) - if c == top[TABLEAU + j] then 1 else 0
        invariant forall j :: k <= j < 4 ==> length[j] == old(length[j])
      {
        if c == top[TABLEAU + k] {
          length := length[k := length[k] - 1];
        }
      }
    }

    /** Only the top of pile cp is the top card of pile cp. */
    lemma TopsDiffer(cp: nat, i: nat)
      requires Cards() && HasTop(g, cp) && i < PILES
      ensures |top| == PILES && (top[cp] == top[i] <==> cp == i)
    {
      hide Sound;
      Heads(cp);
      Heads(i);
    }

    /** The board after a base-rank card has started a foundation. */
    lemma BaseStarts(cp: nat, open: nat)
      requires Board(open) && HasTop(g, cp) && Rank(TopOf(g, cp)) == Rank(basecard)
      requires cp == STOCK || cp == TALON || (cp == TABLEAU + open && open < 4)
      ensures base < 3
      ensures var g' := Shift(g, cp, FOUND + base + 1);
              Founded(g'.piles, base + 1, Rank(basecard)) &&
              Tabled(g', bottom, Rank(basecard), if TABLEAU <= cp then open + 1 else open)
    {
      hide Rank, Founded, Tabled, AllLinked;
      Heads(cp);
      FreeFoundation(g, base, Rank(basecard), cp);
      FoundedStarts(g, cp, base, Rank(basecard));
      if TABLEAU <= cp {
        TabledShrinks(g, FOUND + base + 1, bottom, Rank(basecard), open, open);
      } else {
        TabledStays(g, cp, FOUND + base + 1, bottom, Rank(basecard), open);
      }
    }

    method PutBase(cp: nat, ghost open: nat)
      requires Valid(open) && HasTop(g, cp) && Rank(TopOf(g, cp)) == Rank(basecard)
      requires cp == STOCK || cp == TALON || (cp == TABLEAU + open && open < 4)
      modifies this`base, this`length, this`next, this`top, this`g, this`taloncnt, this`stockcnt, this`cardsoff
      ensures Valid(if TABLEAU <= cp then open + 1 else open)
      ensures base == old(base) + 1 <= 3 && g == Shift(old(g), cp, FOUND + base)
      ensures OnlyFrom(old(g), cp) && |g.piles[cp]| == |old(g).piles[cp]| - 1
      ensures BasesGone(old(g.piles[cp]), g.piles[cp], Rank(basecard))
    {
      hide Sound, Founded, Tabled, Rank, Tally, Shift, TopOf, BasesGone;
      BaseStarts(cp, open);
      ghost var n := Counters();
      TallyShift(g, cp, FOUND + base + 1, n);
      Heads(cp);
      TopsDiffer(cp, TABLEAU);
      TopsDiffer(cp, TABLEAU + 1);
      TopsDiffer(cp, TABLEAU + 2);
      TopsDiffer(cp, TABLEAU + 3);
      base := base + 1;
      Shorten(top[cp]);
      Transit(cp, FOUND + base);
      if cp == TALON {
        UsedTalon();
      }
      if cp == STOCK {
        UsedStock();
      }
      cardsoff := cardsoff + 1;
      assert length == Bump(Bump(n, cp, -1), FOUND + base, 1).length;
      ShiftsOnly(old(g), cp, FOUND + base);
      TopGone(old(g), cp, FOUND + base, Rank(basecard));
    }

    /** A pile just dealt that holds no base-rank card. */
    lemma OpenNext(open: nat)
      requires Board(open) && open < 4 && |g.piles| == PILES && TopPlayable(TABLEAU + open)
      ensures Board(open + 1)
    {
      hide Sound, Founded, Rank;
      forall k | 0 <= k < 4
        ensures TableauOk(g, bottom[k], Rank(basecard), open + 1, k)
      {
        assert TableauOk(g, bottom[k], Rank(basecard), open, k);
      }
    }

    /** Only pile cp and the foundations have changed. */
    ghost predicate OnlyFrom(was: Layout, cp: nat)
      reads this`g
    {
      |was.piles| == |g.piles| == PILES &&
      forall i: nat :: i < PILES && i != cp && !IsFoundation(i) ==> g.piles[i] == was.piles[i]
    }

    /** `fndbase`: base-rank cards on top of a pile start foundations. */
    method FndBase(cp: nat, ghost open: nat)
      requires Valid(open) && (cp == STOCK || cp == TALON || (cp == TABLEAU + open && open < 4))
      modifies this`base, this`length, this`next, this`top, this`g, this`taloncnt, this`stockcnt, this`cardsoff
      ensures Valid(if TABLEAU <= cp then open + 1 else open) && TopPlayable(cp) && OnlyFrom(old(g), cp)
      ensures g == BasesOut(old(g), cp, Rank(basecard))
      ensures BasesGone(old(g.piles[cp]), g.piles[cp], Rank(basecard))
    {
      hide Sound, Founded, Tabled, Rank, Tally, TopOf, BasesOut, Shift, BasesGone;
      ghost var rank := Rank(basecard);
      Heads(cp);
      BasesStep(g, cp, rank, base);
      NoneGone(g.piles[cp], rank);
      if top[cp] != NIL {
        var nomore := false;
        while !nomore
          invariant Valid(if nomore && TABLEAU <= cp then open + 1 else open) && OnlyFrom(old(g), cp)
          invariant if nomore then TopPlayable(cp) else g.piles[cp] != []
          invariant BasesGone(old(g.piles[cp]), g.piles[cp], rank)
          invariant if nomore then g == BasesOut(old(g), cp, rank)
                    else BasesOut(g, cp, rank) == BasesOut(old(g), cp, rank)
          decreases !nomore, |g.piles[cp]|
        {
          Heads(cp);
          BasesStep(g, cp, rank, base);
          if Rank(top[cp]) == Rank(basecard) {
            if TABLEAU <= cp {
              OneCard(open);
            }
            ghost var pile := g.piles[cp];
            PutBase(cp, open);
            MoreGone(old(g.piles[cp]), pile, g.piles[cp], rank);
            Heads(cp);
            BasesStep(g, cp, rank, base);
            nomore := top[cp] == NIL;
          } else {
            nomore := true;
            if TABLEAU <= cp {
              OpenNext(open);
            }
          }
        }
      } else if TABLEAU <= cp {
        OneCard(open);
      }
    }

    lemma OneCard(open: nat)
      requires Board(open) && open < 4
      ensures |g.piles| == PILES && |g.piles[TABLEAU + open]| == 1
    {
      hide Sound, Founded, Rank;
      assert TableauOk(g, bottom[open], Rank(basecard), open, open);
    }

    // ----- To a foundation

    lemma FoundationGrows(cp: nat, k: nat)
      requires Board(4) && Fits(g, cp, k) && (cp == STOCK || cp == TALON || TABLEAU <= cp < PILES)
      ensures var g' := Shift(g, cp, FOUND + k);
              Founded(g'.piles, base, Rank(basecard)) && Tabled(g', bottom, Rank(basecard), 4)
    {
      hide Rank, Suit, Tabled, AllLinked, Placed;
      Heads(cp);
      assert FoundationOk(g.piles, base, Rank(basecard), k);
      RankSteps(TopOf(g, cp), TopOf(g, FOUND + k));
      FoundedGrows(g, cp, k, base, Rank(basecard));
      hide Founded, RankHigher, Fits;
      if TABLEAU <= cp {
        TabledShrinks(g, FOUND + k, bottom, Rank(basecard), 4, cp - TABLEAU);
      } else {
        TabledStays(g, cp, FOUND + k, bottom, Rank(basecard), 4);
      }
    }

    method PutOnFoundation(cp: nat, source: nat, k: nat)
      requires Valid(4) && Fits(g, cp, k) && (cp == STOCK || cp == TALON || (cp == TABLEAU + source && source < 4))
      modifies this`length, this`next, this`top, this`g, this`taloncnt, this`stockcnt, this`cardsoff, this`timesthru
      ensures Valid(4) && timesthru == 0 && g == Shift(old(g), cp, FOUND + k)
    {
      hide Sound, Founded, Tabled, Rank, Tally, Shift, TopOf, RankHigher, Suit;
      FoundationGrows(cp, k);
      ghost var n := Counters();
      TallyShift(g, cp, FOUND + k, n);
      TopsDiffer(cp, STOCK);
      TopsDiffer(cp, TALON);
      var fromStock, fromTalon := top[cp] == top[STOCK], top[cp] == top[TALON];
      Transit(cp, FOUND + k);
      timesthru := 0;
      if fromStock {
        UsedStock();
      } else if fromTalon {
        UsedTalon();
      } else {
        length := length[source := length[source] - 1];
      }
      cardsoff := cardsoff + 1;
    }

    /** `movetofound`: the top card goes to the foundation that it fits, if there is one. */
    method MoveToFound(cp: nat, source: nat) returns (moved: bool)
      requires Valid(4) && (cp == STOCK || cp == TALON || (cp == TABLEAU + source && source < 4))
      modifies this`length, this`next, this`top, this`g, this`taloncnt, this`stockcnt, this`cardsoff, this`timesthru
      ensures Valid(4)
      ensures View() == ToFoundation(old(View()), cp) && (!moved ==> Counters() == old(Counters()))
    {
      hide Sound, Founded, Tabled, Rank, Tally, Shift, RankHigher, Suit;
      moved := false;
      Heads(cp);
      if top[cp] == NIL {
        return;
      }
      var tempbase := 0;
      while tempbase != 4 && !moved
        invariant tempbase <= 4 && Valid(4)
        invariant !moved ==>
                    g == old(g) && top == old(top) && Counters() == old(Counters()) && timesthru == old(timesthru)
        invariant forall k: nat :: k < tempbase ==> !old(Fits(g, cp, k))
        invariant moved ==> tempbase < 4 && old(Fits(g, cp, tempbase)) &&
                            g == Shift(old(g), cp, FOUND + tempbase) && timesthru == 0
        decreases !moved, 4 - tempbase
      {
        Heads(cp);
        Heads(FOUND + tempbase);
        if top[FOUND + tempbase] != NIL && RankHigher(top[cp], top[FOUND + tempbase]) &&
           Suit(top[cp]) == Suit(top[FOUND + tempbase]) {
          PutOnFoundation(cp, source, tempbase);
          moved := true;
        } else {
          tempbase := tempbase + 1;
        }
      }
    }

    // ----- To the tableau

    /** `tabok`: whether a card may go onto tableau pile des. */
    predicate TabOk(c: nat, des: nat)
      requires |top| == PILES && |bottom| == 4 && des < 4 && NIL <= top[TABLEAU + des]
      reads this`top, this`bottom
    {
      if c == top[STOCK] && top[TABLEAU + des] == NIL then true
      else if top[TABLEAU + des] == NIL then
        top[STOCK] == NIL && c != bottom[0] && c != bottom[1] && c != bottom[2] && c != bottom[3]
      else RankLower(c, top[TABLEAU + des]) && Black(c) != Black(top[TABLEAU + des])
    }

    lemma BottomsPlayed(k: nat)
      requires Board(4) && k < 4
      ensures |bottom| == 4 && |g.where| == DECKSIZE && BottomPlayed(g.where, bottom[k])
      ensures g.piles[TABLEAU + k] != [] ==> bottom[k] == g.piles[TABLEAU + k][0]
    {
      hide Sound, Founded, Rank;
      assert TableauOk(g, bottom[k], Rank(basecard), 4, k);
    }

    lemma TabOkFromStockOrTalon(cp: nat, des: nat)
      requires Board(4) && HasTop(g, cp) && (cp == STOCK || cp == TALON) && des < 4
      ensures |top| == PILES && |bottom| == 4 && 0 <= top[cp] && NIL <= top[TABLEAU + des]
      ensures TabOk(top[cp], des) <==> MayPlay(g, cp, des)
    {
      hide Board, Sound, Rank, RankLower, Black, Suit, TopOf, BottomPlayed;
      BoardCards(4);
      Heads(cp);
      Heads(STOCK);
      Heads(TABLEAU + des);
      TopsDiffer(cp, STOCK);
      NotABottom(cp, 0);
      NotABottom(cp, 1);
      NotABottom(cp, 2);
      NotABottom(cp, 3);
    }

    lemma BoardCards(open: nat)
      requires Board(open)
      ensures Cards() && |bottom| == 4
    {
    }

    /** A card of the stock or the talon is nobody's bottom card, not even out of date. */
    lemma NotABottom(cp: nat, k: nat)
      requires Board(4) && HasTop(g, cp) && (cp == STOCK || cp == TALON) && k < 4
      ensures |bottom| == 4 && |top| == PILES && top[cp] != bottom[k]
    {
      hide Sound, Founded, Tabled, Rank, TopOf;
      BoardCards(4);
      BottomsPlayed(k);
      Heads(cp);
    }

    /** `simpletableau`: from stock or talon to the tableau. */
    method SimpleTableau(cp: nat, des: nat) returns (moved: bool)
      requires Valid(4) && TopPlayable(cp) && (cp == STOCK || cp == TALON) && des < 4
      modifies this`bottom, this`length, this`next, this`top, this`g, this`taloncnt, this`stockcnt, this`timesthru
      ensures Valid(4) && View() == ToTableau(old(View()), cp, des) && (!moved ==> Counters() == old(Counters()))
    {
      hide Sound, Founded, Tabled, Rank, Tally, Shift, TopOf, TabOk, Follows;
      Heads(cp);
      moved := false;
      if top[cp] != NIL {
        TabOkFromStockOrTalon(cp, des);
        if TabOk(top[cp], des) {
          PlayToTableau(cp, des);
          moved := true;
        }
      }
    }

    method PlayToTableau(cp: nat, des: nat)
      requires Valid(4) && TopPlayable(cp) && (cp == STOCK || cp == TALON) && MayPlay(g, cp, des)
      modifies this`bottom, this`length, this`next, this`top, this`g, this`taloncnt, this`stockcnt, this`timesthru
      ensures Valid(4) && timesthru == 0 && g == Shift(old(g), cp, TABLEAU + des)
    {
      hide Sound, Founded, Tabled, Rank, Tally, Shift, TopOf, Follows;
      TableauGrows(cp, des);
      ghost var n := Counters();
      TallyShift(g, cp, TABLEAU + des, n);
      Heads(cp);
      Heads(TABLEAU + des);
      TopsDiffer(cp, STOCK);
      var fromStock := top[cp] == top[STOCK];
      if top[TABLEAU + des] == NIL {
        bottom := bottom[des := top[cp]];
      }
      Transit(cp, TABLEAU + des);
      length := length[des := length[des] + 1];
      timesthru := 0;
      if fromStock {
        UsedStock();
      } else {
        UsedTalon();
      }
    }

    lemma TableauGrows(cp: nat, des: nat)
      requires Board(4) && TopPlayable(cp) && (cp == STOCK || cp == TALON) && MayPlay(g, cp, des)
      ensures |bottom| == 4
      ensures var g' := Shift(g, cp, TABLEAU + des);
              Founded(g'.piles, base, Rank(basecard)) &&
              Tabled(g', if g.piles[TABLEAU + des] == [] then bottom[des := TopOf(g, cp)] else bottom,
                     Rank(basecard), 4)
    {
      hide Sound, Founded, Rank, Follows;
      Heads(cp);
      ShiftsOnly(g, cp, TABLEAU + des);
      FoundedStays(g, Shift(g, cp, TABLEAU + des), base, Rank(basecard));
      TabledGrows(g, cp, bottom, Rank(basecard), des);
    }

    // ----- From one tableau pile to another

    lemma TabOkFromTableau(sour: nat, des: nat)
      requires Board(4) && sour < 4 && des < 4 && HasTop(g, TABLEAU + sour)
      ensures |top| == PILES && |bottom| == 4 && 0 <= bottom[sour] < DECKSIZE && NIL <= top[TABLEAU + des]
      ensures bottom[sour] == g.piles[TABLEAU + sour][0]
      ensures TabOk(bottom[sour], des) <==> MayStack(g, sour, des)
    {
      hide Board, Sound, Rank, RankLower, Black, Suit;
      BoardCards(4);
      BottomsPlayed(sour);
      Heads(STOCK);
      Heads(TABLEAU + des);
      BottomIsNotStock(sour);
    }

    lemma BottomIsNotStock(k: nat)
      requires Board(4) && k < 4 && HasTop(g, TABLEAU + k)
      ensures |bottom| == 4 && |top| == PILES && 0 <= bottom[k] < DECKSIZE && bottom[k] != top[STOCK]
    {
      hide Founded, AllLinked, Rank, TopOf;
      BottomsPlayed(k);
      Heads(STOCK);
      assert g.where[g.piles[TABLEAU + k][0]] == TABLEAU + k;
    }

    /** A pile cannot be moved onto itself. */
    lemma NotOntoItself(k: nat)
      requires Board(4)
      ensures !MayStack(g, k, k)
    {
      hide Sound, Founded, Rank, RankLower, Black;
      if MayStack(g, k, k) {
        assert TableauOk(g, bottom[k], Rank(basecard), 4, k);
        NoSelfMove(g.piles[TABLEAU + k], Rank(basecard));
      }
    }

    lemma TableauStacks(sour: nat, des: nat)
      requires Board(4) && MayStack(g, sour, des)
      ensures sour != des && |bottom| == 4 && |g.where| == |g.at| && g.piles[TABLEAU + sour][0] < DECKSIZE &&
              HasTop(g, TABLEAU + sour)
      ensures var g' := Stack(g, TABLEAU + sour, TABLEAU + des);
              Founded(g'.piles, base, Rank(basecard)) && Tabled(g', bottom[sour := NIL], Rank(basecard), 4)
    {
      hide AllLinked, Founded, Tabled, Rank, RankLower, Black;
      NotOntoItself(sour);
      BoardCards(4);
      Heads(TABLEAU + sour);
      var g' := Stack(g, TABLEAU + sour, TABLEAU + des);
      FoundedStays(g, g', base, Rank(basecard));
      TabledStacks(g, bottom, Rank(basecard), sour, des);
    }

    /** `tabtotab`: a tableau pile goes onto another. */
    method TabToTab(sour: nat, des: nat) returns (moved: bool)
      requires Valid(4) && sour < 4 && des < 4
      modifies this`bottom, this`length, this`next, this`top, this`g, this`timesthru
      ensures Valid(4) && View() == Onto(old(View()), sour, des) && (!moved ==> Counters() == old(Counters()))
    {
      hide Sound, Founded, Tabled, Rank, Tally, Stack, TopOf, TabOk, Follows;
      Heads(TABLEAU + sour);
      moved := false;
      if top[TABLEAU + sour] != NIL {
        TabOkFromTableau(sour, des);
        if TabOk(bottom[sour], des) {
          NotOntoItself(sour);
          StackTableau(sour, des);
          moved := true;
        }
      }
    }

    method StackTableau(sour: nat, des: nat)
      requires Valid(4) && MayStack(g, sour, des) && |bottom| == 4 && 0 <= bottom[sour] == g.piles[TABLEAU + sour][0]
      modifies this`bottom, this`length, this`next, this`top, this`g, this`timesthru
      ensures sour != des && Valid(4) && timesthru == 0 && g == Stack(old(g), TABLEAU + sour, TABLEAU + des)
    {
      hide Sound, Founded, Tabled, Rank, Tally, Stack, TopOf, Follows, Board;
      NotOntoItself(sour);
      BoardCards(4);
      TallyStack(g, sour, des, Counters());
      Relink(sour, des);
      length := length[des := length[des] + (length[sour] - (TABROW - 1))];
      length := length[sour := TABROW - 1];
      timesthru := 0;
    }

    method Relink(sour: nat, des: nat)
      requires Board(4) && MayStack(g, sour, des) && |bottom| == 4 && 0 <= bottom[sour] == g.piles[TABLEAU + sour][0]
      modifies this`bottom, this`next, this`top, this`g
      ensures sour != des && Board(4) && g == Stack(old(g), TABLEAU + sour, TABLEAU + des)
    {
      hide Sound, Founded, Tabled, Rank, Stack, TopOf, Follows;
      TableauStacks(sour, des);
      Heads(TABLEAU + des);
      BottomIsNotStock(des);
      StackSound(g, next, top, TABLEAU + sour, TABLEAU + des);
      var temp := bottom[sour];
      bottom := bottom[sour := NIL];
      bottom := bottom[des := if bottom[des] == NIL then temp else bottom[des]];
      assert bottom == old(bottom)[sour := NIL];
      next := next[temp := top[TABLEAU + des]];
      top := top[TABLEAU + des := top[TABLEAU + sour]];
      top := top[TABLEAU + sour := NIL];
      g := Stack(g, TABLEAU + sour, TABLEAU + des);
    }

    // ----- Hand and talon

    /** Cards that go between hand and talon leave the rest of the board alone. */
    lemma BoardAside(s: nat, d: nat)
      requires Board(4) && HasTop(g, s) && s != d && (s == TALON || s == HAND) && (d == TALON || d == HAND)
      ensures var g' := Shift(g, s, d);
              Founded(g'.piles, base, Rank(basecard)) && Tabled(g', bottom, Rank(basecard), 4)
    {
      hide Sound, Founded, Tabled, Rank;
      BoardCards(4);
      Heads(s);
      ShiftsOnly(g, s, d);
      FoundedStays(g, Shift(g, s, d), base, Rank(basecard));
      TabledStays(g, s, d, bottom, Rank(basecard), 4);
    }

    /** Only hand and talon have changed. */
    ghost predicate OnlyHandAndTalon(was: Layout)
      reads this`g
    {
      |was.piles| == |g.piles| == PILES &&
      forall i :: 0 <= i < PILES && i != TALON && i != HAND ==> g.piles[i] == was.piles[i]
    }

    method Pass(s: nat, d: nat)
      requires Board(4) && HasTop(g, s) && s != d && (s == TALON || s == HAND) && (d == TALON || d == HAND)
      modifies this`next, this`top, this`g
      ensures Board(4) && g == Shift(old(g), s, d) && OnlyHandAndTalon(old(g))
      ensures g.piles[s] == old(g.piles[s])[..|old(g.piles[s])| - 1]
      ensures g.piles[d] == old(g.piles[d]) + [old(TopOf(g, s))]
    {
      hide Sound, Founded, Tabled, Rank, Shift, TopOf;
      BoardAside(s, d);
      ShiftsOnly(g, s, d);
      Popped(g, s, d);
      Transit(s, d);
    }

    /** The talon becomes the new hand, so that its first card is dealt first again. */
    method Recycle()
      requires Valid(4)
      modifies this`next, this`top, this`g, this`cinhand, this`taloncnt
      ensures Valid(4) && OnlyHandAndTalon(old(g))
      ensures g == Dealt(old(g), TALON, HAND, |old(g.piles[TALON])|)
      ensures g.piles[TALON] == [] && g.piles[HAND] == old(g.piles[HAND]) + Reversed(old(g.piles[TALON]))
    {
      hide Sound, Founded, Tabled, Rank, Shift, Tally, Reversed, Dealt;
      HandSize();
      Heads(TALON);
      while top[TALON] != NIL
        invariant Board(4) && OnlyHandAndTalon(old(g)) && |top| == PILES
        invariant g.piles[HAND] + Reversed(g.piles[TALON]) == old(g.piles[HAND]) + Reversed(old(g.piles[TALON]))
        invariant Tally(g.piles, Counters().(talon := |g.piles[TALON]|), DECKSIZE)
        invariant Dealt(g, TALON, HAND, |g.piles[TALON]|) == Dealt(old(g), TALON, HAND, |old(g.piles[TALON])|)
        decreases |g.piles[TALON]|
      {
        Heads(TALON);
        DealtStep(g, TALON, HAND, |g.piles[TALON]|);
        TallyShift(g, TALON, HAND, Counters().(talon := |g.piles[TALON]|));
        ReversedStep(g.piles[HAND], g.piles[TALON]);
        Pass(TALON, HAND);
        cinhand := cinhand + 1;
        Heads(TALON);
      }
      Heads(TALON);
      DealtStep(g, TALON, HAND, 0);
      NothingReversed(g.piles[HAND]);
      taloncnt := 0;
    }

    /** fin cards from the top of the hand, one by one, onto the talon. */
    method Deal(fin: nat)
      requires Valid(4) && fin <= cinhand
      modifies this`next, this`top, this`g, this`cinhand, this`taloncnt
      ensures Valid(4) && OnlyHandAndTalon(old(g)) && |g.piles[HAND]| == |old(g.piles[HAND])| - fin
      ensures g == Dealt(old(g), HAND, TALON, fin)
      ensures g.piles[HAND] == old(g.piles[HAND])[..|old(g.piles[HAND])| - fin]
      ensures g.piles[TALON] == old(g.piles[TALON]) + FromTop(old(g.piles[HAND]), fin)
      ensures g.piles[TALON] + Reversed(g.piles[HAND]) == old(g.piles[TALON]) + Reversed(old(g.piles[HAND]))
    {
      hide Sound, Founded, Tabled, Rank, Shift, Tally, Reversed, Dealt;
      HandSize();
      for i := 0 to fin
        invariant Board(4) && OnlyHandAndTalon(old(g)) && |g.piles[HAND]| == |old(g.piles[HAND])| - i
        invariant cinhand == old(cinhand) && taloncnt == old(taloncnt)
        invariant g.piles[HAND] == old(g.piles[HAND])[..|old(g.piles[HAND])| - i]
        invariant g.piles[TALON] == old(g.piles[TALON]) + FromTop(old(g.piles[HAND]), i)
        invariant g.piles[TALON] + Reversed(g.piles[HAND]) == old(g.piles[TALON]) + Reversed(old(g.piles[HAND]))
        invariant Tally(g.piles, Counters().(hand := cinhand - i, talon := taloncnt + i), DECKSIZE)
        invariant Dealt(g, HAND, TALON, fin - i) == Dealt(old(g), HAND, TALON, fin)
      {
        Heads(HAND);
        DealtStep(g, HAND, TALON, fin - i);
        TallyShift(g, HAND, TALON, Counters().(hand := cinhand - i, talon := taloncnt + i));
        ReversedStep(g.piles[TALON], g.piles[HAND]);
        FromTopStep(old(g.piles[TALON]), old(g.piles[HAND]), i);
        Pass(HAND, TALON);
      }
      DealtStep(g, HAND, TALON, 0);
      cinhand := cinhand - fin;
      taloncnt := taloncnt + fin;
    }

    /** The rule book applies to every state of the game. */
    lemma TableIsProper()
      requires Cards()
      ensures CanfieldLaws.Proper(View())
    {
      hide AllLinked;
    }

    lemma HandSize()
      requires Tally(g.piles, Counters(), DECKSIZE)
      ensures |g.piles| == PILES && cinhand == |g.piles[HAND]| && taloncnt == |g.piles[TALON]|
    {
    }

    /** Cards from the hand to the talon, and bases among them to the foundations. */
    method TurnUp(fin: nat)
      requires Valid(4) && fin <= cinhand
      modifies this`next, this`top, this`g, this`base, this`length, this`stockcnt, this`taloncnt, this`cinhand,
               this`cardsoff
      ensures Valid(4) && TopPlayable(TALON) && |g.piles| == |old(g.piles)| == PILES && fin <= |old(g.piles[HAND])|
      ensures forall i: nat :: i < PILES && i != TALON && i != HAND && !IsFoundation(i) ==>
                g.piles[i] == old(g.piles[i])
      ensures g == BasesOut(Dealt(old(g), HAND, TALON, fin), TALON, Rank(basecard))
      ensures g.piles[HAND] == old(g.piles[HAND])[..|old(g.piles[HAND])| - fin]
      ensures BasesGone(old(g.piles[TALON]) + FromTop(old(g.piles[HAND]), fin), g.piles[TALON], Rank(basecard))
    {
      hide Board, Rank, Tally, Reversed, Dealt, BasesOut, FromTop, BasesGone;
      HandSize();
      Deal(fin);
      FndBase(TALON, 4);
    }

    /** `movetotalon`: three cards, or what is left, from the hand; an empty hand is refilled three times. */
    method MoveToTalon()
      requires Valid(4) && TopPlayable(TALON)
      modifies this`next, this`top, this`g, this`base, this`length, this`stockcnt, this`taloncnt, this`cinhand,
               this`cardsoff, this`timesthru, this`done
      ensures Valid(4) && TopPlayable(TALON) && |g.piles| == |old(g.piles)| == PILES
      ensures forall i: nat :: i < PILES && i != TALON && i != HAND && !IsFoundation(i) ==>
                g.piles[i] == old(g.piles[i])
      ensures View() == Turned(old(View()), Rank(basecard))
      ensures var hand, talon := old(g.piles[2]), old(g.piles[1]);
              Turning(hand, talon, g.piles[2], g.piles[1], old(timesthru), timesthru, Rank(basecard)) &&
              (done <==> old(done) || (hand == [] && talon != [] && old(timesthru) == 3))
      ensures 0 < |old(g.piles[2])| ==>
                |g.piles[2]| == if |old(g.piles[2])| < 3 then 0 else |old(g.piles[2])| - 3
      ensures |old(g.piles[2])| == 0 < |old(g.piles[1])| && old(timesthru) != 3 ==>
                |g.piles[2]| == if |old(g.piles[1])| < 3 then 0 else |old(g.piles[1])| - 3
    {
      hide Sound, Founded, Tabled, Rank, Tally, Reversed, Dealt, BasesOut, FromTop, Turning, BasesGone, TopPlayable;
      HandSize();
      Heads(TALON);
      ghost var hand, talon, rank := g.piles[HAND], g.piles[TALON], Rank(basecard);
      var fin := 0;
      if cinhand >= 3 {
        fin := 3;
      } else if cinhand > 0 {
        fin := cinhand;
      } else if top[TALON] != NIL {
        timesthru := timesthru + 1;
        if timesthru != 4 {
          Recycle();
          ReversedLength(talon);
          assert [] + Reversed(talon) == Reversed(talon);
          HandSize();
          fin := if cinhand >= 3 then 3 else cinhand;
        } else {
          done := true;
        }
      }
      if fin != 0 {
        ghost var filled := g.piles[HAND];
        TurnUp(fin);
        if hand != [] {
          TurnFromHand(hand, talon, fin, g.piles[HAND], g.piles[TALON], timesthru, rank);
        } else {
          TurnRecycled(talon, filled, fin, g.piles[HAND], g.piles[TALON], timesthru - 1, rank);
        }
      } else {
        TurnNothing(talon, old(timesthru), rank);
      }
    }

    /** How large the piles of a sound board can be. */
    lemma PileSizes(k: nat)
      requires Board(4) && k < 4
      ensures base <= 3 && |g.piles| == PILES && |g.piles[FOUND + k]| <= 13 && |g.piles[TABLEAU + k]| <= 12
    {
      hide AllLinked, Rank;
      assert TableauOk(g, bottom[k], Rank(basecard), 4, k) && FoundationOk(g.piles, base, Rank(basecard), k);
      NoCardTwice(g, FOUND + k);
      hide Placed;
      FoundationShort(g.piles[FOUND + k], Rank(basecard));
      TableauShort(g.piles[TABLEAU + k], Rank(basecard));
    }

    // ----- Starting a game

    /** `initgame`: the shuffled deck is dealt. */
    method InitGame(deck: seq<nat>, ghost place: seq<nat>)
      requires Permuted(deck, place) && |deck| == DECKSIZE == |next|
      modifies this
      ensures Valid(0) && g == DealtLayout(deck, place) && basecard == deck[13] && timesthru == 0 && done == old(done)
    {
      hide Sound, Founded, Tabled, Rank, Tally, DealtPiles, DealtLayout, DealtTops, DealtBottoms, OneEach;
      hide LinksSet, Permuted;
      next := LinkDeck(deck, place, next);
      DealtBoard(deck, place, next);
      stockcnt := 13;
      top := DealtTops(deck);
      basecard := deck[13];
      bottom := DealtBottoms(deck);
      length := OneEach();
      base, cinhand, taloncnt, timesthru, cardsoff := 0, 34, 0, 0, 1;
      DealtTally(deck, place, Counters());
      g := DealtLayout(deck, place);
    }

    /** The rest of `startgame`: bases go to the foundations and three cards to the talon. */
    method Open()
      requires Valid(0) && |g.piles| == PILES && g.piles[TALON] == []
      modifies this`next, this`top, this`g, this`base, this`length, this`stockcnt, this`taloncnt, this`cinhand,
               this`cardsoff, this`timesthru, this`done
      ensures Ready() && View() == Opened(old(View()), Rank(basecard)) && |g.piles| == PILES
      ensures BasesGone(old(g.piles[0]), g.piles[0], Rank(basecard))
      ensures forall i :: 7 <= i < 11 ==> BasesGone(old(g.piles[i]), g.piles[i], Rank(basecard))
      ensures old(g.piles[2]) != [] ==>
                Turning(old(g.piles[2]), [], g.piles[2], g.piles[1], old(timesthru), old(timesthru), Rank(basecard))
    {
      hide Board, Rank, Tally, BasesOut, Turned, BasesGone, Turning;
      ghost var rank := Rank(basecard);
      for j := 0 to 4
        invariant Valid(j) && |g.piles| == PILES && g.piles[TALON] == [] && timesthru == old(timesthru) &&
                  done == old(done)
        invariant g == TableauBasesOut(old(g), rank, j) && PartOpened(old(g.piles), g.piles, rank, j)
      {
        ghost var was := g;
        FndBase(TABLEAU + j, j);
        OpenOneMore(old(g.piles), was, g, rank, j);
      }
      FndBase(STOCK, 4);
      MoveToTalon();
      TimesStay(old(g.piles[2]), g.piles[2], g.piles[1], old(timesthru), timesthru, rank);
    }

    /** `startgame`, with a shuffled deck. */
    constructor (deck: seq<nat>, ghost place: seq<nat>)
      requires Permuted(deck, place)
      ensures Ready() && basecard == deck[13]
      ensures View() == Opened(Table(DealtLayout(deck, place), 0, false), Rank(basecard))
      ensures Opening(deck, g.piles)
    {
      next := seq(DECKSIZE, _ => NIL);
      top, bottom, length, basecard, base := [], [], [], 0, 0;
      stockcnt, taloncnt, cinhand, cardsoff, timesthru, done := 0, 0, 0, 0, 0, false;
      g := Layout([], [], []);
      new;
      hide Board, Rank, Tally, Opened, DealtLayout, TopPlayable, Turning, Opening, BasesGone;
      InitGame(deck, place);
      EmptyTalon(deck, place);
      Open();
      IsOpening(deck, place, g.piles, 0);
    }

    // ----- Commands

    /** The switch of `movecard`. */
    method Obey(src: char, dst: char, declined: bool)
      requires Ready()
      modifies this`next, this`top, this`bottom, this`length, this`base, this`stockcnt, this`taloncnt, this`cinhand,
               this`cardsoff, this`timesthru, this`done, this`g
      ensures Valid(4) && View() == Move(old(View()), Rank(basecard), src, dst, declined)
    {
      hide Board, Rank, Tally, TopOf, ToFoundation, ToTableau, Onto, Turned;
      var toFoundation, toTableau := dst == 'f' || dst == 'F', '1' <= dst <= '4';
      var dest := if toTableau then dst as int - '1' as int else 0;
      if src == 't' && toFoundation {
        var _ := MoveToFound(TALON, 0);
      } else if src == 't' && toTableau {
        var _ := SimpleTableau(TALON, dest);
      } else if src == 's' && toFoundation {
        var _ := MoveToFound(STOCK, 0);
      } else if src == 's' && toTableau {
        var _ := SimpleTableau(STOCK, dest);
      } else if src == 'h' && (dst == 't' || dst == 'T') {
        if declined {
          done := true;
        } else {
          MoveToTalon();
        }
      } else if src == 'q' {
        done := true;
      } else if '1' <= src <= '4' && toFoundation {
        var source := src as int - '1' as int;
        var _ := MoveToFound(TABLEAU + source, source);
      } else if '1' <= src <= '4' && toTableau {
        var _ := TabToTab(src as int - '1' as int, dest);
      }
    }

    /**
     One round of `movecard`.  The source and destination characters are those that were typed;
     declined stands for the answer no to the offer to buy the game.
     */
    method Command(src: char, dst: char, declined: bool)
      requires Ready()
      modifies this`next, this`top, this`bottom, this`length, this`base, this`stockcnt, this`taloncnt, this`cinhand,
               this`cardsoff, this`timesthru, this`done, this`g
      ensures Ready() && View() == Round(old(View()), Rank(basecard), src, dst, declined)
    {
      hide Board, Rank, Tally, Move, BothBasesOut, Refilled, TopPlayable, Won;
      Refill();
      CardsOff();
      Obey(if cardsoff == DECKSIZE then 'q' else src, dst, declined);
      Bases();
    }

    method Refill()
      requires Ready()
      modifies this`next, this`top, this`length, this`base, this`stockcnt, this`taloncnt, this`cinhand, this`cardsoff,
               this`timesthru, this`done, this`g
      ensures Ready() && |g.piles| == |old(g.piles)| == PILES && View() == Refilled(old(View()), Rank(basecard))
      ensures if old(g.piles[1]) == [] && old(g.piles[2]) != []
              then Turning(old(g.piles[2]), [], g.piles[2], g.piles[1], old(timesthru), timesthru, Rank(basecard))
              else View() == old(View())
    {
      hide Board, Sound, Rank, Tally, Turned, Turning;
      BoardCards(4);
      Heads(TALON);
      Heads(HAND);
      if top[TALON] == NIL && top[HAND] != NIL {
        MoveToTalon();
      }
      CardsOff();
    }

    /** Bases on top of stock and talon go to the foundations. */
    method Bases()
      requires Valid(4)
      modifies this`next, this`top, this`length, this`base, this`stockcnt, this`taloncnt, this`cardsoff, this`g
      ensures Ready() && View() == BothBasesOut(old(View()), Rank(basecard))
    {
      hide Board, Rank, Tally, BasesOut;
      FndBase(STOCK, 4);
      FndBase(TALON, 4);
    }

    /** The game is won if and only if no card is left anywhere but on the foundations. */
    lemma WonIffCleared()
      requires Tally(g.piles, Counters(), DECKSIZE)
      ensures |g.piles| == 11
      ensures Won(g.piles) <==> forall i :: 0 <= i < 11 && !(3 <= i < 7) ==> g.piles[i] == []
    {
      if Won(g.piles) {
        assert forall i :: 7 <= i < 11 ==> |g.piles[i]| == length[i - 7] - (TABROW - 1);
      } else {
        var rest := |g.piles[7]| + |g.piles[8]| + |g.piles[9]| + |g.piles[10]|;
        assert |g.piles[0]| + |g.piles[1]| + |g.piles[2]| + rest > 0;
      }
    }

    lemma CardsOff()
      requires Tally(g.piles, Counters(), DECKSIZE)
      ensures |g.piles| == PILES && (cardsoff == DECKSIZE <==> Won(g.piles))
    {
    }

    /** `movecard`: whatever is typed, the linked piles play the same game as cards on a table. */
    method Play(commands: seq<(char, char, bool)>)
      requires Ready()
      modifies this
      ensures Ready() && basecard == old(basecard)
      ensures View() == Rounds(old(View()).(over := false), Rank(basecard), commands)
    {
      hide Board, Rank, Tally, TopOf, Round, Rounds;
      done := false;
      var i := 0;
      assert commands[0..] == commands;
      while i < |commands| && !done
        invariant i <= |commands| && Ready() && basecard == old(basecard)
        invariant Rounds(View(), Rank(basecard), commands[i..]) ==
                  Rounds(old(View()).(over := false), Rank(basecard), commands)
      {
        RoundsStep(View(), Rank(basecard), commands, i);
        Command(commands[i].0, commands[i].1, commands[i].2);
        i := i + 1;
      }
      RoundsEnd(View(), Rank(basecard), commands[i..]);
    }
  }

  lemma RoundsStep(t: Table, rank: nat, commands: seq<(char, char, bool)>, i: nat)
    requires i < |commands| && !t.over
    ensures Rounds(t, rank, commands[i..])
            == Rounds(Round(t, rank, commands[i].0, commands[i].1, commands[i].2), rank, commands[i + 1..])
  {
    hide Round;
    assert commands[i..][1..] == commands[i + 1..];
  }

  lemma RoundsEnd(t: Table, rank: nat, commands: seq<(char, char, bool)>)
    requires commands == [] || t.over
    ensures Rounds(t, rank, commands) == t
  {
  }

  /** One card in each tableau pile. */
  function OneEach(): seq<int> {
    [TABROW, TABROW, TABROW, TABROW]
  }

  lemma DealtTally(deck: seq<nat>, place: seq<nat>, n: Counts)
    requires Permuted(deck, place) && n == Counts(13, 0, 34, 1, OneEach())
    ensures Tally(DealtLayout(deck, place).piles, n, DECKSIZE)
  {
    assert DealtLayout(deck, place).piles == DealtPiles(deck);
  }

  lemma EmptyTalon(deck: seq<nat>, place: seq<nat>)
    requires Permuted(deck, place)
    ensures |DealtLayout(deck, place).piles| == PILES && DealtLayout(deck, place).piles[TALON] == []
    ensures DealtLayout(deck, place).piles[HAND] != []
  {
  }

  ghost function TableauBasesOut(g: Layout, rank: nat, n: nat): Layout {
    if n == 0 then g else BasesOut(TableauBasesOut(g, rank, n - 1), TABLEAU + n - 1, rank)
  }

  /** The table when the first command is read. */
  ghost function Opened(t: Table, rank: nat): Table {
    var g := BasesOut(TableauBasesOut(t.g, rank, 4), STOCK, rank);
    if |g.piles| == PILES then Turned(t.(g := g), rank) else t
  }

  lemma TimesStay(hand: seq<nat>, hand': seq<nat>, talon': seq<nat>, times: int, times': int, rank: nat)
    requires Turning(hand, [], hand', talon', times, times', rank)
    ensures times' == times
  {
  }

  lemma NoCardTwice(g: Layout, i: nat)
    requires Placed(g.piles, g.where, g.at) && i < PILES
    ensures Distinct(g.piles[i])
  {
  }

  /** A whole game, whatever is drawn and typed. */
  method PlayGame(draws: seq<nat>, commands: seq<(char, char, bool)>)
        returns (game: Game, ghost deck: seq<nat>, ghost place: seq<nat>)
    requires |draws| == DECKSIZE
    ensures fresh(game) && game.Ready() && Permuted(deck, place) && deck == Exchanged(NewDeck(), draws, 51)
    ensures var rank := Rank(deck[13]);
            game.View() ==
            Rounds(Opened(Table(DealtLayout(deck, place), 0, false), rank).(over := false), rank, commands)
  {
    hide Game.Ready, Rank, Opened, Rounds, DealtLayout;
    var d := Shuffle(draws);
    deck := d;
    place :| Permuted(deck, place);
    game := new Game(d, place);
    game.Play(commands);
  }

  lemma Popped(g: Layout, s: nat, d: nat)
    requires HasTop(g, s) && d < PILES && s != d
    ensures Shift(g, s, d).piles[s] == g.piles[s][..|g.piles[s]| - 1]
  {
  }

  lemma ReversedLength(s: seq<nat>)
    ensures |Reversed(s)| == |s|
  {
  }

  lemma {:induction false} ReversedAt(s: seq<nat>, a: nat)
    requires a < |s|
    ensures |Reversed(s)| == |s| && Reversed(s)[a] == s[|s| - 1 - a]
    decreases |s|
  {
    ReversedLength(s);
    if 0 < a {
      ReversedAt(s[..|s| - 1], a - 1);
    }
  }

  /** A reversed pile, dealt from its top, gives the cards as they lay. */
  lemma ReversedAtTop(s: seq<nat>, n: nat)
    requires n <= |s|
    ensures |Reversed(s)| == |s| && FromTop(Reversed(s), n) == s[..n]
    ensures Reversed(s)[..|s| - n] == FromTop(s, |s| - n)
  {
    ReversedLength(s);
    forall a | 0 <= a < |s|
      ensures Reversed(s)[a] == s[|s| - 1 - a]
    {
      ReversedAt(s, a);
    }
    hide Reversed;
    assert forall a :: 0 <= a < n ==> FromTop(Reversed(s), n)[a] == s[a];
  }

  lemma NothingReversed(s: seq<nat>)
    ensures s + Reversed([]) == s
  {
  }
}
