/** Canfield solitaire: shuffling the deck and dealing it into linked piles. */
module CanfieldDeck {
  import opened Canfield
  import opened CanfieldRules

  /** The deck is a permutation of the cards; place is its inverse. */
  ghost predicate Permuted(deck: seq<nat>, place: seq<nat>) {
    |deck| == |place| == DECKSIZE &&
    (forall i :: 0 <= i < DECKSIZE ==> deck[i] < DECKSIZE && place[deck[i]] == i) &&
    forall c :: 0 <= c < DECKSIZE ==> place[c] < DECKSIZE && deck[place[c]] == c
  }

  ghost predicate IsPermutation(deck: seq<nat>) {
    exists place :: Permuted(deck, place)
  }

  /** The deck after the cards at i, i - 1, and so on to 0 have been exchanged with those drawn for them. */
  function Exchanged(deck: seq<nat>, draws: seq<nat>, i: int): (r: seq<nat>)
    requires |deck| == |draws| == 52 && -1 <= i < 52
    ensures |r| == 52
    decreases i + 1
  {
    if i < 0 then deck
    else
      var j := draws[i] % 52;
      Exchanged(deck[i := deck[j]][j := deck[i]], draws, i - 1)
  }

  function NewDeck(): seq<nat> { seq(52, i => i) }

  lemma SwapPermutes(deck: seq<nat>, place: seq<nat>, i: nat, j: nat)
    requires Permuted(deck, place) && i < DECKSIZE && j < DECKSIZE
    ensures deck[i] < |place| && deck[j] < |place|
    ensures Permuted(deck[i := deck[j]][j := deck[i]], place[deck[i] := j][deck[j] := i])
  {
  }

  /** `initdeck` and `shuffle`: whatever numbers are drawn, the deck stays a permutation. */
  method Shuffle(draws: seq<nat>) returns (deck: seq<nat>)
    requires |draws| == DECKSIZE
    ensures IsPermutation(deck) && deck == Exchanged(NewDeck(), draws, 51)
  {
    hide Permuted;
    ghost var place: seq<nat> := NewDeck();
    deck := seq(DECKSIZE, i => i);
    NewIsPermuted();
    var i := DECKSIZE - 1;
    while 0 <= i
      invariant -1 <= i < DECKSIZE && |deck| == 52 && |place| == 52 && Permuted(deck, place)
      invariant Exchanged(deck, draws, i) == Exchanged(NewDeck(), draws, 51)
      decreases i
    {
      var j := draws[i] % DECKSIZE;
      SwapPermutes(deck, place, i, j);
      if i != j {
        assert deck[i] < 52 && deck[j] < 52;
        place := place[deck[i] := j][deck[j] := i];
        deck := deck[i := deck[j]][j := deck[i]];
      } else {
        assert deck[i := deck[j]][j := deck[i]] == deck;
      }
      i := i - 1;
    }
  }

  lemma NewIsPermuted()
    ensures Permuted(NewDeck(), NewDeck())
  {
  }

  lemma {:induction false} LaterDraws(deck: seq<nat>, draws: seq<nat>, i: int, k: nat, x: nat)
    requires |deck| == |draws| == 52 && -1 <= i < k < 52
    ensures Exchanged(deck, draws, i) == Exchanged(deck, draws[k := x], i)
    decreases i + 1
  {
    if 0 <= i {
      var j := draws[i] % 52;
      LaterDraws(deck[i := deck[j]][j := deck[i]], draws, i - 1, k, x);
    }
  }

  /** Draws that bring the cards at 0 to i into the order of the target. */
  lemma {:induction false} DrawsFor(target: seq<nat>, at: seq<nat>, deck: seq<nat>, place: seq<nat>, i: int)
      returns (draws: seq<nat>)
    requires Permuted(target, at) && Permuted(deck, place) && -1 <= i < 52
    requires forall k :: i < k < 52 ==> deck[k] == target[k]
    ensures |draws| == 52 && Exchanged(deck, draws, i) == target
    decreases i + 1
  {
    if i < 0 {
      draws := NewDeck();
      assert deck == target;
    } else {
      var j := place[target[i]];
      assert j <= i;
      SwapPermutes(deck, place, i, j);
      var deck' := deck[i := deck[j]][j := deck[i]];
      draws := DrawsFor(target, at, deck', place[deck[i] := j][deck[j] := i], i - 1);
      LaterDraws(deck', draws, i - 1, i, j);
      draws := draws[i := j];
    }
  }

  /** Every order of the cards can come out of the shuffle. */
  lemma EveryDeckIsPossible(target: seq<nat>)
    requires IsPermutation(target)
    ensures exists draws: seq<nat> :: |draws| == 52 && Exchanged(NewDeck(), draws, 51) == target
  {
    var at :| Permuted(target, at);
    NewIsPermuted();
    var draws := DrawsFor(target, at, NewDeck(), NewDeck(), 51);
  }

  /** The piles after the deal, bottom cards first. */
  ghost function DealtPiles(deck: seq<nat>): (piles: seq<seq<nat>>)
    requires |deck| == DECKSIZE
    ensures |piles| == PILES
  {
    [deck[..13], [], seq(34, a requires 0 <= a < 34 => deck[51 - a]),
     [deck[13]], [], [], [],
     [deck[14]], [deck[15]], [deck[16]], [deck[17]]]
  }

  function PileOf(p: nat): nat {
    if p < 13 then STOCK else if p == 13 then FOUND else if p < 18 then TABLEAU + (p - 14) else HAND
  }

  function IndexOf(p: nat): int {
    if p < 13 then p else if p < 18 then 0 else 51 - p
  }

  ghost function DealtLayout(deck: seq<nat>, place: seq<nat>): Layout
    requires Permuted(deck, place)
  {
    Layout(DealtPiles(deck),
           seq(DECKSIZE, c requires 0 <= c < DECKSIZE => PileOf(place[c])),
           seq(DECKSIZE, c requires 0 <= c < DECKSIZE => IndexOf(place[c])))
  }

  /** Position p of the deck is the place PileOf(p), IndexOf(p). */
  lemma DealtAt(deck: seq<nat>, p: nat)
    requires |deck| == DECKSIZE && p < DECKSIZE
    ensures var piles := DealtPiles(deck);
            PileOf(p) < PILES && 0 <= IndexOf(p) < |piles[PileOf(p)]| && piles[PileOf(p)][IndexOf(p)] == deck[p]
  {
  }

  /** The position in the deck of the card at index a of pile i. */
  ghost function DeckAt(i: nat, a: nat): int {
    if i == STOCK then a else if i == HAND then 51 - a else if i == FOUND then 13 else 14 + (i - TABLEAU)
  }

  lemma DealtFrom(deck: seq<nat>, i: nat, a: nat)
    requires |deck| == DECKSIZE && i < PILES && a < |DealtPiles(deck)[i]|
    ensures 0 <= DeckAt(i, a) < DECKSIZE && DealtPiles(deck)[i][a] == deck[DeckAt(i, a)]
    ensures PileOf(DeckAt(i, a)) == i && IndexOf(DeckAt(i, a)) == a
  {
  }

  lemma DealtPlaced(deck: seq<nat>, place: seq<nat>)
    requires Permuted(deck, place)
    ensures var g := DealtLayout(deck, place); Placed(g.piles, g.where, g.at)
  {
    var g := DealtLayout(deck, place);
    forall i, a | 0 <= i < PILES && 0 <= a < |g.piles[i]|
      ensures g.piles[i][a] < DECKSIZE && g.where[g.piles[i][a]] == i && g.at[g.piles[i][a]] == a
    {
      DealtFrom(deck, i, a);
    }
    forall c | 0 <= c < DECKSIZE
      ensures g.where[c] < PILES && g.at[c] < |g.piles[g.where[c]]| && g.piles[g.where[c]][g.at[c]] == c
    {
      DealtAt(deck, place[c]);
    }
  }

  /** The link that `initgame` gives to the card at position p of the deck. */
  function LinkAt(deck: seq<nat>, p: nat): int
    requires |deck| == DECKSIZE && p < DECKSIZE
  {
    if 1 <= p <= 12 then deck[p - 1] else if 18 <= p < DECKSIZE - 1 then deck[p + 1] else NIL
  }

  function DealtTops(deck: seq<nat>): seq<int>
    requires |deck| == DECKSIZE
  {
    [deck[12], NIL, deck[18], deck[13], NIL, NIL, NIL, deck[14], deck[15], deck[16], deck[17]]
  }

  lemma DealtLink(deck: seq<nat>, i: nat, a: nat)
    requires |deck| == DECKSIZE && i < PILES && a < |DealtPiles(deck)[i]|
    ensures 0 <= DeckAt(i, a) < DECKSIZE && LinkAt(deck, DeckAt(i, a)) == Last(DealtPiles(deck)[i], a)
  {
  }

  lemma DealtTop(deck: seq<nat>, i: nat)
    requires |deck| == DECKSIZE && i < PILES
    ensures |DealtTops(deck)| == PILES && DealtTops(deck)[i] == Last(DealtPiles(deck)[i], |DealtPiles(deck)[i]|)
  {
  }

  lemma DealtLinked(deck: seq<nat>, place: seq<nat>, next: seq<int>)
    requires Permuted(deck, place) && LinksSet(next, deck, 0, DECKSIZE)
    ensures AllLinked(next, DealtTops(deck), DealtPiles(deck))
  {
    hide DealtPiles, DealtTops, LinkAt, DeckAt, Last;
    var piles, top := DealtPiles(deck), DealtTops(deck);
    DealtTop(deck, 0);
    forall i | 0 <= i < PILES
      ensures Linked(next, top[i], piles[i])
    {
      DealtTop(deck, i);
      forall a | 0 <= a < |piles[i]|
        ensures piles[i][a] < |next| && next[piles[i][a]] == Last(piles[i], a)
      {
        DealtFrom(deck, i, a);
        DealtLink(deck, i, a);
      }
    }
  }

  function DealtBottoms(deck: seq<nat>): seq<int>
    requires |deck| == DECKSIZE
  {
    [deck[14], deck[15], deck[16], deck[17]]
  }

  lemma DealtFounded(deck: seq<nat>)
    requires |deck| == DECKSIZE
    ensures Founded(DealtPiles(deck), 0, Rank(deck[13]))
  {
    var piles, rank := DealtPiles(deck), Rank(deck[13]);
    forall k | 0 <= k < 4
      ensures FoundationOk(piles, 0, rank, k)
    {
    }
  }

  lemma DealtTabled(deck: seq<nat>, place: seq<nat>)
    requires Permuted(deck, place)
    ensures Tabled(DealtLayout(deck, place), DealtBottoms(deck), Rank(deck[13]), 0)
  {
    var g, bottom, rank := DealtLayout(deck, place), DealtBottoms(deck), Rank(deck[13]);
    forall k | 0 <= k < 4
      ensures TableauOk(g, bottom[k], rank, 0, k)
    {
      assert g.where[deck[14 + k]] == PileOf(14 + k);
    }
  }

  /** The links of positions lo..hi have been set. */
  ghost predicate LinksSet(next: seq<int>, deck: seq<nat>, lo: nat, hi: nat) {
    |next| == |deck| == DECKSIZE && lo <= hi <= DECKSIZE && (forall p :: 0 <= p < DECKSIZE ==> deck[p] < DECKSIZE) &&
    forall p :: lo <= p < hi ==> next[deck[p]] == LinkAt(deck, p)
  }

  lemma SetLink(next: seq<int>, deck: seq<nat>, place: seq<nat>, lo: nat, hi: nat, q: nat)
    requires Permuted(deck, place) && LinksSet(next, deck, lo, hi) && q < DECKSIZE && (q == hi || q + 1 == lo)
    ensures LinksSet(next[deck[q] := LinkAt(deck, q)], deck, if q == hi then lo else q, if q == hi then hi + 1 else hi)
  {
    hide LinkAt;
  }

  lemma DealtBoard(deck: seq<nat>, place: seq<nat>, next: seq<int>)
    requires Permuted(deck, place) && LinksSet(next, deck, 0, DECKSIZE)
    ensures var g, rank := DealtLayout(deck, place), Rank(deck[13]);
            Sound(g, next, DealtTops(deck)) && Founded(g.piles, 0, rank) &&
            Tabled(g, DealtBottoms(deck), rank, 0)
  {
    hide Placed, AllLinked, Founded, Tabled, Rank, DealtPiles, DealtTops, LinksSet;
    DealtPlaced(deck, place);
    DealtLinked(deck, place, next);
    DealtFounded(deck);
    DealtTabled(deck, place);
  }

  /** The links that `initgame` sets, in its order. */
  method LinkDeck(deck: seq<nat>, ghost place: seq<nat>, links: seq<int>) returns (next: seq<int>)
    requires Permuted(deck, place) && |links| == DECKSIZE
    ensures LinksSet(next, deck, 0, DECKSIZE)
  {
    next := links;
    assert LinksSet(next, deck, 13, 13) && forall p :: 0 <= p < DECKSIZE ==> deck[p] < DECKSIZE;
    hide LinksSet, Permuted;
    var i := 12;
    while 1 <= i
      invariant 0 <= i <= 12 && |next| == DECKSIZE && LinksSet(next, deck, i + 1, 13)
    {
      SetLink(next, deck, place, i + 1, 13, i);
      next := next[deck[i] := deck[i - 1]];
      i := i - 1;
    }
    SetLink(next, deck, place, 1, 13, 0);
    next := next[deck[0] := NIL];
    SetLink(next, deck, place, 0, 13, 13);
    next := next[deck[13] := NIL];
    i := 14;
    while i < 18
      invariant 14 <= i <= 18 && |next| == DECKSIZE && LinksSet(next, deck, 0, i)
    {
      SetLink(next, deck, place, 0, i, i);
      next := next[deck[i] := NIL];
      i := i + 1;
    }
    while i < DECKSIZE - 1
      invariant 18 <= i <= DECKSIZE - 1 && |next| == DECKSIZE && LinksSet(next, deck, 0, i)
    {
      SetLink(next, deck, place, 0, i, i);
      next := next[deck[i] := deck[i + 1]];
      i := i + 1;
    }
    SetLink(next, deck, place, 0, DECKSIZE - 1, DECKSIZE - 1);
    next := next[deck[DECKSIZE - 1] := NIL];
  }
}
