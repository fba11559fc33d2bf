/**
 Canfield solitaire: cards, piles linked through their cards, and the shapes that the rules
 give to foundations and tableau piles.
 */
module Canfield {
  import opened Arith

  const DECKSIZE: nat := 52
  const NIL: int := -1
  const ACE: nat := 1
  const KING: nat := 13

  // Pile numbers; foundations and tableau piles come in fours.
  const STOCK: nat := 0
  const TALON: nat := 1
  const HAND: nat := 2
  const FOUND: nat := 3
  const TABLEAU: nat := 7
  const PILES: nat := 11

  // ----- Cards

  function Rank(c: nat): (r: nat)
    ensures ACE <= r <= KING
  {
    c % 13 + 1
  }

  function Suit(c: nat): nat {
    c / 13
  }

  /** Spades and clubs are black, hearts and diamonds red. */
  predicate Black(c: nat) {
    Suit(c) < 2
  }

  lemma SameCard(c: nat, d: nat)
    ensures Rank(c) == Rank(d) && Suit(c) == Suit(d) ==> c == d
  {
  }

  /** The rank after r; the ace comes after the king. */
  function Up(r: nat): nat {
    if r == KING then ACE else r + 1
  }

  predicate RankLower(c: nat, d: nat) {
    if Rank(d) == ACE then Rank(c) == KING else Rank(c) + 1 == Rank(d)
  }

  predicate RankHigher(c: nat, d: nat) {
    if Rank(d) == KING then Rank(c) == ACE else Rank(c) - 1 == Rank(d)
  }

  lemma RankSteps(c: nat, d: nat)
    ensures RankLower(c, d) <==> Rank(d) == Up(Rank(c))
    ensures RankHigher(c, d) <==> Rank(c) == Up(Rank(d))
  {
    hide Rank;
  }

  // ----- Piles

  /** Every card is at one place: pile where[c], position at[c] from the bottom; every place holds one card. */
  ghost predicate Placed(piles: seq<seq<nat>>, where: seq<nat>, at: seq<nat>) {
    |piles| == PILES && |where| == DECKSIZE && |at| == DECKSIZE &&
    (forall i, a :: 0 <= i < PILES && 0 <= a < |piles[i]| ==>
      piles[i][a] < DECKSIZE && where[piles[i][a]] == i && at[piles[i][a]] == a) &&
    forall c :: 0 <= c < DECKSIZE ==> where[c] < PILES && at[c] < |piles[where[c]]| && piles[where[c]][at[c]] == c
  }

  /** The card below the first n cards of a pile, seen from above. */
  ghost function Last(pile: seq<nat>, n: nat): int
    requires n <= |pile|
  {
    if n == 0 then NIL else pile[n - 1]
  }

  /** The pile, bottom card first, is the chain that starts at its head. */
  ghost predicate Linked(next: seq<int>, head: int, pile: seq<nat>) {
    head == Last(pile, |pile|) &&
    forall a :: 0 <= a < |pile| ==> pile[a] < |next| && next[pile[a]] == Last(pile, a)
  }

  ghost predicate AllLinked(next: seq<int>, top: seq<int>, piles: seq<seq<nat>>) {
    |next| == DECKSIZE && |top| == |piles| == PILES && forall i :: 0 <= i < PILES ==> Linked(next, top[i], piles[i])
  }

  /** The piles after the top card of pile s has gone to pile d. */
  ghost function Shifted(piles: seq<seq<nat>>, s: nat, d: nat): seq<seq<nat>>
    requires s < |piles| && d < |piles| && s != d && piles[s] != []
  {
    piles[s := piles[s][..|piles[s]| - 1]][d := piles[d] + [piles[s][|piles[s]| - 1]]]
  }

  lemma ShiftPlaces(piles: seq<seq<nat>>, where: seq<nat>, at: seq<nat>, s: nat, d: nat)
    requires Placed(piles, where, at) && s < PILES && d < PILES && s != d && piles[s] != []
    ensures var c := piles[s][|piles[s]| - 1];
            c < DECKSIZE && Placed(Shifted(piles, s, d), where[c := d], at[c := |piles[d]|])
  {
    var c := piles[s][|piles[s]| - 1];
    var piles', where', at' := Shifted(piles, s, d), where[c := d], at[c := |piles[d]|];
    forall i, a | 0 <= i < PILES && 0 <= a < |piles'[i]|
      ensures piles'[i][a] < DECKSIZE && where'[piles'[i][a]] == i && at'[piles'[i][a]] == a
    {
      if i == d && a == |piles[d]| {
        assert piles'[i][a] == c;
      } else {
        assert piles'[i][a] == piles[i][a];
      }
    }
    forall e | 0 <= e < DECKSIZE
      ensures where'[e] < PILES && at'[e] < |piles'[where'[e]]| && piles'[where'[e]][at'[e]] == e
    {
      if e != c {
        assert piles[where[e]][at[e]] == e;
        assert at[c] == |piles[s]| - 1;
      }
    }
  }

  /** Relinking a card does not touch a chain without it. */
  lemma ChainStays(next: seq<int>, head: int, pile: seq<nat>, c: nat, n: int)
    requires Linked(next, head, pile) && c < |next| && forall a :: 0 <= a < |pile| ==> pile[a] != c
    ensures Linked(next[c := n], head, pile)
  {
  }

  lemma LastOfPrefix(pile: seq<nat>, m: nat, n: nat)
    requires n <= m <= |pile|
    ensures Last(pile[..m], n) == Last(pile, n) && forall k :: 0 <= k < m ==> pile[..m][k] == pile[k]
  {
  }

  lemma ChainPop(next: seq<int>, head: int, pile: seq<nat>, n: int)
    requires Linked(next, head, pile) && pile != [] && forall a :: 0 <= a < |pile| - 1 ==> pile[a] != pile[|pile| - 1]
    ensures 0 <= head < |next| && head == pile[|pile| - 1]
    ensures Linked(next[head := n], next[head], pile[..|pile| - 1])
  {
    var c, rest := pile[|pile| - 1], pile[..|pile| - 1];
    LastOfPrefix(pile, |rest|, |rest|);
    assert next[pile[|rest|]] == Last(pile, |rest|);
    forall a | 0 <= a < |rest|
      ensures rest[a] < |next| && next[c := n][rest[a]] == Last(rest, a)
    {
      LastOfPrefix(pile, |rest|, a);
      assert next[pile[a]] == Last(pile, a);
    }
  }

  lemma ChainPush(next: seq<int>, head: int, pile: seq<nat>, c: nat)
    requires Linked(next, head, pile) && c < |next| && forall a :: 0 <= a < |pile| ==> pile[a] != c
    ensures Linked(next[c := head], c, pile + [c])
  {
    var pile' := pile + [c];
    forall a | 0 <= a < |pile'|
      ensures pile'[a] < |next| && next[c := head][pile'[a]] == Last(pile', a)
    {
      if a < |pile| {
        assert pile'[a] == pile[a] && next[pile[a]] == Last(pile, a) == Last(pile', a);
      } else {
        assert pile'[a] == c && Last(pile', a) == Last(pile, |pile|);
      }
    }
    assert Last(pile', |pile'|) == c;
  }

  lemma TopCard(next: seq<int>, top: seq<int>, piles: seq<seq<nat>>, where: seq<nat>, at: seq<nat>, s: nat)
    requires Placed(piles, where, at) && AllLinked(next, top, piles) && s < PILES
    ensures if piles[s] == [] then top[s] == NIL else top[s] == piles[s][|piles[s]| - 1] && 0 <= top[s] < DECKSIZE
  {
    assert Linked(next, top[s], piles[s]);
  }

  /** The top card of a pile is nowhere else. */
  lemma TopIsAlone(piles: seq<seq<nat>>, where: seq<nat>, at: seq<nat>, s: nat, i: nat)
    requires Placed(piles, where, at) && s < PILES && i < PILES && piles[s] != []
    ensures var c := piles[s][|piles[s]| - 1];
            forall a :: 0 <= a < |piles[i]| && (i != s || a < |piles[i]| - 1) ==> piles[i][a] != c
  {
  }

  lemma ShiftLinks(next: seq<int>, top: seq<int>, piles: seq<seq<nat>>, where: seq<nat>, at: seq<nat>, s: nat, d: nat)
    requires Placed(piles, where, at) && AllLinked(next, top, piles) && s < PILES && d < PILES && s != d &&
             piles[s] != []
    ensures 0 <= top[s] < DECKSIZE
    ensures AllLinked(next[top[s] := top[d]], top[s := next[top[s]]][d := top[s]], Shifted(piles, s, d))
  {
    TopCard(next, top, piles, where, at, s);
    var c := top[s];
    var next', top', piles' := next[c := top[d]], top[s := next[c]][d := c], Shifted(piles, s, d);
    forall i | 0 <= i < PILES
      ensures Linked(next', top'[i], piles'[i])
    {
      TopIsAlone(piles, where, at, s, i);
      hide Placed, Linked;
      assert Linked(next, top[i], piles[i]);
      if i == s {
        ChainPop(next, top[i], piles[i], top[d]);
      } else if i == d {
        ChainPush(next, top[i], piles[i], c);
      } else {
        ChainStays(next, top[i], piles[i], c, top[d]);
      }
    }
  }

  // ----- A whole pile onto another

  ghost function Stacked(piles: seq<seq<nat>>, s: nat, d: nat): seq<seq<nat>>
    requires s < |piles| && d < |piles| && s != d
  {
    piles[s := []][d := piles[d] + piles[s]]
  }

  ghost function StackedWhere(where: seq<nat>, s: nat, d: nat): seq<nat> {
    seq(|where|, c requires 0 <= c < |where| => if where[c] == s then d else where[c])
  }

  ghost function StackedAt(where: seq<nat>, at: seq<nat>, s: nat, n: nat): seq<nat>
    requires |where| == |at|
  {
    seq(|at|, c requires 0 <= c < |at| => if where[c] == s then at[c] + n else at[c])
  }

  lemma StackPlaces(piles: seq<seq<nat>>, where: seq<nat>, at: seq<nat>, s: nat, d: nat)
    requires Placed(piles, where, at) && s < PILES && d < PILES && s != d
    ensures Placed(Stacked(piles, s, d), StackedWhere(where, s, d), StackedAt(where, at, s, |piles[d]|))
  {
    var piles', where', at' := Stacked(piles, s, d), StackedWhere(where, s, d), StackedAt(where, at, s, |piles[d]|);
    forall i, a | 0 <= i < PILES && 0 <= a < |piles'[i]|
      ensures piles'[i][a] < DECKSIZE && where'[piles'[i][a]] == i && at'[piles'[i][a]] == a
    {
      if i == d && |piles[d]| <= a {
        assert piles'[i][a] == piles[s][a - |piles[d]|];
      } else {
        assert piles'[i][a] == piles[i][a];
      }
    }
    forall c | 0 <= c < DECKSIZE
      ensures where'[c] < PILES && at'[c] < |piles'[where'[c]]| && piles'[where'[c]][at'[c]] == c
    {
      assert piles[where[c]][at[c]] == c;
    }
  }

  lemma ChainJoin(next: seq<int>, head: int, lower: seq<nat>, upper: seq<nat>, upperHead: int)
    requires Linked(next, head, lower) && Linked(next, upperHead, upper) && upper != []
    requires forall a :: 0 <= a < |lower| ==> lower[a] != upper[0]
    requires forall a :: 0 < a < |upper| ==> upper[a] != upper[0]
    ensures Linked(next[upper[0] := head], upperHead, lower + upper)
  {
    var pile, next' := lower + upper, next[upper[0] := head];
    forall a | 0 <= a < |pile|
      ensures pile[a] < |next| && next'[pile[a]] == Last(pile, a)
    {
      if a < |lower| {
        assert pile[a] == lower[a] && next[lower[a]] == Last(lower, a) == Last(pile, a);
      } else if a == |lower| {
        assert pile[a] == upper[0] && Last(pile, a) == Last(lower, |lower|);
      } else {
        var b := a - |lower|;
        assert pile[a] == upper[b] && next[upper[b]] == Last(upper, b) == Last(pile, a);
      }
    }
    assert Last(pile, |pile|) == Last(upper, |upper|);
  }

  lemma BottomIsAlone(piles: seq<seq<nat>>, where: seq<nat>, at: seq<nat>, s: nat, i: nat)
    requires Placed(piles, where, at) && s < PILES && i < PILES && piles[s] != []
    ensures piles[s][0] < DECKSIZE
    ensures forall a :: 0 <= a < |piles[i]| && (i != s || 0 < a) ==> piles[i][a] != piles[s][0]
  {
  }

  lemma StackLinks(next: seq<int>, top: seq<int>, piles: seq<seq<nat>>, where: seq<nat>, at: seq<nat>, s: nat, d: nat)
    requires Placed(piles, where, at) && AllLinked(next, top, piles) && s < PILES && d < PILES && s != d &&
             piles[s] != []
    ensures piles[s][0] < DECKSIZE
    ensures AllLinked(next[piles[s][0] := top[d]], top[d := top[s]][s := NIL], Stacked(piles, s, d))
  {
    BottomIsAlone(piles, where, at, s, s);
    var c := piles[s][0];
    var next', top', piles' := next[c := top[d]], top[d := top[s]][s := NIL], Stacked(piles, s, d);
    EmptyLinked(next');
    forall i | 0 <= i < PILES
      ensures Linked(next', top'[i], piles'[i])
    {
      BottomIsAlone(piles, where, at, s, i);
      BottomIsAlone(piles, where, at, s, d);
      hide Placed, Linked;
      assert Linked(next, top[i], piles[i]) && Linked(next, top[s], piles[s]) && Linked(next, top[d], piles[d]);
      if i == d {
        ChainJoin(next, top[d], piles[d], piles[s], top[s]);
      } else if i != s {
        ChainStays(next, top[i], piles[i], c, top[d]);
      }
    }
  }

  lemma EmptyLinked(next: seq<int>)
    ensures Linked(next, NIL, [])
  {
  }

  // ----- Foundations

  /** One suit, rising in rank from the base rank, the ace coming after the king. */
  ghost predicate FoundationRun(pile: seq<nat>, base: nat) {
    (pile != [] ==> Rank(pile[0]) == base) &&
    forall a, b :: 0 <= a && b == a + 1 < |pile| ==>
        Suit(pile[b]) == Suit(pile[a]) && Rank(pile[b]) == Up(Rank(pile[a]))
  }

  /** Falling in rank, the colours alternating. */
  ghost predicate TableauRun(pile: seq<nat>) {
    forall a, b :: 0 <= a && b == a + 1 < |pile| ==>
        Rank(pile[a]) == Up(Rank(pile[b])) && Black(pile[a]) != Black(pile[b])
  }

  ghost predicate NoBase(pile: seq<nat>, base: nat) {
    forall a :: 0 <= a < |pile| ==> Rank(pile[a]) != base
  }

  /** The rank n steps above r. */
  function Above(r: nat, n: nat): (q: nat)
    requires ACE <= r <= KING
    ensures ACE <= q <= KING
  {
    (r - 1 + n) % 13 + 1
  }

  lemma AboveStep(r: nat, n: nat)
    requires ACE <= r <= KING
    ensures Above(r, 0) == r && Above(r, n + 1) == Up(Above(r, n))
  {
    var m := r - 1 + n;
    var q, e := m / 13, m % 13;
    if e < 12 {
      ModOfMultiplePlus(13, q, e + 1);
      assert m + 1 == 13 * q + (e + 1);
    } else {
      ModOfMultiplePlus(13, q + 1, 0);
      assert m + 1 == 13 * (q + 1) + 0;
    }
  }

  lemma {:induction false} FoundationRanks(pile: seq<nat>, base: nat, a: nat)
    requires FoundationRun(pile, base) && a < |pile|
    ensures Rank(pile[a]) == Above(base, a) && Suit(pile[a]) == Suit(pile[0])
  {
    hide Rank, Suit, Above;
    if a == 0 {
      AboveStep(base, 0);
    } else {
      FoundationRanks(pile, base, a - 1);
      AboveStep(base, a - 1);
    }
  }

  ghost predicate Distinct(pile: seq<nat>) {
    forall a, b :: 0 <= a < b < |pile| ==> pile[a] != pile[b]
  }

  lemma ThirteenApart(pile: seq<nat>, base: nat)
    requires FoundationRun(pile, base) && 13 < |pile|
    ensures pile[0] == pile[13]
  {
    FoundationRanks(pile, base, 0);
    FoundationRanks(pile, base, 13);
    assert Above(base, 13) == Above(base, 0);
    SameCard(pile[0], pile[13]);
  }

  /** A foundation never holds more than thirteen cards. */
  lemma FoundationShort(pile: seq<nat>, base: nat)
    requires FoundationRun(pile, base) && Distinct(pile)
    ensures |pile| <= 13
  {
    if 13 < |pile| {
      ThirteenApart(pile, base);
    }
  }

  lemma {:induction false} TableauRanks(pile: seq<nat>, a: nat)
    requires TableauRun(pile) && a < |pile|
    ensures Rank(pile[0]) == Above(Rank(pile[a]), a)
  {
    if a == 0 {
      AboveStep(Rank(pile[0]), 0);
    } else {
      TableauRanks(pile, a - 1);
      hide Rank, TableauRun;
      AboveUp(Rank(pile[a]), a - 1);
    }
  }

  lemma AboveUp(r: nat, n: nat)
    requires ACE <= r <= KING
    ensures Above(Up(r), n) == Above(r, n + 1)
  {
  }

  lemma EveryRankAppears(pile: seq<nat>, base: nat)
    requires TableauRun(pile) && 12 < |pile| && ACE <= base <= KING
    ensures !NoBase(pile, base)
  {
    var a := (Rank(pile[0]) - base) % 13;
    TableauRanks(pile, a);
    AboveInjective(Rank(pile[a]), base, Rank(pile[0]), a);
  }

  /** A tableau pile without a base-rank card never holds more than twelve cards. */
  lemma TableauShort(pile: seq<nat>, base: nat)
    requires TableauRun(pile) && NoBase(pile, base) && ACE <= base <= KING
    ensures |pile| <= 12
  {
    if 12 < |pile| {
      EveryRankAppears(pile, base);
    }
  }

  lemma AboveInjective(r: nat, base: nat, q: nat, a: nat)
    requires ACE <= r <= KING && ACE <= base <= KING && ACE <= q <= KING
    requires a == (q - base) % 13 && q == Above(r, a)
    ensures r == base
  {
  }

  /** A pile cannot go onto itself: its bottom card does not follow its top card. */
  lemma NoSelfMove(pile: seq<nat>, base: nat)
    requires TableauRun(pile) && NoBase(pile, base) && ACE <= base <= KING && pile != []
    ensures !RankLower(pile[0], pile[|pile| - 1])
  {
    TableauShort(pile, base);
    TableauRanks(pile, |pile| - 1);
    RankSteps(pile[0], pile[|pile| - 1]);
    NotAround(Rank(pile[|pile| - 1]), |pile| - 1);
  }

  lemma NotAround(r: nat, n: nat)
    requires ACE <= r <= KING && n < 12
    ensures r != Up(Above(r, n))
  {
  }

  // ----- Moves on the whole layout

  /** The piles, and for each card its place. */
  datatype Layout = Layout(piles: seq<seq<nat>>, where: seq<nat>, at: seq<nat>)

  ghost predicate Sound(g: Layout, next: seq<int>, top: seq<int>) {
    Placed(g.piles, g.where, g.at) && AllLinked(next, top, g.piles)
  }

  ghost predicate HasTop(g: Layout, s: nat) {
    |g.piles| == PILES && |g.where| == DECKSIZE == |g.at| && s < PILES && g.piles[s] != [] && TopOf(g, s) < DECKSIZE
  }

  ghost function TopOf(g: Layout, s: nat): nat
    requires s < |g.piles| && g.piles[s] != []
  {
    g.piles[s][|g.piles[s]| - 1]
  }

  /** The top card of pile s goes to pile d. */
  ghost function Shift(g: Layout, s: nat, d: nat): Layout
    requires HasTop(g, s) && d < PILES && s != d
  {
    Layout(Shifted(g.piles, s, d), g.where[TopOf(g, s) := d], g.at[TopOf(g, s) := |g.piles[d]|])
  }

  /** All of pile s goes onto pile d. */
  ghost function Stack(g: Layout, s: nat, d: nat): Layout
    requires |g.piles| == PILES && |g.where| == |g.at| && s < PILES && d < PILES && s != d
  {
    Layout(Stacked(g.piles, s, d), StackedWhere(g.where, s, d), StackedAt(g.where, g.at, s, |g.piles[d]|))
  }

  lemma HeadOf(g: Layout, next: seq<int>, top: seq<int>, s: nat)
    requires Sound(g, next, top) && s < PILES
    ensures |top| == PILES == |g.piles| && |next| == DECKSIZE == |g.where| == |g.at|
    ensures top[s] == NIL <==> g.piles[s] == []
    ensures g.piles[s] != [] ==> HasTop(g, s) && top[s] == TopOf(g, s) && g.where[top[s]] == s
  {
    TopCard(next, top, g.piles, g.where, g.at, s);
  }

  lemma ShiftSound(g: Layout, next: seq<int>, top: seq<int>, s: nat, d: nat)
    requires Sound(g, next, top) && HasTop(g, s) && d < PILES && s != d
    ensures |top| == PILES && |next| == DECKSIZE && top[s] == TopOf(g, s)
    ensures Sound(Shift(g, s, d), next[top[s] := top[d]], top[s := next[top[s]]][d := top[s]])
  {
    HeadOf(g, next, top, s);
    ShiftPlaces(g.piles, g.where, g.at, s, d);
    ShiftLinks(next, top, g.piles, g.where, g.at, s, d);
    hide Placed, AllLinked, Shifted;
  }

  lemma StackSound(g: Layout, next: seq<int>, top: seq<int>, s: nat, d: nat)
    requires Sound(g, next, top) && HasTop(g, s) && d < PILES && s != d
    ensures |top| == PILES && |next| == DECKSIZE && g.piles[s][0] < DECKSIZE
    ensures Sound(Stack(g, s, d), next[g.piles[s][0] := top[d]], top[d := top[s]][s := NIL])
  {
    StackPlaces(g.piles, g.where, g.at, s, d);
    StackLinks(next, top, g.piles, g.where, g.at, s, d);
    hide Placed, AllLinked, Stacked;
  }

  // ----- What the rules keep

  /** Foundations 0..base are the ones in use; each is a run from the base rank. */
  ghost predicate Founded(piles: seq<seq<nat>>, base: nat, rank: nat) {
    |piles| == PILES && base < 4 && forall k :: 0 <= k < 4 ==> FoundationOk(piles, base, rank, k)
  }

  ghost predicate FoundationOk(piles: seq<seq<nat>>, base: nat, rank: nat, k: nat)
    requires |piles| == PILES && k < 4
  {
    (piles[FOUND + k] != [] <==> k <= base) && FoundationRun(piles[FOUND + k], rank)
  }

  /**
   The tableau: alternating runs without a base-rank card, whose bottom cards are known.  The
   piles from open on have just been dealt and hold one card each, of any rank.
   */
  ghost predicate Tabled(g: Layout, bottom: seq<int>, rank: nat, open: nat) {
    |g.piles| == PILES && |g.where| == DECKSIZE && |bottom| == 4 && open <= 4 &&
    forall k :: 0 <= k < 4 ==> TableauOk(g, bottom[k], rank, open, k)
  }

  ghost predicate TableauOk(g: Layout, bottom: int, rank: nat, open: nat, k: nat)
    requires |g.piles| == PILES && |g.where| == DECKSIZE && k < 4
  {
    var pile := g.piles[TABLEAU + k];
    TableauRun(pile) && (if k < open then NoBase(pile, rank) else |pile| == 1) &&
    (pile != [] ==> bottom == pile[0]) && BottomPlayed(g.where, bottom)
  }

  /** A card that is or was the bottom of a tableau pile is on the tableau or on a foundation. */
  ghost predicate BottomPlayed(where: seq<nat>, c: int)
    requires |where| == DECKSIZE
  {
    c == NIL || (0 <= c < DECKSIZE && FOUND <= where[c])
  }

  lemma RunGrows(pile: seq<nat>, base: nat, c: nat)
    requires FoundationRun(pile, base) && pile != [] && Suit(c) == Suit(pile[|pile| - 1]) &&
             Rank(c) == Up(Rank(pile[|pile| - 1]))
    ensures FoundationRun(pile + [c], base)
  {
    hide Rank, Suit;
  }

  lemma RunStarts(base: nat, c: nat)
    requires Rank(c) == base
    ensures FoundationRun([] + [c], base)
  {
  }

  lemma DescentGrows(pile: seq<nat>, c: nat)
    requires TableauRun(pile)
    requires pile != [] ==> RankLower(c, pile[|pile| - 1]) && Black(c) != Black(pile[|pile| - 1])
    ensures TableauRun(pile + [c])
  {
    if pile != [] {
      RankSteps(c, pile[|pile| - 1]);
    }
    hide Rank, Black;
  }

  lemma DescentShrinks(pile: seq<nat>)
    requires TableauRun(pile) && pile != []
    ensures TableauRun(pile[..|pile| - 1])
  {
    hide Rank, Black;
  }

  lemma DescentJoins(lower: seq<nat>, upper: seq<nat>)
    requires TableauRun(lower) && TableauRun(upper) && lower != [] && upper != []
    requires RankLower(upper[0], lower[|lower| - 1]) && Black(upper[0]) != Black(lower[|lower| - 1])
    ensures TableauRun(lower + upper)
  {
    RankSteps(upper[0], lower[|lower| - 1]);
    hide Rank, Black;
    var pile := lower + upper;
    forall a, b | 0 <= a && b == a + 1 < |pile|
      ensures Rank(pile[a]) == Up(Rank(pile[b])) && Black(pile[a]) != Black(pile[b])
    {
      if b < |lower| {
        assert pile[a] == lower[a] && pile[b] == lower[b];
      } else if |lower| <= a {
        assert pile[a] == upper[a - |lower|] && pile[b] == upper[b - |lower|];
      }
    }
  }

  /** A base-rank card that is not on a foundation still has a free foundation. */
  lemma FreeFoundation(g: Layout, base: nat, rank: nat, s: nat)
    requires Placed(g.piles, g.where, g.at) && Founded(g.piles, base, rank) && HasTop(g, s) && !(FOUND <= s < TABLEAU)
    requires Rank(TopOf(g, s)) == rank
    ensures base < 3
  {
    if base == 3 {
      var c := TopOf(g, s);
      assert g.where[c] == s;
      var b0 := BaseCard(g, base, rank, 0);
      var b1 := BaseCard(g, base, rank, 1);
      var b2 := BaseCard(g, base, rank, 2);
      var b3 := BaseCard(g, base, rank, 3);
      hide Placed, Founded, Rank, TopOf;
      FourOfARank(c, b0, b1, b2, b3);
    }
  }

  /** The bottom card of a foundation in use. */
  lemma BaseCard(g: Layout, base: nat, rank: nat, k: nat) returns (b: nat)
    requires Placed(g.piles, g.where, g.at) && Founded(g.piles, base, rank) && k <= base
    ensures b < DECKSIZE && Rank(b) == rank && |g.where| == DECKSIZE && g.where[b] == FOUND + k
  {
    assert FoundationOk(g.piles, base, rank, k);
    b := g.piles[FOUND + k][0];
  }

  lemma FourOfARank(c: nat, b0: nat, b1: nat, b2: nat, b3: nat)
    requires c < DECKSIZE && b0 < DECKSIZE && b1 < DECKSIZE && b2 < DECKSIZE && b3 < DECKSIZE
    requires Rank(c) == Rank(b0) == Rank(b1) == Rank(b2) == Rank(b3)
    requires b0 != b1 && b0 != b2 && b0 != b3 && b1 != b2 && b1 != b3 && b2 != b3
    ensures c == b0 || c == b1 || c == b2 || c == b3
  {
    hide Rank, Suit;
    SuitRange(c, b0, b1);
    SuitRange(b0, b2, b3);
    SuitRange(b1, b2, b3);
    SuitRange(c, b2, b3);
    SuitRange(b0, b1, b2);
    FourSuits(Suit(c), Suit(b0), Suit(b1), Suit(b2), Suit(b3));
  }

  lemma FourSuits(c: nat, b0: nat, b1: nat, b2: nat, b3: nat)
    requires c < 4 && b0 < 4 && b1 < 4 && b2 < 4 && b3 < 4
    requires b0 != b1 && b0 != b2 && b0 != b3 && b1 != b2 && b1 != b3 && b2 != b3
    ensures c == b0 || c == b1 || c == b2 || c == b3
  {
  }

  lemma SuitRange(c: nat, d: nat, e: nat)
    requires c < DECKSIZE && d < DECKSIZE && e < DECKSIZE && Rank(c) == Rank(d) == Rank(e)
    ensures Suit(c) < 4 && Suit(d) < 4 && Suit(e) < 4
    ensures (Suit(c) == Suit(d) ==> c == d) && (Suit(c) == Suit(e) ==> c == e) && (Suit(d) == Suit(e) ==> d == e)
  {
    SameCard(c, d);
    SameCard(c, e);
    SameCard(d, e);
  }
}
