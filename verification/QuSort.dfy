/**
 `qusort`: the in-place quicksort with a fat pivot.

 Four boundaries move: rows before `i` are below the pivot, rows lp..hp equal it, rows after
 `j` are above it, and the rest are not yet known.  With -u every row of an equal range but
 the first is blanked.
 */
module QuSort {
  import opened Arith
  import opened Order

  /** A line of the input; a row that is not live has been blanked. */
  datatype Row<T> = Row(line: T, live: bool)

  ghost function Lines<T>(rows: seq<Row<T>>): (t: seq<T>)
    ensures |t| == |rows| && forall k :: 0 <= k < |t| ==> t[k] == rows[k].line
  {
    seq(|rows|, k requires 0 <= k < |rows| => rows[k].line)
  }

  ghost predicate AllLive<T>(rows: seq<Row<T>>, lo: int, hi: int)
    requires 0 <= lo && hi <= |rows|
  {
    forall k :: lo <= k < hi ==> rows[k].live
  }

  // ----- Comparing with the pivot

  ghost predicate Less<T(!new)>(t: seq<T>, cmp: (T, T) -> int, p: T, lo: int, hi: int)
    requires 0 <= lo && hi <= |t|
  {
    forall k :: lo <= k < hi ==> cmp(t[k], p) < 0
  }

  ghost predicate Equal<T(!new)>(t: seq<T>, cmp: (T, T) -> int, p: T, lo: int, hi: int)
    requires 0 <= lo && hi <= |t|
  {
    forall k :: lo <= k < hi ==> cmp(t[k], p) == 0
  }

  ghost predicate Greater<T(!new)>(t: seq<T>, cmp: (T, T) -> int, p: T, lo: int, hi: int)
    requires 0 <= lo && hi <= |t|
  {
    forall k :: lo <= k < hi ==> cmp(t[k], p) > 0
  }

  datatype Bounds = Bounds(lo: int, i: int, lp: int, hp: int, j: int, hi: int)

  ghost predicate Splitting<T(!new)>(t: seq<T>, cmp: (T, T) -> int, p: T, b: Bounds) {
    0 <= b.lo <= b.i <= b.lp <= b.hp <= b.j < b.hi <= |t| &&
    Less(t, cmp, p, b.lo, b.i) && Equal(t, cmp, p, b.lp, b.hp + 1) && Greater(t, cmp, p, b.j + 1, b.hi)
  }

  /** The pointers p, q, r of `qstexc` after the exchange. */
  ghost function Cycled<T>(s: seq<T>, p: nat, q: nat, r: nat): (t: seq<T>)
    requires p < |s| && q < |s| && r < |s|
    ensures |t| == |s|
  {
    Swapped(Swapped(s, p, r), r, q)
  }

  method Exchange<T>(a: array<Row<T>>, x: int, y: int)
    requires 0 <= x < a.Length && 0 <= y < a.Length
    modifies a
    ensures a[..] == Swapped(old(a[..]), x, y)
    ensures Lines(a[..]) == Swapped(Lines(old(a[..])), x, y)
  {
    var t := a[x];
    a[x] := a[y];
    a[y] := t;
  }

  method Exchange3<T>(a: array<Row<T>>, p: int, q: int, r: int)
    requires 0 <= p < a.Length && 0 <= q < a.Length && 0 <= r < a.Length
    requires p != q && p != r
    modifies a
    ensures a[..] == Cycled(old(a[..]), p, q, r)
    ensures Lines(a[..]) == Cycled(Lines(old(a[..])), p, q, r)
  {
    var t := a[p];
    a[p] := a[r];
    a[r] := a[q];
    a[q] := t;
  }

  /** Blanked lines are never compared. */
  method Compare<T>(cmp: (T, T) -> int, x: Row<T>, y: Row<T>) returns (c: int)
    requires x.live && y.live
    ensures c == cmp(x.line, y.line)
  {
    c := cmp(x.line, y.line);
  }

  // ----- One lemma per move

  lemma EqualOnLeft<T(!new)>(t: seq<T>, cmp: (T, T) -> int, p: T, b: Bounds)
    requires Splitting(t, cmp, p, b) && b.i < b.lp && cmp(t[b.i], p) == 0
    ensures Splitting(Swapped(t, b.i, b.lp - 1), cmp, p, b.(lp := b.lp - 1))
  {
  }

  lemma EqualOnRight<T(!new)>(t: seq<T>, cmp: (T, T) -> int, p: T, b: Bounds)
    requires Splitting(t, cmp, p, b) && b.hp < b.j && cmp(t[b.j], p) == 0
    ensures Splitting(Swapped(t, b.hp + 1, b.j), cmp, p, b.(hp := b.hp + 1))
  {
  }

  /** A small element on the right while the left is done: the equal range moves up by one. */
  lemma ShiftUp<T(!new)>(t: seq<T>, cmp: (T, T) -> int, p: T, b: Bounds)
    requires Splitting(t, cmp, p, b) && b.i == b.lp && b.hp < b.j && cmp(t[b.j], p) < 0
    ensures Splitting(Cycled(t, b.i, b.hp + 1, b.j), cmp, p, b.(i := b.lp + 1, lp := b.lp + 1, hp := b.hp + 1))
  {
  }

  lemma CrossOver<T(!new)>(t: seq<T>, cmp: (T, T) -> int, p: T, b: Bounds)
    requires Splitting(t, cmp, p, b) && b.i < b.lp && b.hp < b.j && cmp(t[b.i], p) > 0 && cmp(t[b.j], p) < 0
    ensures Splitting(Swapped(t, b.i, b.j), cmp, p, b.(i := b.i + 1, j := b.j - 1))
  {
  }

  /** A large element on the left while the right is done: the equal range moves down by one. */
  lemma ShiftDown<T(!new)>(t: seq<T>, cmp: (T, T) -> int, p: T, b: Bounds)
    requires Splitting(t, cmp, p, b) && b.i < b.lp && b.j == b.hp && cmp(t[b.i], p) > 0
    ensures Splitting(Cycled(t, b.j, b.lp - 1, b.i), cmp, p, b.(lp := b.lp - 1, hp := b.hp - 1, j := b.hp - 1))
  {
  }

  // ----- The partition loop

  ghost predicate UnchangedOutside<T>(s: seq<T>, t: seq<T>, lo: int, hi: int) {
    |s| == |t| && forall k :: 0 <= k < |s| && (k < lo || hi <= k) ==> s[k] == t[k]
  }

  /** Rows `rows` come from `rows0` by rearranging live rows of the range. */
  ghost predicate Shuffled<T>(rows0: seq<Row<T>>, rows: seq<Row<T>>, lo: int, hi: int) {
    0 <= lo <= hi <= |rows| == |rows0| &&
    Rearranged(Lines(rows0), Lines(rows), lo, hi) && AllLive(rows, lo, hi) && UnchangedOutside(rows0, rows, lo, hi)
  }

  lemma ShuffledBySwap<T>(rows0: seq<Row<T>>, rows: seq<Row<T>>, x: int, y: int, lo: int, hi: int)
    requires Shuffled(rows0, rows, lo, hi) && lo <= x < hi && lo <= y < hi
    ensures Shuffled(rows0, Swapped(rows, x, y), lo, hi)
    ensures Lines(Swapped(rows, x, y)) == Swapped(Lines(rows), x, y)
  {
    assert Lines(Swapped(rows, x, y)) == Swapped(Lines(rows), x, y);
    assert AllLive(Swapped(rows, x, y), lo, hi) && UnchangedOutside(rows, Swapped(rows, x, y), lo, hi);
    hide Swapped;
    SwapRearranges(Lines(rows), x, y, lo, hi);
  }

  lemma ShuffledByCycle<T>(rows0: seq<Row<T>>, rows: seq<Row<T>>, x: int, y: int, z: int, lo: int, hi: int)
    requires Shuffled(rows0, rows, lo, hi) && lo <= x < hi && lo <= y < hi && lo <= z < hi
    ensures Shuffled(rows0, Cycled(rows, x, y, z), lo, hi)
    ensures Lines(Cycled(rows, x, y, z)) == Cycled(Lines(rows), x, y, z)
  {
    ShuffledBySwap(rows0, rows, x, z, lo, hi);
    ShuffledBySwap(rows0, Swapped(rows, x, z), z, y, lo, hi);
  }

  /** The state of the partition loop. */
  ghost predicate InProgress<T(!new)>(rows0: seq<Row<T>>, rows: seq<Row<T>>, cmp: (T, T) -> int, p: T, b: Bounds) {
    0 <= b.lo <= b.i <= b.lp <= b.hp <= b.j < b.hi <= |rows| == |rows0| &&
    Shuffled(rows0, rows, b.lo, b.hi) && Splitting(Lines(rows), cmp, p, b)
  }

  /** The distance still to go. */
  function Unknown(b: Bounds): int {
    (b.lp - b.i) + (b.j - b.hp)
  }

  /** Comparing with a row of the equal range tells how a row stands to the pivot. */
  lemma CompareTells<T(!new)>(rows0: seq<Row<T>>, rows: seq<Row<T>>, cmp: (T, T) -> int, p: T, b: Bounds, x: int,
        y: int)
    requires TotalPreorder(cmp) && InProgress(rows0, rows, cmp, p, b)
    requires b.lo <= x < b.hi && b.lp <= y <= b.hp
    ensures rows[x].live && rows[y].live
    ensures var c, d := cmp(rows[x].line, rows[y].line), cmp(rows[x].line, p);
            (c < 0 <==> d < 0) && (c > 0 <==> d > 0)
    ensures var c, d := cmp(rows[y].line, rows[x].line), cmp(rows[x].line, p);
            (c < 0 <==> d > 0) && (c > 0 <==> d < 0)
  {
    EqualSubstitutes(cmp, rows[x].line, rows[y].line, p);
  }

  /** The moves, on rows. */
  lemma MoveEqualLeft<T(!new)>(rows0: seq<Row<T>>, rows: seq<Row<T>>, cmp: (T, T) -> int, p: T, b: Bounds)
    requires InProgress(rows0, rows, cmp, p, b) && b.i < b.lp && cmp(rows[b.i].line, p) == 0
    ensures InProgress(rows0, Swapped(rows, b.i, b.lp - 1), cmp, p, b.(lp := b.lp - 1))
  {
    hide Shuffled, Splitting, Swapped, Cycled;
    EqualOnLeft(Lines(rows), cmp, p, b);
    ShuffledBySwap(rows0, rows, b.i, b.lp - 1, b.lo, b.hi);
  }

  lemma MoveEqualRight<T(!new)>(rows0: seq<Row<T>>, rows: seq<Row<T>>, cmp: (T, T) -> int, p: T, b: Bounds)
    requires InProgress(rows0, rows, cmp, p, b) && b.hp < b.j && cmp(rows[b.j].line, p) == 0
    ensures InProgress(rows0, Swapped(rows, b.hp + 1, b.j), cmp, p, b.(hp := b.hp + 1))
    ensures b.i < b.lp ==> Swapped(rows, b.hp + 1, b.j)[b.i] == rows[b.i]
  {
    hide Shuffled, Splitting;
    EqualOnRight(Lines(rows), cmp, p, b);
    ShuffledBySwap(rows0, rows, b.hp + 1, b.j, b.lo, b.hi);
  }

  lemma MoveUp<T(!new)>(rows0: seq<Row<T>>, rows: seq<Row<T>>, cmp: (T, T) -> int, p: T, b: Bounds)
    requires InProgress(rows0, rows, cmp, p, b) && b.i == b.lp && b.hp < b.j && cmp(rows[b.j].line, p) < 0
    ensures InProgress(rows0, Cycled(rows, b.i, b.hp + 1, b.j), cmp, p,
                       b.(i := b.lp + 1, lp := b.lp + 1, hp := b.hp + 1))
  {
    hide Shuffled, Splitting, Swapped, Cycled;
    ShiftUp(Lines(rows), cmp, p, b);
    ShuffledByCycle(rows0, rows, b.i, b.hp + 1, b.j, b.lo, b.hi);
  }

  lemma MoveAcross<T(!new)>(rows0: seq<Row<T>>, rows: seq<Row<T>>, cmp: (T, T) -> int, p: T, b: Bounds)
    requires InProgress(rows0, rows, cmp, p, b) && b.i < b.lp && b.hp < b.j
    requires cmp(rows[b.i].line, p) > 0 && cmp(rows[b.j].line, p) < 0
    ensures InProgress(rows0, Swapped(rows, b.i, b.j), cmp, p, b.(i := b.i + 1, j := b.j - 1))
  {
    hide Shuffled, Splitting, Swapped, Cycled;
    CrossOver(Lines(rows), cmp, p, b);
    ShuffledBySwap(rows0, rows, b.i, b.j, b.lo, b.hi);
  }

  lemma MoveDown<T(!new)>(rows0: seq<Row<T>>, rows: seq<Row<T>>, cmp: (T, T) -> int, p: T, b: Bounds)
    requires InProgress(rows0, rows, cmp, p, b) && b.i < b.lp && b.j == b.hp && cmp(rows[b.i].line, p) > 0
    ensures InProgress(rows0, Cycled(rows, b.j, b.lp - 1, b.i), cmp, p,
                       b.(lp := b.lp - 1, hp := b.hp - 1, j := b.hp - 1))
  {
    hide Shuffled, Splitting, Swapped, Cycled;
    ShiftDown(Lines(rows), cmp, p, b);
    ShuffledByCycle(rows0, rows, b.j, b.lp - 1, b.i, b.lo, b.hi);
  }

  /** A row already on its side. */
  lemma StayPut<T(!new)>(rows0: seq<Row<T>>, rows: seq<Row<T>>, cmp: (T, T) -> int, p: T, b: Bounds)
    requires InProgress(rows0, rows, cmp, p, b)
    ensures b.i < b.lp && cmp(rows[b.i].line, p) < 0 ==> InProgress(rows0, rows, cmp, p, b.(i := b.i + 1))
    ensures b.hp < b.j && cmp(rows[b.j].line, p) > 0 ==> InProgress(rows0, rows, cmp, p, b.(j := b.j - 1))
  {
  }

  /** From the left end up to the equal range, or to the first row above the pivot. */
  method ScanLeft<T(!new)>(a: array<Row<T>>, cmp: (T, T) -> int, b0: Bounds, ghost rows0: seq<Row<T>>, ghost p: T)
      returns (b: Bounds)
    requires TotalPreorder(cmp) && InProgress(rows0, a[..], cmp, p, b0)
    modifies a
    ensures InProgress(rows0, a[..], cmp, p, b) && b.lo == b0.lo && b.hi == b0.hi
    ensures b.i < b.lp ==> cmp(a[b.i].line, p) > 0
    ensures Unknown(b) <= Unknown(b0)
  {
    hide TotalPreorder, Shuffled, Splitting, Cycled, Swapped;
    b := b0;
    while b.i < b.lp
      invariant InProgress(rows0, a[..], cmp, p, b) && b.lo == b0.lo && b.hi == b0.hi
      invariant Unknown(b) <= Unknown(b0)
      decreases b.lp - b.i
    {
      ghost var rows := a[..];
      CompareTells(rows0, rows, cmp, p, b, b.i, b.lp);
      var c := Compare(cmp, a[b.i], a[b.lp]);
      if c == 0 {
        MoveEqualLeft(rows0, rows, cmp, p, b);
        b := b.(lp := b.lp - 1);
        Exchange(a, b.i, b.lp);
      } else if c < 0 {
        StayPut(rows0, rows, cmp, p, b);
        b := b.(i := b.i + 1);
      } else {
        return;
      }
    }
  }

  /** Label `loop`: from the right end down to the equal range, or to the first exchange across it. */
  method ScanRight<T(!new)>(a: array<Row<T>>, cmp: (T, T) -> int, b0: Bounds, ghost rows0: seq<Row<T>>, ghost p: T)
      returns (b: Bounds, crossed: bool)
    requires TotalPreorder(cmp) && InProgress(rows0, a[..], cmp, p, b0)
    requires b0.i < b0.lp ==> cmp(a[b0.i].line, p) > 0
    modifies a
    ensures InProgress(rows0, a[..], cmp, p, b) && b.lo == b0.lo && b.hi == b0.hi
    ensures crossed ==> Unknown(b) < Unknown(b0)
    ensures !crossed ==> b.j == b.hp && (b.i < b.lp ==> cmp(a[b.i].line, p) > 0)
    ensures Unknown(b) <= Unknown(b0)
  {
    hide TotalPreorder, Shuffled, Splitting, Cycled, Swapped;
    b, crossed := b0, false;
    while b.j > b.hp
      invariant InProgress(rows0, a[..], cmp, p, b) && b.lo == b0.lo && b.hi == b0.hi
      invariant b.i < b.lp ==> cmp(a[b.i].line, p) > 0
      invariant Unknown(b) <= Unknown(b0)
      decreases b.j - b.hp
    {
      ghost var rows := a[..];
      CompareTells(rows0, rows, cmp, p, b, b.j, b.hp);
      var c := Compare(cmp, a[b.hp], a[b.j]);
      if c == 0 {
        MoveEqualRight(rows0, rows, cmp, p, b);
        b := b.(hp := b.hp + 1);
        Exchange(a, b.hp, b.j);
        assert b.i < b.lp ==> a[b.i] == a[..][b.i];
      } else if c > 0 {
        if b.i == b.lp {
          MoveUp(rows0, rows, cmp, p, b);
          b := b.(hp := b.hp + 1);
          Exchange3(a, b.i, b.hp, b.j);
          b := b.(lp := b.lp + 1, i := b.lp + 1);
        } else {
          MoveAcross(rows0, rows, cmp, p, b);
          Exchange(a, b.i, b.j);
          b := b.(j := b.j - 1, i := b.i + 1);
          return b, true;
        }
      } else {
        StayPut(rows0, rows, cmp, p, b);
        b := b.(j := b.j - 1);
      }
    }
  }

  lemma StartSplitting<T(!new)>(rows: seq<Row<T>>, cmp: (T, T) -> int, b: Bounds)
    requires TotalPreorder(cmp) && 0 <= b.lo == b.i <= b.lp == b.hp <= b.j == b.hi - 1 < |rows|
    requires AllLive(rows, b.lo, b.hi)
    ensures InProgress(rows, rows, cmp, rows[b.lp].line, b)
  {
    assert cmp(rows[b.lp].line, rows[b.lp].line) == 0;
  }

  /** The range lo..hi is below, equal to and above the row at `lp`. */
  ghost predicate Split<T(!new)>(t: seq<T>, cmp: (T, T) -> int, lo: int, lp: int, hp: int, hi: int) {
    0 <= lo <= lp <= hp < hi <= |t| &&
    Less(t, cmp, t[lp], lo, lp) && Equal(t, cmp, t[lp], lp, hp + 1) && Greater(t, cmp, t[lp], hp + 1, hi)
  }

  /** The outer loop. */
  method Partition<T(!new)>(a: array<Row<T>>, cmp: (T, T) -> int, lo: int, hi: int) returns (lp: int, hp: int)
    requires TotalPreorder(cmp) && 0 <= lo && lo + 2 <= hi <= a.Length && AllLive(a[..], lo, hi)
    modifies a
    ensures Shuffled(old(a[..]), a[..], lo, hi) && Split(Lines(a[..]), cmp, lo, lp, hp, hi)
    ensures lo <= lp <= hp < hi
  {
    hide TotalPreorder, AllLive, Shuffled, Splitting, Cycled, Swapped, Split, Lines;
    var mid := lo + (hi - lo) / 2;
    var b := Bounds(lo, lo, mid, mid, hi - 1, hi);
    ghost var rows0, p := a[..], a[mid].line;
    StartSplitting(rows0, cmp, b);
    while true
      invariant InProgress(rows0, a[..], cmp, p, b) && b.lo == lo && b.hi == hi
      decreases Unknown(b)
    {
      b := ScanLeft(a, cmp, b, rows0, p);
      var crossed;
      b, crossed := ScanRight(a, cmp, b, rows0, p);
      if crossed {
        continue;
      }
      ghost var rows := a[..];
      if b.i == b.lp {
        lp, hp := b.lp, b.hp;
        SamePivot(Lines(rows), cmp, p, b);
        return;
      }
      MoveDown(rows0, rows, cmp, p, b);
      b := b.(lp := b.lp - 1);
      Exchange3(a, b.j, b.lp, b.i);
      b := b.(hp := b.hp - 1, j := b.hp - 1);
    }
  }

  lemma SamePivot<T(!new)>(t: seq<T>, cmp: (T, T) -> int, p: T, b: Bounds)
    requires TotalPreorder(cmp) && Splitting(t, cmp, p, b) && b.i == b.lp && b.j == b.hp
    ensures Split(t, cmp, b.lo, b.lp, b.hp, b.hi)
  {
    forall k | b.lo <= k < b.hi
      ensures (cmp(t[k], t[b.lp]) < 0 <==> cmp(t[k], p) < 0) && (cmp(t[k], t[b.lp]) > 0 <==> cmp(t[k], p) > 0)
    {
      EqualSubstitutes(cmp, t[k], t[b.lp], p);
    }
  }

  // ----- The recursion

  /** With -u a row survives when it is the first of its class. */
  ghost predicate Survives<T(!new)>(t: seq<T>, cmp: (T, T) -> int, uflg: bool, lo: int, k: int)
    requires 0 <= lo <= k < |t|
  {
    uflg ==> k == lo || cmp(t[k - 1], t[k]) < 0
  }

  /** The range is in order, and exactly the surviving rows are live. */
  ghost predicate Done<T(!new)>(rows: seq<Row<T>>, cmp: (T, T) -> int, uflg: bool, lo: int, hi: int) {
    0 <= lo <= hi <= |rows| &&
    (forall x, y :: lo <= x < y < hi ==> cmp(rows[x].line, rows[y].line) <= 0) &&
    (forall k {:trigger Survives(Lines(rows), cmp, uflg, lo, k)} :: lo <= k < hi ==>
        (rows[k].live <==> Survives(Lines(rows), cmp, uflg, lo, k)))
  }

  /** Everything at lo..mid comes strictly before everything at mid..hi. */
  ghost predicate Below<T(!new)>(t: seq<T>, cmp: (T, T) -> int, lo: int, mid: int, hi: int) {
    0 <= lo <= mid <= hi <= |t| &&
    forall x, y :: lo <= x < mid <= y < hi ==> cmp(t[x], t[y]) < 0
  }

  lemma JoinDone<T(!new)>(rows: seq<Row<T>>, cmp: (T, T) -> int, uflg: bool, lo: int, mid: int, hi: int)
    requires Done(rows, cmp, uflg, lo, mid) && Done(rows, cmp, uflg, mid, hi) && Below(Lines(rows), cmp, lo, mid, hi)
    ensures Done(rows, cmp, uflg, lo, hi)
  {
    var t := Lines(rows);
    forall x, y | lo <= x < y < hi
      ensures cmp(rows[x].line, rows[y].line) <= 0
    {
      if x < mid <= y {
        assert cmp(t[x], t[y]) < 0;
      }
    }
    forall k | lo <= k < hi
      ensures rows[k].live <==> Survives(t, cmp, uflg, lo, k)
    {
      if k < mid {
        assert rows[k].live <==> Survives(t, cmp, uflg, lo, k);
      } else {
        assert rows[k].live <==> Survives(t, cmp, uflg, mid, k);
        assert k == mid && lo < mid ==> cmp(t[k - 1], t[k]) < 0;
      }
    }
  }

  /** Rearranging a range that the border does not cut keeps both sides apart. */
  lemma BelowKept<T(!new)>(s: seq<T>, t: seq<T>, cmp: (T, T) -> int, lo: int, mid: int, hi: int, u: int, v: int)
    requires Below(s, cmp, lo, mid, hi) && lo <= u <= v <= hi && Rearranged(s, t, u, v)
    requires v <= mid || mid <= u
    ensures Below(t, cmp, lo, mid, hi)
  {
    forall x, y | lo <= x < mid <= y < hi
      ensures cmp(t[x], t[y]) < 0
    {
      var x', y' := x, y;
      if u <= x < v { x' := FromRange(s, t, u, v, x); } else { SameOutside(s, t, u, v, x); }
      if u <= y < v { y' := FromRange(s, t, u, v, y); } else { SameOutside(s, t, u, v, y); }
      assert cmp(s[x'], s[y']) < 0;
    }
  }

  lemma DoneKept<T(!new)>(rows: seq<Row<T>>, rows': seq<Row<T>>, cmp: (T, T) -> int, uflg: bool, lo: int, hi: int,
        u: int, v: int)
    requires Done(rows, cmp, uflg, lo, hi) && UnchangedOutside(rows, rows', u, v) && (hi <= u || v <= lo)
    ensures Done(rows', cmp, uflg, lo, hi)
  {
    forall k | lo <= k < hi
      ensures rows'[k].live <==> Survives(Lines(rows'), cmp, uflg, lo, k)
    {
      assert rows[k].live <==> Survives(Lines(rows), cmp, uflg, lo, k);
    }
  }

  /** A split range: below, equal, above. */
  lemma SplitIsBelow<T(!new)>(t: seq<T>, cmp: (T, T) -> int, lo: int, lp: int, hp: int, hi: int)
    requires TotalPreorder(cmp) && Split(t, cmp, lo, lp, hp, hi)
    ensures Below(t, cmp, lo, lp, hi) && Below(t, cmp, lo, hp + 1, hi)
    ensures forall x, y :: lp <= x <= hp && lp <= y <= hp ==> cmp(t[x], t[y]) == 0
  {
    var p := t[lp];
    forall x, y | lo <= x < lp <= y < hi
      ensures cmp(t[x], t[y]) < 0
    {
      StrictThrough(cmp, t[x], p, t[y]);
    }
    forall x, y | lo <= x < hp + 1 <= y < hi
      ensures cmp(t[x], t[y]) < 0
    {
      StrictThrough(cmp, t[x], p, t[y]);
    }
    forall x, y | lp <= x <= hp && lp <= y <= hp
      ensures cmp(t[x], t[y]) == 0
    {
      EqualSubstitutes(cmp, t[x], t[y], p);
    }
  }

  /** The -u branch: all rows of the equal range but the first are blanked. */
  method BlankRepeats<T>(a: array<Row<T>>, lp: int, hp: int)
    requires 0 <= lp <= hp < a.Length
    modifies a
    ensures Lines(a[..]) == Lines(old(a[..])) && UnchangedOutside(old(a[..]), a[..], lp + 1, hp + 1)
    ensures forall k :: lp < k <= hp ==> !a[k].live
  {
    var k := lp + 1;
    while k <= hp
      invariant lp < k <= hp + 1
      invariant Lines(a[..]) == Lines(old(a[..])) && UnchangedOutside(old(a[..]), a[..], lp + 1, hp + 1)
      invariant forall i :: lp < i < k ==> !a[i].live
    {
      a[k] := Row(a[k].line, false);
      k := k + 1;
    }
  }

  /** The loop around the tail call: lo..hi is still to be sorted, the rest of lo0..hi0 is done. */
  ghost predicate Framed<T(!new)>(rows0: seq<Row<T>>, rows: seq<Row<T>>, cmp: (T, T) -> int, uflg: bool,
                                  lo0: int, lo: int, hi: int, hi0: int) {
    0 <= lo0 <= lo <= hi <= hi0 <= |rows| == |rows0| &&
    Rearranged(Lines(rows0), Lines(rows), lo0, hi0) && UnchangedOutside(rows0, rows, lo0, hi0) &&
    Done(rows, cmp, uflg, lo0, lo) && Done(rows, cmp, uflg, hi, hi0) &&
    Below(Lines(rows), cmp, lo0, lo, hi0) && Below(Lines(rows), cmp, lo0, hi, hi0)
  }

  lemma FramedAfterShuffle<T(!new)>(rows0: seq<Row<T>>, rows: seq<Row<T>>, rows': seq<Row<T>>, cmp: (T, T) -> int,
                                    uflg: bool, lo0: int, lo: int, hi: int, hi0: int)
    requires Framed(rows0, rows, cmp, uflg, lo0, lo, hi, hi0)
    requires Rearranged(Lines(rows), Lines(rows'), lo, hi) && UnchangedOutside(rows, rows', lo, hi)
    ensures Framed(rows0, rows', cmp, uflg, lo0, lo, hi, hi0)
  {
    hide Rearranged, Done, Below;
    DoneKept(rows, rows', cmp, uflg, lo0, lo, lo, hi);
    DoneKept(rows, rows', cmp, uflg, hi, hi0, lo, hi);
    BelowKept(Lines(rows), Lines(rows'), cmp, lo0, lo, hi0, lo, hi);
    BelowKept(Lines(rows), Lines(rows'), cmp, lo0, hi, hi0, lo, hi);
    WidenRearranged(Lines(rows), Lines(rows'), lo, hi, lo0, hi0);
    RearrangedTrans(Lines(rows0), Lines(rows), Lines(rows'), lo0, hi0);
  }

  lemma RearrangedTrans<T>(s: seq<T>, t: seq<T>, u: seq<T>, lo: nat, hi: nat)
    requires Rearranged(s, t, lo, hi) && Rearranged(t, u, lo, hi)
    ensures Rearranged(s, u, lo, hi)
  {
  }

  /** Three done pieces, kept apart, and what lies before them. */
  lemma Narrow<T(!new)>(t: seq<T>, cmp: (T, T) -> int, lo0: int, lo: int, mid: int, hi: int, hi0: int)
    requires Below(t, cmp, lo0, lo, hi0) && Below(t, cmp, lo0, hi, hi0) && Below(t, cmp, lo, mid, hi)
    ensures Below(t, cmp, lo0, mid, hi0)
  {
    forall x, y | lo0 <= x < mid <= y < hi0
      ensures cmp(t[x], t[y]) < 0
    {
    }
  }

  lemma BelowSub<T(!new)>(t: seq<T>, cmp: (T, T) -> int, lo: int, mid: int, hi: int, lo': int, hi': int)
    requires Below(t, cmp, lo, mid, hi) && lo <= lo' <= mid <= hi' <= hi
    ensures Below(t, cmp, lo', mid, hi')
  {
  }

  /** The state after the equal range lp..hp has been blanked. */
  ghost predicate FramedSplit<T(!new)>(rows0: seq<Row<T>>, rows: seq<Row<T>>, cmp: (T, T) -> int, uflg: bool,
                                       lo0: int, lo: int, lp: int, hp: int, hi: int, hi0: int) {
    lo <= lp <= hp < hi && Framed(rows0, rows, cmp, uflg, lo0, lo, hi, hi0) &&
    Done(rows, cmp, uflg, lp, hp + 1) &&
    Below(Lines(rows), cmp, lo, lp, hi) && Below(Lines(rows), cmp, lo, hp + 1, hi)
  }

  lemma WidenUnchanged<T>(rows: seq<Row<T>>, rows': seq<Row<T>>, u: int, v: int, lo: int, hi: int)
    requires UnchangedOutside(rows, rows', u, v) && lo <= u && v <= hi
    ensures UnchangedOutside(rows, rows', lo, hi)
  {
  }

  /** The upper part has been sorted by the recursive call. */
  lemma UpperDone<T(!new)>(rows0: seq<Row<T>>, rows: seq<Row<T>>, rows': seq<Row<T>>, cmp: (T, T) -> int, uflg: bool,
                           lo0: int, lo: int, lp: int, hp: int, hi: int, hi0: int)
    requires FramedSplit(rows0, rows, cmp, uflg, lo0, lo, lp, hp, hi, hi0)
    requires Rearranged(Lines(rows), Lines(rows'), hp + 1, hi) && UnchangedOutside(rows, rows', hp + 1, hi)
    requires Done(rows', cmp, uflg, hp + 1, hi)
    ensures Framed(rows0, rows', cmp, uflg, lo0, lo, lp, hi0)
  {
    hide Rearranged, Done, Below, Lines, UnchangedOutside;
    var t, t' := Lines(rows), Lines(rows');
    WidenUnchanged(rows, rows', hp + 1, hi, lo, hi);
    WidenRearranged(t, t', hp + 1, hi, lo, hi);
    FramedAfterShuffle(rows0, rows, rows', cmp, uflg, lo0, lo, hi, hi0);
    BelowKept(t, t', cmp, lo, lp, hi, hp + 1, hi);
    BelowKept(t, t', cmp, lo, hp + 1, hi, hp + 1, hi);
    DoneKept(rows, rows', cmp, uflg, lp, hp + 1, hp + 1, hi);
    Narrow(t', cmp, lo0, lo, lp, hi, hi0);
    BelowSub(t', cmp, lo, hp + 1, hi, lp, hi);
    BelowSub(t', cmp, lo0, hi, hi0, lp, hi0);
    JoinDone(rows', cmp, uflg, lp, hp + 1, hi);
    JoinDone(rows', cmp, uflg, lp, hi, hi0);
  }

  /** The lower part has been sorted by the recursive call. */
  lemma LowerDone<T(!new)>(rows0: seq<Row<T>>, rows: seq<Row<T>>, rows': seq<Row<T>>, cmp: (T, T) -> int, uflg: bool,
                           lo0: int, lo: int, lp: int, hp: int, hi: int, hi0: int)
    requires FramedSplit(rows0, rows, cmp, uflg, lo0, lo, lp, hp, hi, hi0)
    requires Rearranged(Lines(rows), Lines(rows'), lo, lp) && UnchangedOutside(rows, rows', lo, lp)
    requires Done(rows', cmp, uflg, lo, lp)
    ensures Framed(rows0, rows', cmp, uflg, lo0, hp + 1, hi, hi0)
  {
    hide Rearranged, Done, Below, Lines, UnchangedOutside;
    var t, t' := Lines(rows), Lines(rows');
    WidenUnchanged(rows, rows', lo, lp, lo, hi);
    WidenRearranged(t, t', lo, lp, lo, hi);
    FramedAfterShuffle(rows0, rows, rows', cmp, uflg, lo0, lo, hi, hi0);
    BelowKept(t, t', cmp, lo, lp, hi, lo, lp);
    BelowKept(t, t', cmp, lo, hp + 1, hi, lo, lp);
    DoneKept(rows, rows', cmp, uflg, lp, hp + 1, lo, lp);
    Narrow(t', cmp, lo0, lo, hp + 1, hi, hi0);
    BelowSub(t', cmp, lo, lp, hi, lo, hp + 1);
    BelowSub(t', cmp, lo0, lo, hi0, lo0, hp + 1);
    JoinDone(rows', cmp, uflg, lo, lp, hp + 1);
    JoinDone(rows', cmp, uflg, lo0, lo, hp + 1);
  }

  /** Partition and blanking leave a split range whose two outer parts are live. */
  lemma SplitAndBlanked<T(!new)>(rows0: seq<Row<T>>, rows: seq<Row<T>>, split: seq<Row<T>>, blanked: seq<Row<T>>,
                                 cmp: (T, T) -> int, uflg: bool,
                                 lo0: int, lo: int, lp: int, hp: int, hi: int, hi0: int)
    requires TotalPreorder(cmp) && Framed(rows0, rows, cmp, uflg, lo0, lo, hi, hi0)
    requires Shuffled(rows, split, lo, hi) && Split(Lines(split), cmp, lo, lp, hp, hi)
    requires Lines(blanked) == Lines(split) && UnchangedOutside(split, blanked, lp + 1, hp + 1)
    requires forall k :: lp < k <= hp ==> blanked[k].live == !uflg
    ensures FramedSplit(rows0, blanked, cmp, uflg, lo0, lo, lp, hp, hi, hi0)
    ensures AllLive(blanked, lo, lp) && AllLive(blanked, hp + 1, hi)
  {
    SplitIsBelow(Lines(split), cmp, lo, lp, hp, hi);
    FramedAfterShuffle(rows0, rows, split, cmp, uflg, lo0, lo, hi, hi0);
    FramedAfterShuffle(rows0, split, blanked, cmp, uflg, lo0, lo, hi, hi0);
    EqualRangeDone(blanked, cmp, uflg, lp, hp);
  }

  lemma EqualRangeDone<T(!new)>(rows: seq<Row<T>>, cmp: (T, T) -> int, uflg: bool, lp: int, hp: int)
    requires 0 <= lp <= hp < |rows| && rows[lp].live
    requires forall x, y :: lp <= x <= hp && lp <= y <= hp ==> cmp(Lines(rows)[x], Lines(rows)[y]) == 0
    requires forall k :: lp < k <= hp ==> rows[k].live == !uflg
    ensures Done(rows, cmp, uflg, lp, hp + 1)
  {
    var t := Lines(rows);
    forall k | lp <= k < hp + 1
      ensures rows[k].live <==> Survives(t, cmp, uflg, lp, k)
    {
      if lp < k {
        assert cmp(t[k - 1], t[k]) == 0;
      }
    }
    forall x, y | lp <= x < y < hp + 1
      ensures cmp(rows[x].line, rows[y].line) <= 0
    {
      assert cmp(t[x], t[y]) == 0;
    }
  }

  /** One more level over at most half of the rows. */
  lemma DeeperByOne(depth: nat, part: int, whole: int)
    requires 2 <= whole && 0 <= part && 2 * part <= whole - 1
    requires if 0 < part then Pow2(depth) <= part else depth == 0
    ensures Pow2(depth + 1) <= whole
  {
  }

  /** Partition of the range, then the -u branch. */
  method SplitRange<T(!new)>(a: array<Row<T>>, cmp: (T, T) -> int, uflg: bool, lo: int, hi: int,
                             ghost rows0: seq<Row<T>>, ghost lo0: int, ghost hi0: int) returns (lp: int, hp: int)
    requires TotalPreorder(cmp) && 2 <= hi - lo
    requires Framed(rows0, a[..], cmp, uflg, lo0, lo, hi, hi0) && AllLive(a[..], lo, hi)
    modifies a
    ensures FramedSplit(rows0, a[..], cmp, uflg, lo0, lo, lp, hp, hi, hi0)
    ensures AllLive(a[..], lo, lp) && AllLive(a[..], hp + 1, hi)
  {
    hide TotalPreorder, Rearranged, AllLive, Done, Below, Shuffled, Split, Lines;
    ghost var rows := a[..];
    lp, hp := Partition(a, cmp, lo, hi);
    ghost var split := a[..];
    StillLive(rows, split, lo, hi, lp, hp);
    if uflg {
      BlankRepeats(a, lp, hp);
    }
    assert forall k :: lp < k <= hp ==> a[..][k].live == !uflg;
    SplitAndBlanked(rows0, rows, split, a[..], cmp, uflg, lo0, lo, lp, hp, hi, hi0);
  }

  /**
   `qusort` on the rows lo0..hi0.  The range ends up in order and is a rearrangement of what
   it was; with -u exactly one row of each class of equal lines survives.  The recursion is
   at most logarithmically deep.
   */
  method Sort<T(!new)>(a: array<Row<T>>, cmp: (T, T) -> int, uflg: bool, lo0: int, hi0: int) returns (ghost depth: nat)
    requires TotalPreorder(cmp) && 0 <= lo0 <= hi0 <= a.Length && AllLive(a[..], lo0, hi0)
    modifies a
    ensures Done(a[..], cmp, uflg, lo0, hi0)
    ensures Rearranged(Lines(old(a[..])), Lines(a[..]), lo0, hi0)
    ensures UnchangedOutside(old(a[..]), a[..], lo0, hi0)
    ensures if lo0 < hi0 then Pow2(depth) <= hi0 - lo0 else depth == 0
    decreases hi0 - lo0
  {
    hide TotalPreorder, Rearranged, UnchangedOutside, AllLive, Done, Below, Lines;
    var lo, hi := lo0, hi0;
    depth := 0;
    ghost var rows0 := a[..];
    StartFramed(rows0, cmp, uflg, lo0, hi0);
    while hi - lo > 1
      invariant Framed(rows0, a[..], cmp, uflg, lo0, lo, hi, hi0) && AllLive(a[..], lo, hi)
      invariant if lo0 < hi0 then Pow2(depth) <= hi0 - lo0 else depth == 0
      decreases hi - lo
    {
      var lp, hp := SplitRange(a, cmp, uflg, lo, hi, rows0, lo0, hi0);
      ghost var blanked := a[..];
      ghost var d;
      if lp - lo >= hi - hp {
        d := Sort(a, cmp, uflg, hp + 1, hi);
        UpperDone(rows0, blanked, a[..], cmp, uflg, lo0, lo, lp, hp, hi, hi0);
        LiveKept(blanked, a[..], lo, lp, hp + 1, hi);
        DeeperByOne(d, hi - hp - 1, hi - lo);
        hi := lp;
      } else {
        d := Sort(a, cmp, uflg, lo, lp);
        LowerDone(rows0, blanked, a[..], cmp, uflg, lo0, lo, lp, hp, hi, hi0);
        LiveKept(blanked, a[..], hp + 1, hi, lo, lp);
        DeeperByOne(d, lp - lo, hi - lo);
        lo := hp + 1;
      }
      if d + 1 > depth { depth := d + 1; }
    }
    FinishFramed(rows0, a[..], cmp, uflg, lo0, lo, hi, hi0);
  }

  lemma StartFramed<T(!new)>(rows: seq<Row<T>>, cmp: (T, T) -> int, uflg: bool, lo: int, hi: int)
    requires 0 <= lo <= hi <= |rows|
    ensures Framed(rows, rows, cmp, uflg, lo, lo, hi, hi)
  {
  }

  lemma StillLive<T>(rows: seq<Row<T>>, split: seq<Row<T>>, lo: int, hi: int, lp: int, hp: int)
    requires Shuffled(rows, split, lo, hi) && lo <= lp <= hp < hi
    ensures UnchangedOutside(split, split, lp + 1, hp + 1)
    ensures forall k :: lp < k <= hp ==> split[k].live
  {
  }

  lemma LiveKept<T>(rows: seq<Row<T>>, rows': seq<Row<T>>, lo: int, hi: int, u: int, v: int)
    requires 0 <= lo && hi <= |rows| && AllLive(rows, lo, hi)
    requires UnchangedOutside(rows, rows', u, v) && (hi <= u || v <= lo)
    ensures AllLive(rows', lo, hi)
  {
  }

  /** At most one row is left: it is in place. */
  lemma FinishFramed<T(!new)>(rows0: seq<Row<T>>, rows: seq<Row<T>>, cmp: (T, T) -> int, uflg: bool,
                              lo0: int, lo: int, hi: int, hi0: int)
    requires Framed(rows0, rows, cmp, uflg, lo0, lo, hi, hi0) && hi - lo <= 1 && AllLive(rows, lo, hi)
    ensures Done(rows, cmp, uflg, lo0, hi0)
    ensures Rearranged(Lines(rows0), Lines(rows), lo0, hi0) && UnchangedOutside(rows0, rows, lo0, hi0)
  {
    assert Done(rows, cmp, uflg, lo, hi);
    BelowSub(Lines(rows), cmp, lo0, lo, hi0, lo0, hi);
    JoinDone(rows, cmp, uflg, lo0, lo, hi);
    JoinDone(rows, cmp, uflg, lo0, hi, hi0);
  }

  /** A live row is strictly after every row before it. */
  lemma LiveRowIsNew<T(!new)>(rows: seq<Row<T>>, cmp: (T, T) -> int, lo: int, hi: int, x: int, y: int)
    requires TotalPreorder(cmp) && Done(rows, cmp, true, lo, hi) && lo <= x < y < hi && rows[y].live
    ensures cmp(rows[x].line, rows[y].line) < 0
  {
    hide TotalPreorder;
    assert rows[y].live <==> Survives(Lines(rows), cmp, true, lo, y);
    assert cmp(rows[y - 1].line, rows[y].line) < 0;
    if x < y - 1 {
      assert cmp(rows[x].line, rows[y - 1].line) <= 0;
      StrictThrough(cmp, rows[x].line, rows[y - 1].line, rows[y].line);
    }
  }

  /** With -u every class of equal lines keeps one live row ... */
  lemma {:induction false} SomeSurvivor<T(!new)>(rows: seq<Row<T>>, cmp: (T, T) -> int, lo: int, hi: int, k: int)
        returns (j: int)
    requires TotalPreorder(cmp) && Done(rows, cmp, true, lo, hi) && lo <= k < hi
    ensures lo <= j <= k && rows[j].live && cmp(rows[j].line, rows[k].line) == 0
    decreases k - lo
  {
    assert rows[k].live <==> Survives(Lines(rows), cmp, true, lo, k);
    if rows[k].live {
      j := k;
      assert cmp(rows[k].line, rows[k].line) == 0;
    } else {
      hide TotalPreorder;
      assert cmp(rows[k - 1].line, rows[k].line) == 0;
      hide Done;
      j := SomeSurvivor(rows, cmp, lo, hi, k - 1);
      EqualSubstitutes(cmp, rows[j].line, rows[k - 1].line, rows[k].line);
    }
  }

  /** ... and only one. */
  lemma OnlySurvivor<T(!new)>(rows: seq<Row<T>>, cmp: (T, T) -> int, lo: int, hi: int, i: int, j: int)
    requires TotalPreorder(cmp) && Done(rows, cmp, true, lo, hi) && lo <= i < hi && lo <= j < hi
    requires rows[i].live && rows[j].live && i != j
    ensures cmp(rows[i].line, rows[j].line) != 0
  {
    assert cmp(rows[i].line, rows[j].line) < 0 <==> cmp(rows[j].line, rows[i].line) > 0;
    assert cmp(rows[j].line, rows[i].line) < 0 <==> cmp(rows[i].line, rows[j].line) > 0;
    hide TotalPreorder, Done;
    if i < j {
      LiveRowIsNew(rows, cmp, lo, hi, i, j);
    } else {
      LiveRowIsNew(rows, cmp, lo, hi, j, i);
    }
  }
}
