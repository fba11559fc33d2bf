/**
 The external part of `sort`: chunks of input sorted in memory and written as runs, the
 k-way `merge` that keeps its head lines in order by insertion, and the passes that merge
 seven files at a time.  `qusort` sorts upwards and files are written from the top, so the
 order of the output is the reverse of the comparison.
 */
module MergeSort {
  import opened Order
  import opened QuSort

  const N: int := 7

  ghost predicate Descending<T(!new)>(s: seq<T>, cmp: (T, T) -> int) {
    forall x, y :: 0 <= x < y < |s| ==> cmp(s[x], s[y]) >= 0
  }

  /** An input file of `merge`: the line read from it last and the lines not yet read. */
  datatype Head<T> = Head(line: T, rest: seq<T>)

  function ByLine<T>(cmp: (T, T) -> int): (Head<T>, Head<T>) -> int {
    (x: Head<T>, y: Head<T>) => cmp(x.line, y.line)
  }

  ghost predicate Ascending<T(!new)>(hs: seq<Head<T>>, cmp: (T, T) -> int) {
    forall x, y :: 0 <= x < y < |hs| ==> cmp(hs[x].line, hs[y].line) <= 0
  }

  ghost function Unread<T>(h: Head<T>): multiset<T> {
    multiset{h.line} + multiset(h.rest)
  }

  ghost function Pending<T>(hs: seq<Head<T>>): multiset<T> {
    if hs == [] then multiset{} else Pending(hs[..|hs| - 1]) + Unread(hs[|hs| - 1])
  }

  /** All lines of some files. */
  ghost function Total<T>(files: seq<seq<T>>): multiset<T> {
    if files == [] then multiset{} else Total(files[..|files| - 1]) + multiset(files[|files| - 1])
  }

  // ----- Nothing is lost

  function RemovedAt<T>(s: seq<T>, k: nat): seq<T>
    requires k < |s|
  {
    s[..k] + s[k + 1..]
  }

  lemma RemovedAtThenLast<T>(s: seq<T>, k: nat)
    requires k < |s| - 1
    ensures RemovedAt(s, k) == RemovedAt(s[..|s| - 1], k) + [s[|s| - 1]]
  {
  }

  lemma PendingSnoc<T>(hs: seq<Head<T>>, h: Head<T>)
    ensures Pending(hs + [h]) == Pending(hs) + Unread(h)
  {
    assert (hs + [h])[..|hs|] == hs;
  }

  lemma {:induction false} PendingRemove<T>(hs: seq<Head<T>>, k: nat)
    requires k < |hs|
    ensures Pending(hs) == Pending(RemovedAt(hs, k)) + Unread(hs[k])
    decreases |hs|
  {
    if k < |hs| - 1 {
      PendingRemove(hs[..|hs| - 1], k);
      PendingRemoveStep(hs, k);
    } else {
      PendingSnoc(hs[..k], hs[k]);
      assert hs == hs[..k] + [hs[k]];
      assert RemovedAt(hs, k) == hs[..k];
    }
  }

  lemma PendingRemoveStep<T>(hs: seq<Head<T>>, k: nat)
    requires k < |hs| - 1
    requires Pending(hs[..|hs| - 1]) == Pending(RemovedAt(hs[..|hs| - 1], k)) + Unread(hs[k])
    ensures Pending(hs) == Pending(RemovedAt(hs, k)) + Unread(hs[k])
  {
    hide Pending, Unread, RemovedAt;
    var n := |hs| - 1;
    RemovedAtThenLast(hs, k);
    PendingSnoc(RemovedAt(hs[..n], k), hs[n]);
    PendingSnoc(hs[..n], hs[n]);
    assert hs == hs[..n] + [hs[n]];
    UnionShuffle(Pending(RemovedAt(hs[..n], k)), Unread(hs[k]), Unread(hs[n]));
  }

  /** The order of the heads does not matter. */
  lemma {:induction false} PendingOfRearranged<T>(s: seq<Head<T>>, t: seq<Head<T>>)
    requires multiset(s) == multiset(t)
    ensures Pending(s) == Pending(t)
    decreases |s|
  {
    if s == [] {
      assert |multiset(t)| == 0;
      assert t == [];
    } else {
      var n := |s| - 1;
      assert s[..n] + s[n + 1..] == s[..n];
      MultisetRemoveAt(s, n);
      assert s[n] in multiset(t);
      var k :| 0 <= k < |t| && t[k] == s[n];
      var u := RemovedAt(t, k);
      MultisetRemoveAt(t, k);
      MultisetCancel(multiset(s[..n]), multiset(u), s[n]);
      PendingOfRearranged(s[..n], u);
      PendingRemove(t, k);
    }
  }

  lemma TotalSnoc<T>(fs: seq<seq<T>>, f: seq<T>)
    ensures Total(fs + [f]) == Total(fs) + multiset(f)
  {
    assert (fs + [f])[..|fs|] == fs;
  }

  lemma {:induction false} TotalSplits<T>(fs: seq<seq<T>>, gs: seq<seq<T>>)
    ensures Total(fs + gs) == Total(fs) + Total(gs)
    decreases |gs|
  {
    if gs == [] {
      assert fs + gs == fs;
    } else {
      TotalSplits(fs, gs[..|gs| - 1]);
      TotalSplitsStep(fs, gs[..|gs| - 1], gs[|gs| - 1]);
      assert gs == gs[..|gs| - 1] + [gs[|gs| - 1]];
    }
  }

  lemma TotalSplitsStep<T>(fs: seq<seq<T>>, gs: seq<seq<T>>, g: seq<T>)
    requires Total(fs + gs) == Total(fs) + Total(gs)
    ensures Total(fs + (gs + [g])) == Total(fs) + Total(gs + [g])
  {
    hide Total;
    TotalSnoc(fs + gs, g);
    TotalSnoc(gs, g);
    assert fs + (gs + [g]) == fs + gs + [g];
    UnionShuffle(Total(fs), Total(gs), multiset(g));
  }

  // ----- Order

  lemma ReversedTransitive<T(!new)>(cmp: (T, T) -> int, x: T, y: T, z: T)
    requires TotalPreorder(cmp) && cmp(x, y) >= 0 && cmp(y, z) >= 0
    ensures cmp(x, z) >= 0
  {
    assert cmp(y, x) <= 0 && cmp(z, y) <= 0;
    assert cmp(z, x) <= 0;
  }

  lemma ByLineIsPreorder<T(!new)>(cmp: (T, T) -> int)
    requires TotalPreorder(cmp)
    ensures TotalPreorder(ByLine(cmp))
  {
    var c := ByLine(cmp);
    assert forall x: Head<T>, y: Head<T> :: c(x, y) == cmp(x.line, y.line);
    forall x: Head<T>, y: Head<T>
      ensures c(x, y) < 0 <==> c(y, x) > 0
    {
      assert cmp(x.line, y.line) < 0 <==> cmp(y.line, x.line) > 0;
    }
    forall x: Head<T>, y: Head<T>, z: Head<T> | c(x, y) <= 0 && c(y, z) <= 0
      ensures c(x, z) <= 0
    {
      assert cmp(x.line, y.line) <= 0 && cmp(y.line, z.line) <= 0;
    }
  }

  /** The file is in output order and nothing in it belongs before what has been written. */
  ghost predicate HeadFits<T(!new)>(out: seq<T>, h: Head<T>, cmp: (T, T) -> int) {
    (forall x :: 0 <= x < |out| ==> cmp(out[x], h.line) >= 0) && Descending([h.line] + h.rest, cmp)
  }

  ghost predicate Fits<T(!new)>(out: seq<T>, hs: seq<Head<T>>, cmp: (T, T) -> int) {
    Descending(out, cmp) && forall k :: 0 <= k < |hs| ==> HeadFits(out, hs[k], cmp)
  }

  lemma FitsOfRearranged<T(!new)>(out: seq<T>, s: seq<Head<T>>, t: seq<Head<T>>, cmp: (T, T) -> int)
    requires Fits(out, s, cmp) && multiset(s) == multiset(t)
    ensures Fits(out, t, cmp)
  {
    forall k | 0 <= k < |t|
      ensures HeadFits(out, t[k], cmp)
    {
      assert t[k] in multiset(t);
      assert t[k] in s;
    }
  }

  /** The heads after the top line has been written and the next one read. */
  ghost function AfterEmit<T>(hs: seq<Head<T>>): seq<Head<T>>
    requires 0 < |hs|
  {
    var h := hs[|hs| - 1];
    if h.rest == [] then hs[..|hs| - 1] else hs[..|hs| - 1] + [Head(h.rest[0], h.rest[1..])]
  }

  lemma EmitConserves<T>(out: seq<T>, hs: seq<Head<T>>)
    requires 0 < |hs|
    ensures multiset(out + [hs[|hs| - 1].line]) + Pending(AfterEmit(hs)) == multiset(out) + Pending(hs)
  {
    var n := |hs| - 1;
    var h := hs[n];
    var before := Pending(hs[..n]);
    assert multiset(out + [h.line]) == multiset(out) + multiset{h.line};
    if h.rest == [] {
      EmitLast(h);
      UnionShuffle(multiset(out), multiset{h.line}, before);
      UnionShuffle(multiset(out), before, multiset{h.line});
    } else {
      var h' := Head(h.rest[0], h.rest[1..]);
      EmitNext(h);
      assert AfterEmit(hs)[..n] == hs[..n];
      hide Unread;
      EmitAlgebra(multiset(out), multiset{h.line}, before, Unread(h'));
    }
  }

  lemma EmitLast<T>(h: Head<T>)
    requires h.rest == []
    ensures Unread(h) == multiset{h.line}
  {
  }

  lemma EmitNext<T>(h: Head<T>)
    requires h.rest != []
    ensures Unread(h) == multiset{h.line} + Unread(Head(h.rest[0], h.rest[1..]))
  {
    assert h.rest == [h.rest[0]] + h.rest[1..];
  }

  lemma EmitAlgebra<T>(a: multiset<T>, b: multiset<T>, c: multiset<T>, d: multiset<T>)
    ensures (a + b) + (c + d) == a + (c + (b + d))
  {
  }

  lemma EmitFits<T(!new)>(out: seq<T>, hs: seq<Head<T>>, cmp: (T, T) -> int)
    requires TotalPreorder(cmp) && 0 < |hs| && Ascending(hs, cmp) && Fits(out, hs, cmp)
    ensures Fits(out + [hs[|hs| - 1].line], AfterEmit(hs), cmp)
  {
    var n := |hs| - 1;
    var h := hs[n];
    var out' := out + [h.line];
    assert HeadFits(out, h, cmp);
    forall k | 0 <= k < |AfterEmit(hs)|
      ensures HeadFits(out', AfterEmit(hs)[k], cmp)
    {
      if k < n {
        OtherHeadFits(out, hs, cmp, k);
      } else {
        NextHeadFits(out, h, cmp);
      }
    }
  }

  lemma OtherHeadFits<T(!new)>(out: seq<T>, hs: seq<Head<T>>, cmp: (T, T) -> int, k: nat)
    requires TotalPreorder(cmp) && k < |hs| - 1 && Ascending(hs, cmp) && Fits(out, hs, cmp)
    ensures HeadFits(out + [hs[|hs| - 1].line], hs[k], cmp)
  {
    assert HeadFits(out, hs[k], cmp);
    assert cmp(hs[k].line, hs[|hs| - 1].line) <= 0;
    assert cmp(hs[|hs| - 1].line, hs[k].line) >= 0;
  }

  lemma NextHeadFits<T(!new)>(out: seq<T>, h: Head<T>, cmp: (T, T) -> int)
    requires TotalPreorder(cmp) && HeadFits(out, h, cmp) && h.rest != []
    ensures HeadFits(out + [h.line], Head(h.rest[0], h.rest[1..]), cmp)
  {
    var s := [h.line] + h.rest;
    assert cmp(s[0], s[1]) >= 0;
    assert [h.rest[0]] + h.rest[1..] == s[1..];
    forall x | 0 <= x < |out|
      ensures cmp(out[x], h.rest[0]) >= 0
    {
      ReversedTransitive(cmp, out[x], h.line, h.rest[0]);
    }
  }

  // ----- merge

  ghost function HeadsOf<T>(rows: seq<Row<Head<T>>>, n: int): seq<Head<T>>
    requires 0 <= n <= |rows|
  {
    Lines(rows)[..n]
  }

  ghost function Heads<T>(ibuf: array<Row<Head<T>>>, n: int): seq<Head<T>>
    requires 0 <= n <= ibuf.Length
    reads ibuf
  {
    HeadsOf(ibuf[..], n)
  }

  /** The heads of the files that are not empty. */
  ghost function OpenHeads<T>(files: seq<seq<T>>): (hs: seq<Head<T>>)
    ensures |hs| <= |files|
  {
    if files == [] then []
    else
      var f := files[|files| - 1];
      OpenHeads(files[..|files| - 1]) + if f == [] then [] else [Head(f[0], f[1..])]
  }

  lemma UnreadIsFile<T>(f: seq<T>)
    requires f != []
    ensures Unread(Head(f[0], f[1..])) == multiset(f)
  {
    assert f == [f[0]] + f[1..];
  }

  lemma {:induction false} OpenHeadsHoldAll<T>(files: seq<seq<T>>)
    ensures Pending(OpenHeads(files)) == Total(files)
  {
    if files != [] {
      var n := |files| - 1;
      var f := files[n];
      OpenHeadsHoldAll(files[..n]);
      if f == [] {
        assert OpenHeads(files) == OpenHeads(files[..n]);
      } else {
        UnreadIsFile(f);
        hide Unread;
        PendingSnoc(OpenHeads(files[..n]), Head(f[0], f[1..]));
      }
    }
  }

  ghost predicate AllDescending<T(!new)>(files: seq<seq<T>>, cmp: (T, T) -> int) {
    forall k :: 0 <= k < |files| ==> Descending(files[k], cmp)
  }

  lemma {:induction false} OpenHeadsFit<T(!new)>(files: seq<seq<T>>, cmp: (T, T) -> int)
    requires AllDescending(files, cmp)
    ensures Fits([], OpenHeads(files), cmp)
  {
    if files != [] {
      var n := |files| - 1;
      var f := files[n];
      OpenHeadsFit(files[..n], cmp);
      if f != [] {
        assert [f[0]] + f[1..] == f;
        assert HeadFits([], Head(f[0], f[1..]), cmp);
      }
    }
  }

  /** Opens the files and reads the first line of each; empty files drop out. */
  method OpenFiles<T>(files: seq<seq<T>>, ibuf: array<Row<Head<T>>>) returns (j: int)
    requires ibuf.Length == |files|
    modifies ibuf
    ensures 0 <= j <= |files| && AllLive(ibuf[..], 0, j)
    ensures Heads(ibuf, j) == OpenHeads(files)
  {
    j := 0;
    for i := 0 to |files|
      invariant 0 <= j <= i && AllLive(ibuf[..], 0, j)
      invariant Heads(ibuf, j) == OpenHeads(files[..i])
    {
      assert files[..i + 1][..i] == files[..i];
      if files[i] != [] {
        ghost var hs := Heads(ibuf, j);
        ibuf[j] := Row(Head(files[i][0], files[i][1..]), true);
        j := j + 1;
        assert Heads(ibuf, j) == hs + [Head(files[i][0], files[i][1..])];
      }
    }
    assert files[..|files|] == files;
  }

  /** `merge` moves the top head down to its place. */
  method InsertTop<T(!new)>(ibuf: array<Row<Head<T>>>, n: int, cmp: (T, T) -> int)
    requires TotalPreorder(cmp) && 0 < n <= ibuf.Length && AllLive(ibuf[..], 0, n)
    requires Ascending(Heads(ibuf, n - 1), cmp)
    modifies ibuf
    ensures AllLive(ibuf[..], 0, n) && Ascending(Heads(ibuf, n), cmp)
    ensures multiset(Heads(ibuf, n)) == multiset(old(Heads(ibuf, n)))
  {
    hide TotalPreorder, Ascending, AscendingBut, Swapped, AllLive, HeadsOf, Lines;
    var ip := n - 1;
    ghost var hs0 := HeadsOf(ibuf[..], n);
    TopIsLoose(ibuf[..], n, cmp);
    while ip > 0 && cmp(ibuf[ip].line.line, ibuf[ip - 1].line.line) < 0
      invariant 0 <= ip < n && AllLive(ibuf[..], 0, n)
      invariant AscendingBut(HeadsOf(ibuf[..], n), cmp, ip)
      invariant multiset(HeadsOf(ibuf[..], n)) == multiset(hs0)
    {
      StepDown(ibuf[..], n, cmp, ip);
      Exchange(ibuf, ip, ip - 1);
      ip := ip - 1;
    }
    InPlace(ibuf[..], n, cmp, ip);
  }

  lemma TopIsLoose<T(!new)>(rows: seq<Row<Head<T>>>, n: int, cmp: (T, T) -> int)
    requires 0 < n <= |rows| && Ascending(HeadsOf(rows, n - 1), cmp)
    ensures AscendingBut(HeadsOf(rows, n), cmp, n - 1)
  {
    var hs, below := HeadsOf(rows, n), HeadsOf(rows, n - 1);
    assert below == hs[..n - 1];
    assert forall x :: 0 <= x < n - 1 ==> hs[x] == below[x];
  }

  /** The loose head is exchanged with the one below it. */
  lemma StepDown<T(!new)>(rows: seq<Row<Head<T>>>, n: int, cmp: (T, T) -> int, ip: int)
    requires TotalPreorder(cmp) && 0 < ip < n <= |rows| && AllLive(rows, 0, n)
    requires AscendingBut(HeadsOf(rows, n), cmp, ip) && cmp(rows[ip].line.line, rows[ip - 1].line.line) < 0
    ensures var rows' := Swapped(rows, ip, ip - 1);
            AllLive(rows', 0, n) && AscendingBut(HeadsOf(rows', n), cmp, ip - 1) &&
            multiset(HeadsOf(rows', n)) == multiset(HeadsOf(rows, n))
  {
    hide TotalPreorder, AscendingBut;
    SwapDown(HeadsOf(rows, n), cmp, ip);
    assert HeadsOf(Swapped(rows, ip, ip - 1), n) == Swapped(HeadsOf(rows, n), ip, ip - 1);
  }

  /** In order but for the head at `ip`, which is below everything after it. */
  ghost predicate AscendingBut<T(!new)>(hs: seq<Head<T>>, cmp: (T, T) -> int, ip: int) {
    0 <= ip < |hs| &&
    (forall x, y :: 0 <= x < y < |hs| && x != ip && y != ip ==> cmp(hs[x].line, hs[y].line) <= 0) &&
    (forall y :: ip < y < |hs| ==> cmp(hs[ip].line, hs[y].line) <= 0)
  }

  lemma SwapDown<T(!new)>(hs: seq<Head<T>>, cmp: (T, T) -> int, ip: int)
    requires TotalPreorder(cmp) && AscendingBut(hs, cmp, ip) && 0 < ip && cmp(hs[ip].line, hs[ip - 1].line) < 0
    ensures AscendingBut(Swapped(hs, ip, ip - 1), cmp, ip - 1)
    ensures multiset(Swapped(hs, ip, ip - 1)) == multiset(hs)
  {
    hide TotalPreorder;
    SwapRearranges(hs, ip, ip - 1, 0, |hs|);
    assert hs[0..|hs|] == hs && Swapped(hs, ip, ip - 1)[0..|hs|] == Swapped(hs, ip, ip - 1);
  }

  lemma InPlace<T(!new)>(rows: seq<Row<Head<T>>>, n: int, cmp: (T, T) -> int, ip: int)
    requires TotalPreorder(cmp) && 0 <= ip < n <= |rows| && AscendingBut(HeadsOf(rows, n), cmp, ip)
    requires ip == 0 || cmp(rows[ip].line.line, rows[ip - 1].line.line) >= 0
    ensures Ascending(HeadsOf(rows, n), cmp)
  {
    var hs := HeadsOf(rows, n);
    forall x, y | 0 <= x < y < |hs|
      ensures cmp(hs[x].line, hs[y].line) <= 0
    {
      if y == ip {
        NotBelowPrevious(hs, cmp, ip, x);
      }
    }
  }

  lemma NotBelowPrevious<T(!new)>(hs: seq<Head<T>>, cmp: (T, T) -> int, ip: int, x: int)
    requires TotalPreorder(cmp) && AscendingBut(hs, cmp, ip) && 0 <= x < ip
    requires cmp(hs[ip].line, hs[ip - 1].line) >= 0
    ensures cmp(hs[x].line, hs[ip].line) <= 0
  {
    var p := hs[ip - 1].line;
    assert cmp(p, hs[ip].line) <= 0;
    if x < ip - 1 {
      assert cmp(hs[x].line, p) <= 0;
    }
  }

  /** What `qusort` leaves in the head array. */
  lemma HeadsSorted<T(!new)>(rows0: seq<Row<Head<T>>>, rows: seq<Row<Head<T>>>, n: int, cmp: (T, T) -> int)
    requires 0 <= n <= |rows| == |rows0|
    requires Done(rows, ByLine(cmp), false, 0, n) && Rearranged(Lines(rows0), Lines(rows), 0, n)
    ensures AllLive(rows, 0, n) && Ascending(HeadsOf(rows, n), cmp)
    ensures multiset(HeadsOf(rows, n)) == multiset(HeadsOf(rows0, n))
  {
    var c := ByLine(cmp);
    forall k | 0 <= k < n
      ensures rows[k].live
    {
      assert rows[k].live <==> Survives(Lines(rows), c, false, 0, k);
    }
    forall x, y | 0 <= x < y < n
      ensures cmp(Lines(rows)[x].line, Lines(rows)[y].line) <= 0
    {
      assert c(rows[x].line, rows[y].line) <= 0;
    }
    assert Lines(rows)[0..n] == HeadsOf(rows, n) && Lines(rows0)[0..n] == HeadsOf(rows0, n);
  }

  /** The state of the merge loop: `n` files are still open. */
  ghost predicate Merging<T(!new)>(rows: seq<Row<Head<T>>>, n: int, out: seq<T>, files: seq<seq<T>>,
        cmp: (T, T) -> int)
  {
    0 <= n <= |rows| && AllLive(rows, 0, n) &&
    var hs := HeadsOf(rows, n);
    multiset(out) + Pending(hs) == Total(files) && (AllDescending(files, cmp) ==> Fits(out, hs, cmp))
  }

  lemma StartMerging<T(!new)>(rows0: seq<Row<Head<T>>>, rows: seq<Row<Head<T>>>, n: int, files: seq<seq<T>>,
        cmp: (T, T) -> int)
    requires 0 <= n <= |rows| == |rows0| && HeadsOf(rows0, n) == OpenHeads(files) && AllLive(rows, 0, n)
    requires multiset(HeadsOf(rows, n)) == multiset(HeadsOf(rows0, n))
    ensures Merging(rows, n, [], files, cmp)
  {
    hide OpenHeads, Total, Fits, AllDescending, Pending;
    OpenHeadsHoldAll(files);
    PendingOfRearranged(HeadsOf(rows0, n), HeadsOf(rows, n));
    if AllDescending(files, cmp) {
      OpenHeadsFit(files, cmp);
      FitsOfRearranged([], HeadsOf(rows0, n), HeadsOf(rows, n), cmp);
    }
  }

  /** One line is written and the next one of its file read. */
  lemma EmitKeeps<T(!new)>(rows: seq<Row<Head<T>>>, rows': seq<Row<Head<T>>>, n: int, n': int,
                           out: seq<T>, files: seq<seq<T>>, cmp: (T, T) -> int)
    requires TotalPreorder(cmp) && Merging(rows, n, out, files, cmp) && 0 < n && Ascending(HeadsOf(rows, n), cmp)
    requires 0 <= n' <= |rows'| && AllLive(rows', 0, n') && HeadsOf(rows', n') == AfterEmit(HeadsOf(rows, n))
    ensures Merging(rows', n', out + [rows[n - 1].line.line], files, cmp)
  {
    hide TotalPreorder, Ascending, Total, Fits, AllDescending, Pending, AfterEmit;
    var hs := HeadsOf(rows, n);
    EmitConserves(out, hs);
    if AllDescending(files, cmp) {
      EmitFits(out, hs, cmp);
    }
  }

  lemma InsertKeeps<T(!new)>(rows: seq<Row<Head<T>>>, rows': seq<Row<Head<T>>>, n: int,
                             out: seq<T>, files: seq<seq<T>>, cmp: (T, T) -> int)
    requires Merging(rows, n, out, files, cmp) && |rows'| == |rows| && AllLive(rows', 0, n)
    requires multiset(HeadsOf(rows', n)) == multiset(HeadsOf(rows, n))
    ensures Merging(rows', n, out, files, cmp)
  {
    hide Total, Fits, AllDescending, Pending;
    PendingOfRearranged(HeadsOf(rows, n), HeadsOf(rows', n));
    if AllDescending(files, cmp) {
      FitsOfRearranged(out, HeadsOf(rows, n), HeadsOf(rows', n), cmp);
    }
  }

  /** `rline` on the top head: the next line, or the file drops out. */
  method ReadNext<T(!new)>(ibuf: array<Row<Head<T>>>, n: int, ghost cmp: (T, T) -> int) returns (n': int)
    requires 0 < n <= ibuf.Length && AllLive(ibuf[..], 0, n) && Ascending(Heads(ibuf, n), cmp)
    modifies ibuf
    ensures n - 1 <= n' <= n && AllLive(ibuf[..], 0, n')
    ensures Heads(ibuf, n') == AfterEmit(old(Heads(ibuf, n)))
    ensures 0 < n' ==> Ascending(Heads(ibuf, n' - 1), cmp)
  {
    ghost var hs := Heads(ibuf, n);
    var h := ibuf[n - 1].line;
    if h.rest == [] {
      n' := n - 1;
      assert Heads(ibuf, n') == hs[..n - 1];
    } else {
      ibuf[n - 1] := Row(Head(h.rest[0], h.rest[1..]), true);
      n' := n;
      assert Heads(ibuf, n) == hs[..n - 1] + [Head(h.rest[0], h.rest[1..])];
    }
    assert 0 < n' ==> Heads(ibuf, n' - 1) == hs[..n' - 1];
  }

  /**
   `merge` without -u and -c: every line of every file is written once, and in order when
   the files are in order.
   */
  method Merge<T(!new, 0)>(files: seq<seq<T>>, cmp: (T, T) -> int) returns (out: seq<T>)
    requires TotalPreorder(cmp)
    ensures multiset(out) == Total(files)
    ensures AllDescending(files, cmp) ==> Descending(out, cmp)
  {
    hide TotalPreorder, Rearranged, AllLive, Done, Ascending, AllDescending, Total, AfterEmit, OpenHeads, Merging;
    var ibuf := new Row<Head<T>>[|files|];
    var n := OpenFiles(files, ibuf);
    ghost var rows0 := ibuf[..];
    ByLineIsPreorder(cmp);
    ghost var depth := Sort(ibuf, ByLine(cmp), false, 0, n);
    HeadsSorted(rows0, ibuf[..], n, cmp);
    out := [];
    StartMerging(rows0, ibuf[..], n, files, cmp);
    while n > 0
      invariant 0 <= n <= ibuf.Length && Merging(ibuf[..], n, out, files, cmp)
      invariant AllLive(ibuf[..], 0, n) && Ascending(Heads(ibuf, n), cmp)
      decreases |Total(files)| - |out|
    {
      ghost var rows := ibuf[..];
      var line := ibuf[n - 1].line.line;
      var n' := ReadNext(ibuf, n, cmp);
      EmitKeeps(rows, ibuf[..], n, n', out, files, cmp);
      out := out + [line];
      n := n';
      OutBound(ibuf[..], n, out, files, cmp);
      if n > 0 {
        rows := ibuf[..];
        InsertTop(ibuf, n, cmp);
        InsertKeeps(rows, ibuf[..], n, out, files, cmp);
      } else {
        NoneLeft(ibuf[..], cmp);
      }
    }
    MergeEnds(ibuf[..], out, files, cmp);
  }

  lemma NoneLeft<T(!new)>(rows: seq<Row<Head<T>>>, cmp: (T, T) -> int)
    ensures Ascending(HeadsOf(rows, 0), cmp)
  {
  }

  lemma OutBound<T(!new)>(rows: seq<Row<Head<T>>>, n: int, out: seq<T>, files: seq<seq<T>>, cmp: (T, T) -> int)
    requires Merging(rows, n, out, files, cmp)
    ensures |out| <= |Total(files)|
  {
    assert |multiset(out) + Pending(HeadsOf(rows, n))| == |out| + |Pending(HeadsOf(rows, n))|;
  }

  lemma MergeEnds<T(!new)>(rows: seq<Row<Head<T>>>, out: seq<T>, files: seq<seq<T>>, cmp: (T, T) -> int)
    requires Merging(rows, 0, out, files, cmp)
    ensures multiset(out) == Total(files) && (AllDescending(files, cmp) ==> Descending(out, cmp))
  {
  }

  // ----- Passes

  /** One pass consumes the files a..i and adds their merge at the end of the list. */
  lemma PassConserves<T>(files: seq<seq<T>>, a: nat, i: nat, merged: seq<T>)
    requires a <= i <= |files| && multiset(merged) == Total(files[a..i])
    ensures Total((files + [merged])[i..]) == Total(files[a..])
  {
    assert files[a..] == files[a..i] + files[i..];
    TotalSplits(files[a..i], files[i..]);
    assert (files + [merged])[i..] == files[i..] + [merged];
    TotalSnoc(files[i..], merged);
    UnionSwap(Total(files[a..i]), Total(files[i..]));
  }

  lemma UnionSwap<T>(a: multiset<T>, b: multiset<T>)
    ensures a + b == b + a
  {
  }

  lemma AllDescendingPart<T(!new)>(files: seq<seq<T>>, cmp: (T, T) -> int, a: nat, i: nat)
    requires a <= i <= |files| && AllDescending(files[a..], cmp)
    ensures AllDescending(files[a..i], cmp)
    ensures forall f :: Descending(f, cmp) ==> AllDescending((files + [f])[i..], cmp)
  {
    forall k | 0 <= k < i - a
      ensures Descending(files[a..i][k], cmp)
    {
      assert files[a..i][k] == files[a..][k];
    }
    forall f | Descending(f, cmp)
      ensures AllDescending((files + [f])[i..], cmp)
    {
      forall k | 0 <= k < |files| + 1 - i
        ensures Descending((files + [f])[i..][k], cmp)
      {
        if i + k < |files| {
          assert (files + [f])[i..][k] == files[a..][i + k - a];
        }
      }
    }
  }

  /**
   The pass loop and the last merge of `main`: seven files at a time from the front of the
   list, each merge added at its end.  Every run is consumed once, whatever their number.
   */
  method MergePasses<T(!new, 0)>(runs: seq<seq<T>>, cmp: (T, T) -> int) returns (out: seq<T>)
    requires TotalPreorder(cmp)
    ensures multiset(out) == Total(runs)
    ensures AllDescending(runs, cmp) ==> Descending(out, cmp)
  {
    hide TotalPreorder, AllDescending, Descending, Total;
    var files, a := runs, 0;
    assert files[0..] == runs;
    while a + N < |files|
      invariant 0 <= a <= |files| && (a == |files| ==> runs == [])
      invariant Total(files[a..]) == Total(runs)
      invariant AllDescending(runs, cmp) ==> AllDescending(files[a..], cmp)
      decreases |files| - a
    {
      var i := a + N;
      var merged := Merge(files[a..i], cmp);
      PassConserves(files, a, i, merged);
      if AllDescending(runs, cmp) {
        AllDescendingPart(files, cmp, a, i);
      }
      files := files + [merged];
      a := i;
    }
    if a != |files| {
      out := Merge(files[a..], cmp);
    } else {
      out := [];
      EmptyIsTotal<T>();
    }
    EmptyDescends(cmp);
  }

  lemma EmptyIsTotal<T>()
    ensures Total<T>([]) == multiset{}
  {
  }

  lemma EmptyDescends<T(!new)>(cmp: (T, T) -> int)
    ensures Descending([], cmp)
  {
  }

  // ----- Runs

  ghost predicate StrictlyDescending<T(!new)>(s: seq<T>, cmp: (T, T) -> int) {
    forall x, y :: 0 <= x < y < |s| ==> cmp(s[x], s[y]) > 0
  }

  /** What is written for the first k rows: from the top, blanked rows left out. */
  ghost function Written<T>(rows: seq<Row<T>>, k: nat): seq<T>
    requires k <= |rows|
  {
    if k == 0 then []
    else (if rows[k - 1].live then [rows[k - 1].line] else []) + Written(rows, k - 1)
  }

  /** Every line written is the line of a live row. */
  lemma {:induction false} WrittenFrom<T>(rows: seq<Row<T>>, k: nat, x: nat) returns (j: nat)
    requires k <= |rows| && x < |Written(rows, k)|
    ensures j < k && rows[j].live && Written(rows, k)[x] == rows[j].line
    decreases k
  {
    if rows[k - 1].live && x == 0 {
      j := k - 1;
    } else {
      j := WrittenFrom(rows, k - 1, if rows[k - 1].live then x - 1 else x);
    }
  }

  lemma {:induction false} LiveIsWritten<T>(rows: seq<Row<T>>, k: nat, j: nat)
    requires j < k <= |rows| && rows[j].live
    ensures rows[j].line in Written(rows, k)
    decreases k
  {
    if j < k - 1 {
      LiveIsWritten(rows, k - 1, j);
    }
  }

  lemma {:induction false} WrittenAll<T>(rows: seq<Row<T>>, k: nat)
    requires k <= |rows| && AllLive(rows, 0, k)
    ensures multiset(Written(rows, k)) == multiset(Lines(rows)[..k])
    decreases k
  {
    if k == 0 {
      assert Lines(rows)[..0] == [];
    } else {
      WrittenAll(rows, k - 1);
      WrittenStep(rows, k);
    }
  }

  lemma WrittenStep<T>(rows: seq<Row<T>>, k: nat)
    requires 0 < k <= |rows| && rows[k - 1].live
    requires multiset(Written(rows, k - 1)) == multiset(Lines(rows)[..k - 1])
    ensures multiset(Written(rows, k)) == multiset(Lines(rows)[..k])
  {
    assert Written(rows, k) == [rows[k - 1].line] + Written(rows, k - 1);
    assert Lines(rows)[..k] == Lines(rows)[..k - 1] + [rows[k - 1].line];
    hide Written, AllLive, Lines;
    MoveToEnd(rows[k - 1].line, Written(rows, k - 1), Lines(rows)[..k - 1]);
  }

  lemma MoveToEnd<T>(x: T, s: seq<T>, t: seq<T>)
    requires multiset(s) == multiset(t)
    ensures multiset([x] + s) == multiset(t + [x])
  {
    MultisetOfConcat([x], s);
    MultisetOfConcat(t, [x]);
    UnionSwap(multiset(t), multiset([x]));
  }

  /** A sorted range is written in output order; with -u no two lines written are equal. */
  lemma {:induction false} WrittenOrder<T(!new)>(rows: seq<Row<T>>, cmp: (T, T) -> int, uflg: bool, n: nat, k: nat)
    requires TotalPreorder(cmp) && Done(rows, cmp, uflg, 0, n) && k <= n
    ensures Descending(Written(rows, k), cmp) && (uflg ==> StrictlyDescending(Written(rows, k), cmp))
    decreases k
  {
    hide TotalPreorder, Done;
    if k > 0 {
      assert k <= |rows| by { DoneFits(rows, cmp, uflg, n); }
      WrittenOrder(rows, cmp, uflg, n, k - 1);
      if rows[k - 1].live {
        var w := Written(rows, k);
        forall y | 0 < y < |w|
          ensures cmp(w[0], w[y]) >= 0 && (uflg ==> cmp(w[0], w[y]) > 0)
        {
          var j := WrittenFrom(rows, k - 1, y - 1);
          TopIsGreatest(rows, cmp, uflg, n, j, k - 1);
        }
      }
    }
  }

  lemma DoneFits<T(!new)>(rows: seq<Row<T>>, cmp: (T, T) -> int, uflg: bool, n: nat)
    requires Done(rows, cmp, uflg, 0, n)
    ensures n <= |rows|
  {
  }

  lemma TopIsGreatest<T(!new)>(rows: seq<Row<T>>, cmp: (T, T) -> int, uflg: bool, n: nat, j: nat, k: nat)
    requires TotalPreorder(cmp) && Done(rows, cmp, uflg, 0, n) && j < k < n && rows[k].live
    ensures cmp(rows[k].line, rows[j].line) >= 0 && (uflg ==> cmp(rows[k].line, rows[j].line) > 0)
  {
    assert cmp(rows[j].line, rows[k].line) <= 0;
    assert cmp(rows[j].line, rows[k].line) < 0 <==> cmp(rows[k].line, rows[j].line) > 0;
    assert cmp(rows[k].line, rows[j].line) < 0 <==> cmp(rows[j].line, rows[k].line) > 0;
    hide TotalPreorder;
    if uflg {
      LiveRowIsNew(rows, cmp, 0, n, j, k);
    }
  }

  /** The lines kept by -u: one of each class that occurs. */
  ghost predicate OneOfEach<T(!new)>(run: seq<T>, lines: seq<T>, cmp: (T, T) -> int) {
    StrictlyDescending(run, cmp) &&
    (forall x :: 0 <= x < |run| ==> run[x] in lines) &&
    (forall k :: 0 <= k < |lines| ==> Represented(run, lines[k], cmp))
  }

  ghost predicate Represented<T(!new)>(run: seq<T>, line: T, cmp: (T, T) -> int) {
    exists x :: 0 <= x < |run| && cmp(run[x], line) == 0
  }

  lemma WrittenRun<T(!new)>(lines: seq<T>, rows: seq<Row<T>>, cmp: (T, T) -> int, uflg: bool)
    requires TotalPreorder(cmp) && |rows| == |lines| && Done(rows, cmp, uflg, 0, |rows|)
    requires multiset(Lines(rows)) == multiset(lines)
    ensures var run := Written(rows, |rows|);
            Descending(run, cmp) && (!uflg ==> multiset(run) == multiset(lines)) &&
            (uflg ==> OneOfEach(run, lines, cmp))
  {
    hide TotalPreorder;
    var n := |rows|;
    WrittenOrder(rows, cmp, uflg, n, n);
    if uflg {
      hide Done, Written, Descending, StrictlyDescending;
      forall x | 0 <= x < |Written(rows, n)|
        ensures Written(rows, n)[x] in lines
      {
        var j := WrittenFrom(rows, n, x);
        assert Lines(rows)[j] in multiset(lines);
      }
      forall k | 0 <= k < n
        ensures Represented(Written(rows, n), lines[k], cmp)
      {
        assert lines[k] in multiset(Lines(rows));
        var i :| 0 <= i < n && Lines(rows)[i] == lines[k];
        var j := SomeSurvivor(rows, cmp, 0, n, i);
        LiveIsWritten(rows, n, j);
        var x :| 0 <= x < |Written(rows, n)| && Written(rows, n)[x] == rows[j].line;
      }
    } else {
      NoneBlanked(rows, cmp);
      WrittenAll(rows, n);
      assert Lines(rows)[..n] == Lines(rows);
    }
  }

  lemma NoneBlanked<T(!new)>(rows: seq<Row<T>>, cmp: (T, T) -> int)
    requires Done(rows, cmp, false, 0, |rows|)
    ensures AllLive(rows, 0, |rows|)
  {
    forall k | 0 <= k < |rows|
      ensures rows[k].live
    {
      assert rows[k].live <==> Survives(Lines(rows), cmp, false, 0, k);
    }
  }

  /** A chunk of the input is sorted in memory and written from the top. */
  method SortChunk<T(!new, 0)>(lines: seq<T>, cmp: (T, T) -> int, uflg: bool) returns (run: seq<T>)
    requires TotalPreorder(cmp)
    ensures Descending(run, cmp)
    ensures !uflg ==> multiset(run) == multiset(lines)
    ensures uflg ==> OneOfEach(run, lines, cmp)
  {
    hide TotalPreorder, Done, Descending, OneOfEach, Rearranged, Written;
    var lspace := new Row<T>[|lines|](k requires 0 <= k < |lines| => Row(lines[k], true));
    assert Lines(lspace[..]) == lines;
    ghost var depth := Sort(lspace, cmp, uflg, 0, |lines|);
    SameMultiset(lines, Lines(lspace[..]));
    WrittenRun(lines, lspace[..], cmp, uflg);
    run := WriteRun(lspace);
  }

  method WriteRun<T>(lspace: array<Row<T>>) returns (run: seq<T>)
    ensures run == Written(lspace[..], lspace.Length)
  {
    run := [];
    var lp := lspace.Length;
    while lp > 0
      invariant 0 <= lp <= lspace.Length
      invariant run + Written(lspace[..], lp) == Written(lspace[..], lspace.Length)
    {
      lp := lp - 1;
      if lspace[lp].live {
        run := run + [lspace[lp].line];
      }
    }
  }

  lemma SameMultiset<T>(s: seq<T>, t: seq<T>)
    requires Rearranged(s, t, 0, |s|)
    ensures multiset(s) == multiset(t)
  {
    assert s[0..|s|] == s && t[0..|s|] == t;
  }

  /** The room that lines take in the text area. */
  ghost function TextOf<T>(lines: seq<T>, len: T -> nat): nat {
    if lines == [] then 0 else TextOf(lines[..|lines| - 1], len) + len(lines[|lines| - 1])
  }

  /**
   Reads lines while there is room for lines and for text; `done` when the input ends first.
   The last line may run over the room for text, no earlier one does.
   */
  method ReadChunk<T>(input: seq<T>, pos: nat, nlines: int, ntext: int, len: T -> nat)
      returns (pos': nat, done: bool)
    requires pos <= |input| && 0 < nlines && 0 < ntext
    ensures pos <= pos' <= |input| && pos' - pos <= nlines
    ensures pos < pos' ==> TextOf(input[pos..pos' - 1], len) < ntext
    ensures done <==> pos' == |input| && pos' - pos < nlines && TextOf(input[pos..pos'], len) < ntext
    ensures !done ==> pos' - pos == nlines || ntext <= TextOf(input[pos..pos'], len)
    ensures !done ==> pos < pos'
  {
    pos', done := pos, false;
    var lines, text := nlines, ntext;
    while lines > 0 && text > 0
      invariant pos <= pos' <= |input| && lines == nlines - (pos' - pos) && 0 <= lines
      invariant text == ntext - TextOf(input[pos..pos'], len)
      invariant pos < pos' ==> TextOf(input[pos..pos' - 1], len) < ntext
      decreases lines
    {
      if pos' == |input| {
        done := true;
        return;
      }
      assert input[pos..pos' + 1][..pos' - pos] == input[pos..pos'];
      text := text - len(input[pos']);
      lines := lines - 1;
      pos' := pos' + 1;
    }
  }

  /**
   `sort` without -u: the output is an ordered permutation of the input lines, however many
   runs and passes it takes.
   */
  method SortAll<T(!new, 0)>(input: seq<T>, cmp: (T, T) -> int, nlines: int, ntext: int, len: T -> nat)
      returns (out: seq<T>)
    requires TotalPreorder(cmp) && 0 < nlines && 0 < ntext
    ensures multiset(out) == multiset(input) && Descending(out, cmp)
  {
    hide TotalPreorder, Descending, OneOfEach, Total, TextOf;
    var files: seq<seq<T>>, pos, done := [], 0, false;
    EmptyIsTotal<T>();
    while !done
      invariant 0 <= pos <= |input| && (done ==> pos == |input|)
      invariant Total(files) == multiset(input[..pos]) && AllDescending(files, cmp)
      decreases !done, |input| - pos
    {
      var pos';
      pos', done := ReadChunk(input, pos, nlines, ntext, len);
      var run := SortChunk(input[pos..pos'], cmp, false);
      assert input[..pos'] == input[..pos] + input[pos..pos'];
      TotalSnoc(files, run);
      if done && files == [] {
        assert input[..pos'] == input;
        EmptyUnion(multiset(run));
        return run;
      }
      files := files + [run];
      pos := pos';
    }
    assert input[..pos] == input;
    out := MergePasses(files, cmp);
  }

  lemma EmptyUnion<T>(a: multiset<T>)
    ensures multiset{} + a == a
  {
  }
}
