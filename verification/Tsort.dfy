/**
 `tsort`: the printing loop that takes nodes without live predecessors, and the search that
 picks a node of a cycle when there is none.
 */
module Tsort {

  const DEAD: int := 0
  const LIVE: int := 1
  const VISITED: int := 2

  /** The immediate predecessors of each node. */
  type Graph = seq<seq<nat>>

  ghost predicate WellFormed(g: Graph) {
    forall v :: 0 <= v < |g| ==> forall k :: 0 <= k < |g[v]| ==> g[v][k] < |g|
  }

  ghost predicate Edge(g: Graph, p: nat, v: nat) {
    v < |g| && p in g[v]
  }

  /** Each node of the chain is followed by one of its predecessors. */
  ghost predicate Chain(g: Graph, c: seq<nat>) {
    forall k :: 0 <= k < |c| - 1 ==> Edge(g, c[k + 1], c[k])
  }

  /** A closed chain through v of nodes from the set. */
  ghost predicate CycleThrough(g: Graph, s: set<nat>, v: nat, c: seq<nat>) {
    0 < |c| && c[0] == v && Chain(g, c) && Edge(g, v, c[|c| - 1]) && forall k :: 0 <= k < |c| ==> c[k] in s
  }

  ghost predicate OnCycle(g: Graph, s: set<nat>, v: nat) {
    exists c :: CycleThrough(g, s, v, c)
  }

  ghost predicate Acyclic(g: Graph) {
    forall s, v :: !OnCycle(g, s, v)
  }

  // ----- States of the nodes

  ghost predicate Marks(g: Graph, live: seq<int>) {
    WellFormed(g) && |live| == |g| && forall v :: 0 <= v < |g| ==> live[v] in {DEAD, LIVE, VISITED}
  }

  /** The nodes not yet printed. */
  ghost function Alive(live: seq<int>): set<nat> {
    set v: nat | v < |live| && live[v] != DEAD
  }

  ghost function Unvisited(live: seq<int>): set<nat> {
    set v: nat | v < |live| && live[v] == LIVE
  }

  /** No node is free: each has a predecessor that is not yet printed. */
  ghost predicate NoneFree(g: Graph, live: seq<int>)
    requires |live| == |g|
  {
    forall v :: v in Alive(live) ==> HasAlivePred(g, live, v)
  }

  ghost predicate HasAlivePred(g: Graph, live: seq<int>, v: nat)
    requires |live| == |g| && v < |g|
  {
    exists k :: 0 <= k < |g[v]| && g[v][k] in Alive(live)
  }

  method AnyPred(g: Graph, live: array<int>, i: nat) returns (found: bool)
    requires Marks(g, live[..]) && i < |g|
    ensures found <==> exists k :: 0 <= k < |g[i]| && live[g[i][k]] == LIVE
  {
    for t := 0 to |g[i]|
      invariant forall k :: 0 <= k < t ==> live[g[i][k]] != LIVE
    {
      if live[g[i][t]] == LIVE {
        return true;
      }
    }
    return false;
  }

  // ----- The search for a cycle

  /** The visited nodes are those on the way from the start of the search to node `i`. */
  ghost predicate OnPath(g: Graph, live: seq<int>, path: seq<nat>, i: nat)
    requires |live| == |g|
  {
    Chain(g, path) && (path != [] ==> Edge(g, i, path[|path| - 1])) &&
    (forall k :: 0 <= k < |path| ==> path[k] < |g| && live[path[k]] == VISITED) &&
    (forall v: nat :: v < |g| && live[v] == VISITED ==> v in path)
  }

  /** The search has come back to a node on its way: that is a cycle. */
  lemma ClosesCycle(g: Graph, live: seq<int>, path: seq<nat>, i: nat)
    requires |live| == |g| && OnPath(g, live, path, i) && i < |g| && live[i] == VISITED
    ensures OnCycle(g, Alive(live), i)
  {
    var k :| 0 <= k < |path| && path[k] == i;
    var c := path[k..];
    forall j | 0 <= j < |c| - 1
      ensures Edge(g, c[j + 1], c[j])
    {
      assert c[j + 1] == path[k + j + 1] && c[j] == path[k + j];
    }
    assert c[|c| - 1] == path[|path| - 1];
    assert CycleThrough(g, Alive(live), i, c);
  }

  lemma ExtendPath(g: Graph, live: seq<int>, path: seq<nat>, i: nat, t: nat)
    requires Marks(g, live) && OnPath(g, live, path, i) && i < |g| && live[i] == LIVE && t < |g[i]|
    ensures OnPath(g, live[i := VISITED], path + [i], g[i][t])
  {
    var path' := path + [i];
    forall k | 0 <= k < |path'| - 1
      ensures Edge(g, path'[k + 1], path'[k])
    {
      if k < |path| - 1 {
        assert path'[k + 1] == path[k + 1];
      }
    }
  }

  /** Only LIVE nodes have been marked. */
  ghost predicate MarksMore(before: seq<int>, after: seq<int>) {
    |before| == |after| &&
    forall v :: 0 <= v < |before| ==> after[v] == before[v] || (before[v] == LIVE && after[v] == VISITED)
  }

  lemma SameAlive(before: seq<int>, after: seq<int>)
    requires MarksMore(before, after)
    ensures Alive(before) == Alive(after)
  {
  }

  /**
   `mark`: NULL for a dead node.  As long as no node is free, the search from any other node
   succeeds, and what it returns lies on a cycle of nodes not yet printed.
   */
  method Mark(g: Graph, live: array<int>, i: nat, ghost path: seq<nat>) returns (found: bool, j: nat)
    requires i < |g| && Marks(g, live[..]) && NoneFree(g, live[..]) && OnPath(g, live[..], path, i)
    modifies live
    ensures found <==> old(live[i]) != DEAD
    ensures !found ==> live[..] == old(live[..])
    ensures found ==> j < |g| && OnCycle(g, Alive(old(live[..])), j)
    ensures MarksMore(old(live[..]), live[..])
    decreases |Unvisited(live[..])|
  {
    hide Alive, Unvisited, NoneFree, OnPath, OnCycle, HasAlivePred;
    if live[i] == DEAD {
      return false, 0;
    }
    if live[i] == VISITED {
      ClosesCycle(g, live[..], path, i);
      return true, i;
    }
    ghost var before := live[..];
    live[i] := VISITED;
    ghost var marked := live[..];
    assert marked == before[i := VISITED];
    SameAlive(before, marked);
    FewerUnvisited(before, i);
    NoneFreeKept(g, before, marked);
    for t := 0 to |g[i]|
      invariant live[..] == marked
      invariant forall k :: 0 <= k < t ==> marked[g[i][k]] == DEAD
    {
      ExtendPath(g, before, path, i, t);
      found, j := Mark(g, live, g[i][t], path + [i]);
      if found {
        return;
      }
    }
    NotAllDead(g, marked, i);
    assert false;
  }

  lemma NotAllDead(g: Graph, live: seq<int>, i: nat)
    requires Marks(g, live) && NoneFree(g, live) && i < |g| && live[i] != DEAD
    ensures exists k :: 0 <= k < |g[i]| && live[g[i][k]] != DEAD
  {
    assert i in Alive(live);
    assert HasAlivePred(g, live, i);
  }

  lemma NoneFreeKept(g: Graph, before: seq<int>, after: seq<int>)
    requires |before| == |g| && MarksMore(before, after) && NoneFree(g, before)
    ensures NoneFree(g, after)
  {
    SameAlive(before, after);
    forall v | v in Alive(after)
      ensures HasAlivePred(g, after, v)
    {
      assert HasAlivePred(g, before, v);
    }
  }

  lemma FewerUnvisited(live: seq<int>, i: nat)
    requires i < |live| && live[i] == LIVE
    ensures |Unvisited(live[i := VISITED])| < |Unvisited(live)|
  {
    assert Unvisited(live[i := VISITED]) == Unvisited(live) - {i};
  }

  /** Before a search the nodes are LIVE or DEAD. */
  ghost predicate Unmarked(live: seq<int>) {
    forall v :: 0 <= v < |live| ==> live[v] == DEAD || live[v] == LIVE
  }

  /**
   `findloop`: called when there are nodes left and none is free.  It returns a node on a
   cycle of the nodes left and puts all marks back.
   */
  method FindLoop(g: Graph, live: array<int>) returns (i: nat)
    requires Marks(g, live[..]) && Unmarked(live[..]) && NoneFree(g, live[..]) && Alive(live[..]) != {}
    modifies live
    ensures live[..] == old(live[..])
    ensures i < |g| && live[i] == LIVE && OnCycle(g, Alive(live[..]), i)
  {
    ghost var before := live[..];
    i := 0;
    SomeAlive(before);
    while live[i] != LIVE
      invariant i < |g| && live[..] == before
      invariant forall v :: 0 <= v < i ==> before[v] != LIVE
      decreases |g| - i
    {
      i := i + 1;
      MoreAlive(before, i);
    }
    StartOfPath(g, before, i);
    var found;
    found, i := Mark(g, live, i, []);
    Restore(live, before);
    CycleNodeIsAlive(g, before, i);
  }

  lemma SomeAlive(live: seq<int>)
    requires Alive(live) != {}
    ensures 0 < |live|
  {
    var v :| v in Alive(live);
  }

  lemma MoreAlive(live: seq<int>, i: nat)
    requires Alive(live) != {} && Unmarked(live) && i <= |live| && forall v :: 0 <= v < i ==> live[v] != LIVE
    ensures i < |live|
  {
    var v :| v in Alive(live);
  }

  lemma StartOfPath(g: Graph, live: seq<int>, i: nat)
    requires Marks(g, live) && Unmarked(live) && i < |g|
    ensures OnPath(g, live, [], i)
  {
  }

  lemma CycleNodeIsAlive(g: Graph, live: seq<int>, i: nat)
    requires Unmarked(live) && OnCycle(g, Alive(live), i)
    ensures i < |live| && live[i] == LIVE
  {
    var c :| CycleThrough(g, Alive(live), i, c);
    assert c[0] in Alive(live);
  }

  /** The last loop of `findloop`: VISITED back to LIVE. */
  method Restore(live: array<int>, ghost before: seq<int>)
    requires MarksMore(before, live[..]) && Unmarked(before)
    modifies live
    ensures live[..] == before
  {
    for j := 0 to live.Length
      invariant MarksMore(before, live[..])
      invariant forall v :: 0 <= v < j ==> live[v] == before[v]
    {
      if live[j] == VISITED {
        live[j] := LIVE;
      }
    }
  }

  /** One sweep: the first node without live predecessors, or the end of the list. */
  method Sweep(g: Graph, live: array<int>) returns (i: nat, x: bool)
    requires Marks(g, live[..]) && Unmarked(live[..])
    ensures i <= |g|
    ensures !x ==> i == |g| && Alive(live[..]) == {}
    ensures x && i < |g| ==> live[i] == LIVE && !HasAlivePred(g, live[..], i)
    ensures forall v :: 0 <= v < i && live[v] == LIVE ==> HasAlivePred(g, live[..], v)
    ensures x && i == |g| ==> Alive(live[..]) != {} && NoneFree(g, live[..])
  {
    i, x := 0, false;
    while i < |g|
      invariant i <= |g| && (x ==> Alive(live[..]) != {})
      invariant !x ==> forall v :: 0 <= v < i ==> live[v] == DEAD
      invariant forall v :: 0 <= v < i && live[v] == LIVE ==> HasAlivePred(g, live[..], v)
    {
      if live[i] == LIVE {
        x := true;
        assert i in Alive(live[..]);
        var blocked := AnyPred(g, live, i);
        PredsAlive(g, live[..], i);
        if !blocked {
          return;
        }
      }
      i := i + 1;
    }
  }

  lemma PredsAlive(g: Graph, live: seq<int>, i: nat)
    requires Marks(g, live) && Unmarked(live) && i < |g|
    ensures HasAlivePred(g, live, i) <==> exists k :: 0 <= k < |g[i]| && live[g[i][k]] == LIVE
  {
    if k :| 0 <= k < |g[i]| && live[g[i][k]] == LIVE {
      assert g[i][k] in Alive(live);
    }
  }

  // ----- The printing loop

  /** The nodes that a partial output leaves. */
  ghost function Remaining(g: Graph, out: seq<nat>): set<nat> {
    set v: nat | v < |g| && v !in out
  }

  ghost predicate Distinct(s: seq<nat>) {
    forall i, j :: 0 <= i < j < |s| ==> s[i] != s[j]
  }

  /** What the k-th line of the output is worth. */
  ghost predicate Justified(g: Graph, out: seq<nat>, cycle: seq<bool>, k: int)
    requires 0 <= k < |out| == |cycle|
  {
    if cycle[k] then OnCycle(g, Remaining(g, out[..k]), out[k])
    else forall p: nat :: Edge(g, p, out[k]) ==> p in out[..k]
  }

  /** Printed so far: the dead nodes, each once, each line justified. */
  ghost predicate Printed(g: Graph, live: seq<int>, out: seq<nat>, cycle: seq<bool>) {
    |out| == |cycle| && |live| == |g| && Distinct(out) &&
    (forall v: nat :: v in out <==> v < |g| && live[v] == DEAD) &&
    forall k :: 0 <= k < |out| ==> Justified(g, out, cycle, k)
  }

  lemma AliveIsRest(g: Graph, live: seq<int>, out: seq<nat>, cycle: seq<bool>)
    requires Printed(g, live, out, cycle)
    ensures Alive(live) == Remaining(g, out)
  {
  }

  lemma PrintOne(g: Graph, live: seq<int>, out: seq<nat>, cycle: seq<bool>, i: nat, c: bool)
    requires Printed(g, live, out, cycle) && Marks(g, live) && i < |g| && live[i] == LIVE
    requires if c then OnCycle(g, Alive(live), i) else !HasAlivePred(g, live, i)
    ensures Printed(g, live[i := DEAD], out + [i], cycle + [c])
  {
    var out', cycle' := out + [i], cycle + [c];
    AliveIsRest(g, live, out, cycle);
    assert out'[..|out|] == out;
    if !c {
      forall p: nat | Edge(g, p, i)
        ensures p in out
      {
        var k :| 0 <= k < |g[i]| && g[i][k] == p;
        assert p !in Alive(live);
      }
    }
    forall k | 0 <= k < |out'|
      ensures Justified(g, out', cycle', k)
    {
      if k < |out| {
        assert out'[..k] == out[..k];
        assert Justified(g, out, cycle, k);
      }
    }
  }

  /**
   The second loop of `main`.  Every node is printed once.  A node printed without a cycle
   report has all its predecessors before it; a reported one lies on a cycle of what was left.
   */
  method PrintOrder(g: Graph) returns (out: seq<nat>, cycle: seq<bool>)
    requires WellFormed(g)
    ensures |out| == |cycle| && Distinct(out) && (forall v: nat :: v in out <==> v < |g|)
    ensures forall k :: 0 <= k < |out| ==> Justified(g, out, cycle, k)
  {
    hide OnCycle, Alive, NoneFree, HasAlivePred, Justified, Distinct;
    var live := new int[|g|](_ => LIVE);
    out, cycle := [], [];
    NothingPrinted(g, live[..]);
    while true
      invariant Marks(g, live[..]) && Unmarked(live[..]) && Printed(g, live[..], out, cycle)
      decreases |Alive(live[..])|
    {
      var i, x := Sweep(g, live);
      if !x {
        AllPrinted(g, live[..], out, cycle);
        return;
      }
      var c := i == |g|;
      if c {
        i := FindLoop(g, live);
      }
      PrintOne(g, live[..], out, cycle, i, c);
      FewerAlive(live[..], i);
      ghost var before := live[..];
      out, cycle := out + [i], cycle + [c];
      live[i] := DEAD;
      assert live[..] == before[i := DEAD];
    }
  }

  lemma NothingPrinted(g: Graph, live: seq<int>)
    requires |live| == |g| && forall v :: 0 <= v < |g| ==> live[v] == LIVE
    ensures Printed(g, live, [], [])
  {
  }

  lemma AllPrinted(g: Graph, live: seq<int>, out: seq<nat>, cycle: seq<bool>)
    requires Printed(g, live, out, cycle) && Alive(live) == {}
    ensures forall v: nat :: v in out <==> v < |g|
  {
    forall v: nat | v < |g|
      ensures live[v] == DEAD
    {
      assert v !in Alive(live);
    }
  }

  lemma FewerAlive(live: seq<int>, i: nat)
    requires i < |live| && live[i] == LIVE
    ensures |Alive(live[i := DEAD])| < |Alive(live)|
  {
    assert Alive(live[i := DEAD]) == Alive(live) - {i};
  }

  /** Every node comes after its predecessors. */
  ghost predicate Topological(g: Graph, out: seq<nat>) {
    forall p: nat, k :: 0 <= k < |out| && Edge(g, p, out[k]) ==> p in out[..k]
  }

  /** On an acyclic graph nothing is reported and the order is topological. */
  lemma AcyclicIsTopological(g: Graph, out: seq<nat>, cycle: seq<bool>)
    requires Acyclic(g) && |out| == |cycle| && (forall v: nat :: v in out <==> v < |g|)
    requires forall k :: 0 <= k < |out| ==> Justified(g, out, cycle, k)
    ensures forall k :: 0 <= k < |cycle| ==> !cycle[k]
    ensures Topological(g, out)
  {
    forall k | 0 <= k < |cycle|
      ensures !cycle[k]
    {
      assert Justified(g, out, cycle, k);
    }
    forall p: nat, k | 0 <= k < |out| && Edge(g, p, out[k])
      ensures p in out[..k]
    {
      assert Justified(g, out, cycle, k);
    }
  }

  lemma Earlier(g: Graph, out: seq<nat>, p: nat, j: nat) returns (k: nat)
    requires Topological(g, out) && j < |out| && Edge(g, p, out[j])
    ensures k < j && out[k] == p
  {
    k :| 0 <= k < j && out[..j][k] == p;
  }

  lemma CycleNode(g: Graph, s: set<nat>, v: nat, c: seq<nat>)
    requires CycleThrough(g, s, v, c)
    ensures v < |g|
  {
    assert |c| > 1 ==> Edge(g, c[1], c[0]);
  }

  /** Along a chain, positions in a topological order fall. */
  lemma {:induction false} ChainFalls(g: Graph, out: seq<nat>, c: seq<nat>, i: nat) returns (j: nat)
    requires Topological(g, out) && 0 < |c| && Chain(g, c) && i < |out| && out[i] == c[0]
    ensures j <= i && out[j] == c[|c| - 1]
    decreases |c|
  {
    if |c| == 1 {
      return i;
    }
    var k := Earlier(g, out, c[1], i);
    assert Chain(g, c[1..]) by {
      forall m | 0 <= m < |c[1..]| - 1
        ensures Edge(g, c[1..][m + 1], c[1..][m])
      {
        assert Edge(g, c[m + 2], c[m + 1]);
      }
    }
    j := ChainFalls(g, out, c[1..], k);
  }

  lemma TopologicalHasNoCycle(g: Graph, out: seq<nat>)
    requires Topological(g, out) && Distinct(out) && forall v: nat :: v in out <==> v < |g|
    ensures Acyclic(g)
  {
    forall s, v | OnCycle(g, s, v)
      ensures false
    {
      var c :| CycleThrough(g, s, v, c);
      CycleNode(g, s, v, c);
      assert v in out;
      var i :| 0 <= i < |out| && out[i] == v;
      var j := ChainFalls(g, out, c, i);
      var k := Earlier(g, out, v, j);
    }
  }

  /** Nothing is reported if and only if the graph has no cycle. */
  lemma NoReportIff(g: Graph, out: seq<nat>, cycle: seq<bool>)
    requires |out| == |cycle| && Distinct(out) && (forall v: nat :: v in out <==> v < |g|)
    requires forall k :: 0 <= k < |out| ==> Justified(g, out, cycle, k)
    ensures (forall k :: 0 <= k < |cycle| ==> !cycle[k]) <==> Acyclic(g)
  {
    if Acyclic(g) {
      AcyclicIsTopological(g, out, cycle);
    }
    if forall k :: 0 <= k < |cycle| ==> !cycle[k] {
      forall p: nat, k | 0 <= k < |out| && Edge(g, p, out[k])
        ensures p in out[..k]
      {
        assert Justified(g, out, cycle, k);
      }
      TopologicalHasNoCycle(g, out);
    }
  }

  // ----- Reading the graph

  type Pair = (string, string)

  ghost predicate DistinctNames(names: seq<string>) {
    forall i, j :: 0 <= i < j < |names| ==> names[i] != names[j]
  }

  ghost predicate Mentioned(pairs: seq<Pair>, s: string) {
    exists k :: 0 <= k < |pairs| && (pairs[k].0 == s || pairs[k].1 == s)
  }

  /** Nodes for the names that occur, and an edge for each pair of different names. */
  ghost predicate Represents(pairs: seq<Pair>, names: seq<string>, g: Graph) {
    |names| == |g| && WellFormed(g) && DistinctNames(names) &&
    (forall i :: 0 <= i < |names| ==> Mentioned(pairs, names[i])) &&
    (forall k :: 0 <= k < |pairs| ==> pairs[k].0 in names && pairs[k].1 in names) &&
    (forall p: nat, v: nat :: p < |g| && v < |g| ==> (Edge(g, p, v) <==> p != v && (names[p], names[v]) in pairs))
  }

  /** `nindex`: the node of a name; a new name gets a new node at the end. */
  method NIndex(names: seq<string>, g: Graph, s: string) returns (i: nat, names': seq<string>, g': Graph)
    requires |names| == |g| && DistinctNames(names)
    ensures i < |names'| == |g'| && names'[i] == s && DistinctNames(names')
    ensures if s in names then names' == names && g' == g else names' == names + [s] && g' == g + [[]]
  {
    for k := 0 to |names|
      invariant forall j :: 0 <= j < k ==> names[j] != s
    {
      if names[k] == s {
        return k, names, g;
      }
    }
    return |names|, names + [s], g + [[]];
  }

  /** `present`: is there such an edge already? */
  method Present(g: Graph, i: nat, j: nat) returns (found: bool)
    requires j < |g|
    ensures found <==> Edge(g, i, j)
  {
    for t := 0 to |g[j]|
      invariant forall k :: 0 <= k < t ==> g[j][k] != i
    {
      if g[j][t] == i {
        return true;
      }
    }
    return false;
  }

  /** A graph for the pairs so far, with nodes for two more names. */
  ghost predicate HalfRead(pairs: seq<Pair>, names: seq<string>, g: Graph, more: set<string>) {
    |names| == |g| && WellFormed(g) && DistinctNames(names) &&
    (forall i :: 0 <= i < |names| ==> Mentioned(pairs, names[i]) || names[i] in more) &&
    (forall k :: 0 <= k < |pairs| ==> pairs[k].0 in names && pairs[k].1 in names) &&
    (forall p: nat, v: nat :: p < |g| && v < |g| ==> (Edge(g, p, v) <==> p != v && (names[p], names[v]) in pairs))
  }

  lemma PairNamesKnown(pairs: seq<Pair>, names: seq<string>, g: Graph, more: set<string>, a: string, b: string)
    requires HalfRead(pairs, names, g, more)
    ensures (a, b) in pairs ==> a in names && b in names
  {
    if (a, b) in pairs {
      var k :| 0 <= k < |pairs| && pairs[k] == (a, b);
    }
  }

  lemma AddNode(pairs: seq<Pair>, names: seq<string>, g: Graph, more: set<string>, s: string)
    requires HalfRead(pairs, names, g, more) && s !in names
    ensures HalfRead(pairs, names + [s], g + [[]], more + {s})
  {
    var names', g' := names + [s], g + [[]];
    forall p: nat, v: nat | p < |g'| && v < |g'|
      ensures Edge(g', p, v) <==> p != v && (names'[p], names'[v]) in pairs
    {
      if p < |g| && v < |g| {
        assert Edge(g', p, v) <==> Edge(g, p, v);
      } else {
        PairNamesKnown(pairs, names, g, more, names'[p], names'[v]);
      }
    }
  }

  lemma WidenMore(pairs: seq<Pair>, names: seq<string>, g: Graph, more: set<string>, s: string)
    requires HalfRead(pairs, names, g, more)
    ensures HalfRead(pairs, names, g, more + {s})
  {
  }

  /** The pair (i, j) is taken in; `g'` has the edge if the names differ. */
  lemma AddPair(pairs: seq<Pair>, names: seq<string>, g: Graph, g': Graph, i: nat, j: nat)
    requires i < |names| && j < |names| && HalfRead(pairs, names, g, {names[i], names[j]})
    requires if i == j || Edge(g, i, j) then g' == g else g' == g[j := [i] + g[j]]
    ensures Represents(pairs + [(names[i], names[j])], names, g')
  {
    var pairs' := pairs + [(names[i], names[j])];
    forall s
      ensures Mentioned(pairs', s) <==> Mentioned(pairs, s) || s == names[i] || s == names[j]
    {
      MentionedAfter(pairs, (names[i], names[j]), s);
    }
    hide Mentioned, Edge;
    forall p: nat, v: nat | p < |g'| && v < |g'|
      ensures Edge(g', p, v) <==> p != v && (names[p], names[v]) in pairs'
    {
      EdgeAfter(pairs, names, g, g', i, j, p, v);
    }
  }

  lemma MentionedAfter(pairs: seq<Pair>, x: Pair, s: string)
    ensures Mentioned(pairs + [x], s) <==> Mentioned(pairs, s) || s == x.0 || s == x.1
  {
    var pairs' := pairs + [x];
    assert pairs'[|pairs|] == x && forall k :: 0 <= k < |pairs| ==> pairs'[k] == pairs[k];
  }

  lemma EdgeAfter(pairs: seq<Pair>, names: seq<string>, g: Graph, g': Graph, i: nat, j: nat, p: nat, v: nat)
    requires i < |names| && j < |names| && HalfRead(pairs, names, g, {names[i], names[j]})
    requires if i == j || Edge(g, i, j) then g' == g else g' == g[j := [i] + g[j]]
    requires p < |g| && v < |g|
    ensures Edge(g', p, v) <==> p != v && (names[p], names[v]) in pairs + [(names[i], names[j])]
  {
    assert Edge(g, p, v) <==> p != v && (names[p], names[v]) in pairs;
    assert Edge(g, i, j) <==> i != j && (names[i], names[j]) in pairs;
    assert (names[p], names[v]) == (names[i], names[j]) <==> p == i && v == j;
  }

  /** The first loop of `main`. */
  method ReadGraph(pairs: seq<Pair>) returns (names: seq<string>, g: Graph)
    ensures Represents(pairs, names, g)
  {
    hide Represents, HalfRead;
    names, g := [], [];
    EmptyGraph();
    for k := 0 to |pairs|
      invariant Represents(pairs[..k], names, g)
    {
      var (precedes, follows) := pairs[k];
      StartPair(pairs[..k], names, g);
      var i, j;
      var names0, g0 := names, g;
      i, names, g := NIndex(names, g, precedes);
      if precedes !in names0 {
        AddNode(pairs[..k], names0, g0, {}, precedes);
      }
      WidenMore(pairs[..k], names, g, if precedes in names0 then {} else {} + {precedes}, precedes);
      names0, g0 := names, g;
      assert {} + {precedes} + {precedes} == {precedes};
      j, names, g := NIndex(names, g, follows);
      if follows !in names0 {
        AddNode(pairs[..k], names0, g0, {precedes}, follows);
      }
      WidenMore(pairs[..k], names, g, if follows in names0 then {precedes} else {precedes} + {follows}, follows);
      assert {precedes} + {follows} == {precedes, follows};
      assert {precedes} + {follows} + {follows} == {precedes, follows};
      SizesMatch(pairs[..k], names, g, {precedes, follows});
      ghost var before := g;
      var there := Present(g, i, j);
      if i != j && !there {
        g := g[j := [i] + g[j]];
      }
      assert names[i] == precedes;
      AddPair(pairs[..k], names, before, g, i, j);
      assert pairs[..k + 1] == pairs[..k] + [(precedes, follows)];
    }
    assert pairs[..|pairs|] == pairs;
  }

  lemma EmptyGraph()
    ensures Represents([], [], [])
  {
  }

  lemma StartPair(pairs: seq<Pair>, names: seq<string>, g: Graph)
    requires Represents(pairs, names, g)
    ensures HalfRead(pairs, names, g, {}) && |names| == |g| && DistinctNames(names)
  {
  }

  lemma SizesMatch(pairs: seq<Pair>, names: seq<string>, g: Graph, more: set<string>)
    requires HalfRead(pairs, names, g, more)
    ensures |names| == |g| && WellFormed(g)
  {
  }

  ghost predicate Before(lines: seq<string>, a: string, b: string) {
    exists i, j :: 0 <= i < j < |lines| && lines[i] == a && lines[j] == b
  }

  /**
   `tsort`: every name that occurs is written once; if the pairs have no cycle, every pair
   of different names comes out in order.
   */
  method Order(pairs: seq<Pair>) returns (lines: seq<string>, cycle: seq<bool>, g: Graph)
    ensures DistinctNames(lines) && forall s :: s in lines <==> Mentioned(pairs, s)
    ensures Acyclic(g) ==>
              forall k :: 0 <= k < |pairs| && pairs[k].0 != pairs[k].1 ==> Before(lines, pairs[k].0, pairs[k].1)
    ensures (forall k :: 0 <= k < |cycle| ==> !cycle[k]) <==> Acyclic(g)
    ensures exists names :: Represents(pairs, names, g)
  {
    hide Represents, Acyclic, Justified, Mentioned;
    var names;
    names, g := ReadGraph(pairs);
    SameSize(pairs, names, g);
    var out;
    out, cycle := PrintOrder(g);
    assert forall k :: 0 <= k < |out| ==> out[k] in out;
    lines := seq(|out|, k requires 0 <= k < |out| => names[out[k]]);
    LinesAreNames(pairs, names, g, out, lines);
    NoReportIff(g, out, cycle);
    if Acyclic(g) {
      AcyclicIsTopological(g, out, cycle);
      forall k | 0 <= k < |pairs| && pairs[k].0 != pairs[k].1
        ensures Before(lines, pairs[k].0, pairs[k].1)
      {
        PairInOrder(pairs, names, g, out, lines, k);
      }
    }
  }

  lemma SameSize(pairs: seq<Pair>, names: seq<string>, g: Graph)
    requires Represents(pairs, names, g)
    ensures |names| == |g| && WellFormed(g)
  {
  }

  lemma NameKnown(pairs: seq<Pair>, names: seq<string>, g: Graph, s: string)
    requires Represents(pairs, names, g) && Mentioned(pairs, s)
    ensures s in names
  {
    var k :| 0 <= k < |pairs| && (pairs[k].0 == s || pairs[k].1 == s);
  }

  /** The output lines are the names of the nodes. */
  ghost predicate LinesFor(names: seq<string>, out: seq<nat>, lines: seq<string>) {
    |lines| == |out| &&
    (forall v: nat :: v in out <==> v < |names|) &&
    forall k :: 0 <= k < |out| ==> out[k] < |names| && lines[k] == names[out[k]]
  }

  lemma LineOf(pairs: seq<Pair>, names: seq<string>, g: Graph, out: seq<nat>, lines: seq<string>, s: string)
        returns (v: nat, x: nat)
    requires Represents(pairs, names, g) && LinesFor(names, out, lines) && Mentioned(pairs, s)
    ensures v < |names| && names[v] == s && x < |lines| && out[x] == v && lines[x] == s
  {
    hide Represents, Mentioned;
    NameKnown(pairs, names, g, s);
    v :| v < |names| && names[v] == s;
    assert v in out;
    x :| x < |out| && out[x] == v;
  }

  lemma LinesAreNames(pairs: seq<Pair>, names: seq<string>, g: Graph, out: seq<nat>, lines: seq<string>)
    requires Represents(pairs, names, g) && Distinct(out) && LinesFor(names, out, lines)
    ensures DistinctNames(lines) && forall s :: s in lines <==> Mentioned(pairs, s)
  {
    assert DistinctNames(names);
    assert forall i :: 0 <= i < |names| ==> Mentioned(pairs, names[i]);
    hide Represents, Mentioned;
    forall s | Mentioned(pairs, s)
      ensures s in lines
    {
      var v, x := LineOf(pairs, names, g, out, lines, s);
    }
  }

  lemma EdgeOf(pairs: seq<Pair>, names: seq<string>, g: Graph, p: nat, v: nat)
    requires Represents(pairs, names, g) && p < |names| && v < |names| && p != v && (names[p], names[v]) in pairs
    ensures Edge(g, p, v)
  {
  }

  lemma PairInOrder(pairs: seq<Pair>, names: seq<string>, g: Graph, out: seq<nat>, lines: seq<string>, k: nat)
    requires Represents(pairs, names, g) && LinesFor(names, out, lines) && k < |pairs| && pairs[k].0 != pairs[k].1
    requires forall p: nat, x :: 0 <= x < |out| && Edge(g, p, out[x]) ==> p in out[..x]
    ensures Before(lines, pairs[k].0, pairs[k].1)
  {
    hide Represents, Edge;
    var p, _ := LineOf(pairs, names, g, out, lines, pairs[k].0);
    var v, j := LineOf(pairs, names, g, out, lines, pairs[k].1);
    assert pairs[k] == (names[p], names[v]);
    EdgeOf(pairs, names, g, p, v);
    assert p in out[..j];
    var i :| 0 <= i < j && out[i] == p;
    assert lines[i] == pairs[k].0 && lines[j] == pairs[k].1;
  }
}
