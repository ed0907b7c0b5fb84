/** Why the cycle search ends, and why nothing is missed when it was not cut short. */
module SearchBounds {
  import opened CycleKeys
  import opened Graphs
  import opened SearchState
  import opened SearchSteps
  import opened Sequences

  // ---------------------------------------------------------------------------
  // Termination: simple paths are no longer than the graph, so the work on the stack is bounded
  // ---------------------------------------------------------------------------

  /** Work below an entry when `k` more nodes fit on the path, in a graph of `n` nodes. */
  function Subtree(k: nat, n: nat): (w: nat)
    ensures w >= 1
  {
    if k == 0 then 1 else 2 + n * Subtree(k - 1, n)
  }

  function Left(n: nat, used: nat): nat { if used <= n then n - used else 0 }

  ghost function Weight(stack: seq<Entry>, n: nat): nat {
    if stack == [] then 0
    else
      var base := stack[..|stack| - 1];
      Weight(base, n) + if Last(stack).entering then Subtree(Left(n, |PathOf(base)|), n) else 1
  }

  lemma {:induction false} WeightPushed(stack: seq<Entry>, e: Entry, n: nat)
    ensures Weight(stack + [e], n) ==
            Weight(stack, n) + if e.entering then Subtree(Left(n, |PathOf(stack)|), n) else 1
  {
    assert (stack + [e])[..|stack|] == stack;
  }

  /** An entered node with at most `n` queued neighbours weighs less than its entry did. */
  lemma {:induction false} EnteringPays(used: nat, queued: nat, n: nat)
    requires used < n && queued <= n
    ensures 1 + queued * Subtree(Left(n, used + 1), n) < Subtree(Left(n, used), n)
  {
    var w := Subtree(n - used - 1, n);
    assert (n - queued) * w >= 0;
    assert n * w == queued * w + (n - queued) * w;
  }

  lemma {:induction false} PathFits(g: Graph, s: State)
    requires StackOk(g, s) && Walked(g, s)
    ensures |s.path| <= |Nodes(g)|
    ensures forall e | s.stack != [] && e == Last(s.stack) && e.entering :: |s.path| < |Nodes(g)|
  {
    if s.stack != [] {
      var i := |s.stack| - 1;
      assert EntryOk(g, s.stack, i);
      var p := PathAt(s.stack, i);
      WalkStaysInGraph(g, p);
      DistinctFits(p, Nodes(g));
      assert s.stack[..i] == s.stack[..|s.stack| - 1];
    }
  }

  lemma {:induction false} SuccFits(g: Graph, u: Node)
    ensures |Succ(g, u)| <= |Nodes(g)|
  {
    assert Succ(g, u) <= Nodes(g);
    var rest := Nodes(g) - Succ(g, u);
    assert Nodes(g) == Succ(g, u) + rest;
  }

  /** Entering a node: what its entry weighed covers the node and as many neighbours as the graph has nodes. */
  lemma {:induction false} EntryWeighs(g: Graph, lim: Limits, s: State)
    requires Inv(g, lim, s, {}, 0) && s.stack != [] && Last(s.stack).entering
    ensures var n, base := |Nodes(g)|, s.stack[..|s.stack| - 1];
            && |s.path| < n
            && Weight(s.stack, n) == Weight(base, n) + Subtree(Left(n, |s.path|), n)
            && Weight(base + [Entry(Last(s.stack).node, false, [])], n) == Weight(base, n) + 1
            && |Last(s.stack).neighbors| <= n
            && Lists(Last(s.stack).neighbors, Succ(g, Last(s.stack).node))
  {
    var base, e := TopOf(s.stack);
    PathFits(g, s);
    SuccFits(g, e.node);
    WeightPushed(base, e, |Nodes(g)|);
    WeightPushed(base, Entry(e.node, false, []), |Nodes(g)|);
    Pushed(base, e);
    assert EntryOk(g, s.stack, |base|);
  }

  lemma {:induction false} QueueWeighs(g: Graph, s: State, lim: Limits, w: Node, neighbors: seq<Node>)
    requires StackOk(g, s)
    ensures var n := |Nodes(g)|;
            Weight(Queue(s, lim, w, neighbors).stack, n) <= Weight(s.stack, n) + Subtree(Left(n, |s.path|), n)
  {
    WeightPushed(s.stack, Entry(w, true, neighbors), |Nodes(g)|);
  }

  /** The part of a neighbour list that is still to be dealt with. */
  ghost function Rest(list: seq<Node>, j: nat): set<Node>
    requires j <= |list|
  {
    set x | x in list[j..]
  }

  lemma {:induction false} RestShrinks(list: seq<Node>, s: set<Node>, j: nat)
    requires Lists(list, s) && j <= |list|
    ensures Rest(list, 0) == s && Rest(list, |list|) == {}
    ensures j < |list| ==> Rest(list, j) - {list[j]} == Rest(list, j + 1) && list[j] in s
  {
    if j < |list| {
      assert list[j..] == [list[j]] + list[j + 1..];
      assert list[j] !in list[j + 1..];
    }
  }

  lemma {:induction false} ListLength(list: seq<Node>, s: set<Node>)
    requires Lists(list, s)
    ensures |list| == |s|
  {
  }

  /** At the cycle limit nothing is promised about coverage, so the rest of the neighbours may be dropped. */
  lemma {:induction false} CutShort(g: Graph, lim: Limits, s: State, todo: set<Node>, room: nat)
    requires Inv(g, lim, s, todo, room) && |s.cycles| >= lim.maxCycles
    ensures Inv(g, lim, s, {}, 0)
  {
  }

  // ---------------------------------------------------------------------------
  // Completeness
  // ---------------------------------------------------------------------------

  lemma {:induction false} NextIsNew(a: seq<Node>, b: seq<Node>, i: nat)
    requires i < |b| && Distinct(b) && forall x | x in a :: x !in b
    ensures b[i] !in a + b[..i]
  {
    assert b[i] in b;
  }

  lemma {:induction false} NextEdge(g: Graph, b: seq<Node>, i: nat)
    requires b != [] && 0 < i <= |b| && Walk(g, Close(b))
    ensures Close(b)[i] in Succ(g, b[i - 1])
  {
    assert Close(b)[i - 1 + 1] in Succ(g, Close(b)[i - 1]);
  }

  /** The search goes on round a cycle that it has followed for `j` nodes, when the stack has room. */
  lemma {:induction false} WalksOn(g: Graph, lim: Limits, s: State, a: seq<Node>, b: seq<Node>, j: nat, i: nat)
    requires Covered(g, lim, s, {}) && s.stack == []
    requires b != [] && Distinct(b) && Walk(g, Close(b)) && forall x | x in a :: x !in b
    requires 1 <= j <= i <= |b| && a + b[..j] in s.walked
    requires j == |b| || DemandBefore(g, a + b) < lim.maxStack
    ensures a + b[..i] in s.walked
    decreases i
  {
    if i > j {
      WalksOn(g, lim, s, a, b, j, i - 1);
      var p, w := a + b[..i - 1], b[i - 1];
      NextEdge(g, b, i - 1);
      NextIsNew(a, b, i - 1);
      var before := (a + b)[..|a + b| - 1];
      assert before[..|p|] == p;
      DemandGrows(g, before, |p|);
      assert Last(p) == b[i - 2];
      assert Handled(s, p, w) || Refused(g, lim, p, w);
      assert p + [w] == a + b[..i];
    }
  }

  lemma {:induction false} RoundTripCloses(a: seq<Node>, b: seq<Node>)
    requires b != [] && forall x | x in a :: x !in b
    ensures Last(a + b) == Last(b) && b[0] in a + b && CycleAt(a + b, b[0]) == Close(b)
  {
    var q := a + b;
    assert q[|a|] == b[0] && b[0] in b;
    assert IndexOf(q, b[0]) == |a| by {
      assert q[..|a|] == a;
    }
    assert q[|a|..] == b;
  }

  lemma {:induction false} RecordedFrom(g: Graph, lim: Limits, s: State, a: seq<Node>, b: seq<Node>, j: nat)
    requires Covered(g, lim, s, {}) && s.stack == []
    requires b != [] && Distinct(b) && Walk(g, Close(b)) && forall x | x in a :: x !in b
    requires 1 <= j <= |b| && a + b[..j] in s.walked
    requires j == |b| || DemandBefore(g, a + b) < lim.maxStack
    ensures Canonicalize(Close(b)) in s.seen
  {
    hide Canonicalize;
    WalksOn(g, lim, s, a, b, j, |b|);
    assert b[..|b|] == b;
    RoundTripCloses(a, b);
    NextEdge(g, b, |b|);
    assert Handled(s, a + b, b[0]) || Refused(g, lim, a + b, b[0]);
  }

  lemma {:induction false} RecordedByRoute(g: Graph, lim: Limits, s: State, nodes: seq<Node>, p: seq<Node>,
                                           a: seq<Node>, k: nat, j: nat)
    requires Walked(g, s) && Covered(g, lim, s, {}) && s.stack == [] && p in s.walked
    requires nodes != [] && Distinct(nodes) && Walk(g, Close(nodes))
    requires GoesOn(g, nodes, p, lim.maxStack, a, k, j)
    ensures Canonicalize(Close(nodes)) in s.seen
  {
    hide Covered;
    hide Canonicalize;
    hide Walk;
    hide SimplePath;
    hide Distinct;
    var b := Rotate(nodes, k);
    assert p[..|a| + j] == a + b[..j];
    CycleRotates(g, nodes, k);
    RotateHasSameNodes(nodes, k);
    RecordedFrom(g, lim, s, a, b, j);
    assert Rotation(nodes, b);
    CanonicalIdentifiesRotations(nodes, b);
  }

  lemma {:induction false} WalkedTo(g: Graph, s: State, x: Node) returns (p: seq<Node>)
    requires Walked(g, s) && x in s.globallyVisited
    ensures p in s.walked && SimplePath(g, p) && p[0] in g && Last(p) == x
  {
    p :| p in s.walked && p != [] && Last(p) == x;
  }

  /** When fewer cycles than the limit are found and every key was visited, a cycle that fits the stack is recorded. */
  lemma {:induction false} CycleIsRecorded(g: Graph, lim: Limits, s: State, c: seq<Node>)
    requires Walked(g, s) && Covered(g, lim, s, {}) && s.stack == [] && g.Keys <= s.globallyVisited
    requires Cycle(g, c) && Fits(g, c, lim.maxStack)
    ensures Canonicalize(c) in s.seen
  {
    hide Covered;
    hide Walked;
    hide Canonicalize;
    hide GoesOn;
    hide SimplePath;
    var nodes := c[..|c| - 1];
    assert c == Close(nodes);
    var x :| x in c && AllComeRound(g, nodes, x, lim.maxStack);
    NodeIsKey(g, c, x);
    var p := WalkedTo(g, s, x);
    assert ComesRound(g, nodes, p, lim.maxStack);
    var a: seq<Node>, k: nat, j: nat :| GoesOn(g, nodes, p, lim.maxStack, a, k, j);
    RecordedByRoute(g, lim, s, nodes, p, a, k, j);
  }

  lemma {:induction false} NodeIsKey(g: Graph, c: seq<Node>, x: Node)
    requires Cycle(g, c) && x in c
    ensures x in g
  {
    var i :| 0 <= i < |c| && c[i] == x;
    var k := if i < |c| - 1 then i else 0;
    assert c[k + 1] in Succ(g, c[k]);
  }
}
