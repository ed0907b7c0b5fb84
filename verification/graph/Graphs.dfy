/** Dependency graphs, walks and elementary cycles. */
module Graphs {
  import opened CycleKeys
  import opened Sequences

  /** Each key's set of targets; a target need not be a key. */
  type Graph = map<Node, set<Node>>

  function Succ(g: Graph, u: Node): set<Node> { if u in g then g[u] else {} }

  ghost predicate Walk(g: Graph, p: seq<Node>) {
    forall i | 0 <= i < |p| - 1 :: p[i + 1] in Succ(g, p[i])
  }

  ghost predicate SimplePath(g: Graph, p: seq<Node>) { p != [] && Walk(g, p) && Distinct(p) }

  /** An elementary cycle: closed, along edges of the graph, no node twice except for the closing one. */
  ghost predicate Cycle(g: Graph, c: seq<Node>) {
    |c| >= 2 && c[0] == c[|c| - 1] && Walk(g, c) && Distinct(c[..|c| - 1])
  }

  ghost predicate Acyclic(g: Graph) { forall c :: !Cycle(g, c) }

  function Last<T>(p: seq<T>): T
    requires p != []
  {
    p[|p| - 1]
  }

  // ---------------------------------------------------------------------------
  // Edges
  // ---------------------------------------------------------------------------

  function Nodes(g: Graph): set<Node> { g.Keys + set u, v | u in g && v in g[u] :: v }

  /** The edges that leave some nodes. */
  ghost function EdgesFrom(g: Graph, nodes: set<Node>): nat {
    if nodes == {} then 0
    else
      var u :| u in nodes;
      |Succ(g, u)| + EdgesFrom(g, nodes - {u})
  }

  ghost function EdgeCount(g: Graph): nat { EdgesFrom(g, Nodes(g)) }

  lemma {:induction false} EdgesWithout(g: Graph, nodes: set<Node>, v: Node)
    requires v in nodes
    ensures EdgesFrom(g, nodes) == |Succ(g, v)| + EdgesFrom(g, nodes - {v})
    decreases nodes
  {
    var u :| u in nodes && EdgesFrom(g, nodes) == |Succ(g, u)| + EdgesFrom(g, nodes - {u});
    if u != v {
      EdgesWithout(g, nodes - {u}, v);
      EdgesWithout(g, nodes - {v}, u);
      assert nodes - {u} - {v} == nodes - {v} - {u};
    }
  }

  /** The edges that leave the nodes of a path: with one more, what the path can have on the work stack at once. */
  ghost function Demand(g: Graph, p: seq<Node>): nat {
    if p == [] then 0 else Demand(g, p[..|p| - 1]) + |Succ(g, Last(p))|
  }

  lemma {:induction false} DemandFits(g: Graph, p: seq<Node>, nodes: set<Node>)
    requires Distinct(p) && forall x | x in p :: x in nodes
    ensures Demand(g, p) <= EdgesFrom(g, nodes)
  {
    if p != [] {
      EdgesWithout(g, nodes, Last(p));
      DemandFits(g, p[..|p| - 1], nodes - {Last(p)});
    }
  }

  /** The edges that leave the nodes of a path before its last one. */
  ghost function DemandBefore(g: Graph, q: seq<Node>): nat
    requires q != []
  {
    Demand(g, q[..|q| - 1])
  }

  /** Some path needs more than `maxStack` places on the work stack to reach its last node. */
  ghost predicate CanOverflow(g: Graph, maxStack: int) {
    exists q :: SimplePath(g, q) && |q| >= 2 && q[0] in g && DemandBefore(g, q) >= maxStack
  }

  lemma {:induction false} DemandGrows(g: Graph, p: seq<Node>, i: nat)
    requires i <= |p|
    ensures Demand(g, p[..i]) <= Demand(g, p)
  {
    if i < |p| {
      DemandGrows(g, p[..|p| - 1], i);
      assert p[..|p| - 1][..i] == p[..i];
    } else {
      assert p[..i] == p;
    }
  }

  /**
   `p` comes to a cycle along `a`, outside it, and then follows it for `j` nodes: all the way round, or with room on the
   work stack for the rest of the way.
   */
  ghost predicate GoesOn(g: Graph, nodes: seq<Node>, p: seq<Node>, maxStack: int, a: seq<Node>, k: nat, j: nat) {
    && k < |nodes| && 1 <= j <= |nodes| && (forall x | x in a :: x !in nodes)
    && a + Rotate(nodes, k)[..j] <= p
    && (j == |nodes| || DemandBefore(g, a + Rotate(nodes, k)) < maxStack)
  }

  ghost predicate ComesRound(g: Graph, nodes: seq<Node>, p: seq<Node>, maxStack: int) {
    exists a: seq<Node>, k: nat, j: nat :: GoesOn(g, nodes, p, maxStack, a, k, j)
  }

  ghost predicate AllComeRound(g: Graph, nodes: seq<Node>, x: Node, maxStack: int) {
    forall p | SimplePath(g, p) && p[0] in g && Last(p) == x :: ComesRound(g, nodes, p, maxStack)
  }

  /** Some node of the cycle is such that, however a path from a key gets there, the stack has room to go round. */
  ghost predicate Fits(g: Graph, c: seq<Node>, maxStack: int) {
    exists x :: x in c && AllComeRound(g, c[..|c| - 1], x, maxStack)
  }

  /** Where a path first meets a set of nodes. */
  lemma {:induction false} FirstMeeting(p: seq<Node>, nodes: seq<Node>) returns (i: nat)
    requires p != [] && Last(p) in nodes
    ensures i < |p| && p[i] in nodes && forall x | x in p[..i] :: x !in nodes
  {
    i := 0;
    while p[i] !in nodes
      invariant i < |p| && forall x | x in p[..i] :: x !in nodes
      decreases |p| - i
    {
      assert p[..i + 1] == p[..i] + [p[i]];
      i := i + 1;
    }
  }

  lemma {:induction false} CycleRotates(g: Graph, nodes: seq<Node>, k: nat)
    requires nodes != [] && Walk(g, Close(nodes)) && k < |nodes|
    ensures Walk(g, Close(Rotate(nodes, k)))
  {
    var c, d, n := Close(nodes), Close(Rotate(nodes, k)), |nodes|;
    forall i | 0 <= i < n ensures d[i + 1] in Succ(g, d[i]) {
      var j := if k + i < n then k + i else k + i - n;
      assert d[i] == c[j] && d[i + 1] == c[j + 1];
    }
  }

  lemma {:induction false} JoinedPath(g: Graph, a: seq<Node>, b: seq<Node>)
    requires b != [] && Distinct(b) && Walk(g, Close(b)) && SimplePath(g, a + [b[0]])
    requires forall x | x in a :: x !in b
    ensures SimplePath(g, a + b)
  {
    var q, r := a + b, a + [b[0]];
    forall i | 0 <= i < |q| - 1 ensures q[i + 1] in Succ(g, q[i]) {
      if i < |a| {
        assert r[i + 1] in Succ(g, r[i]);
      } else {
        assert Close(b)[i - |a| + 1] in Succ(g, Close(b)[i - |a|]);
      }
    }
    forall i, j | 0 <= i < j < |q| ensures q[i] != q[j] {
      if j < |a| {
        assert r[i] != r[j];
      } else if i < |a| {
        assert q[i] in a && q[j] in b;
      }
    }
  }

  /** When no path overflows the stack, every elementary cycle fits. */
  lemma {:induction false} AllFit(g: Graph, c: seq<Node>, maxStack: int)
    requires !CanOverflow(g, maxStack) && Cycle(g, c)
    ensures Fits(g, c, maxStack)
  {
    var nodes := c[..|c| - 1];
    assert c == Close(nodes) && c[0] == nodes[0];
    forall p | SimplePath(g, p) && p[0] in g && Last(p) == c[0] ensures ComesRound(g, nodes, p, maxStack) {
      var i := FirstMeeting(p, nodes);
      EntersWithRoom(g, nodes, p, i, maxStack);
    }
    assert c[0] in c && AllComeRound(g, nodes, c[0], maxStack);
  }

  lemma {:induction false} PrefixIsPath(g: Graph, p: seq<Node>, i: nat)
    requires SimplePath(g, p) && 0 < i <= |p|
    ensures SimplePath(g, p[..i]) && p[..i][0] == p[0]
  {
  }

  lemma {:induction false} EntersWithRoom(g: Graph, nodes: seq<Node>, p: seq<Node>, i: nat, maxStack: int)
    requires !CanOverflow(g, maxStack) && nodes != [] && Distinct(nodes) && Walk(g, Close(nodes))
    requires SimplePath(g, p) && p[0] in g && i < |p| && p[i] in nodes && forall x | x in p[..i] :: x !in nodes
    ensures ComesRound(g, nodes, p, maxStack)
  {
    hide CanOverflow;
    hide SimplePath;
    hide Walk;
    var a, k := p[..i], IndexOf(nodes, p[i]);
    var b := Rotate(nodes, k);
    CycleRotates(g, nodes, k);
    RotateHasSameNodes(nodes, k);
    assert a + b[..1] == p[..i + 1];
    if |nodes| > 1 {
      PrefixIsPath(g, p, i + 1);
      assert p[..i + 1] == a + [b[0]];
      JoinedPath(g, a, b);
      assert (a + b)[0] == p[0];
      HasRoom(g, a + b, maxStack);
    }
    assert GoesOn(g, nodes, p, maxStack, a, k, 1);
  }

  lemma {:induction false} HasRoom(g: Graph, q: seq<Node>, maxStack: int)
    requires !CanOverflow(g, maxStack) && SimplePath(g, q) && |q| >= 2 && q[0] in g
    ensures DemandBefore(g, q) < maxStack
  {
  }

  /** A self-loop fits under any limit. */
  lemma {:induction false} SelfLoopFits(g: Graph, u: Node, maxStack: int)
    ensures Fits(g, [u, u], maxStack)
  {
    var nodes := [u, u][..1];
    assert nodes == [u];
    forall p | SimplePath(g, p) && p[0] in g && Last(p) == u ensures ComesRound(g, nodes, p, maxStack) {
      var a := p[..|p| - 1];
      assert a + Rotate(nodes, 0)[..1] == p;
      assert GoesOn(g, nodes, p, maxStack, a, 0, 1);
    }
    assert AllComeRound(g, nodes, u, maxStack);
    assert u in [u, u];
  }

  /** One place more than the graph has edges is always enough. */
  lemma {:induction false} FewEdgesFit(g: Graph, maxStack: int)
    requires EdgeCount(g) < maxStack
    ensures !CanOverflow(g, maxStack)
  {
    forall q | SimplePath(g, q) && |q| >= 2 && q[0] in g ensures DemandBefore(g, q) < maxStack {
      WalkStaysInGraph(g, q);
      assert forall x | x in q[..|q| - 1] :: x in q;
      DemandFits(g, q[..|q| - 1], Nodes(g));
    }
  }

  lemma {:induction false} WalkStaysInGraph(g: Graph, p: seq<Node>)
    requires p != [] && Walk(g, p) && p[0] in Nodes(g)
    ensures forall x | x in p :: x in Nodes(g)
  {
    forall i | 0 <= i < |p| ensures p[i] in Nodes(g) {
      if i > 0 {
        assert p[i - 1 + 1] in Succ(g, p[i - 1]);
      }
    }
  }

  lemma {:induction false} DistinctFits<T(!new)>(p: seq<T>, s: set<T>)
    requires Distinct(p) && forall x | x in p :: x in s
    ensures |p| <= |s|
  {
    if p != [] {
      DistinctFits(p[..|p| - 1], s - {Last(p)});
    }
  }
}
