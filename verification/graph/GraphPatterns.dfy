/** The graphs that the harness builds, and what the cycle search answers for them. */
module GraphPatterns {
  import opened Wrappers
  import opened CycleKeys
  import opened Graphs
  import opened CycleSearch
  import opened SearchBounds
  import opened SearchState
  import Digits
  import opened Sequences

  const MAX_DETECTED_CYCLES := 1_000
  const MAX_GRAPH_DFS_STACK := 100_000

  // ---------------------------------------------------------------------------
  // Reading off the answer
  // ---------------------------------------------------------------------------

  lemma {:induction false} HasFirst(cycles: seq<seq<Node>>)
    requires cycles != []
    ensures exists c :: c in cycles
  {
    assert cycles[0] in cycles;
  }

  lemma {:induction false} NothingLeft(cycles: seq<seq<Node>>)
    requires forall c :: c !in cycles
    ensures cycles == []
  {
    if cycles != [] {
      HasFirst(cycles);
    }
  }

  lemma {:induction false} NothingInAcyclic(g: Graph, cycles: seq<seq<Node>>)
    requires Sound(g, cycles) && Acyclic(g)
    ensures cycles == []
  {
    forall c ensures c !in cycles {
      assert !Cycle(g, c);
    }
    NothingLeft(cycles);
  }

  lemma {:induction false} EmptyExactlyWhenAcyclic(g: Graph, cycles: seq<seq<Node>>)
    requires Sound(g, cycles) && Complete(g, cycles)
    ensures cycles == [] <==> Acyclic(g)
  {
    if Acyclic(g) {
      NothingInAcyclic(g, cycles);
    }
  }

  /**
   The search with its own limits: no more than a thousand cycles; with fewer than that, every cycle that fits the stack;
   and, with fewer edges than the stack limit, nothing exactly for acyclic graphs.
   */
  method Detect(dependencies: Graph) returns (cycles: seq<seq<Node>>)
    ensures Sound(dependencies, cycles) && |cycles| <= 1000
    ensures forall c | c in cycles :: |c| <= 100000 + 1
    ensures |cycles| < 1000 ==> CompleteWithin(dependencies, 100000, cycles)
    ensures cycles == [] ==> forall c | Cycle(dependencies, c) :: !Fits(dependencies, c, 100000)
    ensures |cycles| < 1000 && !CanOverflow(dependencies, 100000) ==>
              Complete(dependencies, cycles)
    ensures !CanOverflow(dependencies, 100000) ==> (cycles == [] <==> Acyclic(dependencies))
    ensures EdgeCount(dependencies) < 100000 ==> (cycles == [] <==> Acyclic(dependencies))
  {
    hide Sound;
    hide Complete;
    hide Acyclic;
    hide CanOverflow;
    hide Cycle;
    hide Fits;
    cycles := DetectCycles(dependencies, MAX_DETECTED_CYCLES, MAX_GRAPH_DFS_STACK);
    if Acyclic(dependencies) {
      NothingInAcyclic(dependencies, cycles);
    } else if |cycles| < MAX_DETECTED_CYCLES && !CanOverflow(dependencies, MAX_GRAPH_DFS_STACK) {
      EmptyExactlyWhenAcyclic(dependencies, cycles);
    }
    if EdgeCount(dependencies) < MAX_GRAPH_DFS_STACK {
      FewEdgesFit(dependencies, MAX_GRAPH_DFS_STACK);
    }
  }

  lemma {:induction false} CanonicalHasSameNodes(c: seq<Node>)
    requires |c| >= 2 && c[0] == c[|c| - 1]
    ensures |Canonicalize(c)| == |c|
    ensures forall x :: x in Canonicalize(c) <==> x in c
  {
    var nodes := c[..|c| - 1];
    assert c == nodes + [nodes[0]];
    RotateHasSameNodes(nodes, IndexOf(nodes, Min(nodes)));
  }

  /** A cycle that fits the stack is found with the same nodes, wherever the search entered it. */
  lemma {:induction false} FoundWithSameNodes(g: Graph, maxStack: int, cycles: seq<seq<Node>>, c: seq<Node>)
    requires Sound(g, cycles) && CompleteWithin(g, maxStack, cycles) && Cycle(g, c) && Fits(g, c, maxStack)
    ensures exists d :: d in cycles && |d| == |c| && forall x :: x in d <==> x in c
  {
    hide Canonicalize;
    hide Fits;
    var i :| 0 <= i < |cycles| && Canonicalize(cycles[i]) == Canonicalize(c);
    var d := cycles[i];
    assert d in cycles && Cycle(g, d);
    CanonicalHasSameNodes(c);
    CanonicalHasSameNodes(d);
    assert forall x :: x in d <==> x in c;
  }

  lemma {:induction false} SelfLoopIsCycle(g: Graph, u: Node)
    requires u in Succ(g, u)
    ensures Cycle(g, [u, u])
  {
    assert [u, u][..1] == [u];
  }

  /** Self-loops are found whatever the stack limit. */
  lemma {:induction false} SelfLoopIsFound(g: Graph, maxStack: int, cycles: seq<seq<Node>>, u: Node)
    requires Sound(g, cycles) && CompleteWithin(g, maxStack, cycles) && u in Succ(g, u)
    ensures [u, u] in cycles
  {
    hide Sound;
    hide CompleteWithin;
    hide Fits;
    SelfLoopIsCycle(g, u);
    SelfLoopFits(g, u, maxStack);
    FoundWithSameNodes(g, maxStack, cycles, [u, u]);
    var d :| d in cycles && |d| == |[u, u]| && forall x :: x in d <==> x in [u, u];
    assert d[0] in d && d[1] in d;
    assert d == [u, u];
  }

  // ---------------------------------------------------------------------------
  // Graphs whose edges all climb
  // ---------------------------------------------------------------------------

  ghost predicate EdgeClimbs(g: Graph, rank: map<Node, int>, u: Node, v: Node) {
    v in Succ(g, u) ==> u in rank && v in rank && rank[u] < rank[v]
  }

  ghost predicate Climbs(g: Graph, rank: map<Node, int>) { forall u, v :: EdgeClimbs(g, rank, u, v) }

  lemma {:induction false} ClimbsAlong(g: Graph, rank: map<Node, int>, c: seq<Node>, i: nat)
    requires Walk(g, c) && Climbs(g, rank) && 0 < i < |c|
    ensures c[0] in rank && c[i] in rank && rank[c[0]] < rank[c[i]]
  {
    assert c[i - 1 + 1] in Succ(g, c[i - 1]);
    assert EdgeClimbs(g, rank, c[i - 1], c[i]);
    if i > 1 {
      ClimbsAlong(g, rank, c, i - 1);
    }
  }

  lemma {:induction false} ClimbingIsAcyclic(g: Graph, rank: map<Node, int>)
    requires Climbs(g, rank)
    ensures Acyclic(g)
  {
    forall c ensures !Cycle(g, c) {
      if |c| >= 2 && Walk(g, c) {
        ClimbsAlong(g, rank, c, |c| - 1);
      }
    }
  }

  function Names(prefix: string, n: nat): (names: seq<Node>)
    ensures |names| == n
  {
    seq(n, i requires 0 <= i < n => prefix + Digits.Render(i))
  }

  lemma {:induction false} NamesAreDistinct(prefix: string, n: nat)
    ensures Distinct(Names(prefix, n))
  {
    forall i, j | 0 <= i < j < n ensures Names(prefix, n)[i] != Names(prefix, n)[j] {
      if Digits.Render(i) == Digits.Render(j) {
        Digits.RenderIsInjective(i, j);
      }
      assert (prefix + Digits.Render(i))[|prefix|..] == Digits.Render(i);
      assert (prefix + Digits.Render(j))[|prefix|..] == Digits.Render(j);
    }
  }

  function Ranks(nodes: seq<Node>): (rank: map<Node, int>)
    requires Distinct(nodes)
    ensures forall i | 0 <= i < |nodes| :: nodes[i] in rank && rank[nodes[i]] == i
  {
    map i | 0 <= i < |nodes| :: nodes[i] := i
  }

  ghost predicate HasKeys(g: Graph, nodes: seq<Node>) { g.Keys == set u | u in nodes }

  lemma {:induction false} NoKeys()
    ensures HasKeys(map[], [])
  {
  }

  /** The next node of a list gets its targets. */
  lemma {:induction false} AddNode(g: Graph, nodes: seq<Node>, i: nat, targets: set<Node>)
    requires Distinct(nodes) && i < |nodes| && HasKeys(g, nodes[..i])
    ensures HasKeys(g[nodes[i] := targets], nodes[..i + 1])
    ensures forall k | 0 <= k < i :: nodes[k] in g && g[nodes[i] := targets][nodes[k]] == g[nodes[k]]
  {
    assert nodes[..i + 1] == nodes[..i] + [nodes[i]];
    forall k | 0 <= k < i ensures nodes[k] in g && nodes[k] != nodes[i] {
      assert nodes[..i][k] == nodes[k];
    }
  }

  /** Edges from earlier to later nodes only. */
  ghost predicate IsDag(g: Graph, nodes: seq<Node>) {
    && HasKeys(g, nodes)
    && forall i, v | 0 <= i < |nodes| && v in Succ(g, nodes[i]) :: v in nodes[i + 1..]
  }

  lemma {:induction false} DagEdgeClimbs(g: Graph, nodes: seq<Node>, u: Node, v: Node)
    requires IsDag(g, nodes) && v in Succ(g, u)
    ensures exists i, j :: 0 <= i < j < |nodes| && nodes[i] == u && nodes[j] == v
  {
    var i :| 0 <= i < |nodes| && nodes[i] == u;
    assert v in Succ(g, nodes[i]);
    var k :| 0 <= k < |nodes[i + 1..]| && nodes[i + 1..][k] == v;
    assert nodes[i + 1 + k] == v;
  }

  lemma {:induction false} DagIsAcyclic(g: Graph, nodes: seq<Node>)
    requires IsDag(g, nodes) && Distinct(nodes)
    ensures Acyclic(g)
  {
    hide IsDag;
    hide Distinct;
    hide Acyclic;
    var rank := Ranks(nodes);
    forall u, v ensures EdgeClimbs(g, rank, u, v) {
      if v in Succ(g, u) {
        DagEdgeClimbs(g, nodes, u, v);
      }
    }
    assert Climbs(g, rank);
    ClimbingIsAcyclic(g, rank);
  }

  /** The nodes at the drawn indices. */
  ghost function Picked(nodes: seq<Node>, drawn: seq<nat>): set<Node>
    requires forall k | 0 <= k < |drawn| :: drawn[k] < |nodes|
  {
    set k | 0 <= k < |drawn| :: nodes[drawn[k]]
  }

  ghost predicate DrawnLater(draws: seq<seq<nat>>, n: nat) {
    |draws| == n && forall i, k | 0 <= i < n && 0 <= k < |draws[i]| :: i < draws[i][k] < n
  }

  method AddEdges(deps: Graph, nodes: seq<Node>, i: nat, drawn: seq<nat>) returns (result: Graph)
    requires i < |nodes| && nodes[i] in deps
    requires forall k | 0 <= k < |drawn| :: drawn[k] < |nodes|
    ensures result == deps[nodes[i] := deps[nodes[i]] + Picked(nodes, drawn)]
  {
    result := deps;
    assert Picked(nodes, drawn[..0]) == {};
    assert deps[nodes[i]] + {} == deps[nodes[i]];
    for k := 0 to |drawn|
      invariant result == deps[nodes[i] := deps[nodes[i]] + Picked(nodes, drawn[..k])]
    {
      assert Picked(nodes, drawn[..k + 1]) == Picked(nodes, drawn[..k]) + {nodes[drawn[k]]} by {
        assert drawn[..k + 1][k] == drawn[k];
        assert forall m | 0 <= m < k :: drawn[..k + 1][m] == drawn[..k][m];
      }
      assert result[nodes[i]] == deps[nodes[i]] + Picked(nodes, drawn[..k]);
      assert deps[nodes[i]] + Picked(nodes, drawn[..k + 1]) == result[nodes[i]] + {nodes[drawn[k]]};
      result := result[nodes[i] := result[nodes[i]] + {nodes[drawn[k]]}];
    }
    assert drawn[..|drawn|] == drawn;
  }

  /** Each node gets edges to the later nodes drawn for it. */
  method BuildDag(nodes: seq<Node>, draws: seq<seq<nat>>) returns (deps: Graph)
    requires Distinct(nodes) && DrawnLater(draws, |nodes|)
    ensures forall i | 0 <= i < |nodes| :: nodes[i] in deps && deps[nodes[i]] == Picked(nodes, draws[i])
    ensures IsDag(deps, nodes)
  {
    deps := map[];
    NoKeys();
    assert nodes[..0] == [];
    for i := 0 to |nodes|
      invariant HasKeys(deps, nodes[..i])
      invariant forall k | 0 <= k < i :: nodes[k] in deps && deps[nodes[k]] == Picked(nodes, draws[k])
    {
      AddNode(deps, nodes, i, {} + Picked(nodes, draws[i]));
      deps := AddEdges(deps[nodes[i] := {}], nodes, i, draws[i]);
    }
    assert nodes[..|nodes|] == nodes;
    forall i, v | 0 <= i < |nodes| && v in Succ(deps, nodes[i]) ensures v in nodes[i + 1..] {
      var k :| 0 <= k < |draws[i]| && nodes[draws[i][k]] == v;
      assert nodes[i + 1..][draws[i][k] - i - 1] == v;
    }
  }

  /** Whatever is drawn, the search finds nothing in a graph whose edges go to later nodes. */
  method DetectInDag(n: nat, draws: seq<seq<nat>>) returns (cycles: seq<seq<Node>>)
    requires DrawnLater(draws, n)
    ensures cycles == []
  {
    var nodes := Names("dag_", n);
    NamesAreDistinct("dag_", n);
    var deps := BuildDag(nodes, draws);
    cycles := Detect(deps);
    DagIsAcyclic(deps, nodes);
    NothingInAcyclic(deps, cycles);
  }

  // ---------------------------------------------------------------------------
  // Chains and rings
  // ---------------------------------------------------------------------------

  /** Each node leads to the next; the last one leads back to `nodes[back.value]`, or nowhere. */
  ghost predicate IsChain(g: Graph, nodes: seq<Node>, back: Option<nat>) {
    && nodes != [] && (back.Some? ==> back.value < |nodes|)
    && HasKeys(g, nodes)
    && (forall i | 0 <= i < |nodes| - 1 :: g[nodes[i]] == {nodes[i + 1]})
    && g[nodes[|nodes| - 1]] == if back.Some? then {nodes[back.value]} else {}
  }

  lemma {:induction false} ChainCycles(g: Graph, nodes: seq<Node>, back: Option<nat>)
    requires IsChain(g, nodes, back) && Distinct(nodes)
    ensures back.Some? ==> Cycle(g, nodes[back.value..] + [nodes[back.value]])
    ensures back.None? ==> Acyclic(g)
  {
    if back.Some? {
      var t := back.value;
      var c := nodes[t..] + [nodes[t]];
      forall i | 0 <= i < |c| - 1 ensures c[i + 1] in Succ(g, c[i]) {
        assert c[i] == nodes[t + i] && nodes[t + i] in nodes;
      }
      assert c[..|c| - 1] == nodes[t..];
    } else {
      forall i, v | 0 <= i < |nodes| && v in Succ(g, nodes[i]) ensures v in nodes[i + 1..] {
        assert nodes[i + 1..][0] == v;
      }
      DagIsAcyclic(g, nodes);
    }
  }

  lemma {:induction false} ChainNode(g: Graph, nodes: seq<Node>, back: Option<nat>, i: nat)
    requires IsChain(g, nodes, back) && i < |nodes|
    ensures nodes[i] in g && |Succ(g, nodes[i])| <= 1
    ensures i < |nodes| - 1 ==> Succ(g, nodes[i]) == {nodes[i + 1]}
  {
    assert nodes[i] in nodes;
    if i < |nodes| - 1 {
      assert Succ(g, nodes[i]) == {nodes[i + 1]};
    } else {
      assert Succ(g, nodes[i]) == if back.Some? then {nodes[back.value]} else {};
    }
  }

  /** A simple path that ends at the last node of a chain is a tail of the chain. */
  lemma {:induction false} PathIsTail(g: Graph, nodes: seq<Node>, back: Option<nat>, p: seq<Node>) returns (w: nat)
    requires IsChain(g, nodes, back) && SimplePath(g, p) && p[0] in g && Last(p) == nodes[|nodes| - 1] && Distinct(nodes)
    ensures w < |nodes| && p == nodes[w..]
  {
    assert p[0] in nodes;
    w :| w < |nodes| && nodes[w] == p[0];
    FollowsChain(g, nodes, back, p, w, |p| - 1);
    forall i | 0 <= i < |p| ensures w + i < |nodes| && p[i] == nodes[w + i] {
      FollowsChain(g, nodes, back, p, w, i);
    }
    assert nodes[w + |p| - 1] == nodes[|nodes| - 1];
  }

  lemma {:induction false} FollowsChain(g: Graph, nodes: seq<Node>, back: Option<nat>, p: seq<Node>, w: nat, i: nat)
    requires IsChain(g, nodes, back) && SimplePath(g, p) && Last(p) == nodes[|nodes| - 1]
    requires w < |nodes| && p[0] == nodes[w] && i < |p|
    ensures w + i < |nodes| && p[i] == nodes[w + i]
  {
    if i > 0 {
      FollowsChain(g, nodes, back, p, w, i - 1);
      assert p[i - 1] != p[|p| - 1];
      ChainNode(g, nodes, back, w + i - 1);
      assert p[i - 1 + 1] in Succ(g, p[i - 1]);
    }
  }

  lemma {:induction false} DemandInChain(g: Graph, nodes: seq<Node>, back: Option<nat>, p: seq<Node>)
    requires IsChain(g, nodes, back) && forall x | x in p :: x in nodes
    ensures Demand(g, p) <= |p|
  {
    hide IsChain;
    if p != [] {
      assert Last(p) in p;
      var i :| 0 <= i < |nodes| && nodes[i] == Last(p);
      ChainNode(g, nodes, back, i);
      assert forall x | x in p[..|p| - 1] :: x in p;
      DemandInChain(g, nodes, back, p[..|p| - 1]);
    }
  }

  /** The loop of a chain fits when its nodes do, however long the way to it. */
  lemma {:induction false} LoopFits(g: Graph, nodes: seq<Node>, t: nat, maxStack: int)
    requires IsChain(g, nodes, Some(t)) && Distinct(nodes)
    requires |nodes| - t <= StackBound(Limits(0, maxStack))
    ensures Fits(g, nodes[t..] + [nodes[t]], maxStack)
  {
    hide IsChain;
    hide Walk;
    hide ComesRound;
    hide Distinct;
    ChainBounds(g, nodes, Some(t));
    var c, last := nodes[t..] + [nodes[t]], nodes[|nodes| - 1];
    assert c[..|c| - 1] == nodes[t..];
    forall p | SimplePath(g, p) && p[0] in g && Last(p) == last ensures ComesRound(g, nodes[t..], p, maxStack) {
      TailComesRound(g, nodes, t, p, maxStack);
    }
    assert AllComeRound(g, nodes[t..], last, maxStack);
    assert c[|c| - 2] == last && last in c;
  }

  lemma {:induction false} TailComesRound(g: Graph, nodes: seq<Node>, t: nat, p: seq<Node>, maxStack: int)
    requires IsChain(g, nodes, Some(t)) && Distinct(nodes)
    requires |nodes| - t <= StackBound(Limits(0, maxStack))
    requires SimplePath(g, p) && p[0] in g && Last(p) == nodes[|nodes| - 1]
    ensures ComesRound(g, nodes[t..], p, maxStack)
  {
    hide IsChain;
    hide SimplePath;
    hide ComesRound;
    hide Distinct;
    ChainBounds(g, nodes, Some(t));
    var w := PathIsTail(g, nodes, Some(t), p);
    if w <= t {
      ComesFromBefore(g, nodes, t, w, maxStack);
    } else {
      StartsInside(g, nodes, t, w, maxStack);
    }
  }

  /** A tail that contains the whole loop has gone all the way round it. */
  lemma {:induction false} ComesFromBefore(g: Graph, nodes: seq<Node>, t: nat, w: nat, maxStack: int)
    requires Distinct(nodes) && w <= t < |nodes|
    ensures ComesRound(g, nodes[t..], nodes[w..], maxStack)
  {
    var loop, a := nodes[t..], nodes[w..t];
    forall x | x in a ensures x !in loop {
      var i :| 0 <= i < |a| && a[i] == x;
      assert nodes[w + i] == x;
    }
    assert Rotate(loop, 0)[..|loop|] == loop;
    assert a + loop == nodes[w..];
    assert GoesOn(g, loop, nodes[w..], maxStack, a, 0, |loop|);
  }

  /** A tail that starts inside the loop can go on with as many places as the loop has nodes. */
  lemma {:induction false} StartsInside(g: Graph, nodes: seq<Node>, t: nat, w: nat, maxStack: int)
    requires IsChain(g, nodes, Some(t)) && Distinct(nodes) && t < w < |nodes| && |nodes| - t <= maxStack
    ensures ComesRound(g, nodes[t..], nodes[w..], maxStack)
  {
    hide IsChain;
    hide Distinct;
    hide Demand;
    var loop, k, j := nodes[t..], w - t, |nodes| - w;
    var b := Rotate(loop, k);
    assert b[..j] == nodes[w..];
    RotationFits(g, nodes, t, k);
    assert [] + b == b && [] + b[..j] == b[..j];
    assert GoesOn(g, loop, nodes[w..], maxStack, [], k, j);
  }

  lemma {:induction false} RotationFits(g: Graph, nodes: seq<Node>, t: nat, k: nat)
    requires IsChain(g, nodes, Some(t)) && t < |nodes| && k < |nodes| - t
    ensures DemandBefore(g, Rotate(nodes[t..], k)) < |nodes| - t
  {
    hide IsChain;
    var b := Rotate(nodes[t..], k);
    RotateHasSameNodes(nodes[t..], k);
    var before := b[..|b| - 1];
    assert forall x | x in before :: x in b;
    assert forall x | x in nodes[t..] :: x in nodes;
    DemandInChain(g, nodes, Some(t), before);
  }

  // ---------------------------------------------------------------------------
  // A chain has at most one cycle
  // ---------------------------------------------------------------------------

  /** No node has two successors. */
  ghost predicate Functional(g: Graph) {
    forall u: Node, v: Node, w: Node | v in Succ(g, u) && w in Succ(g, u) :: v == w
  }

  lemma {:induction false} SameFromStart(g: Graph, a: seq<Node>, b: seq<Node>, j: nat)
    requires Functional(g) && a != [] && b != [] && Walk(g, Close(a)) && Walk(g, Close(b)) && a[0] == b[0]
    requires j <= |a| && j <= |b|
    ensures Close(a)[j] == Close(b)[j]
    decreases j
  {
    if j > 0 {
      SameFromStart(g, a, b, j - 1);
      assert Close(a)[j - 1 + 1] in Succ(g, Close(a)[j - 1]);
      assert Close(b)[j - 1 + 1] in Succ(g, Close(b)[j - 1]);
    }
  }

  lemma {:induction false} SameClosedWalk(g: Graph, a: seq<Node>, b: seq<Node>)
    requires Functional(g) && a != [] && b != [] && Walk(g, Close(a)) && Walk(g, Close(b)) && a[0] == b[0]
    requires Distinct(a) && Distinct(b)
    ensures a == b
  {
    hide Walk;
    hide Functional;
    if |a| <= |b| {
      SameFromStart(g, a, b, |a|);
      ReturnsOnce(a, b);
    } else {
      SameFromStart(g, b, a, |b|);
      ReturnsOnce(b, a);
    }
    forall j | 0 <= j < |a| && j < |b| ensures a[j] == b[j] {
      SameFromStart(g, a, b, j);
    }
  }

  lemma {:induction false} ReturnsOnce(a: seq<Node>, b: seq<Node>)
    requires a != [] && |a| <= |b| && a[0] == b[0] && Distinct(b) && Close(a)[|a|] == Close(b)[|a|]
    ensures |a| == |b|
  {
    assert forall j | 0 < j < |b| :: b[j] != b[0];
  }

  /** Where no node has two successors, cycles that share a node are the same up to rotation. */
  lemma {:induction false} SharedNodeSameCycle(g: Graph, c: seq<Node>, d: seq<Node>, x: Node)
    requires Functional(g) && Cycle(g, c) && Cycle(g, d) && x in c && x in d
    ensures Canonicalize(c) == Canonicalize(d) && |c| == |d|
  {
    hide Functional;
    var a, i := StartingAt(g, c, x);
    var b, j := StartingAt(g, d, x);
    SameClosedWalk(g, a, b);
  }

  lemma {:induction false} StartingAt(g: Graph, c: seq<Node>, x: Node) returns (a: seq<Node>, k: nat)
    requires Cycle(g, c) && x in c
    ensures a != [] && a[0] == x && |a| == |c| - 1 && Distinct(a) && Walk(g, Close(a))
    ensures Canonicalize(c) == Canonicalize(Close(a))
  {
    var nodes := c[..|c| - 1];
    assert c == Close(nodes);
    k := IndexOf(nodes, x);
    a := Rotate(nodes, k);
    CycleRotates(g, nodes, k);
    RotateHasSameNodes(nodes, k);
    assert Rotation(nodes, a);
    CanonicalIdentifiesRotations(nodes, a);
  }

  lemma {:induction false} ChainIsFunctional(g: Graph, nodes: seq<Node>, back: Option<nat>)
    requires IsChain(g, nodes, back)
    ensures Functional(g)
  {
    forall u: Node, v: Node, w: Node | v in Succ(g, u) && w in Succ(g, u) ensures v == w {
      var i :| 0 <= i < |nodes| && nodes[i] == u;
      assert i < |nodes| - 1 ==> Succ(g, u) == {nodes[i + 1]};
    }
  }

  /** A cycle of a chain goes through its last node: before it, all edges climb. */
  lemma {:induction false} CycleHasLastNode(g: Graph, nodes: seq<Node>, back: Option<nat>, c: seq<Node>)
    requires IsChain(g, nodes, back) && Distinct(nodes) && Cycle(g, c)
    ensures nodes[|nodes| - 1] in c
  {
    var last := nodes[|nodes| - 1];
    var cut := g[last := {}];
    CutChain(g, nodes, back);
    ChainCycles(cut, nodes, None);
    if last !in c {
      forall i | 0 <= i < |c| - 1 ensures c[i + 1] in Succ(cut, c[i]) {
        assert c[i + 1] in Succ(g, c[i]) && c[i] in c;
      }
      assert Cycle(cut, c);
    }
  }

  lemma {:induction false} CutChain(g: Graph, nodes: seq<Node>, back: Option<nat>)
    requires IsChain(g, nodes, back) && Distinct(nodes)
    ensures IsChain(g[nodes[|nodes| - 1] := {}], nodes, None)
  {
    var n := |nodes| - 1;
    assert nodes[n] in g;
    forall i | 0 <= i < n ensures nodes[i] != nodes[n] {
    }
  }

  /** What a sound search can find in a chain: the one loop that its back-edge closes, or nothing. */
  lemma {:induction false} FoundInChain(g: Graph, nodes: seq<Node>, t: nat, cycles: seq<seq<Node>>)
    requires IsChain(g, nodes, Some(t)) && Distinct(nodes) && Sound(g, cycles)
    ensures |cycles| <= 1
    ensures forall c | c in cycles :: |c| == |nodes| - t + 1 && forall x :: x in c <==> x in nodes[t..]
  {
    ChainBounds(g, nodes, Some(t));
    hide IsChain;
    hide Cycle;
    var last, loop := nodes[|nodes| - 1], nodes[t..] + [nodes[t]];
    ChainCycles(g, nodes, Some(t));
    ChainIsFunctional(g, nodes, Some(t));
    assert last == loop[|loop| - 2] && loop[|loop| - 2] in loop;
    forall c | c in cycles
      ensures Canonicalize(c) == Canonicalize(loop) && |c| == |loop| && forall x :: x in c <==> x in nodes[t..]
    {
      CycleHasLastNode(g, nodes, Some(t), c);
      SharedNodeSameCycle(g, c, loop, last);
      CycleEnds(g, c);
      CanonicalHasSameNodes(c);
      CanonicalHasSameNodes(loop);
      assert nodes[t] == nodes[t..][0];
      assert forall x :: x in loop <==> x in nodes[t..];
    }
    if |cycles| >= 2 {
      TwoForms(g, cycles);
    }
  }

  lemma {:induction false} TwoForms(g: Graph, cycles: seq<seq<Node>>)
    requires Sound(g, cycles) && |cycles| >= 2
    ensures exists c, d :: c in cycles && d in cycles && Canonicalize(c) != Canonicalize(d)
  {
    assert cycles[0] in cycles && cycles[1] in cycles;
    assert Canonicalize(cycles[0]) != Canonicalize(cycles[1]);
  }

  lemma {:induction false} ChainBounds(g: Graph, nodes: seq<Node>, back: Option<nat>)
    requires IsChain(g, nodes, back)
    ensures nodes != [] && (back.Some? ==> back.value < |nodes|)
  {
  }

  lemma {:induction false} CycleEnds(g: Graph, c: seq<Node>)
    requires Cycle(g, c)
    ensures |c| >= 2 && c[0] == c[|c| - 1]
  {
  }

  method BuildChain(nodes: seq<Node>, back: Option<nat>) returns (deps: Graph)
    requires Distinct(nodes) && nodes != [] && (back.Some? ==> back.value < |nodes|)
    ensures IsChain(deps, nodes, back)
  {
    hide HasKeys;
    hide Distinct;
    deps := map[];
    NoKeys();
    assert nodes[..0] == [];
    var last := |nodes| - 1;
    for i := 0 to last
      invariant HasKeys(deps, nodes[..i])
      invariant forall k | 0 <= k < i :: nodes[k] in deps && deps[nodes[k]] == {nodes[k + 1]}
    {
      AddNode(deps, nodes, i, {nodes[i + 1]});
      deps := deps[nodes[i] := {nodes[i + 1]}];
    }
    ghost var before, targets := deps, if back.Some? then {nodes[back.value]} else {};
    AddNode(before, nodes, last, targets);
    assert nodes == nodes[..last + 1];
    deps := deps[nodes[last] := {}];
    if back.Some? {
      deps := deps[nodes[last] := deps[nodes[last]] + {nodes[back.value]}];
      assert deps[nodes[last]] == targets;
    }
    assert deps == before[nodes[last] := targets];
  }

  function After(i: nat, n: nat): (j: nat)
    requires i < n
    ensures j < n && j == if i + 1 < n then i + 1 else 0
  {
    (i + 1) % n
  }

  method BuildRing(nodes: seq<Node>) returns (deps: Graph)
    requires Distinct(nodes) && nodes != []
    ensures IsChain(deps, nodes, Some(0))
  {
    hide After;
    hide HasKeys;
    hide Distinct;
    deps := map[];
    NoKeys();
    assert nodes[..0] == [];
    for i := 0 to |nodes|
      invariant HasKeys(deps, nodes[..i])
      invariant forall k | 0 <= k < i :: nodes[k] in deps && deps[nodes[k]] == {nodes[After(k, |nodes|)]}
    {
      AddNode(deps, nodes, i, {nodes[After(i, |nodes|)]});
      deps := deps[nodes[i] := {nodes[After(i, |nodes|)]}];
    }
    assert nodes[..|nodes|] == nodes;
    forall i | 0 <= i < |nodes| - 1 ensures deps[nodes[i]] == {nodes[i + 1]} {
      assert After(i, |nodes|) == i + 1;
    }
    assert After(|nodes| - 1, |nodes|) == 0;
  }

  /** A ring is found, once, exactly when its nodes fit the stack limit. */
  method DetectInRing(nodes: seq<Node>, maxCycles: int, maxStack: int) returns (deps: Graph, cycles: seq<seq<Node>>)
    requires Distinct(nodes) && nodes != [] && maxCycles >= 1
    ensures IsChain(deps, nodes, Some(0)) && Cycle(deps, Close(nodes))
    ensures |cycles| == if |nodes| <= StackBound(Limits(maxCycles, maxStack)) then 1 else 0
    ensures forall c | c in cycles :: |c| == |nodes| + 1 && forall x :: x in c <==> x in nodes
  {
    hide IsChain;
    hide Cycle;
    deps := BuildRing(nodes);
    cycles := DetectCycles(deps, maxCycles, maxStack);
    ChainCycles(deps, nodes, Some(0));
    assert nodes[0..] == nodes;
    FoundInChain(deps, nodes, 0, cycles);
    if |nodes| <= StackBound(Limits(maxCycles, maxStack)) {
      LoopFits(deps, nodes, 0, maxStack);
      if |cycles| < maxCycles {
        FoundWithSameNodes(deps, maxStack, cycles, Close(nodes));
      }
    } else {
      forall c ensures c !in cycles {
        assert |nodes| + 1 > StackBound(Limits(maxCycles, maxStack)) + 1;
      }
      NothingLeft(cycles);
    }
  }

  /** With the limits of the library, a ring of more nodes than the stack limit has a cycle that is not found. */
  method StackLimitHidesCycle(extra: nat) returns (deps: Graph, cycles: seq<seq<Node>>)
    requires extra > 0
    ensures Cycle(deps, Close(Names("ring_", 100000 + extra))) && cycles == []
  {
    var nodes := Names("ring_", MAX_GRAPH_DFS_STACK + extra);
    NamesAreDistinct("ring_", MAX_GRAPH_DFS_STACK + extra);
    deps, cycles := DetectInRing(nodes, MAX_DETECTED_CYCLES, MAX_GRAPH_DFS_STACK);
  }

  /**
   Without a back-edge nothing is found, whatever the depth. With one, exactly the loop that it closes is found, if and
   only if the loop's nodes fit the stack limit, however long the chain is that leads to it.
   */
  method DetectInChain(depth: nat, back: Option<nat>) returns (cycles: seq<seq<Node>>)
    requires 0 < depth && (back.Some? ==> back.value < depth)
    ensures back.None? ==> cycles == []
    ensures back.Some? ==> |cycles| == if depth - back.value <= 100000 then 1 else 0
    ensures back.Some? ==>
              forall c | c in cycles ::
                |c| == depth - back.value + 1 && forall x :: x in c <==> x in Names("chain_", depth)[back.value..]
  {
    hide Sound;
    hide CompleteWithin;
    hide IsChain;
    hide Cycle;
    hide CanOverflow;
    hide Fits;
    var nodes := Names("chain_", depth);
    NamesAreDistinct("chain_", depth);
    var deps := BuildChain(nodes, back);
    cycles := Detect(deps);
    ChainCycles(deps, nodes, back);
    if back.None? {
      NothingInAcyclic(deps, cycles);
    } else {
      FoundInChain(deps, nodes, back.value, cycles);
      if depth - back.value <= MAX_GRAPH_DFS_STACK {
        LoopFits(deps, nodes, back.value, MAX_GRAPH_DFS_STACK);
        FoundWithSameNodes(deps, MAX_GRAPH_DFS_STACK, cycles, nodes[back.value..] + [nodes[back.value]]);
      } else {
        forall c ensures c !in cycles {
          assert depth - back.value + 1 > MAX_GRAPH_DFS_STACK + 1;
        }
        NothingLeft(cycles);
      }
    }
  }
}
