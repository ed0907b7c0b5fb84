/** The bounded cycle search itself: an iterative depth-first search with an explicit stack. */
module CycleSearch {
  import opened CycleKeys
  import opened Graphs
  import opened SearchState
  import opened SearchSteps
  import opened SearchBounds

  /** The elements of a set as a list, in an order nobody promises. */
  method ListOf(s: set<Node>) returns (list: seq<Node>)
    ensures Lists(list, s)
  {
    list := [];
    var rest := s;
    while rest != {}
      invariant rest <= s && Lists(list, s - rest)
      decreases rest
    {
      var x :| x in rest;
      assert s - (rest - {x}) == (s - rest) + {x};
      list, rest := list + [x], rest - {x};
    }
    assert s - rest == s;
  }

  class Search {
    const graph: Graph
    const limits: Limits
    var globallyVisited: set<Node>
    var cycles: seq<seq<Node>>
    var seen: set<seq<Node>>
    var path: seq<Node>
    var recStack: set<Node>
    var stack: seq<Entry>
    ghost var walked: set<seq<Node>>

    constructor (g: Graph, lim: Limits)
      ensures graph == g && limits == lim && Value() == INITIAL
    {
      graph, limits := g, lim;
      globallyVisited, cycles, seen, path, recStack, stack := {}, [], {}, [], {}, [];
      walked := {};
    }

    ghost function Value(): State
      reads this
    {
      State(globallyVisited, cycles, seen, path, recStack, stack, walked)
    }

    method AppendCycle(neighbor: Node)
      requires neighbor in path
      modifies this
      ensures Value() == RecordCycle(old(Value()), neighbor)
    {
      var cycleStart := IndexOf(path, neighbor);
      var cycle := path[cycleStart..] + [neighbor];
      var canonical := Canonicalize(cycle);
      if canonical in seen {
        return;
      }
      seen := seen + {canonical};
      cycles := cycles + [cycle];
    }

    method QueueNeighbor(neighbor: Node) returns (ghost neighbors: seq<Node>)
      modifies this
      ensures Lists(neighbors, Succ(graph, neighbor))
      ensures Value() == Queue(old(Value()), limits, neighbor, neighbors)
    {
      var list := ListOf(Succ(graph, neighbor));
      neighbors := list;
      if neighbor in recStack || |stack| >= limits.maxStack {
        return;
      }
      stack := stack + [Entry(neighbor, true, list)];
    }

    method FinishNode(node: Node)
      requires path != []
      modifies this
      ensures Value() == Finish(old(Value()), node)
    {
      path := path[..|path| - 1];
      recStack := recStack - {node};
    }

    /** One turn of the loop over an entered node's neighbours. */
    method DealWith(neighbor: Node, ghost todo: set<Node>, ghost room: nat)
      requires Inv(graph, limits, Value(), todo, room + 1) && |cycles| < limits.maxCycles
      requires path != [] && neighbor in Succ(graph, Last(path))
      modifies this
      ensures Inv(graph, limits, Value(), todo - {neighbor}, room)
      ensures path == old(path) && globallyVisited == old(globallyVisited)
      ensures var n := |Nodes(graph)|;
              Weight(stack, n) <= Weight(old(stack), n) + Subtree(Left(n, |path|), n)
    {
      hide Recorded;
      hide Walked;
      hide Covered;
      hide StackOk;
      hide Weight;
      ghost var s := Value();
      PathIsShort(graph, s);
      if neighbor in recStack {
        AppendCycle(neighbor);
        RecordKeepsInv(graph, limits, s, todo, room + 1, neighbor);
      } else {
        ghost var list := QueueNeighbor(neighbor);
        QueueKeepsInv(graph, limits, s, todo, room, neighbor, list);
        QueueWeighs(graph, s, limits, neighbor, list);
      }
    }

    /** The node joins the path, and its exit entry takes the place of the entry just popped from `before`. */
    method EnterNode(node: Node, ghost before: State)
      requires Inv(graph, limits, before, {}, 0) && before.stack != []
      requires Last(before.stack).entering && Last(before.stack).node == node
      requires Value() == Pop(before)
      modifies this
      ensures Inv(graph, limits, Value(), Succ(graph, node), |Succ(graph, node)|)
      ensures Value() == Enter(Pop(before), node)
      ensures |before.path| < |Nodes(graph)|
      ensures Weight(before.stack, |Nodes(graph)|) + 1 ==
              Weight(stack, |Nodes(graph)|) + Subtree(Left(|Nodes(graph)|, |before.path|), |Nodes(graph)|)
      ensures |Last(before.stack).neighbors| <= |Nodes(graph)|
      ensures Lists(Last(before.stack).neighbors, Succ(graph, node))
    {
      hide Inv;
      hide Weight;
      EnterKeepsInv(graph, limits, before);
      EntryWeighs(graph, limits, before);
      globallyVisited := globallyVisited + {node};
      recStack := recStack + {node};
      path := path + [node];
      stack := stack + [Entry(node, false, [])];
      walked := walked + {path};
    }

    /** The enter phase for `node`, whose entry has just been popped from the stack of `before`. */
    method VisitEntering(node: Node, neighbors: seq<Node>, ghost before: State)
      requires Inv(graph, limits, before, {}, 0) && before.stack != []
      requires Last(before.stack) == Entry(node, true, neighbors)
      requires Value() == Pop(before) && |cycles| < limits.maxCycles
      modifies this
      ensures Inv(graph, limits, Value(), {}, 0)
      ensures Weight(stack, |Nodes(graph)|) < Weight(before.stack, |Nodes(graph)|)
      ensures old(globallyVisited) + {node} <= globallyVisited
    {
      hide Inv;
      hide Weight;
      hide Nodes;
      hide Lists;
      hide Rest;
      hide Subtree;
      ghost var n := |Nodes(graph)|;
      EnterNode(node, before);
      ghost var entered, weight, each := path, Weight(stack, n), Subtree(Left(n, |path|), n);
      RestShrinks(neighbors, Succ(graph, node), 0);
      ListLength(neighbors, Succ(graph, node));
      var j := 0;
      while j < |neighbors|
        invariant j <= |neighbors| && |cycles| < limits.maxCycles
        invariant Inv(graph, limits, Value(), Rest(neighbors, j), |neighbors| - j)
        invariant path == entered && old(globallyVisited) + {node} <= globallyVisited
        invariant Weight(stack, n) <= weight + j * each
      {
        RestShrinks(neighbors, Succ(graph, node), j);
        DealWith(neighbors[j], Rest(neighbors, j), |neighbors| - j - 1);
        assert (j + 1) * each == j * each + each;
        j := j + 1;
        if |cycles| >= limits.maxCycles {
          CutShort(graph, limits, Value(), Rest(neighbors, j), |neighbors| - j);
          EnteringPays(|before.path|, j, n);
          return;
        }
      }
      EnteringPays(|before.path|, j, n);
      RestShrinks(neighbors, Succ(graph, node), j);
    }

    /** The search from one start node. */
    method Explore(start: Node)
      requires Inv(graph, limits, Value(), {}, 0) && stack == [] && start in graph
      requires |cycles| < limits.maxCycles
      modifies this
      ensures Inv(graph, limits, Value(), {}, 0)
      ensures |cycles| < limits.maxCycles ==> stack == [] && start in globallyVisited
      ensures old(globallyVisited) <= globallyVisited
    {
      hide Inv;
      hide Weight;
      ghost var n := |Nodes(graph)|;
      var list := ListOf(Succ(graph, start));
      BeginKeepsInv(graph, limits, Value(), start, list);
      path, recStack := [], {};
      stack := [Entry(start, true, list)];
      while stack != [] && |cycles| < limits.maxCycles
        invariant Inv(graph, limits, Value(), {}, 0)
        invariant old(globallyVisited) <= globallyVisited
        invariant start in globallyVisited || (stack != [] && Last(stack).entering && Last(stack).node == start)
        decreases Weight(stack, n)
      {
        ghost var before := Value();
        var e := stack[|stack| - 1];
        stack := stack[..|stack| - 1];
        if !e.entering {
          FinishKeepsInv(graph, limits, before);
          FinishingPays(before.stack, n);
          FinishNode(e.node);
        } else {
          VisitEntering(e.node, e.neighbors, before);
        }
      }
    }
  }

  lemma {:induction false} FinishingPays(stack: seq<Entry>, n: nat)
    requires stack != [] && !Last(stack).entering
    ensures Weight(stack[..|stack| - 1], n) < Weight(stack, n)
  {
    var base, e := TopOf(stack);
    WeightPushed(base, e, n);
  }

  lemma {:induction false} InitialInv(g: Graph, lim: Limits)
    ensures Inv(g, lim, INITIAL, {}, 0)
  {
  }

  /** Real cycles only, and no two of them rotations of each other. */
  ghost predicate Sound(g: Graph, cycles: seq<seq<Node>>) {
    && (forall c | c in cycles :: Cycle(g, c))
    && (forall i, j | 0 <= i < j < |cycles| :: Canonicalize(cycles[i]) != Canonicalize(cycles[j]))
  }

  /** Every elementary cycle of the graph, up to rotation. */
  ghost predicate Complete(g: Graph, cycles: seq<seq<Node>>) {
    forall c | Cycle(g, c) :: exists i :: 0 <= i < |cycles| && Canonicalize(cycles[i]) == Canonicalize(c)
  }

  /** Every elementary cycle that fits the stack limit, up to rotation. */
  ghost predicate CompleteWithin(g: Graph, maxStack: int, cycles: seq<seq<Node>>) {
    forall c | Cycle(g, c) && Fits(g, c, maxStack) ::
      exists i :: 0 <= i < |cycles| && Canonicalize(cycles[i]) == Canonicalize(c)
  }

  lemma {:induction false} CompleteWithoutOverflow(g: Graph, maxStack: int, cycles: seq<seq<Node>>)
    requires CompleteWithin(g, maxStack, cycles) && !CanOverflow(g, maxStack)
    ensures Complete(g, cycles)
  {
    hide CanOverflow;
    hide Fits;
    hide Canonicalize;
    forall c | Cycle(g, c) ensures exists i :: 0 <= i < |cycles| && Canonicalize(cycles[i]) == Canonicalize(c) {
      AllFit(g, c, maxStack);
    }
  }

  lemma {:induction false} WhatIsRecorded(g: Graph, lim: Limits, s: State)
    requires Inv(g, lim, s, {}, 0)
    ensures Sound(g, s.cycles)
    ensures |s.cycles| <= lim.maxCycles || s.cycles == []
    ensures forall c | c in s.cycles :: |c| <= StackBound(lim) + 1
    ensures |s.cycles| < lim.maxCycles && s.stack == [] && g.Keys <= s.globallyVisited ==>
              CompleteWithin(g, lim.maxStack, s.cycles)
  {
    if |s.cycles| < lim.maxCycles && s.stack == [] && g.Keys <= s.globallyVisited {
      forall c | Cycle(g, c) && Fits(g, c, lim.maxStack)
        ensures exists i :: 0 <= i < |s.cycles| && Canonicalize(s.cycles[i]) == Canonicalize(c)
      {
        CycleIsRecorded(g, lim, s, c);
      }
    }
  }

  /**
   The elementary cycles of a graph. Every result is a real cycle and no two results are rotations of each other. When
   fewer than `maxCycles` are found, every elementary cycle that fits the stack limit is among them, up to rotation, and
   so every one when no path of the graph overflows the stack. A cycle with more nodes than the stack limit is never
   found.
   */
  method DetectCycles(dependencies: Graph, maxCycles: int, maxStack: int) returns (cycles: seq<seq<Node>>)
    ensures Sound(dependencies, cycles)
    ensures |cycles| <= maxCycles || cycles == []
    ensures forall c | c in cycles :: |c| <= StackBound(Limits(maxCycles, maxStack)) + 1
    ensures |cycles| < maxCycles ==> CompleteWithin(dependencies, maxStack, cycles)
    ensures |cycles| < maxCycles && !CanOverflow(dependencies, maxStack) ==> Complete(dependencies, cycles)
  {
    hide CompleteWithin;
    hide Sound;
    hide Complete;
    hide Inv;
    hide Cycle;
    hide CanOverflow;
    var search := new Search(dependencies, Limits(maxCycles, maxStack));
    InitialInv(dependencies, search.limits);
    var keys := ListOf(dependencies.Keys);
    var i := 0;
    while i < |keys|
      invariant i <= |keys|
      invariant Inv(dependencies, search.limits, search.Value(), {}, 0)
      invariant |search.cycles| < maxCycles ==>
                search.stack == [] && forall k | 0 <= k < i :: keys[k] in search.globallyVisited
    {
      if keys[i] !in search.globallyVisited {
        if |search.cycles| >= maxCycles {
          break;
        }
        search.Explore(keys[i]);
      }
      i := i + 1;
    }
    WhatIsRecorded(dependencies, search.limits, search.Value());
    cycles := search.cycles;
    assert |cycles| < maxCycles ==> dependencies.Keys <= search.globallyVisited;
    if |cycles| < maxCycles && !CanOverflow(dependencies, maxStack) {
      CompleteWithoutOverflow(dependencies, maxStack, cycles);
    }
  }
}
