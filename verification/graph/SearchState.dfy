/**
 The state of the cycle search, as a value, and what each of its steps keeps.

 The search is depth-first with an explicit stack, and it does not stop at nodes it has seen before: it walks along
 every simple path from its start nodes. `walked` is the history of those paths.
 */
module SearchState {
  import opened CycleKeys
  import opened Graphs
  import opened Sequences

  datatype Entry = Entry(node: Node, entering: bool, neighbors: seq<Node>)

  datatype State = State(
    globallyVisited: set<Node>,
    cycles: seq<seq<Node>>,
    seen: set<seq<Node>>,
    path: seq<Node>,
    recStack: set<Node>,
    stack: seq<Entry>,
    walked: set<seq<Node>>)

  datatype Limits = Limits(maxCycles: int, maxStack: int)

  /** A list of the elements of a set, each once, in any order. */
  ghost predicate Lists(list: seq<Node>, s: set<Node>) {
    |list| == |s| && Distinct(list) && forall x :: x in list <==> x in s
  }

  /** The nodes whose exit entries are on the stack: the path the search stands on. */
  ghost function PathOf(stack: seq<Entry>): (p: seq<Node>)
    ensures |p| <= |stack|
  {
    if stack == [] then []
    else
      var below := PathOf(stack[..|stack| - 1]);
      if Last(stack).entering then below else below + [Last(stack).node]
  }

  /** The path that the stack entry at `i` stands for. */
  ghost function PathAt(stack: seq<Entry>, i: nat): seq<Node>
    requires i < |stack|
  {
    PathOf(stack[..i]) + [stack[i].node]
  }

  ghost predicate Pending(stack: seq<Entry>, p: seq<Node>) {
    exists i: nat :: i < |stack| && stack[i].entering && PathAt(stack, i) == p
  }

  /** The cycle that an edge from the end of `path` back to `w` closes. */
  function CycleAt(path: seq<Node>, w: Node): seq<Node>
    requires w in path
  {
    path[IndexOf(path, w)..] + [w]
  }

  ghost predicate EntryOk(g: Graph, stack: seq<Entry>, i: nat)
    requires i < |stack|
  {
    && SimplePath(g, PathAt(stack, i)) && PathAt(stack, i)[0] in g
    && (stack[i].entering ==> Lists(stack[i].neighbors, Succ(g, stack[i].node)))
    && (!stack[i].entering ==> i <= Demand(g, PathOf(stack[..i])))
  }

  ghost predicate StackOk(g: Graph, s: State) {
    && s.path == PathOf(s.stack)
    && (s.path != [] ==> s.path[0] in g)
    && (forall x :: x in s.recStack <==> x in s.path)
    && (forall i: nat | i < |s.stack| :: EntryOk(g, s.stack, i))
  }

  /** The extension of a walked path by one edge has been dealt with: its cycle is recorded, or it is walked, or queued. */
  ghost predicate Handled(s: State, p: seq<Node>, w: Node) {
    if w in p then Canonicalize(CycleAt(p, w)) in s.seen
    else p + [w] in s.walked || Pending(s.stack, p + [w])
  }

  /** The stack may have been full when the extension was to be queued. */
  ghost predicate Refused(g: Graph, lim: Limits, p: seq<Node>, w: Node) { w !in p && Demand(g, p) >= lim.maxStack }

  /** Every extension is dealt with or refused, except that of the current path by the nodes in `todo`. */
  ghost predicate Covered(g: Graph, lim: Limits, s: State, todo: set<Node>) {
    forall p, w | p in s.walked && p != [] && w in Succ(g, Last(p)) && !(p == s.path && w in todo) ::
      Handled(s, p, w) || Refused(g, lim, p, w)
  }

  ghost predicate Recorded(g: Graph, s: State) {
    && (forall c | c in s.cycles :: Cycle(g, c))
    && (forall i, j | 0 <= i < j < |s.cycles| :: Canonicalize(s.cycles[i]) != Canonicalize(s.cycles[j]))
    && (forall k :: k in s.seen <==> exists i :: 0 <= i < |s.cycles| && Canonicalize(s.cycles[i]) == k)
  }

  ghost predicate Walked(g: Graph, s: State) {
    && (forall p | p in s.walked :: SimplePath(g, p) && p[0] in g)
    && (forall p, i | p in s.walked && 1 <= i <= |p| :: p[..i] in s.walked)
    && (s.path == [] || s.path in s.walked)
    && (forall u | u in s.globallyVisited :: exists p :: p in s.walked && p != [] && Last(p) == u)
  }

  /** One entry is put on the stack whatever the limit. */
  function StackBound(lim: Limits): nat { if lim.maxStack < 1 then 1 else lim.maxStack }

  /** Neither limit is exceeded, and what is on the stack belongs to the current path. */
  ghost predicate WithinLimits(g: Graph, lim: Limits, s: State, room: nat) {
    && (|s.cycles| <= lim.maxCycles || s.cycles == [])
    && |s.stack| + room <= Demand(g, s.path) + 1
    && |s.stack| <= StackBound(lim)
    && (forall c | c in s.cycles :: |c| <= StackBound(lim) + 1)
  }

  ghost predicate Inv(g: Graph, lim: Limits, s: State, todo: set<Node>, room: nat) {
    && StackOk(g, s)
    && Recorded(g, s)
    && Walked(g, s)
    && WithinLimits(g, lim, s, room)
    && (|s.cycles| < lim.maxCycles ==> Covered(g, lim, s, todo))
  }

  // ---------------------------------------------------------------------------
  // Steps
  // ---------------------------------------------------------------------------

  const INITIAL := State({}, [], {}, [], {}, [], {})

  function Begin(s: State, root: Node, neighbors: seq<Node>): State {
    s.(path := [], recStack := {}, stack := [Entry(root, true, neighbors)])
  }

  function Pop(s: State): State
    requires s.stack != []
  {
    s.(stack := s.stack[..|s.stack| - 1])
  }

  function Enter(s: State, node: Node): State {
    s.(globallyVisited := s.globallyVisited + {node}, recStack := s.recStack + {node}, path := s.path + [node],
       stack := s.stack + [Entry(node, false, [])], walked := s.walked + {s.path + [node]})
  }

  function RecordCycle(s: State, w: Node): State
    requires w in s.path
  {
    var cycle := CycleAt(s.path, w);
    if Canonicalize(cycle) in s.seen then s
    else s.(seen := s.seen + {Canonicalize(cycle)}, cycles := s.cycles + [cycle])
  }

  function Queue(s: State, lim: Limits, w: Node, neighbors: seq<Node>): State {
    if w in s.recStack then s
    else if |s.stack| >= lim.maxStack then s
    else s.(stack := s.stack + [Entry(w, true, neighbors)])
  }

  function Finish(s: State, node: Node): State
    requires s.path != []
  {
    s.(path := s.path[..|s.path| - 1], recStack := s.recStack - {node})
  }

  // ---------------------------------------------------------------------------
  // Facts about stacks
  // ---------------------------------------------------------------------------

  lemma {:induction false} Pushed(stack: seq<Entry>, e: Entry)
    ensures PathOf(stack + [e]) == if e.entering then PathOf(stack) else PathOf(stack) + [e.node]
    ensures forall i: nat | i < |stack| :: PathAt(stack + [e], i) == PathAt(stack, i)
    ensures forall i: nat | i < |stack| :: (stack + [e])[..i] == stack[..i]
    ensures PathAt(stack + [e], |stack|) == PathOf(stack) + [e.node]
    ensures forall p :: Pending(stack + [e], p) <==> Pending(stack, p) || (e.entering && p == PathOf(stack) + [e.node])
  {
    var more := stack + [e];
    assert more[..|more| - 1] == stack;
    forall i: nat | i < |stack| ensures more[..i] == stack[..i] {
    }
    forall p ensures Pending(more, p) <==> Pending(stack, p) || (e.entering && p == PathOf(stack) + [e.node]) {
      if Pending(stack, p) {
        var i: nat :| i < |stack| && stack[i].entering && PathAt(stack, i) == p;
        assert more[i].entering && PathAt(more, i) == p;
      }
      if e.entering && p == PathOf(stack) + [e.node] {
        assert more[|stack|].entering && PathAt(more, |stack|) == p;
      }
      if Pending(more, p) {
        var i: nat :| i < |more| && more[i].entering && PathAt(more, i) == p;
        assert i < |stack| ==> stack[i].entering && PathAt(stack, i) == p;
      }
    }
  }
}
