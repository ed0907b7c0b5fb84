/** Each step of the cycle search keeps its invariant. */
module SearchSteps {
  import opened CycleKeys
  import opened Graphs
  import opened SearchState

  /** The stack as a push on what is below its top. */
  lemma {:induction false} TopOf(stack: seq<Entry>) returns (base: seq<Entry>, top: Entry)
    requires stack != []
    ensures base == stack[..|stack| - 1] && top == Last(stack) && stack == base + [top]
  {
    base, top := stack[..|stack| - 1], Last(stack);
  }

  lemma {:induction false} EntriesStay(g: Graph, base: seq<Entry>, e: Entry)
    requires forall i: nat | i < |base| :: EntryOk(g, base, i)
    requires EntryOk(g, base + [e], |base|)
    ensures forall i: nat | i < |base| + 1 :: EntryOk(g, base + [e], i)
  {
    Pushed(base, e);
    forall i: nat | i < |base| ensures EntryOk(g, base + [e], i) {
      assert EntryOk(g, base, i);
      assert PathAt(base + [e], i) == PathAt(base, i);
    }
  }

  lemma {:induction false} EntriesBelow(g: Graph, base: seq<Entry>, e: Entry)
    requires forall i: nat | i < |base| + 1 :: EntryOk(g, base + [e], i)
    ensures forall i: nat | i < |base| :: EntryOk(g, base, i)
  {
    Pushed(base, e);
    forall i: nat | i < |base| ensures EntryOk(g, base, i) {
      assert EntryOk(g, base + [e], i);
      assert PathAt(base + [e], i) == PathAt(base, i);
    }
  }

  // A part of the invariant depends on some fields only.

  lemma {:induction false} SameStack(g: Graph, s: State, s': State)
    requires StackOk(g, s) && s'.stack == s.stack && s'.path == s.path && s'.recStack == s.recStack
    ensures StackOk(g, s')
  {
  }

  lemma {:induction false} SameRecord(g: Graph, s: State, s': State)
    requires Recorded(g, s) && s'.cycles == s.cycles && s'.seen == s.seen
    ensures Recorded(g, s')
  {
  }

  lemma {:induction false} SameWalks(g: Graph, s: State, s': State)
    requires Walked(g, s) && s'.walked == s.walked && s'.globallyVisited == s.globallyVisited
    requires s'.path == [] || s'.path in s'.walked
    ensures Walked(g, s')
  {
  }

  /** Entering the top entry: its path is walked, and its neighbours are still to be dealt with. */
  lemma {:induction false} EnterKeepsInv(g: Graph, lim: Limits, s: State)
    requires Inv(g, lim, s, {}, 0) && s.stack != [] && Last(s.stack).entering
    ensures var node := Last(s.stack).node;
            && node !in s.recStack
            && Inv(g, lim, Enter(Pop(s), node), Succ(g, node), |Succ(g, node)|)
  {
    hide Recorded;
    hide Walked;
    hide Covered;
    hide StackOk;
    hide SimplePath;
    hide WithinLimits;
    var base, e := TopOf(s.stack);
    var q := s.path + [e.node];
    var s' := Enter(Pop(s), e.node);
    EnterLimits(g, lim, s, e.node);
    EnterStack(g, s, base, e, s');
    assert q[..|q| - 1] == s.path && Last(q) == e.node;
    EnterWalks(g, s, q, s');
    SameRecord(g, s, s');
    if |s.cycles| < lim.maxCycles {
      EnterCovers(g, lim, s, base, e, s');
    }
  }

  lemma {:induction false} EnterLimits(g: Graph, lim: Limits, s: State, node: Node)
    requires WithinLimits(g, lim, s, 0) && s.stack != []
    ensures |s.stack| - 1 <= Demand(g, s.path)
    ensures WithinLimits(g, lim, Enter(Pop(s), node), |Succ(g, node)|)
  {
    assert (s.path + [node])[..|s.path|] == s.path;
  }

  lemma {:induction false} EnterStack(g: Graph, s: State, base: seq<Entry>, e: Entry, s': State)
    requires StackOk(g, s) && s.stack == base + [e] && e.entering
    requires |base| <= Demand(g, s.path)
    requires s' == Enter(Pop(s), e.node)
    ensures StackOk(g, s')
    ensures SimplePath(g, s.path + [e.node]) && (s.path + [e.node])[0] in g && e.node !in s.recStack
    ensures s.path == PathOf(base)
  {
    var exit := Entry(e.node, false, []);
    var q := s.path + [e.node];
    Pushed(base, e);
    Pushed(base, exit);
    assert EntryOk(g, s.stack, |base|);
    EntriesBelow(g, base, e);
    forall j | 0 <= j < |s.path| ensures s.path[j] != e.node {
      assert q[j] != q[|s.path|];
    }
    assert (base + [exit])[..|base|] == base;
    EntriesStay(g, base, exit);
  }

  lemma {:induction false} EnterWalks(g: Graph, s: State, q: seq<Node>, s': State)
    requires Walked(g, s) && SimplePath(g, q) && q[0] in g && q[..|q| - 1] == s.path
    requires s'.walked == s.walked + {q} && s'.path == q
    requires s'.globallyVisited == s.globallyVisited + {Last(q)}
    ensures Walked(g, s')
  {
    forall p, i | p in s'.walked && 1 <= i <= |p| ensures p[..i] in s'.walked {
      if p == q {
        if i < |q| {
          assert q[..i] == s.path[..i];
        } else {
          assert q[..i] == q;
        }
      }
    }
    forall u | u in s'.globallyVisited ensures exists p :: p in s'.walked && p != [] && Last(p) == u {
      if u != Last(q) {
        var p :| p in s.walked && p != [] && Last(p) == u;
        assert p in s'.walked;
      } else {
        assert q in s'.walked;
      }
    }
  }

  lemma {:induction false} EnterCovers(g: Graph, lim: Limits, s: State, base: seq<Entry>, e: Entry, s': State)
    requires s.stack == base + [e] && e.entering && s.path == PathOf(base)
    requires s' == Enter(Pop(s), e.node)
    requires Covered(g, lim, s, {})
    ensures Covered(g, lim, s', Succ(g, e.node))
  {
    var exit := Entry(e.node, false, []);
    Pushed(base, e);
    Pushed(base, exit);
    assert s'.stack == base + [exit];
    forall p, w | p in s'.walked && p != [] && w in Succ(g, Last(p)) && !(p == s'.path && w in Succ(g, e.node))
      ensures Handled(s', p, w) || Refused(g, lim, p, w)
    {
      assert p in s.walked;
      assert Handled(s, p, w) || Refused(g, lim, p, w);
    }
  }

  lemma {:induction false} BackEdgeClosesCycle(g: Graph, path: seq<Node>, w: Node)
    requires SimplePath(g, path) && w in path && w in Succ(g, Last(path))
    ensures Cycle(g, CycleAt(path, w))
    ensures |CycleAt(path, w)| <= |path| + 1
  {
    var c := CycleAt(path, w);
    var i := IndexOf(path, w);
    assert c[..|c| - 1] == path[i..];
    assert forall j | 0 <= j < |c| - 1 :: c[j] == path[i + j];
    assert Walk(g, c) by {
      forall j | 0 <= j < |c| - 1 ensures c[j + 1] in Succ(g, c[j]) {
        if j < |c| - 2 {
          assert path[i + j + 1] in Succ(g, path[i + j]);
        }
      }
    }
  }

  /** An edge back into the path: its cycle is real, and it is recorded unless a rotation of it already is. */
  lemma {:induction false} RecordKeepsInv(g: Graph, lim: Limits, s: State, todo: set<Node>, room: nat, w: Node)
    requires Inv(g, lim, s, todo, room) && w in s.path && w in Succ(g, Last(s.path))
    requires |s.cycles| < lim.maxCycles
    ensures Inv(g, lim, RecordCycle(s, w), todo - {w}, room)
  {
    hide Recorded;
    hide Walked;
    hide Covered;
    hide StackOk;
    var c := CycleAt(s.path, w);
    var s' := RecordCycle(s, w);
    CurrentPathIsSimple(g, s);
    BackEdgeClosesCycle(g, s.path, w);
    SameStack(g, s, s');
    PathIsShort(g, s);
    SameWalks(g, s, s');
    if s' != s {
      RecordedMore(g, s, c, s');
    }
    if |s.cycles| < lim.maxCycles {
      RecordCovers(g, lim, s, todo, w, s');
    }
  }

  lemma {:induction false} CurrentPathIsSimple(g: Graph, s: State)
    requires Walked(g, s)
    ensures s.path == [] || (s.path in s.walked && SimplePath(g, s.path))
  {
  }

  lemma {:induction false} PathIsShort(g: Graph, s: State)
    requires StackOk(g, s)
    ensures |s.path| <= |s.stack| && (s.path != [] ==> s.path[0] in g)
    ensures forall x :: x in s.recStack <==> x in s.path
  {
  }

  lemma {:induction false} RecordCovers(g: Graph, lim: Limits, s: State, todo: set<Node>, w: Node, s': State)
    requires Covered(g, lim, s, todo) && w in s.path && s' == RecordCycle(s, w)
    ensures Covered(g, lim, s', todo - {w})
  {
    forall p, v | p in s'.walked && p != [] && v in Succ(g, Last(p)) && !(p == s'.path && v in todo - {w})
      ensures Handled(s', p, v) || Refused(g, lim, p, v)
    {
      if !(p == s.path && v == w) {
        assert Handled(s, p, v) || Refused(g, lim, p, v);
      }
    }
  }

  lemma {:induction false} RecordedMore(g: Graph, s: State, c: seq<Node>, s': State)
    requires Recorded(g, s) && Cycle(g, c) && Canonicalize(c) !in s.seen
    requires s'.cycles == s.cycles + [c] && s'.seen == s.seen + {Canonicalize(c)}
    ensures Recorded(g, s')
  {
    var n := |s.cycles|;
    assert s'.cycles[n] == c && forall i | 0 <= i < n :: s'.cycles[i] == s.cycles[i];
    forall k | k in s'.seen ensures exists i :: 0 <= i < |s'.cycles| && Canonicalize(s'.cycles[i]) == k {
      if k in s.seen {
        var i :| 0 <= i < n && Canonicalize(s.cycles[i]) == k;
        assert Canonicalize(s'.cycles[i]) == k;
      }
    }
  }

  /** Any other neighbour is queued, or refused at the stack limit. */
  lemma {:induction false} QueueKeepsInv(g: Graph, lim: Limits, s: State, todo: set<Node>, room: nat, w: Node,
                                         neighbors: seq<Node>)
    requires Inv(g, lim, s, todo, room + 1) && s.path != [] && w !in s.path && w in Succ(g, Last(s.path))
    requires Lists(neighbors, Succ(g, w)) && s.path[0] in g
    ensures Inv(g, lim, Queue(s, lim, w, neighbors), todo - {w}, room)
  {
    if |s.stack| >= lim.maxStack {
      hide Handled;
      hide StackOk;
      hide Recorded;
      hide Walked;
      PathIsShort(g, s);
    } else {
      PathIsShort(g, s);
      PushKeepsInv(g, lim, s, todo, room, w, neighbors);
    }
  }

  lemma {:induction false} PushKeepsInv(g: Graph, lim: Limits, s: State, todo: set<Node>, room: nat, w: Node,
                                        neighbors: seq<Node>)
    requires Inv(g, lim, s, todo, room + 1) && s.path != [] && w !in s.path && w in Succ(g, Last(s.path))
    requires Lists(neighbors, Succ(g, w)) && s.path[0] in g
    requires |s.stack| < lim.maxStack
    ensures Inv(g, lim, s.(stack := s.stack + [Entry(w, true, neighbors)]), todo - {w}, room)
  {
    hide Recorded;
    hide Walked;
    hide Covered;
    hide StackOk;
    var s' := s.(stack := s.stack + [Entry(w, true, neighbors)]);
    CurrentPathIsSimple(g, s);
    PushStack(g, s, w, neighbors, s');
    SameRecord(g, s, s');
    SameWalks(g, s, s');
    if |s.cycles| < lim.maxCycles {
      QueueCovers(g, lim, s, todo, w, neighbors, s');
    }
  }

  lemma {:induction false} PushStack(g: Graph, s: State, w: Node, neighbors: seq<Node>, s': State)
    requires StackOk(g, s) && SimplePath(g, s.path) && s.path[0] in g
    requires w !in s.path && w in Succ(g, Last(s.path)) && Lists(neighbors, Succ(g, w))
    requires s' == s.(stack := s.stack + [Entry(w, true, neighbors)])
    ensures StackOk(g, s') && s.path == PathOf(s.stack) && |s.path| <= |s.stack|
  {
    var e := Entry(w, true, neighbors);
    Pushed(s.stack, e);
    Extends(g, s.path, w);
    assert PathAt(s'.stack, |s.stack|) == s.path + [w];
    EntriesStay(g, s.stack, e);
  }

  lemma {:induction false} Extends(g: Graph, p: seq<Node>, w: Node)
    requires SimplePath(g, p) && w !in p && w in Succ(g, Last(p))
    ensures SimplePath(g, p + [w])
  {
    var q := p + [w];
    assert forall i | 0 <= i < |p| :: q[i] == p[i] && p[i] in p;
  }

  lemma {:induction false} QueueCovers(g: Graph, lim: Limits, s: State, todo: set<Node>, w: Node,
                                       neighbors: seq<Node>, s': State)
    requires Covered(g, lim, s, todo) && s.path == PathOf(s.stack) && w !in s.path
    requires s' == s.(stack := s.stack + [Entry(w, true, neighbors)])
    ensures Covered(g, lim, s', todo - {w})
  {
    Pushed(s.stack, Entry(w, true, neighbors));
    forall p, v | p in s'.walked && p != [] && v in Succ(g, Last(p)) && !(p == s'.path && v in todo - {w})
      ensures Handled(s', p, v) || Refused(g, lim, p, v)
    {
      if !(p == s.path && v == w) {
        assert Handled(s, p, v) || Refused(g, lim, p, v);
      }
    }
  }

  /** Leaving a node takes the path back to where it was before it was entered. */
  lemma {:induction false} FinishKeepsInv(g: Graph, lim: Limits, s: State)
    requires Inv(g, lim, s, {}, 0) && s.stack != [] && !Last(s.stack).entering
    ensures s.path != [] && Last(s.path) == Last(s.stack).node
    ensures Inv(g, lim, Finish(Pop(s), Last(s.stack).node), {}, 0)
  {
    hide Recorded;
    hide Walked;
    hide Covered;
    hide StackOk;
    var base, e := TopOf(s.stack);
    FinishStack(g, s, base, e);
    var s' := Finish(Pop(s), e.node);
    SameRecord(g, s, s');
    ShorterPathIsWalked(g, s);
    SameWalks(g, s, s');
    if |s.cycles| < lim.maxCycles {
      FinishCovers(g, lim, s, base, e, s');
    }
  }

  lemma {:induction false} FinishStack(g: Graph, s: State, base: seq<Entry>, e: Entry)
    requires StackOk(g, s) && s.stack == base + [e] && !e.entering
    ensures s.path == PathOf(base) + [e.node]
    ensures StackOk(g, Finish(Pop(s), e.node))
    ensures |base| <= Demand(g, PathOf(base))
  {
    var s' := Finish(Pop(s), e.node);
    Pushed(base, e);
    EntriesBelow(g, base, e);
    assert EntryOk(g, s.stack, |base|);
    assert s.stack[..|base|] == base;
    assert SimplePath(g, s.path);
    forall x ensures x in s'.recStack <==> x in s'.path {
      if x in s'.path {
        var i := IndexOf(s'.path, x);
        assert s.path[i] == x;
        assert s.path[i] != s.path[|s.path| - 1];
      }
    }
  }

  lemma {:induction false} ShorterPathIsWalked(g: Graph, s: State)
    requires Walked(g, s) && s.path != []
    ensures |s.path| == 1 || s.path[..|s.path| - 1] in s.walked
  {
  }

  lemma {:induction false} FinishCovers(g: Graph, lim: Limits, s: State, base: seq<Entry>, e: Entry, s': State)
    requires Covered(g, lim, s, {}) && s.stack == base + [e] && !e.entering
    requires s'.walked == s.walked && s'.seen == s.seen && s'.stack == base
    ensures Covered(g, lim, s', {})
  {
    Pushed(base, e);
    forall p, v | p in s'.walked && p != [] && v in Succ(g, Last(p)) ensures Handled(s', p, v) || Refused(g, lim, p, v) {
      assert Handled(s, p, v) || Refused(g, lim, p, v);
    }
  }

  lemma {:induction false} BeginKeepsInv(g: Graph, lim: Limits, s: State, root: Node, neighbors: seq<Node>)
    requires Inv(g, lim, s, {}, 0) && s.stack == []
    requires root in g && Lists(neighbors, Succ(g, root))
    ensures Inv(g, lim, Begin(s, root, neighbors), {}, 0)
  {
    var s' := Begin(s, root, neighbors);
    Pushed([], s'.stack[0]);
    assert [] + s'.stack == s'.stack;
    assert PathAt(s'.stack, 0) == [root];
    if |s.cycles| < lim.maxCycles {
      forall p, v | p in s'.walked && p != [] && v in Succ(g, Last(p)) ensures Handled(s', p, v) || Refused(g, lim, p, v) {
        assert Handled(s, p, v) || Refused(g, lim, p, v);
      }
    }
  }
}
