/** Binary min-heaps in a list, over any total order. */
module Heaps {
  ghost predicate Order<T(!new)>(leq: (T, T) -> bool) {
    && (forall x, y :: leq(x, y) || leq(y, x))
    && (forall x, y, z :: leq(x, y) && leq(y, z) ==> leq(x, z))
  }

  function Parent(i: int): (p: int)
    requires i > 0
    ensures 0 <= p < i && (i == 2 * p + 1 || i == 2 * p + 2)
  {
    (i - 1) / 2
  }

  /** No element is below its parent. */
  ghost predicate IsHeap<T>(h: seq<T>, leq: (T, T) -> bool) {
    forall i | 0 < i < |h| :: leq(h[Parent(i)], h[i])
  }

  lemma {:induction false} RootIsLeast<T(!new)>(h: seq<T>, leq: (T, T) -> bool, i: nat)
    requires Order(leq) && IsHeap(h, leq) && i < |h|
    ensures leq(h[0], h[i])
  {
    if i > 0 {
      RootIsLeast(h, leq, Parent(i));
      assert leq(h[Parent(i)], h[i]);
    }
  }

  lemma {:induction false} RootIsLeastOfAll<T(!new)>(h: seq<T>, leq: (T, T) -> bool)
    requires Order(leq) && IsHeap(h, leq)
    ensures forall x | x in h :: leq(h[0], x)
  {
    forall x | x in h ensures leq(h[0], x) {
      var i :| 0 <= i < |h| && h[i] == x;
      RootIsLeast(h, leq, i);
    }
  }

  // ---------------------------------------------------------------------------
  // Heaps with one element out of place
  // ---------------------------------------------------------------------------

  /** A heap but for the element at `pos`, which may be too small. */
  ghost predicate TooSmallAt<T>(h: seq<T>, leq: (T, T) -> bool, pos: nat)
    requires pos < |h|
  {
    && (forall i | 0 < i < |h| && i != pos :: leq(h[Parent(i)], h[i]))
    && (forall i | 0 < i < |h| && pos > 0 && Parent(i) == pos :: leq(h[Parent(pos)], h[i]))
  }

  /** A heap but for the element at `pos`, which is any element. */
  ghost predicate AnyAt<T>(h: seq<T>, leq: (T, T) -> bool, pos: nat)
    requires pos < |h|
  {
    && (forall i | 0 < i < |h| && i != pos && Parent(i) != pos :: leq(h[Parent(i)], h[i]))
    && (forall i | 0 < i < |h| && pos > 0 && Parent(i) == pos :: leq(h[Parent(pos)], h[i]))
  }

  function Swap<T>(h: seq<T>, i: nat, j: nat): (r: seq<T>)
    requires i < |h| && j < |h|
    ensures |r| == |h| && multiset(r) == multiset(h)
  {
    h[i := h[j]][j := h[i]]
  }

  lemma {:induction false} RiseStep<T(!new)>(h: seq<T>, leq: (T, T) -> bool, pos: nat)
    requires Order(leq) && 0 < pos < |h| && TooSmallAt(h, leq, pos) && !leq(h[Parent(pos)], h[pos])
    ensures TooSmallAt(Swap(h, pos, Parent(pos)), leq, Parent(pos))
  {
    var up := Parent(pos);
    var r := Swap(h, pos, up);
    forall i | 0 < i < |r| && i != up ensures leq(r[Parent(i)], r[i]) {
      if i != pos {
        assert leq(h[Parent(i)], h[i]);
      }
    }
    forall i | 0 < i < |r| && up > 0 && Parent(i) == up ensures leq(r[Parent(up)], r[i]) {
      assert leq(h[Parent(up)], h[up]);
      assert i == pos || leq(h[Parent(i)], h[i]);
    }
  }

  lemma {:induction false} SinkStep<T(!new)>(h: seq<T>, leq: (T, T) -> bool, pos: nat, child: nat)
    requires Order(leq) && pos < |h| && AnyAt(h, leq, pos)
    requires 0 < child < |h| && Parent(child) == pos
    requires forall i | 0 < i < |h| && Parent(i) == pos :: leq(h[child], h[i])
    ensures AnyAt(Swap(h, pos, child), leq, child)
  {
    var r := Swap(h, pos, child);
    forall i | 0 < i < |r| && i != child && Parent(i) != child ensures leq(r[Parent(i)], r[i]) {
      if i == pos {
        assert leq(h[Parent(pos)], h[child]);
      } else if Parent(i) != pos {
        assert leq(h[Parent(i)], h[i]);
      }
    }
    forall i | 0 < i < |r| && Parent(i) == child ensures leq(r[Parent(child)], r[i]) {
      assert leq(h[Parent(i)], h[i]);
    }
  }

  /** The element at `start` rises to where its parent is not greater. */
  method Rise<T(!new)>(h: seq<T>, leq: (T, T) -> bool, start: nat) returns (r: seq<T>)
    requires Order(leq) && start < |h| && TooSmallAt(h, leq, start)
    ensures IsHeap(r, leq) && multiset(r) == multiset(h)
  {
    hide Order;
    r := h;
    var pos := start;
    while pos > 0 && !leq(r[Parent(pos)], r[pos])
      invariant 0 <= pos < |r| && TooSmallAt(r, leq, pos) && multiset(r) == multiset(h)
    {
      RiseStep(r, leq, pos);
      r, pos := Swap(r, pos, Parent(pos)), Parent(pos);
    }
  }

  /** The root sinks along the smaller children to the bottom, and rises from there. */
  method Sink<T(!new)>(h: seq<T>, leq: (T, T) -> bool) returns (r: seq<T>)
    requires Order(leq) && h != [] && AnyAt(h, leq, 0)
    ensures IsHeap(r, leq) && multiset(r) == multiset(h)
  {
    hide Order;
    hide AnyAt;
    hide TooSmallAt;
    hide IsHeap;
    r := h;
    var pos, child := 0, 1;
    while child < |r|
      invariant 0 <= pos < |r| && child == 2 * pos + 1
      invariant AnyAt(r, leq, pos) && multiset(r) == multiset(h)
      decreases |r| - pos
    {
      var right := child + 1;
      if right < |r| && leq(r[right], r[child]) {
        child := right;
      }
      SmallerChild(r, leq, pos, child);
      SinkStep(r, leq, pos, child);
      r, pos := Swap(r, pos, child), child;
      child := 2 * pos + 1;
    }
    AtTheBottom(r, leq, pos);
    r := Rise(r, leq, pos);
  }

  lemma {:induction false} AtTheBottom<T(!new)>(h: seq<T>, leq: (T, T) -> bool, pos: nat)
    requires pos < |h| <= 2 * pos + 1 && AnyAt(h, leq, pos)
    ensures TooSmallAt(h, leq, pos)
  {
  }

  lemma {:induction false} SmallerChild<T(!new)>(h: seq<T>, leq: (T, T) -> bool, pos: nat, child: nat)
    requires Order(leq) && child < |h| && (child == 2 * pos + 1 || child == 2 * pos + 2)
    requires child == 2 * pos + 1 && child + 1 < |h| ==> !leq(h[child + 1], h[child])
    requires child == 2 * pos + 2 ==> leq(h[child], h[child - 1])
    ensures Parent(child) == pos
    ensures forall i | 0 < i < |h| && Parent(i) == pos :: leq(h[child], h[i])
  {
  }

  // ---------------------------------------------------------------------------
  // Operations
  // ---------------------------------------------------------------------------

  method Push<T(!new)>(h: seq<T>, leq: (T, T) -> bool, x: T) returns (r: seq<T>)
    requires Order(leq) && IsHeap(h, leq)
    ensures IsHeap(r, leq) && multiset(r) == multiset(h) + multiset{x}
  {
    var longer := h + [x];
    assert forall i | 0 < i < |h| :: leq(longer[Parent(i)], longer[i]);
    r := Rise(longer, leq, |h|);
  }

  /** The root makes way for `x`. */
  method ReplaceRoot<T(!new)>(h: seq<T>, leq: (T, T) -> bool, x: T) returns (r: seq<T>)
    requires Order(leq) && IsHeap(h, leq) && h != []
    ensures IsHeap(r, leq) && multiset(r) == multiset(h) - multiset{h[0]} + multiset{x}
  {
    r := Sink(h[0 := x], leq);
  }
}
