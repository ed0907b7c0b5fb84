/** The heaps that remember the slowest operations and the densest inputs, and what each of them really keeps. */
module Extremes {
  import opened Heaps
  import TextOrder

  const HEAP_SIZE := 10

  // ---------------------------------------------------------------------------
  // Slowest operations
  // ---------------------------------------------------------------------------

  datatype Slow = Slow(negated: real, pattern: string, hash: string)

  /** Entries compare as tuples: duration first, then the texts. */
  predicate SlowLeq(a: Slow, b: Slow) {
    a.negated < b.negated ||
    (a.negated == b.negated &&
     if a.pattern == b.pattern then TextOrder.Leq(a.hash, b.hash) else TextOrder.Leq(a.pattern, b.pattern))
  }

  lemma {:induction false} SlowOrder()
    ensures Order(SlowLeq)
  {
    hide TextOrder.Leq;
    forall x, y ensures SlowLeq(x, y) || SlowLeq(y, x) {
      TextOrder.Total(x.pattern, y.pattern);
      TextOrder.Total(x.hash, y.hash);
    }
    forall x, y, z | SlowLeq(x, y) && SlowLeq(y, z) ensures SlowLeq(x, z) {
      SlowTransitive(x, y, z);
    }
  }

  lemma {:induction false} SlowTransitive(x: Slow, y: Slow, z: Slow)
    requires SlowLeq(x, y) && SlowLeq(y, z)
    ensures SlowLeq(x, z)
  {
    hide TextOrder.Leq;
    if x.negated == y.negated == z.negated {
      if x.pattern == y.pattern == z.pattern {
        TextOrder.Transitive(x.hash, y.hash, z.hash);
      } else if x.pattern != y.pattern && y.pattern != z.pattern {
        TextOrder.Transitive(x.pattern, y.pattern, z.pattern);
        if x.pattern == z.pattern {
          TextOrder.Antisymmetric(x.pattern, y.pattern);
        }
      }
    }
  }

  /** What the heap holds after an operation: a full heap gives up its root, and only for a slower entry. */
  ghost function SlowContents(h: seq<Slow>, e: Slow): multiset<Slow> {
    if |h| < HEAP_SIZE then multiset(h) + multiset{e}
    else if e.negated < h[0].negated then multiset(h) - multiset{h[0]} + multiset{e}
    else multiset(h)
  }

  method TrackSlow(h: seq<Slow>, e: Slow) returns (r: seq<Slow>)
    requires IsHeap(h, SlowLeq)
    ensures IsHeap(r, SlowLeq) && multiset(r) == SlowContents(h, e)
  {
    SlowOrder();
    if |h| < HEAP_SIZE {
      r := Push(h, SlowLeq, e);
    } else if e.negated < h[0].negated {
      r := ReplaceRoot(h, SlowLeq, e);
    } else {
      r := h;
    }
  }

  /** A run of the tracker: the heap before any operation is empty. */
  ghost predicate SlowRun(heaps: seq<seq<Slow>>, entries: seq<Slow>) {
    && |heaps| == |entries| + 1 && heaps[0] == []
    && (forall i | 0 <= i < |heaps| :: IsHeap(heaps[i], SlowLeq))
    && (forall i {:trigger entries[i]} | 0 <= i < |entries| :: multiset(heaps[i + 1]) == SlowContents(heaps[i], entries[i]))
  }

  lemma {:induction false} SlowRootIsSlowest(h: seq<Slow>)
    requires IsHeap(h, SlowLeq)
    ensures forall x | x in h :: h[0].negated <= x.negated
  {
    SlowOrder();
    RootIsLeastOfAll(h, SlowLeq);
    forall x | x in h ensures h[0].negated <= x.negated {
      assert SlowLeq(h[0], x);
    }
  }

  /** Among entries that took equally long, the root has the first texts. */
  lemma {:induction false} SlowRootOfEqual(h: seq<Slow>, x: Slow)
    requires IsHeap(h, SlowLeq) && x in h && x.negated == h[0].negated
    ensures TextOrder.Leq(h[0].pattern, x.pattern)
    ensures h[0].pattern == x.pattern ==> TextOrder.Leq(h[0].hash, x.hash)
  {
    hide TextOrder.Leq;
    SlowOrder();
    RootIsLeastOfAll(h, SlowLeq);
    TextOrder.Reflexive(x.pattern);
  }

  ghost predicate RootIsSlowestOf(h: seq<Slow>, entries: seq<Slow>) {
    entries != [] ==> h != [] && h[0] in entries && forall e | e in entries :: h[0].negated <= e.negated
  }

  lemma {:induction false} SlowStep(h: seq<Slow>, entries: seq<Slow>, e: Slow, r: seq<Slow>)
    requires IsHeap(h, SlowLeq) && IsHeap(r, SlowLeq) && multiset(r) == SlowContents(h, e)
    requires (forall x | x in h :: x in entries) && RootIsSlowestOf(h, entries)
    ensures (forall x | x in r :: x in entries + [e]) && RootIsSlowestOf(r, entries + [e])
  {
    hide IsHeap;
    SlowRootIsSlowest(h);
    SlowRootIsSlowest(r);
    forall x | x in r ensures x in entries + [e] {
      assert x in multiset(r);
    }
    assert e in multiset(r) || h[0] in multiset(r);
    assert r != [] && r[0] in r;
    assert entries != [] ==> h[0] in multiset(r) || e.negated < h[0].negated;
  }

  lemma {:induction false} SlowRunShape(heaps: seq<seq<Slow>>, entries: seq<Slow>)
    requires SlowRun(heaps, entries)
    ensures |heaps| == |entries| + 1 && heaps[0] == [] && HEAP_SIZE == 10
  {
  }

  lemma {:induction false} SlowRunStep(heaps: seq<seq<Slow>>, entries: seq<Slow>, k: nat)
    requires SlowRun(heaps, entries) && k < |entries|
    ensures IsHeap(heaps[k], SlowLeq) && IsHeap(heaps[k + 1], SlowLeq)
    ensures multiset(heaps[k + 1]) == SlowContents(heaps[k], entries[k])
    ensures entries[..k + 1] == entries[..k] + [entries[k]]
  {
  }

  /** After any operations at all, the root of the heap is the slowest of them. */
  lemma {:induction false} RootIsAllTimeSlowest(heaps: seq<seq<Slow>>, entries: seq<Slow>, k: nat)
    requires SlowRun(heaps, entries) && k <= |entries|
    ensures forall x | x in heaps[k] :: x in entries[..k]
    ensures RootIsSlowestOf(heaps[k], entries[..k])
  {
    if k > 0 {
      RootIsAllTimeSlowest(heaps, entries, k - 1);
      SlowRunStep(heaps, entries, k - 1);
      hide *;
      SlowStep(heaps[k - 1], entries[..k - 1], entries[k - 1], heaps[k]);
    }
  }

  /** Once the heap is full, everything but its root stays as it is. */
  lemma {:induction false} AllButRootFreeze(h: seq<Slow>, e: Slow, r: seq<Slow>)
    requires IsHeap(h, SlowLeq) && |h| >= HEAP_SIZE && IsHeap(r, SlowLeq) && multiset(r) == SlowContents(h, e)
    ensures r != [] && multiset(r) - multiset{r[0]} == multiset(h) - multiset{h[0]}
  {
    hide IsHeap;
    SlowRootIsSlowest(h);
    SlowRootIsSlowest(r);
    assert |multiset(r)| == |h|;
    assert r[0] in multiset(r) && h[0] in multiset(h);
    if e.negated < h[0].negated {
      assert e in multiset(r);
    } else {
      SameRoot(h, r);
    }
  }

  lemma {:induction false} SameRoot(h: seq<Slow>, r: seq<Slow>)
    requires IsHeap(h, SlowLeq) && IsHeap(r, SlowLeq) && h != [] && multiset(r) == multiset(h)
    ensures r != [] && r[0] == h[0]
  {
    SlowOrder();
    RootIsLeastOfAll(h, SlowLeq);
    RootIsLeastOfAll(r, SlowLeq);
    assert h[0] in multiset(r) && |multiset(r)| == |r|;
    assert r[0] in multiset(h);
    SlowAntisymmetric(r[0], h[0]);
  }

  lemma {:induction false} SlowAntisymmetric(a: Slow, b: Slow)
    requires SlowLeq(a, b) && SlowLeq(b, a)
    ensures a == b
  {
    hide TextOrder.Leq;
    if a.pattern == b.pattern {
      TextOrder.Antisymmetric(a.hash, b.hash);
    } else {
      TextOrder.Antisymmetric(a.pattern, b.pattern);
    }
  }

  /** `kept` are the slowest of `all`. */
  ghost predicate KeepsSlowest(kept: multiset<Slow>, all: multiset<Slow>) {
    kept <= all && forall x, y | x in all - kept && y in kept :: y.negated <= x.negated
  }

  /**
   A full heap does not keep the slowest entries in general: it does exactly when the new operation is no slower than
   any kept one, or all kept ones take equally long.
   */
  lemma {:induction false} WhenSlowestAreKept(h: seq<Slow>, e: Slow, r: seq<Slow>)
    requires IsHeap(h, SlowLeq) && |h| >= HEAP_SIZE && IsHeap(r, SlowLeq) && multiset(r) == SlowContents(h, e)
    ensures KeepsSlowest(multiset(r), multiset(h) + multiset{e}) <==>
            (forall y | y in h :: y.negated <= e.negated) || (forall y | y in h :: y.negated == h[0].negated)
  {
    hide IsHeap;
    SlowRootIsSlowest(h);
    if e.negated < h[0].negated {
      AfterReplacing(h, e);
    } else {
      AfterIgnoring(h, e);
    }
  }

  lemma {:induction false} AfterReplacing(h: seq<Slow>, e: Slow)
    requires h != [] && (forall x | x in h :: h[0].negated <= x.negated) && e.negated < h[0].negated
    ensures KeepsSlowest(multiset(h) - multiset{h[0]} + multiset{e}, multiset(h) + multiset{e}) <==>
            forall y | y in h :: y.negated == h[0].negated
  {
    var m := multiset(h);
    var kept, all := m - multiset{h[0]} + multiset{e}, m + multiset{e};
    assert h[0] in m;
    assert all - kept == multiset{h[0]};
    assert forall y | y in m :: y == h[0] || y in kept;
    assert forall y | y in kept :: y == e || y in m;
    assert forall y | y in h :: y in m;
  }

  lemma {:induction false} AfterIgnoring(h: seq<Slow>, e: Slow)
    requires h != [] && (forall x | x in h :: h[0].negated <= x.negated) && e.negated >= h[0].negated
    ensures KeepsSlowest(multiset(h), multiset(h) + multiset{e}) <==>
            (forall y | y in h :: y.negated <= e.negated) || (forall y | y in h :: y.negated == h[0].negated)
  {
    var m := multiset(h);
    assert m + multiset{e} - m == multiset{e};
    assert forall y | y in h :: y in m;
    assert forall y | y in m :: y in h;
  }

  /** Up to ten operations are all kept; after that ten of them are. */
  ghost predicate TenOf(h: seq<Slow>, entries: seq<Slow>) {
    && |h| == (if |entries| < HEAP_SIZE then |entries| else HEAP_SIZE) && multiset(h) <= multiset(entries)
    && (|entries| <= HEAP_SIZE ==> multiset(h) == multiset(entries))
  }

  lemma {:induction false} TenOfStep(h: seq<Slow>, entries: seq<Slow>, e: Slow, r: seq<Slow>)
    requires TenOf(h, entries) && multiset(r) == SlowContents(h, e)
    ensures TenOf(r, entries + [e])
  {
    assert |r| == |multiset(r)|;
    if |h| >= HEAP_SIZE {
      assert h[0] in multiset(h);
    }
  }

  lemma {:induction false} TenOfNone(h: seq<Slow>, entries: seq<Slow>)
    requires h == []
    ensures TenOf(h, entries[..0])
  {
  }

  lemma {:induction false} HeapIsPartOfRun(heaps: seq<seq<Slow>>, entries: seq<Slow>, k: nat)
    requires SlowRun(heaps, entries) && k <= |entries|
    ensures TenOf(heaps[k], entries[..k])
  {
    hide *;
    SlowRunShape(heaps, entries);
    if k == 0 {
      TenOfNone(heaps[0], entries);
    } else {
      HeapIsPartOfRun(heaps, entries, k - 1);
      SlowRunStep(heaps, entries, k - 1);
      TenOfStep(heaps[k - 1], entries[..k - 1], entries[k - 1], heaps[k]);
    }
  }

  ghost function WithoutRoot(h: seq<Slow>): multiset<Slow>
    requires h != []
  {
    multiset(h) - multiset{h[0]}
  }

  /** The first ten operations without the slowest of them. */
  ghost function Frozen(heaps: seq<seq<Slow>>, entries: seq<Slow>): multiset<Slow>
    requires HEAP_SIZE <= |entries| && HEAP_SIZE < |heaps| && heaps[HEAP_SIZE] != []
  {
    multiset(entries[..HEAP_SIZE]) - multiset{heaps[HEAP_SIZE][0]}
  }

  ghost predicate SameButRoot(h: seq<Slow>, r: seq<Slow>) { h != [] && r != [] && WithoutRoot(h) == WithoutRoot(r) }

  lemma {:induction false} OnlyTheRootMoves(heaps: seq<seq<Slow>>, entries: seq<Slow>, k: nat)
    requires SlowRun(heaps, entries) && HEAP_SIZE <= k <= |entries|
    ensures SameButRoot(heaps[HEAP_SIZE], heaps[k])
  {
    hide *;
    SlowRunShape(heaps, entries);
    if k == HEAP_SIZE {
      HeapIsPartOfRun(heaps, entries, k);
      SameAsItself(heaps[k], entries[..k]);
    } else {
      OnlyTheRootMoves(heaps, entries, k - 1);
      HeapIsPartOfRun(heaps, entries, k - 1);
      SlowRunStep(heaps, entries, k - 1);
      RootMoves(heaps[HEAP_SIZE], heaps[k - 1], entries[..k - 1], entries[k - 1], heaps[k]);
    }
  }

  lemma {:induction false} SameAsItself(h: seq<Slow>, entries: seq<Slow>)
    requires TenOf(h, entries) && |entries| >= HEAP_SIZE
    ensures |h| == HEAP_SIZE && SameButRoot(h, h)
  {
  }

  lemma {:induction false} RootMoves(first: seq<Slow>, h: seq<Slow>, entries: seq<Slow>, e: Slow, r: seq<Slow>)
    requires IsHeap(h, SlowLeq) && IsHeap(r, SlowLeq) && multiset(r) == SlowContents(h, e)
    requires TenOf(h, entries) && |entries| >= HEAP_SIZE && SameButRoot(first, h)
    ensures SameButRoot(first, r)
  {
    hide IsHeap;
    AllButRootFreeze(h, e, r);
  }

  /**
   After ten operations or more the heap holds the first ten without their slowest, and the slowest of all. These are a
   top ten of the run exactly when no other operation was slower than one of the nine.
   */
  lemma {:induction false} WhenRunIsTopTen(heaps: seq<seq<Slow>>, entries: seq<Slow>, k: nat)
    requires SlowRun(heaps, entries) && 10 <= k <= |entries|
    ensures heaps[HEAP_SIZE] != [] && heaps[k] != [] && RootIsSlowestOf(heaps[k], entries[..k])
    ensures var kept, all, nine := multiset(heaps[k]), multiset(entries[..k]), Frozen(heaps, entries);
            && |nine| == 9 && |kept| == 10 && kept == nine + multiset{heaps[k][0]} && kept <= all
            && (KeepsSlowest(kept, all) <==> forall x, y | x in all - kept && y in nine :: y.negated <= x.negated)
  {
    hide *;
    SlowRunShape(heaps, entries);
    HeapIsPartOfRun(heaps, entries, k);
    HeapIsPartOfRun(heaps, entries, HEAP_SIZE);
    OnlyTheRootMoves(heaps, entries, k);
    RootIsAllTimeSlowest(heaps, entries, k);
    RootMovesFrom(heaps, entries, k);
    NineAndRoot(multiset(heaps[k]), multiset(entries[..k]), heaps[k][0], Frozen(heaps, entries));
  }

  lemma {:induction false} RootMovesFrom(heaps: seq<seq<Slow>>, entries: seq<Slow>, k: nat)
    requires |heaps| == |entries| + 1 && HEAP_SIZE <= k <= |entries|
    requires TenOf(heaps[HEAP_SIZE], entries[..HEAP_SIZE]) && TenOf(heaps[k], entries[..k])
    requires SameButRoot(heaps[HEAP_SIZE], heaps[k]) && RootIsSlowestOf(heaps[k], entries[..k])
    ensures heaps[HEAP_SIZE] != [] && heaps[k] != [] && heaps[k][0] in multiset(heaps[k])
    ensures |multiset(heaps[k])| == HEAP_SIZE && multiset(heaps[k]) <= multiset(entries[..k])
    ensures multiset(heaps[k]) - multiset{heaps[k][0]} == Frozen(heaps, entries)
    ensures forall e | e in multiset(entries[..k]) :: heaps[k][0].negated <= e.negated
  {
  }

  lemma {:induction false} NineAndRoot(kept: multiset<Slow>, all: multiset<Slow>, root: Slow, nine: multiset<Slow>)
    requires root in kept && kept <= all && kept - multiset{root} == nine
    requires forall e | e in all :: root.negated <= e.negated
    ensures kept == nine + multiset{root} && |kept| == |nine| + 1
    ensures KeepsSlowest(kept, all) <==> forall x, y | x in all - kept && y in nine :: y.negated <= x.negated
  {
    assert forall y :: y in kept <==> y in nine || y == root;
  }

  /** Operations that take longer and longer. */
  ghost predicate Rising(entries: seq<Slow>) {
    forall i, j | 0 <= i < j < |entries| :: entries[j].negated < entries[i].negated
  }

  /** While operations take longer and longer, the heap misses more of the slowest from the eleventh on. */
  lemma {:induction false} RisingRunLosesSlowest(heaps: seq<seq<Slow>>, entries: seq<Slow>, k: nat)
    requires SlowRun(heaps, entries) && HEAP_SIZE < k <= |entries| && Rising(entries)
    ensures multiset(heaps[k]) == multiset(entries[..HEAP_SIZE - 1]) + multiset{entries[k - 1]}
    ensures !KeepsSlowest(multiset(heaps[k]), multiset(entries[..k]))
  {
    WhenRunIsTopTen(heaps, entries, k);
    WhenRunIsTopTen(heaps, entries, HEAP_SIZE);
    LastOfEach(heaps, entries, k);
    LeftOut(entries, k);
    hide *;
    FirstIsKept(entries);
  }

  lemma {:induction false} FirstIsKept(entries: seq<Slow>)
    requires |entries| >= HEAP_SIZE
    ensures entries[0] in multiset(entries[..HEAP_SIZE - 1])
  {
    assert entries[..HEAP_SIZE - 1][0] == entries[0];
  }

  lemma {:induction false} LastOfEach(heaps: seq<seq<Slow>>, entries: seq<Slow>, k: nat)
    requires HEAP_SIZE < k <= |entries| && Rising(entries) && |heaps| == |entries| + 1
    requires heaps[HEAP_SIZE] != [] && heaps[k] != []
    requires RootIsSlowestOf(heaps[k], entries[..k]) && RootIsSlowestOf(heaps[HEAP_SIZE], entries[..HEAP_SIZE])
    ensures heaps[k][0] == entries[k - 1]
    ensures Frozen(heaps, entries) == multiset(entries[..HEAP_SIZE - 1])
  {
    var last := HEAP_SIZE - 1;
    LastIsSlowest(entries, k, heaps[k][0]);
    LastIsSlowest(entries, HEAP_SIZE, heaps[HEAP_SIZE][0]);
    assert entries[..HEAP_SIZE] == entries[..last] + [entries[last]];
  }

  lemma {:induction false} LastIsSlowest(entries: seq<Slow>, k: nat, root: Slow)
    requires Rising(entries) && 0 < k <= |entries| && root in entries[..k]
    requires forall e | e in entries[..k] :: root.negated <= e.negated
    ensures root == entries[k - 1]
  {
    var i :| 0 <= i < k && entries[..k][i] == root;
    assert entries[..k][k - 1] == entries[k - 1];
    assert entries[k - 1] in entries[..k];
  }

  /** The tenth operation is neither among the first nine nor the last. */
  lemma {:induction false} LeftOut(entries: seq<Slow>, k: nat)
    requires Rising(entries) && HEAP_SIZE < k <= |entries|
    ensures var x := entries[HEAP_SIZE - 1];
            && x in multiset(entries[..k]) - (multiset(entries[..HEAP_SIZE - 1]) + multiset{entries[k - 1]})
            && x.negated < entries[0].negated
  {
    var n := HEAP_SIZE - 1;
    var x := entries[n];
    assert entries[..k] == entries[..n] + [x] + entries[n + 1..k];
    assert entries[n + 1..k] == entries[n + 1..k - 1] + [entries[k - 1]];
  }

  /** The heaps of a run, one after the other. */
  method TrackAll(entries: seq<Slow>) returns (heaps: seq<seq<Slow>>)
    ensures SlowRun(heaps, entries)
  {
    heaps := [[]];
    for i := 0 to |entries|
      invariant SlowRun(heaps, entries[..i])
    {
      var h := TrackSlow(heaps[i], entries[i]);
      assert entries[..i + 1] == entries[..i] + [entries[i]];
      heaps := heaps + [h];
    }
    assert entries[..|entries|] == entries;
  }

  const ELEVEN_RISING := seq(11, i => Slow(-(i as real), "parse", ""))

  /** Eleven operations of 0 to 10 time units leave a heap without the one of 9, though it holds the one of 0. */
  method EleventhPushesOutTenth() returns (heaps: seq<seq<Slow>>)
    ensures SlowRun(heaps, ELEVEN_RISING)
    ensures !KeepsSlowest(multiset(heaps[11]), multiset(ELEVEN_RISING))
  {
    heaps := TrackAll(ELEVEN_RISING);
    hide SlowRun;
    assert ELEVEN_RISING[..11] == ELEVEN_RISING;
    RisingRunLosesSlowest(heaps, ELEVEN_RISING, 11);
  }

  // ---------------------------------------------------------------------------
  // Densest inputs
  // ---------------------------------------------------------------------------

  datatype Dense = Dense(density: real, nodes: int, bytes: int, hash: string)

  predicate DenseLeq(a: Dense, b: Dense) {
    a.density < b.density ||
    (a.density == b.density &&
     (a.nodes < b.nodes ||
      (a.nodes == b.nodes && (a.bytes < b.bytes || (a.bytes == b.bytes && TextOrder.Leq(a.hash, b.hash))))))
  }

  lemma {:induction false} DenseOrder()
    ensures Order(DenseLeq)
  {
    hide TextOrder.Leq;
    forall x, y ensures DenseLeq(x, y) || DenseLeq(y, x) {
      TextOrder.Total(x.hash, y.hash);
    }
    forall x, y, z | DenseLeq(x, y) && DenseLeq(y, z) ensures DenseLeq(x, z) {
      if TextOrder.Leq(x.hash, y.hash) && TextOrder.Leq(y.hash, z.hash) {
        TextOrder.Transitive(x.hash, y.hash, z.hash);
      }
    }
  }

  ghost function DenseContents(h: seq<Dense>, e: Dense): multiset<Dense> {
    if |h| < HEAP_SIZE then multiset(h) + multiset{e}
    else if e.density > h[0].density then multiset(h) - multiset{h[0]} + multiset{e}
    else multiset(h)
  }

  /** The densest inputs seen by a campaign. */
  class DomainMetrics {
    var densestInputs: seq<Dense>

    constructor ()
      ensures densestInputs == []
    {
      densestInputs := [];
    }

    method TrackDensestInput(density: real, nodes: int, bytes: int, hash: string)
      requires IsHeap(densestInputs, DenseLeq)
      modifies this
      ensures IsHeap(densestInputs, DenseLeq)
      ensures multiset(densestInputs) == DenseContents(old(densestInputs), Dense(density, nodes, bytes, hash))
    {
      DenseOrder();
      var e := Dense(density, nodes, bytes, hash);
      if |densestInputs| < HEAP_SIZE {
        densestInputs := Push(densestInputs, DenseLeq, e);
      } else if density > densestInputs[0].density {
        densestInputs := ReplaceRoot(densestInputs, DenseLeq, e);
      }
    }
  }

  ghost predicate DenseRun(heaps: seq<seq<Dense>>, entries: seq<Dense>) {
    && |heaps| == |entries| + 1 && heaps[0] == []
    && (forall i | 0 <= i < |heaps| :: IsHeap(heaps[i], DenseLeq))
    && (forall i {:trigger entries[i]} | 0 <= i < |entries| :: multiset(heaps[i + 1]) == DenseContents(heaps[i], entries[i]))
  }

  /** A true top ten: ten of the inputs, or all of them, and nothing left out is denser than anything kept. */
  ghost predicate TopTen(kept: multiset<Dense>, all: multiset<Dense>) {
    && kept <= all && |kept| == (if |all| < HEAP_SIZE then |all| else HEAP_SIZE)
    && forall x, y | x in all - kept && y in kept :: x.density <= y.density
  }

  lemma {:induction false} DenseRootIsLeast(h: seq<Dense>)
    requires IsHeap(h, DenseLeq)
    ensures forall x | x in h :: h[0].density <= x.density
  {
    DenseOrder();
    RootIsLeastOfAll(h, DenseLeq);
    forall x | x in h ensures h[0].density <= x.density {
      assert DenseLeq(h[0], x);
    }
  }

  /** Among equally dense entries, the root has the fewest nodes, then the fewest bytes, then the first hash. */
  lemma {:induction false} DenseRootOfEqual(h: seq<Dense>, x: Dense)
    requires IsHeap(h, DenseLeq) && x in h && x.density == h[0].density
    ensures h[0].nodes <= x.nodes
    ensures h[0].nodes == x.nodes ==> h[0].bytes <= x.bytes
    ensures h[0].nodes == x.nodes && h[0].bytes == x.bytes ==> TextOrder.Leq(h[0].hash, x.hash)
  {
    hide TextOrder.Leq;
    DenseOrder();
    RootIsLeastOfAll(h, DenseLeq);
  }

  lemma {:induction false} DenseStep(h: seq<Dense>, all: multiset<Dense>, e: Dense)
    requires IsHeap(h, DenseLeq) && TopTen(multiset(h), all)
    ensures TopTen(DenseContents(h, e), all + multiset{e})
  {
    hide IsHeap;
    DenseRootIsLeast(h);
    var kept, now := multiset(h), DenseContents(h, e);
    if |h| < HEAP_SIZE {
      assert |all - kept| == 0;
      assert all == kept;
    } else {
      assert h[0] in kept;
      if e.density > h[0].density {
        assert all + multiset{e} - now == all - kept + multiset{h[0]};
      } else {
        assert all + multiset{e} - now == all - kept + multiset{e};
      }
    }
  }

  lemma {:induction false} DenseRunShape(heaps: seq<seq<Dense>>, entries: seq<Dense>)
    requires DenseRun(heaps, entries)
    ensures |heaps| == |entries| + 1 && heaps[0] == []
  {
  }

  lemma {:induction false} DenseRunStep(heaps: seq<seq<Dense>>, entries: seq<Dense>, k: nat)
    requires DenseRun(heaps, entries) && k < |entries|
    ensures IsHeap(heaps[k], DenseLeq) && IsHeap(heaps[k + 1], DenseLeq)
    ensures multiset(heaps[k + 1]) == DenseContents(heaps[k], entries[k])
    ensures entries[..k + 1] == entries[..k] + [entries[k]]
  {
  }

  lemma {:induction false} TopTenOfNothing()
    ensures TopTen(multiset([]), multiset([]))
  {
  }

  lemma {:induction false} SizeOfTopTen(h: seq<Dense>, entries: seq<Dense>)
    requires TopTen(multiset(h), multiset(entries))
    ensures |h| == if |entries| < 10 then |entries| else 10
  {
    assert |multiset(h)| == |h| && |multiset(entries)| == |entries|;
  }

  /** After any inputs at all, the heap holds a top ten of them. */
  lemma {:induction false} HeapHoldsTopTen(heaps: seq<seq<Dense>>, entries: seq<Dense>, k: nat)
    requires DenseRun(heaps, entries) && k <= |entries|
    ensures TopTen(multiset(heaps[k]), multiset(entries[..k])) && |heaps[k]| == if k < 10 then k else 10
  {
    hide *;
    DenseRunShape(heaps, entries);
    if k == 0 {
      TopTenOfNothing();
      assert entries[..0] == [];
    } else {
      HeapHoldsTopTen(heaps, entries, k - 1);
      DenseRunStep(heaps, entries, k - 1);
      DenseStep(heaps[k - 1], multiset(entries[..k - 1]), entries[k - 1]);
    }
    SizeOfTopTen(heaps[k], entries[..k]);
  }
}
