/** What a campaign remembers of its iteration times, and the threshold that it derives from them. */
module Performance {
  import opened Wrappers

  const HISTORY_SIZE := 10000

  /** The recent times, the total time of each pattern, and the extremes of all times; `None` stands for infinity. */
  datatype Timing = Timing(history: seq<real>, wallTime: map<string, real>, slowest: real, fastest: Option<real>)

  const NO_TIMING := Timing([], map[], 0.0, None)

  /** A queue of bounded length: the oldest entry makes way. */
  function Remember(history: seq<real>, elapsed: real): seq<real> {
    (if |history| < HISTORY_SIZE then history else history[1..]) + [elapsed]
  }

  function Slower(a: real, b: real): real { if a < b then b else a }

  function Faster(a: Option<real>, b: real): Option<real> { if a.Some? && a.value <= b then a else Some(b) }

  function Add(wallTime: map<string, real>, pattern: string, elapsed: real): map<string, real> {
    wallTime[pattern := (if pattern in wallTime then wallTime[pattern] else 0.0) + elapsed]
  }

  function Record(t: Timing, pattern: string, elapsed: real): Timing {
    Timing(Remember(t.history, elapsed), Add(t.wallTime, pattern, elapsed), Slower(t.slowest, elapsed),
           Faster(t.fastest, elapsed))
  }

  ghost function Recorded(run: seq<(string, real)>): Timing {
    if run == [] then NO_TIMING
    else
      var (pattern, elapsed) := run[|run| - 1];
      Record(Recorded(run[..|run| - 1]), pattern, elapsed)
  }

  ghost function Times(run: seq<(string, real)>): seq<real> { seq(|run|, i requires 0 <= i < |run| => run[i].1) }

  lemma {:induction false} TimesStep(run: seq<(string, real)>)
    requires run != []
    ensures Times(run) == Times(run[..|run| - 1]) + [run[|run| - 1].1]
  {
  }

  /** The history holds the newest ten thousand times of a run, in order. */
  lemma {:induction false} HistoryIsNewest(run: seq<(string, real)>)
    ensures var n := if |run| < 10000 then 0 else |run| - 10000;
            |Times(run)| == |run| && Recorded(run).history == Times(run)[n..]
  {
    if run != [] {
      HistoryIsNewest(run[..|run| - 1]);
      TimesStep(run);
      hide Times;
    }
  }

  /** The extremes are those of all times, also of the forgotten ones. */
  lemma {:induction false} ExtremesOutliveHistory(run: seq<(string, real)>)
    ensures var t := Recorded(run);
            && (t.fastest == None <==> run == [])
            && (t.fastest.Some? ==> exists i :: 0 <= i < |run| && run[i].1 == t.fastest.value)
            && (t.slowest == 0.0 || exists i :: 0 <= i < |run| && run[i].1 == t.slowest)
            && forall i | 0 <= i < |run| :: t.fastest.value <= run[i].1 <= t.slowest
  {
    if run != [] {
      var front, last := run[..|run| - 1], run[|run| - 1];
      ExtremesOutliveHistory(front);
      assert run == front + [last];
      assert forall i | 0 <= i < |front| :: front[i] == run[i];
      assert run[|front|] == last;
    }
  }

  ghost function TimeOf(run: seq<(string, real)>, pattern: string): real {
    if run == [] then 0.0
    else
      var last := run[|run| - 1];
      TimeOf(run[..|run| - 1], pattern) + if last.0 == pattern then last.1 else 0.0
  }

  /** Each pattern has the sum of its own times, and an entry exactly when it occurred. */
  lemma {:induction false} WallTimeIsSum(run: seq<(string, real)>, pattern: string)
    ensures var w := Recorded(run).wallTime;
            && (pattern in w <==> exists i :: 0 <= i < |run| && run[i].0 == pattern)
            && (if pattern in w then w[pattern] else 0.0) == TimeOf(run, pattern)
  {
    if run != [] {
      var front, last := run[..|run| - 1], run[|run| - 1];
      WallTimeIsSum(front, pattern);
      assert run == front + [last];
      assert forall i | 0 <= i < |front| :: front[i] == run[i];
      assert run[|front|] == last;
    }
  }

  // ---------------------------------------------------------------------------
  // The threshold
  // ---------------------------------------------------------------------------

  ghost predicate Ascending(s: seq<real>) { forall i, j | 0 <= i < j < |s| :: s[i] <= s[j] }

  function InsertAscending(s: seq<real>, x: real): (r: seq<real>)
    ensures multiset(r) == multiset(s) + multiset{x} && |r| == |s| + 1
  {
    if s == [] || s[|s| - 1] <= x then s + [x]
    else
      assert s == s[..|s| - 1] + [s[|s| - 1]];
      InsertAscending(s[..|s| - 1], x) + [s[|s| - 1]]
  }

  function Sorted(s: seq<real>): (r: seq<real>)
    ensures |r| == |s| && multiset(r) == multiset(s)
  {
    if s == [] then []
    else
      assert s == s[..|s| - 1] + [s[|s| - 1]];
      InsertAscending(Sorted(s[..|s| - 1]), s[|s| - 1])
  }

  lemma {:induction false} InsertKeepsAscending(s: seq<real>, x: real)
    requires Ascending(s)
    ensures Ascending(InsertAscending(s, x))
  {
    if s == [] || s[|s| - 1] <= x {
    } else {
      var front, last := s[..|s| - 1], s[|s| - 1];
      var r := InsertAscending(front, x);
      InsertKeepsAscending(front, x);
      forall i | 0 <= i < |r| ensures r[i] <= last {
        assert r[i] in multiset(r);
        assert r[i] == x || r[i] in front;
      }
    }
  }

  lemma {:induction false} SortedIsAscending(s: seq<real>)
    ensures Ascending(Sorted(s))
  {
    if s != [] {
      SortedIsAscending(s[..|s| - 1]);
      InsertKeepsAscending(Sorted(s[..|s| - 1]), s[|s| - 1]);
    }
  }

  /** The place of the last of a hundred equal shares, between two neighbours in order. */
  function CutIndex(size: nat): (j: int)
    requires size >= 2
    ensures 1 <= j < size
  {
    var j := 99 * (size + 1) / 100;
    if j < 1 then 1 else if j > size - 1 then size - 1 else j
  }

  /** `quantiles(history, n=100)[98]`, the 99th percentile, interpolated between the neighbours. */
  function Percentile(history: seq<real>): real
    requires |history| >= 2
  {
    var data, j := Sorted(history), CutIndex(|history|);
    var delta := 99 * (|history| + 1) - 100 * j;
    (data[j - 1] * (100 - delta) as real + data[j] * delta as real) / 100.0
  }

  const UPDATE_INTERVAL := 1000
  const MIN_HISTORY := 100
  const OUTLIER_THRESHOLD_FACTOR := 2.0

  /** The threshold is derived from the history once in a thousand iterations. */
  function Threshold(iterations: int, history: seq<real>, before: real): real {
    if iterations % UPDATE_INTERVAL == 0 && |history| >= MIN_HISTORY then Percentile(history) * OUTLIER_THRESHOLD_FACTOR
    else before
  }

  ghost function Above(s: seq<real>, x: real): nat {
    if s == [] then 0 else Above(s[..|s| - 1], x) + if s[|s| - 1] > x then 1 else 0
  }

  lemma {:induction false} AboveOfInserted(s: seq<real>, y: real, x: real)
    ensures Above(InsertAscending(s, y), x) == Above(s, x) + if y > x then 1 else 0
  {
    if s == [] || s[|s| - 1] <= y {
      assert (s + [y])[..|s|] == s;
    } else {
      var front, last := s[..|s| - 1], s[|s| - 1];
      AboveOfInserted(front, y, x);
      var r := InsertAscending(front, y);
      assert (r + [last])[..|r|] == r;
    }
  }

  lemma {:induction false} AboveOfSorted(s: seq<real>, x: real)
    ensures Above(Sorted(s), x) == Above(s, x)
  {
    if s != [] {
      AboveOfSorted(s[..|s| - 1], x);
      AboveOfInserted(Sorted(s[..|s| - 1]), s[|s| - 1], x);
    }
  }

  lemma {:induction false} AboveFrom(s: seq<real>, x: real, j: nat)
    requires j <= |s| && forall i | 0 <= i < j :: s[i] <= x
    ensures Above(s, x) <= |s| - j
  {
    if s != [] {
      AboveFrom(s[..|s| - 1], x, if j < |s| then j else |s| - 1);
    }
  }

  lemma {:induction false} AboveFallsWith(s: seq<real>, x: real, y: real)
    requires x <= y
    ensures Above(s, y) <= Above(s, x)
  {
    if s != [] {
      AboveFallsWith(s[..|s| - 1], x, y);
    }
  }

  lemma {:induction false} ProductNotNegative(x: real, y: real)
    requires x >= 0.0 && y >= 0.0
    ensures x * y >= 0.0
  {
  }

  lemma {:induction false} Between(a: real, b: real, delta: int)
    requires a <= b && 0 <= delta <= 100
    ensures a <= (a * (100 - delta) as real + b * delta as real) / 100.0 <= b
  {
    var d := delta as real;
    assert (100 - delta) as real == 100.0 - d;
    assert a * (100.0 - d) + b * d == 100.0 * a + (b - a) * d;
    ProductNotNegative(b - a, d);
    ProductNotNegative(b - a, 100.0 - d);
  }

  lemma {:induction false} CutInOrder(history: seq<real>)
    requires |history| >= MIN_HISTORY
    ensures var data, j := Sorted(history), CutIndex(|history|);
            data[j - 1] <= data[j] && 99 * |history| <= 100 * j <= 99 * (|history| + 1)
  {
    SortedIsAscending(history);
  }

  /** At most one in a hundred of the remembered times is above the percentile. */
  lemma {:induction false} OneInHundredAbove(history: seq<real>)
    requires |history| >= MIN_HISTORY
    ensures 100 * Above(history, Percentile(history)) <= |history|
  {
    var n := |history|;
    var data, j, p := Sorted(history), CutIndex(n), Percentile(history);
    SortedIsAscending(history);
    CutInOrder(history);
    Between(data[j - 1], data[j], 99 * (n + 1) - 100 * j);
    AboveFrom(data, p, j);
    AboveOfSorted(history, p);
  }

  lemma {:induction false} PercentileOfTimes(history: seq<real>)
    requires |history| >= MIN_HISTORY && forall x | x in history :: x >= 0.0
    ensures Percentile(history) >= 0.0
  {
    hide Sorted;
    hide Ascending;
    var n := |history|;
    var data, j := Sorted(history), CutIndex(n);
    CutInOrder(history);
    Between(data[j - 1], data[j], 99 * (n + 1) - 100 * j);
    assert data[j - 1] in multiset(data);
    assert data[j - 1] in history;
  }

  ghost function NotBelow(s: seq<real>, x: real): nat {
    if s == [] then 0 else NotBelow(s[..|s| - 1], x) + if s[|s| - 1] >= x then 1 else 0
  }

  lemma {:induction false} NotBelowInserted(s: seq<real>, y: real, x: real)
    ensures NotBelow(InsertAscending(s, y), x) == NotBelow(s, x) + if y >= x then 1 else 0
  {
    if s == [] || s[|s| - 1] <= y {
      assert (s + [y])[..|s|] == s;
    } else {
      var front, last := s[..|s| - 1], s[|s| - 1];
      NotBelowInserted(front, y, x);
      var r := InsertAscending(front, y);
      assert (r + [last])[..|r|] == r;
    }
  }

  lemma {:induction false} NotBelowOfSorted(s: seq<real>, x: real)
    ensures NotBelow(Sorted(s), x) == NotBelow(s, x)
  {
    if s != [] {
      NotBelowOfSorted(s[..|s| - 1], x);
      NotBelowInserted(Sorted(s[..|s| - 1]), s[|s| - 1], x);
    }
  }

  lemma {:induction false} NotBelowFrom(s: seq<real>, x: real, j: nat)
    requires j <= |s| && forall i | j <= i < |s| :: s[i] >= x
    ensures NotBelow(s, x) >= |s| - j
  {
    if |s| > j {
      NotBelowFrom(s[..|s| - 1], x, j);
    }
  }

  /** And no fewer than one in a hundred, but for less than one, are at the percentile or above. */
  lemma {:induction false} OneInHundredNotBelow(history: seq<real>)
    requires |history| >= MIN_HISTORY
    ensures 100 * NotBelow(history, Percentile(history)) >= |history| - 99
  {
    var n := |history|;
    var data, j, p := Sorted(history), CutIndex(n), Percentile(history);
    SortedIsAscending(history);
    CutInOrder(history);
    Between(data[j - 1], data[j], 99 * (n + 1) - 100 * j);
    NotBelowFrom(data, p, j);
    NotBelowOfSorted(history, p);
  }

  lemma {:induction false} SortedStep(s: seq<real>)
    requires s != []
    ensures Sorted(s) == InsertAscending(Sorted(s[..|s| - 1]), s[|s| - 1])
  {
  }

  lemma {:induction false} AscendingFront(s: seq<real>)
    requires Ascending(s) && s != []
    ensures Ascending(s[..|s| - 1]) && (|s| > 1 ==> s[|s| - 2] <= s[|s| - 1])
  {
  }

  lemma {:induction false} SortedAlready(s: seq<real>)
    requires Ascending(s)
    ensures Sorted(s) == s
  {
    hide *;
    if s == [] {
      assert |Sorted(s)| == 0;
    } else {
      var front, last := s[..|s| - 1], s[|s| - 1];
      AscendingFront(s);
      SortedAlready(front);
      SortedStep(s);
      InsertedLast(front, last);
      assert s == front + [last];
    }
  }

  lemma {:induction false} InsertedLast(s: seq<real>, x: real)
    requires s != [] ==> s[|s| - 1] <= x
    ensures InsertAscending(s, x) == s + [x]
  {
  }

  const ONE_TO_HUNDRED := seq(100, i => 1.0 + i as real)

  /** Of the times 1 to 100 the percentile is 99.99, and the threshold, computed once in 1000 iterations, twice that. */
  lemma {:induction false} ThresholdOfHundred(iterations: int, before: real)
    ensures Percentile(ONE_TO_HUNDRED) == 99.99
    ensures Threshold(iterations, ONE_TO_HUNDRED, before) == if iterations % 1000 == 0 then 199.98 else before
    ensures Threshold(iterations, ONE_TO_HUNDRED[1..], before) == before
  {
    hide Sorted;
    SortedAlready(ONE_TO_HUNDRED);
    assert CutIndex(100) == 99;
  }

  /** A threshold derived from times leaves at most one in a hundred of them as outliers. */
  lemma {:induction false} OutliersAreRare(iterations: int, history: seq<real>, before: real)
    requires iterations % UPDATE_INTERVAL == 0 && |history| >= MIN_HISTORY && forall x | x in history :: x >= 0.0
    ensures 100 * Above(history, Threshold(iterations, history, before)) <= |history|
  {
    var p := Percentile(history);
    OneInHundredAbove(history);
    PercentileOfTimes(history);
    AboveFallsWith(history, p, Threshold(iterations, history, before));
  }
}
