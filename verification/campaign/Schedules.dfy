/** Weighted round-robin schedules: what is built, what is picked, and how often. */
module Schedules {
  import opened Wrappers

  datatype Problem = LengthMismatch | EmptySchedule

  // ---------------------------------------------------------------------------
  // Building
  // ---------------------------------------------------------------------------

  /** How many copies a list repeated `weight` times holds. */
  function CopyCount(weight: int): nat { if weight > 0 then weight else 0 }

  function Copies(item: string, weight: int): (s: seq<string>)
    ensures |s| == CopyCount(weight)
  {
    seq(CopyCount(weight), _ => item)
  }

  /** Where the block of the `|weights|`-th item starts. */
  ghost function Total(weights: seq<int>): nat {
    if weights == [] then 0 else Total(weights[..|weights| - 1]) + CopyCount(weights[|weights| - 1])
  }

  ghost function WeightOf(items: seq<string>, weights: seq<int>, x: string): nat
    requires |items| == |weights|
  {
    if items == [] then 0
    else
      var n := |items| - 1;
      WeightOf(items[..n], weights[..n], x) + if items[n] == x then CopyCount(weights[n]) else 0
  }

  lemma {:induction false} CopiesCount(item: string, weight: int, x: string)
    ensures multiset(Copies(item, weight))[x] == if item == x then CopyCount(weight) else 0
    decreases CopyCount(weight)
  {
    if weight > 0 {
      CopiesCount(item, weight - 1, x);
      assert Copies(item, weight) == Copies(item, weight - 1) + [item];
    }
  }

  /** Position `j` of the schedule lies in the block of item `i`. */
  ghost predicate InBlock(weights: seq<int>, i: nat, j: int)
    requires i < |weights|
  {
    Total(weights[..i]) <= j < Total(weights[..i + 1])
  }

  /** Consecutive blocks in item order, each as long as its weight. */
  ghost predicate IsSchedule(s: seq<string>, items: seq<string>, weights: seq<int>)
    requires |items| == |weights|
  {
    && |s| == Total(weights)
    && forall i: nat, j: nat | i < |items| && InBlock(weights, i, j) :: j < |s| && s[j] == items[i]
  }

  lemma {:induction false} NextBlock(s: seq<string>, items: seq<string>, weights: seq<int>, n: nat)
    requires n < |items| == |weights| && IsSchedule(s, items[..n], weights[..n])
    ensures IsSchedule(s + Copies(items[n], weights[n]), items[..n + 1], weights[..n + 1])
  {
    var t, its, ws := s + Copies(items[n], weights[n]), items[..n + 1], weights[..n + 1];
    assert ws[..n] == weights[..n];
    forall i: nat, j: nat | i < |its| && InBlock(ws, i, j) ensures j < |t| && t[j] == its[i] {
      assert ws[..i] == weights[..i] && ws[..i + 1] == weights[..i + 1];
      if i < n {
        assert weights[..n][..i] == weights[..i] && weights[..n][..i + 1] == weights[..i + 1];
        assert InBlock(weights[..n], i, j);
        assert j < |s| && s[j] == items[..n][i];
      } else {
        assert Total(ws) == Total(weights[..n]) + CopyCount(weights[n]) && ws[..n + 1] == ws;
      }
    }
  }

  /** Every item appears as often as its weights say; lists of different lengths are an error. */
  method BuildWeightedSchedule(items: seq<string>, weights: seq<int>) returns (r: Result<seq<string>, Problem>)
    ensures r.Failure? <==> |items| != |weights|
    ensures r.Success? ==> IsSchedule(r.value, items, weights)
    ensures r.Success? ==> forall x :: multiset(r.value)[x] == WeightOf(items, weights, x)
  {
    hide IsSchedule;
    hide Copies;
    var schedule: seq<string> := [];
    var i := 0;
    assert IsSchedule(schedule, items[..0], weights[..0]) by {
      EmptyIsSchedule(items[..0], weights[..0]);
    }
    while i < |items| && i < |weights|
      invariant i <= |items| && i <= |weights|
      invariant IsSchedule(schedule, items[..i], weights[..i])
      invariant forall x :: multiset(schedule)[x] == WeightOf(items[..i], weights[..i], x)
    {
      NextBlockAnyLength(schedule, items, weights, i);
      forall x ensures multiset(Copies(items[i], weights[i]))[x] == if items[i] == x then CopyCount(weights[i]) else 0 {
        CopiesCount(items[i], weights[i], x);
      }
      assert items[..i + 1][..i] == items[..i] && weights[..i + 1][..i] == weights[..i];
      schedule := schedule + Copies(items[i], weights[i]);
      i := i + 1;
    }
    if |items| != |weights| {
      return Failure(LengthMismatch);
    }
    assert items[..i] == items && weights[..i] == weights;
    return Success(schedule);
  }

  lemma {:induction false} EmptyIsSchedule(items: seq<string>, weights: seq<int>)
    requires items == [] && weights == []
    ensures IsSchedule([], items, weights)
  {
  }

  lemma {:induction false} NextBlockAnyLength(s: seq<string>, items: seq<string>, weights: seq<int>, n: nat)
    requires n < |items| && n < |weights| && IsSchedule(s, items[..n], weights[..n])
    ensures IsSchedule(s + Copies(items[n], weights[n]), items[..n + 1], weights[..n + 1])
  {
    var its, ws := items[..n + 1], weights[..n + 1];
    assert its[..n] == items[..n] && ws[..n] == weights[..n];
    assert its[..n + 1] == its && ws[..n + 1] == ws;
    NextBlock(s, its, ws, n);
  }

  // ---------------------------------------------------------------------------
  // Picking
  // ---------------------------------------------------------------------------

  /** The index used in the given iteration; iterations count from 1. */
  function Slot(iterations: int, n: nat): (i: nat)
    requires n > 0
    ensures i < n
  {
    (iterations - 1) % n
  }

  function SelectPattern(iterations: int, schedule: seq<string>): Result<string, Problem> {
    if schedule == [] then Failure(EmptySchedule) else Success(schedule[Slot(iterations, |schedule|)])
  }

  lemma {:induction false} SlotsInARow(a: int, k: nat, n: nat)
    requires k < n
    ensures Slot(a + k, n) == if Slot(a, n) + k < n then Slot(a, n) + k else Slot(a, n) + k - n
  {
    var s, q := Slot(a, n), (a - 1) / n;
    assert a - 1 == q * n + s;
    if s + k < n {
      ModIs(a + k - 1, n, q, s + k);
    } else {
      assert (q + 1) * n == q * n + n;
      ModIs(a + k - 1, n, q + 1, s + k - n);
    }
  }

  lemma {:induction false} ModIs(x: int, n: nat, q: int, r: nat)
    requires r < n && x == q * n + r
    ensures x % n == r && x / n == q
  {
    var d := x / n - q;
    assert d * n == r - x % n by {
      assert x == (x / n) * n + x % n;
      assert d * n == (x / n) * n - q * n;
    }
    SmallMultiple(d, n);
  }

  lemma {:induction false} SmallMultiple(d: int, n: int)
    requires -n < d * n < n
    ensures d == 0
  {
    AtLeastOnce(d, n);
    AtLeastOnce(-d, n);
  }

  lemma {:induction false} AtLeastOnce(d: int, n: int)
    requires n > 0
    ensures d > 0 ==> d * n >= n
  {
  }

  lemma {:induction false} Times(a: nat, b: nat, k: nat)
    requires a <= b
    ensures a * k <= b * k && k * a <= k * b
  {
  }

  /** The patterns of `count` consecutive iterations, the first of which is `first`. */
  ghost function Window(schedule: seq<string>, first: int, count: nat): (w: seq<string>)
    requires schedule != []
    ensures |w| == count
  {
    seq(count, k requires 0 <= k < count => schedule[Slot(first + k, |schedule|)])
  }

  /** As many consecutive iterations as the schedule is long pick each pattern exactly as often as it is scheduled. */
  lemma {:induction false} FullWindow(schedule: seq<string>, first: int)
    requires schedule != []
    ensures multiset(Window(schedule, first, |schedule|)) == multiset(schedule)
  {
    var n := |schedule|;
    var s := Slot(first, n);
    forall k | 0 <= k < n ensures Window(schedule, first, n)[k] == (schedule[s..] + schedule[..s])[k] {
      SlotsInARow(first, k, n);
    }
    assert Window(schedule, first, n) == schedule[s..] + schedule[..s];
    assert schedule == schedule[..s] + schedule[s..];
  }

  /** What iterations 1 to n pick. */
  ghost function Picks(schedule: seq<string>, n: nat): multiset<string>
    requires schedule != []
  {
    if n == 0 then multiset{} else Picks(schedule, n - 1) + multiset{schedule[Slot(n, |schedule|)]}
  }

  lemma {:induction false} PicksOfRounds(schedule: seq<string>, q: nat, r: nat, x: string)
    requires schedule != [] && r <= |schedule|
    ensures Picks(schedule, q * |schedule| + r)[x] == q * multiset(schedule)[x] + multiset(schedule[..r])[x]
    decreases q, r
  {
    hide Picks;
    var n := |schedule|;
    if r > 0 {
      PicksOfRounds(schedule, q, r - 1, x);
      NextPick(schedule, q, r, x);
    } else if q > 0 {
      PicksOfRounds(schedule, q - 1, n, x);
      assert schedule[..n] == schedule;
      NextRound(q, n);
      NextRound(q, multiset(schedule)[x]);
    } else {
      NoPicks(schedule);
      assert schedule[..0] == [];
    }
  }

  lemma {:induction false} NoPicks(schedule: seq<string>)
    requires schedule != []
    ensures Picks(schedule, 0) == multiset{}
  {
  }

  lemma {:induction false} NextRound(q: nat, n: nat)
    requires q > 0
    ensures q * n == (q - 1) * n + n
  {
  }

  lemma {:induction false} NextPick(schedule: seq<string>, q: nat, r: nat, x: string)
    requires 0 < r <= |schedule|
    ensures var n := q * |schedule| + r;
            && Picks(schedule, n)[x] == Picks(schedule, n - 1)[x] + (if schedule[r - 1] == x then 1 else 0)
            && multiset(schedule[..r])[x] == multiset(schedule[..r - 1])[x] + (if schedule[r - 1] == x then 1 else 0)
  {
    ModIs(q * |schedule| + r - 1, |schedule|, q, r - 1);
    assert schedule[..r] == schedule[..r - 1] + [schedule[r - 1]];
  }

  /** After n picks each pattern has had its complete rounds, and at most one round more. */
  lemma {:induction false} PicksWithinOneRound(schedule: seq<string>, n: nat, x: string)
    requires schedule != []
    ensures var q, c := n / |schedule|, multiset(schedule)[x]; q * c <= Picks(schedule, n)[x] <= q * c + c
  {
    var q, r := n / |schedule|, n % |schedule|;
    assert n == q * |schedule| + r;
    PicksOfRounds(schedule, q, r, x);
    assert schedule == schedule[..r] + schedule[r..];
  }

  /** Iterations are counted from one: each round picks the entries of the schedule from the first to the last. */
  lemma {:induction false} RoundsFollowSchedule(schedule: seq<string>, round: nat, k: nat)
    requires k < |schedule|
    ensures SelectPattern(round * |schedule| + k + 1, schedule) == Success(schedule[k])
  {
    ModIs(round * |schedule| + k, |schedule|, round, k);
  }
}
