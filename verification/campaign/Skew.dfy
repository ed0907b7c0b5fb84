/** The detector of patterns that run far more, or far less, often than intended. */
module Skew {
  import opened Schedules
  import opened Wrappers

  const SKEW_MIN_ITERATIONS := 1000

  function Percent(part: int, whole: int): real
    requires whole != 0
  {
    part as real / whole as real * 100.0
  }

  /** A pattern whose share of the iterations is over three times, or under 0.33 times, its share of the weights. */
  predicate Skewed(actual: int, iterations: int, weight: int, total: int)
    requires iterations > 0 && total != 0
  {
    var intendedPct := Percent(weight, total);
    intendedPct > 0.0 &&
    var ratio := Percent(actual, iterations) / intendedPct;
    ratio > 3.0 || ratio < 0.33
  }

  lemma {:induction false} DivideTwice(a: real, n: real, w: real, t: real)
    requires n > 0.0 && w > 0.0 && t > 0.0
    ensures w / t * 100.0 > 0.0
    ensures ((a / n * 100.0) / (w / t * 100.0)) * (w * n) == a * t
  {
    var x, y := a / n, w / t;
    assert x * n == a && y * t == w;
    assert y > 0.0;
    var ratio := (x * 100.0) / (y * 100.0);
    assert ratio * (y * 100.0) == x * 100.0;
    assert ratio * y == x;
    calc {
      ratio * (w * n);
      ratio * ((y * t) * n);
      (ratio * y) * t * n;
      x * t * n;
      (x * n) * t;
      a * t;
    }
  }

  lemma {:induction false} SkewedWithoutDivision(actual: int, iterations: int, weight: int, total: int)
    requires iterations > 0 && total > 0 && weight > 0
    ensures Skewed(actual, iterations, weight, total) <==>
            actual * total > 3 * (weight * iterations) || 100 * (actual * total) < 33 * (weight * iterations)
  {
    var a, n, w, t := actual as real, iterations as real, weight as real, total as real;
    DivideTwice(a, n, w, t);
    var ratio, wn, at := Percent(actual, iterations) / Percent(weight, total), weight * iterations, actual * total;
    assert ratio * (w * n) == a * t;
    ProductAsReal(weight, iterations);
    ProductAsReal(actual, total);
    assert ratio * wn as real == at as real;
    Times(1, weight, iterations);
    CompareToBounds(ratio, at as real, wn as real);
    CompareAsReals(at, wn);
  }

  /** A pattern without weight is never reported. */
  lemma {:induction false} WeightlessIsNotSkewed(actual: int, iterations: int, total: int)
    requires iterations > 0 && total > 0
    ensures !Skewed(actual, iterations, 0, total)
  {
  }

  lemma {:induction false} CompareToBounds(ratio: real, at: real, wn: real)
    requires wn > 0.0 && ratio * wn == at
    ensures ratio > 3.0 <==> at > 3.0 * wn
    ensures ratio < 0.33 <==> at < 0.33 * wn
  {
    SignOfProduct(ratio, 3.0, wn);
    SignOfProduct(ratio, 0.33, wn);
  }

  lemma {:induction false} SignOfProduct(x: real, y: real, k: real)
    requires k > 0.0
    ensures x > y <==> x * k > y * k
    ensures x < y <==> x * k < y * k
  {
    var d := x - y;
    assert d * k == x * k - y * k;
  }

  lemma {:induction false} CompareAsReals(a: int, b: int)
    ensures a as real > 3.0 * b as real <==> a > 3 * b
    ensures a as real < 0.33 * b as real <==> 100 * a < 33 * b
  {
    assert (3 * b) as real == 3.0 * b as real;
    assert (33 * b) as real == 33.0 * b as real;
    assert (100 * a) as real == 100.0 * a as real;
  }

  lemma {:induction false} ProductAsReal(a: int, b: int)
    ensures a as real * b as real == (a * b) as real
  {
  }

  /**
   A pattern picked from its schedule is never skewed once one complete round has been covered, whether or not the
   iteration under way has been counted yet.
   */
  lemma {:induction false} OnScheduleIsNotSkewed(schedule: seq<string>, iterations: nat, covered: nat, x: string)
    requires 0 < |schedule| <= covered && covered <= iterations <= covered + 1
    ensures !Skewed(Picks(schedule, covered)[x], iterations, multiset(schedule)[x], |schedule|)
  {
    var n, c, actual := |schedule|, multiset(schedule)[x], Picks(schedule, covered)[x];
    if c == 0 {
      assert 0.0 / n as real * 100.0 == 0.0;
    } else {
      PicksWithinOneRound(schedule, covered, x);
      RatioBounds(covered / n, n, c, actual, covered, iterations);
      SkewedWithoutDivision(actual, iterations, c, n);
    }
  }

  lemma {:induction false} RatioBounds(q: nat, n: nat, c: nat, actual: nat, covered: nat, iterations: nat)
    requires 0 < n <= covered && q == covered / n && covered <= iterations <= covered + 1
    requires q * c <= actual <= q * c + c
    ensures actual * n <= 3 * (c * iterations)
    ensures 100 * (actual * n) >= 33 * (c * iterations)
  {
    RoundCounts(q, n, covered);
    RoundsFit(q, n, c, iterations);
    ActualFits(q, n, c, actual);
    Conclude(c * n, c * (q * n), c * iterations, actual * n);
  }

  lemma {:induction false} RoundCounts(q: nat, n: nat, covered: nat)
    requires 0 < n <= covered && q == covered / n
    ensures n <= q * n <= covered && covered + 1 <= 2 * (q * n)
  {
    assert covered == q * n + covered % n;
    AtLeastOneRound(q, n, covered);
  }

  lemma {:induction false} Conclude(round: int, rounds: int, all: int, actual: int)
    requires 0 <= round <= rounds <= all <= 2 * rounds
    requires rounds <= actual <= rounds + round
    ensures actual <= 3 * all && 100 * actual >= 33 * all
  {
  }

  lemma {:induction false} RoundsFit(q: nat, n: nat, c: nat, iterations: nat)
    requires n <= q * n <= iterations <= 2 * (q * n)
    ensures c * n <= c * (q * n) <= c * iterations <= 2 * (c * (q * n))
  {
    Times(n, q * n, c);
    Times(q * n, iterations, c);
    Times(iterations, 2 * (q * n), c);
    Reorder(2, c, q * n);
  }

  lemma {:induction false} ActualFits(q: nat, n: nat, c: nat, actual: nat)
    requires q * c <= actual <= q * c + c
    ensures c * (q * n) <= actual * n <= c * (q * n) + c * n
  {
    Times(q * c, actual, n);
    Times(actual, q * c + c, n);
    Reorder(q, c, n);
  }

  lemma {:induction false} Reorder(a: int, b: int, c: int)
    ensures a * (b * c) == b * (a * c) == (a * b) * c
  {
  }

  lemma {:induction false} AtLeastOneRound(q: nat, n: nat, covered: nat)
    requires 0 < n <= covered && covered == q * n + covered % n
    ensures q >= 1 && n <= q * n
  {
    assert q == 0 ==> q * n == 0;
    Times(1, q, n);
  }

  /** At a schedule length of 1000 the detector does flag a pattern whose turn has not come yet at iteration 1000. */
  lemma {:induction false} LongScheduleIsFlagged(schedule: seq<string>, x: string)
    requires |schedule| >= 1000 && schedule[|schedule| - 1] == x && x !in schedule[..|schedule| - 1]
    ensures Skewed(Picks(schedule, 999)[x], 1000, multiset(schedule)[x], |schedule|)
  {
    hide Skewed;
    hide Picks;
    var n, k := |schedule|, SKEW_MIN_ITERATIONS - 1;
    PicksOfRounds(schedule, 0, k, x);
    AbsentFromPrefix(schedule, n - 1, k, x);
    assert schedule == schedule[..n - 1] + [x];
    assert multiset(schedule)[x] == 1;
    SkewedWithoutDivision(0, SKEW_MIN_ITERATIONS, 1, n);
  }

  lemma {:induction false} AbsentFromPrefix(s: seq<string>, m: nat, k: nat, x: string)
    requires k <= m <= |s| && x !in s[..m]
    ensures multiset(s[..k])[x] == 0 && multiset(s[..m])[x] == 0
  {
    assert forall i | 0 <= i < k :: s[..k][i] == s[..m][i];
  }

  // ---------------------------------------------------------------------------
  // The report
  // ---------------------------------------------------------------------------

  /** The skewed patterns, in the order of the weights. */
  ghost function SkewedPatterns(weights: seq<(string, int)>, coverage: map<string, int>, iterations: int, total: int)
    : seq<string>
    requires iterations > 0 && total != 0
  {
    if weights == [] then []
    else
      var n := |weights| - 1;
      var (pattern, weight) := weights[n];
      var actual := if pattern in coverage then coverage[pattern] else 0;
      SkewedPatterns(weights[..n], coverage, iterations, total) +
      if Skewed(actual, iterations, weight, total) then [pattern] else []
  }

  ghost function TotalWeight(weights: seq<(string, int)>): int {
    if weights == [] then 0 else TotalWeight(weights[..|weights| - 1]) + weights[|weights| - 1].1
  }

  lemma {:induction false} SkewedPatternsHave(weights: seq<(string, int)>, coverage: map<string, int>, iterations: int,
                                             total: int, pattern: string)
    requires iterations > 0 && total != 0
    ensures pattern in SkewedPatterns(weights, coverage, iterations, total) <==>
            exists i :: 0 <= i < |weights| && weights[i].0 == pattern &&
              Skewed(if pattern in coverage then coverage[pattern] else 0, iterations, weights[i].1, total)
  {
    if weights != [] {
      var n := |weights| - 1;
      SkewedPatternsHave(weights[..n], coverage, iterations, total, pattern);
      assert forall i | 0 <= i < n :: weights[..n][i] == weights[i];
    }
  }

  /** The list follows the order of the table, each entry on its own. */
  lemma {:induction false} SkewedPatternsInOrder(a: seq<(string, int)>, b: seq<(string, int)>, coverage: map<string, int>,
                                                 iterations: int, total: int)
    requires iterations > 0 && total != 0
    ensures SkewedPatterns(a + b, coverage, iterations, total) ==
            SkewedPatterns(a, coverage, iterations, total) + SkewedPatterns(b, coverage, iterations, total)
  {
    hide Skewed;
    if b == [] {
      assert a + b == a;
    } else {
      var n := |b| - 1;
      SkewedPatternsInOrder(a, b[..n], coverage, iterations, total);
      assert (a + b)[..|a| + n] == a + b[..n];
    }
  }
}
