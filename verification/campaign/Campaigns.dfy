/** A whole campaign: its patterns follow the schedule, so the skew detector stays silent. */
module Campaigns {
  import opened Wrappers
  import opened Schedules
  import opened Skew
  import opened FuzzerStates
  import opened Sequences

  const MAX_UNSKEWED_LENGTH := 999

  function Zip(items: seq<string>, weights: seq<int>): (z: seq<(string, int)>)
    requires |items| == |weights|
    ensures |z| == |items|
  {
    seq(|items|, i requires 0 <= i < |items| => (items[i], weights[i]))
  }

  lemma {:induction false} WeightOfDistinct(items: seq<string>, weights: seq<int>, i: nat)
    requires |items| == |weights| && Distinct(items) && i < |items| && weights[i] >= 0
    ensures WeightOf(items, weights, items[i]) == weights[i]
  {
    var n := |items| - 1;
    if i < n {
      WeightOfDistinct(items[..n], weights[..n], i);
    } else {
      WeightOfAbsent(items[..n], weights[..n], items[n]);
    }
  }

  lemma {:induction false} WeightOfAbsent(items: seq<string>, weights: seq<int>, x: string)
    requires |items| == |weights| && forall i | 0 <= i < |items| :: items[i] != x
    ensures WeightOf(items, weights, x) == 0
  {
    if items != [] {
      WeightOfAbsent(items[..|items| - 1], weights[..|items| - 1], x);
    }
  }

  lemma {:induction false} TotalOfZip(items: seq<string>, weights: seq<int>)
    requires |items| == |weights| && forall i | 0 <= i < |weights| :: weights[i] >= 0
    ensures TotalWeight(Zip(items, weights)) == Total(weights)
  {
    if items != [] {
      var n := |items| - 1;
      TotalOfZip(items[..n], weights[..n]);
      assert Zip(items, weights)[..n] == Zip(items[..n], weights[..n]);
    }
  }

  /** The table that a schedule was built from, one weight per pattern. */
  ghost predicate TableOf(table: seq<(string, int)>, schedule: seq<string>) {
    && TotalWeight(table) == |schedule|
    && forall i | 0 <= i < |table| :: table[i].1 == multiset(schedule)[table[i].0]
  }

  lemma {:induction false} ScheduleHasTable(items: seq<string>, weights: seq<int>, schedule: seq<string>)
    requires |items| == |weights| && Distinct(items) && forall i | 0 <= i < |weights| :: weights[i] >= 0
    requires |schedule| == Total(weights) && forall x :: multiset(schedule)[x] == WeightOf(items, weights, x)
    ensures TableOf(Zip(items, weights), schedule)
  {
    TotalOfZip(items, weights);
    forall i | 0 <= i < |items| ensures weights[i] == multiset(schedule)[items[i]] {
      WeightOfDistinct(items, weights, i);
    }
  }

  /**
   No pattern of the table is skewed while coverage follows a schedule of at most 999 entries, even when the iteration
   under way is not covered yet.
   */
  lemma {:induction false} NothingIsSkewed(table: seq<(string, int)>, coverage: map<string, int>, iterations: nat,
                                           schedule: seq<string>, covered: nat, total: int)
    requires 0 < |schedule| == total <= 999
    requires forall i | 0 <= i < |table| :: table[i].1 == multiset(schedule)[table[i].0]
    requires forall x :: (if x in coverage then coverage[x] else 0) == Picks(schedule, covered)[x]
    requires covered <= iterations <= covered + 1 && iterations >= 1000
    ensures SkewedPatterns(table, coverage, iterations, total) == []
  {
    hide Picks;
    hide Skewed;
    if table != [] {
      var n := |table| - 1;
      NothingIsSkewed(table[..n], coverage, iterations, schedule, covered, total);
      OnScheduleIsNotSkewed(schedule, iterations, covered, table[n].0);
    }
  }

  method Checkpoint(state: FuzzerState, schedule: seq<string>, ghost covered: nat) returns (flag: bool)
    requires 0 < |schedule| <= MAX_UNSKEWED_LENGTH && TableOf(state.patternIntendedWeights, schedule)
    requires state.Follows(schedule, covered) && covered <= state.iterations <= covered + 1
    ensures !flag
  {
    hide TotalWeight;
    hide Picks;
    hide SkewedPatterns;
    var skewed;
    flag, skewed := state.WeightSkewStats();
    if state.iterations >= SKEW_MIN_ITERATIONS {
      NothingIsSkewed(state.patternIntendedWeights, state.patternCoverage, state.iterations, schedule, covered, |schedule|);
    }
  }

  /**
   The detector reports at every checkpoint of the campaign, and stays silent, when the weights of the distinct patterns
   add up to at most 999. A checkpoint falls between counting an iteration and covering its pattern.
   */
  method RunCampaign(items: seq<string>, weights: seq<int>, iterations: nat) returns (flags: seq<bool>)
    requires |items| == |weights| && Distinct(items) && forall i | 0 <= i < |weights| :: weights[i] >= 0
    requires 0 < Total(weights) <= 999
    ensures |flags| == iterations + 1 && forall i | 0 <= i < |flags| :: !flags[i]
  {
    hide Picks;
    hide TotalWeight;
    hide Total;
    hide WeightOf;
    hide Distinct;
    var built := BuildWeightedSchedule(items, weights);
    var schedule := built.value;
    var table := Zip(items, weights);
    var state := new FuzzerState(500, table);
    ScheduleHasTable(items, weights, schedule);
    flags := [];
    NothingCovered(schedule);
    for n := 0 to iterations
      invariant state.iterations == n && state.patternIntendedWeights == table && state.Follows(schedule, n)
      invariant fresh(state)
      invariant |flags| == n && forall i | 0 <= i < |flags| :: !flags[i]
    {
      state.BeginIteration();
      var flag := Checkpoint(state, schedule, n);
      flags := flags + [flag];
      var _ := state.CoverNextPattern(schedule);
    }
    var flag := Checkpoint(state, schedule, iterations);
    flags := flags + [flag];
  }

  lemma {:induction false} NothingCovered(schedule: seq<string>)
    requires schedule != []
    ensures Picks(schedule, 0) == multiset{}
  {
  }
}
