/** The moving average of a pattern's cost, and the time budget that rests on it. */
module Costs {
  const ALPHA := 0.1
  const TIME_BUDGET_MULTIPLIER := 10.0
  const MIN_SAMPLES := 100

  function Blend(mean: real, sample: real): real { mean * (1.0 - ALPHA) + sample * ALPHA }

  datatype Costs = Costs(mean: map<string, real>, count: map<string, int>)

  const NO_COSTS := Costs(map[], map[])

  function Update(c: Costs, pattern: string, elapsed: real): Costs {
    var count := (if pattern in c.count then c.count[pattern] else 0) + 1;
    var mean := if pattern in c.mean then c.mean[pattern] else elapsed;
    Costs(c.mean[pattern := Blend(mean, elapsed)], c.count[pattern := count])
  }

  predicate OverBudget(c: Costs, pattern: string, elapsed: real) {
    && (if pattern in c.count then c.count[pattern] else 0) >= MIN_SAMPLES
    && pattern in c.mean && c.mean[pattern] >= 1.0
    && elapsed > c.mean[pattern] * TIME_BUDGET_MULTIPLIER
  }

  // ---------------------------------------------------------------------------
  // The average of one pattern's samples
  // ---------------------------------------------------------------------------

  ghost function Mean(samples: seq<real>): real
    requires samples != []
  {
    var n := |samples| - 1;
    Blend(if n == 0 then samples[0] else Mean(samples[..n]), samples[n])
  }

  lemma {:induction false} MeanOfOneMore(samples: seq<real>, x: real)
    ensures Mean(samples + [x]) == Blend(if samples == [] then x else Mean(samples), x)
  {
    assert (samples + [x])[..|samples|] == samples;
  }

  ghost function Power(x: real, n: nat): real { if n == 0 then 1.0 else x * Power(x, n - 1) }

  /** What the samples from index `k` on contribute: each sample's weight decays geometrically with its age. */
  ghost function Contribution(samples: seq<real>, k: nat): real
    requires k <= |samples|
    decreases |samples| - k
  {
    if k == |samples| then 0.0
    else ALPHA * Power(1.0 - ALPHA, |samples| - 1 - k) * samples[k] + Contribution(samples, k + 1)
  }

  lemma {:induction false} ContributionAges(samples: seq<real>, x: real, k: nat)
    requires k <= |samples|
    ensures Contribution(samples + [x], k) == (1.0 - ALPHA) * Contribution(samples, k) + ALPHA * x
    decreases |samples| - k
  {
    var longer := samples + [x];
    if k == |samples| {
      assert Contribution(longer, k) == ALPHA * Power(1.0 - ALPHA, 0) * x + Contribution(longer, k + 1);
    } else {
      ContributionAges(samples, x, k + 1);
      var p := Power(1.0 - ALPHA, |samples| - 1 - k);
      assert Power(1.0 - ALPHA, |longer| - 1 - k) == (1.0 - ALPHA) * p;
      assert ALPHA * ((1.0 - ALPHA) * p) * samples[k] == (1.0 - ALPHA) * (ALPHA * p * samples[k]);
    }
  }

  lemma {:induction false} MeanInClosedForm(samples: seq<real>)
    requires samples != []
    ensures Mean(samples) == Power(0.9, |samples| - 1) * samples[0] + Contribution(samples, 1)
  {
    var n := |samples| - 1;
    if n > 0 {
      var before := samples[..n];
      MeanInClosedForm(before);
      ContributionAges(before, samples[n], 1);
      assert samples == before + [samples[n]];
      var p := Power(1.0 - ALPHA, n - 1);
      assert Power(1.0 - ALPHA, n) == (1.0 - ALPHA) * p;
      assert (1.0 - ALPHA) * p * samples[0] == (1.0 - ALPHA) * (p * samples[0]);
    }
  }

  lemma {:induction false} MeanIsBetween(samples: seq<real>, lo: real, hi: real)
    requires samples != [] && forall i | 0 <= i < |samples| :: lo <= samples[i] <= hi
    ensures lo <= Mean(samples) <= hi
  {
    if |samples| > 1 {
      MeanIsBetween(samples[..|samples| - 1], lo, hi);
    }
  }

  // ---------------------------------------------------------------------------
  // Whole runs
  // ---------------------------------------------------------------------------

  ghost function Run(samples: seq<(string, real)>): Costs {
    if samples == [] then NO_COSTS
    else Update(Run(samples[..|samples| - 1]), samples[|samples| - 1].0, samples[|samples| - 1].1)
  }

  ghost function SamplesOf(samples: seq<(string, real)>, pattern: string): seq<real> {
    if samples == [] then []
    else
      SamplesOf(samples[..|samples| - 1], pattern) +
      if samples[|samples| - 1].0 == pattern then [samples[|samples| - 1].1] else []
  }

  /** A pattern's count and average depend on its own samples alone. */
  lemma {:induction false} CostsOfPattern(samples: seq<(string, real)>, pattern: string)
    ensures var c, own := Run(samples), SamplesOf(samples, pattern);
            if own == [] then pattern !in c.count && pattern !in c.mean
            else pattern in c.count && c.count[pattern] == |own| && pattern in c.mean && c.mean[pattern] == Mean(own)
  {
    hide Mean;
    hide Blend;
    if samples != [] {
      var before, x := samples[..|samples| - 1], samples[|samples| - 1];
      CostsOfPattern(before, pattern);
      if x.0 == pattern {
        MeanOfOneMore(SamplesOf(before, pattern), x.1);
      } else {
        assert SamplesOf(samples, pattern) == SamplesOf(before, pattern);
      }
    }
  }

  /**
   When the pattern's samples lie between `lo` and `hi`: an iteration over ten times `hi` is aborted exactly when there
   are enough samples and their average is at least one, and an iteration of at most ten times `lo` is never aborted.
   */
  lemma {:induction false} BudgetAborts(samples: seq<(string, real)>, pattern: string, lo: real, hi: real, elapsed: real)
    requires forall i | 0 <= i < |SamplesOf(samples, pattern)| :: lo <= SamplesOf(samples, pattern)[i] <= hi
    ensures elapsed <= 10.0 * lo ==> !OverBudget(Run(samples), pattern, elapsed)
    ensures elapsed > 10.0 * hi ==>
              (OverBudget(Run(samples), pattern, elapsed) <==>
               |SamplesOf(samples, pattern)| >= 100 && Mean(SamplesOf(samples, pattern)) >= 1.0)
  {
    var own := SamplesOf(samples, pattern);
    CostsOfPattern(samples, pattern);
    if own != [] {
      MeanIsBetween(own, lo, hi);
    }
  }
}
