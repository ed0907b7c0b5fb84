/** The mutable state that every fuzzer of a campaign shares, and the operations that update it. */
module FuzzerStates {
  import opened Wrappers
  import opened Schedules
  import opened Skew
  import opened Heaps
  import opened Extremes
  import Corpora
  import Costs
  import Outliers
  import opened Performance

  class FuzzerState {
    var iterations: int
    var patternCoverage: map<string, int>
    var patternIntendedWeights: seq<(string, int)>
    var slowestOperations: seq<Slow>
    var corpusPatternBuckets: map<string, Corpora.Bucket>
    var seedCorpus: Corpora.Bucket
    var corpusEntriesAdded: int
    var corpusEvictions: int
    var seedCorpusMaxSize: int
    var patternMeanCost: map<string, real>
    var patternIterationCount: map<string, int>
    var timeBudgetSkips: int
    var outlierThresholdMs: real
    var performanceOutliers: seq<Outliers.Outlier>
    var performanceHistory: seq<real>
    var patternWallTime: map<string, real>
    var perfAllTimeMaxMs: real
    var perfAllTimeMinMs: Option<real>

    constructor (maxSize: int, weights: seq<(string, int)>)
      ensures iterations == 0 && patternCoverage == map[] && patternIntendedWeights == weights
      ensures slowestOperations == [] && performanceOutliers == [] && outlierThresholdMs == 0.0
      ensures Corpus() == Corpora.EMPTY_CORPUS && seedCorpusMaxSize == maxSize
      ensures Cost() == Costs.NO_COSTS && timeBudgetSkips == 0 && Times() == NO_TIMING
    {
      iterations, patternCoverage, patternIntendedWeights := 0, map[], weights;
      slowestOperations, performanceOutliers, outlierThresholdMs := [], [], 0.0;
      corpusPatternBuckets, seedCorpus, corpusEntriesAdded, corpusEvictions := map[], [], 0, 0;
      seedCorpusMaxSize := maxSize;
      patternMeanCost, patternIterationCount, timeBudgetSkips := map[], map[], 0;
      performanceHistory, patternWallTime, perfAllTimeMaxMs, perfAllTimeMinMs := [], map[], 0.0, None;
    }

    ghost function Corpus(): Corpora.Corpus
      reads this
    {
      Corpora.Corpus(corpusPatternBuckets, seedCorpus, corpusEntriesAdded, corpusEvictions)
    }

    ghost function Config(): Corpora.Config
      reads this
    {
      Corpora.Config(seedCorpusMaxSize, |patternIntendedWeights|)
    }

    ghost function Cost(): Costs.Costs
      reads this
    {
      Costs.Costs(patternMeanCost, patternIterationCount)
    }

    ghost function Times(): Timing
      reads this
    {
      Timing(performanceHistory, patternWallTime, perfAllTimeMaxMs, perfAllTimeMinMs)
    }

    method TrackSlowestOperation(durationMs: real, pattern: string, inputHash: string)
      requires IsHeap(slowestOperations, SlowLeq)
      modifies this`slowestOperations
      ensures IsHeap(slowestOperations, SlowLeq)
      ensures multiset(slowestOperations) ==
              SlowContents(old(slowestOperations), Slow(-durationMs, pattern, inputHash))
    {
      slowestOperations := TrackSlow(slowestOperations, Slow(-durationMs, pattern, inputHash));
    }

    method TrackSeedCorpus(inputKey: string, inputData: Corpora.Bytes, pattern: string, isInteresting: bool)
      modifies this`corpusPatternBuckets, this`seedCorpus, this`corpusEntriesAdded, this`corpusEvictions
      ensures Corpus() == Corpora.Track(old(Corpus()), Config(),
                                        Corpora.Input(inputKey, inputData, pattern, isInteresting))
    {
      hide Corpora.HasKey;
      hide Corpora.KeyIndex;
      hide Corpora.Put;
      if !isInteresting {
        return;
      }
      var bucket := if pattern in corpusPatternBuckets then corpusPatternBuckets[pattern] else [];
      corpusPatternBuckets := corpusPatternBuckets[pattern := bucket];
      if Corpora.HasKey(bucket, inputKey) {
        return;
      }
      var numPatterns := Corpora.Max(1, if |patternIntendedWeights| != 0 then |patternIntendedWeights|
                                        else |corpusPatternBuckets|);
      var slotsPerPattern := Corpora.Max(1, seedCorpusMaxSize / numPatterns);
      if |bucket| >= slotsPerPattern {
        bucket := bucket[1..];
        corpusEvictions := corpusEvictions + 1;
      }
      corpusPatternBuckets := corpusPatternBuckets[pattern := Corpora.Put(bucket, inputKey, inputData)];
      corpusEntriesAdded := corpusEntriesAdded + 1;
      seedCorpus := Corpora.Put(seedCorpus, inputKey, inputData);
      if |seedCorpus| > seedCorpusMaxSize {
        seedCorpus := seedCorpus[1..];
      }
    }

    method UpdatePatternCost(pattern: string, elapsedMs: real)
      modifies this`patternMeanCost, this`patternIterationCount
      ensures Cost() == Costs.Update(old(Cost()), pattern, elapsedMs)
    {
      var count := (if pattern in patternIterationCount then patternIterationCount[pattern] else 0) + 1;
      patternIterationCount := patternIterationCount[pattern := count];
      var oldMean := if pattern in patternMeanCost then patternMeanCost[pattern] else elapsedMs;
      patternMeanCost := patternMeanCost[pattern := oldMean * (1.0 - Costs.ALPHA) + elapsedMs * Costs.ALPHA];
    }

    method CheckTimeBudget(pattern: string, elapsedMs: real) returns (abort: bool)
      modifies this`timeBudgetSkips
      ensures abort == Costs.OverBudget(Cost(), pattern, elapsedMs)
      ensures timeBudgetSkips == old(timeBudgetSkips) + if abort then 1 else 0
    {
      var count := if pattern in patternIterationCount then patternIterationCount[pattern] else 0;
      if count < Costs.MIN_SAMPLES {
        return false;
      }
      if pattern !in patternMeanCost || patternMeanCost[pattern] < 1.0 {
        return false;
      }
      if elapsedMs > patternMeanCost[pattern] * Costs.TIME_BUDGET_MULTIPLIER {
        timeBudgetSkips := timeBudgetSkips + 1;
        return true;
      }
      return false;
    }

    method TrackPerformanceOutlier(elapsedMs: real, pattern: string, inputHash: string, timestamp: string)
      modifies this`performanceOutliers, this`outlierThresholdMs
      ensures outlierThresholdMs == Threshold(iterations, performanceHistory, old(outlierThresholdMs))
      ensures performanceOutliers == Outliers.Track(old(performanceOutliers), outlierThresholdMs,
                                                    Outliers.Outlier(elapsedMs, pattern, inputHash, timestamp))
    {
      hide Percentile;
      hide Outliers.SortDescending;
      if iterations % UPDATE_INTERVAL == 0 && |performanceHistory| >= MIN_HISTORY {
        outlierThresholdMs := Percentile(performanceHistory) * OUTLIER_THRESHOLD_FACTOR;
      }
      if outlierThresholdMs > 0.0 && elapsedMs > outlierThresholdMs {
        var entry := Outliers.Outlier(elapsedMs, pattern, inputHash, timestamp);
        var last := |performanceOutliers| - 1;
        if |performanceOutliers| < Outliers.MAX_OUTLIERS {
          performanceOutliers := performanceOutliers + [entry];
        } else if elapsedMs > performanceOutliers[last].elapsed {
          performanceOutliers := performanceOutliers[last := entry];
          performanceOutliers := Outliers.SortDescending(performanceOutliers);
        }
      }
    }

    /** Everything recorded at the end of an iteration; its time comes from the clock. */
    method RecordIterationMetrics(pattern: string, elapsedMs: real, inputHash: string, inputData: Corpora.Bytes,
                                  isInteresting: bool, timestamp: string)
      requires IsHeap(slowestOperations, SlowLeq)
      modifies this
      ensures IsHeap(slowestOperations, SlowLeq)
      ensures multiset(slowestOperations) == SlowContents(old(slowestOperations), Slow(-elapsedMs, pattern, inputHash))
      ensures Times() == Record(old(Times()), pattern, elapsedMs)
      ensures Corpus() == Corpora.Track(old(Corpus()), Config(),
                                        Corpora.Input(inputHash, inputData, pattern, isInteresting))
      ensures Cost() == Costs.Update(old(Cost()), pattern, elapsedMs)
      ensures outlierThresholdMs == Threshold(iterations, performanceHistory, old(outlierThresholdMs))
      ensures performanceOutliers == Outliers.Track(old(performanceOutliers), outlierThresholdMs,
                                                    Outliers.Outlier(elapsedMs, pattern, inputHash, timestamp))
      ensures iterations == old(iterations) && patternCoverage == old(patternCoverage)
      ensures Config() == old(Config()) && patternIntendedWeights == old(patternIntendedWeights)
      ensures timeBudgetSkips == old(timeBudgetSkips)
    {
      hide Corpora.Track;
      hide Costs.Update;
      hide Outliers.Track;
      hide Threshold;
      hide Record;
      hide SlowContents;
      hide IsHeap;
      RecordTime(pattern, elapsedMs);
      TrackSlowestOperation(elapsedMs, pattern, inputHash);
      TrackSeedCorpus(inputHash, inputData, pattern, isInteresting);
      UpdatePatternCost(pattern, elapsedMs);
      TrackPerformanceOutlier(elapsedMs, pattern, inputHash, timestamp);
    }

    method RecordTime(pattern: string, elapsedMs: real)
      modifies this`performanceHistory, this`patternWallTime, this`perfAllTimeMaxMs, this`perfAllTimeMinMs
      ensures Times() == Record(old(Times()), pattern, elapsedMs)
    {
      if |performanceHistory| >= HISTORY_SIZE {
        performanceHistory := performanceHistory[1..];
      }
      performanceHistory := performanceHistory + [elapsedMs];
      var total := if pattern in patternWallTime then patternWallTime[pattern] else 0.0;
      patternWallTime := patternWallTime[pattern := total + elapsedMs];
      perfAllTimeMaxMs := if perfAllTimeMaxMs < elapsedMs then elapsedMs else perfAllTimeMaxMs;
      perfAllTimeMinMs :=
        if perfAllTimeMinMs.Some? && perfAllTimeMinMs.value <= elapsedMs then perfAllTimeMinMs else Some(elapsedMs);
    }

    /** The detector's flag and, when the detector looked at the patterns at all, those it found skewed. */
    method WeightSkewStats() returns (detected: bool, skewed: Option<seq<string>>)
      ensures var total := TotalWeight(patternIntendedWeights);
              skewed == if patternIntendedWeights == [] || iterations < 1000 || total == 0 then None
                        else Some(SkewedPatterns(patternIntendedWeights, patternCoverage, iterations, total))
      ensures detected <==> skewed.Some? && skewed.value != []
    {
      if patternIntendedWeights == [] || iterations < SKEW_MIN_ITERATIONS {
        return false, None;
      }
      var weights := patternIntendedWeights;
      var total := 0;
      for i := 0 to |weights|
        invariant total == TotalWeight(weights[..i])
      {
        assert weights[..i + 1][..i] == weights[..i];
        total := total + weights[i].1;
      }
      assert weights[..|weights|] == weights;
      if total == 0 {
        return false, None;
      }
      var found: seq<string> := [];
      for i := 0 to |weights|
        invariant found == SkewedPatterns(weights[..i], patternCoverage, iterations, total)
      {
        assert weights[..i + 1][..i] == weights[..i];
        var (pattern, intended) := weights[i];
        var actual := if pattern in patternCoverage then patternCoverage[pattern] else 0;
        found := found + if Skewed(actual, iterations, intended, total) then [pattern] else [];
      }
      assert weights[..|weights|] == weights;
      return found != [], Some(found);
    }

    /** Coverage is what the schedule picked in the first `covered` iterations. */
    ghost predicate Follows(schedule: seq<string>, covered: nat)
      reads this
    {
      schedule != [] &&
      forall x :: (if x in patternCoverage then patternCoverage[x] else 0) == Picks(schedule, covered)[x]
    }

    method BeginIteration()
      modifies this`iterations
      ensures iterations == old(iterations) + 1
    {
      iterations := iterations + 1;
    }

    method CoverNextPattern(schedule: seq<string>) returns (r: Result<string, Problem>)
      modifies this`patternCoverage
      ensures r == SelectPattern(iterations, schedule)
      ensures r.Failure? ==> patternCoverage == old(patternCoverage)
      ensures schedule != [] && iterations > 0 && old(Follows(schedule, iterations - 1)) ==> Follows(schedule, iterations)
    {
      if schedule == [] {
        return Failure(EmptySchedule);
      }
      var pattern := schedule[(iterations - 1) % |schedule|];
      var count := if pattern in patternCoverage then patternCoverage[pattern] else 0;
      patternCoverage := patternCoverage[pattern := count + 1];
      r := Success(pattern);
      assert pattern == schedule[Slot(iterations, |schedule|)];
    }
  }
}
