# Verified model of the FTLLexEngine lock, cycle search, campaign state, number oracles, linter and cursor

This project models six parts of the repository in Dafny and proves what they are for. `dafny verify dfyconfig.toml`
checks all of it.

| directory | models |
|---|---|
| `lock/` | the readers-writer lock of the runtime and the worker programs that the lock harness runs on it |
| `graph/` | cycle canonicalisation, the bounded cycle search, and the graph generators of the graph harness |
| `campaign/` | weighted schedule, skew detector, seed corpus, cost average, time history, and the heaps and lists of extremes |
| `numbers/` | half-even rounding, grouping, digit extraction, the two rounding oracles, and the inference of visible precision |
| `linter/` | the lint visitor over the syntax tree, with its depth guard |
| `text/` | line-ending normalisation, cursor scans, the line index and the position helpers |

**Lock.** The bodies between two waits run under one condition variable, so each is one atomic step. A step is a
function on the lock's value; class `RWLock` takes the same step on mutable fields. Worker bodies are programs of
`with` blocks, bare calls, reports and counter updates; a system is any number of threads with programs, and a run is
any sequence of single steps and timer expiries. The main result, `EveryRunSucceeds`, reduces every interleaving to one
thread: programs that behave when run alone never record a violation, never get stuck, finish within a bound, and leave
the lock idle. The harness patterns are instances of it.

**Graph.** The search walks every simple path from its start nodes and is cut by two limits. It is proved sound always,
and, when it returns fewer cycles than the limit, complete for every cycle whose way round fits the stack. Every cycle
does when no simple path overflows the stack, and none can in a graph with fewer edges than the limit; for such graphs the
result is empty if and only if the graph is acyclic.
The guard against entering a node that is on the path already (`src/ftllexengine/core/reference_graph.py:83-84`) is left
out because `EnterKeepsInv` shows it is never taken.

**Campaign.** Each tracker is a step function with theorems over whole runs; class `FuzzerState` performs the steps in
place, one field group each.

**Numbers.** A decimal is an exact scaled integer. Rounding is roundTiesToEven (section 4.3.1 of IEEE 754-2008). A
number is shown with separators and affixes, and what the oracles and the precision inference read back from the text is
proved to be what was shown.

**Linter.** The issue list equals a pure specification: the visited sites in order, each with its location, each with
the issue it has of its own. What is visited is proved to hold every message and reference of the tree, found by
descending through all fields.

## What the code does differently from what it says

- `track_slowest_operation` is documented as a top ten. A full heap replaces its root, which is the slowest entry, so
  only the root stays meaningful and the rest freezes; `WhenRunIsTopTen` gives the exact condition under which a run
  ends with a top ten and `EleventhPushesOutTenth` a run that does not. The density heap in `fuzz_oom.py` is a true top ten.
- `track_performance_outlier` says that it replaces the smallest outlier. It replaces the last entry, and the list is
  unsorted until the first replacement; `WhenLargestAreKept` gives the exact condition for an update and
  `WhenRunKeepsLargest` for a run, and `RisingOutliersLoseLargest` is a run that loses a large one.
- The cycle search is documented to detect cycles; it misses every ring of more nodes than its stack limit
  (`StackLimitHidesCycle`), and finds every other one (`DetectInRing`).
- Cycle keys are meant to identify cycles; they collide for names that contain the separator (`KeysCanCollide`) and never
  for names without spaces (`KeysIdentifyRotations`).
- Both rounding oracles take `abs` of the value first, which keeps only 28 digits, and then round again. For longer values
  a correct display can be reported and a wrong one accepted; `RoundingTwice` gives the exact condition and
  `LongValueIsMisjudged` an input.
- Precision inference is undone by the decimal separator directly in front of a number with a fraction, as in
  "Rs. 1,000.50" (`DotInFrontMisleads`), and by anything in front of a parenthesis; `InferredIsShown` says that nothing
  else in front undoes it.
- Precision inference raises an error for a digit without a decimal value, which `isdigit` accepts
  (`InconvertibleDigitFails`).
- The precision oracle of the builtins fuzzer compares extracted digits with the text of a decimal. That text has an
  exponent for magnitudes below 10^-6, so a correct display of such a value is reported as a violation;
  `WhenCorrectFormatMatches` gives the exact condition and `TinyValueIsRejected` an input.
- The comment on the midpoint table says that the two rounding modes diverge at every entry; they do exactly where the
  kept digit is even (`HalfUpDiffersAtEvenMidpoints`).
- The visitor restores its location only on a normal return. `LeftAt` says where a depth error leaves it, `Visit` that a
  message or term entered without a location never gets that back then, and `LocationAfterDepthError` shows a tree.
- Each pattern is documented to get its share of the corpus capacity as slots; the code gives it at least one slot even
  when that exceeds the capacity.

## Model

| member | source | states |
|---|---|---|
| `RWLocks.EnterIsProper` | src/ftllexengine/runtime/rwlock.py:180-334 | An acquisition step, for every consistent lock: a nested read is admitted whatever the lock's state; upgrade, downgrade, write re-entry and a negative timeout are rejected with the lock unchanged; a thread that holds nothing is admitted to read exactly when no writer is active or waits, to write exactly when nobody holds the lock, and else waits or times out; no other thread's hold moves; the waiting count moves exactly with the caller; it notifies exactly when a writer has stopped waiting |
| `RWLocks.CheckIsProper` | src/ftllexengine/runtime/rwlock.py:305-334 | A woken waiter acquires on exactly those conditions on the lock's fields, else gives up or waits again; giving up takes it out of the waiting count and leaves nothing behind |
| `RWLocks.ReadersShare` | src/ftllexengine/runtime/rwlock.py:223-236 | With no writer active or waiting a read goes straight in beside any number of readers, at its call and after a wake-up alike, and only then |
| `RWLocks.LeaveIsProper` | src/ftllexengine/runtime/rwlock.py:238-261 | A release undoes exactly one hold, notifies exactly when the lock becomes free, and without a matching hold is rejected with the lock unchanged |
| `RWLocks.AcquireReleaseRestores` | src/ftllexengine/runtime/rwlock.py:135-178 | Acquire then release gives back the very same lock value |
| `RWLocks.BlockerExists` | src/ftllexengine/runtime/rwlock.py:305-309 | A writer is blocked exactly when some thread holds the lock |
| `RWLocks.UnheldIsAcquirable` | fuzz_atheris/fuzz_lock.py:651-667 | A lock nobody holds admits any writer at once, and a reader exactly when no writer waits |
| `RWLocks.RWLock.constructor` | src/ftllexengine/runtime/rwlock.py:92-109 | A new lock is idle |
| `RWLocks.RWLock.AcquireRead` | src/ftllexengine/runtime/rwlock.py:196-220 | The mutable lock takes the specified read-acquisition step up to its first wait |
| `RWLocks.RWLock.ResumeRead` | src/ftllexengine/runtime/rwlock.py:223-236 | One turn of the read wait loop on the mutable fields |
| `RWLocks.RWLock.ReleaseRead` | src/ftllexengine/runtime/rwlock.py:238-261 | The specified read-release step on the mutable fields |
| `RWLocks.RWLock.AcquireWrite` | src/ftllexengine/runtime/rwlock.py:279-303 | The specified write-acquisition step up to its first wait |
| `RWLocks.RWLock.ResumeWrite` | src/ftllexengine/runtime/rwlock.py:305-334 | One turn of the write wait loop, with the decrement and the notification of its finally clause |
| `RWLocks.RWLock.ReleaseWrite` | src/ftllexengine/runtime/rwlock.py:336-353 | The specified write-release step on the mutable fields |
| `LockPrograms.BehavesConcat` | fuzz_atheris/fuzz_lock.py:519-570 | Worker bodies that behave one by one behave in sequence |
| `LockSystem.EventKeepsInv` | src/ftllexengine/runtime/rwlock.py:180-353 | Every atomic step of every thread keeps the system invariant: consistent lock, waiting count equal to the threads blocked in a write, observer counters equal to the threads in their sections, completed plus outstanding increments constant, no violation recorded |
| `LockTheorems.WaitingWritersAreTheBlockedOnes` | src/ftllexengine/runtime/rwlock.py:382-393 | In every reachable state the waiting-writer count is the number of threads blocked in a write acquisition |
| `LockTheorems.ObserversSeeExclusion` | fuzz_atheris/fuzz_lock.py:243-301 | In every reachable state no violation is recorded, at most one writer is observed, and never together with a reader |
| `LockTheorems.ObserversReport` | fuzz_atheris/fuzz_lock.py:256-285 | The observers would report a writer that comes in beside anyone and a reader that comes in beside a writer, and nothing else |
| `LockTheorems.NotEveryoneSleeps` | src/ftllexengine/runtime/rwlock.py:327-334 | There is no reachable state in which all unfinished threads sleep: no wake-up is lost |
| `LockTheorems.SomeStepIsEnabled` | fuzz_atheris/fuzz_lock.py:504-585 | Every reachable unfinished state has a thread that can step |
| `LockTheorems.EventLowersPotential` | fuzz_atheris/fuzz_lock.py:504-585 | Every event lowers a natural-number measure, retries after wake-ups included |
| `LockTheorems.RunsAreShort` | fuzz_atheris/fuzz_lock.py:504-585 | Every run is no longer than a bound known from the programs alone |
| `LockTheorems.FinishedMeansIdle` | fuzz_atheris/fuzz_lock.py:571-585 | When all workers are done the lock is idle, all counters are zero and no increment is lost |
| `LockTheorems.EveryRunSucceeds` | fuzz_atheris/fuzz_lock.py:504-585 | Any number of threads whose programs behave when run alone: under every schedule no violation, no deadlock, bounded length, an idle lock at the end |
| `LockWorkers.ExclusionWorkerBehaves` | fuzz_atheris/fuzz_lock.py:256-285 | The reader and writer bodies of the exclusion pattern behave |
| `LockWorkers.ProbeIsRejected` | fuzz_atheris/fuzz_lock.py:427-460 | A probe for the inner lock under the outer one reports exactly when both are reads |
| `LockWorkers.UpgradeIsRejected` | fuzz_atheris/fuzz_lock.py:409-424 | The upgrade attempt ends in the exception that the worker swallows, without a report |
| `LockWorkers.ReentrantReadsBehave` | fuzz_atheris/fuzz_lock.py:389-406 | Nested reads to any depth, on top of any depth already held, come out balanced |
| `LockWorkers.MixedWorkerBehaves` | fuzz_atheris/fuzz_lock.py:519-570 | Any sequence of the six drawn operations behaves |
| `LockWorkers.CyclerBehaves` | fuzz_atheris/fuzz_lock.py:474-485 | The cycler bodies, with the increment split into load and store, behave and store once per writer cycle |
| `LockWorkers.TimedAttemptBehaves` | fuzz_atheris/fuzz_lock.py:620-667 | An acquisition with a timeout is in order whether or not it times out |
| `LockWorkers.NegativeTimeoutBehaves` | fuzz_atheris/fuzz_lock.py:718-740 | The negative-timeout worker stays silent exactly when its timeout is negative |
| `LockWorkers.ReleaseUnheldBehaves` | fuzz_atheris/fuzz_lock.py:743-761 | Releasing without holding is rejected and leaves the lock usable |
| `LockWorkers.MixedContentionSucceeds` | fuzz_atheris/fuzz_lock.py:504-585 | The mixed-contention pattern with any number of workers, any operations and any schedule: no violation, no deadlock, bounded length, idle at the end |
| `LockWorkers.ReaderWriterExclusionHolds` | fuzz_atheris/fuzz_lock.py:243-301 | The exclusion pattern with any split into readers and writers: violations stay empty in every reachable state, and counters and lock are zero and idle at the end |
| `LockWorkers.AllReadersInside` | fuzz_atheris/fuzz_lock.py:304-340 | For every n there is a run in which n readers are in their sections at the same time |
| `LockWorkers.RapidCyclingLosesNothing` | fuzz_atheris/fuzz_lock.py:463-501 | Without the auxiliary lock, completed plus outstanding increments equal writers times cycles in every state, and the final value is exactly that |
| `LockWorkers.UnprotectedIncrementsRace` | fuzz_atheris/fuzz_lock.py:474-485 | Without the lock two such increments can end at one, so it is the lock that saves them |
| `LockWorkers.NoNewReaders` | fuzz_atheris/fuzz_lock.py:343-386 | While a writer waits, the set of reading threads loses exactly those that give up their last hold, and gains none |
| `LockWorkers.ReadersAheadOnlyLeave` | fuzz_atheris/fuzz_lock.py:670-712 | Over any run during which a writer waits, the readers ahead of it are among those that were there |
| `LockWorkers.LastThreadNeverWaits` | fuzz_atheris/fuzz_lock.py:651-667 | When every other thread is done, whatever timed out before, an acquisition neither waits nor times out |
| `LockWorkers.TimeoutLeavesLockUsable` | fuzz_atheris/fuzz_lock.py:620-667 | The whole timeout pattern: however holder and attempt interleave and whether or not the attempt times out, nothing gets stuck, and once both are done a write with a timeout of one second goes straight in and leaves the lock idle when released |
| `LockWorkers.AttemptCanTimeOut` | fuzz_atheris/fuzz_lock.py:636-649 | The attempt does time out when its deadline passes under the holder |
| `LockWorkers.ZeroTimeoutNeverWaits` | src/ftllexengine/runtime/rwlock.py:223-236 | With a zero timeout a call never waits: it is admitted, rejected or timed out at its first check |
| `LockWorkers.WakeUpKeepsDeadlines` | src/ftllexengine/runtime/rwlock.py:223-236 | A wake-up lets every waiting thread look again and takes no deadline back |
| `TextOrder.FirstDifference` | src/ftllexengine/core/reference_graph.py:129-137 | Texts compare by the first character in which they differ |
| `TextOrder.ShorterFirst` | src/ftllexengine/core/reference_graph.py:129-137 | Where they do not differ the shorter comes first |
| `CycleKeys.CanonicalShape` | src/ftllexengine/core/reference_graph.py:129-137 | The canonical form is closed, as long as its input, starts at the least node and is a rotation of the input |
| `CycleKeys.CanonicalizeIsIdempotent` | fuzz_atheris/fuzz_graph.py:240-262 | Canonicalising twice is canonicalising once, for every input |
| `CycleKeys.CanonicalKeepsEdges` | src/ftllexengine/core/reference_graph.py:129-137 | The directed edge sequence is kept up to rotation |
| `CycleKeys.SameCanonicalMeansRotation` | src/ftllexengine/core/reference_graph.py:129-137 | Equal canonical forms mean rotations, repeated nodes included |
| `CycleKeys.CanonicalIdentifiesRotations` | src/ftllexengine/core/reference_graph.py:129-137 | For distinct nodes, equal canonical forms if and only if one cycle is a rotation of the other |
| `CycleKeys.RepeatedNodesCanDiffer` | src/ftllexengine/core/reference_graph.py:129-137 | With a repeated least node two rotations can have different canonical forms |
| `CycleKeys.DirectionMatters` | fuzz_atheris/fuzz_graph.py:265-296 | Three or more distinct nodes walked backwards have another canonical form |
| `CycleKeys.KeysIdentifyRotations` | src/ftllexengine/core/reference_graph.py:145-148 | Display keys over space-free names agree exactly on rotations |
| `CycleKeys.KeyFromLeast` | src/ftllexengine/core/reference_graph.py:145-148 | The key of a cycle written from its least node is its nodes joined by arrows, and the first again at the end |
| `CycleKeys.KeyOfCycle` | src/ftllexengine/core/reference_graph.py:140-148 | The key of any closed cycle is that of its rotation from its least node, with which it starts and ends |
| `CycleKeys.TwoNodeKey` | src/ftllexengine/core/reference_graph.py:145-148 | From either node, the cycle of a and b has the key a -> b -> a |
| `CycleKeys.KeysCanCollide` | src/ftllexengine/core/reference_graph.py:148-148 | A node whose name contains the separator collides: for all x least among x, y and z, the cycle over x and y -> z and the cycle over x, y and z have the same key, though they differ in length |
| `CycleKeys.CollidingKeys` | src/ftllexengine/core/reference_graph.py:145-148 | Two elementary cycles, of two and of three nodes, with one key |
| `SearchSteps.EnterKeepsInv` | src/ftllexengine/core/reference_graph.py:83-89 | Entering a node keeps the search invariant; the entered node is never on the path already |
| `SearchSteps.RecordKeepsInv` | src/ftllexengine/core/reference_graph.py:40-54 | A back edge closes a real elementary cycle, recorded unless a rotation of it is |
| `SearchSteps.QueueKeepsInv` | src/ftllexengine/core/reference_graph.py:57-67 | Any other neighbour is queued, or refused only at the stack limit |
| `SearchSteps.FinishKeepsInv` | src/ftllexengine/core/reference_graph.py:111-114 | Leaving a node restores the path from before it was entered |
| `SearchBounds.CycleIsRecorded` | src/ftllexengine/core/reference_graph.py:151-188 | If the cycle limit was not reached and every key was visited, every elementary cycle that fits the stack is recorded up to rotation |
| `CycleSearch.Search.AppendCycle` | src/ftllexengine/core/reference_graph.py:40-54 | Records the cycle that a back edge closes, once per canonical form |
| `CycleSearch.Search.QueueNeighbor` | src/ftllexengine/core/reference_graph.py:57-67 | Queues a neighbour with its own neighbours, subject to the stack limit |
| `CycleSearch.Search.FinishNode` | src/ftllexengine/core/reference_graph.py:111-114 | The exit phase |
| `CycleSearch.Search.VisitEntering` | src/ftllexengine/core/reference_graph.py:70-108 | The enter phase keeps the invariant and makes progress, also when the cycle limit stops it midway |
| `CycleSearch.Search.Explore` | src/ftllexengine/core/reference_graph.py:163-186 | The search from one start node ends, and exhausts its stack unless the cycle limit is reached |
| `CycleSearch.DetectCycles` | src/ftllexengine/core/reference_graph.py:151-188 | Sound: only real elementary cycles, no two rotations of each other, never more than the limit, none with more nodes than the stack limit. Complete: when fewer than the limit are found, every elementary cycle is found that has a node such that, however a simple path gets there, the stack has room for the rest of the way round, whatever overflows elsewhere; and so every one when no path overflows. Targets that are no keys are included, and the search always ends |
| `GraphPatterns.Detect` | fuzz_atheris/fuzz_graph.py:164-175 | With the limits of the library: never more than a thousand cycles of at most 100000 nodes; below a thousand, every cycle that fits the stack; for every graph of fewer than 100000 edges, or with no path that overflows the stack, the result is empty if and only if the graph is acyclic |
| `Graphs.FewEdgesFit` | src/ftllexengine/core/reference_graph.py:57-67 | In a graph with fewer edges than the stack limit no path overflows the stack |
| `Graphs.AllFit` | src/ftllexengine/core/reference_graph.py:57-67 | When no path overflows the stack every elementary cycle fits |
| `Graphs.SelfLoopFits` | fuzz_atheris/fuzz_graph.py:371-397 | A self-loop fits under any limit, however long the paths that lead to it |
| `GraphPatterns.FoundWithSameNodes` | fuzz_atheris/fuzz_graph.py:400-432 | Every cycle of the graph that fits the stack appears in the result with the same nodes |
| `GraphPatterns.SelfLoopIsFound` | fuzz_atheris/fuzz_graph.py:371-397 | Whatever the stack limit, a self-loop is reported as such |
| `GraphPatterns.BuildDag` | fuzz_atheris/fuzz_graph.py:435-448 | The generator builds exactly the drawn edges, all from lower to higher index |
| `GraphPatterns.DagIsAcyclic` | fuzz_atheris/fuzz_graph.py:435-448 | A graph of that shape has no cycle |
| `GraphPatterns.DetectInDag` | fuzz_atheris/fuzz_graph.py:435-455 | Whatever is drawn, the search finds nothing in it |
| `GraphPatterns.BuildChain` | fuzz_atheris/fuzz_graph.py:511-524 | The generator builds a chain with at most one back-edge |
| `GraphPatterns.BuildRing` | fuzz_atheris/fuzz_graph.py:400-408 | The ring generator builds a chain closed to its first node |
| `GraphPatterns.ChainCycles` | fuzz_atheris/fuzz_graph.py:511-524 | The back-edge closes a cycle from its target on, and without it there is none |
| `GraphPatterns.DetectInChain` | fuzz_atheris/fuzz_graph.py:511-536 | Without a back-edge nothing is found at any depth; with one, at any depth, exactly the loop over the nodes from the back-edge's target on is found, once, if it has at most 100000 nodes, and nothing otherwise |
| `GraphPatterns.FoundInChain` | fuzz_atheris/fuzz_graph.py:511-536 | In a chain with a back-edge any sound result is at most the one loop |
| `GraphPatterns.LoopFits` | fuzz_atheris/fuzz_graph.py:511-536 | The loop of a chain fits the stack when its own nodes do, however long the chain that leads to it |
| `GraphPatterns.DetectInRing` | fuzz_atheris/fuzz_graph.py:400-432 | Under any limits a ring is found, exactly once, if and only if it has no more nodes than the stack limit |
| `GraphPatterns.StackLimitHidesCycle` | src/ftllexengine/core/reference_graph.py:65-66 | With the limits of the library every ring of more than 100000 nodes is missed |
| `Schedules.BuildWeightedSchedule` | fuzz_atheris/fuzz_common.py:189-202 | Consecutive blocks in item order, each as long as its weight, each item as often as its weights say; lists of different length are an error |
| `Schedules.FullWindow` | fuzz_atheris/fuzz_common.py:205-220 | Any window of as many consecutive iterations as the schedule is long, at any offset, picks each pattern exactly as often as it is scheduled |
| `Schedules.PicksWithinOneRound` | fuzz_atheris/fuzz_common.py:205-220 | After n iterations each pattern has had its complete rounds and at most one more |
| `Schedules.RoundsFollowSchedule` | fuzz_atheris/fuzz_common.py:205-220 | Iterations are counted from one, and each round picks the entries of the schedule from the first to the last |
| `Skew.SkewedWithoutDivision` | fuzz_atheris/fuzz_common.py:622-634 | The detector's percentage test stated without division |
| `Skew.WeightlessIsNotSkewed` | fuzz_atheris/fuzz_common.py:622-634 | A pattern without weight is never skewed |
| `Skew.OnScheduleIsNotSkewed` | fuzz_atheris/fuzz_common.py:603-636 | Once a complete round is covered no scheduled pattern is skewed, also when coverage lags the iterations by one |
| `Skew.LongScheduleIsFlagged` | fuzz_atheris/fuzz_common.py:603-636 | From length 1000 on, a last pattern of weight one is flagged at iteration 1000 by a lagging checkpoint, so 999 is the exact limit |
| `Skew.SkewedPatternsHave` | fuzz_atheris/fuzz_common.py:622-634 | A pattern is listed exactly when one of its table entries is skewed |
| `Skew.SkewedPatternsInOrder` | fuzz_atheris/fuzz_common.py:622-634 | The list follows the order of the table, each entry on its own |
| `Campaigns.NothingIsSkewed` | fuzz_atheris/fuzz_common.py:603-636 | Over a whole table the detector lists nothing while coverage follows a schedule of at most 999 entries |
| `Campaigns.RunCampaign` | fuzz_atheris/fuzz_graph.py:682-693 | A campaign of any length with distinct patterns and weights adding up to at most 999 is never flagged at any checkpoint |
| `FuzzerStates.FuzzerState.WeightSkewStats` | fuzz_atheris/fuzz_common.py:603-637 | The flag and the list of the detector, with its three early exits |
| `FuzzerStates.FuzzerState.CoverNextPattern` | fuzz_atheris/fuzz_common.py:205-220 | Selects the round-robin pattern and keeps coverage equal to what the schedule picked; an empty schedule is an error |
| `Corpora.TrackKeepsBalance` | fuzz_atheris/fuzz_common.py:250-294 | Total bucket size stays entries added minus evictions, under any configuration |
| `Corpora.CorpusIsConsistent` | fuzz_atheris/fuzz_common.py:250-294 | The same over whole runs with changing configurations, and no key is ever twice in a bucket |
| `Corpora.BucketHoldsNewest` | fuzz_atheris/fuzz_common.py:273-288 | With fixed weights and capacity a bucket is exactly the last min(slots, n) accepted inputs of its pattern, in order; other patterns make no difference |
| `Corpora.BucketFitsSlots` | fuzz_atheris/fuzz_common.py:279-285 | A bucket never holds more than its slots |
| `Corpora.SlotsShareCapacity` | fuzz_atheris/fuzz_common.py:274-279 | A pattern has the slots that the capacity gives each of the intended patterns, or of those seen without weights, rounded down, and at least one |
| `Corpora.FlatIsFirstInFirstOut` | fuzz_atheris/fuzz_common.py:290-294 | One step of the flat corpus: full, it gives up its oldest entry for a new key, and a known key keeps its place and gets the new data |
| `Corpora.FlatNeverExceeds` | fuzz_atheris/fuzz_common.py:290-294 | The flat corpus never exceeds its maximum |
| `Corpora.FlatTakesInput` | fuzz_atheris/fuzz_common.py:250-294 | After any run, an interesting input that its bucket does not hold is last in the flat corpus if its key is new there, and otherwise has its data put in the old place; any other input leaves it as it is |
| `Corpora.FlatHoldsNewest` | fuzz_atheris/fuzz_common.py:290-294 | While no key comes twice, the flat corpus is exactly the newest interesting inputs of all patterns, as many as the maximum, in order, whatever the buckets do |
| `FuzzerStates.FuzzerState.TrackSeedCorpus` | fuzz_atheris/fuzz_common.py:250-294 | The in-place update is the specified corpus step |
| `Costs.MeanInClosedForm` | fuzz_atheris/fuzz_common.py:317-331 | The moving average in closed form: the first sample and each later one weighted geometrically by age |
| `Costs.MeanIsBetween` | fuzz_atheris/fuzz_common.py:317-331 | The average lies between the least and the greatest sample |
| `Costs.CostsOfPattern` | fuzz_atheris/fuzz_common.py:317-331 | Count and average of a pattern depend on its own samples alone |
| `Costs.BudgetAborts` | fuzz_atheris/fuzz_common.py:334-361 | Above ten times the greatest sample an iteration is aborted exactly when there are 100 samples with a mean of at least one; up to ten times the least it never is |
| `FuzzerStates.FuzzerState.UpdatePatternCost` | fuzz_atheris/fuzz_common.py:317-331 | The in-place update is the specified cost step |
| `FuzzerStates.FuzzerState.CheckTimeBudget` | fuzz_atheris/fuzz_common.py:334-361 | Aborts exactly over budget and counts the skip |
| `Heaps.Rise` | fuzz_atheris/fuzz_common.py:226-244 | Sifting up restores heap order and keeps the elements |
| `Heaps.Sink` | fuzz_atheris/fuzz_common.py:226-244 | Sinking to the bottom and rising again restores heap order and keeps the elements |
| `Heaps.Push` | fuzz_atheris/fuzz_common.py:241-242 | Push keeps heap order and adds exactly the new entry |
| `Heaps.ReplaceRoot` | fuzz_atheris/fuzz_common.py:243-244 | Replace keeps heap order and exchanges exactly the root |
| `Heaps.RootIsLeast` | fuzz_atheris/fuzz_common.py:243-243 | In a heap nothing is below the root |
| `Extremes.SlowOrder` | fuzz_atheris/fuzz_common.py:240-240 | Entries compared as tuples are totally ordered |
| `Extremes.TrackSlow` | fuzz_atheris/fuzz_common.py:226-244 | The slowest-operation step: push while below ten, then replace the root only for a slower entry |
| `Extremes.RootIsAllTimeSlowest` | fuzz_atheris/fuzz_common.py:226-244 | After any operations the root is one of them and the slowest of them all |
| `Extremes.SlowRootOfEqual` | fuzz_atheris/fuzz_common.py:226-244 | Among operations that took equally long the root has the first pattern, then the first hash |
| `Extremes.AllButRootFreeze` | fuzz_atheris/fuzz_common.py:243-244 | Once full, everything but the root stays as it is |
| `Extremes.WhenSlowestAreKept` | fuzz_atheris/fuzz_common.py:232-244 | One update of a full heap keeps the slowest of its entries and the new one if and only if the new operation is no slower than any of them or all of them are equally slow |
| `Extremes.WhenRunIsTopTen` | fuzz_atheris/fuzz_common.py:226-244 | After ten operations or more the heap is the first ten without their slowest, and the slowest of all; it is a top ten of the run if and only if no other operation was slower than any of those nine |
| `Extremes.RisingRunLosesSlowest` | fuzz_atheris/fuzz_common.py:226-244 | While operations take longer and longer the heap is the first nine and the last, and from the eleventh on no top ten |
| `Extremes.EleventhPushesOutTenth` | fuzz_atheris/fuzz_common.py:226-244 | A run of eleven operations, as the tracker performs it, after which the second slowest is lost while the fastest is kept |
| `Extremes.DomainMetrics.TrackDensestInput` | fuzz_atheris/fuzz_oom.py:365-380 | The density step on the mutable heap |
| `Extremes.DenseStep` | fuzz_atheris/fuzz_oom.py:365-380 | One input keeps the heap a top ten |
| `Extremes.DenseRootOfEqual` | fuzz_atheris/fuzz_oom.py:365-380 | Among equally dense inputs the root has the fewest nodes, then the fewest bytes, then the first hash |
| `Extremes.HeapHoldsTopTen` | fuzz_atheris/fuzz_oom.py:365-380 | At every moment of any run the heap is a true top ten: part of the inputs, ten of them or all, nothing left out denser than anything kept |
| `FuzzerStates.FuzzerState.TrackSlowestOperation` | fuzz_atheris/fuzz_common.py:226-244 | The in-place update is the specified heap step |
| `Outliers.SortDescending` | fuzz_atheris/fuzz_common.py:397-397 | Sorting by falling time: ordered, same entries |
| `Outliers.ListGrowsToHundred` | fuzz_atheris/fuzz_common.py:388-397 | Below the threshold nothing is tracked; above it the list grows to one hundred entries and no further |
| `Outliers.WhenLargestAreKept` | fuzz_atheris/fuzz_common.py:390-397 | One update of a full list keeps the largest of its entries and the new one if and only if the entry given up, or the one turned away, is a smallest one |
| `Outliers.OrderedFromFirstReplacement` | fuzz_atheris/fuzz_common.py:390-397 | From its first replacement on the full list is in order, and then it keeps the largest |
| `Outliers.WhenRunKeepsLargest` | fuzz_atheris/fuzz_common.py:367-397 | A whole run under any thresholds: up to a hundred outliers are all kept; if none is larger than the hundredth the first hundred stay; otherwise the list is in order, and it holds the largest outliers of the run if and only if the hundredth is no larger than the least one kept |
| `Outliers.FirstReplacementCanLose` | fuzz_atheris/fuzz_common.py:389-397 | From an empty list: if the hundredth outlier exceeds another one, a larger 101st replaces it, and the list no longer holds the largest |
| `Outliers.RisingOutliersLoseLargest` | fuzz_atheris/fuzz_common.py:389-397 | Outliers of 1 to 101 milliseconds: that of 100 is lost while that of 1 is kept |
| `Performance.HistoryIsNewest` | fuzz_atheris/fuzz_common.py:134-136 | The history is exactly the newest ten thousand times of a run, in order |
| `Performance.ExtremesOutliveHistory` | fuzz_atheris/fuzz_common.py:424-426 | The extremes are those of all times of a run, also of those the history has forgotten |
| `Performance.WallTimeIsSum` | fuzz_atheris/fuzz_common.py:421-422 | Each pattern has the sum of its own times, and an entry exactly when it occurred |
| `Performance.OneInHundredAbove` | fuzz_atheris/fuzz_common.py:383-386 | At most one in a hundred of the remembered times is above the 99th percentile, for every history of a hundred times or more |
| `Performance.OneInHundredNotBelow` | fuzz_atheris/fuzz_common.py:383-386 | And, but for less than one, at least one in a hundred is at the percentile or above |
| `Performance.ThresholdOfHundred` | fuzz_atheris/fuzz_common.py:383-386 | Of the times 1 to 100 the percentile is 99.99 and the threshold 199.98, computed once in a thousand iterations and from a hundred times on |
| `Performance.OutliersAreRare` | fuzz_atheris/fuzz_common.py:383-386 | A threshold derived from the history leaves at most one in a hundred of the remembered times as outliers |
| `FuzzerStates.FuzzerState.TrackPerformanceOutlier` | fuzz_atheris/fuzz_common.py:367-397 | Derives the threshold from the history once in a thousand iterations and takes the specified outlier step under it |
| `FuzzerStates.FuzzerState.RecordIterationMetrics` | fuzz_atheris/fuzz_common.py:400-434 | All trackers together: history, wall time, extremes, slowest operations, corpus, costs, threshold and outliers each take their own step and disturb no other |
| `Rounding.RoundsToNearestEven` | fuzz_atheris/fuzz_numbers.py:319-319 | Rounding yields the one integer within half a unit that is even on a tie, for either sign |
| `Rounding.RoundIsOdd` | fuzz_atheris/fuzz_numbers.py:318-319 | Rounding the magnitude is the magnitude of the rounding |
| `Rounding.RoundIsMonotone` | fuzz_atheris/fuzz_numbers.py:319-319 | A larger value never rounds to a smaller result |
| `Rounding.HalfUpDiffersAtEvenMidpoints` | fuzz_atheris/fuzz_numbers.py:157-177 | Half-up differs from half-even exactly at midpoints whose kept digit is even |
| `Rounding.QuantizeDependsOnValue` | fuzz_atheris/fuzz_numbers.py:318-319 | The result depends on the value alone, not on trailing zeros in how it is written |
| `Rounding.QuantizeIsNearest` | fuzz_atheris/fuzz_numbers.py:318-319 | No other number of the asked places is nearer to the value, and a tie goes to the even one |
| `Rounding.QuantizeIsExact` | fuzz_atheris/fuzz_numbers.py:318-319 | A value with no more places than asked for is kept exactly |
| `Rounding.RoundingTwice` | fuzz_atheris/fuzz_numbers.py:318-319 | Keeping 28 digits of the magnitude first, as abs does, and then rounding gives the rounding of the value if and only if the kept value is not halfway between two results with the value on the side that the even one is not |
| `Rounding.ShortValuesAreRoundedOnce` | fuzz_atheris/fuzz_numbers.py:318-319 | Values of at most 28 digits are never rounded twice |
| `Rounding.TrimKeepsValue` | src/ftllexengine/runtime/locale_formatting.py:73-78 | Trimming zeros down to the minimum keeps the value and stops as early as it must and no earlier |
| `Rounding.RoundThenTrimIsRound` | fuzz_atheris/fuzz_builtins.py:391-455 | Rounding at the clamped maximum and trimming zeros equals rounding directly at the visible precision, for every value and all limits |
| `Displays.GroupAsciiThousands` | fuzz_atheris/fuzz_bridge.py:335-343 | The loop yields the digits grouped in threes from the right, with the sign in front |
| `Displays.GroupedShape` | fuzz_atheris/fuzz_bridge.py:335-343 | A separator stands exactly before every third digit from the right |
| `Displays.UngroupedIsDigits` | fuzz_atheris/fuzz_bridge.py:335-343 | Taking the separators out leaves the digits |
| `Displays.ExtractedAffix` | fuzz_atheris/fuzz_numbers.py:296-297 | Affix text without digits, dots and decimal separators is dropped entirely |
| `Displays.ExtractionUndoesShow` | fuzz_atheris/fuzz_numbers.py:267-297 | For distinct non-digit separators, '.' as group included, any affixes and any fraction, extraction gives back exactly the ASCII number |
| `Displays.OrderMattersForDotGroups` | fuzz_atheris/fuzz_builtins.py:352-356 | For every shown number: replacing the decimal separator first gives the plain number if and only if there is no fraction or groups are not separated by '.'; otherwise the fraction joins the integer |
| `Displays.ComputeVisiblePrecision` | src/ftllexengine/core/value_types.py:249-271 | The loop counts the digits after the last decimal symbol, up to the maximum |
| `Displays.PrecisionOfShow` | src/ftllexengine/core/value_types.py:249-271 | For a shown number that count is the number of its fraction digits |
| `Displays.PrecisionOfDigits` | src/ftllexengine/core/value_types.py:249-271 | In any script: after the last decimal symbol, as many digits as stand there are counted, ASCII digits and others alike, up to the maximum |
| `Displays.NoPrecisionWithoutSymbol` | src/ftllexengine/core/value_types.py:249-258 | Without the decimal symbol the precision is zero |
| `InferenceTheorems.NumberCharacters` | src/ftllexengine/core/value_types.py:285-306 | Besides digits, exactly thirteen characters can be part of a segment |
| `Inference.IterNumericSegments` | src/ftllexengine/core/value_types.py:285-306 | The loop cuts a text into its digit-carrying segments, digits of other scripts included |
| `Inference.NormalizeNumericText` | src/ftllexengine/core/value_types.py:323-355 | The loop keeps the leading sign and the digits, converts those of other scripts, turns the given separator into a dot, drops other separators and parentheses, gives up at anything else, and fails at a digit without a value |
| `Inference.InferVisiblePrecision` | src/ftllexengine/core/value_types.py:382-401 | The nested search over segments and separators with its early exits yields the specified precision |
| `Readings.RightReading` | src/ftllexengine/core/value_types.py:358-379 | Under its decimal separator, or none without a fraction, a display parses to its value |
| `Readings.WrongReading` | src/ftllexengine/core/value_types.py:358-379 | Under its group separator a display never parses to its value |
| `Readings.ParenthesesKeepValue` | src/ftllexengine/core/value_types.py:358-379 | A number in parentheses reads as exactly its negation if and only if 28 digits hold it |
| `InferenceTheorems.FrontSpoilsReading` | src/ftllexengine/core/value_types.py:358-379 | A separator that also stands in front of a number other than zero never reads it as its value |
| `InferenceTheorems.InferredIsShown` | fuzz_atheris/fuzz_bridge.py:684-700 | For every number shown with any known separators, with or without grouping and fraction, without a sign, behind a plus or minus or in parentheses, with separators directly in front, between blanks and any text that is no part of it: the inferred precision is the number of its fraction digits if and only if no decimal separator stands directly in front of a number with a fraction and nothing in front of a parenthesis, or else the value's own scale is that number |
| `InferenceTheorems.ValueDecides` | fuzz_atheris/fuzz_bridge.py:666-718 | The same text has precision 3 for the value one and 0 for the value one thousand |
| `InferenceTheorems.FirstSeparatorDecides` | src/ftllexengine/core/value_types.py:382-401 | If several separators read a segment as the value the first of them decides |
| `InferenceTheorems.SeparatorsInOrder` | src/ftllexengine/core/value_types.py:385-388 | The candidates are in the order of their first occurrence |
| `ScriptTheorems.ScriptMakesNoDifference` | src/ftllexengine/core/value_types.py:285-401 | For any text and value the inferred precision is that of the text with its digits written in ASCII |
| `ScriptTheorems.InferredInAnyScript` | src/ftllexengine/core/value_types.py:382-401 | A number shown with the digits of any script, in any of those forms, has the precision of its fraction |
| `ScriptTheorems.ArabicDigitsCount` | src/ftllexengine/core/value_types.py:262-266 | One and a half in Arabic-Indic digits with two fraction digits has precision 2 |
| `ScriptTheorems.InconvertibleDigitFails` | src/ftllexengine/core/value_types.py:310-312 | A number with a digit that has no decimal value, such as a superscript, makes the inference fail whatever the value |
| `InferenceTheorems.DotInFrontMisleads` | src/ftllexengine/core/value_types.py:382-401 | From Rs. 1,000.50 for the value 1000.5 one fraction digit is inferred, not two, because the dot in front joins the segment |
| `Digits.RenderValue` | fuzz_atheris/fuzz_bridge.py:337-337 | The digits of a number have its value |
| `Digits.NoLeadingZero` | fuzz_atheris/fuzz_bridge.py:337-337 | They start with no zero, except for zero itself |
| `Digits.PartsMakeWhole` | fuzz_atheris/fuzz_numbers.py:318-319 | Whole part and zero-filled fraction make up the scaled number |
| `Oracles.StrIsFixed` | fuzz_atheris/fuzz_builtins.py:446-446 | Above the exponent threshold the text of a decimal writes all places |
| `Oracles.ExponentIsNotFixed` | fuzz_atheris/fuzz_builtins.py:446-446 | Below it the text is a different one |
| `Oracles.StrOfTinyValues` | fuzz_atheris/fuzz_builtins.py:446-446 | Literal texts with an exponent, such as 1.2E-7 |
| `Oracles.ParseOfPlain` | fuzz_atheris/fuzz_numbers.py:328-331 | Reading a plain number back gives its value |
| `Oracles.NumbersMetrics.RunOracle` | fuzz_atheris/fuzz_numbers.py:300-339 | Raises exactly on a violation verdict and counts checks, violations and findings accordingly |
| `Oracles.JudgeByValueOfShow` | fuzz_atheris/fuzz_numbers.py:300-339 | A shown number is accepted exactly when the magnitude it writes is the rounding of the magnitude kept to 28 digits, unless that has more than 28 digits; for values of at most 28 digits that is the half-even rounding of the value |
| `Oracles.WhenCorrectFormatIsAccepted` | fuzz_atheris/fuzz_numbers.py:300-372 | A number formatted half-even within any limits, also with the minimum above the maximum, is reported if and only if keeping 28 digits first changes its rounding, and so never for values of at most 28 digits |
| `Oracles.LongValueIsMisjudged` | fuzz_atheris/fuzz_numbers.py:318-339 | For 1.4 followed by 29 nines the correct display 1 is reported and 2 is accepted |
| `Oracles.PatternStatesLimits` | src/ftllexengine/runtime/locale_formatting.py:47-78 | Limits outside 0 to 100 are an error, with a given pattern too; a given pattern is used as it is; otherwise every branch builds a pattern that demands the minimum and allows the clamped maximum of fraction digits, and groups exactly when asked to |
| `Oracles.PatternText` | src/ftllexengine/runtime/locale_formatting.py:66-78 | One form for all branches: the integer part, and behind a dot the demanded digits before the optional ones |
| `Oracles.WhenCorrectFormatMatches` | fuzz_atheris/fuzz_builtins.py:391-455 | For a correctly formatted number the precision is the number of shown fraction digits, and comparing texts accepts it if and only if the decimal's text uses no exponent and keeping 28 digits first does not change its rounding |
| `Oracles.JudgeByTextOfShow` | fuzz_atheris/fuzz_builtins.py:436-455 | Any shown number, right or wrong, is accepted exactly when its plain form is the text of the rounded magnitude, and then it writes that magnitude with the asked number of places |
| `Oracles.UnreadableIsSkipped` | fuzz_atheris/fuzz_numbers.py:282-297 | Displays with digits of other scripts, and locales with one symbol for both separators, are never judged |
| `Oracles.TinyValueIsRejected` | fuzz_atheris/fuzz_builtins.py:446-455 | One ten-millionth shown in full is rejected although it is shown correctly |
| `Ast.InnerHasInnerChildren` | src/ftllexengine/syntax/ast.py:300-626 | Below a pattern there are no definitions |
| `Linter.FTLLinterVisitor.constructor` | examples/ftl_linter.py:60-66 | A fresh visitor has reported and collected nothing |
| `Linter.FTLLinterVisitor.Visit` | src/ftllexengine/syntax/visitor.py:146-179 | The guarded walk succeeds exactly when the tree fits the rest of the depth limit; then its issues are the specified ones and the location is restored; cut short, it has reported a first part of them and the location is exactly where the limit was hit; a message or term visited without a location gets that back if and only if it succeeds or was not entered; the depth counter always returns |
| `Linter.FTLLinterVisitor.Dispatch` | src/ftllexengine/syntax/visitor.py:171-178 | The method for the node's type, inside the depth guard |
| `Linter.FTLLinterVisitor.VisitMessage` | examples/ftl_linter.py:98-126 | A message: its own issue, its value if it has elements, its attributes, the location back; or, cut short, the location where the limit was hit |
| `Linter.FTLLinterVisitor.VisitTerm` | examples/ftl_linter.py:128-140 | A term: its value if it has elements, its attributes, the location back; or, cut short, the location where the limit was hit |
| `Linter.FTLLinterVisitor.VisitAttribute` | examples/ftl_linter.py:142-152 | An attribute: its value, under a location extended by its name, which stays when the value is too deep |
| `Linter.FTLLinterVisitor.VisitFunctionReference` | examples/ftl_linter.py:162-185 | An unknown function is reported, then the arguments are visited |
| `Linter.FTLLinterVisitor.VisitMessageReference` | examples/ftl_linter.py:187-202 | An undefined message is reported, then the children are visited |
| `Linter.FTLLinterVisitor.VisitTermReference` | examples/ftl_linter.py:204-218 | An undefined term is reported, then the children are visited |
| `Linter.FTLLinterVisitor.GenericVisit` | src/ftllexengine/syntax/visitor.py:195-230 | Every child in field order |
| `Linter.FTLLinterVisitor.CollectIds` | examples/ftl_linter.py:77-92 | The first pass collects all identifiers and reports repeated messages |
| `Linter.FTLLinterVisitor.VisitResource` | examples/ftl_linter.py:72-96 | Both passes over a resource give the specified issues against all its definitions |
| `Linter.FTLLinterVisitor.VisitRoot` | src/ftllexengine/syntax/visitor.py:146-179 | The same through the depth guard |
| `Linter.LintResource` | examples/ftl_linter.py:244-256 | Linting yields the specified issue list, or none when the tree is deeper than 100 |
| `Linter.LeftAtDefinition` | examples/ftl_linter.py:98-152 | A message or term cut short leaves the location at itself when its value is too deep or its attributes may not be entered, and else at its first attribute that is too deep |
| `LintExamples.LocationAfterDepthError` | examples/ftl_linter.py:98-126 | Linting m = x under a limit of two levels fails and leaves the location at m |
| `LintExamples.LintDanglingReference` | examples/ftl_linter.py:187-202 | Linting m = (a reference to missing) reports exactly that reference, as an error located at m |
| `LintTheorems.OneIssuePerOccurrence` | examples/ftl_linter.py:162-218 | For every list of visited sites: one issue for each occurrence of a name that is not allowed, and none for allowed names |
| `LintTrees.NothingRelevantIsMissed` | examples/ftl_linter.py:72-218 | The messages and the message, term and function references met by descending through every field of a tree, each with its definition or attribute, are those that linting visits: none missed, none twice, none elsewhere, in the same order |
| `LintTheorems.ExactlyOncePerOccurrence` | examples/ftl_linter.py:72-218 | In the issue list of a resource, for every name and place: exactly one undefined-reference, undefined-term or unknown-function issue per offending occurrence anywhere in the tree, shown at the message, term or attribute it is in; one no-value issue per message without a value; and none otherwise |
| `LintTheorems.IssuesOfDefinition` | examples/ftl_linter.py:98-152 | Every issue of a message or term, but for its missing value, is located at its name, with a dash for a term, or at that name, a dot and the name of one of its attributes |
| `LintTrees.PlacesAreLocations` | examples/ftl_linter.py:98-152 | The linter's locations are the message, term or attribute that each node is in |
| `LintTrees.TagOfLocation` | examples/ftl_linter.py:181-181 | Only a missing or empty location is shown as unknown |
| `LintTheorems.CollectedEverywhere` | examples/ftl_linter.py:77-92 | A name counts as defined when any entry defines it, before or after its use |
| `LintTheorems.DuplicatesCount` | examples/ftl_linter.py:77-90 | A message defined n times is reported n - 1 times |
| `LintTheorems.InnerSitesShareLocation` | examples/ftl_linter.py:98-152 | Nothing inside a pattern changes the location |
| `LintTheorems.AttributeSites` | examples/ftl_linter.py:142-152 | Everything in an attribute is located at that attribute of its definition |
| `LintTheorems.DefinitionSites` | examples/ftl_linter.py:98-152 | Every node visited in a message or term, and every reference anywhere in it, is located at it or at one of its attributes |
| `LineEndings.TwoPassesAreOne` | fuzz_atheris/fuzz_cursor.py:186-188 | The two replacements equal a one-pass scan |
| `LineEndings.EachEndingIsOneLineFeed` | fuzz_atheris/fuzz_cursor.py:186-188 | For any lines ended by CR LF, CR or LF: every line is kept and every ending becomes one LF |
| `LineEndings.NoCrLeft` | fuzz_atheris/fuzz_cursor.py:186-188 | No CR is left |
| `LineEndings.NormalizeIsIdempotent` | fuzz_atheris/fuzz_cursor.py:186-188 | Normalising twice is normalising once |
| `LineEndings.UnchangedExactlyWithoutCr` | fuzz_atheris/fuzz_cursor.py:186-188 | Text is left alone if and only if it has no CR |
| `Cursors.Cursor.SkipSpaces` | src/ftllexengine/syntax/cursor.py:251-280 | Stops at the end of the run of spaces |
| `Cursors.Cursor.SkipWhitespace` | src/ftllexengine/syntax/cursor.py:282-312 | Stops at the end of the run of spaces and line feeds |
| `Cursors.ManualSkipSpaces` | fuzz_atheris/fuzz_cursor.py:191-195 | The reference scan stops at the end of the run of spaces |
| `Cursors.ManualSkipWhitespace` | fuzz_atheris/fuzz_cursor.py:198-202 | The reference scan stops at the end of the run of spaces and line feeds |
| `Cursors.SkipsAgree` | fuzz_atheris/fuzz_cursor.py:289-306 | Reference scan and cursor stop at the same place, for spaces and for whitespace |
| `Cursors.RunEndsOnce` | fuzz_atheris/fuzz_cursor.py:289-306 | A run has one end, so any two scans agree |
| `Cursors.LineStart` | src/ftllexengine/syntax/cursor.py:438-469 | The line and column by counting are those of the last line start at or before the position |
| `Cursors.LineOffsetCache.constructor` | src/ftllexengine/syntax/cursor.py:498-519 | The loop builds the index of all line starts |
| `Cursors.LineOffsetCache.GetLineCol` | src/ftllexengine/syntax/cursor.py:521-560 | Bisection gives the line and column that counting gives, for every position, clamped to the text; line start and column lead back to the position |
| `Cursors.NavigationFollowsIndex` | fuzz_atheris/fuzz_cursor.py:309-334 | Going to a line's end and past it leads from anywhere in a line to the start of the next, and from the last line to the end |
| `Cursors.FormatPositionAgrees` | fuzz_atheris/fuzz_cursor.py:337-356 | The formatted position shows what the cursor computes, and one less of each counted from zero; a negative position is an error there |
| `Cursors.FormatPositionInLine` | src/ftllexengine/syntax/position.py:99-130 | Counted from zero it is the number of the line and the offset from its start |
| `Cursors.LineColIsInjective` | src/ftllexengine/syntax/cursor.py:438-469 | Different positions have different lines or columns |

## Left out

- Clocks and durations: a timeout is a number of seconds whose expiry is a free event; sleeps are not modelled.
- Barriers and join timeouts of the lock harness: a worker whose barrier breaks is a worker with an empty program, and
  waiting with a time limit for threads to end is replaced by the proof that every run ends.
- The counters of the reader-overlap pattern (that readers can overlap is `AllReadersInside`), and the cross-thread handoff
  and zero-timeout patterns of the lock harness, which add no lock behaviour beyond the modelled calls.
- Fairness: no step is promised to a particular thread, only that some thread can always step and that runs end.
- Fuzzed inputs are arbitrary inputs; the fuzzing engine, process statistics, reports and artifacts are not modelled.
- `entry_dependency_set` and the random-graph generator: easy members.
- The disconnected, star, complete and undefined-target graphs are instances of `FoundWithSameNodes`, not separate members.
- Floating-point error, NaN and infinities: averages and percentages are over exact reals, decimals are finite.
- Babel and its locale data: separators and digits of other scripts are parameters, separators are single characters,
  and formatting within limits is modelled as rounding half-even at the maximum and trimming zeros to the minimum.
- Which characters are digits of other scripts, and their values, are parameters of the precision inference.
- The heap library is not part of the repository; `Heaps` implements the textbook operations it documents, and only
  heap order and contents are used.
- Clamping of the depth limit against the interpreter's recursion limit: the limit of 100 is taken as it is.
- Arguments of parse-error annotations, comment types and literal values in the syntax tree: the linter does not read them.
- Construction guards, `peek`, `advance`, `expect` and slices of the cursor, error contexts and parse results: easy members.
- `Behaves` is sufficient for the lock theorems, not necessary: a program may also succeed for reasons of timing.
- CycleSearch.DetectCycles: a cycle within the stack limit is promised only if it fits. Two chains that reach the nodes of
  a two-node cycle just below the limit, one each, lose it when the chains' keys are listed first, and not otherwise.
- InferenceTheorems.InferredIsShown: signs and parentheses in front of a number other than its own, and for a zero decimal
  separators in front, are not covered.
- Oracles.WhenCorrectFormatIsAccepted: formatting is assumed to round the exact value; the display itself is the work of
  the formatting library.
- Oracles.WhenCorrectFormatMatches: the same assumption about the formatting library.
- Rounding.TrimKeepsValue: the cited lines ask for optional digits; that those are trimmed when zero is assumed of the
  formatting library.
