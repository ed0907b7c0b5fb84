/** The worker bodies of the lock harness, and what the general results say about each pattern. */
module LockWorkers {
  import opened Wrappers
  import opened Sums
  import opened RWLocks
  import opened LockPrograms
  import opened LockSystem
  import opened LockTheorems

  const CAUGHT: set<Exn> := {RuntimeError, TimeoutError}

  // ---------------------------------------------------------------------------
  // Bodies
  // ---------------------------------------------------------------------------

  function ExclusionWorker(isWriter: bool): seq<Instr> {
    if isWriter then [With(Write, Forever, [WriterIn, WriterOut]), EndTry(CAUGHT)]
    else [With(Read, Forever, [ReaderIn, ReaderOut]), EndTry(CAUGHT)]
  }

  /** Try to acquire `inner` while holding `outer`; being admitted is a violation. */
  function Probe(inner: Kind, message: string): seq<Instr> {
    [Acquire(inner, Forever), Release(inner), Report(message), EndTry({RuntimeError})]
  }

  function MixedOp(op: int): seq<Instr> {
    match op
    case 0 => [With(Read, Forever, []), EndTry(CAUGHT)]
    case 1 => [With(Write, Forever, []), EndTry(CAUGHT)]
    case 2 => [With(Read, Forever, [With(Read, Forever, [])]), EndTry(CAUGHT)]
    case 3 => [With(Write, Forever, Probe(Write, "Write reentry not rejected")), EndTry(CAUGHT)]
    case 4 => [With(Write, Forever, Probe(Read, "Downgrade not rejected")), EndTry(CAUGHT)]
    case _ =>
      [With(Read, Forever, [Acquire(Write, Forever), Report("Upgrade not rejected"), Release(Write)]),
       EndTry({RuntimeError}), EndTry(CAUGHT)]
  }

  function MixedWorker(ops: seq<int>): seq<Instr> {
    if ops == [] then [] else MixedOp(ops[0]) + MixedWorker(ops[1..])
  }

  /** Even threads read the shared value, odd ones increment it. */
  function Cycler(id: ThreadId, cycles: nat): seq<Instr> {
    if cycles == 0 then []
    else (if id % 2 == 0 then [With(Read, Forever, [Load])] else [With(Write, Forever, [Load, Store])])
         + Cycler(id, cycles - 1)
  }

  function ReentrantReads(depth: nat): Instr {
    With(Read, Forever, if depth == 0 then [] else [ReentrantReads(depth - 1)])
  }

  function TimedAttempt(k: Kind, seconds: real): seq<Instr> {
    [With(k, Within(seconds), []), EndTry({TimeoutError})]
  }

  function NegativeTimeout(k: Kind, seconds: real): seq<Instr> {
    [With(k, Within(seconds), []), Report("Negative timeout did not raise"), EndTry({ValueError}),
     With(Write, Forever, [])]
  }

  function ReleaseUnheld(k: Kind): seq<Instr> {
    [Release(k), Report("Release without acquire did not raise"), EndTry({RuntimeError}), With(Write, Forever, [])]
  }

  // ---------------------------------------------------------------------------
  // They behave
  // ---------------------------------------------------------------------------

  // One instruction in front of a program whose behaviour is known.

  lemma {:induction false} Cons(i: Instr, rest: seq<Instr>)
    ensures ([i] + rest)[0] == i && ([i] + rest)[1..] == rest
    ensures i.With? ==> Entered([i] + rest) == i.body + ([Exit(i.kind)] + rest)
    ensures i.Acquire? ==> Entered([i] + rest) == rest
  {
  }

  lemma {:induction false} SkipStep(i: Instr, rest: seq<Instr>, x: Exn, hold: Hold)
    requires !i.Exit? && !i.EndTry? && InstrStores(i) == 0
    ensures Behaves([i] + rest, Some(x), hold, Outside) <==> Behaves(rest, Some(x), hold, Outside)
  {
    Cons(i, rest);
  }

  lemma {:induction false} EndTryStep(catches: set<Exn>, rest: seq<Instr>, exn: Option<Exn>, hold: Hold)
    ensures Behaves([EndTry(catches)] + rest, exn, hold, Outside)
            <==> Behaves(rest, if exn.Some? && exn.value in catches then None else exn, hold, Outside)
  {
    Cons(EndTry(catches), rest);
  }

  lemma {:induction false} LeaveStep(i: Instr, rest: seq<Instr>, exn: Option<Exn>, hold: Hold)
    requires i.Exit? || (i.Release? && exn == None)
    ensures Behaves([i] + rest, exn, hold, Outside)
            <==> if CanLeave(i.kind, hold) then Behaves(rest, exn, Remaining(hold), Outside)
                 else Behaves(rest, Some(RuntimeError), hold, Outside)
  {
    Cons(i, rest);
    assert Behaves([i] + rest, exn, hold, Outside) <==> AfterLeave(i.kind, rest, exn, hold);
  }

  lemma {:induction false} ReportStep(message: string, rest: seq<Instr>, hold: Hold)
    ensures !Behaves([Report(message)] + rest, None, hold, Outside)
  {
    Cons(Report(message), rest);
  }

  lemma {:induction false} EnterStep(i: Instr, rest: seq<Instr>, hold: Hold)
    requires Acquisition(i) && InstrStores(i) == 0
    ensures Behaves([i] + rest, None, hold, Outside) <==> EntersInto(i, rest, hold)
  {
    Cons(i, rest);
  }

  predicate EntersInto(i: Instr, rest: seq<Instr>, hold: Hold)
    requires Acquisition(i)
  {
    var admitted := Admission(i.kind, hold);
    if i.timeout.Negative() then Behaves(rest, Some(ValueError), hold, Outside)
    else if admitted.Failure? then Behaves(rest, Some(admitted.error), hold, Outside)
    else
      && Behaves(if i.With? then i.body + ([Exit(i.kind)] + rest) else rest, None, admitted.value, Outside)
      && (hold == Free && i.timeout.Within? ==> Behaves(rest, Some(TimeoutError), Free, Outside))
  }

  lemma {:induction false} EmptyWithBehaves(k: Kind, timeout: Timeout, rest: seq<Instr>)
    requires Behaves(rest, None, Free, Outside) && !timeout.Negative()
    requires timeout.Within? ==> Behaves(rest, Some(TimeoutError), Free, Outside)
    ensures Behaves([With(k, timeout, [])] + rest, None, Free, Outside)
  {
    hide Behaves;
    EnterStep(With(k, timeout, []), rest, Free);
    LeaveStep(Exit(k), rest, None, Admission(k, Free).value);
    assert [] + ([Exit(k)] + rest) == [Exit(k)] + rest;
  }

  lemma {:induction false} CaughtBehaves()
    ensures Behaves([EndTry(CAUGHT)], None, Free, Outside)
  {
    EndTryStep(CAUGHT, [], None, Free);
    assert [EndTry(CAUGHT)] == [EndTry(CAUGHT)] + [];
  }

  lemma {:induction false} ExclusionWorkerBehaves(isWriter: bool)
    ensures Behaves(ExclusionWorker(isWriter), None, Free, Outside)
  {
    var c := ExclusionWorker(isWriter);
    var k, first, second := c[0].kind, c[0].body[0], c[0].body[1];
    var held := Admission(k, Free).value;
    var tail := [Exit(k)] + [EndTry(CAUGHT)];
    CaughtBehaves();
    LeaveStep(Exit(k), [EndTry(CAUGHT)], None, held);
    SectionStep(isWriter, tail, held);
    EnterStep(c[0], [EndTry(CAUGHT)], Free);
    assert c[0].body + tail == [first] + ([second] + tail);
    assert c == [c[0]] + [EndTry(CAUGHT)];
    NoStores(c[0].body);
  }

  lemma {:induction false} SectionStep(isWriter: bool, rest: seq<Instr>, held: Hold)
    requires held == if isWriter then Writing else Reading(1)
    requires Behaves(rest, None, held, Outside)
    ensures var (i, o) := if isWriter then (WriterIn, WriterOut) else (ReaderIn, ReaderOut);
            Behaves([i] + ([o] + rest), None, held, Outside)
  {
    var (i, o) := if isWriter then (WriterIn, WriterOut) else (ReaderIn, ReaderOut);
    Cons(i, [o] + rest);
    Cons(o, rest);
    assert Behaves([o] + rest, None, held, if isWriter then WriterSection else ReaderSection);
  }

  lemma {:induction false} NoStores(code: seq<Instr>)
    requires forall i | 0 <= i < |code| :: InstrStores(code[i]) == 0
    ensures Stores(code) == 0
  {
    if code != [] {
      NoStores(code[1..]);
    }
  }

  /**
   The rejection patterns: a call for `inner` under a held `outer` is turned down, and the worker goes on holding what
   it held. It is admitted, and so reported, exactly when both are reads.
   */
  lemma {:induction false} ProbeIsRejected(outer: Kind, inner: Kind, message: string, rest: seq<Instr>)
    requires Behaves(rest, None, Free, Outside)
    ensures Behaves([With(outer, Forever, Probe(inner, message))] + rest, None, Free, Outside)
            <==> !(outer == Read && inner == Read)
  {
    hide Behaves;
    var probe := Probe(inner, message);
    var held := Admission(outer, Free).value;
    var p4 := [Exit(outer)] + rest;
    var p3 := [EndTry({RuntimeError})] + p4;
    var p2 := [Report(message)] + p3;
    var p1 := [Release(inner)] + p2;
    NoStores(probe);
    EnterStep(With(outer, Forever, probe), rest, Free);
    assert probe + p4 == [Acquire(inner, Forever)] + p1;
    EnterStep(Acquire(inner, Forever), p1, held);
    LeaveStep(Exit(outer), rest, None, held);
    if outer == Read && inner == Read {
      LeaveStep(Release(inner), p2, None, Reading(2));
      ReportStep(message, p3, held);
    } else {
      SkipStep(Release(inner), p2, RuntimeError, held);
      SkipStep(Report(message), p3, RuntimeError, held);
      EndTryStep({RuntimeError}, p4, Some(RuntimeError), held);
    }
  }

  lemma {:induction false} UpgradeIsRejected()
    ensures Behaves(MixedOp(5), None, Free, Outside)
  {
    hide Behaves;
    var c := MixedOp(5);
    var p4 := [EndTry({RuntimeError})] + [EndTry(CAUGHT)];
    var p3 := [Exit(Read)] + p4;
    var p2 := [Release(Write)] + p3;
    var p1 := [c[0].body[1]] + p2;
    CaughtBehaves();
    EndTryStep({RuntimeError}, [EndTry(CAUGHT)], Some(RuntimeError), Free);
    LeaveStep(Exit(Read), p4, Some(RuntimeError), Reading(1));
    SkipStep(Release(Write), p3, RuntimeError, Reading(1));
    SkipStep(c[0].body[1], p2, RuntimeError, Reading(1));
    EnterStep(Acquire(Write, Forever), p1, Reading(1));
    assert c[0].body + p3 == [Acquire(Write, Forever)] + p1;
    NoStores(c[0].body);
    EnterStep(c[0], p4, Free);
    assert c == [c[0]] + p4;
  }

  /** Nested reads to any depth, on top of any depth already held. */
  lemma {:induction false} ReentrantReadsBehave(depth: nat, held: nat, rest: seq<Instr>)
    requires Behaves(rest, None, if held == 0 then Free else Reading(held), Outside)
    ensures Behaves([ReentrantReads(depth)] + rest, None, if held == 0 then Free else Reading(held), Outside)
  {
    hide Behaves;
    var i := ReentrantReads(depth);
    ReentrantReadsHaveNoStores(depth);
    EnterStep(i, rest, if held == 0 then Free else Reading(held));
    LeaveStep(Exit(Read), rest, None, Reading(held + 1));
    if depth == 0 {
      assert [] + ([Exit(Read)] + rest) == [Exit(Read)] + rest;
    } else {
      ReentrantReadsBehave(depth - 1, held + 1, [Exit(Read)] + rest);
    }
  }

  lemma {:induction false} ReentrantReadsHaveNoStores(depth: nat)
    ensures InstrStores(ReentrantReads(depth)) == 0
  {
    if depth > 0 {
      ReentrantReadsHaveNoStores(depth - 1);
      NoStores([ReentrantReads(depth - 1)]);
    }
  }

  lemma {:induction false} MixedOpBehaves(op: int)
    ensures Behaves(MixedOp(op), None, Free, Outside)
  {
    hide Behaves;
    var tail := [EndTry(CAUGHT)];
    CaughtBehaves();
    match op
    case 0 => EmptyWithBehaves(Read, Forever, tail); assert MixedOp(0) == [MixedOp(0)[0]] + tail;
    case 1 => EmptyWithBehaves(Write, Forever, tail); assert MixedOp(1) == [MixedOp(1)[0]] + tail;
    case 2 =>
      ReentrantReadsBehave(1, 0, tail);
      assert ReentrantReads(0) == With(Read, Forever, []);
      assert MixedOp(2) == [ReentrantReads(1)] + tail;
    case 3 =>
      ProbeIsRejected(Write, Write, "Write reentry not rejected", tail);
      assert MixedOp(3) == [MixedOp(3)[0]] + tail;
    case 4 =>
      ProbeIsRejected(Write, Read, "Downgrade not rejected", tail);
      assert MixedOp(4) == [MixedOp(4)[0]] + tail;
    case _ => UpgradeIsRejected();
  }

  lemma {:induction false} MixedWorkerBehaves(ops: seq<int>)
    ensures Behaves(MixedWorker(ops), None, Free, Outside)
  {
    if ops != [] {
      MixedOpBehaves(ops[0]);
      MixedWorkerBehaves(ops[1..]);
      BehavesConcat(MixedOp(ops[0]), MixedWorker(ops[1..]), None, Free, Outside);
    }
  }

  lemma {:induction false} CycleBehaves(k: Kind)
    ensures Behaves([With(k, Forever, if k == Read then [Load] else [Load, Store])], None, Free, Outside)
  {
    var i := With(k, Forever, if k == Read then [Load] else [Load, Store]);
    var tail := [Exit(k)] + [];
    LeaveStep(Exit(k), [], None, Admission(k, Free).value);
    Cons(i, []);
    if k == Write {
      Cons(Store, tail);
      Cons(Load, [Store] + tail);
      assert i.body + tail == [Load] + ([Store] + tail);
      assert Behaves([Store] + tail, None, Writing, Increment);
    } else {
      Cons(Load, tail);
    }
    assert Behaves(i.body + tail, None, Admission(k, Free).value, Outside);
    assert [i] == [i] + [];
  }

  lemma {:induction false} CyclerBehaves(id: ThreadId, cycles: nat)
    ensures Behaves(Cycler(id, cycles), None, Free, Outside)
    ensures Stores(Cycler(id, cycles)) == if id % 2 == 0 then 0 else cycles
  {
    hide Behaves;
    if cycles == 0 {
      NothingBehaves();
    } else {
      var once := if id % 2 == 0 then [With(Read, Forever, [Load])] else [With(Write, Forever, [Load, Store])];
      CycleBehaves(if id % 2 == 0 then Read else Write);
      CyclerBehaves(id, cycles - 1);
      BehavesConcat(once, Cycler(id, cycles - 1), None, Free, Outside);
      StoresOfConcat(once, Cycler(id, cycles - 1));
      assert Stores(once) == InstrStores(once[0]) + Stores(once[1..]);
      assert id % 2 != 0 ==> once[0].body[1..] == [Store];
    }
  }

  /** An attempt that may time out is in order whether or not it does. */
  lemma {:induction false} TimedAttemptBehaves(k: Kind, seconds: real)
    requires seconds >= 0.0
    ensures Behaves(TimedAttempt(k, seconds), None, Free, Outside)
  {
    hide Behaves;
    var tail := [EndTry({TimeoutError})];
    EndTryStep({TimeoutError}, [], None, Free);
    EndTryStep({TimeoutError}, [], Some(TimeoutError), Free);
    NothingBehaves();
    assert tail == tail + [];
    EmptyWithBehaves(k, Within(seconds), tail);
    assert TimedAttempt(k, seconds) == [With(k, Within(seconds), [])] + tail;
  }

  lemma {:induction false} NothingBehaves()
    ensures Behaves([], None, Free, Outside)
  {
  }

  lemma {:induction false} FinalWriteBehaves()
    ensures Behaves([With(Write, Forever, [])], None, Free, Outside)
  {
    EmptyWithBehaves(Write, Forever, []);
    assert [With(Write, Forever, [])] == [With(Write, Forever, [])] + [];
  }

  /** The negative-timeout worker never reports exactly when its timeout is in fact negative. */
  lemma {:induction false} NegativeTimeoutBehaves(k: Kind, seconds: real)
    ensures Behaves(NegativeTimeout(k, seconds), None, Free, Outside) <==> seconds < 0.0
  {
    hide Behaves;
    var w := [With(Write, Forever, [])];
    var p2 := [EndTry({ValueError})] + w;
    var p1 := [NegativeTimeout(k, seconds)[1]] + p2;
    var i := With(k, Within(seconds), []);
    FinalWriteBehaves();
    EndTryStep({ValueError}, w, Some(ValueError), Free);
    SkipStep(NegativeTimeout(k, seconds)[1], p2, ValueError, Free);
    ReportStep("Negative timeout did not raise", p2, Free);
    EnterStep(i, p1, Free);
    LeaveStep(Exit(k), p1, None, Admission(k, Free).value);
    assert [] + ([Exit(k)] + p1) == [Exit(k)] + p1;
    assert NegativeTimeout(k, seconds) == [i] + p1;
  }

  lemma {:induction false} ReleaseUnheldBehaves(k: Kind)
    ensures Behaves(ReleaseUnheld(k), None, Free, Outside)
  {
    hide Behaves;
    var w := [With(Write, Forever, [])];
    var p2 := [EndTry({RuntimeError})] + w;
    var p1 := [ReleaseUnheld(k)[1]] + p2;
    FinalWriteBehaves();
    EndTryStep({RuntimeError}, w, Some(RuntimeError), Free);
    SkipStep(ReleaseUnheld(k)[1], p2, RuntimeError, Free);
    LeaveStep(Release(k), p1, None, Free);
    assert ReleaseUnheld(k) == [Release(k)] + p1;
  }

  // ---------------------------------------------------------------------------
  // The patterns
  // ---------------------------------------------------------------------------

  /** One worker for each list of drawn operations; a worker whose barrier broke has an empty list. */
  function MixedContention(opss: seq<seq<int>>): seq<seq<Instr>> {
    seq(|opss|, i requires 0 <= i < |opss| => MixedWorker(opss[i]))
  }

  function RapidCycling(threads: nat, cycles: nat): seq<seq<Instr>> {
    seq(threads, i requires 0 <= i < threads => Cycler(i, cycles))
  }

  function ReaderWriterExclusion(writers: seq<bool>): seq<seq<Instr>> {
    seq(|writers|, i requires 0 <= i < |writers| => ExclusionWorker(writers[i]))
  }

  /** Any number of mixed workers, any operations, any schedule: no violation, no deadlock, an idle lock at the end. */
  lemma {:induction false} MixedContentionSucceeds(opss: seq<seq<int>>, run: seq<Event>)
    requires IsRun(Start(MixedContention(opss)), run)
    ensures var s := After(Start(MixedContention(opss)), run);
            && s.violations == []
            && |run| <= Potential(Start(MixedContention(opss)))
            && (!Finished(s) ==> exists t: ThreadId :: Enabled(s, Step(t, false)))
            && (Finished(s) ==> s.lock == IDLE)
  {
    forall i | 0 <= i < |opss| ensures Behaves(MixedContention(opss)[i], None, Free, Outside) {
      MixedWorkerBehaves(opss[i]);
    }
    EveryRunSucceeds(MixedContention(opss), run);
  }

  /** Readers and writers observed from inside their sections, with any split into readers and writers. */
  lemma {:induction false} ReaderWriterExclusionHolds(writers: seq<bool>, run: seq<Event>)
    requires IsRun(Start(ReaderWriterExclusion(writers)), run)
    ensures var s := After(Start(ReaderWriterExclusion(writers)), run);
            && s.violations == []
            && 0 <= s.writersActive <= 1
            && (s.writersActive == 1 ==> s.readersActive == 0)
            && (!Finished(s) ==> exists t: ThreadId :: Enabled(s, Step(t, false)))
            && (Finished(s) ==> s.writersActive == s.readersActive == 0 && s.lock == IDLE)
  {
    var programs := ReaderWriterExclusion(writers);
    forall i | 0 <= i < |writers| ensures Behaves(programs[i], None, Free, Outside) {
      ExclusionWorkerBehaves(writers[i]);
    }
    ObserversSeeExclusion(programs, run);
    EveryRunSucceeds(programs, run);
    if Finished(After(Start(programs), run)) {
      StartKeepsInv(programs);
      RunKeepsInv(Start(programs), Increments(programs), run);
      FinishedMeansIdle(After(Start(programs), run), Increments(programs));
    }
  }

  // A run in which every reader gets in before any leaves.

  lemma {:induction false} RunThen(s: System, run: seq<Event>, e: Event)
    requires IsRun(s, run) && Enabled(After(s, run), e)
    ensures IsRun(s, run + [e]) && After(s, run + [e]) == Apply(After(s, run), e)
    decreases |run|
  {
    if run == [] {
      assert [] + [e] == [e] && [e][1..] == [];
    } else {
      RunThen(Apply(s, run[0]), run[1..], e);
      assert (run + [e])[0] == run[0] && (run + [e])[1..] == run[1..] + [e];
    }
  }

  function Readers(n: nat): (writers: seq<bool>)
    ensures |writers| == n
  {
    seq(n, _ => false)
  }

  /** The first `i` of the readers are in their sections, the others have not begun. */
  ghost predicate ReadersInside(s: System, n: nat, i: nat) {
    && |s.threads| == n && s.violations == [] && s.writersActive == 0 && s.readersActive == i
    && Consistent(s.lock) && s.lock.writer == None && s.lock.waitingWriters == 0
    && (forall t: ThreadId :: HoldOf(s.lock, t) == if t < i then Reading(1) else Free)
    && (forall t: ThreadId | t < i && t < n :: s.threads[t].section == ReaderSection)
    && (forall t: ThreadId | i <= t < n :: s.threads[t] == Thread(ExclusionWorker(false), None, Running, Outside, 0))
  }

  lemma {:induction false} ReaderEnters(s: System, n: nat, i: nat)
    requires ReadersInside(s, n, i) && i < n
    ensures Enabled(s, Step(i, false))
    ensures var s' := Apply(s, Step(i, false));
            Enabled(s', Step(i, false)) && ReadersInside(Apply(s', Step(i, false)), n, i + 1)
  {
    var th := s.threads[i];
    var e := Enter(Read, s.lock, i, Forever, false);
    ReadersShare(s.lock, i, Forever, false);
    EnterIsProper(Read, s.lock, i, Forever, false);
    assert Expired(Forever, false) == false;
    var next := Entered(th.code);
    assert next[0] == ReaderIn;
    var s' := Apply(s, Step(i, false));
    assert s' == s.(lock := e.lock, threads := s.threads[i := th.(code := next)]);
    assert s'.threads[i].code[0] == ReaderIn;
  }

  lemma {:induction false} NobodyInside(n: nat)
    ensures ReadersInside(Start(ReaderWriterExclusion(Readers(n))), n, 0)
  {
  }

  lemma {:induction false} SomeInside(n: nat, i: nat) returns (run: seq<Event>)
    requires i <= n
    ensures IsRun(Start(ReaderWriterExclusion(Readers(n))), run)
    ensures ReadersInside(After(Start(ReaderWriterExclusion(Readers(n))), run), n, i)
  {
    hide ReadersInside;
    var start := Start(ReaderWriterExclusion(Readers(n)));
    if i == 0 {
      run := [];
      NobodyInside(n);
    } else {
      var before := SomeInside(n, i - 1);
      ReaderEnters(After(start, before), n, i - 1);
      RunThen(start, before, Step(i - 1, false));
      RunThen(start, before + [Step(i - 1, false)], Step(i - 1, false));
      run := before + [Step(i - 1, false)] + [Step(i - 1, false)];
    }
  }

  /** Any number of readers can be inside at the same time. */
  lemma {:induction false} AllReadersInside(n: nat) returns (run: seq<Event>)
    ensures IsRun(Start(ReaderWriterExclusion(Readers(n))), run)
    ensures var s := After(Start(ReaderWriterExclusion(Readers(n))), run);
            s.readersActive == n && s.violations == [] && forall t: ThreadId | t < n :: HoldOf(s.lock, t) == Reading(1)
  {
    run := SomeInside(n, n);
  }

  lemma {:induction false} CyclingIncrements(threads: nat, cycles: nat)
    ensures Increments(RapidCycling(threads, cycles)) == (threads / 2) * cycles
  {
    hide Behaves;
    hide Cycler;
    if threads > 0 {
      var n := threads - 1;
      CyclingIncrements(n, cycles);
      CyclerBehaves(n, cycles);
      assert RapidCycling(threads, cycles)[..n] == RapidCycling(n, cycles);
      assert RapidCycling(threads, cycles)[n] == Cycler(n, cycles);
      var more := if n % 2 == 0 then 0 else 1;
      assert threads / 2 == n / 2 + more;
      assert (n / 2 + more) * cycles == (n / 2) * cycles + more * cycles;
    }
  }

  /**
   The write lock alone protects the shared value: with each increment split into a load and a store, every run that
   ends has counted all of them, and on the way the value and the increments still to come add up.
   */
  lemma {:induction false} RapidCyclingLosesNothing(threads: nat, cycles: nat, run: seq<Event>)
    requires IsRun(Start(RapidCycling(threads, cycles)), run)
    ensures var s := After(Start(RapidCycling(threads, cycles)), run);
            && s.shared + Sum(s.threads, StoresLeft) == (threads / 2) * cycles
            && (!Finished(s) ==> exists t: ThreadId :: Enabled(s, Step(t, false)))
            && (Finished(s) ==> s.shared == (threads / 2) * cycles)
  {
    var programs := RapidCycling(threads, cycles);
    CyclingIncrements(threads, cycles);
    forall i | 0 <= i < threads ensures Behaves(programs[i], None, Free, Outside) {
      CyclerBehaves(i, cycles);
    }
    StartKeepsInv(programs);
    RunKeepsInv(Start(programs), Increments(programs), run);
    EveryRunSucceeds(programs, run);
  }

  // ---------------------------------------------------------------------------
  // Writer preference, and the lock after timeouts
  // ---------------------------------------------------------------------------

  /** `u` gives up its last read hold in this event. */
  ghost predicate GivesUpRead(s: System, e: Event, u: ThreadId)
    requires Enabled(s, e)
  {
    && e.t == u && HoldOf(s.lock, u) == Reading(1)
    && (s.threads[u].code[0] == Exit(Read) || s.threads[u].code[0] == Release(Read))
  }

  /** While a writer waits, the set of reading threads loses exactly those that give up their last hold. */
  lemma {:induction false} NoNewReaders(s: System, total: int, e: Event)
    requires Inv(s, total) && Enabled(s, e) && s.lock.waitingWriters > 0
    ensures Apply(s, e).lock.readers.Keys <= s.lock.readers.Keys
    ensures forall u | u in s.lock.readers && u !in Apply(s, e).lock.readers :: GivesUpRead(s, e, u)
    ensures Apply(s, e).lock.activeReaders ==
            s.lock.activeReaders - if Apply(s, e).lock.readers.Keys == s.lock.readers.Keys then 0 else 1
  {
    var t := e.t;
    var th := s.threads[t];
    assert ThreadOk(s.lock, t, th);
  }

  ghost predicate WriterWaitsThroughout(s: System, run: seq<Event>)
    requires IsRun(s, run)
    decreases |run|
  {
    && s.lock.waitingWriters > 0
    && (run != [] ==> WriterWaitsThroughout(Apply(s, run[0]), run[1..]))
  }

  /** The readers ahead of a waiting writer are among those that were there when it started to wait. */
  lemma {:induction false} ReadersAheadOnlyLeave(s: System, total: int, run: seq<Event>)
    requires Inv(s, total) && IsRun(s, run) && WriterWaitsThroughout(s, run)
    ensures After(s, run).lock.readers.Keys <= s.lock.readers.Keys
    ensures After(s, run).lock.activeReaders <= s.lock.activeReaders
    decreases |run|
  {
    if run != [] {
      NoNewReaders(s, total, run[0]);
      EventKeepsInv(s, total, run[0]);
      ReadersAheadOnlyLeave(Apply(s, run[0]), total, run[1..]);
    }
  }

  /** Once every other thread is done, whatever timed out before, an acquisition neither waits nor times out. */
  lemma {:induction false} LastThreadNeverWaits(s: System, total: int, t: ThreadId, late: bool)
    requires Inv(s, total) && Enabled(s, Step(t, late))
    requires forall u: ThreadId | u < |s.threads| && u != t :: s.threads[u].code == []
    requires var th := s.threads[t];
             && th.phase == Running && th.exn == None && HoldOf(s.lock, t) == Free
             && Acquisition(th.code[0]) && !th.code[0].timeout.Negative()
    ensures ApplyStep(s, t, late).threads[t].code == Entered(s.threads[t].code)
    ensures ApplyStep(s, t, late).threads[t].exn == None
    ensures s.lock == IDLE
  {
    forall u: ThreadId ensures HoldOf(s.lock, u) == Free {
      if u < |s.threads| && u != t {
        assert ThreadOk(s.lock, u, s.threads[u]);
      }
    }
    forall u: ThreadId | u < |s.threads| ensures WaitingWriter(s.threads[u]) == 0 {
    }
    SumZero(s.threads, WaitingWriter);
    BlockerExists(s.lock);
    MapSizes(s.lock.readers, 0, 0);
    EnterIsProper(s.threads[t].code[0].kind, s.lock, t, s.threads[t].code[0].timeout,
                  Expired(s.threads[t].code[0].timeout, late));
  }

  /** A thread that holds the write lock for a while, and another that tries to acquire with a timeout meanwhile. */
  function TimeoutAcquisition(k: Kind, seconds: real): seq<seq<Instr>> {
    [[With(Write, Forever, [])], TimedAttempt(k, seconds)]
  }

  /**
   The timeout pattern from start to end. However the holder and the attempt interleave, and whether or not the attempt
   times out, nothing is reported or gets stuck; and once both are done a write with a timeout of one second goes
   straight in and, when it is released, leaves the lock idle.
   */
  lemma {:induction false} TimeoutLeavesLockUsable(k: Kind, seconds: real, run: seq<Event>, t: ThreadId, expired: bool)
    requires seconds >= 0.0 && IsRun(Start(TimeoutAcquisition(k, seconds)), run)
    ensures var s := After(Start(TimeoutAcquisition(k, seconds)), run);
            && s.violations == []
            && |run| <= Potential(Start(TimeoutAcquisition(k, seconds)))
            && (!Finished(s) ==> exists u: ThreadId :: Enabled(s, Step(u, false)))
            && (Finished(s) ==>
                var e := Enter(Write, s.lock, t, Within(1.0), expired);
                && s.lock == IDLE && e.outcome == Done && HoldOf(e.lock, t) == Writing
                && Leave(Write, e.lock, t) == Effect(IDLE, Done, true))
  {
    hide *;
    TimeoutProgramsBehave(k, seconds);
    EveryRunSucceeds(TimeoutAcquisition(k, seconds), run);
    IdleAdmitsWrite(t, expired);
  }

  lemma {:induction false} TimeoutProgramsBehave(k: Kind, seconds: real)
    requires seconds >= 0.0
    ensures AllBehave(TimeoutAcquisition(k, seconds))
  {
    hide Behaves;
    FinalWriteBehaves();
    TimedAttemptBehaves(k, seconds);
  }

  lemma {:induction false} IdleAdmitsWrite(t: ThreadId, expired: bool)
    ensures var e := Enter(Write, IDLE, t, Within(1.0), expired);
            e.outcome == Done && HoldOf(e.lock, t) == Writing && Leave(Write, e.lock, t) == Effect(IDLE, Done, true)
  {
  }

  /** The attempt does time out when its deadline passes while the holder has the lock. */
  lemma {:induction false} AttemptCanTimeOut(k: Kind, seconds: real)
    requires seconds >= 0.0
    ensures var s, run := Start(TimeoutAcquisition(k, seconds)), [Step(0, false), Step(1, true)];
            IsRun(s, run) && After(s, run).threads[1].exn == Some(TimeoutError)
  {
    var s := Start(TimeoutAcquisition(k, seconds));
    var run := [Step(0, false), Step(1, true)];
    assert run[1..] == [Step(1, true)] && run[1..][1..] == [];
    var held := Apply(s, run[0]);
    assert held.lock.writer == Some(0);
    assert held.threads[1] == s.threads[1];
    var late := Apply(held, run[1]);
    assert late.threads[1].exn == Some(TimeoutError);
    assert After(late, []) == late;
  }

  // ---------------------------------------------------------------------------
  // What the steps themselves do
  // ---------------------------------------------------------------------------

  /** A zero timeout never waits: where the lock is not free for it, the call times out at its first check. */
  lemma {:induction false} ZeroTimeoutNeverWaits(s: System, t: ThreadId, late: bool)
    requires Enabled(s, Step(t, late)) && Consistent(s.lock)
    requires var th := s.threads[t];
             && th.phase == Running && th.exn == None && HoldOf(s.lock, t) == Free
             && Acquisition(th.code[0]) && th.code[0].timeout == Within(0.0)
    ensures var th := ApplyStep(s, t, late).threads[t];
            && !th.phase.Waiting?
            && (th.exn == None || (th.exn == Some(TimeoutError) && th.code == s.threads[t].code[1..]))
  {
    var i := s.threads[t].code[0];
    EnterIsProper(i.kind, s.lock, t, i.timeout, Expired(i.timeout, late));
  }

  /** A wake-up lets every waiting thread look again, and takes no deadline back; nobody else notices. */
  lemma {:induction false} WakeUpKeepsDeadlines(ts: seq<Thread>, t: ThreadId)
    requires t < |ts|
    ensures var th := WakeAll(ts)[t];
            && (ts[t].phase.Waiting? ==> th.phase == Waiting(false, ts[t].phase.expired))
            && th == ts[t].(phase := th.phase) && (!ts[t].phase.Waiting? ==> th == ts[t])
  {
  }

  /** Two increments without the lock. */
  function Unprotected(): seq<seq<Instr>> { [[Load, Store], [Load, Store]] }

  /** Without the lock an increment can be lost, so it is the lock that saves them. */
  lemma {:induction false} UnprotectedIncrementsRace()
    ensures var s, run := Start(Unprotected()), [Step(0, false), Step(1, false), Step(0, false), Step(1, false)];
            IsRun(s, run) && Finished(After(s, run)) && After(s, run).shared == 1
  {
    var run := [Step(0, false), Step(1, false), Step(0, false), Step(1, false)];
    var s0 := Start(Unprotected());
    var s1 := ApplyStep(s0, 0, false);
    assert s1.threads[0].code == [Store] && s1.threads[0].register == 0 && s1.threads[1] == s0.threads[1];
    var s2 := ApplyStep(s1, 1, false);
    assert s2.threads[1].code == [Store] && s2.threads[1].register == 0 && s2.threads[0] == s1.threads[0];
    var s3 := ApplyStep(s2, 0, false);
    assert s3.shared == 1 && s3.threads[0].code == [] && s3.threads[1] == s2.threads[1];
    var s4 := ApplyStep(s3, 1, false);
    assert s4.shared == 1 && s4.threads[1].code == [] && s4.threads[0] == s3.threads[0];
    assert run[3..] == [Step(1, false)] && run[2..] == [Step(0, false)] + run[3..];
    assert run[1..] == [Step(1, false)] + run[2..] && run == [Step(0, false)] + run[1..];
    LastStep(s3, run[3], s4);
    FirstStep(s2, run[2], run[3..], s3, s4);
    FirstStep(s1, run[1], run[2..], s2, s4);
    FirstStep(s0, run[0], run[1..], s1, s4);
  }

  lemma {:induction false} LastStep(s: System, e: Event, s': System)
    requires Enabled(s, e) && Apply(s, e) == s'
    ensures IsRun(s, [e]) && After(s, [e]) == s'
  {
    assert [e][1..] == [];
  }

  lemma {:induction false} FirstStep(s: System, e: Event, rest: seq<Event>, next: System, end: System)
    requires Enabled(s, e) && Apply(s, e) == next && IsRun(next, rest) && After(next, rest) == end
    ensures IsRun(s, [e] + rest) && After(s, [e] + rest) == end
  {
    assert ([e] + rest)[1..] == rest;
  }
}
