/**
 What holds of every run: no reported violation, no deadlock, termination, and an idle lock at the end; and what
 writer preference buys a waiting writer.
 */
module LockTheorems {
  import opened Wrappers
  import opened Sums
  import opened RWLocks
  import opened LockPrograms
  import opened LockSystem

  ghost predicate AllBehave(programs: seq<seq<Instr>>) {
    forall i | 0 <= i < |programs| :: Behaves(programs[i], None, Free, Outside)
  }

  ghost function Increments(programs: seq<seq<Instr>>): int {
    Sum(programs, (p: seq<Instr>) => Stores(p))
  }

  // ---------------------------------------------------------------------------
  // Safety
  // ---------------------------------------------------------------------------

  lemma {:induction false} StoresAtStart(programs: seq<seq<Instr>>)
    ensures Sum(Start(programs).threads, StoresLeft) == Increments(programs)
  {
    if programs != [] {
      var n := |programs| - 1;
      StoresAtStart(programs[..n]);
      assert Start(programs).threads[..n] == Start(programs[..n]).threads;
    }
  }

  lemma {:induction false} StartKeepsInv(programs: seq<seq<Instr>>)
    requires AllBehave(programs)
    ensures Inv(Start(programs), Increments(programs))
  {
    var s := Start(programs);
    StoresAtStart(programs);
    SumZero(s.threads, WaitingWriter);
    SumZero(s.threads, InWriterSection);
    SumZero(s.threads, InReaderSection);
    forall t: ThreadId | t < |s.threads|
      ensures ThreadOk(s.lock, t, s.threads[t])
    {
      assert HoldOf(s.lock, t) == Free;
    }
  }

  lemma {:induction false} RunKeepsInv(s: System, total: int, run: seq<Event>)
    requires Inv(s, total) && IsRun(s, run)
    ensures Inv(After(s, run), total)
    decreases |run|
  {
    if run != [] {
      EventKeepsInv(s, total, run[0]);
      RunKeepsInv(Apply(s, run[0]), total, run[1..]);
    }
  }

  /** The waiting-writer count is the number of threads blocked in a write acquisition; nothing inflates it. */
  lemma {:induction false} WaitingWritersAreTheBlockedOnes(programs: seq<seq<Instr>>, run: seq<Event>)
    requires AllBehave(programs) && IsRun(Start(programs), run)
    ensures var s := After(Start(programs), run);
            s.lock.waitingWriters == Sum(s.threads, WaitingWriter)
  {
    StartKeepsInv(programs);
    RunKeepsInv(Start(programs), Increments(programs), run);
  }

  /** What the observers would report: a writer that comes in beside anyone, or a reader beside a writer. */
  lemma {:induction false} ObserversReport(s: System, t: ThreadId, late: bool)
    requires Enabled(s, Step(t, late)) && s.threads[t].phase == Running && s.threads[t].exn == None
    ensures var i, s' := s.threads[t].code[0], ApplyStep(s, t, late);
            && (i == WriterIn ==> (s'.violations == s.violations <==> s.writersActive <= 0 && s.readersActive <= 0))
            && (i == ReaderIn ==> (s'.violations == s.violations <==> s.writersActive <= 0))
            && (i.Report? ==> s'.violations == s.violations + [i.message])
  {
    assert forall more: seq<string> | s.violations + more == s.violations :: |more| == 0;
  }

  /** The observers see at most one writer, and never a writer together with a reader. */
  lemma {:induction false} ObserversSeeExclusion(programs: seq<seq<Instr>>, run: seq<Event>)
    requires AllBehave(programs) && IsRun(Start(programs), run)
    ensures var s := After(Start(programs), run);
            && s.violations == []
            && s.writersActive == Sum(s.threads, InWriterSection)
            && s.readersActive == Sum(s.threads, InReaderSection)
            && 0 <= s.writersActive <= 1
            && (s.writersActive == 1 ==> s.readersActive == 0 && s.lock.writer.Some?)
            && (s.readersActive > 0 ==> s.lock.activeReaders > 0)
  {
    StartKeepsInv(programs);
    RunKeepsInv(Start(programs), Increments(programs), run);
    SectionCounts(After(Start(programs), run), Increments(programs));
  }

  lemma {:induction false} AtMostOne<T>(s: seq<T>, f: T -> int, k: nat)
    requires k < |s|
    requires forall i | 0 <= i < |s| && i != k :: f(s[i]) == 0
    ensures Sum(s, f) == f(s[k])
  {
    var n := |s| - 1;
    if k == n {
      SumZero(s[..n], f);
    } else {
      AtMostOne(s[..n], f, k);
    }
  }

  lemma {:induction false} SomeContributor<T>(s: seq<T>, f: T -> int) returns (k: nat)
    requires Sum(s, f) != 0
    ensures k < |s| && f(s[k]) != 0
  {
    var n := |s| - 1;
    if f(s[n]) != 0 {
      k := n;
    } else {
      k := SomeContributor(s[..n], f);
    }
  }

  lemma {:induction false} SectionCounts(s: System, total: int)
    requires Inv(s, total)
    ensures 0 <= s.writersActive <= 1
    ensures s.writersActive == 1 ==> s.readersActive == 0 && s.lock.writer.Some?
    ensures s.readersActive > 0 ==> s.lock.activeReaders > 0
  {
    if s.writersActive != 0 {
      var k := SomeContributor(s.threads, InWriterSection);
      assert ThreadOk(s.lock, k, s.threads[k]);
      forall u: ThreadId | u < |s.threads| && u != k
        ensures InWriterSection(s.threads[u]) == 0 && InReaderSection(s.threads[u]) == 0
      {
        assert ThreadOk(s.lock, u, s.threads[u]);
        OneWriter(s.lock, k, u);
      }
      AtMostOne(s.threads, InWriterSection, k);
      AtMostOne(s.threads, InReaderSection, k);
    }
    if s.readersActive > 0 {
      var k := SomeContributor(s.threads, InReaderSection);
      assert ThreadOk(s.lock, k, s.threads[k]);
      MapSizes(s.lock.readers, k, 0);
    }
  }

  // ---------------------------------------------------------------------------
  // Progress
  // ---------------------------------------------------------------------------

  ghost predicate Sleeping(th: Thread) { th.phase.Waiting? && th.phase.asleep }

  /** Threads that all sleep would wait for nobody, so there are none. */
  lemma {:induction false} NotEveryoneSleeps(s: System, total: int)
    requires Inv(s, total)
    requires forall t: ThreadId | t < |s.threads| && s.threads[t].code != [] :: Sleeping(s.threads[t])
    ensures Finished(s)
  {
    forall u: ThreadId ensures HoldOf(s.lock, u) == Free {
      if u < |s.threads| {
        assert ThreadOk(s.lock, u, s.threads[u]);
      }
    }
    BlockerExists(s.lock);
    forall t: ThreadId | t < |s.threads| ensures WaitingWriter(s.threads[t]) == 0 {
      assert ThreadOk(s.lock, t, s.threads[t]);
    }
    SumZero(s.threads, WaitingWriter);
    forall t: ThreadId | t < |s.threads| ensures s.threads[t].code == [] {
      assert ThreadOk(s.lock, t, s.threads[t]);
    }
  }

  /** No deadlock and no lost wake-up: while a thread is unfinished, some thread can take a step. */
  lemma {:induction false} SomeStepIsEnabled(s: System, total: int)
    requires Inv(s, total) && !Finished(s)
    ensures exists t: ThreadId :: Enabled(s, Step(t, false))
  {
    if t: ThreadId :| t < |s.threads| && s.threads[t].code != [] && !Sleeping(s.threads[t]) {
      assert ThreadOk(s.lock, t, s.threads[t]);
      assert Enabled(s, Step(t, false));
    } else {
      NotEveryoneSleeps(s, total);
    }
  }

  // ---------------------------------------------------------------------------
  // Termination
  // ---------------------------------------------------------------------------

  /** Work still to do: two units for each instruction, one of them spent when its acquisition starts to wait. */
  function Work(th: Thread): int { 2 * Size(th.code) - if th.phase.Waiting? then 1 else 0 }

  /** How often the thread can still wake up before it acquires, times out or finds the lock taken again. */
  function Wakeups(th: Thread): int {
    if !th.phase.Waiting? then 0
    else (if th.phase.asleep then 0 else 1)
         + (if th.code != [] && Acquisition(th.code[0]) && th.code[0].timeout.Within? && !th.phase.expired then 2 else 0)
  }

  /** At most 3n wake-ups are pending at a time, so a unit of work outweighs them all. */
  function Pack(work: int, wakeups: int, n: nat): int { work * (3 * n + 1) + wakeups }

  ghost function Potential(s: System): int {
    Pack(Sum(s.threads, Work), Sum(s.threads, Wakeups), |s.threads|)
  }

  lemma {:induction false} SumAtMost<T>(s: seq<T>, f: T -> int, m: nat)
    requires forall i | 0 <= i < |s| :: 0 <= f(s[i]) <= m
    ensures 0 <= Sum(s, f) <= m * |s|
  {
    if s != [] {
      SumAtMost(s[..|s| - 1], f, m);
    }
  }

  lemma {:induction false} PotentialBounds(s: System, total: int)
    requires Inv(s, total)
    ensures Sum(s.threads, Work) >= 0
    ensures 0 <= Sum(s.threads, Wakeups) <= 3 * |s.threads|
  {
    forall i: ThreadId | i < |s.threads| ensures Work(s.threads[i]) >= 0 {
      WaitingIsOrderly(s, total, i);
    }
    SumNonNegative(s.threads, Work);
    SumAtMost(s.threads, Wakeups, 3);
  }

  lemma {:induction false} WaitingIsOrderly(s: System, total: int, t: ThreadId)
    requires Inv(s, total) && t < |s.threads|
    ensures PhaseOk(s.lock, t, s.threads[t])
  {
    assert ThreadOk(s.lock, t, s.threads[t]);
  }

  /** The event finishes work, or it leaves the work alone and uses up a wake-up. */
  ghost predicate Uses(s: System, s': System) {
    || Sum(s'.threads, Work) < Sum(s.threads, Work)
    || (Sum(s'.threads, Work) == Sum(s.threads, Work) && Sum(s'.threads, Wakeups) < Sum(s.threads, Wakeups))
  }

  lemma {:induction false} ThreadUses(s: System, s': System, t: ThreadId, th: Thread)
    requires t < |s.threads| && s'.threads == s.threads[t := th]
    requires Work(th) < Work(s.threads[t]) || (Work(th) == Work(s.threads[t]) && Wakeups(th) < Wakeups(s.threads[t]))
    ensures Uses(s, s')
  {
    SumUpdate(s.threads, t, th, Work);
    SumUpdate(s.threads, t, th, Wakeups);
  }

  lemma {:induction false} PerformUses(s: System, t: ThreadId, e: Effect, next: seq<Instr>)
    requires t < |s.threads| && s.threads[t].code != []
    requires PhaseOk(s.lock, t, s.threads[t]) && !Sleeping(s.threads[t])
    requires Size(next) < Size(s.threads[t].code)
    requires e.outcome == Blocked ==> !e.notify && (s.threads[t].phase.Waiting? ==> !s.threads[t].phase.expired)
    ensures Uses(s, Perform(s, t, e, next))
  {
    var th := s.threads[t];
    var th' := Resumed(th, e, next);
    var ts := s.threads[t := th'];
    SumUpdate(s.threads, t, th', Work);
    if e.notify {
      SumSame(WakeAll(ts), ts, Work);
    } else {
      ThreadUses(s, Perform(s, t, e, next), t, th');
    }
  }

  /** Each event either finishes work or uses up a wake-up. */
  lemma {:induction false} EventUsesSomething(s: System, total: int, e: Event)
    requires Inv(s, total) && Enabled(s, e)
    ensures Uses(s, Apply(s, e))
  {
    hide Inv;
    hide ThreadOk;
    var t := e.t;
    var th := s.threads[t];
    WaitingIsOrderly(s, total, t);
    match e
    case Timer(_) => ThreadUses(s, Apply(s, e), t, th.(phase := Waiting(false, true)));
    case Step(_, late) =>
      var i := th.code[0];
      if th.phase.Waiting? {
        PerformUses(s, t, Check(i.kind, s.lock, t, th.phase.expired), Entered(th.code));
      } else if !Skipped(i, th.exn) && Acquisition(i) {
        PerformUses(s, t, Enter(i.kind, s.lock, t, i.timeout, Expired(i.timeout, late)), Entered(th.code));
      } else if !Skipped(i, th.exn) && (i.Release? || i.Exit?) {
        PerformUses(s, t, Leave(i.kind, s.lock, t), th.code[1..]);
      } else {
        ThreadUses(s, Apply(s, e), t, Apply(s, e).threads[t]);
      }
  }

  lemma {:induction false} Lexicographic(w: int, w': int, k: int, k': int, n: nat)
    requires w >= 0 && w' >= 0 && 0 <= k <= 3 * n && 0 <= k' <= 3 * n
    requires w' < w || (w' == w && k' < k)
    ensures 0 <= Pack(w', k', n) < Pack(w, k, n)
  {
    ProductGrows(0, w', 3 * n + 1);
    ProductGrows(w', w, 3 * n + 1);
    assert 0 * (3 * n + 1) == 0;
  }

  lemma {:induction false} ProductGrows(a: int, b: int, c: nat)
    ensures a <= b ==> a * c <= b * c
    ensures a < b ==> a * c + c <= b * c
  {
    if c > 0 {
      ProductGrows(a, b, c - 1);
      assert a * c == a * (c - 1) + a && b * c == b * (c - 1) + b;
    }
  }

  lemma {:induction false} ThreadsStay(s: System, e: Event)
    requires Enabled(s, e)
    ensures |Apply(s, e).threads| == |s.threads|
  {
  }

  lemma {:induction false} EventLowersPotential(s: System, total: int, e: Event)
    requires Inv(s, total) && Enabled(s, e)
    ensures 0 <= Potential(Apply(s, e)) < Potential(s)
    ensures Inv(Apply(s, e), total)
  {
    var s' := Apply(s, e);
    EventKeepsInv(s, total, e);
    EventUsesSomething(s, total, e);
    PotentialBounds(s, total);
    PotentialBounds(s', total);
    ThreadsStay(s, e);
    Lexicographic(Sum(s.threads, Work), Sum(s'.threads, Work), Sum(s.threads, Wakeups), Sum(s'.threads, Wakeups),
                  |s.threads|);
  }

  /** Every run is finite, with a bound that depends on the programs alone. */
  lemma {:induction false} RunsAreShort(s: System, total: int, run: seq<Event>)
    requires Inv(s, total) && IsRun(s, run) && Potential(s) >= 0
    ensures |run| <= Potential(s)
    decreases |run|
  {
    if run != [] {
      EventLowersPotential(s, total, run[0]);
      RunsAreShort(Apply(s, run[0]), total, run[1..]);
    }
  }

  lemma {:induction false} PotentialIsNatural(s: System, total: int)
    requires Inv(s, total)
    ensures Potential(s) >= 0
  {
    hide Inv;
    PotentialBounds(s, total);
    PackIsNatural(Sum(s.threads, Work), Sum(s.threads, Wakeups), |s.threads|);
  }

  lemma {:induction false} PackIsNatural(work: nat, wakeups: nat, n: nat)
    ensures Pack(work, wakeups, n) >= 0
  {
    ProductGrows(0, work, 3 * n + 1);
  }

  // ---------------------------------------------------------------------------
  // The end of a run
  // ---------------------------------------------------------------------------

  /** When all workers are done nobody holds or waits for the lock, and no increment was lost. */
  lemma {:induction false} FinishedMeansIdle(s: System, total: int)
    requires Inv(s, total) && Finished(s)
    ensures s.lock == IDLE && s.violations == []
    ensures s.writersActive == 0 && s.readersActive == 0
    ensures s.shared == total
  {
    forall t: ThreadId | t < |s.threads|
      ensures var th := s.threads[t];
              && WaitingWriter(th) == 0 && InWriterSection(th) == 0
              && InReaderSection(th) == 0 && StoresLeft(th) == 0
    {
      assert ThreadOk(s.lock, t, s.threads[t]);
    }
    SumZero(s.threads, WaitingWriter);
    SumZero(s.threads, InWriterSection);
    SumZero(s.threads, InReaderSection);
    SumZero(s.threads, StoresLeft);
    forall u: ThreadId ensures HoldOf(s.lock, u) == Free {
      if u < |s.threads| {
        assert ThreadOk(s.lock, u, s.threads[u]);
      }
    }
    BlockerExists(s.lock);
    MapSizes(s.lock.readers, 0, 0);
  }

  /**
   The main result: programs that behave when run alone behave together, under every schedule. A run never records a
   violation, never gets stuck, is no longer than a bound known beforehand, and leaves the lock idle with every
   increment counted.
   */
  lemma {:induction false} EveryRunSucceeds(programs: seq<seq<Instr>>, run: seq<Event>)
    requires AllBehave(programs) && IsRun(Start(programs), run)
    ensures var s := After(Start(programs), run);
            && s.violations == []
            && |run| <= Potential(Start(programs))
            && (!Finished(s) ==> exists t: ThreadId :: Enabled(s, Step(t, false)))
            && (Finished(s) ==> s.lock == IDLE && s.shared == Increments(programs))
  {
    var total := Increments(programs);
    StartKeepsInv(programs);
    RunKeepsInv(Start(programs), total, run);
    PotentialIsNatural(Start(programs), total);
    RunsAreShort(Start(programs), total, run);
    var s := After(Start(programs), run);
    if Finished(s) {
      FinishedMeansIdle(s, total);
    } else {
      SomeStepIsEnabled(s, total);
    }
  }
}
