/**
 Any number of threads running programs on one lock.

 One event is one atomic step of one thread, chosen freely: a scheduler, the clock and the fuzzed inputs may be
 anything. A thread that has to wait falls asleep and runs again only after a `notify_all` or, when its call has a
 timeout, after its timer.
 */
module LockSystem {
  import opened Wrappers
  import opened Sums
  import opened RWLocks
  import opened LockPrograms

  /** `expired` records that the deadline of the call has passed. */
  datatype Phase = Running | Waiting(asleep: bool, expired: bool)

  /** `section` is a history variable: it is written and never read by a step. */
  datatype Thread = Thread(code: seq<Instr>, exn: Option<Exn>, phase: Phase, section: Section, register: int)

  datatype System = System(
    lock: Lock,
    threads: seq<Thread>,
    writersActive: int,
    readersActive: int,
    shared: int,
    violations: seq<string>)

  /** `late` says whether the deadline of a call starting now passes before its first check. */
  datatype Event = Step(t: ThreadId, late: bool) | Timer(t: ThreadId)

  // ---------------------------------------------------------------------------
  // Events
  // ---------------------------------------------------------------------------

  function Start(programs: seq<seq<Instr>>): System {
    System(IDLE, seq(|programs|, i requires 0 <= i < |programs| => Thread(programs[i], None, Running, Outside, 0)),
           0, 0, 0, [])
  }

  predicate Enabled(s: System, e: Event) {
    && e.t < |s.threads|
    && var th := s.threads[e.t];
       && th.code != []
       && (th.phase.Waiting? ==> Acquisition(th.code[0]))
       && match e
          case Step(_, _) => th.phase.Waiting? ==> !th.phase.asleep
          case Timer(_) => th.phase.Waiting? && !th.phase.expired && th.code[0].timeout.Within?
  }

  function Wake(th: Thread): Thread {
    if th.phase.Waiting? then th.(phase := th.phase.(asleep := false)) else th
  }

  function WakeAll(ts: seq<Thread>): (r: seq<Thread>)
    ensures |r| == |ts|
  {
    seq(|ts|, i requires 0 <= i < |ts| => Wake(ts[i]))
  }

  /** Thread `t` after a lock step: it goes on with `next`, waits, or has an exception in flight. */
  function Resumed(th: Thread, e: Effect, next: seq<Instr>): Thread
    requires th.code != []
  {
    match e.outcome
    case Done => th.(code := next, phase := Running)
    case Blocked => th.(phase := Waiting(true, false))
    case Raised(x) => th.(code := th.code[1..], exn := Some(x), phase := Running)
  }

  function Perform(s: System, t: ThreadId, e: Effect, next: seq<Instr>): System
    requires t < |s.threads| && s.threads[t].code != []
  {
    var ts := s.threads[t := Resumed(s.threads[t], e, next)];
    s.(lock := e.lock, threads := if e.notify then WakeAll(ts) else ts)
  }

  predicate Expired(timeout: Timeout, late: bool) { timeout.Within? && (timeout.seconds == 0.0 || late) }

  function ApplyStep(s: System, t: ThreadId, late: bool): System
    requires Enabled(s, Step(t, late))
  {
    var th := s.threads[t];
    var i, rest := th.code[0], th.code[1..];
    var on := th.(code := rest);
    if th.phase.Waiting? then Perform(s, t, Check(i.kind, s.lock, t, th.phase.expired), Entered(th.code))
    else if Skipped(i, th.exn) then s.(threads := s.threads[t := on])
    else
      match i
      case With(k, timeout, _) => Perform(s, t, Enter(k, s.lock, t, timeout, Expired(timeout, late)), Entered(th.code))
      case Acquire(k, timeout) => Perform(s, t, Enter(k, s.lock, t, timeout, Expired(timeout, late)), Entered(th.code))
      case Release(k) => Perform(s, t, Leave(k, s.lock, t), rest)
      case Exit(k) => Perform(s, t, Leave(k, s.lock, t), rest)
      case EndTry(catches) =>
        s.(threads := s.threads[t := on.(exn := if th.exn.Some? && th.exn.value in catches then None else th.exn)])
      case Report(message) => s.(threads := s.threads[t := on], violations := s.violations + [message])
      case WriterIn =>
        s.(threads := s.threads[t := on.(section := WriterSection)],
           writersActive := s.writersActive + 1,
           violations := s.violations
             + (if s.writersActive > 0 then ["Multiple writers active"] else [])
             + (if s.readersActive > 0 then ["Writer active while readers active"] else []))
      case WriterOut =>
        s.(threads := s.threads[t := on.(section := Outside)], writersActive := s.writersActive - 1)
      case ReaderIn =>
        s.(threads := s.threads[t := on.(section := ReaderSection)],
           readersActive := s.readersActive + 1,
           violations := s.violations
             + (if s.writersActive > 0 then ["Reader active while writer active"] else []))
      case ReaderOut =>
        s.(threads := s.threads[t := on.(section := Outside)], readersActive := s.readersActive - 1)
      case Load =>
        s.(threads := s.threads[t := on.(register := s.shared,
             section := if HoldOf(s.lock, t) == Writing then Increment else th.section)])
      case Store => s.(threads := s.threads[t := on.(section := Outside)], shared := th.register + 1)
  }

  function Apply(s: System, e: Event): System
    requires Enabled(s, e)
  {
    match e
    case Step(t, late) => ApplyStep(s, t, late)
    case Timer(t) => s.(threads := s.threads[t := s.threads[t].(phase := Waiting(false, true))])
  }

  ghost predicate IsRun(s: System, run: seq<Event>)
    decreases |run|
  {
    run == [] || (Enabled(s, run[0]) && IsRun(Apply(s, run[0]), run[1..]))
  }

  ghost function After(s: System, run: seq<Event>): System
    requires IsRun(s, run)
    decreases |run|
  {
    if run == [] then s else After(Apply(s, run[0]), run[1..])
  }

  predicate Finished(s: System) { forall t | 0 <= t < |s.threads| :: s.threads[t].code == [] }

  // ---------------------------------------------------------------------------
  // The invariant
  // ---------------------------------------------------------------------------

  predicate WaitsToWrite(th: Thread) {
    th.phase.Waiting? && th.code != [] && Acquisition(th.code[0]) && th.code[0].kind == Write
  }

  function WaitingWriter(th: Thread): int { if WaitsToWrite(th) then 1 else 0 }

  function InWriterSection(th: Thread): int { if th.section == WriterSection then 1 else 0 }

  function InReaderSection(th: Thread): int { if th.section == ReaderSection then 1 else 0 }

  function StoresLeft(th: Thread): int { Stores(th.code) }

  ghost predicate SectionOk(section: Section, hold: Hold) {
    match section
    case Outside => true
    case ReaderSection => hold.Reading?
    case _ => hold == Writing
  }

  /** A waiting thread holds nothing, and a sleeping one still has something to wait for. */
  ghost predicate PhaseOk(l: Lock, t: ThreadId, th: Thread) {
    th.phase.Waiting? ==>
      && th.code != [] && Acquisition(th.code[0]) && th.exn == None && th.section == Outside
      && HoldOf(l, t) == Free && !th.code[0].timeout.Negative()
      && (th.phase.expired ==> th.code[0].timeout.Within? && !th.phase.asleep)
      && (th.phase.asleep ==> KindBlocked(th.code[0].kind, l))
  }

  ghost predicate ThreadOk(l: Lock, t: ThreadId, th: Thread) {
    && Behaves(th.code, th.exn, HoldOf(l, t), th.section)
    && SectionOk(th.section, HoldOf(l, t))
    && PhaseOk(l, t, th)
  }

  ghost predicate Inv(s: System, total: int) {
    && Consistent(s.lock)
    && (forall u: ThreadId :: HoldOf(s.lock, u) != Free ==> u < |s.threads|)
    && (forall t | 0 <= t < |s.threads| :: ThreadOk(s.lock, t, s.threads[t]))
    && s.lock.waitingWriters == Sum(s.threads, WaitingWriter)
    && s.writersActive == Sum(s.threads, InWriterSection)
    && s.readersActive == Sum(s.threads, InReaderSection)
    && (forall t | 0 <= t < |s.threads| :: s.threads[t].section == Increment ==> s.threads[t].register == s.shared)
    && s.shared + Sum(s.threads, StoresLeft) == total
    && s.violations == []
  }

  lemma {:induction false} WakingKeepsSums(ts: seq<Thread>)
    ensures Sum(WakeAll(ts), WaitingWriter) == Sum(ts, WaitingWriter)
    ensures Sum(WakeAll(ts), InWriterSection) == Sum(ts, InWriterSection)
    ensures Sum(WakeAll(ts), InReaderSection) == Sum(ts, InReaderSection)
    ensures Sum(WakeAll(ts), StoresLeft) == Sum(ts, StoresLeft)
  {
    SumSame(WakeAll(ts), ts, WaitingWriter);
    SumSame(WakeAll(ts), ts, InWriterSection);
    SumSame(WakeAll(ts), ts, InReaderSection);
    SumSame(WakeAll(ts), ts, StoresLeft);
  }

  lemma {:induction false} ChangingOneThread(ts: seq<Thread>, t: ThreadId, th: Thread)
    requires t < |ts|
    ensures Sum(ts[t := th], WaitingWriter) == Sum(ts, WaitingWriter) - WaitingWriter(ts[t]) + WaitingWriter(th)
    ensures Sum(ts[t := th], InWriterSection) == Sum(ts, InWriterSection) - InWriterSection(ts[t]) + InWriterSection(th)
    ensures Sum(ts[t := th], InReaderSection) == Sum(ts, InReaderSection) - InReaderSection(ts[t]) + InReaderSection(th)
    ensures Sum(ts[t := th], StoresLeft) == Sum(ts, StoresLeft) - StoresLeft(ts[t]) + StoresLeft(th)
  {
    SumUpdate(ts, t, th, WaitingWriter);
    SumUpdate(ts, t, th, InWriterSection);
    SumUpdate(ts, t, th, InReaderSection);
    SumUpdate(ts, t, th, StoresLeft);
  }

  /** A lock step keeps the invariant whenever it is proper for the lock and leaves its own thread in order. */
  lemma {:induction false} PerformKeepsInv(s: System, total: int, t: ThreadId, k: Kind, e: Effect, next: seq<Instr>)
    requires Inv(s, total) && t < |s.threads| && s.threads[t].code != []
    requires s.threads[t].section == Outside
    requires s.threads[t].phase.Waiting? ==> s.threads[t].code[0].kind == k
    requires e.outcome == Blocked ==> Acquisition(s.threads[t].code[0]) && s.threads[t].code[0].kind == k
    requires Proper(s.lock, t, k, s.threads[t].phase.Waiting?, e)
    requires ThreadOk(e.lock, t, Resumed(s.threads[t], e, next))
    requires Stores(Resumed(s.threads[t], e, next).code) == Stores(s.threads[t].code)
    ensures Inv(Perform(s, t, e, next), total)
  {
    var th := Resumed(s.threads[t], e, next);
    var ts := s.threads[t := th];
    ChangingOneThread(s.threads, t, th);
    WakingKeepsSums(ts);
    var s' := Perform(s, t, e, next);
    forall u | 0 <= u < |s'.threads|
      ensures ThreadOk(s'.lock, u, s'.threads[u])
    {
      if u != t {
        assert ThreadOk(s.lock, u, s.threads[u]);
        assert HoldOf(e.lock, u) == HoldOf(s.lock, u);
      }
    }
    forall u: ThreadId | HoldOf(e.lock, u) != Free
      ensures u < |s'.threads|
    {
      if u != t {
        assert HoldOf(s.lock, u) != Free;
      }
    }
  }

  /** A step that leaves the lock alone keeps the invariant when the counters move with its own thread. */
  lemma {:induction false} LocalKeepsInv(s: System, total: int, t: ThreadId, s': System)
    requires Inv(s, total) && t < |s.threads| && s'.lock == s.lock
    requires s.threads[t].phase == Running
    requires |s'.threads| == |s.threads|
    requires var th := s'.threads[t];
             && s'.threads == s.threads[t := th]
             && th.phase == Running
             && ThreadOk(s.lock, t, th)
             && s'.writersActive - s.writersActive == InWriterSection(th) - InWriterSection(s.threads[t])
             && s'.readersActive - s.readersActive == InReaderSection(th) - InReaderSection(s.threads[t])
             && s'.shared - s.shared == StoresLeft(s.threads[t]) - StoresLeft(th)
             && (th.section == Increment ==> th.register == s'.shared)
    requires s'.shared != s.shared ==> HoldOf(s.lock, t) == Writing
    requires s'.violations == []
    ensures Inv(s', total)
  {
    ChangingOneThread(s.threads, t, s'.threads[t]);
    forall u | 0 <= u < |s'.threads| && s'.threads[u].section == Increment
      ensures s'.threads[u].register == s'.shared
    {
      if u != t {
        assert ThreadOk(s.lock, u, s.threads[u]);
        if s'.shared != s.shared {
          OneWriter(s.lock, t, u);
        }
      }
    }
  }

  lemma {:induction false} OneWriter(l: Lock, t: ThreadId, u: ThreadId)
    requires Consistent(l) && HoldOf(l, t) == Writing
    ensures u != t ==> HoldOf(l, u) == Free
  {
  }

  /** Whoever is inside an observed section rules out the others that the observers look for. */
  lemma {:induction false} SectionsExclude(s: System, total: int, t: ThreadId)
    requires Inv(s, total) && t < |s.threads|
    ensures HoldOf(s.lock, t) == Writing && s.threads[t].section == Outside ==>
            s.writersActive == 0 && s.readersActive == 0
    ensures HoldOf(s.lock, t).Reading? ==> s.writersActive == 0
  {
    var hold := HoldOf(s.lock, t);
    if hold.Reading? || (hold == Writing && s.threads[t].section == Outside) {
      forall u: ThreadId | u < |s.threads|
        ensures InWriterSection(s.threads[u]) == 0
        ensures hold == Writing ==> InReaderSection(s.threads[u]) == 0
      {
        assert ThreadOk(s.lock, u, s.threads[u]);
      }
      SumZero(s.threads, InWriterSection);
      if hold == Writing {
        SumZero(s.threads, InReaderSection);
      }
    }
  }

  lemma {:induction false} WaitersAreCounted(s: System, total: int, t: ThreadId)
    requires Inv(s, total) && t < |s.threads| && WaitsToWrite(s.threads[t])
    ensures s.lock.waitingWriters >= 1
  {
    SumNonNegative(s.threads, WaitingWriter);
    assert WaitingWriter(s.threads[t]) == 1;
  }

  lemma {:induction false} ResumingKeepsInv(s: System, total: int, t: ThreadId)
    requires Inv(s, total) && Enabled(s, Step(t, false)) && s.threads[t].phase.Waiting?
    ensures Inv(ApplyStep(s, t, false), total)
  {
    var th := s.threads[t];
    assert ThreadOk(s.lock, t, th);
    var k := th.code[0].kind;
    if k == Write {
      WaitersAreCounted(s, total, t);
    }
    var e := Check(k, s.lock, t, th.phase.expired);
    CheckIsProper(k, s.lock, t, th.phase.expired);
    PerformKeepsInv(s, total, t, k, e, Entered(th.code));
  }

  lemma {:induction false} EnteringKeepsInv(s: System, total: int, t: ThreadId, late: bool)
    requires Inv(s, total) && Enabled(s, Step(t, late)) && s.threads[t].phase == Running
    requires Acquisition(s.threads[t].code[0]) && s.threads[t].exn == None
    ensures Inv(ApplyStep(s, t, late), total)
  {
    var th := s.threads[t];
    var i := th.code[0];
    assert ThreadOk(s.lock, t, th);
    var expired := Expired(i.timeout, late);
    var e := Enter(i.kind, s.lock, t, i.timeout, expired);
    EnterIsProper(i.kind, s.lock, t, i.timeout, expired);
    PerformKeepsInv(s, total, t, i.kind, e, Entered(th.code));
  }

  lemma {:induction false} LeavingKeepsInv(s: System, total: int, t: ThreadId, late: bool)
    requires Inv(s, total) && Enabled(s, Step(t, late)) && s.threads[t].phase == Running
    requires s.threads[t].code[0].Exit? || (s.threads[t].code[0].Release? && s.threads[t].exn == None)
    ensures Inv(ApplyStep(s, t, late), total)
  {
    var th := s.threads[t];
    var k := th.code[0].kind;
    assert ThreadOk(s.lock, t, th);
    LeaveIsProper(k, s.lock, t);
    assert AfterLeave(k, th.code[1..], th.exn, HoldOf(s.lock, t));
    PerformKeepsInv(s, total, t, k, Leave(k, s.lock, t), th.code[1..]);
  }

  lemma {:induction false} OtherStepsKeepInv(s: System, total: int, t: ThreadId, late: bool)
    requires Inv(s, total) && Enabled(s, Step(t, late)) && s.threads[t].phase == Running
    requires var i := s.threads[t].code[0];
             Skipped(i, s.threads[t].exn) || !(Acquisition(i) || i.Exit? || i.Release?)
    ensures Inv(ApplyStep(s, t, late), total)
  {
    assert ThreadOk(s.lock, t, s.threads[t]);
    assert Stores(s.threads[t].code) == InstrStores(s.threads[t].code[0]) + Stores(s.threads[t].code[1..]);
    SectionsExclude(s, total, t);
    LocalKeepsInv(s, total, t, ApplyStep(s, t, late));
  }

  lemma {:induction false} TimerKeepsInv(s: System, total: int, t: ThreadId)
    requires Inv(s, total) && Enabled(s, Timer(t))
    ensures Inv(Apply(s, Timer(t)), total)
  {
    assert ThreadOk(s.lock, t, s.threads[t]);
    ChangingOneThread(s.threads, t, Apply(s, Timer(t)).threads[t]);
  }

  lemma {:induction false} EventKeepsInv(s: System, total: int, e: Event)
    requires Inv(s, total) && Enabled(s, e)
    ensures Inv(Apply(s, e), total)
  {
    match e
    case Timer(t) => TimerKeepsInv(s, total, t);
    case Step(t, late) =>
      var th := s.threads[t];
      if th.phase.Waiting? {
        ResumingKeepsInv(s, total, t);
      } else if Skipped(th.code[0], th.exn) {
        OtherStepsKeepInv(s, total, t, late);
      } else if Acquisition(th.code[0]) {
        EnteringKeepsInv(s, total, t, late);
      } else if th.code[0].Exit? || th.code[0].Release? {
        LeavingKeepsInv(s, total, t, late);
      } else {
        OtherStepsKeepInv(s, total, t, late);
      }
  }
}
