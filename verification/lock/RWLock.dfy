/**
 The readers-writer lock of the runtime: shared reentrant readers, one exclusive writer,
 waiting writers ahead of new readers.

 Every method body between two waits runs under one condition variable, so each of them is one atomic step.
 A step is specified by a function on the lock's value; class `RWLock` performs the same step on mutable
 fields. A call that has to wait ends with `Blocked`; the part of the wait loop that runs after a wake-up is
 `ReadCheck` or `WriteCheck`.
 */
module RWLocks {
  import opened Wrappers

  type ThreadId = nat

  datatype Exn = ValueError | RuntimeError | TimeoutError

  datatype Timeout = Forever | Within(seconds: real) {
    predicate Negative() { Within? && seconds < 0.0 }
  }

  datatype Kind = Read | Write

  datatype Lock = Lock(
    readers: map<ThreadId, int>,
    activeReaders: int,
    writer: Option<ThreadId>,
    waitingWriters: int)

  datatype Outcome = Done | Blocked | Raised(exn: Exn)

  /** The lock after a step, how the step ended, and whether it called `notify_all`. */
  datatype Effect = Effect(lock: Lock, outcome: Outcome, notify: bool)

  const IDLE := Lock(map[], 0, None, 0)

  // ---------------------------------------------------------------------------
  // The atomic steps
  // ---------------------------------------------------------------------------

  predicate ReadBlocked(l: Lock) { l.writer.Some? || l.waitingWriters > 0 }

  predicate WriteBlocked(l: Lock) { l.activeReaders > 0 || l.writer.Some? }

  /** One turn of the wait loop of a read acquisition. */
  function ReadCheck(l: Lock, t: ThreadId, expired: bool): Effect {
    if ReadBlocked(l) then
      if expired then Effect(l, Raised(TimeoutError), false) else Effect(l, Blocked, false)
    else
      Effect(l.(activeReaders := l.activeReaders + 1, readers := l.readers[t := 1]), Done, false)
  }

  function ReadEnter(l: Lock, t: ThreadId, timeout: Timeout, expired: bool): Effect {
    if timeout.Negative() then Effect(l, Raised(ValueError), false)
    else if t in l.readers then Effect(l.(readers := l.readers[t := l.readers[t] + 1]), Done, false)
    else if l.writer == Some(t) then Effect(l, Raised(RuntimeError), false)
    else ReadCheck(l, t, expired)
  }

  /** One turn of the wait loop of a write acquisition; the waiting count drops on success and on timeout. */
  function WriteCheck(l: Lock, t: ThreadId, expired: bool): Effect {
    var left := l.(waitingWriters := l.waitingWriters - 1);
    if WriteBlocked(l) then
      if expired then Effect(left, Raised(TimeoutError), true) else Effect(l, Blocked, false)
    else
      Effect(left.(writer := Some(t)), Done, true)
  }

  function WriteEnter(l: Lock, t: ThreadId, timeout: Timeout, expired: bool): Effect {
    if timeout.Negative() then Effect(l, Raised(ValueError), false)
    else if t in l.readers then Effect(l, Raised(RuntimeError), false)
    else if l.writer == Some(t) then Effect(l, Raised(RuntimeError), false)
    else WriteCheck(l.(waitingWriters := l.waitingWriters + 1), t, expired)
  }

  function ReadRelease(l: Lock, t: ThreadId): Effect {
    if t !in l.readers then Effect(l, Raised(RuntimeError), false)
    else if l.readers[t] == 1 then
      Effect(l.(readers := l.readers - {t}, activeReaders := l.activeReaders - 1), Done, l.activeReaders == 1)
    else
      Effect(l.(readers := l.readers[t := l.readers[t] - 1]), Done, false)
  }

  function WriteRelease(l: Lock, t: ThreadId): Effect {
    if l.writer != Some(t) then Effect(l, Raised(RuntimeError), false)
    else Effect(l.(writer := None), Done, true)
  }

  function Enter(k: Kind, l: Lock, t: ThreadId, timeout: Timeout, expired: bool): Effect {
    if k == Read then ReadEnter(l, t, timeout, expired) else WriteEnter(l, t, timeout, expired)
  }

  function Check(k: Kind, l: Lock, t: ThreadId, expired: bool): Effect {
    if k == Read then ReadCheck(l, t, expired) else WriteCheck(l, t, expired)
  }

  function Leave(k: Kind, l: Lock, t: ThreadId): Effect {
    if k == Read then ReadRelease(l, t) else WriteRelease(l, t)
  }

  predicate KindBlocked(k: Kind, l: Lock) {
    if k == Read then ReadBlocked(l) else WriteBlocked(l)
  }

  // ---------------------------------------------------------------------------
  // What every step keeps
  // ---------------------------------------------------------------------------

  /** What a thread holds, read off the lock. */
  datatype Hold = Free | Reading(depth: int) | Writing

  function HoldOf(l: Lock, t: ThreadId): Hold {
    if t in l.readers then Reading(l.readers[t])
    else if l.writer == Some(t) then Writing
    else Free
  }

  /** Readers or one writer, never both; the reader count is the number of reading threads. */
  ghost predicate Consistent(l: Lock) {
    && l.activeReaders == |l.readers|
    && l.waitingWriters >= 0
    && (forall t | t in l.readers :: l.readers[t] >= 1)
    && (l.writer.Some? ==> l.readers == map[])
  }

  lemma {:induction false} MapSizes<V>(m: map<ThreadId, V>, t: ThreadId, v: V)
    ensures t !in m ==> |m[t := v]| == |m| + 1
    ensures t in m ==> |m[t := v]| == |m| && |m - {t}| == |m| - 1
    ensures |m| == 0 <==> m == map[]
  {
    assert m[t := v].Keys == m.Keys + {t};
    assert (m - {t}).Keys == m.Keys - {t};
    assert |m| == |m.Keys|;
    if t in m {
      assert m.Keys == (m.Keys - {t}) + {t};
    }
  }

  /**
   What a step by `t` may do to a lock on which `t` is (or is not) counted as a waiting writer: consistency stays,
   no other thread's hold moves, the waiting count moves exactly with `t`'s own waiting, and a step that does not
   notify leaves every reason to wait in place.
   */
  ghost predicate Proper(l: Lock, t: ThreadId, k: Kind, waited: bool, e: Effect) {
    && Consistent(e.lock)
    && (forall u | u != t :: HoldOf(e.lock, u) == HoldOf(l, u))
    && e.lock.waitingWriters == l.waitingWriters
       - (if waited && k == Write then 1 else 0)
       + (if e.outcome == Blocked && k == Write then 1 else 0)
    && (!e.notify ==> (ReadBlocked(l) ==> ReadBlocked(e.lock)) && (WriteBlocked(l) ==> WriteBlocked(e.lock)))
    && (e.outcome == Blocked ==> KindBlocked(k, e.lock) && HoldOf(e.lock, t) == HoldOf(l, t) == Free)
  }

  /** The hold that a call by a thread holding `h` ends with, or the exception it raises at once. */
  function Admission(k: Kind, h: Hold): Result<Hold, Exn> {
    match (k, h)
    case (Read, Free) => Success(Reading(1))
    case (Read, Reading(n)) => Success(Reading(n + 1))
    case (Write, Free) => Success(Writing)
    case _ => Failure(RuntimeError)
  }

  /**
   Acquisition: a nested read is admitted whatever the lock's state, an upgrade, a downgrade and a write re-entry are
   rejected, and only a thread holding nothing can wait or time out: a read exactly while a writer is active or waits,
   however many others read, and a write exactly while anyone holds the lock. A call that raises leaves the lock as it was.
   A writer that stops waiting wakes everybody.
   */
  lemma {:induction false} EnterIsProper(k: Kind, l: Lock, t: ThreadId, timeout: Timeout, expired: bool)
    requires Consistent(l)
    ensures Proper(l, t, k, false, Enter(k, l, t, timeout, expired))
    ensures var e := Enter(k, l, t, timeout, expired);
            && (timeout.Negative() ==> e.outcome == Raised(ValueError))
            && (!timeout.Negative() && HoldOf(l, t) != Free ==>
                match Admission(k, HoldOf(l, t))
                case Success(h) => e.outcome == Done && HoldOf(e.lock, t) == h
                case Failure(x) => e.outcome == Raised(x))
            && (!timeout.Negative() && HoldOf(l, t) == Free ==>
                var free := l.writer == None && if k == Read then l.waitingWriters == 0 else l.readers == map[];
                && e.outcome == (if free then Done else if expired then Raised(TimeoutError) else Blocked)
                && (free ==> HoldOf(e.lock, t) == Admission(k, Free).value))
            && (e.outcome.Raised? ==> e.lock == l)
            && (e.notify <==> k == Write && !timeout.Negative() && HoldOf(l, t) == Free && e.outcome != Blocked)
  {
    MapSizes(l.readers, t, 1);
    if t in l.readers {
      MapSizes(l.readers, t, l.readers[t] + 1);
    }
  }

  /** A waiting thread that runs again acquires, gives up, or goes back to waiting; giving up leaves no residue. */
  lemma {:induction false} CheckIsProper(k: Kind, l: Lock, t: ThreadId, expired: bool)
    requires Consistent(l) && HoldOf(l, t) == Free
    requires k == Write ==> l.waitingWriters >= 1
    ensures Proper(l, t, k, true, Check(k, l, t, expired))
    ensures var e := Check(k, l, t, expired);
            var free := l.writer == None && if k == Read then l.waitingWriters == 0 else l.readers == map[];
            && e.outcome == (if free then Done else if expired then Raised(TimeoutError) else Blocked)
            && HoldOf(e.lock, t) == (if free then Admission(k, Free).value else Free)
            && (e.notify <==> k == Write && e.outcome != Blocked)
  {
    MapSizes(l.readers, t, 1);
  }

  /** Readers share: with no writer active or waiting, one more joins those that read, and notifies nobody. */
  lemma {:induction false} ReadersShare(l: Lock, t: ThreadId, timeout: Timeout, expired: bool)
    requires Consistent(l) && HoldOf(l, t) == Free && !timeout.Negative()
    ensures Enter(Read, l, t, timeout, expired).outcome == Done <==> l.writer == None && l.waitingWriters == 0
    ensures Check(Read, l, t, expired).outcome == Done <==> l.writer == None && l.waitingWriters == 0
    ensures l.writer == None && l.waitingWriters == 0 ==>
              && Enter(Read, l, t, timeout, expired) == Check(Read, l, t, expired)
              && Enter(Read, l, t, timeout, expired) ==
                 Effect(Lock(l.readers[t := 1], |l.readers| + 1, None, 0), Done, false)
  {
    MapSizes(l.readers, t, 1);
  }

  /** Release undoes exactly one acquisition, and is rejected without a change when there is none to undo. */
  lemma {:induction false} LeaveIsProper(k: Kind, l: Lock, t: ThreadId)
    requires Consistent(l)
    ensures Proper(l, t, k, false, Leave(k, l, t))
    ensures var e := Leave(k, l, t);
            match (k, HoldOf(l, t))
            case (Read, Reading(n)) =>
              e.outcome == Done && HoldOf(e.lock, t) == if n == 1 then Free else Reading(n - 1)
            case (Write, Writing) => e.outcome == Done && HoldOf(e.lock, t) == Free
            case _ => e.outcome == Raised(RuntimeError) && e.lock == l
    ensures var e := Leave(k, l, t); e.notify <==> e.outcome == Done && e.lock.writer == None && e.lock.readers == map[]
  {
    if t in l.readers {
      MapSizes(l.readers, t, l.readers[t] - 1);
    }
  }

  /** What one call undoes: an acquisition followed by its release gives the lock back as it was. */
  lemma {:induction false} AcquireReleaseRestores(k: Kind, l: Lock, t: ThreadId, timeout: Timeout, expired: bool)
    requires Consistent(l)
    requires Enter(k, l, t, timeout, expired).outcome == Done
    ensures Leave(k, Enter(k, l, t, timeout, expired).lock, t) ==
            Effect(l, Done, k == Write || (HoldOf(l, t) == Free && l.activeReaders == 0))
  {
    var e := Enter(k, l, t, timeout, expired).lock;
    if k == Read {
      if t in l.readers {
        assert e.readers[t := l.readers[t]] == l.readers;
      } else {
        assert e.readers - {t} == l.readers;
      }
    }
  }

  /** A write acquisition never waits for nobody: some thread holds the lock. */
  lemma {:induction false} BlockerExists(l: Lock)
    requires Consistent(l)
    ensures WriteBlocked(l) <==> exists u :: HoldOf(l, u) != Free
  {
    MapSizes(l.readers, 0, 0);
    if l.readers != map[] {
      var u :| u in l.readers;
      assert HoldOf(l, u) != Free;
    } else if l.writer.Some? {
      assert HoldOf(l, l.writer.value) == Writing;
    }
  }

  /** A lock nobody holds is free for any writer at once, and for a reader exactly when no writer waits. */
  lemma {:induction false} UnheldIsAcquirable(l: Lock, t: ThreadId, timeout: Timeout, expired: bool)
    requires Consistent(l) && (forall u :: HoldOf(l, u) == Free)
    requires !timeout.Negative()
    ensures Enter(Write, l, t, timeout, expired) == Effect(l.(writer := Some(t)), Done, true)
    ensures Enter(Read, l, t, timeout, expired).outcome == Done <==> l.waitingWriters == 0
  {
    BlockerExists(l);
    assert HoldOf(l, t) == Free;
  }

  // ---------------------------------------------------------------------------
  // The class
  // ---------------------------------------------------------------------------

  class RWLock {
    var activeReaders: int
    var activeWriter: Option<ThreadId>
    var waitingWriters: int
    var readerThreads: map<ThreadId, int>

    constructor ()
      ensures Value() == IDLE
    {
      activeReaders := 0;
      activeWriter := None;
      waitingWriters := 0;
      readerThreads := map[];
    }

    function Value(): Lock
      reads this
    {
      Lock(readerThreads, activeReaders, activeWriter, waitingWriters)
    }

    /** The call up to its first wait. `expired` says whether the deadline has passed at the first check. */
    method AcquireRead(t: ThreadId, timeout: Timeout, expired: bool) returns (outcome: Outcome, notify: bool)
      modifies this
      ensures Effect(Value(), outcome, notify) == ReadEnter(old(Value()), t, timeout, expired)
    {
      notify := false;
      if timeout.Negative() {
        return Raised(ValueError), false;
      }
      if t in readerThreads {
        readerThreads := readerThreads[t := readerThreads[t] + 1];
        return Done, false;
      }
      if activeWriter == Some(t) {
        return Raised(RuntimeError), false;
      }
      outcome, notify := ResumeRead(t, expired);
    }

    /** The wait loop from one wake-up to the next. */
    method ResumeRead(t: ThreadId, expired: bool) returns (outcome: Outcome, notify: bool)
      modifies this
      ensures Effect(Value(), outcome, notify) == ReadCheck(old(Value()), t, expired)
    {
      notify := false;
      if activeWriter.Some? || waitingWriters > 0 {
        if expired {
          return Raised(TimeoutError), false;
        }
        return Blocked, false;
      }
      activeReaders := activeReaders + 1;
      readerThreads := readerThreads[t := 1];
      outcome := Done;
    }

    method ReleaseRead(t: ThreadId) returns (outcome: Outcome, notify: bool)
      modifies this
      ensures Effect(Value(), outcome, notify) == ReadRelease(old(Value()), t)
    {
      notify := false;
      if t !in readerThreads {
        return Raised(RuntimeError), false;
      }
      ghost var before := readerThreads;
      readerThreads := readerThreads[t := readerThreads[t] - 1];
      if readerThreads[t] == 0 {
        readerThreads := readerThreads - {t};
        assert readerThreads == before - {t};
        activeReaders := activeReaders - 1;
        if activeReaders == 0 {
          notify := true;
        }
      }
      outcome := Done;
    }

    method AcquireWrite(t: ThreadId, timeout: Timeout, expired: bool) returns (outcome: Outcome, notify: bool)
      modifies this
      ensures Effect(Value(), outcome, notify) == WriteEnter(old(Value()), t, timeout, expired)
    {
      notify := false;
      if timeout.Negative() {
        return Raised(ValueError), false;
      }
      if t in readerThreads {
        return Raised(RuntimeError), false;
      }
      if activeWriter == Some(t) {
        return Raised(RuntimeError), false;
      }
      waitingWriters := waitingWriters + 1;
      outcome, notify := ResumeWrite(t, expired);
    }

    method ResumeWrite(t: ThreadId, expired: bool) returns (outcome: Outcome, notify: bool)
      modifies this
      ensures Effect(Value(), outcome, notify) == WriteCheck(old(Value()), t, expired)
    {
      if activeReaders > 0 || activeWriter.Some? {
        if !expired {
          return Blocked, false;
        }
        outcome := Raised(TimeoutError);
      } else {
        activeWriter := Some(t);
        outcome := Done;
      }
      waitingWriters := waitingWriters - 1;
      notify := true;
    }

    method ReleaseWrite(t: ThreadId) returns (outcome: Outcome, notify: bool)
      modifies this
      ensures Effect(Value(), outcome, notify) == WriteRelease(old(Value()), t)
    {
      if activeWriter != Some(t) {
        return Raised(RuntimeError), false;
      }
      activeWriter := None;
      return Done, true;
    }
  }
}
