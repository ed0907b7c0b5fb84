/**
 The workers that the lock harness runs, as programs for one thread.

 A program is a list of instructions. `With` is Python's `with lock.read(): body` / `with lock.write(): body`:
 entering it runs the acquisition, and when that succeeds the body is followed by an `Exit` that runs whether or not
 the body raises. `Acquire` and `Release` are the bare calls. `EndTry` closes a `try` and names what its `except`
 clause swallows. While an exception is in flight every other instruction is skipped.
 */
module LockPrograms {
  import opened Wrappers
  import opened RWLocks

  datatype Instr =
    | With(kind: Kind, timeout: Timeout, body: seq<Instr>)
    | Acquire(kind: Kind, timeout: Timeout)
    | Release(kind: Kind)
    | Exit(kind: Kind)
    | EndTry(catches: set<Exn>)
    | Report(message: string)             // violations.append(message)
    | WriterIn | WriterOut                // the observer counters of the exclusion pattern
    | ReaderIn | ReaderOut
    | Load | Store                        // the two halves of shared_value += 1

  /** What a thread is in the middle of, besides holding the lock. */
  datatype Section = Outside | WriterSection | ReaderSection | Increment

  // ---------------------------------------------------------------------------
  // Sizes
  // ---------------------------------------------------------------------------

  function InstrSize(i: Instr): (n: nat)
    ensures n >= 1
  {
    if i.With? then 2 + Size(i.body) else 1
  }

  function Size(code: seq<Instr>): (n: nat)
    ensures n >= |code|
  {
    if code == [] then 0 else InstrSize(code[0]) + Size(code[1..])
  }

  lemma {:induction false} SizeOfConcat(a: seq<Instr>, b: seq<Instr>)
    ensures Size(a + b) == Size(a) + Size(b)
  {
    if a == [] {
      assert a + b == b;
    } else {
      assert (a + b)[1..] == a[1..] + b;
      SizeOfConcat(a[1..], b);
    }
  }

  /** How many increments the program still has to complete. */
  function InstrStores(i: Instr): nat {
    match i
    case With(_, _, body) => Stores(body)
    case Store => 1
    case _ => 0
  }

  function Stores(code: seq<Instr>): nat {
    if code == [] then 0 else InstrStores(code[0]) + Stores(code[1..])
  }

  lemma {:induction false} StoresOfConcat(a: seq<Instr>, b: seq<Instr>)
    ensures Stores(a + b) == Stores(a) + Stores(b)
  {
    if a == [] {
      assert a + b == b;
    } else {
      assert (a + b)[1..] == a[1..] + b;
      StoresOfConcat(a[1..], b);
    }
  }

  // ---------------------------------------------------------------------------
  // Programs that behave when they run alone
  // ---------------------------------------------------------------------------

  predicate Acquisition(i: Instr) { i.With? || i.Acquire? }

  predicate Skipped(i: Instr, exn: Option<Exn>) { exn.Some? && !i.Exit? && !i.EndTry? }

  /** The program after its first instruction, an acquisition, has succeeded. */
  function Entered(code: seq<Instr>): (next: seq<Instr>)
    requires code != [] && Acquisition(code[0])
    ensures Size(next) < Size(code) && Stores(next) == Stores(code)
  {
    var rest := code[1..];
    if code[0].With? then
      SizeOfConcat(code[0].body, [Exit(code[0].kind)] + rest);
      SizeOfConcat([Exit(code[0].kind)], rest);
      StoresOfConcat(code[0].body, [Exit(code[0].kind)] + rest);
      StoresOfConcat([Exit(code[0].kind)], rest);
      code[0].body + ([Exit(code[0].kind)] + rest)
    else
      rest
  }

  function Remaining(hold: Hold): Hold {
    if hold.Reading? && hold.depth > 1 then Reading(hold.depth - 1) else Free
  }

  predicate CanLeave(k: Kind, hold: Hold) {
    if k == Read then hold.Reading? else hold == Writing
  }

  /**
   The program, run by one thread that holds `hold`, with nobody else about: it never reports, it never touches the
   shared value or the observer counters without holding the lock in the right mode, it never loses an increment to an
   exception, and it ends with nothing held and no exception in flight. An acquisition with a timeout may also time out.
   */
  predicate Behaves(code: seq<Instr>, exn: Option<Exn>, hold: Hold, sect: Section)
    decreases Size(code), 0
  {
    if code == [] then exn == None && hold == Free && sect == Outside
    else
      var i, rest := code[0], code[1..];
      if Skipped(i, exn) then InstrStores(i) == 0 && Behaves(rest, exn, hold, sect)
      else
        match i
        case EndTry(catches) =>
          Behaves(rest, if exn.Some? && exn.value in catches then None else exn, hold, sect)
        case Exit(k) => sect == Outside && AfterLeave(k, rest, exn, hold)
        case Release(k) => sect == Outside && AfterLeave(k, rest, exn, hold)
        case Report(_) => false
        case WriterIn => hold == Writing && sect == Outside && Behaves(rest, exn, hold, WriterSection)
        case WriterOut => sect == WriterSection && Behaves(rest, exn, hold, Outside)
        case ReaderIn => hold.Reading? && sect == Outside && Behaves(rest, exn, hold, ReaderSection)
        case ReaderOut => sect == ReaderSection && Behaves(rest, exn, hold, Outside)
        case Load =>
          if hold.Reading? then Behaves(rest, exn, hold, sect)
          else hold == Writing && sect == Outside && Behaves(rest, exn, hold, Increment)
        case Store => sect == Increment && Behaves(rest, exn, hold, Outside)
        case _ =>
          && sect == Outside
          && (if i.timeout.Negative() then InstrStores(i) == 0 && Behaves(rest, Some(ValueError), hold, sect)
              else match Admission(i.kind, hold)
                case Success(h) =>
                  && Behaves(Entered(code), None, h, sect)
                  && (hold == Free && i.timeout.Within? ==>
                      InstrStores(i) == 0 && Behaves(rest, Some(TimeoutError), Free, sect))
                case Failure(x) => InstrStores(i) == 0 && Behaves(rest, Some(x), hold, sect))
  }

  predicate AfterLeave(k: Kind, rest: seq<Instr>, exn: Option<Exn>, hold: Hold)
    decreases Size(rest), 1
  {
    if CanLeave(k, hold) then Behaves(rest, exn, Remaining(hold), Outside)
    else Behaves(rest, Some(RuntimeError), hold, Outside)
  }

  lemma {:induction false} ConcatRest(a: seq<Instr>, b: seq<Instr>)
    requires a != []
    ensures (a + b)[0] == a[0] && (a + b)[1..] == a[1..] + b
    ensures Acquisition(a[0]) ==> Entered(a + b) == Entered(a) + b
  {
    if a[0].With? {
      var body, exit := a[0].body, [Exit(a[0].kind)];
      assert exit + (a[1..] + b) == (exit + a[1..]) + b;
      assert body + ((exit + a[1..]) + b) == (body + (exit + a[1..])) + b;
    }
  }

  /** Programs that behave can be run one after the other. */
  lemma {:induction false} BehavesConcat(a: seq<Instr>, b: seq<Instr>, exn: Option<Exn>, hold: Hold, sect: Section)
    requires Behaves(a, exn, hold, sect)
    requires Behaves(b, None, Free, Outside)
    ensures Behaves(a + b, exn, hold, sect)
    decreases Size(a), 2
  {
    if a == [] {
      assert a + b == b;
    } else if !Skipped(a[0], exn) && Acquisition(a[0]) {
      AcquisitionConcat(a, b, exn, hold, sect);
    } else if !Skipped(a[0], exn) && (a[0].Exit? || a[0].Release?) {
      ConcatRest(a, b);
      AfterLeaveConcat(a[0].kind, a[1..], b, exn, hold);
    } else {
      OtherConcat(a, b, exn, hold, sect);
    }
  }

  lemma {:induction false} AcquisitionConcat(a: seq<Instr>, b: seq<Instr>, exn: Option<Exn>, hold: Hold, sect: Section)
    requires a != [] && Acquisition(a[0]) && !Skipped(a[0], exn)
    requires Behaves(a, exn, hold, sect)
    requires Behaves(b, None, Free, Outside)
    ensures Behaves(a + b, exn, hold, sect)
    decreases Size(a), 0
  {
    hide Entered;
    var i, rest := a[0], a[1..];
    ConcatRest(a, b);
    if i.timeout.Negative() {
      BehavesConcat(rest, b, Some(ValueError), hold, sect);
    } else {
      match Admission(i.kind, hold)
      case Failure(x) => BehavesConcat(rest, b, Some(x), hold, sect);
      case Success(h) =>
        BehavesConcat(Entered(a), b, None, h, sect);
        if hold == Free && i.timeout.Within? {
          BehavesConcat(rest, b, Some(TimeoutError), Free, sect);
        }
    }
  }

  lemma {:induction false} OtherConcat(a: seq<Instr>, b: seq<Instr>, exn: Option<Exn>, hold: Hold, sect: Section)
    requires a != [] && (Skipped(a[0], exn) || !(Acquisition(a[0]) || a[0].Exit? || a[0].Release?))
    requires Behaves(a, exn, hold, sect)
    requires Behaves(b, None, Free, Outside)
    ensures Behaves(a + b, exn, hold, sect)
    decreases Size(a), 0
  {
    hide Entered;
    hide AfterLeave;
    var i, rest := a[0], a[1..];
    ConcatRest(a, b);
    if Skipped(i, exn) {
      BehavesConcat(rest, b, exn, hold, sect);
    } else {
      match i
      case Report(_) =>
      case EndTry(catches) =>
        BehavesConcat(rest, b, if exn.Some? && exn.value in catches then None else exn, hold, sect);
      case WriterIn => BehavesConcat(rest, b, exn, hold, WriterSection);
      case ReaderIn => BehavesConcat(rest, b, exn, hold, ReaderSection);
      case Load => BehavesConcat(rest, b, exn, hold, if hold.Reading? then sect else Increment);
      case WriterOut => BehavesConcat(rest, b, exn, hold, Outside);
      case ReaderOut => BehavesConcat(rest, b, exn, hold, Outside);
      case Store => BehavesConcat(rest, b, exn, hold, Outside);
    }
  }

  lemma {:induction false} AfterLeaveConcat(k: Kind, rest: seq<Instr>, b: seq<Instr>, exn: Option<Exn>, hold: Hold)
    requires AfterLeave(k, rest, exn, hold)
    requires Behaves(b, None, Free, Outside)
    ensures AfterLeave(k, rest + b, exn, hold)
    decreases Size(rest), 3
  {
    if CanLeave(k, hold) {
      BehavesConcat(rest, b, exn, Remaining(hold), Outside);
    } else {
      BehavesConcat(rest, b, Some(RuntimeError), hold, Outside);
    }
  }
}
