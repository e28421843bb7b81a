/**
 The locking protocol around the pid file (src/watchdog.c:142-358): the parent's
 handshake, the daemon's single steps on file and lock, any writers on the packet socket,
 and a reader that takes the lock (test/test_pid_file.c:55-90).  Every interleaving of
 these steps is a run.
 */
module PidProtocol {
  import opened Text
  import opened PidRecord
  import opened PidDaemon

  datatype DaemonPc =
    | Opened              // the file is open, nothing done yet
    | Truncated           // ftruncate
    | Locking             // F_SETLK succeeded, file still empty
    | InitWritten         // RURI_INIT_<ns> written
    | Serving             // OK sent, waiting in read()
    | Clearing(data: string)  // accepted a packet, file truncated
    | Written(data: string)   // packet written
    | Checking            // end of file or error: looking at the record
    | Fixing              // record not terminal: file truncated again
    | Unlocking           // about to F_UNLCK
    | Gone                // unlocked and exited, or exited early

  datatype ParentPc = WaitingForOk | GotOk | GotEof

  datatype Holder = Free | HeldByDaemon | HeldByReader

  /** The reader: whether the parent had its OK when the lock was taken, and what was read last. */
  datatype Reader = Reader(afterOk: bool, seen: Option<string>)

  datatype State = State(
    daemon: DaemonPc,
    parent: ParentPc,
    okSent: bool,
    file: string,
    lock: Holder,
    queue: seq<string>,   // packets sent and not read yet
    writers: nat,         // open write ends of the socket
    reader: Reader,
    init: string,         // the INIT record of this run
    taken: seq<Event>)    // history: what the daemon's read() returned

  datatype Step =
    | Truncate | TryLock | WriteInit | SendOk
    | ReadPacket | ReadEof | ReadError | ReadInterrupted
    | WritePacket | AfterWrite | Check | WriteUnknown | Unlock | OpenFails
    | ParentReadsOk | ParentReadsEof
    | WriterSends(data: string) | WriterForks | WriterCloses
    | ReaderLocks | ReaderReads | ReaderUnlocks

  ghost predicate Init(s: State) {
    && s.daemon == Opened && s.parent == WaitingForOk && !s.okSent
    && s.lock != HeldByDaemon && s.reader.seen == None && !s.reader.afterOk
    && s.taken == [] && s.queue == []
  }

  predicate Enabled(s: State, step: Step) {
    match step
    case Truncate => s.daemon == Opened
    case OpenFails => s.daemon == Opened
    case TryLock => s.daemon == Truncated
    case WriteInit => s.daemon == Locking
    case SendOk => s.daemon == InitWritten
    case ReadPacket => s.daemon == Serving && s.queue != []
    case ReadEof => s.daemon == Serving && s.queue == [] && s.writers == 0
    case ReadError => s.daemon == Serving
    case ReadInterrupted => s.daemon == Serving
    case WritePacket => s.daemon.Clearing?
    case AfterWrite => s.daemon.Written?
    case Check => s.daemon == Checking
    case WriteUnknown => s.daemon == Fixing
    case Unlock => s.daemon == Unlocking
    case ParentReadsOk => s.parent == WaitingForOk && s.okSent
    case ParentReadsEof => s.parent == WaitingForOk && !s.okSent && s.daemon == Gone
    case WriterSends(data) => s.writers > 0 && data != ""
    case WriterForks => s.writers > 0
    case WriterCloses => s.writers > 0
    case ReaderLocks => s.lock == Free
    case ReaderReads => s.lock == HeldByReader
    case ReaderUnlocks => s.lock == HeldByReader
  }

  /** A packet that was read: dropped by the filter, or on its way into the truncated file. */
  function Receive(s: State, data: string): State {
    var t := s.(taken := s.taken + [Packet(data)]);
    if Accepts(data) then t.(daemon := Clearing(data), file := "") else t
  }

  function Apply(s: State, step: Step): State
    requires Enabled(s, step)
  {
    match step
    case Truncate => s.(daemon := Truncated, file := "")
    case OpenFails => s.(daemon := Gone)
    case TryLock => if s.lock == Free then s.(daemon := Locking, lock := HeldByDaemon) else s.(daemon := Gone)
    case WriteInit => s.(daemon := InitWritten, file := s.init)
    case SendOk => s.(daemon := Serving, okSent := true)
    case ReadPacket => Receive(s.(queue := s.queue[1..]), s.queue[0])
    case ReadEof => s.(daemon := Checking, taken := s.taken + [Eof])
    case ReadError => s.(daemon := Checking, taken := s.taken + [Failure])
    case ReadInterrupted => s.(taken := s.taken + [Interrupted])
    case WritePacket => s.(daemon := Written(s.daemon.data), file := s.daemon.data)
    case AfterWrite => s.(daemon := if IsPanic(s.daemon.data) then Unlocking else Serving)
    case Check => if Terminal(s.file) then s.(daemon := Unlocking) else s.(daemon := Fixing, file := "")
    case WriteUnknown => s.(daemon := Unlocking, file := UNKNOWN_RECORD)
    case Unlock => s.(daemon := Gone, lock := Free)
    case ParentReadsOk => s.(parent := GotOk)
    case ParentReadsEof => s.(parent := GotEof)
    case WriterSends(data) => s.(queue := s.queue + [data])
    case WriterForks => s.(writers := s.writers + 1)
    case WriterCloses => s.(writers := s.writers - 1)
    case ReaderLocks => s.(lock := HeldByReader, reader := Reader(s.parent == GotOk, None))
    case ReaderReads => s.(reader := s.reader.(seen := Some(s.file)))
    case ReaderUnlocks => s.(lock := Free)
  }

  // ----- the invariant -----

  predicate HoldsLock(pc: DaemonPc) {
    !pc.Opened? && !pc.Truncated? && !pc.Gone?
  }

  /** The packet or stop event that is being worked on is the last one taken. */
  ghost predicate Working(s: State, e: Event, file: string) {
    && s.taken != [] && s.taken[|s.taken| - 1] == e
    && var before := Serve(s.init, s.taken[..|s.taken| - 1]);
       !before.exited && before.file == file
  }

  /** What the file holds at each of the daemon's points, in terms of everything it has read. */
  ghost predicate FileInv(s: State) {
    match s.daemon
    case Opened => !s.okSent && s.taken == []
    case Truncated => !s.okSent && s.taken == []
    case Locking => !s.okSent && s.taken == []
    case InitWritten => !s.okSent && s.taken == [] && s.file == s.init
    case Serving => s.okSent && Serve(s.init, s.taken) == Outcome(s.file, false)
    case Clearing(data) => s.okSent && Accepts(data) && exists file :: Working(s, Packet(data), file)
    case Written(data) => s.okSent && s.file == data && Accepts(data) && exists file :: Working(s, Packet(data), file)
    case Checking => s.okSent && exists e :: (e == Eof || e == Failure) && Working(s, e, s.file)
    case Fixing => s.okSent && exists e, file :: (e == Eof || e == Failure) && !Terminal(file) && Working(s, e, file)
    case Unlocking => s.okSent && Serve(s.init, s.taken) == Outcome(s.file, true)
    case Gone => s.okSent ==> Serve(s.init, s.taken) == Outcome(s.file, true)
  }

  ghost predicate Inv(s: State) {
    && FileInv(s)
    && (s.lock == HeldByDaemon <==> HoldsLock(s.daemon))
    && (s.parent == GotOk ==> s.okSent)
    && (s.lock == HeldByReader && s.reader.afterOk ==> s.okSent && s.daemon == Gone)
    && (s.reader.afterOk && s.reader.seen.Some? ==> Terminal(s.reader.seen.value))
  }

  lemma InitInv(s: State)
    requires Init(s)
    ensures Inv(s)
  {
  }

  lemma WorkingServes(s: State, e: Event, file: string)
    requires Working(s, e, file)
    ensures Serve(s.init, s.taken) == React(file, e)
  {
    var m := |s.taken| - 1;
    assert s.taken == s.taken[..m] + [e];
    ServeSnoc(s.init, s.taken[..m], e);
  }

  /** Taking one more event in the Serving state. */
  lemma TakeEvent(s: State, e: Event)
    requires s.daemon == Serving && FileInv(s)
    ensures var t := s.(taken := s.taken + [e]);
            Working(t, e, s.file) && Serve(t.init, t.taken) == React(s.file, e)
  {
    var t := s.(taken := s.taken + [e]);
    assert t.taken[..|t.taken| - 1] == s.taken;
    WorkingServes(t, e, s.file);
  }

  lemma DaemonStepKeepsFile(s: State, step: Step)
    requires Inv(s) && Enabled(s, step)
    requires step.ReadPacket? || step.ReadEof? || step.ReadError? || step.ReadInterrupted?
    ensures FileInv(Apply(s, step))
  {
    hide Serve, React, Accepts, Terminal;
    var e := match step
      case ReadPacket => Packet(s.queue[0])
      case ReadEof => Eof
      case ReadError => Failure
      case _ => Interrupted;
    TakeEvent(s, e);
    ReactCases(s.file, e);
    var t := Apply(s, step);
    assert t.taken == s.taken + [e] && t.init == s.init;
    assert Working(t, e, s.file);
  }

  /** React, case by case. */
  lemma ReactCases(file: string, e: Event)
    ensures (e.Packet? && !Accepts(e.data)) || e.Interrupted? ==> React(file, e) == Outcome(file, false)
    ensures e.Packet? && Accepts(e.data) ==> React(file, e) == Outcome(e.data, IsPanic(e.data))
    ensures e.Eof? || e.Failure? ==> React(file, e) == Outcome(if Terminal(file) then file else UNKNOWN_RECORD, true)
  {
  }

  lemma WorkKeepsFile(s: State, step: Step)
    requires Inv(s) && Enabled(s, step)
    requires step.WritePacket? || step.AfterWrite? || step.Check? || step.WriteUnknown?
    ensures FileInv(Apply(s, step))
  {
    hide Serve, React, Accepts, Terminal, IsPanic;
    var t := Apply(s, step);
    match step {
      case WritePacket =>
        var file :| Working(s, Packet(s.daemon.data), file);
        assert Working(t, Packet(s.daemon.data), file);
      case AfterWrite =>
        var file :| Working(s, Packet(s.daemon.data), file);
        WorkingServes(s, Packet(s.daemon.data), file);
        ReactCases(file, Packet(s.daemon.data));
      case Check =>
        var e :| (e == Eof || e == Failure) && Working(s, e, s.file);
        WorkingServes(s, e, s.file);
        ReactCases(s.file, e);
        assert Working(t, e, s.file);
      case WriteUnknown =>
        var e, file :| (e == Eof || e == Failure) && !Terminal(file) && Working(s, e, file);
        WorkingServes(s, e, file);
        ReactCases(file, e);
    }
  }

  /** Steps of the others leave the daemon's part of the state alone. */
  lemma OtherStepsKeepFile(s: State, t: State)
    requires FileInv(s)
    requires t.daemon == s.daemon && t.okSent == s.okSent && t.file == s.file && t.init == s.init && t.taken == s.taken
    ensures FileInv(t)
  {
    hide Serve, Accepts, Terminal;
    match s.daemon {
      case Clearing(data) =>
        var file :| Working(s, Packet(data), file);
        assert Working(t, Packet(data), file);
      case Written(data) =>
        var file :| Working(s, Packet(data), file);
        assert Working(t, Packet(data), file);
      case Checking =>
        var e :| (e == Eof || e == Failure) && Working(s, e, s.file);
        assert Working(t, e, t.file);
      case Fixing =>
        var e, file :| (e == Eof || e == Failure) && !Terminal(file) && Working(s, e, file);
        assert Working(t, e, file);
      case _ =>
    }
  }

  lemma StepKeepsFile(s: State, step: Step)
    requires Inv(s) && Enabled(s, step)
    ensures FileInv(Apply(s, step))
  {
    hide Serve, React, Accepts, Terminal, Working;
    if step.ReadPacket? || step.ReadEof? || step.ReadError? || step.ReadInterrupted? {
      DaemonStepKeepsFile(s, step);
    } else if step.WritePacket? || step.AfterWrite? || step.Check? || step.WriteUnknown? {
      WorkKeepsFile(s, step);
    } else if step.Truncate? || step.OpenFails? || step.TryLock? || step.WriteInit? || step.SendOk? || step.Unlock? {
      NothingTaken(s.init);
    } else {
      OtherStepsKeepFile(s, Apply(s, step));
    }
  }

  lemma NothingTaken(init: string)
    ensures Serve(init, []) == Outcome(init, false)
  {
  }

  /** Once the daemon is gone after its OK, the file is terminal. */
  lemma GoneIsTerminal(s: State)
    requires Inv(s) && s.okSent && s.daemon == Gone
    ensures Terminal(s.file)
  {
    RunEndsTerminal(s.init, s.taken);
  }

  /** What every step of the protocol keeps. */
  lemma StepInv(s: State, step: Step)
    requires Inv(s) && Enabled(s, step)
    ensures Inv(Apply(s, step))
  {
    hide FileInv, Terminal;
    StepKeepsFile(s, step);
    var t := Apply(s, step);
    if s.okSent && s.daemon == Gone {
      GoneIsTerminal(s);
    }
    if s.okSent {
      OkMeansStarted(s);
    }
    if t.okSent {
      OkMeansStarted(t);
    }
  }

  lemma OkMeansStarted(s: State)
    requires FileInv(s) && s.okSent
    ensures HoldsLock(s.daemon) || s.daemon == Gone
  {
  }
}
