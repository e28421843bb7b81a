/**
 Runs of the pid-file protocol (src/watchdog.c:158-349): what holds in every interleaving.
 */
module PidRuns {
  import opened Text
  import opened PidRecord
  import opened PidDaemon
  import opened PidProtocol

  /** The state after a sequence of steps, when each is enabled in its turn. */
  ghost predicate IsRun(states: seq<State>, steps: seq<Step>) {
    && |states| == |steps| + 1 && Init(states[0])
    && forall i | 0 <= i < |steps| :: Enabled(states[i], steps[i]) && states[i + 1] == Apply(states[i], steps[i])
  }

  lemma {:induction false} RunInv(states: seq<State>, steps: seq<Step>, i: nat)
    requires IsRun(states, steps) && i < |states|
    ensures Inv(states[i])
  {
    hide Inv, Init, Apply, Enabled;
    if i == 0 {
      InitInv(states[0]);
    } else {
      RunInv(states, steps, i - 1);
      assert Enabled(states[i - 1], steps[i - 1]);
      StepInv(states[i - 1], steps[i - 1]);
    }
  }

  /**
   In every interleaving: once the parent has its OK, the daemon still holds the lock or
   the file holds a terminal record; and a reader that took the lock after that sees
   neither the INIT record, nor a bare pid, nor the empty file between truncate and write.
   */
  lemma LockProtocolSafety(states: seq<State>, steps: seq<Step>, i: nat)
    requires IsRun(states, steps) && i < |states|
    ensures var s := states[i];
            && (s.parent == GotOk ==> s.lock == HeldByDaemon || Terminal(s.file))
            && (s.reader.afterOk && s.reader.seen.Some? ==> Terminal(s.reader.seen.value))
  {
    hide Init, Apply, Enabled, Terminal, FileInv;
    RunInv(states, steps, i);
    var s := states[i];
    if s.parent == GotOk {
      OkMeansStarted(s);
      if s.daemon == Gone {
        GoneIsTerminal(s);
      }
    }
  }

  /** A terminal record is none of the contents such a reader must not see. */
  lemma TerminalIsNot(file: string, ns: int, pid: int)
    requires Terminal(file)
    ensures file != "" && file != InitRecord(ns) && file != Message(Pid, pid)
  {
    TerminalMessages(Pid, pid);
    hide Number.Dec;
    var tail := Number.Dec(ns) + "\n";
    assert InitRecord(ns) == "RURI_INIT_" + tail;
    Tagged("RURI_INIT_", tail, "RURI_EXIT", 5);
    Tagged("RURI_INIT_", tail, "RURI_SIGNALED", 5);
    Tagged("RURI_INIT_", tail, "RURI_PANIC", 5);
  }

  /** While the daemon waits for packets the file is the last accepted one, or still the INIT record. */
  lemma ServingFile(states: seq<State>, steps: seq<Step>, i: nat)
    requires IsRun(states, steps) && i < |states| && states[i].daemon == Serving
    ensures states[i].file == LastAccepted(states[i].init, states[i].taken)
  {
    hide IsRun, Init, Apply, Enabled;
    RunInv(states, steps, i);
    ServeIsLastAccepted(states[i].init, states[i].taken);
  }

  // ----- what a reader with the lock sees -----

  /** The daemon has truncated the file in one of the first `i` steps. */
  ghost predicate Truncated(steps: seq<Step>, i: nat)
    requires i <= |steps|
  {
    exists j :: 0 <= j < i && steps[j] == Truncate
  }

  /** What was in the file before the run, or nothing once it has been truncated. */
  ghost function Before(states: seq<State>, steps: seq<Step>, i: nat): string
    requires i <= |steps| && |states| > 0
  {
    if Truncated(steps, i) then "" else states[0].file
  }

  /** Up to the OK, where the daemon has come to. */
  ghost predicate Early(s: State, truncated: bool, first: string) {
    match s.daemon
    case Opened => !truncated && s.file == first
    case Truncated => truncated && s.file == ""
    case Gone => s.file == if truncated then "" else first
    case _ => true
  }

  lemma TruncatedNext(steps: seq<Step>, i: nat)
    requires i < |steps|
    ensures Truncated(steps, i + 1) <==> Truncated(steps, i) || steps[i] == Truncate
  {
  }

  /** Every step before the OK keeps that. */
  lemma EarlyStep(s: State, step: Step, truncated: bool, first: string)
    requires Inv(s) && Enabled(s, step) && !Apply(s, step).okSent && Early(s, truncated, first)
    ensures !s.okSent && Early(Apply(s, step), truncated || step == Truncate, first)
  {
  }

  lemma {:induction false} EarlyRun(states: seq<State>, steps: seq<Step>, i: nat)
    requires IsRun(states, steps) && i < |states| && !states[i].okSent
    ensures Early(states[i], Truncated(steps, i), states[0].file)
  {
    hide Inv, Apply, Enabled, Early, Truncated;
    if i == 0 {
      EarlyStart(states[0], steps);
    } else {
      RunInv(states, steps, i - 1);
      assert Enabled(states[i - 1], steps[i - 1]) && states[i - 1 + 1] == Apply(states[i - 1], steps[i - 1]);
      OkStays(states[i - 1], steps[i - 1]);
      EarlyRun(states, steps, i - 1);
      TruncatedNext(steps, i - 1);
      EarlyStep(states[i - 1], steps[i - 1], Truncated(steps, i - 1), states[0].file);
    }
  }

  lemma EarlyStart(s: State, steps: seq<Step>)
    requires Init(s)
    ensures Early(s, Truncated(steps, 0), s.file)
  {
  }

  lemma OkStays(s: State, step: Step)
    requires Enabled(s, step)
    ensures s.okSent ==> Apply(s, step).okSent
  {
  }

  /**
   Whenever the daemon does not hold the lock, before or after the OK and whatever the reader
   does: once the OK was sent the file is terminal, and until then it is what it was before the
   run, or empty if the daemon has truncated it.
   */
  lemma UnlockedFile(states: seq<State>, steps: seq<Step>, i: nat)
    requires IsRun(states, steps) && i < |states| && states[i].lock != HeldByDaemon
    ensures if states[i].okSent then Terminal(states[i].file) else states[i].file == Before(states, steps, i)
  {
    hide Init, Apply, Enabled, Terminal, FileInv, Truncated;
    RunInv(states, steps, i);
    var s := states[i];
    if s.okSent {
      OkMeansStarted(s);
      GoneIsTerminal(s);
    } else {
      EarlyRun(states, steps, i);
    }
  }

  /** So a reader with the lock finds a terminal record exactly in these cases. */
  lemma TerminalExactly(states: seq<State>, steps: seq<Step>, i: nat)
    requires IsRun(states, steps) && i < |states| && states[i].lock != HeldByDaemon
    ensures Terminal(states[i].file) <==>
            states[i].okSent || (!Truncated(steps, i) && Terminal(states[0].file))
  {
    hide IsRun, Truncated;
    UnlockedFile(states, steps, i);
  }

  /**
   Whatever a reader with the lock has read, early or not, is a terminal record, nothing, or
   what was in the file before the run: never the INIT record or a pid of this run.
   */
  lemma {:induction false} WhatReadersSee(states: seq<State>, steps: seq<Step>, i: nat)
    requires IsRun(states, steps) && i < |states| && states[i].reader.seen.Some?
    ensures var seen := states[i].reader.seen.value; Terminal(seen) || seen == "" || seen == states[0].file
  {
    hide Inv, Terminal, Truncated;
    if i > 0 {
      var step := steps[i - 1];
      assert Enabled(states[i - 1], step) && states[i - 1 + 1] == Apply(states[i - 1], step);
      if step == ReaderReads {
        UnlockedFile(states, steps, i - 1);
      } else {
        SeenStays(states[i - 1], step);
        WhatReadersSee(states, steps, i - 1);
      }
    }
  }

  lemma SeenStays(s: State, step: Step)
    requires Enabled(s, step) && step != ReaderReads && Apply(s, step).reader.seen.Some?
    ensures s.reader.seen == Apply(s, step).reader.seen
  {
  }

  lemma RunOfFour(states: seq<State>, steps: seq<Step>)
    requires |steps| == 4 && |states| == 5 && Init(states[0])
    requires Enabled(states[0], steps[0]) && states[1] == Apply(states[0], steps[0])
    requires Enabled(states[1], steps[1]) && states[2] == Apply(states[1], steps[1])
    requires Enabled(states[2], steps[2]) && states[3] == Apply(states[2], steps[2])
    requires Enabled(states[3], steps[3]) && states[4] == Apply(states[3], steps[3])
    ensures IsRun(states, steps)
  {
    hide Init, Enabled, Apply;
  }

  /**
   Before the OK nothing is promised: a lock-taking reader can get in between the daemon's
   truncate and its lock, sees the empty file, and makes the daemon give up.
   */
  lemma EarlyReaderSeesNothing(s: State)
    requires Init(s) && s.lock == Free
    ensures var steps := [Truncate, ReaderLocks, ReaderReads, TryLock];
            exists states: seq<State> :: IsRun(states, steps) && states[0] == s
                             && states[3].reader.seen == Some("") && states[4].daemon == Gone && !states[4].okSent
  {
    var s1 := Apply(s, Truncate);
    var s2 := Apply(s1, ReaderLocks);
    var s3 := Apply(s2, ReaderReads);
    var s4 := Apply(s3, TryLock);
    var states, steps := [s, s1, s2, s3, s4], [Truncate, ReaderLocks, ReaderReads, TryLock];
    RunOfFour(states, steps);
    assert IsRun(states, steps);
  }
}
