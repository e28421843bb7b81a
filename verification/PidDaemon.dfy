/**
 The pid-file daemon (src/watchdog.c:142-358): one run over its socket, and the locking
 protocol between parent, daemon, writers and a reader of the file.
 */
module PidDaemon {
  import opened Text
  import opened PidRecord

  /** What read(pid_file_fd) comes back with. */
  datatype Event = Packet(data: string) | Eof | Interrupted | Failure

  const UNKNOWN_RECORD := "RURI_EXIT_UNKNOWN\n"

  predicate IsPanic(data: string) {
    StartsWith(data, "RURI_PANIC_")
  }

  /** The last fix-up of the file before the lock is released. */
  function Fixed(file: string): string {
    if Terminal(file) then file else UNKNOWN_RECORD
  }

  /** File content and whether the daemon has left its loop. */
  datatype Outcome = Outcome(file: string, exited: bool)

  /** One turn of the daemon's loop. */
  function React(file: string, e: Event): Outcome {
    match e
    case Packet(data) => if Accepts(data) then Outcome(data, IsPanic(data)) else Outcome(file, false)
    case Interrupted => Outcome(file, false)
    case Eof => Outcome(Fixed(file), true)
    case Failure => Outcome(Fixed(file), true)
  }

  /** The loop over everything that is read. */
  function Serve(file: string, events: seq<Event>): Outcome
    decreases |events|
  {
    if events == [] then Outcome(file, false) else
    var o := React(file, events[0]);
    if o.exited then o else Serve(o.file, events[1..])
  }

  class Daemon {
    var file: string
    var locked: bool

    /** After the lock was taken and the INIT record written. */
    constructor (nowNs: int)
      ensures file == InitRecord(nowNs) && locked
    {
      file := InitRecord(nowNs);
      locked := true;
    }

    method Loop(events: seq<Event>) returns (exited: bool)
      requires locked
      modifies this
      ensures Outcome(file, exited) == Serve(old(file), events)
      ensures locked == !exited
    {
      var i := 0;
      assert events[0..] == events;
      while i < |events|
        invariant i <= |events| && locked
        invariant Serve(old(file), events) == Serve(file, events[i..])
      {
        assert events[i..][1..] == events[i + 1..];
        match events[i] {
          case Packet(data) =>
            var ok := PassesFilter(data);
            if ok {
              file := "";
              file := data;
              if StartsWith(data, "RURI_PANIC_") {
                locked := false;
                return true;
              }
            }
          case Interrupted =>
          case _ =>
            if !StartsWith(file, "RURI_EXIT") && !StartsWith(file, "RURI_SIGNALED") && !StartsWith(file, "RURI_PANIC") {
              file := "";
              file := UNKNOWN_RECORD;
            }
            locked := false;
            return true;
        }
        i := i + 1;
      }
      exited := false;
    }
  }

  function InitRecord(nowNs: int): string {
    "RURI_INIT_" + Number.Dec(nowNs) + "\n"
  }

  // ----- what a run leaves behind -----

  /** The last packet that passed the filter, or what the file held before. */
  function LastAccepted(file: string, events: seq<Event>): string {
    if events == [] then file else
    var e := events[|events| - 1];
    if e.Packet? && Accepts(e.data) then e.data else LastAccepted(file, events[..|events| - 1])
  }

  /** The daemon leaves its loop at the first of these. */
  predicate Stops(e: Event) {
    e.Eof? || e.Failure? || (e.Packet? && Accepts(e.data) && IsPanic(e.data))
  }

  function StopIndex(events: seq<Event>): (k: nat)
    ensures k <= |events|
    ensures k < |events| ==> Stops(events[k])
    ensures forall i | 0 <= i < k :: !Stops(events[i])
  {
    if events == [] || Stops(events[0]) then 0 else 1 + StopIndex(events[1..])
  }

  lemma {:induction false} LastAcceptedCons(file: string, e: Event, rest: seq<Event>)
    ensures LastAccepted(file, [e] + rest) ==
            LastAccepted(if e.Packet? && Accepts(e.data) then e.data else file, rest)
    decreases |rest|
  {
    if rest == [] {
      assert ([e] + rest)[..0] == [];
    } else {
      var m := |rest| - 1;
      assert ([e] + rest)[..|rest|] == [e] + rest[..m];
      LastAcceptedCons(file, e, rest[..m]);
    }
  }

  lemma FixedIsTerminal(file: string)
    ensures Terminal(Fixed(file))
  {
    TerminalMessages(Unknown, 0);
  }

  lemma PanicIsTerminal(data: string)
    requires IsPanic(data)
    ensures Terminal(data)
  {
    assert data[..10] == data[..11][..10] == "RURI_PANIC";
  }

  /**
   Until the daemon stops, the file is exactly the last accepted packet: rejected packets
   and interrupts leave no trace.  It stops at the first end of file, read error or
   accepted panic, and whatever would have come later, a panic record is not overwritten.
   */
  lemma {:induction false} ServeIsLastAccepted(file: string, events: seq<Event>)
    ensures var k := StopIndex(events);
            Serve(file, events) ==
              if k == |events| then Outcome(LastAccepted(file, events), false)
              else if events[k].Packet? then Outcome(events[k].data, true)
              else Outcome(Fixed(LastAccepted(file, events[..k])), true)
    decreases |events|
  {
    hide IsPanic, Terminal, Accepts;
    var k := StopIndex(events);
    if events != [] && k > 0 {
      var e, rest := events[0], events[1..];
      assert events == [e] + rest;
      var next := React(file, e).file;
      ServeIsLastAccepted(next, rest);
      if k == |events| {
        LastAcceptedCons(file, e, rest);
      } else {
        assert events[..k] == [e] + rest[..k - 1];
        LastAcceptedCons(file, e, rest[..k - 1]);
      }
    } else if events != [] {
      assert events[..0] == [];
    }
  }

  /** A run that ended left a terminal record. */
  lemma RunEndsTerminal(file: string, events: seq<Event>)
    requires Serve(file, events).exited
    ensures Terminal(Serve(file, events).file)
  {
    hide Terminal, Accepts;
    ServeIsLastAccepted(file, events);
    var k := StopIndex(events);
    if events[k].Packet? {
      PanicIsTerminal(events[k].data);
    } else {
      FixedIsTerminal(LastAccepted(file, events[..k]));
    }
  }

  /** Serving more events after some that did not end the run. */
  lemma {:induction false} ServeSnoc(file: string, events: seq<Event>, e: Event)
    requires !Serve(file, events).exited
    ensures Serve(file, events + [e]) == React(Serve(file, events).file, e)
    decreases |events|
  {
    hide React;
    if events == [] {
      assert events + [e] == [e];
    } else {
      assert (events + [e])[1..] == events[1..] + [e];
      ServeSnoc(React(file, events[0]).file, events[1..], e);
    }
  }
}
