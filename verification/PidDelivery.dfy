/**
 What becomes of the packets that the writers send to the pid-file daemon, and of what the parent
 is told (src/watchdog.c:142-349), in every run of the protocol.
 */
module PidDelivery {
  import opened PidRecord
  import opened PidDaemon
  import opened PidProtocol
  import opened PidRuns

  /** All packets sent in these steps, in order. */
  function Sent(steps: seq<Step>): seq<string> {
    if steps == [] then [] else
    var s := steps[|steps| - 1];
    Sent(steps[..|steps| - 1]) + (if s.WriterSends? then [s.data] else [])
  }

  /** The packets among what was read. */
  function Packets(events: seq<Event>): seq<string> {
    if events == [] then [] else
    var e := events[|events| - 1];
    Packets(events[..|events| - 1]) + (if e.Packet? then [e.data] else [])
  }

  lemma PacketsSnoc(events: seq<Event>, e: Event)
    ensures Packets(events + [e]) == Packets(events) + (if e.Packet? then [e.data] else [])
  {
    assert (events + [e])[..|events|] == events;
  }

  /** One step of the run. */
  lemma LastStep(states: seq<State>, steps: seq<Step>, i: nat)
    requires IsRun(states, steps) && 0 < i < |states|
    ensures Enabled(states[i - 1], steps[i - 1]) && states[i] == Apply(states[i - 1], steps[i - 1])
    ensures Sent(steps[..i]) == Sent(steps[..i - 1])
                                + (if steps[i - 1].WriterSends? then [steps[i - 1].data] else [])
  {
    hide Apply, Enabled, Init;
    assert states[i - 1 + 1] == Apply(states[i - 1], steps[i - 1]);
    assert steps[..i][..i - 1] == steps[..i - 1];
  }

  lemma StepDelivers(s: State, step: Step)
    requires Enabled(s, step)
    ensures var t := Apply(s, step);
            Packets(t.taken) + t.queue ==
              Packets(s.taken) + s.queue + (if step.WriterSends? then [step.data] else [])
  {
    hide Apply, Enabled, Packets;
    TakenAndQueued(s, step);
    var t := Apply(s, step);
    if step.ReadPacket? {
      PacketsSnoc(s.taken, Packet(s.queue[0]));
      assert Packets(s.taken) + ([s.queue[0]] + s.queue[1..]) == Packets(s.taken) + [s.queue[0]] + s.queue[1..];
      assert s.queue == [s.queue[0]] + s.queue[1..];
    } else if t.taken != s.taken {
      PacketsSnoc(s.taken, t.taken[|s.taken|]);
      assert Packets(s.taken) + [] == Packets(s.taken);
    }
  }

  /** What a step reads, and what it sends. */
  lemma TakenAndQueued(s: State, step: Step)
    requires Enabled(s, step)
    ensures var t := Apply(s, step);
            if step.ReadPacket? then
              s.queue != [] && t.taken == s.taken + [Packet(s.queue[0])] && t.queue == s.queue[1..]
            else
              && t.queue == s.queue + (if step.WriterSends? then [step.data] else [])
              && (t.taken == s.taken
                  || (|t.taken| == |s.taken| + 1 && t.taken == s.taken + [t.taken[|s.taken|]]
                      && !t.taken[|s.taken|].Packet?))
  {
    hide Accepts, IsPanic, Terminal;
    assert s.queue + [] == s.queue;
  }

  /** No packet is lost, made up or overtaken: what was read and what is waiting is what was sent, in order. */
  lemma {:induction false} Delivery(states: seq<State>, steps: seq<Step>, i: nat)
    requires IsRun(states, steps) && i < |states|
    ensures Packets(states[i].taken) + states[i].queue == Sent(steps[..i])
  {
    hide Apply, Enabled;
    if i == 0 {
      assert steps[..0] == [];
    } else {
      hide Init;
      LastStep(states, steps, i);
      Delivery(states, steps, i - 1);
      StepDelivers(states[i - 1], steps[i - 1]);
    }
  }

  // ----- the end of file -----

  /** An end of file means that nobody can send any more, and nothing read came behind a stop. */
  ghost predicate EndInv(s: State) {
    && (Eof in s.taken ==> s.queue == [] && s.writers == 0)
    && forall k | 0 <= k < |s.taken| - 1 :: !Stops(s.taken[k])
  }

  lemma NoStopWhileServing(s: State)
    requires FileInv(s) && s.daemon == Serving
    ensures forall k | 0 <= k < |s.taken| :: !Stops(s.taken[k])
    ensures Eof !in s.taken
  {
    hide Serve, Stops;
    ServeIsLastAccepted(s.init, s.taken);
    assert Stops(Eof) by { EofStops(); }
  }

  lemma EofStops()
    ensures Stops(Eof)
  {
  }

  lemma EndStep(s: State, step: Step)
    requires Inv(s) && Enabled(s, step) && EndInv(s)
    ensures EndInv(Apply(s, step))
  {
    hide Serve, Stops, Accepts, IsPanic, Terminal;
    if step.ReadPacket? || step.ReadEof? || step.ReadError? || step.ReadInterrupted? {
      NoStopWhileServing(s);
    }
  }

  lemma {:induction false} EndIsTheEnd(states: seq<State>, steps: seq<Step>, i: nat)
    requires IsRun(states, steps) && i < |states|
    ensures EndInv(states[i])
  {
    hide Apply, Enabled, Inv, EndInv;
    if i == 0 {
      StartsEmpty(states[0]);
    } else {
      LastStep(states, steps, i);
      RunInv(states, steps, i - 1);
      EndIsTheEnd(states, steps, i - 1);
      EndStep(states[i - 1], steps[i - 1]);
    }
  }

  lemma StartsEmpty(s: State)
    requires Init(s)
    ensures EndInv(s)
  {
  }

  /** The last of these packets that gets through the filter. */
  function LastGood(init: string, packets: seq<string>): string {
    if packets == [] then init else
    var p := packets[|packets| - 1];
    if Accepts(p) then p else LastGood(init, packets[..|packets| - 1])
  }

  lemma {:induction false} LastGoodIs(init: string, events: seq<Event>)
    ensures LastAccepted(init, events) == LastGood(init, Packets(events))
  {
    hide Accepts;
    if events != [] {
      var m := |events| - 1;
      LastGoodIs(init, events[..m]);
      if events[m].Packet? {
        var ps := Packets(events[..m]);
        assert (ps + [events[m].data])[..|ps|] == ps;
      } else {
        assert Packets(events[..m]) + [] == Packets(events[..m]);
      }
    }
  }

  /**
   When the daemon is gone because of the end of file, the file tells the last thing that any
   writer managed to report: the last packet of all that were sent which the filter accepts, or
   an unknown exit if that was not the end of the container.
   */
  lemma LastReportStands(states: seq<State>, steps: seq<Step>, i: nat)
    requires IsRun(states, steps) && i < |states|
    requires states[i].daemon == Gone && states[i].okSent && Eof in states[i].taken
    ensures var last := LastGood(states[i].init, Sent(steps[..i]));
            states[i].file == if Terminal(last) then last else "RURI_EXIT_UNKNOWN\n"
  {
    hide IsRun, Serve, Terminal, Accepts, IsPanic, LastAccepted, LastGood, Sent, Packets;
    var s := states[i];
    RunInv(states, steps, i);
    EndIsTheEnd(states, steps, i);
    Delivery(states, steps, i);
    assert Packets(s.taken) + [] == Packets(s.taken);
    var m := |s.taken| - 1;
    EofStops();
    assert s.taken[m] == Eof;
    ServeIsLastAccepted(s.init, s.taken);
    assert StopIndex(s.taken) == m;
    assert s.taken == s.taken[..m] + [Eof];
    PacketsSnoc(s.taken[..m], Eof);
    assert Packets(s.taken[..m]) + [] == Packets(s.taken[..m]);
    LastGoodIs(s.init, s.taken[..m]);
  }

  // ----- the parent and the reader -----

  lemma OkOrGone(s: State, step: Step)
    requires Inv(s) && Enabled(s, step) && (s.parent == GotEof ==> s.daemon == Gone && !s.okSent)
    ensures var t := Apply(s, step); t.parent == GotEof ==> t.daemon == Gone && !t.okSent
  {
    hide Accepts, IsPanic, Terminal, FileInv;
  }

  /** The parent is told right: an OK was sent, an end of file means that the daemon gave up before it. */
  lemma {:induction false} ParentIsToldRight(states: seq<State>, steps: seq<Step>, i: nat)
    requires IsRun(states, steps) && i < |states|
    ensures states[i].parent == GotOk ==> states[i].okSent
    ensures states[i].parent == GotEof ==> states[i].daemon == Gone && !states[i].okSent
  {
    hide Apply, Enabled, Inv, FileInv;
    RunInv(states, steps, i);
    InvOk(states[i]);
    if i > 0 {
      LastStep(states, steps, i);
      RunInv(states, steps, i - 1);
      ParentIsToldRight(states, steps, i - 1);
      OkOrGone(states[i - 1], steps[i - 1]);
    }
  }

  lemma InvOk(s: State)
    requires Inv(s)
    ensures s.parent == GotOk ==> s.okSent
  {
  }

  /** The reader took the lock for the last time at step `j`. */
  ghost predicate LockedAt(steps: seq<Step>, i: nat, j: nat)
    requires i <= |steps|
  {
    j < i && steps[j] == ReaderLocks && forall k | j < k < i :: steps[k] != ReaderLocks
  }

  /** `afterOk` says whether the parent had its OK then. */
  lemma {:induction false} AfterOkMeans(states: seq<State>, steps: seq<Step>, i: nat)
    requires IsRun(states, steps) && i < |states|
    ensures states[i].reader.afterOk <==> exists j: nat :: LockedAt(steps, i, j) && states[j].parent == GotOk
  {
    hide Apply, Enabled;
    if i > 0 {
      LastStep(states, steps, i);
      AfterOkMeans(states, steps, i - 1);
      ReaderStep(states[i - 1], steps[i - 1]);
      if steps[i - 1] == ReaderLocks {
        assert LockedAt(steps, i, i - 1);
      } else {
        forall j: nat ensures LockedAt(steps, i, j) <==> LockedAt(steps, i - 1, j) {
        }
      }
    }
  }

  lemma ReaderStep(s: State, step: Step)
    requires Enabled(s, step)
    ensures Apply(s, step).reader.afterOk == if step == ReaderLocks then s.parent == GotOk else s.reader.afterOk
  {
    hide Accepts, IsPanic, Terminal;
  }
}
