/**
 What ruri_stat reads out of any pid file (src/ps.c:286-398), whoever wrote it: the record of a
 starting daemon, malformed and foreign records, and numbers beyond 64 bits.
 */
module PidStat {
  import opened Text
  import opened Number
  import opened PidRecord
  import opened PidDaemon

  /** The text begins with the number `v` and a newline right behind it. */
  ghost predicate FieldIs(s: string, v: int) {
    exists e: nat :: IsNumber(s, e, v) && e < |s| && s[e] == '\n'
  }

  /** A number as a 64-bit long. */
  function Cut64(v: int): int {
    if v < -0x8000_0000_0000_0000 then -0x8000_0000_0000_0000
    else if v > 0x7fff_ffff_ffff_ffff then 0x7fff_ffff_ffff_ffff else v
  }

  lemma FieldExactly(s: string)
    ensures forall v | FieldIs(s, v) :: Field(s) == Some(Cut64(v))
    ensures (forall v :: !FieldIs(s, v)) ==> Field(s) == None
  {
    hide ToLong, IsNumber;
    forall v | FieldIs(s, v) ensures Field(s) == Some(Cut64(v)) {
      var e: nat :| IsNumber(s, e, v) && e < |s| && s[e] == '\n';
      LongExactly(s, e, v);
      EndIsBehind(s, e, v);
    }
    if Field(s).Some? {
      NoNumber(s);
      var e: nat, v: int :| IsNumber(s, e, v);
      LongExactly(s, e, v);
      assert FieldIs(s, v);
    }
  }

  lemma EndIsBehind(s: string, e: nat, v: int)
    requires IsNumber(s, e, v)
    ensures e > 0
  {
  }

  const SECONDS_3 := 3_000_000_000

  /**
   The record of a daemon that has not got its first packet: initializing for three seconds,
   and taken for dead after that.
   */
  lemma StatReadsInit(nowNs: int, now: int, alive: bool)
    requires -0x8000_0000_0000_0000 <= nowNs <= 0x7fff_ffff_ffff_ffff
    ensures Stat(InitRecord(nowNs), now, alive) ==
            if nowNs <= 0 then InvalidInit
            else if now <= nowNs + SECONDS_3 then Initializing(now - nowNs) else Stale(now - nowNs)
  {
    hide Dec, Field, StartsWith;
    FieldOf(nowNs);
    var n := Dec(nowNs) + "\n";
    assert InitRecord(nowNs) == "RURI_INIT_" + n;
    Tagged("RURI_INIT_", n, "RURI_PANIC_", 5);
  }

  /** The same tag with anything behind it. */
  lemma StatOfInit(rest: string, now: int, alive: bool)
    ensures var r := Stat("RURI_INIT_" + rest, now, alive);
            && (forall v | FieldIs(rest, v) && v > 0 :: var ago := now - Cut64(v);
                  r == if ago <= SECONDS_3 then Initializing(ago) else Stale(ago))
            && ((forall v | FieldIs(rest, v) :: v <= 0) ==> r == InvalidInit)
  {
    hide Field, StartsWith, FieldIs;
    FieldExactly(rest);
    Tagged("RURI_INIT_", rest, "RURI_PANIC_", 5);
    forall v | FieldIs(rest, v) ensures Field(rest) == Some(Cut64(v)) {
    }
  }

  lemma StatOfPanic(rest: string, now: int, alive: bool)
    ensures Stat("RURI_PANIC_" + rest, now, alive) ==
            Panic(if |rest| >= 4 && rest[..4] == "EXEC" then Exec
                  else if |rest| >= 8 && rest[..8] == "INTERNAL" then Internal
                  else if |rest| >= 7 && rest[..7] == "TIMEOUT" then Timeout else NoReason)
  {
    PanicRecord(rest);
  }

  lemma StatOfExit(rest: string, now: int, alive: bool)
    ensures var r := Stat("RURI_EXITED_" + rest, now, alive);
            && (forall v | FieldIs(rest, v) :: r == ExitedWith(Cut64(v)))
            && ((forall v :: !FieldIs(rest, v)) ==> r == InvalidExit)
    ensures Stat("RURI_EXIT_UNKNOWN" + rest, now, alive) == UnknownExit
  {
    hide Field, StartsWith, FieldIs;
    FieldExactly(rest);
    Tagged("RURI_EXITED_", rest, "RURI_INIT_", 5);
    Tagged("RURI_EXITED_", rest, "RURI_PANIC_", 5);
    Tagged("RURI_EXIT_UNKNOWN", rest, "RURI_INIT_", 5);
    Tagged("RURI_EXIT_UNKNOWN", rest, "RURI_PANIC_", 5);
    Tagged("RURI_EXIT_UNKNOWN", rest, "RURI_EXITED_", 9);
    Tagged("RURI_EXIT_UNKNOWN", rest, "RURI_SIGNALED_", 5);
  }

  lemma StatOfSignal(rest: string, now: int, alive: bool)
    ensures var r := Stat("RURI_SIGNALED_" + rest, now, alive);
            && (forall v | FieldIs(rest, v) :: r == KilledBy(Cut64(v)))
            && ((forall v :: !FieldIs(rest, v)) ==> r == InvalidSignal)
  {
    hide Field, StartsWith, FieldIs;
    FieldExactly(rest);
    Tagged("RURI_SIGNALED_", rest, "RURI_INIT_", 5);
    Tagged("RURI_SIGNALED_", rest, "RURI_PANIC_", 5);
    Tagged("RURI_SIGNALED_", rest, "RURI_EXITED_", 5);
  }

  const TAGS := {"RURI_INIT_", "RURI_PANIC_", "RURI_EXITED_", "RURI_SIGNALED_", "RURI_EXIT_UNKNOWN"}

  /** A file without a tag is a pid, or nothing. */
  lemma StatOfPid(buf: string, now: int, alive: bool)
    requires forall t | t in TAGS :: !(t <= buf)
    ensures buf == "" ==> Stat(buf, now, alive) == NoRecord
    ensures forall v | FieldIs(buf, v) && v > 0 ::
              Stat(buf, now, alive) == if alive then Running(Cut64(v)) else NotRunning(Cut64(v))
    ensures buf != "" && (forall v | FieldIs(buf, v) :: v <= 0) ==> Stat(buf, now, alive) == InvalidPid
  {
    hide Field, FieldIs;
    FieldExactly(buf);
    assert "RURI_INIT_" in TAGS && "RURI_PANIC_" in TAGS && "RURI_EXITED_" in TAGS && "RURI_SIGNALED_" in TAGS
           && "RURI_EXIT_UNKNOWN" in TAGS;
    forall t: string ensures StartsWith(buf, t) <==> t <= buf {
    }
    if buf == "" {
      NothingIsNoNumber();
    }
  }

  lemma NothingIsNoNumber()
    ensures forall v :: !FieldIs("", v)
  {
  }

  /** The daemon lets exactly the ASCII letters, digits, `_` and newlines through. */
  lemma FilterExactly(data: string)
    ensures Accepts(data) <==>
            forall c | c in data ::
              var n := c as int; n == 10 || 48 <= n <= 57 || 65 <= n <= 90 || n == 95 || 97 <= n <= 122
  {
    assert forall i | 0 <= i < |data| :: data[i] in data;
    if Accepts(data) {
      forall c | c in data ensures Allowed(c) {
        var i :| 0 <= i < |data| && data[i] == c;
      }
    }
  }

  /** What ends the daemon's loop. */
  lemma StopsExactly(e: Event)
    ensures PidDaemon.Stops(e) <==>
            e.Eof? || e.Failure? || (e.Packet? && Accepts(e.data) && "RURI_PANIC_" <= e.data)
  {
  }

  // ----- runs in which nobody reports an end -----

  lemma {:induction false} NothingReported(file: string, events: seq<Event>)
    requires !Terminal(file) && forall e | e in events && e.Packet? && Accepts(e.data) :: !Terminal(e.data)
    ensures !Terminal(LastAccepted(file, events))
  {
    hide Terminal, Accepts;
    if events != [] {
      var m := |events| - 1;
      assert events[m] in events && forall e | e in events[..m] :: e in events;
      NothingReported(file, events[..m]);
    }
  }

  /**
   A run that ends without any accepted terminal record leaves the record of an unknown exit, and
   ruri_stat reads it as that.
   */
  lemma SilentRun(file: string, events: seq<Event>, now: int, alive: bool)
    requires Serve(file, events).exited && !Terminal(file)
    requires forall e | e in events && e.Packet? && Accepts(e.data) :: !Terminal(e.data)
    ensures Serve(file, events).file == "RURI_EXIT_UNKNOWN\n"
    ensures Stat(Serve(file, events).file, now, alive) == UnknownExit
  {
    hide Terminal, Accepts, Stat;
    ServeIsLastAccepted(file, events);
    var k := StopIndex(events);
    if events[k].Packet? {
      PanicIsTerminal(events[k].data);
      assert false;
    }
    NothingReported(file, events[..k]);
    UnknownIsUnknown(now, alive);
  }

  lemma UnknownIsUnknown(now: int, alive: bool)
    ensures Stat("RURI_EXIT_UNKNOWN\n", now, alive) == UnknownExit
  {
    StatOfExit("\n", now, alive);
    assert "RURI_EXIT_UNKNOWN" + "\n" == "RURI_EXIT_UNKNOWN\n";
  }
}
