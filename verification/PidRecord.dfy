/**
 The records of the pid file: what ruri_pid_file_write sends (src/watchdog.c:46-85), what
 the daemon lets through (src/watchdog.c:265-271), and what ruri_stat reads out of the file
 (src/ps.c:286-398).
 */
module PidRecord {
  import opened Text
  import opened Number

  /** enum RURI_PID_FILE_REQ, without the INIT request that sends nothing. */
  datatype Request = Pid | PanicExec | PanicInternal | PanicTimeout | Exited | Signaled | Unknown

  function Message(req: Request, arg: int): string {
    match req
    case Pid => Dec(arg) + "\n"
    case PanicExec => "RURI_PANIC_EXE\n"
    case PanicInternal => "RURI_PANIC_INTERNAL\n"
    case PanicTimeout => "RURI_PANIC_TIMEOUT\n"
    case Exited => "RURI_EXITED_" + (Dec(arg) + "\n")
    case Signaled => "RURI_SIGNALED_" + (Dec(arg) + "\n")
    case Unknown => "RURI_EXIT_UNKNOWN\n"
  }

  // ----- the daemon's filter -----

  predicate Allowed(c: char) {
    IsDigit(c) || 'a' <= c <= 'z' || 'A' <= c <= 'Z' || c == '_' || c == '\n'
  }

  predicate Accepts(data: string) {
    forall i | 0 <= i < |data| :: Allowed(data[i])
  }

  method PassesFilter(buf: string) returns (ok: bool)
    ensures ok == Accepts(buf)
  {
    for i := 0 to |buf|
      invariant forall k | 0 <= k < i :: Allowed(buf[k])
    {
      if !Allowed(buf[i]) {
        return false;
      }
    }
    ok := true;
  }

  predicate HasArgument(req: Request) {
    req.Pid? || req.Exited? || req.Signaled?
  }

  lemma AcceptsAppend(a: string, b: string)
    ensures Accepts(a + b) <==> Accepts(a) && Accepts(b)
  {
    if Accepts(a + b) {
      assert forall i | 0 <= i < |a| :: a[i] == (a + b)[i];
      assert forall i | 0 <= i < |b| :: b[i] == (a + b)[|a| + i];
    }
  }

  lemma NumberAccepted(arg: int)
    ensures Accepts(Dec(arg) + "\n") <==> arg >= 0
  {
    AcceptsAppend(Dec(arg), "\n");
    assert arg < 0 ==> !Allowed(Dec(arg)[0]);
  }

  /** A message gets through the filter exactly when it carries no negative argument. */
  lemma MessageAccepted(req: Request, arg: int)
    ensures Accepts(Message(req, arg)) <==> (HasArgument(req) ==> arg >= 0)
  {
    hide Dec;
    NumberAccepted(arg);
    AcceptsAppend("RURI_EXITED_", Dec(arg) + "\n");
    AcceptsAppend("RURI_SIGNALED_", Dec(arg) + "\n");
  }

  // ----- ruri_stat -----

  datatype Reason = Exec | Internal | Timeout | NoReason

  datatype Verdict =
    | NoRecord
    | InvalidInit | Initializing(ago: int) | Stale(ago: int)
    | Panic(reason: Reason)
    | InvalidExit | ExitedWith(code: int)
    | InvalidSignal | KilledBy(signal: int)
    | UnknownExit
    | InvalidPid | Running(pid: int) | NotRunning(pid: int)

  /** A number and a newline after it, as strtol and the endptr check see them. */
  function Field(s: string): Option<int> {
    var r := ToLong(s);
    if r.end == 0 || r.end == |s| || s[r.end] != '\n' then None else Some(r.value)
  }

  /** The branches of ruri_stat, on the file's text, the time now and whether /proc/<pid>/stat is there. */
  function Stat(buf: string, now: int, alive: bool): Verdict {
    if buf == "" then NoRecord
    else if StartsWith(buf, "RURI_INIT_") then
      match Field(buf[10..])
      case None => InvalidInit
      case Some(t) => if t <= 0 then InvalidInit else if now - t > 3000000000 then Stale(now - t)
              else Initializing(now - t)
    else if StartsWith(buf, "RURI_PANIC_") then
      var reason := buf[11..];
      Panic(if StartsWith(reason, "EXEC") then Exec
            else if StartsWith(reason, "INTERNAL") then Internal
            else if StartsWith(reason, "TIMEOUT") then Timeout
            else NoReason)
    else if StartsWith(buf, "RURI_EXITED_") then
      match Field(buf[12..])
      case None => InvalidExit
      case Some(code) => ExitedWith(code)
    else if StartsWith(buf, "RURI_SIGNALED_") then
      match Field(buf[14..])
      case None => InvalidSignal
      case Some(n) => KilledBy(n)
    else if StartsWith(buf, "RURI_EXIT_UNKNOWN") then UnknownExit
    else
      match Field(buf)
      case None => InvalidPid
      case Some(pid) => if pid <= 0 then InvalidPid else if alive then Running(pid) else NotRunning(pid)
  }

  lemma FieldOf(arg: int)
    requires LONG_MIN <= arg <= LONG_MAX
    ensures Field(Dec(arg) + "\n") == Some(arg)
  {
    hide Dec, ToLong;
    ReadBack(arg, "\n");
    assert (Dec(arg) + "\n")[|Dec(arg)|] == '\n';
  }

  lemma Differs(s: string, tag: string, k: nat)
    requires k < |tag| && k < |s| && s[k] != tag[k]
    ensures !StartsWith(s, tag)
  {
    assert |tag| <= |s| ==> s[..|tag|][k] == s[k];
  }

  lemma NotATag(arg: int, tag: string)
    requires tag != "" && tag[0] == 'R'
    ensures !StartsWith(Dec(arg) + "\n", tag)
  {
    assert (Dec(arg) + "\n")[0] == Dec(arg)[0];
    Differs(Dec(arg) + "\n", tag, 0);
  }

  /** A tag is found at the front of a text, and no other tag that differs from it early enough. */
  lemma Tagged(tag: string, rest: string, other: string, k: nat)
    requires k < |tag| && k < |other| && tag[k] != other[k]
    ensures StartsWith(tag + rest, tag) && (tag + rest)[|tag|..] == rest && !StartsWith(tag + rest, other)
  {
    assert (tag + rest)[..|tag|] == tag;
    assert (tag + rest)[k] == tag[k];
    Differs(tag + rest, other, k);
  }

  /**
   Every message is classified by its kind, and its argument comes back.  A pid of 0 is
   refused, and the record of a failed exec has lost the C that its reason needs.
   */
  lemma StatReadsMessage(req: Request, arg: int, now: int, alive: bool)
    requires 0 <= arg <= LONG_MAX
    ensures Stat(Message(req, arg), now, alive) ==
            match req
            case Pid => if arg == 0 then InvalidPid else if alive then Running(arg) else NotRunning(arg)
            case PanicExec => Panic(NoReason)
            case PanicInternal => Panic(Internal)
            case PanicTimeout => Panic(Timeout)
            case Exited => ExitedWith(arg)
            case Signaled => KilledBy(arg)
            case Unknown => UnknownExit
  {
    hide Dec, Field, StartsWith;
    FieldOf(arg);
    var n := Dec(arg) + "\n";
    match req {
      case Pid => PidIsNoTag(arg);
      case Exited =>
        Tagged("RURI_EXITED_", n, "RURI_INIT_", 5);
        Tagged("RURI_EXITED_", n, "RURI_PANIC_", 5);
      case Signaled =>
        Tagged("RURI_SIGNALED_", n, "RURI_INIT_", 5);
        Tagged("RURI_SIGNALED_", n, "RURI_PANIC_", 5);
        Tagged("RURI_SIGNALED_", n, "RURI_EXITED_", 5);
      case _ => FixedMessages();
    }
  }

  lemma PidIsNoTag(arg: int)
    ensures var n := Dec(arg) + "\n";
            && !StartsWith(n, "RURI_INIT_") && !StartsWith(n, "RURI_PANIC_") && !StartsWith(n, "RURI_EXITED_")
            && !StartsWith(n, "RURI_SIGNALED_") && !StartsWith(n, "RURI_EXIT_UNKNOWN")
            && !StartsWith(n, "RURI_EXIT") && !StartsWith(n, "RURI_SIGNALED") && !StartsWith(n, "RURI_PANIC")
  {
    hide Dec, StartsWith;
    NotATag(arg, "RURI_INIT_");
    NotATag(arg, "RURI_PANIC_");
    NotATag(arg, "RURI_EXITED_");
    NotATag(arg, "RURI_SIGNALED_");
    NotATag(arg, "RURI_EXIT_UNKNOWN");
    NotATag(arg, "RURI_EXIT");
    NotATag(arg, "RURI_SIGNALED");
    NotATag(arg, "RURI_PANIC");
  }

  lemma FixedMessages()
    ensures var m := "RURI_PANIC_EXE\n";
            m[11..] == "EXE\n" && StartsWith(m, "RURI_PANIC_") && !StartsWith(m, "RURI_INIT_")
    ensures var m := "RURI_PANIC_INTERNAL\n";
            m[11..] == "INTERNAL\n" && StartsWith(m, "RURI_PANIC_") && !StartsWith(m, "RURI_INIT_")
    ensures var m := "RURI_PANIC_TIMEOUT\n";
            m[11..] == "TIMEOUT\n" && StartsWith(m, "RURI_PANIC_") && !StartsWith(m, "RURI_INIT_")
    ensures !StartsWith("EXE\n", "EXEC") && !StartsWith("EXE\n", "INTERNAL") && !StartsWith("EXE\n", "TIMEOUT")
    ensures !StartsWith("INTERNAL\n", "EXEC") && StartsWith("INTERNAL\n", "INTERNAL")
    ensures !StartsWith("TIMEOUT\n", "EXEC") && !StartsWith("TIMEOUT\n", "INTERNAL")
            && StartsWith("TIMEOUT\n", "TIMEOUT")
    ensures var m := "RURI_EXIT_UNKNOWN\n";
            && StartsWith(m, "RURI_EXIT_UNKNOWN") && !StartsWith(m, "RURI_INIT_") && !StartsWith(m, "RURI_PANIC_")
            && !StartsWith(m, "RURI_EXITED_") && !StartsWith(m, "RURI_SIGNALED_")
  {
    hide StartsWith;
    PanicRecord("EXE\n");
    PanicRecord("INTERNAL\n");
    PanicRecord("TIMEOUT\n");
    assert "RURI_PANIC_EXE\n" == "RURI_PANIC_" + "EXE\n";
    assert "RURI_PANIC_INTERNAL\n" == "RURI_PANIC_" + "INTERNAL\n";
    assert "RURI_PANIC_TIMEOUT\n" == "RURI_PANIC_" + "TIMEOUT\n";
    Reasons();
    UnknownRecord();
  }

  lemma PanicRecord(reason: string)
    ensures var m := "RURI_PANIC_" + reason;
            m[11..] == reason && StartsWith(m, "RURI_PANIC_") && !StartsWith(m, "RURI_INIT_")
  {
    Tagged("RURI_PANIC_", reason, "RURI_INIT_", 5);
  }

  lemma Reasons()
    ensures !StartsWith("EXE\n", "EXEC") && !StartsWith("EXE\n", "INTERNAL") && !StartsWith("EXE\n", "TIMEOUT")
    ensures !StartsWith("INTERNAL\n", "EXEC") && StartsWith("INTERNAL\n", "INTERNAL")
    ensures !StartsWith("TIMEOUT\n", "EXEC") && !StartsWith("TIMEOUT\n", "INTERNAL")
            && StartsWith("TIMEOUT\n", "TIMEOUT")
  {
    hide StartsWith;
    Differs("EXE\n", "EXEC", 3);
    Differs("EXE\n", "INTERNAL", 0);
    Differs("EXE\n", "TIMEOUT", 0);
    Tagged("INTERNAL", "\n", "EXEC", 0);
    Tagged("TIMEOUT", "\n", "EXEC", 0);
    assert "INTERNAL\n" == "INTERNAL" + "\n" && "TIMEOUT\n" == "TIMEOUT" + "\n";
    Differs("TIMEOUT\n", "INTERNAL", 0);
  }

  lemma UnknownRecord()
    ensures var m := "RURI_EXIT_UNKNOWN\n";
            && StartsWith(m, "RURI_EXIT_UNKNOWN") && !StartsWith(m, "RURI_INIT_") && !StartsWith(m, "RURI_PANIC_")
            && !StartsWith(m, "RURI_EXITED_") && !StartsWith(m, "RURI_SIGNALED_")
  {
    hide StartsWith;
    Tagged("RURI_EXIT_UNKNOWN", "\n", "RURI_INIT_", 5);
    Tagged("RURI_EXIT_UNKNOWN", "\n", "RURI_PANIC_", 5);
    Tagged("RURI_EXIT_UNKNOWN", "\n", "RURI_EXITED_", 9);
    Tagged("RURI_EXIT_UNKNOWN", "\n", "RURI_SIGNALED_", 5);
    assert "RURI_EXIT_UNKNOWN\n" == "RURI_EXIT_UNKNOWN" + "\n";
  }

  // ----- terminal records -----

  /** The three strncmp tests the daemon makes before it closes the file. */
  predicate Terminal(file: string) {
    StartsWith(file, "RURI_EXIT") || StartsWith(file, "RURI_SIGNALED") || StartsWith(file, "RURI_PANIC")
  }

  /** Of all messages only the running pid is not terminal. */
  lemma TerminalMessages(req: Request, arg: int)
    ensures Terminal(Message(req, arg)) <==> !req.Pid?
  {
    hide Dec, StartsWith;
    PidIsNoTag(arg);
    var n := Dec(arg) + "\n";
    Tagged("RURI_EXIT", "ED_" + n, "RURI_PANIC", 5);
    assert "RURI_EXITED_" + n == "RURI_EXIT" + ("ED_" + n);
    Tagged("RURI_SIGNALED", "_" + n, "RURI_PANIC", 5);
    assert "RURI_SIGNALED_" + n == "RURI_SIGNALED" + ("_" + n);
    Tagged("RURI_EXIT", "_UNKNOWN\n", "RURI_PANIC", 5);
    assert "RURI_EXIT_UNKNOWN\n" == "RURI_EXIT" + "_UNKNOWN\n";
    PanicsAreTerminal("EXE\n");
    PanicsAreTerminal("INTERNAL\n");
    PanicsAreTerminal("TIMEOUT\n");
    assert "RURI_PANIC_EXE\n" == "RURI_PANIC_" + "EXE\n";
    assert "RURI_PANIC_INTERNAL\n" == "RURI_PANIC_" + "INTERNAL\n";
    assert "RURI_PANIC_TIMEOUT\n" == "RURI_PANIC_" + "TIMEOUT\n";
  }

  lemma PanicsAreTerminal(rest: string)
    ensures StartsWith("RURI_PANIC_" + rest, "RURI_PANIC")
  {
    assert ("RURI_PANIC_" + rest)[..10] == "RURI_PANIC";
  }
}
