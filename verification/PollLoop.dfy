/**
 The poll loop of cth_exec_block (build.c:1122-1362): three pipes in a pollfd array that
 is compacted in place while three index variables go on naming its entries.
 */
module PollLoop {

  type byte = bv8

  datatype Pipe = Stdin | Stdout | Stderr

  /** revents of one pollfd. */
  datatype Events = Events(pollIn: bool, pollOut: bool, hupErr: bool)

  datatype PollFd = PollFd(fd: Pipe, revents: Events)

  datatype WriteResult = Wrote(space: nat) | WouldBlock | WriteError

  /**
   What the system calls of one turn come back with.  A write takes as much as there is
   space for, a read gives as much as fits; no data means end of file or an error.
   */
  datatype Kernel =
    | Interrupted
    | PollFails
    | Ready(stdin: Events, stdout: Events, stderr: Events, write: WriteResult, outData: seq<byte>, errData: seq<byte>)

  /** What poll reports about one pipe. */
  function Revents(fd: Pipe, k: Kernel): Events
    requires k.Ready?
  {
    match fd
    case Stdin => k.stdin
    case Stdout => k.stdout
    case Stderr => k.stderr
  }

  function Min(a: nat, b: nat): nat {
    if a < b then a else b
  }

  // ----- the loop without indices -----

  /** Which pipes are open, how much input is gone, and what was captured. */
  datatype Abstract = Abstract(stdin: bool, stdout: bool, stderr: bool, sent: nat, out: seq<byte>, err: seq<byte>)

  predicate AnyOpen(a: Abstract) {
    a.stdin || a.stdout || a.stderr
  }

  /** Nothing that a turn does can be taken back. */
  predicate Later(a: Abstract, b: Abstract) {
    && (b.stdin ==> a.stdin) && (b.stdout ==> a.stdout) && (b.stderr ==> a.stderr)
    && a.sent <= b.sent && a.out <= b.out && a.err <= b.err
    && (!a.stdin ==> b.sent == a.sent) && (!a.stdout ==> b.out == a.out) && (!a.stderr ==> b.err == a.err)
  }

  /** The write to stdin; `skip` is the `continue` on a full pipe. */
  function WriteTurn(a: Abstract, input: seq<byte>, chunk: nat, k: Kernel): (r: (Abstract, bool))
    requires k.Ready? && a.sent <= |input|
    ensures r.0.sent <= |input| && Later(a, r.0)
    ensures r.0.stdout == a.stdout && r.0.stderr == a.stderr && r.0.out == a.out && r.0.err == a.err
  {
    if !a.stdin || !k.stdin.pollOut then (a, false)
    else
      var n := if k.write.Wrote? then Min(k.write.space, Min(chunk, |input| - a.sent)) else 0;
      if n > 0 then (a.(sent := a.sent + n, stdin := a.sent + n < |input|), false)
      else if k.write.WouldBlock? then (a, true)
      else (a.(stdin := false), false)
  }

  /** The stdin part of a turn: the write, and then a hang-up unless the turn is skipped. */
  function StdinTurn(a: Abstract, input: seq<byte>, chunk: nat, k: Kernel): (r: (Abstract, bool))
    requires k.Ready? && a.sent <= |input|
    ensures r.0.sent <= |input| && Later(a, r.0)
    ensures r.0.stdout == a.stdout && r.0.stderr == a.stderr && r.0.out == a.out && r.0.err == a.err
  {
    var w := WriteTurn(a, input, chunk, k);
    if w.1 then w else (w.0.(stdin := w.0.stdin && !k.stdin.hupErr), false)
  }

  /** One output pipe in a turn: data is appended, end of file and hang-up close it. */
  function ReadTurn(isOpen: bool, captured: seq<byte>, ev: Events, data: seq<byte>, chunk: nat): (r: (bool, seq<byte>))
    ensures r.0 ==> isOpen
    ensures captured <= r.1 && (!isOpen ==> r.1 == captured)
  {
    if !isOpen then (false, captured)
    else if !ev.pollIn then (!ev.hupErr, captured)
    else
      var n := Min(|data|, chunk);
      (n > 0 && !ev.hupErr, if n > 0 then captured + data[..n] else captured)
  }

  function StdoutTurn(a: Abstract, chunk: nat, k: Kernel): (r: Abstract)
    requires k.Ready?
    ensures Later(a, r) && r.sent == a.sent
  {
    var o := ReadTurn(a.stdout, a.out, k.stdout, k.outData, chunk);
    a.(stdout := o.0, out := o.1)
  }

  function StderrTurn(a: Abstract, chunk: nat, k: Kernel): (r: Abstract)
    requires k.Ready?
    ensures Later(a, r) && r.sent == a.sent
  {
    var e := ReadTurn(a.stderr, a.err, k.stderr, k.errData, chunk);
    a.(stderr := e.0, err := e.1)
  }

  function Turn(a: Abstract, input: seq<byte>, chunk: nat, k: Kernel): (r: Abstract)
    requires k.Ready? && a.sent <= |input|
    ensures Later(a, r) && r.sent <= |input|
  {
    var s := StdinTurn(a, input, chunk, k);
    if s.1 then s.0 else StderrTurn(StdoutTurn(s.0, chunk, k), chunk, k)
  }

  /**
   The loop: until no pipe is open or poll fails.  Pipes only close, input only advances
   and never past its end, captured bytes stay and grow at the end, and a closed pipe's
   share never changes again.
   */
  function Loop(a: Abstract, input: seq<byte>, chunk: nat, ks: seq<Kernel>): (r: Abstract)
    requires a.sent <= |input|
    ensures Later(a, r) && r.sent <= |input|
    decreases |ks|
  {
    if !AnyOpen(a) || ks == [] || ks[0].PollFails? then a
    else if ks[0].Interrupted? then Loop(a, input, chunk, ks[1..])
    else Loop(Turn(a, input, chunk, ks[0]), input, chunk, ks[1..])
  }

  function Started(hasInput: bool, getOutput: bool): Abstract {
    Abstract(hasInput, getOutput, getOutput, 0, [], [])
  }

  /** The child closed its end, or would not take a byte. */
  predicate Refuses(k: Kernel) {
    k.Ready? && (k.stdin.hupErr || k.write == Wrote(0) || k.write == WriteError)
  }

  /** As long as the child goes on reading, stdin is closed only when all input is through. */
  lemma {:induction false} AllInputSent(a: Abstract, input: seq<byte>, chunk: nat, ks: seq<Kernel>)
    requires a.stdin && a.sent <= |input| && chunk > 0
    requires forall k | k in ks :: !Refuses(k)
    ensures !Loop(a, input, chunk, ks).stdin ==> Loop(a, input, chunk, ks).sent == |input|
    decreases |ks|
  {
    if ks != [] && !ks[0].PollFails? {
      assert !Refuses(ks[0]) && forall k | k in ks[1..] :: k in ks;
      var b := if ks[0].Interrupted? then a else Turn(a, input, chunk, ks[0]);
      if b.stdin {
        AllInputSent(b, input, chunk, ks[1..]);
      }
    }
  }

  // ----- the loop as it is -----

  class ExecLoop {
    const input: seq<byte>
    const chunk: nat
    const pfds: array<PollFd>
    var nfds: nat
    var stdinIdx: int
    var stdoutIdx: int
    var stderrIdx: int
    var inputWritten: nat
    ghost var sentBytes: seq<byte>
    var stdoutBuf: seq<byte>   // the first stdout_size bytes
    var stdoutCap: nat
    var stderrBuf: seq<byte>
    var stderrCap: nat

    /** An index that is not -1 names the pollfd of its own pipe. */
    ghost predicate Names(idx: int, pipe: Pipe)
      reads this, pfds
    {
      idx == -1 || (0 <= idx < nfds <= pfds.Length && pfds[idx].fd == pipe)
    }

    /**
     The open indices ascend and cover exactly 0..nfds, whatever was removed before:
     stdin comes first, so removing an output pipe never moves it.
     */
    ghost predicate Indices()
      reads this, pfds
    {
      && pfds.Length == 3
      && Names(stdinIdx, Stdin) && Names(stdoutIdx, Stdout) && Names(stderrIdx, Stderr)
      && (stdinIdx != -1 ==> stdinIdx == 0)
      && (stdoutIdx != -1 ==> stdoutIdx == if stdinIdx != -1 then 1 else 0)
      && (stderrIdx != -1 ==> stderrIdx == (if stdinIdx != -1 then 1 else 0) + if stdoutIdx != -1 then 1 else 0)
      && nfds == (if stdinIdx != -1 then 1 else 0) + (if stdoutIdx != -1 then 1 else 0) + (if stderrIdx != -1 then 1
              else 0)
    }

    ghost predicate Valid()
      reads this, pfds
    {
      && Indices() && chunk > 0
      && inputWritten <= |input| && sentBytes == input[..inputWritten]
      && RoomInvariant(|stdoutBuf|, stdoutCap) && RoomInvariant(|stderrBuf|, stderrCap)
    }

    /** A capture buffer is empty or has been grown by doubling from one chunk. */
    ghost predicate RoomInvariant(size: nat, cap: nat) {
      size <= cap && (cap == 0 || cap >= chunk)
    }

    ghost function Abs(): Abstract
      reads this
    {
      Abstract(stdinIdx != -1, stdoutIdx != -1, stderrIdx != -1, inputWritten, stdoutBuf, stderrBuf)
    }

    /** The revents of this turn, for the pipes that are still in the array. */
    ghost predicate Polled(k: Kernel)
      reads this, pfds
      requires Indices() && k.Ready?
    {
      && (stdinIdx != -1 ==> pfds[stdinIdx].revents == k.stdin)
      && (stdoutIdx != -1 ==> pfds[stdoutIdx].revents == k.stdout)
      && (stderrIdx != -1 ==> pfds[stderrIdx].revents == k.stderr)
    }

    constructor (input: seq<byte>, hasInput: bool, getOutput: bool, chunk: nat)
      requires chunk > 0
      ensures Valid() && Abs() == Started(hasInput, getOutput)
      ensures this.input == input && this.chunk == chunk && fresh(pfds)
    {
      this.input, this.chunk := input, chunk;
      pfds := new PollFd[3](_ => PollFd(Stdin, Events(false, false, false)));
      nfds, stdinIdx, stdoutIdx, stderrIdx := 0, -1, -1, -1;
      inputWritten, sentBytes := 0, [];
      stdoutBuf, stdoutCap, stderrBuf, stderrCap := [], 0, [], 0;
      new;
      if hasInput {
        pfds[nfds] := PollFd(Stdin, Events(false, false, false));
        stdinIdx, nfds := nfds, nfds + 1;
      }
      if getOutput {
        pfds[nfds] := PollFd(Stdout, Events(false, false, false));
        stdoutIdx, nfds := nfds, nfds + 1;
        pfds[nfds] := PollFd(Stderr, Events(false, false, false));
        stderrIdx, nfds := nfds, nfds + 1;
      }
    }

    /** The loop that closes the gap at `idx`. */
    method ShiftDown(idx: nat)
      requires idx < nfds <= pfds.Length
      modifies this`nfds, pfds
      ensures nfds == old(nfds) - 1
      ensures forall j | 0 <= j < idx :: pfds[j] == old(pfds[j])
      ensures forall j | idx <= j < nfds :: pfds[j] == old(pfds[j + 1])
    {
      var i := idx + 1;
      while i < nfds
        invariant idx + 1 <= i <= nfds == old(nfds)
        invariant forall j | 0 <= j < idx :: pfds[j] == old(pfds[j])
        invariant forall j | idx <= j < i - 1 :: pfds[j] == old(pfds[j + 1])
        invariant forall j | i <= j < nfds :: pfds[j] == old(pfds[j])
      {
        pfds[i - 1] := pfds[i];
        i := i + 1;
      }
      nfds := nfds - 1;
    }

    method RemoveStdin(ghost k: Kernel)
      requires Valid() && k.Ready? && Polled(k) && stdinIdx != -1
      modifies this`nfds, this`stdinIdx, this`stdoutIdx, this`stderrIdx, pfds
      ensures Valid() && Polled(k) && Abs() == old(Abs()).(stdin := false)
    {
      ShiftDown(stdinIdx);
      if stdoutIdx > stdinIdx {
        stdoutIdx := stdoutIdx - 1;
      }
      if stderrIdx > stdinIdx {
        stderrIdx := stderrIdx - 1;
      }
      stdinIdx := -1;
    }

    method RemoveStdout(ghost k: Kernel)
      requires Valid() && k.Ready? && Polled(k) && stdoutIdx != -1
      modifies this`nfds, this`stdoutIdx, this`stderrIdx, pfds
      ensures Valid() && Polled(k) && Abs() == old(Abs()).(stdout := false)
    {
      ShiftDown(stdoutIdx);
      if stderrIdx > stdoutIdx {
        stderrIdx := stderrIdx - 1;
      }
      stdoutIdx := -1;
    }

    method RemoveStderr(ghost k: Kernel)
      requires Valid() && k.Ready? && Polled(k) && stderrIdx != -1
      modifies this`nfds, this`stderrIdx, pfds
      ensures Valid() && Polled(k) && Abs() == old(Abs()).(stderr := false)
    {
      ShiftDown(stderrIdx);
      stderrIdx := -1;
    }

    /** poll(pfds, nfds, -1) fills in the revents of the first nfds entries. */
    method Poll(k: Kernel)
      requires Valid() && k.Ready?
      modifies pfds
      ensures Valid() && Polled(k) && Abs() == old(Abs())
    {
      for i := 0 to nfds
        invariant Indices()
        invariant forall j | 0 <= j < i :: pfds[j].revents == Revents(pfds[j].fd, k)
      {
        pfds[i] := pfds[i].(revents := Revents(pfds[i].fd, k));
      }
    }

    /** The first n bytes of the rest of the input went into the pipe. */
    method Advance(n: nat)
      requires inputWritten + n <= |input| && sentBytes == input[..inputWritten]
      modifies this`inputWritten, this`sentBytes
      ensures inputWritten == old(inputWritten) + n && sentBytes == input[..inputWritten]
    {
      sentBytes := sentBytes + input[inputWritten..inputWritten + n];
      inputWritten := inputWritten + n;
    }

    method WriteStdin(k: Kernel) returns (skip: bool)
      requires Valid() && k.Ready? && Polled(k)
      modifies this`nfds, this`stdinIdx, this`stdoutIdx, this`stderrIdx, this`inputWritten, this`sentBytes, pfds
      ensures Valid() && (Abs(), skip) == WriteTurn(old(Abs()), input, chunk, k)
      ensures Polled(k)
    {
      skip := false;
      if stdinIdx != -1 && pfds[stdinIdx].revents.pollOut {
        var remain := |input| - inputWritten;
        var count := if remain > chunk then chunk else remain;
        var n := if k.write.Wrote? then Min(k.write.space, count) else -1;
        if n > 0 {
          Advance(n);
          if inputWritten >= |input| {
            RemoveStdin(k);
          }
        } else if n < 0 && k.write.WouldBlock? {
          return true;
        } else {
          RemoveStdin(k);
        }
      }
    }

    method ServeStdin(k: Kernel) returns (skip: bool)
      requires Valid() && k.Ready? && Polled(k)
      modifies this`nfds, this`stdinIdx, this`stdoutIdx, this`stderrIdx, this`inputWritten, this`sentBytes, pfds
      ensures Valid() && (Abs(), skip) == StdinTurn(old(Abs()), input, chunk, k)
      ensures Polled(k)
    {
      hide WriteTurn;
      skip := WriteStdin(k);
      if skip {
        return;
      }
      if stdinIdx != -1 && pfds[stdinIdx].revents.hupErr {
        RemoveStdin(k);
      }
    }

    /** Doubling until now has left less than a chunk: double once more. */
    method Grow(size: nat, cap: nat) returns (newCap: nat)
      requires chunk > 0 && RoomInvariant(size, cap)
      ensures RoomInvariant(size, newCap) && newCap - size >= chunk
      ensures newCap == if cap - size >= chunk then cap else if cap == 0 then chunk else 2 * cap
    {
      newCap := cap;
      if cap - size < chunk {
        newCap := if cap > 0 then cap * 2 else chunk;
      }
    }

    method ReadStdout(k: Kernel)
      requires Valid() && k.Ready? && Polled(k)
      modifies this`nfds, this`stdoutIdx, this`stderrIdx, this`stdoutBuf, this`stdoutCap, pfds
      ensures Valid() && Polled(k)
      ensures Abs() == StdoutTurn(old(Abs()), chunk, k)
    {
      if stdoutIdx != -1 && pfds[stdoutIdx].revents.pollIn {
        stdoutCap := Grow(|stdoutBuf|, stdoutCap);
        var n := Min(|k.outData|, chunk);
        if n > 0 {
          stdoutBuf := stdoutBuf + k.outData[..n];
        } else {
          RemoveStdout(k);
        }
      }
      if stdoutIdx != -1 && pfds[stdoutIdx].revents.hupErr {
        RemoveStdout(k);
      }
    }

    method ReadStderr(k: Kernel)
      requires Valid() && k.Ready? && Polled(k)
      modifies this`nfds, this`stderrIdx, this`stderrBuf, this`stderrCap, pfds
      ensures Valid() && Polled(k)
      ensures Abs() == StderrTurn(old(Abs()), chunk, k)
    {
      if stderrIdx != -1 && pfds[stderrIdx].revents.pollIn {
        stderrCap := Grow(|stderrBuf|, stderrCap);
        var n := Min(|k.errData|, chunk);
        if n > 0 {
          stderrBuf := stderrBuf + k.errData[..n];
        } else {
          RemoveStderr(k);
        }
      }
      if stderrIdx != -1 && pfds[stderrIdx].revents.hupErr {
        RemoveStderr(k);
      }
    }

    /** One turn after a poll that returned. */
    method OneTurn(k: Kernel)
      requires Valid() && k.Ready?
      modifies this, pfds
      ensures Valid() && Abs() == Turn(old(Abs()), input, chunk, k)
    {
      hide StdinTurn, StdoutTurn, StderrTurn;
      Poll(k);
      var skip := ServeStdin(k);
      if skip {
        return;
      }
      ReadStdout(k);
      ReadStderr(k);
    }

    /** The loop, over the results of its system calls. */
    method Run(ks: seq<Kernel>)
      requires Valid()
      modifies this, pfds
      ensures Valid()
      ensures Abs() == Loop(old(Abs()), input, chunk, ks)
    {
      hide Turn;
      var t := 0;
      assert ks[0..] == ks;
      while nfds > 0 && t < |ks|
        invariant t <= |ks| && Valid()
        invariant Loop(old(Abs()), input, chunk, ks) == Loop(Abs(), input, chunk, ks[t..])
      {
        var k := ks[t];
        assert ks[t..][1..] == ks[t + 1..];
        t := t + 1;
        if k.Interrupted? {
          continue;
        }
        if k.PollFails? {
          break;
        }
        OneTurn(k);
        if stdinIdx == -1 && stdoutIdx == -1 && stderrIdx == -1 {
          break;
        }
      }
    }
  }
}
