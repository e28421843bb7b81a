/**
 The child's end of the output pipes of cth_exec_block (build.c:1122-1362): what becomes of the
 bytes that the child writes to its stdout and to its stderr.
 */
module OutputPipe {
  import opened PollLoop

  /** Bytes in the pipe, and whether the child has closed its end. */
  datatype Stream = Stream(pending: seq<byte>, closed: bool)

  /** What the child does between two polls. */
  datatype Feed = Feed(bytes: seq<byte>, closes: bool)

  type Output = p: Pipe | p != Stdin witness Stdout

  function Fed(w: Stream, f: Feed): Stream {
    Stream(w.pending + f.bytes, w.closed || f.closes)
  }

  predicate IsOpen(a: Abstract, fd: Output) {
    if fd == Stdout then a.stdout else a.stderr
  }

  function Captured(a: Abstract, fd: Output): seq<byte> {
    if fd == Stdout then a.out else a.err
  }

  /** What read() would find in the pipe. */
  function Data(k: Kernel, fd: Output): seq<byte>
    requires k.Ready?
  {
    if fd == Stdout then k.outData else k.errData
  }

  predicate Stops(a: Abstract, ks: seq<Kernel>) {
    !AnyOpen(a) || ks == [] || ks[0].PollFails?
  }

  /** Nothing is read in a turn whose write found stdin full. */
  predicate Skipped(a: Abstract, k: Kernel)
    requires k.Ready?
  {
    a.stdin && k.stdin.pollOut && k.write.WouldBlock?
  }

  /**
   Each output pipe in a turn, for any answers of the kernel: what is there and reported is
   appended up to a chunk, and the pipe closes on a hang-up or when there was nothing to read.
   */
  lemma TurnReads(a: Abstract, input: seq<byte>, chunk: nat, k: Kernel, fd: Output)
    requires k.Ready? && a.sent <= |input| && chunk > 0
    ensures var b, d := Turn(a, input, chunk, k), Data(k, fd);
            if !IsOpen(a, fd) || Skipped(a, k) then IsOpen(b, fd) == IsOpen(a, fd) && Captured(b, fd) == Captured(a, fd)
            else
              && Captured(b, fd) == Captured(a, fd) + (if Revents(fd, k).pollIn then d[..Min(|d|, chunk)] else [])
              && (!IsOpen(b, fd) <==> Revents(fd, k).hupErr || (Revents(fd, k).pollIn && d == []))
  {
    assert Captured(a, fd) + [] == Captured(a, fd);
    assert Data(k, fd) == [] ==> Data(k, fd)[..0] == [];
  }

  /** The pipe after the turn: one chunk less if the parent read from it. */
  function AfterTurn(a: Abstract, chunk: nat, k: Kernel, fd: Output, w: Stream): (r: Stream)
    requires k.Ready?
  {
    if IsOpen(a, fd) && !Skipped(a, k) then w.(pending := w.pending[Min(|w.pending|, chunk)..]) else w
  }

  /**
   The results of the system calls are those of a pipe that holds at most `capacity` bytes:
   poll reports data and the hang-up as they are, and read finds exactly the pending bytes.
   */
  predicate Honest(a: Abstract, input: seq<byte>, chunk: nat, ks: seq<Kernel>, fd: Output, w: Stream, feeds: seq<Feed>,
          capacity: nat)
    requires a.sent <= |input|
    decreases |ks|
  {
    && |feeds| == |ks|
    && (Stops(a, ks) ||
        (var v := Fed(w, feeds[0]);
         && (w.closed ==> feeds[0].bytes == []) && |v.pending| <= capacity
         && if ks[0].Interrupted? then Honest(a, input, chunk, ks[1..], fd, v, feeds[1..], capacity)
            else
              && Data(ks[0], fd) == v.pending
              && Revents(fd, ks[0]).pollIn == (v.pending != []) && Revents(fd, ks[0]).hupErr == v.closed
              && Honest(Turn(a, input, chunk, ks[0]), input, chunk, ks[1..], fd, AfterTurn(a, chunk, ks[0], fd, v),
                        feeds[1..], capacity)))
  }

  /** The pipe when the loop is over, and all that the child wrote until then. */
  function AtEnd(a: Abstract, input: seq<byte>, chunk: nat, ks: seq<Kernel>, fd: Output, w: Stream,
          feeds: seq<Feed>): (Stream, seq<byte>)
    requires a.sent <= |input| && |feeds| == |ks|
    decreases |ks|
  {
    if Stops(a, ks) then (w, []) else
    var v := Fed(w, feeds[0]);
    var (e, written) :=
      if ks[0].Interrupted? then AtEnd(a, input, chunk, ks[1..], fd, v, feeds[1..])
      else AtEnd(Turn(a, input, chunk, ks[0]), input, chunk, ks[1..], fd, AfterTurn(a, chunk, ks[0], fd, v),
                 feeds[1..]);
    (e, feeds[0].bytes + written)
  }

  /**
   One turn moves bytes from the pipe to the capture buffer.  It closes only after a hang-up,
   and then leaves nothing exactly when all that was there fits one chunk.
   */
  lemma TurnMoves(a: Abstract, input: seq<byte>, chunk: nat, k: Kernel, fd: Output, v: Stream)
    requires k.Ready? && a.sent <= |input| && chunk > 0 && Data(k, fd) == v.pending
    requires Revents(fd, k).pollIn == (v.pending != []) && Revents(fd, k).hupErr == v.closed
    ensures var b, w := Turn(a, input, chunk, k), AfterTurn(a, chunk, k, fd, v);
            && Captured(b, fd) + w.pending == Captured(a, fd) + v.pending && w.closed == v.closed
            && (IsOpen(a, fd) && !IsOpen(b, fd) ==> v.closed && (w.pending == [] <==> |v.pending| <= chunk))
            && (!IsOpen(a, fd) ==> !IsOpen(b, fd) && w == v)
            && (|w.pending| <= |v.pending|)
  {
    hide Turn, Revents, Data, IsOpen, Captured;
    TurnReads(a, input, chunk, k, fd);
    var n, c := Min(|v.pending|, chunk), Captured(a, fd);
    assert v.pending == v.pending[..n] + v.pending[n..];
    assert c + (v.pending[..n] + v.pending[n..]) == c + v.pending[..n] + v.pending[n..];
    assert v.pending == [] ==> v.pending[n..] == [] && c + v.pending == c;
  }

  /**
   No byte is lost or made up on the way: captured and still pending together are always what
   the child wrote to the pipe, in order.  Closing the pipe leaves nothing pending as long as it
   never holds more than one chunk.
   */
  lemma {:induction false} OutputIsConserved(
    a: Abstract, input: seq<byte>, chunk: nat, ks: seq<Kernel>, fd: Output, w: Stream, feeds: seq<Feed>, capacity: nat)
    requires a.sent <= |input| && chunk > 0 && Honest(a, input, chunk, ks, fd, w, feeds, capacity)
    requires !IsOpen(a, fd) ==> w.closed
    ensures var (e, written) := AtEnd(a, input, chunk, ks, fd, w, feeds); var r := Loop(a, input, chunk, ks);
            && Captured(r, fd) + e.pending == Captured(a, fd) + w.pending + written
            && (capacity <= chunk && !IsOpen(r, fd) && (!IsOpen(a, fd) ==> w.pending == []) ==> e.pending == [])
    decreases |ks|
  {
    hide Turn, AfterTurn, Revents, Data, IsOpen, Captured;
    var c := Captured(a, fd);
    if Stops(a, ks) {
      assert c + w.pending + [] == c + w.pending;
    } else {
      var v, f := Fed(w, feeds[0]), feeds[0].bytes;
      var b, u := a, v;
      if ks[0].Ready? {
        b, u := Turn(a, input, chunk, ks[0]), AfterTurn(a, chunk, ks[0], fd, v);
        TurnMoves(a, input, chunk, ks[0], fd, v);
      }
      OutputIsConserved(b, input, chunk, ks[1..], fd, u, feeds[1..], capacity);
      var (e, written) := AtEnd(b, input, chunk, ks[1..], fd, u, feeds[1..]);
      assert Captured(b, fd) + u.pending + written == c + w.pending + (f + written) by {
        assert c + (w.pending + f) + written == c + w.pending + (f + written);
      }
    }
  }

  // ----- when bytes are lost -----

  const EMPTY := Stream([], false)

  /** In every honest run from the start, the pipe is closed with nothing left in it. */
  ghost predicate Lossless(chunk: nat, fd: Output, capacity: nat) {
    forall hasInput: bool, input: seq<byte>, ks: seq<Kernel>, feeds: seq<Feed> ::
      Honest(Started(hasInput, true), input, chunk, ks, fd, EMPTY, feeds, capacity)
      && !IsOpen(Loop(Started(hasInput, true), input, chunk, ks), fd)
      ==> AtEnd(Started(hasInput, true), input, chunk, ks, fd, EMPTY, feeds).0.pending == []
  }

  const QUIET := Events(false, false, false)

  /** The child has written `data` and closed its end before the first poll. */
  function HangUp(fd: Output, data: seq<byte>): Kernel {
    var e := Events(data != [], false, true);
    if fd == Stdout then Ready(QUIET, e, QUIET, Wrote(0), data, []) else Ready(QUIET, QUIET, e, Wrote(0), [], data)
  }

  /** An honest run of one turn: it reads a chunk, closes, and what is behind the chunk stays in the pipe. */
  lemma HangUpDropsTheRest(input: seq<byte>, chunk: nat, fd: Output, data: seq<byte>)
    requires chunk > 0
    ensures var a, ks, feeds := Started(false, true), [HangUp(fd, data)], [Feed(data, true)];
            var r := Loop(a, input, chunk, ks);
            && Honest(a, input, chunk, ks, fd, EMPTY, feeds, |data|)
            && !IsOpen(r, fd) && Captured(r, fd) == data[..Min(|data|, chunk)]
            && AtEnd(a, input, chunk, ks, fd, EMPTY, feeds).0.pending == data[Min(|data|, chunk)..]
  {
    var a, k, n := Started(false, true), HangUp(fd, data), Min(|data|, chunk);
    assert Fed(EMPTY, Feed(data, true)) == Stream(data, true) by { assert [] + data == data; }
    assert [k][1..] == [] && [Feed(data, true)][1..] == [];
    assert [] + data[..n] == data[..n];
  }

  /** Nothing is ever lost exactly when the pipe holds at most one chunk. */
  lemma LosslessExactly(chunk: nat, fd: Output, capacity: nat)
    requires chunk > 0
    ensures Lossless(chunk, fd, capacity) <==> capacity <= chunk
  {
    hide Loop, AtEnd;
    if capacity <= chunk {
      forall hasInput: bool, input: seq<byte>, ks: seq<Kernel>, feeds: seq<Feed>
        | Honest(Started(hasInput, true), input, chunk, ks, fd, EMPTY, feeds, capacity)
          && !IsOpen(Loop(Started(hasInput, true), input, chunk, ks), fd)
        ensures AtEnd(Started(hasInput, true), input, chunk, ks, fd, EMPTY, feeds).0.pending == []
      {
        OutputIsConserved(Started(hasInput, true), input, chunk, ks, fd, EMPTY, feeds, capacity);
      }
    } else {
      var data := seq(capacity, _ => 0 as byte);
      HangUpDropsTheRest([], chunk, fd, data);
      assert |data[chunk..]| > 0;
    }
  }

  // ----- the input -----

  /** How many bytes the child's end takes until the pipe is closed, if there are enough of them. */
  function Taken(chunk: nat, ks: seq<Kernel>): nat {
    if ks == [] || ks[0].PollFails? then 0
    else if ks[0].Interrupted? then Taken(chunk, ks[1..])
    else if !ks[0].stdin.pollOut then (if ks[0].stdin.hupErr then 0 else Taken(chunk, ks[1..]))
    else if ks[0].write.WouldBlock? then Taken(chunk, ks[1..])
    else
      var n := if ks[0].write.Wrote? then Min(ks[0].write.space, chunk) else 0;
      n + (if n == 0 || ks[0].stdin.hupErr then 0 else Taken(chunk, ks[1..]))
  }

  /** The child's end is closed, or takes nothing, before the loop is over. */
  predicate Hangs(chunk: nat, ks: seq<Kernel>) {
    if ks == [] || ks[0].PollFails? then false
    else if ks[0].Interrupted? then Hangs(chunk, ks[1..])
    else if ks[0].stdin.pollOut && ks[0].write.WouldBlock? then Hangs(chunk, ks[1..])
    else if ks[0].stdin.hupErr || (ks[0].stdin.pollOut && !(ks[0].write.Wrote? && ks[0].write.space > 0)) then true
    else Hangs(chunk, ks[1..])
  }

  /**
   The input arrives as far as the child takes it, and in full if it takes enough.  The pipe is
   closed at the end exactly when all of it was sent or the child's end failed.
   */
  lemma {:induction false} InputArrives(a: Abstract, input: seq<byte>, chunk: nat, ks: seq<Kernel>)
    requires a.stdin && a.sent < |input| && chunk > 0
    ensures var r := Loop(a, input, chunk, ks);
            && r.sent == Min(|input|, a.sent + Taken(chunk, ks))
            && (!r.stdin <==> r.sent == |input| || Hangs(chunk, ks))
    decreases |ks|
  {
    if ks != [] && !ks[0].PollFails? {
      if ks[0].Interrupted? {
        InputArrives(a, input, chunk, ks[1..]);
      } else {
        var b := Turn(a, input, chunk, ks[0]);
        StdinTurnIs(a, input, chunk, ks[0]);
        if b.stdin {
          InputArrives(b, input, chunk, ks[1..]);
        } else {
          ClosedStays(b, input, chunk, ks[1..]);
        }
      }
    }
  }

  lemma StdinTurnIs(a: Abstract, input: seq<byte>, chunk: nat, k: Kernel)
    requires a.stdin && a.sent < |input| && chunk > 0 && k.Ready?
    ensures var b := Turn(a, input, chunk, k);
            var n := if k.stdin.pollOut && k.write.Wrote? then Min(k.write.space, Min(chunk, |input| - a.sent)) else 0;
            && b.sent == a.sent + n
            && (b.stdin <==> Skipped(a, k) || (!k.stdin.hupErr && (k.stdin.pollOut ==> n > 0) && b.sent < |input|))
  {
  }

  lemma ClosedStays(a: Abstract, input: seq<byte>, chunk: nat, ks: seq<Kernel>)
    requires !a.stdin && a.sent <= |input|
    ensures Loop(a, input, chunk, ks).sent == a.sent && !Loop(a, input, chunk, ks).stdin
  {
  }
}
