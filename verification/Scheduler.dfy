/**
 compile_files_parallel (build.c:568-617): a pool of at most max_processes children that
 compile the files in order and may finish in any order.
 */
module Scheduler {

  /** A wait(): which of the running children it was and whether it succeeded, or nothing reaped. */
  datatype Wait = Finished(pick: nat, success: bool) | NothingReaped

  /** The pool: running children, files handed out so far, files whose child was reaped. */
  datatype Pool = Pool(running: seq<nat>, started: seq<nat>, done: seq<nat>)

  datatype Outcome = AllDone | ForkError | CompileError | StillWaiting

  /** The inner loop: start children up to the limit. */
  function Fill(p: Pool, n: nat, max: nat): (r: Pool)
    ensures r.done == p.done && |p.started| <= |r.started|
    ensures |r.started| == |p.started| + |r.running| - |p.running|
    ensures |p.running| <= |r.running| && (|p.running| <= max ==> |r.running| <= max)
    ensures |p.started| <= n ==> |r.started| <= n && (|r.running| < max ==> |r.started| == n)
    decreases n as int - |p.started|
  {
    if |p.running| < max && |p.started| < n then
      Fill(p.(running := p.running + [|p.started|], started := p.started + [|p.started|]), n, max)
    else p
  }

  /** A reaped child leaves the pool. */
  function Reap(p: Pool, pick: nat): Pool
    requires p.running != []
  {
    var i := pick % |p.running|;
    p.(running := p.running[..i] + p.running[i + 1..], done := p.done + [p.running[i]])
  }

  /** The outer loop, for any outcome of its wait calls. */
  function RunPool(p: Pool, n: nat, max: nat, waits: seq<Wait>): (Pool, Outcome)
    decreases |waits|
  {
    if |p.done| >= n then (p, AllDone)
    else
      var q := Fill(p, n, max);
      if waits == [] || q.running == [] then (q, StillWaiting)
      else if waits[0].NothingReaped? then RunPool(q, n, max, waits[1..])
      else
        var r := Reap(q, waits[0].pick);
        if waits[0].success then RunPool(r, n, max, waits[1..]) else (r, CompileError)
  }

  // ----- conservation -----

  /** Every file was started once, in order, and is running or done, never both. */
  ghost predicate Conserved(p: Pool, n: nat, max: nat) {
    && |p.started| <= n && |p.running| <= max
    && (forall i | 0 <= i < |p.started| :: p.started[i] == i)
    && multiset(p.running) + multiset(p.done) == multiset(p.started)
  }

  lemma CountsAddUp(p: Pool, n: nat, max: nat)
    requires Conserved(p, n, max)
    ensures |p.running| == |p.started| - |p.done|
  {
    assert |multiset(p.running) + multiset(p.done)| == |p.running| + |p.done|;
    assert |multiset(p.started)| == |p.started|;
  }

  lemma {:induction false} FillConserves(p: Pool, n: nat, max: nat)
    requires Conserved(p, n, max)
    ensures Conserved(Fill(p, n, max), n, max)
    decreases n as int - |p.started|
  {
    if |p.running| < max && |p.started| < n {
      var f := |p.started|;
      var q := p.(running := p.running + [f], started := p.started + [f]);
      assert multiset(q.running) == multiset(p.running) + multiset{f};
      assert multiset(q.started) == multiset(p.started) + multiset{f};
      FillConserves(q, n, max);
    }
  }

  lemma ReapConserves(p: Pool, n: nat, max: nat, pick: nat)
    requires Conserved(p, n, max) && p.running != []
    ensures Conserved(Reap(p, pick), n, max)
  {
    var i := pick % |p.running|;
    assert p.running == p.running[..i] + [p.running[i]] + p.running[i + 1..];
    assert multiset(p.running) == multiset(p.running[..i]) + multiset{p.running[i]} + multiset(p.running[i + 1..]);
  }

  /** Conservation holds through every order of completion. */
  lemma {:induction false} RunConserves(p: Pool, n: nat, max: nat, waits: seq<Wait>)
    requires Conserved(p, n, max)
    ensures Conserved(RunPool(p, n, max, waits).0, n, max)
    decreases |waits|
  {
    hide Conserved, Fill, Reap;
    if |p.done| < n {
      var q := Fill(p, n, max);
      FillConserves(p, n, max);
      if waits != [] && q.running != [] {
        if waits[0].NothingReaped? {
          RunConserves(q, n, max, waits[1..]);
        } else {
          ReapConserves(q, n, max, waits[0].pick);
          if waits[0].success {
            RunConserves(Reap(q, waits[0].pick), n, max, waits[1..]);
          }
        }
      }
    }
  }

  /**
   A normal exit of the main loop leaves no child behind and no file out: the wait loop
   after it never runs, and the files done are exactly 0..n in some order.
   */
  lemma AllDoneMeansIdle(n: nat, max: nat, waits: seq<Wait>)
    ensures var (p, o) := RunPool(Pool([], [], []), n, max, waits);
            && |p.running| <= max && |p.running| == |p.started| - |p.done|
            && (o == AllDone ==> p.running == [] && |p.started| == n && multiset(p.done) == multiset(seq(n, i => i)))
  {
    var start := Pool([], [], []);
    assert Conserved(start, n, max);
    RunConserves(start, n, max, waits);
    var (p, o) := RunPool(start, n, max, waits);
    CountsAddUp(p, n, max);
    if o == AllDone {
      AllDoneIsEnough(start, n, max, waits);
      assert p.running == [] && p.started == seq(n, i => i);
    }
  }

  lemma {:induction false} AllDoneIsEnough(p: Pool, n: nat, max: nat, waits: seq<Wait>)
    requires RunPool(p, n, max, waits).1 == AllDone
    ensures |RunPool(p, n, max, waits).0.done| >= n
    decreases |waits|
  {
    hide Fill, Reap;
    if |p.done| < n {
      var q := Fill(p, n, max);
      AllDoneIsEnough(if waits[0].NothingReaped? then q else Reap(q, waits[0].pick), n, max, waits[1..]);
    }
  }

  /** The main loop can always go on exactly when at least one process is allowed. */
  lemma ProgressNeedsAWorker(p: Pool, n: nat, max: nat)
    requires Conserved(p, n, max) && |p.done| < n
    ensures Fill(p, n, max).running != [] <==> max >= 1
  {
    CountsAddUp(p, n, max);
  }

  /** How many of the waits reaped a child. */
  function Reaped(waits: seq<Wait>): nat {
    if waits == [] then 0 else (if waits[0].Finished? then 1 else 0) + Reaped(waits[1..])
  }

  /**
   Without a failing compilation the main loop ends exactly when nothing is left to do, or a
   worker is allowed and as many children are reaped as there are files left, in whatever order
   and after however many waits that reap nothing.  Without a worker it goes on for ever.
   */
  lemma {:induction false} EndsWhenAllAreReaped(p: Pool, n: nat, max: nat, waits: seq<Wait>)
    requires Conserved(p, n, max) && forall w | w in waits && w.Finished? :: w.success
    ensures RunPool(p, n, max, waits).1 ==
            if |p.done| >= n || (max >= 1 && |p.done| + Reaped(waits) >= n) then AllDone else StillWaiting
    decreases |waits|
  {
    hide Conserved, Fill, Reap;
    if |p.done| < n && waits != [] {
      var q := Fill(p, n, max);
      FillConserves(p, n, max);
      ProgressNeedsAWorker(p, n, max);
      assert waits[0] in waits && forall w | w in waits[1..] :: w in waits;
      if max >= 1 {
        if waits[0].NothingReaped? {
          EndsWhenAllAreReaped(q, n, max, waits[1..]);
        } else {
          var r := Reap(q, waits[0].pick);
          ReapConserves(q, n, max, waits[0].pick);
          ReapCounts(q, waits[0].pick);
          EndsWhenAllAreReaped(r, n, max, waits[1..]);
        }
      }
    }
  }

  /** Whether each reaped child has succeeded, in the order of the waits. */
  function Successes(waits: seq<Wait>): seq<bool> {
    if waits == [] then [] else (if waits[0].Finished? then [waits[0].success] else []) + Successes(waits[1..])
  }

  /**
   With `left` files to go, `reaped` more of them done and these outcomes of the children: the
   build has failed if one of the first `left` children has, and stopped at the first of those; it
   has ended well if all of them were reaped and have succeeded.
   */
  ghost predicate Verdict(left: nat, s: seq<bool>, reaped: int, o: Outcome) {
    && (o == CompileError <==> exists j | 0 <= j < |s| :: j < left && !s[j])
    && (o == AllDone <==> |s| >= left && forall j | 0 <= j < left :: s[j])
    && (o == CompileError ==>
          0 < reaped <= left && reaped <= |s| && !s[reaped - 1] && forall k | 0 <= k < reaped - 1 :: s[k])
  }

  lemma VerdictCons(left: nat, s: seq<bool>, reaped: int, o: Outcome)
    requires left > 0 && Verdict(left - 1, s, reaped, o)
    ensures Verdict(left, [true] + s, reaped + 1, o)
  {
    var t := [true] + s;
    assert forall j | 0 <= j < |s| :: t[j + 1] == s[j];
    if o == CompileError {
      assert !t[reaped];
    }
  }

  lemma VerdictFails(left: nat, s: seq<bool>)
    requires left > 0 && s != [] && !s[0]
    ensures Verdict(left, s, 1, CompileError)
  {
  }

  /**
   For any waits, of a pool with a worker: the build fails if and only if one of the children that
   it still has to reap has failed, stops at the first of those, and ends well if and only if all
   of them have succeeded.
   */
  lemma {:induction false} FailsExactly(p: Pool, n: nat, max: nat, waits: seq<Wait>)
    requires Conserved(p, n, max) && |p.done| <= n && max >= 1
    ensures var (q, o) := RunPool(p, n, max, waits);
            Verdict(n - |p.done|, Successes(waits), |q.done| - |p.done|, o)
    decreases |waits|
  {
    hide Conserved, Fill, Reap, Verdict;
    if waits == [] || |p.done| == n {
      VerdictNow(n - |p.done|, Successes(waits));
    } else {
      var q := Fill(p, n, max);
      FillConserves(p, n, max);
      ProgressNeedsAWorker(p, n, max);
      if waits[0].NothingReaped? {
        assert [] + Successes(waits[1..]) == Successes(waits[1..]);
        FailsExactly(q, n, max, waits[1..]);
      } else {
        var r := Reap(q, waits[0].pick);
        ReapConserves(q, n, max, waits[0].pick);
        ReapCounts(q, waits[0].pick);
        if waits[0].success {
          FailsExactly(r, n, max, waits[1..]);
          var (e, o) := RunPool(r, n, max, waits[1..]);
          VerdictCons(n - |p.done|, Successes(waits[1..]), |e.done| - |r.done|, o);
        } else {
          VerdictFails(n - |p.done|, Successes(waits));
        }
      }
    }
  }

  lemma VerdictNow(left: nat, s: seq<bool>)
    ensures left == 0 ==> Verdict(left, s, 0, AllDone)
    ensures left > 0 && s == [] ==> Verdict(left, s, 0, StillWaiting)
  {
  }

  lemma ReapCounts(p: Pool, pick: nat)
    requires p.running != []
    ensures var r := Reap(p, pick);
            |r.done| == |p.done| + 1 && |r.running| == |p.running| - 1 && r.started == p.started
  {
  }

  // ----- the loops -----

  class Compiler {
    var active: nat
    var completed: nat
    var currentFile: nat
    ghost var pool: Pool

    ghost predicate Valid()
      reads this
    {
      active == |pool.running| && completed == |pool.done| && currentFile == |pool.started|
    }

    constructor ()
      ensures Valid() && pool == Pool([], [], [])
    {
      active, completed, currentFile := 0, 0, 0;
      pool := Pool([], [], []);
    }

    /** The inner loop: start children while there is room; fork fails when `forks` says so. */
    method StartChildren(n: nat, max: nat, forks: nat -> bool) returns (ok: bool)
      requires Valid()
      modifies this
      ensures Valid()
      ensures ok ==> pool == Fill(old(pool), n, max)
      ensures !ok ==> currentFile < n && !forks(currentFile)
    {
      while active < max && currentFile < n
        invariant Valid()
        invariant Fill(old(pool), n, max) == Fill(pool, n, max)
        decreases n - currentFile
      {
        if !forks(currentFile) {
          return false;
        }
        pool := pool.(running := pool.running + [currentFile], started := pool.started + [currentFile]);
        active := active + 1;
        currentFile := currentFile + 1;
      }
      ok := true;
    }

    /** compile_files_parallel over `n` files.  Without a running child the loop spins and waits for nothing. */
    method Compile(n: nat, max: nat, forks: nat -> bool, waits: seq<Wait>) returns (o: Outcome)
      requires Valid() && pool == Pool([], [], [])
      modifies this
      ensures Valid()
      ensures o != ForkError ==> (pool, o) == RunPool(old(pool), n, max, waits)
      ensures o == ForkError ==> currentFile < n && !forks(currentFile)
      ensures o == AllDone ==> active == 0 && completed == n
    {
      hide Fill, Conserved, Reap;
      var t := 0;
      assert waits[0..] == waits;
      EmptyConserved(n, max);
      while completed < n
        invariant t <= |waits| && Valid() && Conserved(pool, n, max)
        invariant RunPool(old(pool), n, max, waits) == RunPool(pool, n, max, waits[t..])
        decreases |waits| - t
      {
        FillConserves(pool, n, max);
        var ok := StartChildren(n, max, forks);
        if !ok {
          return ForkError;
        }
        if active == 0 || t == |waits| {
          return StillWaiting;
        }
        assert waits[t..][1..] == waits[t + 1..];
        var w := waits[t];
        t := t + 1;
        if w.Finished? {
          ReapConserves(pool, n, max, w.pick);
          ReapCounts(pool, w.pick);
          pool := Reap(pool, w.pick);
          active := active - 1;
          completed := completed + 1;
          if !w.success {
            return CompileError;
          }
        }
      }
      CountsAddUp(pool, n, max);
      StartedWithin(pool, n, max);
      o := AllDone;
    }
  }

  lemma EmptyConserved(n: nat, max: nat)
    ensures Conserved(Pool([], [], []), n, max)
  {
  }

  lemma StartedWithin(p: Pool, n: nat, max: nat)
    requires Conserved(p, n, max)
    ensures |p.started| <= n
  {
  }
}
