/**
 * The loop of one worker process (`Worker.doWork`), with the clock, the input
 * queue and the pool's running flag given as what the worker observes on each
 * turn. The job's `loop` is the caller's function; `requireData` is fixed for a
 * job. The output push is the blocking `put` of the source, so a produced
 * result is always pushed when there is an output queue.
 */
module WorkerLoop {
  import opened Wrappers
  import opened Remote

  /** A worker whose job needs data exits on an empty poll more than this many seconds after it started. */
  const ProcessMinTime: real := 0.5

  /** What the worker sees at the head of one turn of its loop. */
  datatype Turn = Turn(
    running: bool,          // the shared isRunning flag
    shouldExit: bool,       // the job's own exit request
    data: Option<Value>,    // what the 10 ms poll of the input queue returned
    elapsed: real)          // seconds since the worker started

  /** The outcome of one turn. */
  datatype Step =
    | Finished                                  // loop condition false: stop
    | IdleTimeout                               // no data for too long: break, then stop
    | Retry                                     // no data yet: continue
    | Ran(result: Option<Value>, pushed: bool)  // loop(data) was called

  /** One turn of the `while` loop in `Worker.doWork`. */
  function WorkerStep(t: Turn, requireData: bool, hasOutput: bool, loop: Option<Value> -> Option<Value>): (s: Step)
    ensures s.Ran? <==> t.running && !t.shouldExit && (t.data.Some? || !requireData)
    ensures s.Ran? ==> s.result == loop(t.data) && (s.pushed <==> s.result.Some? && hasOutput)
    ensures s.IdleTimeout? <==> t.running && !t.shouldExit && t.data.None? && requireData && t.elapsed > ProcessMinTime
  {
    if !t.running || t.shouldExit then Finished
    else if t.data.None? && requireData then
      if t.elapsed > ProcessMinTime then IdleTimeout else Retry
    else
      var r := loop(t.data);
      Ran(r, r.Some? && hasOutput)
  }

  /** Why the worker's loop ended. */
  datatype Exit = Stopped | IdledOut | OutOfTurns

  /** The results a worker pushes over a run of turns, and how the run ends. */
  function Run(turns: seq<Turn>, requireData: bool, hasOutput: bool, loop: Option<Value> -> Option<Value>): (seq<Value>, Exit)
    decreases |turns|
  {
    if turns == [] then ([], OutOfTurns)
    else
      match WorkerStep(turns[0], requireData, hasOutput, loop)
      case Finished => ([], Stopped)
      case IdleTimeout => ([], IdledOut)
      case Retry => Run(turns[1..], requireData, hasOutput, loop)
      case Ran(r, pushed) =>
        var rest := Run(turns[1..], requireData, hasOutput, loop);
        ((if pushed then [r.value] else []) + rest.0, rest.1)
  }

  /** A run pushes at most one result per turn, and nothing without an output queue. */
  lemma {:induction false} RunBounds(turns: seq<Turn>, requireData: bool, hasOutput: bool, loop: Option<Value> -> Option<Value>)
    ensures |Run(turns, requireData, hasOutput, loop).0| <= |turns|
    ensures !hasOutput ==> Run(turns, requireData, hasOutput, loop).0 == []
    decreases |turns|
  {
    if turns != [] {
      RunBounds(turns[1..], requireData, hasOutput, loop);
    }
  }

  /** The run from turn i on starts with that turn's step. */
  lemma RunHead(turns: seq<Turn>, i: nat, requireData: bool, hasOutput: bool, loop: Option<Value> -> Option<Value>)
    requires i < |turns|
    ensures var step := WorkerStep(turns[i], requireData, hasOutput, loop);
      var rest := Run(turns[i + 1..], requireData, hasOutput, loop);
      && (step.Finished? ==> Run(turns[i..], requireData, hasOutput, loop) == ([], Stopped))
      && (step.IdleTimeout? ==> Run(turns[i..], requireData, hasOutput, loop) == ([], IdledOut))
      && (step.Retry? ==> Run(turns[i..], requireData, hasOutput, loop) == rest)
      && (step.Ran? && step.pushed ==> Run(turns[i..], requireData, hasOutput, loop) == ([step.result.value] + rest.0, rest.1))
      && (step.Ran? && !step.pushed ==> Run(turns[i..], requireData, hasOutput, loop) == rest)
  {
    assert turns[i..][0] == turns[i] && turns[i..][1..] == turns[i + 1..];
    if WorkerStep(turns[i], requireData, hasOutput, loop).Ran? {
      assert [] + Run(turns[i + 1..], requireData, hasOutput, loop).0 == Run(turns[i + 1..], requireData, hasOutput, loop).0;
    }
  }

  /** `Worker.doWork` after setup: turns are taken until the loop breaks or they run out. */
  method DoWork(turns: seq<Turn>, requireData: bool, hasOutput: bool, loop: Option<Value> -> Option<Value>)
    returns (pushed: seq<Value>, exit: Exit)
    ensures (pushed, exit) == Run(turns, requireData, hasOutput, loop)
  {
    pushed := [];
    var i := 0;
    assert turns[0..] == turns;
    assert Run(turns, requireData, hasOutput, loop).0 == [] + Run(turns, requireData, hasOutput, loop).0;
    while i < |turns|
      invariant 0 <= i <= |turns|
      invariant Run(turns, requireData, hasOutput, loop).0 == pushed + Run(turns[i..], requireData, hasOutput, loop).0
      invariant Run(turns, requireData, hasOutput, loop).1 == Run(turns[i..], requireData, hasOutput, loop).1
    {
      var t := turns[i];
      ghost var step := WorkerStep(t, requireData, hasOutput, loop);
      ghost var rest := Run(turns[i + 1..], requireData, hasOutput, loop);
      RunHead(turns, i, requireData, hasOutput, loop);
      if !t.running || t.shouldExit {
        assert step == Finished;
        assert pushed + [] == pushed;
        return pushed, Stopped;
      }
      if t.data.None? && requireData {
        if t.elapsed > ProcessMinTime {
          assert step == IdleTimeout;
          assert pushed + [] == pushed;
          return pushed, IdledOut;
        }
        assert step == Retry;
        i := i + 1;
        continue;
      }
      var r := loop(t.data);
      assert step == Ran(r, r.Some? && hasOutput);
      if r.Some? && hasOutput {
        assert pushed + ([r.value] + rest.0) == (pushed + [r.value]) + rest.0;
        pushed := pushed + [r.value];
      }
      i := i + 1;
    }
    assert turns[|turns|..] == [];
    assert pushed + [] == pushed;
    return pushed, OutOfTurns;
  }

  /** The items a run of turns delivered, in order. */
  function Delivered(turns: seq<Turn>): seq<Value>
    requires forall i :: 0 <= i < |turns| ==> turns[i].data.Some?
  {
    seq(|turns|, i requires 0 <= i < |turns| => turns[i].data.value)
  }

  /**
   * An echo job fed N items by a running pool pushes exactly those N items,
   * in the order they arrived.
   */
  lemma {:induction false} EchoPreservesOrder(turns: seq<Turn>, requireData: bool, loop: Option<Value> -> Option<Value>)
    requires forall v :: loop(Some(v)) == Some(v)
    requires forall i :: 0 <= i < |turns| ==> turns[i].running && !turns[i].shouldExit && turns[i].data.Some?
    ensures Run(turns, requireData, true, loop) == (Delivered(turns), OutOfTurns)
    decreases |turns|
  {
    if turns != [] {
      EchoPreservesOrder(turns[1..], requireData, loop);
      assert Delivered(turns) == [turns[0].data.value] + Delivered(turns[1..]);
    }
  }

  /** A worker idles out only when its job needs data and a turn found none after the grace period. */
  lemma {:induction false} IdleExitNeedsTimeout(turns: seq<Turn>, requireData: bool, hasOutput: bool, loop: Option<Value> -> Option<Value>)
    requires Run(turns, requireData, hasOutput, loop).1 == IdledOut
    ensures requireData
    ensures exists i :: 0 <= i < |turns| && turns[i].data.None? && turns[i].elapsed > ProcessMinTime
    decreases |turns|
  {
    var s := WorkerStep(turns[0], requireData, hasOutput, loop);
    if !s.IdleTimeout? {
      IdleExitNeedsTimeout(turns[1..], requireData, hasOutput, loop);
      var i :| 0 <= i < |turns| - 1 && turns[1..][i].data.None? && turns[1..][i].elapsed > ProcessMinTime;
      assert turns[i + 1] == turns[1..][i];
    }
  }

  /** Some turn's data gives `v` when passed to the job's loop. */
  ghost predicate FromLoop(turns: seq<Turn>, loop: Option<Value> -> Option<Value>, v: Value) {
    exists i :: 0 <= i < |turns| && loop(turns[i].data) == Some(v)
  }

  /** Every pushed item is a result of the job's loop on something the worker observed. */
  lemma {:induction false} PushedComeFromLoop(turns: seq<Turn>, requireData: bool, hasOutput: bool, loop: Option<Value> -> Option<Value>)
    ensures forall v :: v in Run(turns, requireData, hasOutput, loop).0 ==> FromLoop(turns, loop, v)
    decreases |turns|
  {
    if turns != [] {
      PushedComeFromLoop(turns[1..], requireData, hasOutput, loop);
      var out := Run(turns, requireData, hasOutput, loop).0;
      var rest := Run(turns[1..], requireData, hasOutput, loop).0;
      forall v | v in out
        ensures FromLoop(turns, loop, v)
      {
        var s := WorkerStep(turns[0], requireData, hasOutput, loop);
        if s.Ran? && s.pushed && v == s.result.value {
          assert loop(turns[0].data) == Some(v);
        } else {
          assert v in rest;
          var i :| 0 <= i < |turns| - 1 && loop(turns[1..][i].data) == Some(v);
          assert turns[1..][i] == turns[i + 1];
        }
      }
    }
  }
}
