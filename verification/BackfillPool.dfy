/** The worker pool while a batch runs: who is in it, who is cancelled, who has left (ddl/backfilling.go). */
module BackfillPool {
  import opened BackfillProtocol

  function Added(steps: seq<Step>): nat {
    if steps == [] then 0 else (if steps[0].AddWorker? then 1 else 0) + Added(steps[1..])
  }

  /** Some step lowers the pool to k or fewer workers while worker w is in it; n are in it at the start. */
  predicate Cancels(steps: seq<Step>, w: nat, n: nat) {
    steps != [] &&
    ((steps[0].CancelFrom? && steps[0].k <= w < n) || Cancels(steps[1..], w, if steps[0].AddWorker? then n + 1 else n))
  }

  /** Worker w leaves on its cancelled context, or ends with an error. */
  predicate EndsNow(step: Step, w: nat) {
    match step
    case Leave(x) => x == w
    case Finish(x, ok, _, _) => x == w && !ok
    case _ => false
  }

  predicate Ends(steps: seq<Step>, w: nat) {
    exists i :: 0 <= i < |steps| && EndsNow(steps[i], w)
  }

  lemma EndsCons(steps: seq<Step>, w: nat)
    requires steps != []
    ensures Ends(steps, w) <==> EndsNow(steps[0], w) || Ends(steps[1..], w)
  {
    if Ends(steps[1..], w) {
      var i :| 0 <= i < |steps[1..]| && EndsNow(steps[1..][i], w);
      assert EndsNow(steps[i + 1], w);
    }
    if Ends(steps, w) {
      var i :| 0 <= i < |steps| && EndsNow(steps[i], w);
      if i > 0 { assert EndsNow(steps[1..][i - 1], w); }
    }
  }

  predicate IsCancelled(s: State, w: nat) {
    w < |s.workers| && s.workers[w].cancelled
  }

  predicate HasEnded(s: State, w: nat) {
    w < |s.workers| && s.workers[w].phase.Exited?
  }

  lemma PoolStep(s: State, step: Step, w: nat)
    requires Enabled(s, step)
    ensures |Apply(s, step).workers| == |s.workers| + Added([step])
    ensures IsCancelled(Apply(s, step), w) <==> IsCancelled(s, w) || Cancels([step], w, |s.workers|)
    ensures HasEnded(Apply(s, step), w) <==> HasEnded(s, w) || EndsNow(step, w)
  {
    assert [step][1..] == [];
  }

  /**
    In every run: the pool has grown by the workers added; a worker is cancelled exactly when the pool was lowered below
    its place while it was in it; and it is gone exactly when it has left or has ended with an error.
   */
  lemma {:induction false} PoolFollows(s: State, steps: seq<Step>, w: nat)
    requires ValidRun(s, steps)
    ensures |RunState(s, steps).workers| == |s.workers| + Added(steps)
    ensures IsCancelled(RunState(s, steps), w) <==> IsCancelled(s, w) || Cancels(steps, w, |s.workers|)
    ensures HasEnded(RunState(s, steps), w) <==> HasEnded(s, w) || Ends(steps, w)
    decreases |steps|
  {
    if steps != [] {
      assert [steps[0]][1..] == [];
      EndsCons(steps, w);
      PoolStep(s, steps[0], w);
      PoolFollows(Apply(s, steps[0]), steps[1..], w);
    }
  }

  /** A worker that is gone takes no task. */
  lemma {:induction false} GoneTakesNothing(s: State, steps: seq<Step>, w: nat)
    requires ValidRun(s, steps) && HasEnded(s, w)
    ensures Take(w) !in steps
    decreases |steps|
  {
    if steps != [] {
      PoolStep(s, steps[0], w);
      GoneTakesNothing(Apply(s, steps[0]), steps[1..], w);
      assert steps == [steps[0]] + steps[1..];
    }
  }
}
