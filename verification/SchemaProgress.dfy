/** What a column job can still do: the owner waits before every round, and no job is ever stuck (ddl/ddl_worker.go). */
module SchemaProgress {
  import opened TableInfo
  import opened SchemaSync

  // ----- Waiting -----

  predicate IsWait(step: Step) {
    step in {Synced, Waited, WaitFailed}
  }

  predicate NoWait(steps: seq<Step>) {
    forall i :: 0 <= i < |steps| ==> !IsWait(steps[i])
  }

  lemma {:induction false} NothingRunsUnready(c: Cluster, steps: seq<Step>)
    requires c.phase != Ready && ValidRun(c, steps) && NoWait(steps)
    ensures Run !in steps && RunState(c, steps).history == c.history
    decreases |steps|
  {
    if steps != [] {
      var now, rest := Apply(c, steps[0]), steps[1..];
      assert !IsWait(steps[0]) && now.phase != Ready && now.history == c.history;
      forall i | 0 <= i < |rest| ensures !IsWait(rest[i]) {
        assert rest[i] == steps[i + 1];
      }
      NothingRunsUnready(now, rest);
      assert steps == [steps[0]] + rest;
    }
  }

  /** After a crash or an election, and after every round that stores a version, no round runs until a wait has ended. */
  lemma WaitComesFirst(c: Cluster, step: Step, steps: seq<Step>)
    requires c.history != [] && Enabled(c, step) && (step == Crash || Apply(c, step).history != c.history)
    requires ValidRun(Apply(c, step), steps) && NoWait(steps)
    ensures Run !in steps && RunState(Apply(c, step), steps).history == Apply(c, step).history
  {
    NothingRunsUnready(Apply(c, step), steps);
  }

  // ----- Progress -----

  predicate Finished(c: Cluster) {
    c.job in {JobState.Done, RollbackDone, Cancelled}
  }

  /** Some continuation that skips no wait brings the job to its end. */
  ghost predicate CanFinish(c: Cluster) {
    exists rest :: ValidRun(c, rest) && NeverSkips(c, rest) && Finished(RunState(c, rest))
  }

  predicate RollsBack(c: Cluster) {
    c.job == Rollingback ==> c.history != [] && c.history[|c.history| - 1] in {DeleteOnly, DeleteReorganization}
  }

  /** What holds whatever waits fail. */
  predicate Sound(c: Cluster) {
    && c.history != [] && OnPath(c) && RollsBack(c) && (forall i :: 0 <= i < |c.loaded| ==> c.loaded[i] <= Latest(c))
    && (c.phase.Waiting? ==> c.phase.version == Latest(c))
  }

  lemma SoundStep(c: Cluster, step: Step)
    requires Sound(c) && Enabled(c, step)
    ensures Sound(Apply(c, step))
  {
    var path := if c.kind == AddColumn then ADD_PATH else DROP_PATH;
    if step == Run {
      RoundStaysOnPath(c);
    } else if step == CancelRequest {
      assert c.history[|c.history| - 1] == path[|c.history| - 1];
    }
  }

  lemma {:induction false} SoundRun(c: Cluster, steps: seq<Step>)
    requires Sound(c) && ValidRun(c, steps)
    ensures Sound(RunState(c, steps))
    decreases |steps|
  {
    if steps != [] {
      SoundStep(c, steps[0]);
      SoundRun(Apply(c, steps[0]), steps[1..]);
    }
  }

  /** How many rounds the job has left. */
  function RoundsLeft(c: Cluster): nat
    requires Sound(c)
  {
    match c.job
    case Queueing => 5 - |c.history|
    case Running => 5 - |c.history|
    case Cancelling => 3
    case Rollingback => if c.history[|c.history| - 1] == DeleteOnly then 2 else 1
    case _ => 0
  }

  lemma RunGoesOn(c: Cluster)
    requires Sound(c) && c.phase == Ready && !Finished(c)
    ensures Sound(Apply(c, Run)) && RoundsLeft(Apply(c, Run)) < RoundsLeft(c)
  {
    SoundStep(c, Run);
    var path := if c.kind == AddColumn then ADD_PATH else DROP_PATH;
    if c.job != Rollingback { assert c.history[|c.history| - 1] == path[|c.history| - 1]; }
  }

  lemma FinishesAfter(c: Cluster, step: Step)
    requires c.history != [] && Enabled(c, step) && !Skips(c, step) && CanFinish(Apply(c, step))
    ensures CanFinish(c)
  {
    var rest :| ValidRun(Apply(c, step), rest) && NeverSkips(Apply(c, step), rest) && Finished(RunState(Apply(c, step), rest));
    Cons(c, step, rest);
  }

  /** With the first k servers up to date: load the rest, wait, run a round, and so on. */
  lemma {:induction false} Finishes(c: Cluster, k: nat)
    requires Sound(c) && k <= |c.loaded| && forall i :: 0 <= i < k ==> c.loaded[i] == Latest(c)
    ensures CanFinish(c)
    decreases RoundsLeft(c), if c.phase == Ready then 0 else 1, |c.loaded| - k
  {
    if Finished(c) {
      assert ValidRun(c, []) && NeverSkips(c, []) && Finished(RunState(c, []));
    } else if k < |c.loaded| && c.loaded[k] == Latest(c) {
      Finishes(c, k + 1);
    } else {
      var step := if k < |c.loaded| then Load(k, Latest(c)) else if c.phase == Ready then Run
                  else if c.phase == Fresh then Synced else Waited;
      SoundStep(c, step);
      if step == Run { RunGoesOn(c); }
      Finishes(Apply(c, step), if step.Load? then k + 1 else if step == Run then 0 else k);
      FinishesAfter(c, step);
    }
  }

  /** Whatever has happened so far, failed waits, crashes and cancellations included, the job can still reach its end. */
  lemma NeverStuck(c: Cluster, steps: seq<Step>)
    requires Init(c) && ValidRun(c, steps)
    ensures CanFinish(RunState(c, steps))
  {
    SoundRun(c, steps);
    Finishes(RunState(c, steps), 0);
  }
}
