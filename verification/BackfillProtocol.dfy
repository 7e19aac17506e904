/** The backfill master and its workers: task channel, result channel, master loop (ddl/backfilling.go). */
module BackfillProtocol {
  import opened Keys
  import opened BackfillWorker

  datatype Phase = Idle | Busy(task: nat) | Exited

  datatype Worker = Worker(cancelled: bool, phase: Phase)

  /** What the workers work on: the stored rows, the tasks of the batch, and whether no statement interferes. */
  datatype Job = Job(keys: seq<Key>, tasks: seq<Task>, quiet: bool)

  /** backfillResult as the master reads it. */
  datatype Report = Report(id: nat, nextKey: Key, ok: bool)

  /**
    One call of sendTasksAndWait: `sent` tasks are on their way, `got` are the results read so far, in order, `drains`
    how many tasks were drained at each, and `filled` the rows that hold the new column.
   */
  datatype State = State(job: Job, filled: set<Key>, total: nat, sent: nat, queue: seq<nat>, workers: seq<Worker>,
                         results: seq<Report>, got: seq<Report>, drains: seq<nat>, taskSize: int, drained: seq<nat>)

  datatype Step =
    | Send                                  // master: taskCh <- task
    | Take(w: nat)                          // worker: task := <-taskCh
    | Finish(w: nat, ok: bool, key: Key, after: set<Key>)
                                            // worker: resultCh <- result; an error or a panic ends the worker
    | Leave(w: nat)                         // worker: exits on a cancelled context, only between tasks
    | Receive                               // master: result := <-resultCh, draining taskCh on an error
    | AddWorker                             // adjustWorkerSize, more workers
    | CancelFrom(k: nat)                    // adjustWorkerSize, fewer workers; the first one always stays

  ghost predicate Enabled(s: State, step: Step) {
    match step
    case Send => s.sent < s.total
    case Take(w) => w < |s.workers| && s.workers[w].phase.Idle? && s.queue != []
    case Finish(w, ok, key, after) =>
      && w < |s.workers| && s.workers[w].phase.Busy? && s.workers[w].phase.task < |s.job.tasks|
      && TaskEffect(s.job.keys, s.job.tasks[s.workers[w].phase.task], s.job.quiet, s.filled, after, ok, key)
    case Leave(w) => w < |s.workers| && s.workers[w].cancelled && s.workers[w].phase.Idle?
    case Receive => s.sent == s.total && |s.got| < s.taskSize && s.results != []
    case AddWorker => true
    case CancelFrom(k) => k >= 1
  }

  function Apply(s: State, step: Step): State
    requires Enabled(s, step)
  {
    match step
    case Send => s.(sent := s.sent + 1, queue := s.queue + [s.sent])
    case Take(w) =>
      s.(queue := s.queue[1..], workers := s.workers[w := s.workers[w].(phase := Busy(s.queue[0]))])
    case Finish(w, ok, key, after) =>
      s.(filled := after, results := s.results + [Report(s.workers[w].phase.task, key, ok)],
         workers := s.workers[w := s.workers[w].(phase := if ok then Idle else Exited)])
    case Leave(w) => s.(workers := s.workers[w := s.workers[w].(phase := Exited)])
    case Receive =>
      var r := s.results[0];
      var s' := s.(results := s.results[1..], got := s.got + [r], drains := s.drains + [if r.ok then 0 else |s.queue|]);
      if r.ok then s' else s'.(queue := [], drained := s.drained + s.queue, taskSize := s.taskSize - |s.queue|)
    case AddWorker => s.(workers := s.workers + [Worker(false, Idle)])
    case CancelFrom(k) =>
      s.(workers := seq(|s.workers|, i requires 0 <= i < |s.workers| =>
                          if i < k then s.workers[i] else s.workers[i].(cancelled := true)))
  }

  /** The master has workers, none of them busy or gone, and the channels are empty. */
  predicate Init(s: State) {
    && s.sent == 0 && s.queue == [] && s.results == [] && s.got == [] && s.drained == []
    && s.drains == [] && s.taskSize == s.total == |s.job.tasks|
    && |s.workers| >= 1 && !s.workers[0].cancelled
    && forall i :: 0 <= i < |s.workers| ==> s.workers[i].phase.Idle?
  }

  ghost predicate ValidRun(s: State, steps: seq<Step>)
    decreases |steps|
  {
    steps == [] || (Enabled(s, steps[0]) && ValidRun(Apply(s, steps[0]), steps[1..]))
  }

  function RunState(s: State, steps: seq<Step>): State
    requires ValidRun(s, steps)
    decreases |steps|
  {
    if steps == [] then s else RunState(Apply(s, steps[0]), steps[1..])
  }

  /** How many of the workers are running a task that satisfies p. */
  function BusyCount(workers: seq<Worker>, p: nat -> bool): nat {
    if workers == [] then 0 else
      BusyCount(workers[..|workers| - 1], p) + BusyOne(workers[|workers| - 1], p)
  }

  function BusyOne(w: Worker, p: nat -> bool): nat {
    if w.phase.Busy? && p(w.phase.task) then 1 else 0
  }

  function IdCount(ids: seq<nat>, p: nat -> bool): nat {
    if ids == [] then 0 else IdCount(ids[..|ids| - 1], p) + if p(ids[|ids| - 1]) then 1 else 0
  }

  function ReportCount(rs: seq<Report>, p: nat -> bool): nat {
    if rs == [] then 0 else ReportCount(rs[..|rs| - 1], p) + if p(rs[|rs| - 1].id) then 1 else 0
  }

  /** How many of the tasks below n satisfy p. */
  function SentCount(n: nat, p: nat -> bool): nat {
    if n == 0 then 0 else SentCount(n - 1, p) + if p(n - 1) then 1 else 0
  }

  /** The tasks satisfying p in the two channels, in the workers, read by the master, and drained. */
  function Places(s: State, p: nat -> bool): nat {
    IdCount(s.queue, p) + BusyCount(s.workers, p) + ReportCount(s.results, p) + ReportCount(s.got, p)
    + IdCount(s.drained, p)
  }

  /** queued + in flight + unread + received + drained == sent, for any selection of the tasks. */
  ghost predicate Conserved(s: State, p: nat -> bool) {
    Places(s, p) == SentCount(s.sent, p)
  }

  predicate AnyError(rs: seq<Report>) {
    exists i :: 0 <= i < |rs| && !rs[i].ok
  }

  /** How the master and the first worker are doing. */
  predicate Control(s: State) {
    && s.sent <= s.total
    && s.taskSize == s.total - |s.drained|
    && |s.workers| >= 1 && !s.workers[0].cancelled
    && (s.workers[0].phase.Exited? ==> AnyError(s.results) || AnyError(s.got))
    && (AnyError(s.got) ==> s.queue == [])
    && (s.got != [] ==> s.sent == s.total)
    && (s.drained != [] ==> AnyError(s.got))
  }

  lemma {:induction false} BusyUpdate(ws: seq<Worker>, w: nat, x: Worker, p: nat -> bool)
    requires w < |ws|
    ensures BusyCount(ws[w := x], p) + BusyOne(ws[w], p) == BusyCount(ws, p) + BusyOne(x, p)
    decreases |ws|
  {
    var n := |ws| - 1;
    if w == n {
      assert ws[w := x][..n] == ws[..n];
    } else {
      assert ws[w := x][..n] == ws[..n][w := x];
      BusyUpdate(ws[..n], w, x, p);
    }
  }

  lemma {:induction false} BusySame(ws: seq<Worker>, xs: seq<Worker>, p: nat -> bool)
    requires |ws| == |xs| && forall i :: 0 <= i < |ws| ==> ws[i].phase == xs[i].phase
    ensures BusyCount(ws, p) == BusyCount(xs, p)
    decreases |ws|
  {
    if ws != [] { BusySame(ws[..|ws| - 1], xs[..|xs| - 1], p); }
  }

  lemma {:induction false} IdCountAppend(a: seq<nat>, b: seq<nat>, p: nat -> bool)
    ensures IdCount(a + b, p) == IdCount(a, p) + IdCount(b, p)
    decreases |b|
  {
    if b == [] {
      assert a + b == a;
    } else {
      assert (a + b)[..|a + b| - 1] == a + b[..|b| - 1];
      IdCountAppend(a, b[..|b| - 1], p);
    }
  }

  lemma {:induction false} ReportCountAppend(a: seq<Report>, b: seq<Report>, p: nat -> bool)
    ensures ReportCount(a + b, p) == ReportCount(a, p) + ReportCount(b, p)
    decreases |b|
  {
    if b == [] {
      assert a + b == a;
    } else {
      assert (a + b)[..|a + b| - 1] == a + b[..|b| - 1];
      ReportCountAppend(a, b[..|b| - 1], p);
    }
  }

  lemma TakeConserves(s: State, w: nat, p: nat -> bool)
    requires Enabled(s, Take(w))
    ensures Places(Apply(s, Take(w)), p) == Places(s, p)
  {
    BusyUpdate(s.workers, w, s.workers[w].(phase := Busy(s.queue[0])), p);
    assert s.queue == [s.queue[0]] + s.queue[1..];
    IdCountAppend([s.queue[0]], s.queue[1..], p);
  }

  lemma FinishConserves(s: State, w: nat, ok: bool, key: Key, after: set<Key>, p: nat -> bool)
    requires Enabled(s, Finish(w, ok, key, after))
    ensures Places(Apply(s, Finish(w, ok, key, after)), p) == Places(s, p)
  {
    BusyUpdate(s.workers, w, s.workers[w].(phase := if ok then Idle else Exited), p);
    ReportCountAppend(s.results, [Report(s.workers[w].phase.task, key, ok)], p);
  }

  lemma ReceiveConserves(s: State, p: nat -> bool)
    requires Enabled(s, Receive)
    ensures Places(Apply(s, Receive), p) == Places(s, p)
  {
    assert s.results == [s.results[0]] + s.results[1..];
    ReportCountAppend([s.results[0]], s.results[1..], p);
    ReportCountAppend(s.got, [s.results[0]], p);
    IdCountAppend(s.drained, s.queue, p);
  }

  lemma WorkersConserve(s: State, step: Step, p: nat -> bool)
    requires Enabled(s, step) && (step.Leave? || step.AddWorker? || step.CancelFrom?)
    ensures Places(Apply(s, step), p) == Places(s, p)
  {
    assert BusyCount(Apply(s, step).workers, p) == BusyCount(s.workers, p) by {
      WorkersSame(s, step, p);
    }
  }

  lemma WorkersSame(s: State, step: Step, p: nat -> bool)
    requires Enabled(s, step) && (step.Leave? || step.AddWorker? || step.CancelFrom?)
    ensures BusyCount(Apply(s, step).workers, p) == BusyCount(s.workers, p)
  {
    match step
    case Leave(w) => BusyUpdate(s.workers, w, s.workers[w].(phase := Exited), p);
    case AddWorker => assert Apply(s, step).workers[..|s.workers|] == s.workers;
    case CancelFrom(k) => BusySame(s.workers, Apply(s, step).workers, p);
  }

  /** No step loses or duplicates a task. */
  lemma ConservedStep(s: State, step: Step, p: nat -> bool)
    requires Conserved(s, p) && Enabled(s, step)
    ensures Conserved(Apply(s, step), p)
  {
    match step
    case Send => IdCountAppend(s.queue, [s.sent], p);
    case Take(w) => TakeConserves(s, w, p);
    case Finish(w, ok, key, after) => FinishConserves(s, w, ok, key, after, p);
    case Receive => ReceiveConserves(s, p);
    case _ => WorkersConserve(s, step, p);
  }

  lemma ErrorsAppend(a: seq<Report>, b: seq<Report>)
    ensures AnyError(a + b) <==> AnyError(a) || AnyError(b)
  {
    if AnyError(a) {
      var i :| 0 <= i < |a| && !a[i].ok;
      assert !(a + b)[i].ok;
    }
    if AnyError(b) {
      var i :| 0 <= i < |b| && !b[i].ok;
      assert !(a + b)[|a| + i].ok;
    }
  }

  lemma ControlStep(s: State, step: Step)
    requires Control(s) && Enabled(s, step)
    ensures Control(Apply(s, step))
  {
    match step
    case Finish(w, ok, key, after) =>
      var r := Report(s.workers[w].phase.task, key, ok);
      ErrorsAppend(s.results, [r]);
      assert [r][0] == r;
    case Receive =>
      assert s.results == [s.results[0]] + s.results[1..];
      ErrorsAppend([s.results[0]], s.results[1..]);
      ErrorsAppend(s.got, [s.results[0]]);
    case _ =>
  }

  lemma {:induction false} IdleCount(ws: seq<Worker>, p: nat -> bool)
    requires forall i :: 0 <= i < |ws| ==> !ws[i].phase.Busy?
    ensures BusyCount(ws, p) == 0
    decreases |ws|
  {
    if ws != [] { IdleCount(ws[..|ws| - 1], p); }
  }

  lemma InitHolds(s: State, p: nat -> bool)
    requires Init(s)
    ensures Control(s) && Conserved(s, p)
  {
    IdleCount(s.workers, p);
  }

  lemma {:induction false} RunHolds(s: State, steps: seq<Step>, p: nat -> bool)
    requires Control(s) && Conserved(s, p) && ValidRun(s, steps)
    ensures Control(RunState(s, steps)) && Conserved(RunState(s, steps), p)
    decreases |steps|
  {
    if steps != [] {
      ControlStep(s, steps[0]);
      ConservedStep(s, steps[0], p);
      RunHolds(Apply(s, steps[0]), steps[1..], p);
    }
  }

  /** In every run, queued + in flight + unread + received + drained == sent, for any selection p of the tasks. */
  lemma ConservationTheorem(s0: State, steps: seq<Step>, p: nat -> bool)
    requires Init(s0) && ValidRun(s0, steps)
    ensures Control(RunState(s0, steps)) && Conserved(RunState(s0, steps), p)
  {
    InitHolds(s0, p);
    RunHolds(s0, steps, p);
  }

  function Every(x: nat): bool {
    true
  }

  lemma {:induction false} IdsSize(ids: seq<nat>)
    ensures IdCount(ids, Every) == |ids|
  {
    if ids != [] { IdsSize(ids[..|ids| - 1]); }
  }

  lemma {:induction false} ReportsSize(rs: seq<Report>)
    ensures ReportCount(rs, Every) == |rs|
    decreases |rs|
  {
    if rs != [] { ReportsSize(rs[..|rs| - 1]); }
  }

  lemma {:induction false} SentSize(n: nat)
    ensures SentCount(n, Every) == n
  {
    if n > 0 { SentSize(n - 1); }
  }

  lemma {:induction false} BusyExists(ws: seq<Worker>, p: nat -> bool)
    ensures BusyCount(ws, p) > 0 ==> exists i :: 0 <= i < |ws| && ws[i].phase.Busy?
  {
    if forall i :: 0 <= i < |ws| ==> !ws[i].phase.Busy? { IdleCount(ws, p); }
  }

  lemma {:induction false} BusyCounted(ws: seq<Worker>, i: nat)
    requires i < |ws| && ws[i].phase.Busy?
    ensures BusyCount(ws, Every) > 0
    decreases |ws|
  {
    if i < |ws| - 1 { BusyCounted(ws[..|ws| - 1], i); }
  }

  lemma SizesAddUp(s0: State, steps: seq<Step>)
    requires Init(s0) && ValidRun(s0, steps)
    ensures var s := RunState(s0, steps);
            |s.queue| + BusyCount(s.workers, Every) + |s.results| + |s.got| + |s.drained| == s.sent
  {
    var s := RunState(s0, steps);
    ConservationTheorem(s0, steps, Every);
    IdsSize(s.queue);
    IdsSize(s.drained);
    ReportsSize(s.results);
    ReportsSize(s.got);
    SentSize(s.sent);
  }

  /** The condition on which the loop of waitTaskResults ends. */
  predicate Finished(s: State) {
    s.sent == s.total && |s.got| == s.taskSize
  }

  /** When the master stops waiting, both channels are empty and no worker is busy, whatever failed on the way. */
  lemma QuiescentAtExit(s0: State, steps: seq<Step>)
    requires Init(s0) && ValidRun(s0, steps) && Finished(RunState(s0, steps))
    ensures var s := RunState(s0, steps);
            s.queue == [] && s.results == [] && forall i :: 0 <= i < |s.workers| ==> !s.workers[i].phase.Busy?
  {
    var s := RunState(s0, steps);
    SizesAddUp(s0, steps);
    ConservationTheorem(s0, steps, Every);
    forall i | 0 <= i < |s.workers|
      ensures !s.workers[i].phase.Busy?
    {
      if s.workers[i].phase.Busy? { BusyCounted(s.workers, i); }
    }
  }

  predicate Productive(step: Step) {
    step.Send? || step.Take? || step.Finish? || step.Receive?
  }

  /** A busy worker has one of the tasks of the batch. */
  lemma BusyIsSent(s0: State, steps: seq<Step>, w: nat)
    requires Init(s0) && ValidRun(s0, steps) && w < |RunState(s0, steps).workers| && RunState(s0, steps).workers[w].phase.Busy?
    ensures RunState(s0, steps).workers[w].phase.task < |RunState(s0, steps).job.tasks|
  {
    var s := RunState(s0, steps);
    var x := s.workers[w].phase.task;
    var p: nat -> bool := y => y == x;
    ConservationTheorem(s0, steps, p);
    BusyWith(s.workers, w, p);
    SentOnce(s.sent, x);
    TotalFixed(s0, steps);
  }

  lemma {:induction false} BusyWith(ws: seq<Worker>, i: nat, p: nat -> bool)
    requires i < |ws| && ws[i].phase.Busy? && p(ws[i].phase.task)
    ensures BusyCount(ws, p) > 0
    decreases |ws|
  {
    if i < |ws| - 1 { BusyWith(ws[..|ws| - 1], i, p); }
  }

  /** A busy worker can always end its task, if only with an error. */
  lemma FinishPossible(s: State, w: nat) returns (step: Step)
    requires w < |s.workers| && s.workers[w].phase.Busy? && s.workers[w].phase.task < |s.job.tasks|
    ensures step.Finish? && Enabled(s, step)
  {
    var t := s.job.tasks[s.workers[w].phase.task];
    step := Finish(w, false, [], s.filled);
    assert Reaches(s.job.keys, t, s.job.quiet, s.filled, s.filled, false, [], t.First(s.job.keys));
  }

  /** The master never waits for ever: until it is finished some step towards the end is possible. */
  lemma NoDeadlock(s0: State, steps: seq<Step>)
    requires Init(s0) && ValidRun(s0, steps) && !Finished(RunState(s0, steps))
    ensures exists step :: Productive(step) && Enabled(RunState(s0, steps), step)
  {
    var s := RunState(s0, steps);
    SizesAddUp(s0, steps);
    ConservationTheorem(s0, steps, Every);
    BusyExists(s.workers, Every);
    if s.sent < s.total {
      assert Productive(Send) && Enabled(s, Send);
    } else if BusyCount(s.workers, Every) > 0 {
      var w :| 0 <= w < |s.workers| && s.workers[w].phase.Busy?;
      BusyIsSent(s0, steps, w);
      var step := FinishPossible(s, w);
      assert Productive(step) && Enabled(s, step);
    } else if s.results != [] {
      assert Productive(Receive) && Enabled(s, Receive);
    } else {
      assert !s.workers[0].phase.Busy? by { if s.workers[0].phase.Busy? { BusyCounted(s.workers, 0); } }
      assert Productive(Take(0)) && Enabled(s, Take(0));
    }
  }

  function Work(s: State): int {
    4 * (s.total - s.sent) + 3 * |s.queue| + 2 * BusyCount(s.workers, Every) + |s.results|
  }

  lemma WorkStep(s: State, step: Step)
    requires Enabled(s, step)
    ensures if Productive(step) then Work(Apply(s, step)) < Work(s) else Work(Apply(s, step)) == Work(s)
  {
    match step
    case Take(w) => BusyUpdate(s.workers, w, s.workers[w].(phase := Busy(s.queue[0])), Every);
    case Finish(w, ok, key, _) => BusyUpdate(s.workers, w, s.workers[w].(phase := if ok then Idle else Exited), Every);
    case Leave(w) => BusyUpdate(s.workers, w, s.workers[w].(phase := Exited), Every);
    case AddWorker => assert Apply(s, step).workers[..|s.workers|] == s.workers;
    case CancelFrom(k) => BusySame(s.workers, Apply(s, step).workers, Every);
    case _ =>
  }

  function ProductiveSteps(steps: seq<Step>): nat {
    if steps == [] then 0 else (if Productive(steps[0]) then 1 else 0) + ProductiveSteps(steps[1..])
  }

  lemma {:induction false} RunWork(s: State, steps: seq<Step>)
    requires ValidRun(s, steps)
    ensures Work(RunState(s, steps)) + ProductiveSteps(steps) <= Work(s)
    decreases |steps|
  {
    if steps != [] {
      WorkStep(s, steps[0]);
      RunWork(Apply(s, steps[0]), steps[1..]);
    }
  }

  /** Every run takes at most four steps towards the end per task. */
  lemma RunsAreBounded(s0: State, steps: seq<Step>)
    requires Init(s0) && ValidRun(s0, steps)
    ensures ProductiveSteps(steps) <= 4 * s0.total
  {
    RunWork(s0, steps);
    IdleCount(s0.workers, Every);
    ConservationTheorem(s0, steps, Every);
    TotalFixed(s0, steps);
  }

  lemma {:induction false} TotalFixed(s: State, steps: seq<Step>)
    requires ValidRun(s, steps)
    ensures RunState(s, steps).total == s.total && RunState(s, steps).job == s.job
    decreases |steps|
  {
    if steps != [] { TotalFixed(Apply(s, steps[0]), steps[1..]); }
  }

  // ----- What the results say -----

  lemma {:induction false} ReportCounted(rs: seq<Report>, i: nat, p: nat -> bool)
    requires i < |rs| && p(rs[i].id)
    ensures ReportCount(rs, p) >= 1
    decreases |rs|
  {
    if i < |rs| - 1 { ReportCounted(rs[..|rs| - 1], i, p); }
  }

  lemma {:induction false} TwoReports(rs: seq<Report>, i: nat, j: nat, p: nat -> bool)
    requires i < j < |rs| && p(rs[i].id) && p(rs[j].id)
    ensures ReportCount(rs, p) >= 2
    decreases |rs|
  {
    var n := |rs| - 1;
    if j < n { TwoReports(rs[..n], i, j, p); } else { ReportCounted(rs[..n], i, p); }
  }

  lemma {:induction false} ReportFound(rs: seq<Report>, p: nat -> bool)
    requires ReportCount(rs, p) >= 1
    ensures exists i :: 0 <= i < |rs| && p(rs[i].id)
    decreases |rs|
  {
    var n := |rs| - 1;
    if !p(rs[n].id) {
      ReportFound(rs[..n], p);
      var i :| 0 <= i < n && p(rs[..n][i].id);
      assert p(rs[i].id);
    }
  }

  lemma {:induction false} SentOnce(n: nat, x: nat)
    ensures SentCount(n, y => y == x) == if x < n then 1 else 0
  {
    if n > 0 { SentOnce(n - 1, x); }
  }

  predicate DistinctIds(rs: seq<Report>) {
    forall i, j :: 0 <= i < j < |rs| ==> rs[i].id != rs[j].id
  }

  /** The master never reads two results of the same task. */
  lemma ResultsAreDistinct(s0: State, steps: seq<Step>)
    requires Init(s0) && ValidRun(s0, steps)
    ensures DistinctIds(RunState(s0, steps).got)
  {
    var s := RunState(s0, steps);
    forall i, j | 0 <= i < j < |s.got|
      ensures s.got[i].id != s.got[j].id
    {
      var x := s.got[i].id;
      var p: nat -> bool := y => y == x;
      ConservationTheorem(s0, steps, p);
      SentOnce(s.sent, x);
      if s.got[j].id == x { TwoReports(s.got, i, j, p); }
    }
  }

  predicate DoneOk(rs: seq<Report>, id: nat) {
    exists i :: 0 <= i < |rs| && rs[i].id == id && rs[i].ok
  }

  /** The master ends without an error exactly when every task of the batch has reported success. */
  lemma ErrorFreeMeansAllDone(s0: State, steps: seq<Step>)
    requires Init(s0) && ValidRun(s0, steps) && Finished(RunState(s0, steps))
    ensures !AnyError(RunState(s0, steps).got)
            <==> forall id: nat :: id < RunState(s0, steps).total ==> DoneOk(RunState(s0, steps).got, id)
  {
    var s := RunState(s0, steps);
    if AnyError(s.got) {
      var i :| 0 <= i < |s.got| && !s.got[i].ok;
      var x := s.got[i].id;
      var p: nat -> bool := y => y == x;
      ConservationTheorem(s0, steps, p);
      SentOnce(s.sent, x);
      ReportCounted(s.got, i, p);
      ResultsAreDistinct(s0, steps);
      assert !DoneOk(s.got, x);
    } else {
      forall id: nat | id < s.total
        ensures DoneOk(s.got, id)
      {
        var p: nat -> bool := y => y == id;
        ConservationTheorem(s0, steps, p);
        QuiescentAtExit(s0, steps);
        IdleCount(s.workers, p);
        SentOnce(s.sent, id);
        ReportFound(s.got, p);
      }
    }
  }

  // ----- What the workers have filled -----

  /** The rows of the task are filled, and the reported key is the one behind it. */
  ghost predicate Truthful(s: State, r: Report) {
    r.ok ==>
      && r.id < |s.job.tasks| && r.nextKey == Next(s.job.tasks[r.id].endKey)
      && TaskFilled(s.job.keys, s.job.tasks[r.id], s.filled)
  }

  ghost predicate InSomeTask(job: Job, k: Key) {
    exists id, i :: 0 <= id < |job.tasks| && 0 <= i < |job.keys| && RowOf(job.keys, job.tasks[id], i) && job.keys[i] == k
  }

  predicate RowOf(keys: seq<Key>, task: Task, i: nat) {
    task.First(keys) <= i < task.End(keys)
  }

  /** Successful reports are true, whatever has happened since; without statements only rows of tasks were filled. */
  ghost predicate FilledInv(s: State, before: set<Key>) {
    && before <= s.filled
    && (forall i :: 0 <= i < |s.results| ==> Truthful(s, s.results[i]))
    && (forall i :: 0 <= i < |s.got| ==> Truthful(s, s.got[i]))
    && (s.job.quiet ==> forall k :: k in s.filled ==> k in before || InSomeTask(s.job, k))
  }

  lemma TruthfulLater(s: State, after: set<Key>, r: Report)
    requires Truthful(s, r) && s.filled <= after
    ensures Truthful(s.(filled := after), r)
  {
  }

  lemma FinishFills(s: State, before: set<Key>, w: nat, ok: bool, key: Key, after: set<Key>)
    requires FilledInv(s, before) && Enabled(s, Finish(w, ok, key, after))
    ensures FilledInv(Apply(s, Finish(w, ok, key, after)), before)
  {
    var id := s.workers[w].phase.task;
    EffectFills(s, id, ok, key, after);
    var now := Apply(s, Finish(w, ok, key, after));
    forall i | 0 <= i < |now.results| ensures Truthful(now, now.results[i]) {
      if i < |s.results| { TruthfulLater(s, after, s.results[i]); }
    }
    forall i | 0 <= i < |now.got| ensures Truthful(now, now.got[i]) {
      TruthfulLater(s, after, s.got[i]);
    }
  }

  /** What the effect of one task means for the whole. */
  lemma EffectFills(s: State, id: nat, ok: bool, key: Key, after: set<Key>)
    requires id < |s.job.tasks| && TaskEffect(s.job.keys, s.job.tasks[id], s.job.quiet, s.filled, after, ok, key)
    ensures s.filled <= after && Truthful(s.(filled := after), Report(id, key, ok))
    ensures s.job.quiet ==> forall k :: k in after ==> k in s.filled || InSomeTask(s.job, k)
  {
    var t, keys := s.job.tasks[id], s.job.keys;
    var reached: nat :| Reaches(keys, t, s.job.quiet, s.filled, after, ok, key, reached);
    if s.job.quiet {
      forall k | k in after && k !in s.filled ensures InSomeTask(s.job, k) {
        var i :| 0 <= i < |keys[t.First(keys)..reached]| && keys[t.First(keys)..reached][i] == k;
        assert RowOf(keys, t, t.First(keys) + i) && keys[t.First(keys) + i] == k;
      }
    }
  }

  lemma FilledStep(s: State, before: set<Key>, step: Step)
    requires FilledInv(s, before) && Enabled(s, step)
    ensures FilledInv(Apply(s, step), before)
  {
    if step.Finish? {
      FinishFills(s, before, step.w, step.ok, step.key, step.after);
    } else {
      var now := Apply(s, step);
      forall i | 0 <= i < |now.results| ensures Truthful(now, now.results[i]) {
        if step.Receive? { assert Truthful(s, s.results[i + 1]); } else { assert Truthful(s, s.results[i]); }
      }
      forall i | 0 <= i < |now.got| ensures Truthful(now, now.got[i]) {
        if i < |s.got| { assert Truthful(s, s.got[i]); } else { assert Truthful(s, s.results[0]); }
      }
    }
  }

  lemma {:induction false} RunFills(s: State, before: set<Key>, steps: seq<Step>)
    requires FilledInv(s, before) && ValidRun(s, steps)
    ensures FilledInv(RunState(s, steps), before)
    decreases |steps|
  {
    if steps != [] {
      FilledStep(s, before, steps[0]);
      RunFills(Apply(s, steps[0]), before, steps[1..]);
    }
  }

  function Sum(xs: seq<nat>): nat {
    if xs == [] then 0 else Sum(xs[..|xs| - 1]) + xs[|xs| - 1]
  }

  /** The drained tasks are accounted for at the results that drained them. */
  predicate DrainsInv(s: State) {
    && |s.drains| == |s.got| && Sum(s.drains) == |s.drained|
    && forall i :: 0 <= i < |s.got| && s.got[i].ok ==> s.drains[i] == 0
  }

  lemma DrainsStep(s: State, step: Step)
    requires DrainsInv(s) && Enabled(s, step)
    ensures DrainsInv(Apply(s, step))
  {
    if step.Receive? { assert Apply(s, step).drains[..|s.drains|] == s.drains; }
  }

  lemma {:induction false} RunDrains(s: State, steps: seq<Step>)
    requires DrainsInv(s) && ValidRun(s, steps)
    ensures DrainsInv(RunState(s, steps))
    decreases |steps|
  {
    if steps != [] {
      DrainsStep(s, steps[0]);
      RunDrains(Apply(s, steps[0]), steps[1..]);
    }
  }

  /** A finished run: what the master has read is a true account of what has been done, and nothing is missing from it. */
  lemma FinishedRun(s0: State, steps: seq<Step>)
    requires Init(s0) && ValidRun(s0, steps) && Finished(RunState(s0, steps))
    ensures var s := RunState(s0, steps);
            && s.job == s0.job && FilledInv(s, s0.filled) && DrainsInv(s) && DistinctIds(s.got)
            && |s.got| + Sum(s.drains) == |s0.job.tasks|
            && (!AnyError(s.got) <==> forall id: nat :: id < |s0.job.tasks| ==> DoneOk(s.got, id))
  {
    RunFills(s0, s0.filled, steps);
    RunDrains(s0, steps);
    ResultsAreDistinct(s0, steps);
    TotalFixed(s0, steps);
    ConservationTheorem(s0, steps, Every);
    ErrorFreeMeansAllDone(s0, steps);
  }

  // ----- Every run can be brought to an end -----

  lemma {:induction false} Append(s: State, a: seq<Step>, step: Step)
    requires ValidRun(s, a) && Enabled(RunState(s, a), step)
    ensures ValidRun(s, a + [step]) && RunState(s, a + [step]) == Apply(RunState(s, a), step)
    decreases |a|
  {
    if a == [] {
      assert a + [step] == [step];
      assert [step][1..] == [];
    } else {
      assert (a + [step])[1..] == a[1..] + [step];
      Append(Apply(s, a[0]), a[1..], step);
    }
  }

  lemma {:induction false} CanFinish(s0: State, steps: seq<Step>) returns (more: seq<Step>)
    requires Init(s0) && ValidRun(s0, steps)
    ensures steps <= more && ValidRun(s0, more) && Finished(RunState(s0, more))
    decreases Work(RunState(s0, steps))
  {
    var s := RunState(s0, steps);
    if Finished(s) {
      more := steps;
    } else {
      NoDeadlock(s0, steps);
      var step :| Productive(step) && Enabled(s, step);
      Append(s0, steps, step);
      WorkStep(s, step);
      ConservationTheorem(s0, steps + [step], Every);
      more := CanFinish(s0, steps + [step]);
    }
  }
}
