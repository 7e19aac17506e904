/** How far servers can drift apart while a column job changes the schema (ddl/ddl_worker.go, lease > 0). */
module SchemaSync {
  import opened TableInfo
  import ColumnOrder
  import Jobs = ColumnJobs

  datatype Kind = AddColumn | DropColumn

  datatype JobState = Queueing | Running | Cancelling | Rollingback | Done | RollbackDone | Cancelled

  /** The worker loop: before its first wait (`once`), ready to run the job, or waiting for a version it has stored. */
  datatype Phase = Fresh | Ready | Waiting(version: nat)

  /** `history[v]` is the column's state in schema version v, `loaded[i]` the version server i works with. */
  datatype Cluster = Cluster(kind: Kind, history: seq<SchemaState>, loaded: seq<nat>, phase: Phase, job: JobState)

  datatype Step =
    | Load(server: nat, version: nat)
    | Join                   // a server starts and loads the latest version
    | Synced                 // waitSchemaSynced returns
    | Run                    // a round of the job is stored
    | RunFailed              // a round ends in an error and stores nothing
    | Waited                 // OwnerCheckAllVersions has succeeded
    | WaitFailed             // it has failed; the worker goes on all the same
    | Crash                  // the owner crashes or another one is elected
    | CancelRequest

  // ----- The job's rounds, reduced to the column's state -----

  /** onAddColumn, onDropColumn and rollingbackAddColumn: the next state of the column and of the job. */
  function Round(kind: Kind, job: JobState, s: SchemaState): (SchemaState, JobState) {
    match job
    case Cancelling =>
      if kind == DropColumn then (s, if s == Public then Cancelled else Running)
      else if s in {DeleteOnly, WriteOnly, WriteReorganization} then (DeleteOnly, Rollingback)
      else (s, Cancelled)
    case Rollingback =>
      if s == DeleteOnly then (DeleteReorganization, Rollingback)
      else if s == DeleteReorganization then (StateNone, RollbackDone)
      else (s, job)
    case Queueing => Forward(kind, s)
    case Running => Forward(kind, s)
    case _ => (s, job)
  }

  function Forward(kind: Kind, s: SchemaState): (SchemaState, JobState) {
    if kind == AddColumn then
      match s
      case StateNone => (DeleteOnly, Running)
      case DeleteOnly => (WriteOnly, Running)
      case WriteOnly => (WriteReorganization, Running)
      case WriteReorganization => (Public, Done)
      case _ => (s, Running)
    else
      match s
      case Public => (WriteOnly, Running)
      case WriteOnly => (DeleteOnly, Running)
      case DeleteOnly => (DeleteReorganization, Running)
      case DeleteReorganization => (StateNone, Done)
      case _ => (s, Running)
  }

  /** The edges of the state diagram of online schema change, and the short cut of a rollback. */
  predicate Edge(a: SchemaState, b: SchemaState) {
    (a, b) in {(StateNone, DeleteOnly), (DeleteOnly, WriteOnly), (WriteOnly, WriteReorganization), (WriteReorganization, Public),
               (Public, WriteOnly), (WriteOnly, DeleteOnly), (DeleteOnly, DeleteReorganization), (DeleteReorganization, StateNone),
               (WriteReorganization, DeleteOnly)}
  }

  lemma RoundFollowsEdges(kind: Kind, job: JobState, s: SchemaState)
    ensures Round(kind, job, s).0 == s || Edge(s, Round(kind, job, s).0)
  {
  }

  function StateOf(t: Table, name: string): SchemaState {
    var k := Find(t.columns, name);
    if k == |t.columns| then StateNone else t.columns[k].state
  }

  function JobOf(job: Jobs.JobState): JobState {
    match job
    case Running => Running
    case Rollingback => Rollingback
    case Done => Done
    case RollbackDone => RollbackDone
    case Cancelled => Cancelled
  }

  /** A round on the table leaves the column and the job in the given states. */
  predicate Leaves(now: Jobs.JobView, name: string, r: (SchemaState, JobState)) {
    StateOf(now.t, name) == r.0 && JobOf(now.job) == r.1
  }

  /** The rounds of the add-column job on the table itself: first those that only change the state. */
  lemma AddRoundsAgree(j: Jobs.AddJob, t0: Table, s: SchemaState)
    requires Jobs.Start(t0) && Jobs.AddFits(j, t0) && s in {DeleteOnly, WriteOnly}
    ensures Leaves(Jobs.AddRound(j, Jobs.JobView(Jobs.Extended(t0, j.def, s), Jobs.Running)), j.def.name.L, Round(AddColumn, Running, s))
  {
    var name, next := if j.pos.After? then j.pos.name else "", Round(AddColumn, Running, s).0;
    Jobs.ExtendedFinds(t0, j.def, s, name);
    Jobs.ExtendedSetState(t0, j.def, s, next);
    Jobs.ExtendedFinds(t0, j.def, next, name);
  }

  /** The first round, which adds the column, and a cancellation before it. */
  lemma AddFirstAgrees(j: Jobs.AddJob, t0: Table)
    requires Jobs.Start(t0) && Jobs.AddFits(j, t0) && |t0.columns| + 1 <= j.limit
    ensures StateOf(t0, j.def.name.L) == StateNone
    ensures Leaves(Jobs.AddRound(j, Jobs.JobView(t0, Jobs.Running)), j.def.name.L, Round(AddColumn, Queueing, StateNone))
    ensures Leaves(Jobs.AddCancel(j, Jobs.JobView(t0, Jobs.Running)), j.def.name.L, Round(AddColumn, Cancelling, StateNone))
  {
    Jobs.ExtendedFinds(t0, j.def, DeleteOnly, "");
  }

  /** The last round, which also moves the column, and a cancellation that finds it public. */
  lemma AddFinishAgrees(j: Jobs.AddJob, t0: Table)
    requires Jobs.Start(t0) && Jobs.AddFits(j, t0)
    ensures Leaves(Jobs.AddCancel(j, Jobs.JobView(Jobs.Added(j, t0), Jobs.Running)), j.def.name.L, Round(AddColumn, Cancelling, Public))
    ensures Leaves(Jobs.AddRound(j, Jobs.JobView(Jobs.Extended(t0, j.def, WriteReorganization), Jobs.Running)), j.def.name.L,
                   Round(AddColumn, Running, WriteReorganization))
  {
    var n := |t0.columns|;
    Jobs.AddFinishes(j, t0);
    Jobs.AddedWellFormed(j, t0);
    Jobs.ExtendedWellFormed(t0, j.def, Public);
    var dest := ColumnOrder.Locate(n, j.pos, if j.pos.After? then Find(t0.columns, j.pos.name) else 0);
    MoveColumnsAt(Jobs.Extended(t0, j.def, Public).columns, n, dest, n);
    FindIs(Jobs.Added(j, t0).columns, j.def.name.L, dest);
  }

  /** The round that turns a cancelled job into a rollback. */
  lemma AddCancelAgrees(j: Jobs.AddJob, t0: Table, s: SchemaState)
    requires Jobs.Start(t0) && Jobs.AddFits(j, t0) && s in {DeleteOnly, WriteOnly, WriteReorganization}
    ensures Leaves(Jobs.AddCancel(j, Jobs.JobView(Jobs.Extended(t0, j.def, s), Jobs.Running)), j.def.name.L,
                   Round(AddColumn, Cancelling, s))
  {
    var name := if j.pos.After? then j.pos.name else "";
    Jobs.ExtendedFinds(t0, j.def, s, name);
    Jobs.ExtendedSetState(t0, j.def, s, DeleteOnly);
    Jobs.ExtendedFinds(t0, j.def, DeleteOnly, name);
  }

  /** The rounds of a rollback. */
  lemma RollbackAgrees(j: Jobs.AddJob, t0: Table, s: SchemaState)
    requires Jobs.Start(t0) && Jobs.AddFits(j, t0) && s in {DeleteOnly, DeleteReorganization}
    ensures Leaves(Jobs.AddRound(j, Jobs.JobView(Jobs.Extended(t0, j.def, s), Jobs.Rollingback)), j.def.name.L,
                   Round(AddColumn, Rollingback, s))
  {
    Jobs.DropExtended(t0, j.def, s);
    Jobs.ExtendedFinds(t0, j.def, DeleteReorganization, "");
  }

  /** The first round of the drop-column job, and a cancellation before it. */
  lemma DropFirstAgrees(j: Jobs.DropJob, t0: Table)
    requires Jobs.Start(t0) && Jobs.DropFits(j, t0)
    ensures StateOf(t0, j.name) == Public
    ensures Leaves(Jobs.DropApply(j, Jobs.JobView(t0, Jobs.Running), Jobs.Round), j.name, Round(DropColumn, Queueing, Public))
    ensures Leaves(Jobs.DropApply(j, Jobs.JobView(t0, Jobs.Running), Jobs.CancelRequest), j.name, Round(DropColumn, Cancelling, Public))
  {
    Jobs.FirstDropRound(j, t0);
    Jobs.DroppingFind(t0, Find(t0.columns, j.name), WriteOnly);
  }

  /** The last round of the drop-column job takes the column away. */
  lemma LastDropRemoves(j: Jobs.DropJob, t0: Table, t: Table)
    requires Jobs.Start(t0) && Jobs.DropFits(j, t0) && Jobs.DropMiddle(j, t0, t)
    requires t.columns == Jobs.Dropping(t0, Find(t0.columns, j.name), DeleteReorganization)
    ensures StateOf(Jobs.DropRound(t, j.name).0, j.name) == StateNone && Jobs.DropRound(t, j.name).1 == Jobs.Dropped
  {
    var k, last := Find(t0.columns, j.name), |t.columns| - 1;
    Jobs.DroppingFind(t0, k, DeleteReorganization);
    Jobs.DroppingLinks(t0, k, DeleteReorganization, []);
    Jobs.StaysDroppable(t0, k, j.name, t);
    Jobs.DropLast(t, j.name);
    forall i | 0 <= i < last ensures t.columns[..last][i].name.L != j.name {
      assert t.columns[i].name.L != t.columns[last].name.L;
    }
  }

  lemma DropJobOf(j: Jobs.DropJob, t: Table, now: Table, outcome: Jobs.DropOutcome)
    requires j.allowed && Jobs.DropRound(t, j.name) == (now, outcome) && outcome in {Jobs.Dropped, Jobs.Continued}
    ensures Jobs.DropApply(j, Jobs.JobView(t, Jobs.Running), Jobs.Round)
         == Jobs.JobView(now, if outcome == Jobs.Dropped then Jobs.Done else Jobs.Running)
  {
  }

  lemma DropRoundLeaves(j: Jobs.DropJob, t0: Table, t: Table, s: SchemaState)
    requires Jobs.Start(t0) && Jobs.DropFits(j, t0) && Jobs.DropMiddle(j, t0, t)
    requires s in {WriteOnly, DeleteOnly, DeleteReorganization} && t.columns == Jobs.Dropping(t0, Find(t0.columns, j.name), s)
    ensures StateOf(Jobs.DropRound(t, j.name).0, j.name) == Round(DropColumn, Running, s).0
    ensures Jobs.DropRound(t, j.name).1 == if s == DeleteReorganization then Jobs.Dropped else Jobs.Continued
  {
    if s == DeleteReorganization {
      LastDropRemoves(j, t0, t);
    } else {
      Jobs.DropForward(j, t0, t, s);
      Jobs.DroppingFind(t0, Find(t0.columns, j.name), Round(DropColumn, Running, s).0);
    }
  }

  /** The later rounds of the drop-column job. */
  lemma DropRoundsAgree(j: Jobs.DropJob, t0: Table, t: Table, s: SchemaState)
    requires Jobs.Start(t0) && Jobs.DropFits(j, t0) && Jobs.DropMiddle(j, t0, t)
    requires s in {WriteOnly, DeleteOnly, DeleteReorganization} && t.columns == Jobs.Dropping(t0, Find(t0.columns, j.name), s)
    ensures Leaves(Jobs.DropApply(j, Jobs.JobView(t, Jobs.Running), Jobs.Round), j.name, Round(DropColumn, Running, s))
  {
    DropRoundLeaves(j, t0, t, s);
    DropJobOf(j, t, Jobs.DropRound(t, j.name).0, Jobs.DropRound(t, j.name).1);
  }

  /** A drop-column job that has begun goes on when it is cancelled. */
  lemma DropCancelAgrees(j: Jobs.DropJob, t0: Table, t: Table, s: SchemaState)
    requires Jobs.Start(t0) && Jobs.DropFits(j, t0)
    requires s in {WriteOnly, DeleteOnly, DeleteReorganization} && t.columns == Jobs.Dropping(t0, Find(t0.columns, j.name), s)
    ensures Leaves(Jobs.DropApply(j, Jobs.JobView(t, Jobs.Running), Jobs.CancelRequest), j.name, Round(DropColumn, Cancelling, s))
  {
    Jobs.DroppingFind(t0, Find(t0.columns, j.name), s);
  }

  // ----- The protocol -----

  function Latest(c: Cluster): int {
    |c.history| - 1
  }

  predicate AllLoaded(c: Cluster, version: int) {
    forall i :: 0 <= i < |c.loaded| ==> c.loaded[i] >= version
  }

  /** The states in which waitSchemaChanged and waitSchemaSynced wait at all. */
  predicate JobWaits(job: JobState) {
    job in {Running, Rollingback, Done, RollbackDone}
  }

  predicate Enabled(c: Cluster, step: Step) {
    match step
    case Load(i, v) => i < |c.loaded| && c.loaded[i] < v <= Latest(c)
    case Join => true
    case Synced => c.phase == Fresh && (JobWaits(c.job) ==> AllLoaded(c, Latest(c)))
    case Run => c.phase == Ready
    case RunFailed => c.phase == Ready
    case Waited => c.phase.Waiting? && AllLoaded(c, c.phase.version)
    case WaitFailed => c.phase.Waiting? || c.phase == Fresh
    case Crash => true
    // A drop-column job can be cancelled only before it has begun.
    case CancelRequest =>
      c.job in {Queueing, Running} && c.history != [] && (c.kind == DropColumn ==> c.history[|c.history| - 1] == Public)
  }

  function Apply(c: Cluster, step: Step): Cluster
    requires c.history != [] && Enabled(c, step)
  {
    match step
    case Load(i, v) => c.(loaded := c.loaded[i := v])
    case Join => c.(loaded := c.loaded + [|c.history| - 1])
    case Synced => c.(phase := Ready)
    case Run =>
      var s := c.history[|c.history| - 1];
      var (next, job) := Round(c.kind, c.job, s);
      // Without a change there is no new version and nothing to wait for.
      if next == s then c.(job := job) else c.(history := c.history + [next], job := job, phase := Waiting(|c.history|))
    case RunFailed => c
    case Waited => c.(phase := Ready)
    case WaitFailed => c.(phase := Ready)
    case Crash => c.(phase := Fresh)
    case CancelRequest => c.(job := Cancelling)
  }

  predicate Init(c: Cluster) {
    && |c.history| == 1 && c.history[0] == (if c.kind == AddColumn then StateNone else Public)
    && c.phase == Fresh && c.job == Queueing
    && forall i :: 0 <= i < |c.loaded| ==> c.loaded[i] == 0
  }

  /** A step that lets the owner go on although some server has not loaded the latest version. */
  predicate Skips(c: Cluster, step: Step) {
    && (step == WaitFailed || (step == Synced && !JobWaits(c.job)))
    && !AllLoaded(c, Latest(c))
  }

  predicate ValidRun(c: Cluster, steps: seq<Step>)
    decreases |steps|
  {
    c.history != [] &&
    (steps == [] || (Enabled(c, steps[0]) && ValidRun(Apply(c, steps[0]), steps[1..])))
  }

  function RunState(c: Cluster, steps: seq<Step>): Cluster
    requires ValidRun(c, steps)
    decreases |steps|
  {
    if steps == [] then c else RunState(Apply(c, steps[0]), steps[1..])
  }

  /** No step of the run skips a wait. */
  predicate NeverSkips(c: Cluster, steps: seq<Step>)
    requires ValidRun(c, steps)
    decreases |steps|
  {
    steps == [] || (!Skips(c, steps[0]) && NeverSkips(Apply(c, steps[0]), steps[1..]))
  }

  // ----- The invariant of runs that skip nothing -----

  predicate EdgesOnly(history: seq<SchemaState>) {
    forall v :: 0 <= v < |history| - 1 ==> Edge(history[v], history[v + 1])
  }

  predicate LoadedWithin(c: Cluster, low: int) {
    forall i :: 0 <= i < |c.loaded| ==> low <= c.loaded[i] <= Latest(c)
  }

  /** Every server has the latest version or the one before; an owner about to run the job knows that all have the latest. */
  predicate Calm(c: Cluster) {
    LoadedWithin(c, Latest(c) - 1) && (c.phase == Ready ==> AllLoaded(c, Latest(c)))
  }

  predicate Inv(c: Cluster) {
    && c.history != [] && EdgesOnly(c.history) && Calm(c)
    && (c.phase.Waiting? ==> c.phase.version == Latest(c))
  }

  lemma StepKeeps(c: Cluster, step: Step)
    requires Inv(c) && Enabled(c, step) && !Skips(c, step)
    ensures Inv(Apply(c, step))
  {
    if step == Run { RoundFollowsEdges(c.kind, c.job, c.history[|c.history| - 1]); }
  }

  lemma {:induction false} RunKeeps(c: Cluster, steps: seq<Step>)
    requires Inv(c) && ValidRun(c, steps) && NeverSkips(c, steps)
    ensures Inv(RunState(c, steps))
    decreases |steps|
  {
    if steps != [] {
      StepKeeps(c, steps[0]);
      RunKeeps(Apply(c, steps[0]), steps[1..]);
    }
  }

  /** Through every run that skips no wait, servers are at most one version apart. */
  lemma AtMostOneVersionApart(c: Cluster, steps: seq<Step>, i: nat, j: nat)
    requires Init(c) && ValidRun(c, steps) && NeverSkips(c, steps)
    requires i < |RunState(c, steps).loaded| && j < |RunState(c, steps).loaded|
    ensures RunState(c, steps).loaded[i] <= RunState(c, steps).loaded[j] + 1
  {
    RunKeeps(c, steps);
  }

  // ----- Cancelled jobs: a wait may be skipped, and the states still fit -----

  const ADD_PATH := [StateNone, DeleteOnly, WriteOnly, WriteReorganization, Public]
  const DROP_PATH := [Public, WriteOnly, DeleteOnly, DeleteReorganization, StateNone]

  predicate Near(a: SchemaState, b: SchemaState) {
    a == b || Edge(a, b) || Edge(b, a)
  }

  /** The history of a job that has not begun to roll back. */
  predicate OnPath(c: Cluster) {
    && (c.job in {Queueing, Running, Cancelling} ==> c.history <= if c.kind == AddColumn then ADD_PATH else DROP_PATH)
    && (c.job in {Queueing, Cancelled} ==> |c.history| == 1)
    && (c.job == Cancelling && c.kind == DropColumn ==> |c.history| == 1)
    && (c.job in {Running, Cancelling} ==> |c.history| < 5)
  }

  /** A cancelled job about to run although some servers are one version behind. */
  predicate Skipped(c: Cluster) {
    && c.phase == Ready && c.kind == AddColumn && LoadedWithin(c, Latest(c) - 1) && |c.history| > 1
    && (c.job == Cancelling || (c.job == Rollingback && c.history == [StateNone, DeleteOnly]))
  }

  /** The rollback has stored its first version with some servers two behind; now everybody is waited for. */
  predicate Behind(c: Cluster) {
    && c.phase != Ready && c.job == Rollingback && |c.history| > 2 && LoadedWithin(c, Latest(c) - 2)
    && Near(c.history[|c.history| - 3], c.history[|c.history| - 1])
  }

  predicate WeakInv(c: Cluster) {
    && c.history != [] && EdgesOnly(c.history) && OnPath(c)
    && (c.phase.Waiting? ==> c.phase.version == Latest(c))
    && (Calm(c) || Skipped(c) || Behind(c))
  }

  lemma RoundStaysOnPath(c: Cluster)
    requires c.history != [] && OnPath(c) && c.phase == Ready
    ensures OnPath(Apply(c, Run))
  {
    var n := |c.history|;
    if c.job in {Queueing, Running, Cancelling} {
      var path := if c.kind == AddColumn then ADD_PATH else DROP_PATH;
      assert c.history[n - 1] == path[n - 1];
      var next := Round(c.kind, c.job, c.history[n - 1]).0;
      if n < 5 && next == path[n] { assert c.history + [next] == path[..n + 1]; }
    }
  }

  /** What the first round of a rollback does to a history on the path, seen from a server one version behind. */
  lemma SkippedRun(c: Cluster)
    requires c.history != [] && OnPath(c) && EdgesOnly(c.history) && Skipped(c)
    ensures Skipped(Apply(c, Run)) || Behind(Apply(c, Run))
  {
    var n := |c.history|;
    if c.job == Cancelling {
      assert c.history == ADD_PATH[..n];
      assert c.history[n - 1] == ADD_PATH[n - 1] && c.history[n - 2] == ADD_PATH[n - 2];
      if n == 2 { assert c.history == [StateNone, DeleteOnly]; }
    }
  }

  lemma CalmRun(c: Cluster)
    requires c.history != [] && Calm(c) && c.phase == Ready
    ensures Calm(Apply(c, Run))
  {
  }

  lemma WeakStepKeeps(c: Cluster, step: Step)
    requires WeakInv(c) && Enabled(c, step) && step != WaitFailed
    ensures WeakInv(Apply(c, step))
  {
    if step == Run {
      RoundFollowsEdges(c.kind, c.job, c.history[|c.history| - 1]);
      RoundStaysOnPath(c);
      if Calm(c) { CalmRun(c); } else { SkippedRun(c); }
    } else if step == CancelRequest {
      var path := if c.kind == AddColumn then ADD_PATH else DROP_PATH;
      assert c.history[|c.history| - 1] == path[|c.history| - 1];
    }
  }

  predicate NoFailedWait(steps: seq<Step>) {
    WaitFailed !in steps
  }

  lemma {:induction false} WeakRunKeeps(c: Cluster, steps: seq<Step>)
    requires WeakInv(c) && ValidRun(c, steps) && NoFailedWait(steps)
    ensures WeakInv(RunState(c, steps))
    decreases |steps|
  {
    if steps != [] {
      assert steps[0] in steps && forall s :: s in steps[1..] ==> s in steps;
      WeakStepKeeps(c, steps[0]);
      WeakRunKeeps(Apply(c, steps[0]), steps[1..]);
    }
  }

  /** Two servers see the same state of the column, or states joined by an edge. */
  predicate OneStateApart(c: Cluster, i: nat, j: nat) {
    && i < |c.loaded| && j < |c.loaded| && c.loaded[i] < |c.history| && c.loaded[j] < |c.history|
    && Near(c.history[c.loaded[i]], c.history[c.loaded[j]])
  }

  /**
    Through every run in which no wait fails, with crashes, elections, joins and cancellations at any moment, any two
    servers see the column at most one schema state apart, even where a cancelled job has made the new owner skip a wait.
   */
  lemma AtMostOneStateApart(c: Cluster, steps: seq<Step>, i: nat, j: nat)
    requires Init(c) && ValidRun(c, steps) && NoFailedWait(steps)
    requires i < |RunState(c, steps).loaded| && j < |RunState(c, steps).loaded|
    ensures OneStateApart(RunState(c, steps), i, j)
    ensures RunState(c, steps).loaded[i] <= RunState(c, steps).loaded[j] + 2
  {
    WeakRunKeeps(c, steps);
    var s := RunState(c, steps);
    forall v | 0 <= v < Latest(s) ensures Near(s.history[v], s.history[v + 1]) {
      assert Edge(s.history[v], s.history[v + 1]);
    }
  }

  // ----- Skipping a wait loses the guarantee -----

  lemma Cons(c: Cluster, step: Step, rest: seq<Step>)
    requires c.history != [] && Enabled(c, step) && ValidRun(Apply(c, step), rest)
    ensures ValidRun(c, [step] + rest) && RunState(c, [step] + rest) == RunState(Apply(c, step), rest)
    ensures NeverSkips(c, [step] + rest) <==> !Skips(c, step) && NeverSkips(Apply(c, step), rest)
  {
    assert ([step] + rest)[1..] == rest;
  }

  const START := Cluster(AddColumn, [StateNone], [0, 0], Fresh, Queueing)
  const STORED := Cluster(AddColumn, [StateNone, DeleteOnly], [0, 0], Waiting(1), Running)

  /** Two servers and a job whose first round has stored its version. */
  lemma FirstRoundStored(rest: seq<Step>)
    requires ValidRun(STORED, rest)
    ensures Init(START) && ValidRun(START, [Synced] + ([Run] + rest))
    ensures RunState(START, [Synced] + ([Run] + rest)) == RunState(STORED, rest)
    ensures NeverSkips(START, [Synced] + ([Run] + rest)) <==> NeverSkips(STORED, rest)
  {
    var c := START.(phase := Ready);
    assert Apply(c, Run) == STORED && Apply(START, Synced) == c;
    Cons(c, Run, rest);
    Cons(START, Synced, [Run] + rest);
  }

  /** What follows a first version that one server has not loaded when the wait for it fails. */
  lemma FailedWaitDrifts(c: Cluster, rest: seq<Step>)
    requires c == STORED || c == STORED.(phase := Fresh)
    requires rest == [WaitFailed] + ([Run] + ([Load(1, 2)] + []))
    ensures ValidRun(c, rest) && !OneStateApart(RunState(c, rest), 0, 1)
  {
    var c1 := STORED.(phase := Ready);
    var c2 := Cluster(AddColumn, [StateNone, DeleteOnly, WriteOnly], [0, 0], Waiting(2), Running);
    assert Apply(c, WaitFailed) == c1 && Apply(c1, Run) == c2;
    Cons(c2, Load(1, 2), []);
    Cons(c1, Run, [Load(1, 2)] + []);
    Cons(c, WaitFailed, [Run] + ([Load(1, 2)] + []));
  }

  lemma CrashFirst(rest: seq<Step>)
    requires ValidRun(STORED.(phase := Fresh), rest)
    ensures ValidRun(STORED, [Crash] + rest) && RunState(STORED, [Crash] + rest) == RunState(STORED.(phase := Fresh), rest)
    ensures NeverSkips(STORED, [Crash] + rest) <==> NeverSkips(STORED.(phase := Fresh), rest)
  {
    Cons(STORED, Crash, rest);
  }

  /** A single failed wait, of the owner itself or of the next one after a crash, is enough to bring servers two states apart:
      one without the column, one writing it. */
  lemma FailedWaitBreaksIt(crash: bool) returns (steps: seq<Step>, rest: seq<Step>)
    ensures steps == [Synced] + ([Run] + if crash then [Crash] + rest else rest)
    ensures rest == [WaitFailed] + ([Run] + ([Load(1, 2)] + []))
    ensures Init(START) && ValidRun(START, steps) && !OneStateApart(RunState(START, steps), 0, 1)
  {
    rest := FailedRest(crash);
    if crash { CrashFirst(rest); }
    FirstRoundStored(if crash then [Crash] + rest else rest);
    steps := [Synced] + ([Run] + if crash then [Crash] + rest else rest);
  }

  lemma FailedRest(crash: bool) returns (rest: seq<Step>)
    ensures rest == [WaitFailed] + ([Run] + ([Load(1, 2)] + []))
    ensures var c := if crash then STORED.(phase := Fresh) else STORED; ValidRun(c, rest) && !OneStateApart(RunState(c, rest), 0, 1)
  {
    rest := [WaitFailed] + ([Run] + ([Load(1, 2)] + []));
    FailedWaitDrifts(if crash then STORED.(phase := Fresh) else STORED, rest);
  }

  /** A job cancelled after a crash: the next owner does not wait, and two versions lie between two servers. */
  lemma NextOwnerDoesNotWait(rest: seq<Step>)
    requires rest == [Synced] + ([Run] + ([Run] + ([Load(1, 2)] + [])))
    ensures var steps := [Synced] + ([Run] + ([Crash] + ([CancelRequest] + rest)));
            && Init(START) && ValidRun(START, steps) && !NeverSkips(START, steps) && NoFailedWait(steps)
            && RunState(START, steps).loaded == [0, 2]
            && RunState(START, steps).history == [StateNone, DeleteOnly, DeleteReorganization]
  {
    CancelledSkips(STORED.(phase := Fresh, job := Cancelling), rest);
    Cons(STORED.(phase := Fresh), CancelRequest, rest);
    CrashFirst([CancelRequest] + rest);
    FirstRoundStored([Crash] + ([CancelRequest] + rest));
  }

  lemma CancelledSkips(c: Cluster, rest: seq<Step>)
    requires c == STORED.(phase := Fresh, job := Cancelling)
    requires rest == [Synced] + ([Run] + ([Run] + ([Load(1, 2)] + [])))
    ensures ValidRun(c, rest) && !NeverSkips(c, rest)
    ensures RunState(c, rest).loaded == [0, 2] && RunState(c, rest).history == [StateNone, DeleteOnly, DeleteReorganization]
  {
    var c1 := c.(phase := Ready);
    var c2 := c1.(job := Rollingback);
    var c3 := Cluster(AddColumn, [StateNone, DeleteOnly, DeleteReorganization], [0, 0], Waiting(2), Rollingback);
    assert Apply(c2, Run) == c3 && Apply(c1, Run) == c2 && Apply(c, Synced) == c1;
    Cons(c3, Load(1, 2), []);
    Cons(c2, Run, [Load(1, 2)] + []);
    Cons(c1, Run, [Run] + ([Load(1, 2)] + []));
    assert c.loaded[0] < Latest(c);
    Cons(c, Synced, [Run] + ([Run] + ([Load(1, 2)] + [])));
  }
}
