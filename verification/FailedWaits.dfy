/** What a failed wait for the other servers costs, state by state (ddl/ddl_worker.go, lease > 0). */
module FailedWaits {
  import opened TableInfo
  import opened SchemaSync

  function NextState(c: Cluster): SchemaState
    requires c.history != []
  {
    Round(c.kind, c.job, c.history[|c.history| - 1]).0
  }

  /** The next round's state fits every version that some server has or can still load. */
  predicate Harmless(c: Cluster)
    requires c.history != []
  {
    forall i, v :: 0 <= i < |c.loaded| && c.loaded[i] <= v < |c.history| ==> Near(c.history[v], NextState(c))
  }

  /** Any two versions that servers have or can still load fit each other. */
  predicate Close(c: Cluster) {
    forall i, u, v :: 0 <= i < |c.loaded| && c.loaded[i] <= u <= v < |c.history| ==> Near(c.history[u], c.history[v])
  }

  predicate WaitInv(c: Cluster) {
    && c.history != [] && EdgesOnly(c.history) && OnPath(c) && LoadedWithin(c, 0) && Close(c)
    && (c.phase.Waiting? ==> c.phase.version == Latest(c))
    && (c.phase == Ready ==> Harmless(c))
  }

  lemma NextFitsLatest(c: Cluster)
    requires c.history != []
    ensures Near(c.history[|c.history| - 1], NextState(c))
  {
    RoundFollowsEdges(c.kind, c.job, c.history[|c.history| - 1]);
  }

  lemma AllLoadedHarmless(c: Cluster)
    requires c.history != [] && AllLoaded(c, Latest(c))
    ensures Harmless(c)
  {
    NextFitsLatest(c);
  }

  /** The first round of a rollback fits, wherever on the path the cancelled job stands. */
  lemma CancelHarmless(c: Cluster)
    requires c.history != [] && OnPath(c) && Close(c) && LoadedWithin(c, 0) && c.job == Cancelling
    ensures Harmless(c)
  {
    var n := |c.history|;
    NextFitsLatest(c);
    if n > 1 {
      assert c.history == ADD_PATH[..n];
      forall i, v | 0 <= i < |c.loaded| && c.loaded[i] <= v < n
        ensures Near(c.history[v], NextState(c))
      {
        assert c.history[v] == ADD_PATH[v] && c.history[n - 1] == ADD_PATH[n - 1];
        if n > 2 && v == 0 { assert Near(c.history[0], c.history[2]) && c.history[2] == ADD_PATH[2]; }
      }
    }
  }

  /** A round that changes no state leaves a harmless situation. */
  lemma IdleRoundHarmless(c: Cluster)
    requires WaitInv(c) && c.phase == Ready && NextState(c) == c.history[|c.history| - 1]
    ensures Harmless(Apply(c, Run))
  {
    var n, d := |c.history|, Apply(c, Run);
    if c.job == Cancelling && n > 1 {
      assert c.history == ADD_PATH[..n];
      assert c.history[n - 1] == ADD_PATH[n - 1];
      assert n == 2 && d.job == Rollingback && NextState(d) == DeleteReorganization;
      assert c.history[0] == StateNone;
    } else if c.job in {Queueing, Running} {
      var path := if c.kind == AddColumn then ADD_PATH else DROP_PATH;
      assert c.history[n - 1] == path[n - 1];
    } else {
      assert n == 1 || d == c;
      NextFitsLatest(d);
    }
  }

  lemma RunKeepsClose(c: Cluster)
    requires WaitInv(c) && c.phase == Ready && NextState(c) != c.history[|c.history| - 1]
    ensures Close(Apply(c, Run))
  {
  }

  lemma RunKeepsWaitInv(c: Cluster)
    requires WaitInv(c) && c.phase == Ready
    ensures WaitInv(Apply(c, Run))
  {
    RoundFollowsEdges(c.kind, c.job, c.history[|c.history| - 1]);
    RoundStaysOnPath(c);
    if NextState(c) == c.history[|c.history| - 1] {
      IdleRoundHarmless(c);
    } else {
      RunKeepsClose(c);
    }
  }

  lemma SyncedHarmless(c: Cluster)
    requires WaitInv(c) && Enabled(c, Synced)
    ensures Harmless(c)
  {
    if c.job == Cancelling {
      CancelHarmless(c);
    } else if JobWaits(c.job) {
      AllLoadedHarmless(c);
    } else {
      NextFitsLatest(c);
    }
  }

  lemma CancelKeeps(c: Cluster)
    requires WaitInv(c) && Enabled(c, CancelRequest)
    ensures WaitInv(Apply(c, CancelRequest))
  {
    var path := if c.kind == AddColumn then ADD_PATH else DROP_PATH;
    assert c.history[|c.history| - 1] == path[|c.history| - 1];
    CancelHarmless(Apply(c, CancelRequest));
  }

  lemma PhaseKeeps(c: Cluster, phase: Phase)
    requires WaitInv(c) && !phase.Waiting? && (phase == Ready ==> Harmless(c))
    ensures WaitInv(c.(phase := phase))
  {
  }

  lemma LoadKeeps(c: Cluster, i: nat, v: nat)
    requires WaitInv(c) && Enabled(c, Load(i, v))
    ensures WaitInv(Apply(c, Load(i, v)))
  {
  }

  lemma JoinKeeps(c: Cluster)
    requires WaitInv(c)
    ensures WaitInv(Apply(c, Join))
  {
    var n, d := |c.loaded|, Apply(c, Join);
    NextFitsLatest(c);
    assert forall i :: 0 <= i < n ==> d.loaded[i] == c.loaded[i];
    assert d.loaded[n] == |c.history| - 1 && NextState(d) == NextState(c);
    assert Close(d);
  }

  /** Every step keeps the servers' states close, a failed wait when it is harmless. */
  lemma StepKeepsClose(c: Cluster, step: Step)
    requires WaitInv(c) && Enabled(c, step) && (step == WaitFailed ==> Harmless(c))
    ensures WaitInv(Apply(c, step))
  {
    match step
    case Load(i, v) => LoadKeeps(c, i, v);
    case Join => JoinKeeps(c);
    case Run => RunKeepsWaitInv(c);
    case RunFailed =>
    case CancelRequest => CancelKeeps(c);
    case Synced => SyncedHarmless(c); PhaseKeeps(c, Ready);
    case Waited => AllLoadedHarmless(c); PhaseKeeps(c, Ready);
    case WaitFailed => PhaseKeeps(c, Ready);
    case Crash => PhaseKeeps(c, Fresh);
  }

  /** Every failed wait of the run is harmless. */
  predicate HarmlessWaits(c: Cluster, steps: seq<Step>)
    requires ValidRun(c, steps)
    decreases |steps|
  {
    steps == [] || ((steps[0] == WaitFailed ==> Harmless(c)) && HarmlessWaits(Apply(c, steps[0]), steps[1..]))
  }

  lemma {:induction false} RunKeepsWait(c: Cluster, steps: seq<Step>)
    requires WaitInv(c) && ValidRun(c, steps) && HarmlessWaits(c, steps)
    ensures WaitInv(RunState(c, steps))
    decreases |steps|
  {
    if steps != [] {
      StepKeepsClose(c, steps[0]);
      RunKeepsWait(Apply(c, steps[0]), steps[1..]);
    }
  }

  lemma {:induction false} NoneFailed(c: Cluster, steps: seq<Step>)
    requires ValidRun(c, steps) && NoFailedWait(steps)
    ensures HarmlessWaits(c, steps)
    decreases |steps|
  {
    if steps != [] {
      assert steps[0] in steps && forall s :: s in steps[1..] ==> s in steps;
      NoneFailed(Apply(c, steps[0]), steps[1..]);
    }
  }

  /** Some two servers see the column more than one state apart. */
  ghost predicate Drifted(c: Cluster) {
    exists i, j :: 0 <= i < |c.loaded| && 0 <= j < |c.loaded| && !OneStateApart(c, i, j)
  }

  lemma CloseIsNotDrifted(c: Cluster)
    requires WaitInv(c)
    ensures !Drifted(c)
  {
    forall i, j | 0 <= i < |c.loaded| && 0 <= j < |c.loaded| ensures OneStateApart(c, i, j) {
      if c.loaded[i] <= c.loaded[j] {
        assert Near(c.history[c.loaded[i]], c.history[c.loaded[j]]);
      } else {
        assert Near(c.history[c.loaded[j]], c.history[c.loaded[i]]);
      }
    }
  }

  /** Through every run whose failed waits are harmless, however many, no two servers see states further apart than one. */
  lemma HarmlessRunsStayClose(c: Cluster, steps: seq<Step>)
    requires Init(c) && ValidRun(c, steps) && HarmlessWaits(c, steps)
    ensures WaitInv(RunState(c, steps)) && !Drifted(RunState(c, steps))
  {
    RunKeepsWait(c, steps);
    CloseIsNotDrifted(RunState(c, steps));
  }

  // ----- A wait that fails in any other situation -----

  /** Servers drift apart although no further wait fails. */
  ghost predicate CanDrift(c: Cluster) {
    exists steps :: ValidRun(c, steps) && NoFailedWait(steps) && Drifted(RunState(c, steps))
  }

  lemma DriftsAfter(c: Cluster, step: Step)
    requires c.history != [] && Enabled(c, step) && step != WaitFailed && CanDrift(Apply(c, step))
    ensures CanDrift(c)
  {
    var d := Apply(c, step);
    var rest :| ValidRun(d, rest) && NoFailedWait(rest) && Drifted(RunState(d, rest));
    Cons(c, step, rest);
    assert NoFailedWait([step] + rest);
  }

  /** Server i at a version that the next state does not fit, the owner ready: run the job, and let a server join. */
  lemma RunThenJoin(c: Cluster, i: nat)
    requires c.history != [] && c.phase == Ready && i < |c.loaded| && c.loaded[i] < |c.history|
    requires !Near(c.history[c.loaded[i]], NextState(c)) && NextState(c) != c.history[|c.history| - 1]
    ensures CanDrift(c)
  {
    var c1 := Apply(c, Run);
    var c2 := Apply(c1, Join);
    assert !OneStateApart(c2, i, |c.loaded|);
    assert ValidRun(c2, []) && NoFailedWait([]) && Drifted(RunState(c2, []));
    DriftsAfter(c1, Join);
    DriftsAfter(c, Run);
  }

  lemma StaysClose(c: Cluster, steps: seq<Step>)
    requires WaitInv(c) && ValidRun(c, steps) && NoFailedWait(steps)
    ensures !Drifted(RunState(c, steps))
  {
    NoneFailed(c, steps);
    RunKeepsWait(c, steps);
    CloseIsNotDrifted(RunState(c, steps));
  }

  lemma HarmfulWaitDrifts(c: Cluster, i: nat, v: nat)
    requires WaitInv(c) && Enabled(c, WaitFailed)
    requires i < |c.loaded| && c.loaded[i] <= v < |c.history| && !Near(c.history[v], NextState(c))
    ensures CanDrift(Apply(c, WaitFailed))
  {
    var d := Apply(c, WaitFailed);
    assert Near(c.history[v], c.history[|c.history| - 1]);
    if v == c.loaded[i] {
      RunThenJoin(d, i);
    } else {
      RunThenJoin(Apply(d, Load(i, v)), i);
      DriftsAfter(d, Load(i, v));
    }
  }

  /**
    In every situation a run can reach, a failed wait lets servers drift more than one state apart, with no further wait
    failing, if and only if the next round's state does not fit some version that a server has or can still load.
   */
  lemma FailedWaitExact(c: Cluster)
    requires WaitInv(c) && Enabled(c, WaitFailed)
    ensures CanDrift(Apply(c, WaitFailed)) <==> !Harmless(c)
  {
    var d := Apply(c, WaitFailed);
    if Harmless(c) {
      StepKeepsClose(c, WaitFailed);
      if CanDrift(d) {
        var steps :| ValidRun(d, steps) && NoFailedWait(steps) && Drifted(RunState(d, steps));
        StaysClose(d, steps);
      }
    } else {
      var i, v :| 0 <= i < |c.loaded| && c.loaded[i] <= v < |c.history| && !Near(c.history[v], NextState(c));
      HarmfulWaitDrifts(c, i, v);
    }
  }

  /** With every server at the latest version or the one before, as after a run that skipped nothing, one server decides. */
  lemma ServerBehindDecides(c: Cluster, i: nat)
    requires Inv(c) && OnPath(c) && Enabled(c, WaitFailed) && i < |c.loaded| && c.loaded[i] < Latest(c)
    ensures CanDrift(Apply(c, WaitFailed)) <==> !Near(c.history[c.loaded[i]], NextState(c))
  {
    var n := |c.history|;
    NextFitsLatest(c);
    assert Edge(c.history[n - 2], c.history[n - 1]);
    FailedWaitExact(c);
  }
}
