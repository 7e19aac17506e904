/**
  The re-entrant schema-version lock, one atomic operation at a time (ddl/ddl.go), and its use by
  HandleDDLJobTable (ddl/ddl_worker.go).
 */
module VersionLock {

  /** Where a job's goroutine is. The loaded owner is what lockOwner.Load() returned. */
  datatype PC =
    | Outside                     // before runDDLJob, or back from HandleDDLJobTable
    | Running                     // inside runDDLJob, outside the lock manager
    | LockLoaded(owner: nat)      // lockSchemaVersion has read lockOwner
    | LockAcquired                // it has locked schemaVersionMu, and is about to store its ID
    | Generating                  // setSchemaVersion is about to run GenSchemaVersion in a transaction of its own
    | Returned                    // runDDLJob is over; the job's transaction is still open
    | TxnEnded                    // committed, rolled back or reset; about to unlock
    | UnlockLoaded(owner: nat)    // unlockSchemaVersion has read lockOwner
    | OwnerCleared                // it has stored 0, and is about to unlock schemaVersionMu

  /** A generated schema version and its diff: not decided yet by the generating job, written, or never to be written. */
  datatype Version = Pending(job: nat) | Written | Dropped

  /** Job IDs are positions plus one; mutex and owner are 0 or a job ID. versions[v] is schema version v + 1. */
  datatype State = State(pcs: seq<PC>, mutex: nat, owner: nat, versions: seq<Version>)

  datatype Step =
    | Begin(j: nat)
    | LoadForLock(j: nat)
    | Reenter(j: nat)                  // the loaded owner is this job: do not lock again
    | LockMutex(j: nat)
    | StoreOwner(j: nat)
    | Generate(j: nat, ok: bool)
    | Return(j: nat)
    | EndTxn(j: nat, committed: bool)
    | LoadForUnlock(j: nat)
    | NotOwner(j: nat)
    | ClearOwner(j: nat)
    | UnlockMutex(j: nat)

  predicate IsJob(s: State, j: nat) {
    1 <= j <= |s.pcs|
  }

  function At(s: State, j: nat): PC
    requires IsJob(s, j)
  {
    s.pcs[j - 1]
  }

  predicate Enabled(s: State, step: Step) {
    IsJob(s, step.j) &&
    var pc := At(s, step.j);
    match step
    case Begin(_) => pc.Outside?
    case LoadForLock(_) => pc.Running?
    case Reenter(j) => pc.LockLoaded? && pc.owner == j
    case LockMutex(j) => pc.LockLoaded? && pc.owner != j && s.mutex == 0
    case StoreOwner(_) => pc.LockAcquired?
    case Generate(_, _) => pc.Generating?
    case Return(_) => pc.Running?
    case EndTxn(_, _) => pc.Returned?
    case LoadForUnlock(_) => pc.TxnEnded?
    case NotOwner(j) => pc.UnlockLoaded? && pc.owner != j
    case ClearOwner(j) => pc.UnlockLoaded? && pc.owner == j
    case UnlockMutex(_) => pc.OwnerCleared?
  }

  function Goto(s: State, j: nat, pc: PC): State
    requires IsJob(s, j)
  {
    s.(pcs := s.pcs[j - 1 := pc])
  }

  /** The job's own transaction decides the diffs of the versions it generated. */
  function Decide(versions: seq<Version>, j: nat, committed: bool): seq<Version> {
    seq(|versions|, i requires 0 <= i < |versions| =>
          if versions[i] == Pending(j) then (if committed then Written else Dropped) else versions[i])
  }

  function Apply(s: State, step: Step): State
    requires Enabled(s, step)
  {
    match step
    case Begin(j) => Goto(s, j, Running)
    case LoadForLock(j) => Goto(s, j, LockLoaded(s.owner))
    case Reenter(j) => Goto(s, j, Generating)
    case LockMutex(j) => Goto(s, j, LockAcquired).(mutex := j)
    case StoreOwner(j) => Goto(s, j, Generating).(owner := j)
    case Generate(j, ok) => Goto(s, j, Running).(versions := if ok then s.versions + [Pending(j)] else s.versions)
    case Return(j) => Goto(s, j, Returned)
    case EndTxn(j, committed) => Goto(s, j, TxnEnded).(versions := Decide(s.versions, j, committed))
    case LoadForUnlock(j) => Goto(s, j, UnlockLoaded(s.owner))
    case NotOwner(j) => Goto(s, j, Outside)
    case ClearOwner(j) => Goto(s, j, OwnerCleared).(owner := 0)
    case UnlockMutex(j) => Goto(s, j, Outside).(mutex := 0)
  }

  predicate Init(s: State) {
    && s.mutex == 0 && s.owner == 0
    && (forall i :: 0 <= i < |s.pcs| ==> s.pcs[i].Outside?)
    && (forall v :: 0 <= v < |s.versions| ==> !s.versions[v].Pending?)
  }

  /** What holds of one job wherever it is. */
  predicate JobInv(s: State, j: nat)
    requires IsJob(s, j)
  {
    match At(s, j)
    case Outside => s.mutex != j && s.owner != j
    case LockLoaded(o) => (o == j <==> s.owner == j) && (s.mutex == j <==> s.owner == j)
    case LockAcquired => s.mutex == j && s.owner == 0
    case Generating => s.mutex == j && s.owner == j
    case UnlockLoaded(o) => (o == j <==> s.owner == j) && (s.mutex == j <==> s.owner == j)
    case OwnerCleared => s.mutex == j && s.owner == 0
    case _ => s.mutex == j <==> s.owner == j
  }

  /** A job that may still have an undecided version holds the lock and its transaction is open. */
  predicate MayBePending(s: State, j: nat) {
    IsJob(s, j) && s.owner == j &&
    match At(s, j)
    case Running => true
    case LockLoaded(_) => true
    case Generating => true
    case Returned => true
    case _ => false
  }

  ghost predicate Inv(s: State) {
    && (s.mutex != 0 ==> IsJob(s, s.mutex))
    && (s.owner != 0 ==> s.owner == s.mutex)
    && (forall j: nat :: IsJob(s, j) ==> JobInv(s, j))
    && (forall v :: 0 <= v < |s.versions| && s.versions[v].Pending? ==> MayBePending(s, s.versions[v].job))
    && (forall v, w :: 0 <= v < w < |s.versions| && s.versions[v].Pending? ==> s.versions[w].Pending?)
  }

  lemma OtherJobs(s: State, j: nat, pc: PC)
    requires IsJob(s, j)
    ensures forall k: nat :: IsJob(s, k) && k != j ==> At(Goto(s, j, pc), k) == At(s, k)
  {
  }

  lemma StepKeeps(s: State, step: Step)
    requires Inv(s) && Enabled(s, step)
    ensures Inv(Apply(s, step))
  {
    var j, s' := step.j, Apply(s, step);
    OtherJobs(s, j, s'.pcs[j - 1]);
    assert JobInv(s, j);
    forall k: nat | IsJob(s', k)
      ensures JobInv(s', k)
    {
      assert JobInv(s, k);
    }
  }

  predicate ValidRun(s: State, steps: seq<Step>)
    decreases |steps|
  {
    steps == [] || (Enabled(s, steps[0]) && ValidRun(Apply(s, steps[0]), steps[1..]))
  }

  function RunState(s: State, steps: seq<Step>): State
    requires ValidRun(s, steps)
    decreases |steps|
  {
    if steps == [] then s else RunState(Apply(s, steps[0]), steps[1..])
  }

  lemma {:induction false} RunKeeps(s: State, steps: seq<Step>)
    requires Inv(s) && ValidRun(s, steps)
    ensures Inv(RunState(s, steps))
    decreases |steps|
  {
    if steps != [] {
      StepKeeps(s, steps[0]);
      RunKeeps(Apply(s, steps[0]), steps[1..]);
    }
  }

  lemma InvAlways(s0: State, steps: seq<Step>)
    requires Init(s0) && ValidRun(s0, steps)
    ensures Inv(RunState(s0, steps))
  {
    RunKeeps(s0, steps);
  }

  /** Between its Lock and its Unlock of schemaVersionMu. */
  predicate Holds(s: State, j: nat) {
    IsJob(s, j) && (s.owner == j || At(s, j).LockAcquired? || At(s, j).OwnerCleared?)
  }

  /** In every run of any number of jobs the lock has at most one holder, and it is the one that locked the mutex. */
  lemma MutualExclusion(s0: State, steps: seq<Step>, j: nat, k: nat)
    requires Init(s0) && ValidRun(s0, steps)
    requires Holds(RunState(s0, steps), j) && Holds(RunState(s0, steps), k)
    ensures j == k == RunState(s0, steps).mutex
  {
    InvAlways(s0, steps);
    var s := RunState(s0, steps);
    assert JobInv(s, j) && JobInv(s, k);
  }

  /** Only the holder unlocks, and a version is generated only under the lock. */
  lemma OnlyTheHolderActs(s0: State, steps: seq<Step>, j: nat)
    requires Init(s0) && ValidRun(s0, steps) && IsJob(RunState(s0, steps), j)
    ensures var s := RunState(s0, steps);
            && (At(s, j).OwnerCleared? || At(s, j).Generating? ==> s.mutex == j)
            && (At(s, j).Outside? ==> s.mutex != j && s.owner != j)
  {
    InvAlways(s0, steps);
    assert JobInv(RunState(s0, steps), j);
  }

  /** The lock is re-entrant: the job that holds it always has a step to take, so it never waits for itself. */
  lemma HolderIsNeverBlocked(s0: State, steps: seq<Step>)
    requires Init(s0) && ValidRun(s0, steps) && RunState(s0, steps).mutex != 0
    ensures var s := RunState(s0, steps); exists step :: Enabled(s, step) && step.j == s.mutex
  {
    InvAlways(s0, steps);
    var s := RunState(s0, steps);
    var j := s.mutex;
    assert JobInv(s, j);
    var step := match At(s, j)
      case Outside => Begin(j)
      case Running => Return(j)
      case LockLoaded(_) => Reenter(j)
      case LockAcquired => StoreOwner(j)
      case Generating => Generate(j, true)
      case Returned => EndTxn(j, true)
      case TxnEnded => LoadForUnlock(j)
      case UnlockLoaded(_) => ClearOwner(j)
      case OwnerCleared => UnlockMutex(j);
    assert Enabled(s, step) && step.j == j;
  }

  /** Undecided versions all belong to one job, which still holds the lock, and they are the newest versions. */
  lemma OneJobIsPending(s0: State, steps: seq<Step>, v: nat, w: nat)
    requires Init(s0) && ValidRun(s0, steps)
    requires v <= w < |RunState(s0, steps).versions| && RunState(s0, steps).versions[v].Pending?
    ensures var s := RunState(s0, steps);
            s.versions[w] == s.versions[v] && s.versions[v].job == s.owner == s.mutex
  {
    InvAlways(s0, steps);
    var s := RunState(s0, steps);
    assert s.versions[w].Pending?;
    assert MayBePending(s, s.versions[v].job) && MayBePending(s, s.versions[w].job);
  }

  // ----- How many versions are undecided -----

  /** The versions job j has generated since its last transaction ended, counting on from c. */
  function GeneratedSince(steps: seq<Step>, j: nat, c: nat): nat {
    if steps == [] then c else GeneratedSince(steps[1..], j, CountStep(steps[0], j, c))
  }

  function CountStep(step: Step, j: nat, c: nat): nat {
    match step
    case Generate(i, ok) => if i == j && ok then c + 1 else c
    case EndTxn(i, _) => if i == j then 0 else c
    case _ => c
  }

  function PendingOf(versions: seq<Version>, j: nat): nat {
    if versions == [] then 0 else
      PendingOf(versions[..|versions| - 1], j) + if versions[|versions| - 1] == Pending(j) then 1 else 0
  }

  lemma {:induction false} DecideCount(versions: seq<Version>, i: nat, committed: bool, j: nat)
    ensures PendingOf(Decide(versions, i, committed), j) == if i == j then 0 else PendingOf(versions, j)
    decreases |versions|
  {
    if versions != [] {
      var n := |versions| - 1;
      assert Decide(versions, i, committed)[..n] == Decide(versions[..n], i, committed);
      DecideCount(versions[..n], i, committed, j);
    }
  }

  lemma PendingStep(s: State, step: Step, j: nat)
    requires Enabled(s, step)
    ensures PendingOf(Apply(s, step).versions, j) == CountStep(step, j, PendingOf(s.versions, j))
  {
    match step
    case Generate(i, ok) => assert (s.versions + [Pending(i)])[..|s.versions|] == s.versions;
    case EndTxn(i, committed) => DecideCount(s.versions, i, committed, j);
    case _ =>
  }

  lemma {:induction false} PendingCounted(s: State, steps: seq<Step>, j: nat)
    requires ValidRun(s, steps)
    ensures PendingOf(RunState(s, steps).versions, j) == GeneratedSince(steps, j, PendingOf(s.versions, j))
    decreases |steps|
  {
    if steps != [] {
      PendingStep(s, steps[0], j);
      PendingCounted(Apply(s, steps[0]), steps[1..], j);
    }
  }

  lemma {:induction false} NonePending(versions: seq<Version>, j: nat)
    requires forall v :: 0 <= v < |versions| ==> versions[v] != Pending(j)
    ensures PendingOf(versions, j) == 0
    decreases |versions|
  {
    if versions != [] { NonePending(versions[..|versions| - 1], j); }
  }

  lemma {:induction false} SomePending(versions: seq<Version>, j: nat, v: nat)
    requires v < |versions| && versions[v] == Pending(j)
    ensures PendingOf(versions, j) >= 1
    decreases |versions|
  {
    if v < |versions| - 1 { SomePending(versions[..|versions| - 1], j, v); }
  }

  /** In every run the undecided versions of a job are those it has generated since its last transaction ended. */
  lemma UndecidedAreGenerated(s0: State, steps: seq<Step>, j: nat)
    requires Init(s0) && ValidRun(s0, steps)
    ensures PendingOf(RunState(s0, steps).versions, j) == GeneratedSince(steps, j, 0)
  {
    NonePending(s0.versions, j);
    PendingCounted(s0, steps, j);
  }

  /**
    Everything below the newest version is decided, as GetSchemaVersionWithNonEmptyDiff relies on, exactly when the job
    that holds the lock has generated at most one version in its open transaction.
   */
  lemma OlderVersionsAreDecided(s0: State, steps: seq<Step>)
    requires Init(s0) && ValidRun(s0, steps)
    ensures var s := RunState(s0, steps);
            (forall v :: 0 <= v < |s.versions| - 1 ==> !s.versions[v].Pending?) <==> GeneratedSince(steps, s.mutex, 0) <= 1
  {
    var s := RunState(s0, steps);
    InvAlways(s0, steps);
    UndecidedAreGenerated(s0, steps, s.mutex);
    if |s.versions| > 0 {
      var n := |s.versions| - 1;
      if v :| 0 <= v < n && s.versions[v].Pending? {
        OneJobIsPending(s0, steps, v, n);
        SomePending(s.versions[..n], s.mutex, v);
      } else {
        NonePending(s.versions[..n], s.mutex);
      }
    }
  }

  /** What becomes of an undecided version of job j: the first end of its transaction says. */
  function Fate(steps: seq<Step>, j: nat): Version {
    if steps == [] then Pending(j)
    else if steps[0].EndTxn? && steps[0].j == j then (if steps[0].committed then Written else Dropped)
    else Fate(steps[1..], j)
  }

  lemma VersionStep(s: State, step: Step, v: nat)
    requires Enabled(s, step) && v < |s.versions|
    ensures v < |Apply(s, step).versions|
    ensures Apply(s, step).versions[v] == if s.versions[v].Pending? then Fate([step], s.versions[v].job) else s.versions[v]
  {
    if s.versions[v].Pending? { assert Fate([step][1..], s.versions[v].job) == s.versions[v]; }
  }

  /**
    Through every run a version is written if its job's transaction commits and dropped if it does not, whatever the other
    jobs do, and a decided version never changes again.
   */
  lemma {:induction false} TransactionDecides(s: State, steps: seq<Step>, v: nat)
    requires ValidRun(s, steps) && v < |s.versions|
    ensures v < |RunState(s, steps).versions|
    ensures RunState(s, steps).versions[v] ==
            if s.versions[v].Pending? then Fate(steps, s.versions[v].job) else s.versions[v]
    decreases |steps|
  {
    if steps != [] {
      VersionStep(s, steps[0], v);
      TransactionDecides(Apply(s, steps[0]), steps[1..], v);
    }
  }

  lemma Cons(s: State, step: Step, rest: seq<Step>)
    requires Enabled(s, step) && ValidRun(Apply(s, step), rest)
    ensures ValidRun(s, [step] + rest) && RunState(s, [step] + rest) == RunState(Apply(s, step), rest)
  {
    assert ([step] + rest)[1..] == rest;
  }

  /** The job holds the lock with one version generated, and generates another. */
  lemma SecondVersion(s: State) returns (steps: seq<Step>)
    requires s == State([Running], 1, 1, [Pending(1)])
    ensures ValidRun(s, steps) && RunState(s, steps).versions == [Pending(1), Pending(1)]
  {
    var s1 := s.(pcs := [LockLoaded(1)]);
    var s2 := s.(pcs := [Generating]);
    var s3 := s.(versions := [Pending(1), Pending(1)]);
    assert Apply(s, LoadForLock(1)) == s1 && Apply(s1, Reenter(1)) == s2 && Apply(s2, Generate(1, true)) == s3;
    Cons(s2, Generate(1, true), []);
    steps := [Generate(1, true)] + [];
    Cons(s1, Reenter(1), steps);
    steps := [Reenter(1)] + steps;
    Cons(s, LoadForLock(1), steps);
    steps := [LoadForLock(1)] + steps;
  }

  lemma FirstVersion(s: State, last: State, rest: seq<Step>) returns (steps: seq<Step>)
    requires s == State([Outside], 0, 0, []) && last == State([Running], 1, 1, [Pending(1)]) && ValidRun(last, rest)
    ensures ValidRun(s, steps) && RunState(s, steps) == RunState(last, rest)
  {
    var s1 := s.(pcs := [Running]);
    var s2 := s.(pcs := [LockLoaded(0)]);
    var s3 := State([LockAcquired], 1, 0, []);
    var s4 := State([Generating], 1, 1, []);
    assert Apply(s, Begin(1)) == s1 && Apply(s1, LoadForLock(1)) == s2 && Apply(s2, LockMutex(1)) == s3;
    assert Apply(s3, StoreOwner(1)) == s4 && Apply(s4, Generate(1, true)) == last;
    Cons(s4, Generate(1, true), rest);
    steps := [Generate(1, true)] + rest;
    Cons(s3, StoreOwner(1), steps);
    steps := [StoreOwner(1)] + steps;
    Cons(s2, LockMutex(1), steps);
    steps := [LockMutex(1)] + steps;
    Cons(s1, LoadForLock(1), steps);
    steps := [LoadForLock(1)] + steps;
    Cons(s, Begin(1), steps);
    steps := [Begin(1)] + steps;
  }

  /** A job that re-enters the lock leaves two versions undecided at once. */
  lemma ReenteringLeavesTwoPending() returns (s0: State, steps: seq<Step>)
    ensures Init(s0) && ValidRun(s0, steps) && RunState(s0, steps).versions == [Pending(1), Pending(1)]
  {
    s0 := State([Outside], 0, 0, []);
    var last := State([Running], 1, 1, [Pending(1)]);
    var rest := SecondVersion(last);
    steps := FirstVersion(s0, last, rest);
  }
}
