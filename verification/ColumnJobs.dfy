/** The add-column and drop-column jobs as state machines over table metadata (ddl/column.go, ddl/rollingback.go). */
module ColumnJobs {
  import opened ColumnOrder
  import opened TableInfo

  datatype JobState = Running | Rollingback | Done | RollbackDone | Cancelled

  /** A job's view: the stored table and the job's state. */
  datatype JobView = JobView(t: Table, job: JobState)

  datatype ColumnDef = ColumnDef(name: CIStr, notNull: bool, tp: Type)

  /** A round of the job, a round that ends in an error before anything is stored, or a cancel request. */
  datatype Step = Round | FailedRound | CancelRequest

  /** A table no job is working on. */
  predicate Start(t: Table) {
    && WellFormed(t) && t.columns != []
    && forall i :: 0 <= i < |t.columns| ==> t.columns[i].state == Public && !t.columns[i].changing
  }

  function SetState(t: Table, k: nat, state: SchemaState): Table
    requires k < |t.columns|
  {
    t.(columns := t.columns[k := t.columns[k].(state := state)])
  }

  // ----- Dropping: one round of onDropColumn -----

  predicate SingleIndexOf(index: Index, name: string) {
    |index.columns| == 1 && index.columns[0].name.L == name
  }

  /** isDroppableColumn, as far as columns and indexes go */
  predicate Droppable(t: Table, name: string) {
    && |t.columns| != 1
    && forall x :: 0 <= x < |t.indices| && (t.indices[x].primary || |t.indices[x].columns| > 1) ==> !Mentions(t.indices[x], name)
  }

  function Mark(indices: seq<Index>, name: string, state: SchemaState): (r: seq<Index>)
    ensures |r| == |indices|
  {
    seq(|indices|, (x: nat) requires x < |indices| =>
      if SingleIndexOf(indices[x], name) then indices[x].(state := state) else indices[x])
  }

  /** The indexes without the single-column ones on that column. */
  function Keep(indices: seq<Index>, name: string): seq<Index> {
    if indices == [] then [] else
      var rest, last := Keep(indices[..|indices| - 1], name), indices[|indices| - 1];
      if SingleIndexOf(last, name) then rest else rest + [last]
  }

  datatype DropOutcome = Refused | Continued | Dropped | Invalid

  function DropRound(t: Table, name: string): (r: (Table, DropOutcome)) {
    var k, n := Find(t.columns, name), |t.columns|;
    if k == n || !Droppable(t, name) then (t, Refused) else
      match t.columns[k].state
      case Public => (MoveColumn(SetState(t, k, WriteOnly).(indices := Mark(t.indices, name, WriteOnly)), k, n - 1), Continued)
      case WriteOnly =>
        var moved := MoveColumn(SetState(t, k, DeleteOnly), k, n - 1);
        (moved.(indices := Keep(moved.indices, name)), Continued)
      case DeleteOnly => (MoveColumn(SetState(t, k, DeleteReorganization), k, n - 1), Continued)
      case DeleteReorganization =>
        var moved := MoveColumn(t, k, n - 1);
        (moved.(columns := moved.columns[..n - 1]), Dropped)
      case _ => (t, Invalid)
  }

  lemma {:induction false} KeepMembers(indices: seq<Index>, name: string)
    ensures forall x :: x in Keep(indices, name) <==> x in indices && !SingleIndexOf(x, name)
    decreases |indices|
  {
    if indices != [] {
      KeepMembers(indices[..|indices| - 1], name);
      assert indices == indices[..|indices| - 1] + [indices[|indices| - 1]];
    }
  }

  lemma {:induction false} KeepDistinct(indices: seq<Index>, name: string)
    requires DistinctIndices(indices)
    ensures DistinctIndices(Keep(indices, name))
    decreases |indices|
  {
    if indices != [] {
      var init, last := indices[..|indices| - 1], indices[|indices| - 1];
      KeepDistinct(init, name);
      var rest := Keep(init, name);
      forall i | 0 <= i < |rest| ensures rest[i].name.L != last.name.L && rest[i].id != last.id {
        KeepMembers(init, name);
        assert rest[i] in rest;
        var x :| 0 <= x < |init| && init[x] == rest[i];
        assert indices[x] == rest[i];
      }
    }
  }

  // ----- Adding: one round of onAddColumn -----

  datatype AddJob = AddJob(def: ColumnDef, pos: Position, limit: int)

  /** InitAndAddColumnToTable, with the state the first round leaves. */
  function Extended(t: Table, def: ColumnDef, state: SchemaState): Table {
    t.(columns := t.columns + [Column(t.maxColumnID + 1, def.name, |t.columns|, state, false, def.notNull, false, def.tp)],
       maxColumnID := t.maxColumnID + 1)
  }

  /** LocateOffsetToMove on a table: None when the named column is missing or not public. */
  datatype Place = Nowhere | At(offset: nat)

  function PlaceOf(t: Table, current: nat, pos: Position): (p: Place)
    requires current < |t.columns|
    ensures p.At? ==> p.offset < |t.columns|
  {
    if !pos.After? then At(Locate(current, pos, 0)) else
      var k := Find(t.columns, pos.name);
      if k == |t.columns| || t.columns[k].state != Public then Nowhere else At(Locate(current, pos, k))
  }

  function AddRound(j: AddJob, s: JobView): JobView {
    if s.job == Rollingback then
      var (t, outcome) := DropRound(s.t, j.def.name.L);
      match outcome
      case Dropped => JobView(t, RollbackDone)
      case Continued => JobView(t, Rollingback)
      case Refused => JobView(t, Cancelled)
      case Invalid => s
    else if s.job != Running then s
    else
      var t := s.t;
      var k, n := Find(t.columns, j.def.name.L), |t.columns|;
      if k < n && t.columns[k].state == Public then s.(job := Cancelled)
      else if j.pos.After? && Find(t.columns, j.pos.name) == n then s.(job := Cancelled)
      else if k == n then
        if n + 1 > j.limit then s.(job := Cancelled) else JobView(Extended(t, j.def, DeleteOnly), Running)
      else
        match t.columns[k].state
        case StateNone => s.(t := SetState(t, k, DeleteOnly))
        case DeleteOnly => s.(t := SetState(t, k, WriteOnly))
        case WriteOnly => s.(t := SetState(t, k, WriteReorganization))
        case WriteReorganization =>
          (match PlaceOf(t, k, j.pos)
           case Nowhere => s
           case At(dest) => JobView(MoveColumn(SetState(t, k, Public), k, dest), Done))
        case _ => s
  }

  /** rollingbackAddColumn */
  function AddCancel(j: AddJob, s: JobView): JobView {
    if s.job != Running then s else
      var t := s.t;
      var k, n := Find(t.columns, j.def.name.L), |t.columns|;
      if k == n || t.columns[k].state == Public || (j.pos.After? && Find(t.columns, j.pos.name) == n) then s.(job := Cancelled)
      else JobView(SetState(t, k, DeleteOnly), Rollingback)
  }

  function AddApply(j: AddJob, s: JobView, step: Step): JobView {
    match step
    case Round => AddRound(j, s)
    case FailedRound => s
    case CancelRequest => AddCancel(j, s)
  }

  function AddRun(j: AddJob, t0: Table, steps: seq<Step>): JobView {
    if steps == [] then JobView(t0, Running)
    else AddApply(j, AddRun(j, t0, steps[..|steps| - 1]), steps[|steps| - 1])
  }

  /** The table when the job is done: the new column is where the clause says. */
  function Added(j: AddJob, t0: Table): Table
    requires Locate(|t0.columns|, j.pos, if j.pos.After? then Find(t0.columns, j.pos.name) else 0) <= |t0.columns|
  {
    var n := |t0.columns|;
    MoveColumn(Extended(t0, j.def, Public), n, Locate(n, j.pos, if j.pos.After? then Find(t0.columns, j.pos.name) else 0))
  }

  predicate PlaceExists(t: Table, pos: Position) {
    pos.After? ==> Find(t.columns, pos.name) < |t.columns|
  }

  /** What an add-column job can have stored. */
  ghost predicate AddShape(j: AddJob, t0: Table, s: JobView) {
    match s.job
    case Running =>
      || s.t == t0
      || (AddFits(j, t0) && exists state :: state in {DeleteOnly, WriteOnly, WriteReorganization} && s.t == Extended(t0, j.def, state))
    case Rollingback =>
      AddFits(j, t0) && exists state :: state in {DeleteOnly, DeleteReorganization} && s.t == Extended(t0, j.def, state)
    case Done => AddFits(j, t0) && s.t == Added(j, t0)
    case RollbackDone => s.t == t0.(maxColumnID := t0.maxColumnID + 1)
    case Cancelled => s.t == t0
  }

  predicate AddFits(j: AddJob, t0: Table) {
    Find(t0.columns, j.def.name.L) == |t0.columns| && PlaceExists(t0, j.pos)
  }

  lemma ExtendedFinds(t0: Table, def: ColumnDef, state: SchemaState, name: string)
    requires Find(t0.columns, def.name.L) == |t0.columns|
    ensures var e := Extended(t0, def, state);
            && Find(e.columns, def.name.L) == |t0.columns|
            && (Find(t0.columns, name) < |t0.columns| ==> Find(e.columns, name) == Find(t0.columns, name))
  {
    var cols := Extended(t0, def, state).columns;
    assert cols[|t0.columns|].name == def.name;
    assert forall i :: 0 <= i < |t0.columns| ==> cols[i] == t0.columns[i];
  }

  lemma ExtendedSetState(t0: Table, def: ColumnDef, a: SchemaState, b: SchemaState)
    ensures SetState(Extended(t0, def, a), |t0.columns|, b) == Extended(t0, def, b)
  {
    assert SetState(Extended(t0, def, a), |t0.columns|, b).columns == Extended(t0, def, b).columns;
  }

  /** No index mentions a column that does not exist. */
  lemma FreshNotMentioned(t: Table, name: string)
    requires WellFormed(t) && Find(t.columns, name) == |t.columns|
    ensures forall x :: 0 <= x < |t.indices| ==> !Mentions(t.indices[x], name)
  {
    forall x, y | 0 <= x < |t.indices| && 0 <= y < |t.indices[x].columns|
      ensures t.indices[x].columns[y].name.L != name
    {
      assert IndexLinked(t.columns, t.indices[x]);
      assert PointsAt(t.columns, t.indices[x].columns[y]);
    }
  }

  /** Dropping the column just added: two rounds and it is gone. */
  lemma DropExtended(t0: Table, def: ColumnDef, state: SchemaState)
    requires Start(t0) && Find(t0.columns, def.name.L) == |t0.columns| && state in {DeleteOnly, DeleteReorganization}
    ensures state == DeleteOnly ==> DropRound(Extended(t0, def, state), def.name.L) == (Extended(t0, def, DeleteReorganization), Continued)
    ensures state == DeleteReorganization ==>
              DropRound(Extended(t0, def, state), def.name.L) == (t0.(maxColumnID := t0.maxColumnID + 1), Dropped)
  {
    var e, n := Extended(t0, def, state), |t0.columns|;
    ExtendedFinds(t0, def, state, def.name.L);
    FreshNotMentioned(t0, def.name.L);
    assert Droppable(e, def.name.L);
    if state == DeleteOnly {
      ExtendedSetState(t0, def, DeleteOnly, DeleteReorganization);
      MoveNowhere(Extended(t0, def, DeleteReorganization), n);
    } else {
      MoveNowhere(e, n);
      assert e.columns[..n] == t0.columns;
    }
  }

  /** The last round of adding. */
  lemma AddFinishes(j: AddJob, t0: Table)
    requires Start(t0) && AddFits(j, t0)
    ensures AddRound(j, JobView(Extended(t0, j.def, WriteReorganization), Running)) == JobView(Added(j, t0), Done)
  {
    var e, n := Extended(t0, j.def, WriteReorganization), |t0.columns|;
    ExtendedFinds(t0, j.def, WriteReorganization, if j.pos.After? then j.pos.name else "");
    ExtendedSetState(t0, j.def, WriteReorganization, Public);
    if j.pos.After? {
      var k := Find(t0.columns, j.pos.name);
      assert e.columns[k] == t0.columns[k];
    }
  }

  lemma AddRoundShape(j: AddJob, t0: Table, s: JobView)
    requires Start(t0) && AddShape(j, t0, s)
    ensures AddShape(j, t0, AddRound(j, s))
  {
    if s.job == Running && s.t != t0 {
      var state :| state in {DeleteOnly, WriteOnly, WriteReorganization} && s.t == Extended(t0, j.def, state);
      ExtendedFinds(t0, j.def, state, if j.pos.After? then j.pos.name else "");
      ExtendedSetState(t0, j.def, state, WriteOnly);
      ExtendedSetState(t0, j.def, state, WriteReorganization);
      AddFinishes(j, t0);
    } else if s.job == Rollingback {
      var state :| state in {DeleteOnly, DeleteReorganization} && s.t == Extended(t0, j.def, state);
      DropExtended(t0, j.def, state);
    }
  }

  lemma AddCancelShape(j: AddJob, t0: Table, s: JobView)
    requires Start(t0) && AddShape(j, t0, s)
    ensures AddShape(j, t0, AddCancel(j, s))
  {
    if s.job == Running && s.t != t0 {
      var state :| state in {DeleteOnly, WriteOnly, WriteReorganization} && s.t == Extended(t0, j.def, state);
      ExtendedFinds(t0, j.def, state, if j.pos.After? then j.pos.name else "");
      ExtendedSetState(t0, j.def, state, DeleteOnly);
    }
  }

  lemma {:induction false} AddRunShape(j: AddJob, t0: Table, steps: seq<Step>)
    requires Start(t0)
    ensures AddShape(j, t0, AddRun(j, t0, steps))
    decreases |steps|
  {
    if steps != [] {
      var s := AddRun(j, t0, steps[..|steps| - 1]);
      AddRunShape(j, t0, steps[..|steps| - 1]);
      AddRoundShape(j, t0, s);
      AddCancelShape(j, t0, s);
    }
  }

  lemma ExtendedWellFormed(t0: Table, def: ColumnDef, state: SchemaState)
    requires Start(t0) && Find(t0.columns, def.name.L) == |t0.columns|
    ensures WellFormed(Extended(t0, def, state))
  {
    var e := Extended(t0, def, state);
    AppendKeeps(t0.columns, t0.indices, e.columns[|t0.columns|]);
    assert e.columns == t0.columns + [e.columns[|t0.columns|]];
  }

  lemma AddedWellFormed(j: AddJob, t0: Table)
    requires Start(t0) && AddFits(j, t0)
    ensures WellFormed(Added(j, t0))
    ensures forall i :: 0 <= i < |t0.columns| + 1 ==> Added(j, t0).columns[i].state == Public
  {
    var e, n := Extended(t0, j.def, Public), |t0.columns|;
    ExtendedWellFormed(t0, j.def, Public);
    var dest := Locate(n, j.pos, if j.pos.After? then Find(t0.columns, j.pos.name) else 0);
    MoveWellFormed(e, n, dest);
  }

  /** Moving among public columns keeps everything. */
  lemma MoveWellFormed(t: Table, from: nat, to: nat)
    requires WellFormed(t) && from < |t.columns| && to < |t.columns|
    requires forall i :: 0 <= i < |t.columns| ==> t.columns[i].state == Public
    ensures WellFormed(MoveColumn(t, from, to))
    ensures forall i :: 0 <= i < |t.columns| ==> MoveColumn(t, from, to).columns[i].state == Public
  {
    MoveKeepsLinks(t.columns, t.indices, from, to);
    forall i | 0 <= i < |t.columns|
      ensures MoveColumns(t.columns, from, to)[i].state == Public && MoveColumns(t.columns, from, to)[i].id <= t.maxColumnID
    {
      MoveColumnsAt(t.columns, from, to, i);
    }
  }

  /**
    Every run of an add-column job keeps the invariant. If it ends without the column, by rollback or cancellation, the
    columns and indexes are exactly those it started with, and at most the column counter has grown; if it ends with
    the column, the table is the old one with the column at the place asked for.
   */
  lemma AddRuns(j: AddJob, t0: Table, steps: seq<Step>)
    requires Start(t0)
    ensures var s := AddRun(j, t0, steps);
            && WellFormed(s.t)
            && (s.job in {RollbackDone, Cancelled} ==>
                  s.t.columns == t0.columns && s.t.indices == t0.indices && s.t.maxIndexID == t0.maxIndexID
                  && t0.maxColumnID <= s.t.maxColumnID <= t0.maxColumnID + 1)
            && (s.job == Done ==> AddFits(j, t0) && s.t == Added(j, t0))
  {
    AddRunShape(j, t0, steps);
    var s := AddRun(j, t0, steps);
    if AddFits(j, t0) {
      AddedWellFormed(j, t0);
      forall state ensures WellFormed(Extended(t0, j.def, state)) { ExtendedWellFormed(t0, j.def, state); }
    }
  }

  /** Four rounds that do not fail complete the job, exactly when the column is new, its place exists and the table has room. */
  lemma AddCompletes(j: AddJob, t0: Table)
    requires Start(t0)
    ensures AddRun(j, t0, [Round] + [Round] + [Round] + [Round]).job == Done <==> AddFits(j, t0) && |t0.columns| + 1 <= j.limit
  {
    var s1 := AddRound(j, JobView(t0, Running));
    FourRounds(j, t0);
    if AddFits(j, t0) && |t0.columns| + 1 <= j.limit {
      AddForward(j, t0, DeleteOnly, WriteOnly);
      AddForward(j, t0, WriteOnly, WriteReorganization);
      AddFinishes(j, t0);
    } else {
      assert s1 == JobView(t0, Cancelled);
    }
  }

  lemma AddForward(j: AddJob, t0: Table, a: SchemaState, b: SchemaState)
    requires Start(t0) && AddFits(j, t0) && (a, b) in {(DeleteOnly, WriteOnly), (WriteOnly, WriteReorganization)}
    ensures AddRound(j, JobView(Extended(t0, j.def, a), Running)) == JobView(Extended(t0, j.def, b), Running)
  {
    ExtendedFinds(t0, j.def, a, if j.pos.After? then j.pos.name else "");
    ExtendedSetState(t0, j.def, a, b);
  }

  lemma FourRounds(j: AddJob, t0: Table)
    ensures AddRun(j, t0, [Round] + [Round] + [Round] + [Round])
            == AddRound(j, AddRound(j, AddRound(j, AddRound(j, JobView(t0, Running)))))
  {
    RoundOnce(j, t0, []);
    assert [] + [Round] == [Round];
    RoundOnce(j, t0, [Round]);
    RoundOnce(j, t0, [Round] + [Round]);
    RoundOnce(j, t0, [Round] + [Round] + [Round]);
  }

  lemma RoundOnce(j: AddJob, t0: Table, steps: seq<Step>)
    ensures AddRun(j, t0, steps + [Round]) == AddRound(j, AddRun(j, t0, steps))
  {
    assert (steps + [Round])[..|steps|] == steps;
  }

  /** Once a rollback has begun, two rounds that do not fail complete it. */
  lemma RollbackCompletes(j: AddJob, t0: Table, steps: seq<Step>)
    requires Start(t0) && AddRun(j, t0, steps).job == Rollingback
    ensures AddRun(j, t0, steps + [Round] + [Round]).job == RollbackDone
  {
    AddRunShape(j, t0, steps);
    var s := AddRun(j, t0, steps);
    var state :| state in {DeleteOnly, DeleteReorganization} && s.t == Extended(t0, j.def, state);
    DropExtended(t0, j.def, DeleteOnly);
    DropExtended(t0, j.def, DeleteReorganization);
    assert (steps + [Round])[..|steps|] == steps;
    assert (steps + [Round] + [Round])[..|steps| + 1] == steps + [Round];
  }

  // ----- Dropping over whole runs -----

  /** A drop-column job: `allowed` stands for the checks on generated columns, foreign keys and TTL. */
  datatype DropJob = DropJob(name: string, allowed: bool)

  function DropApply(j: DropJob, s: JobView, step: Step): JobView {
    if s.job != Running || step == FailedRound then s
    else if step == CancelRequest then
      // Only a job that has not begun can be cancelled.
      var k := Find(s.t.columns, j.name);
      if k < |s.t.columns| && s.t.columns[k].state == Public then s.(job := Cancelled) else s
    else if !j.allowed then s.(job := Cancelled)
    else
      var (t, outcome) := DropRound(s.t, j.name);
      match outcome
      case Dropped => JobView(t, Done)
      case Continued => JobView(t, Running)
      case Refused => JobView(t, Cancelled)
      case Invalid => s
  }

  function DropRun(j: DropJob, t0: Table, steps: seq<Step>): JobView {
    if steps == [] then JobView(t0, Running)
    else DropApply(j, DropRun(j, t0, steps[..|steps| - 1]), steps[|steps| - 1])
  }

  /** The columns while k is being dropped: it is last, in the given state. */
  function Dropping(t0: Table, k: nat, state: SchemaState): (r: seq<Column>)
    requires k < |t0.columns|
    ensures |r| == |t0.columns|
  {
    var n := |t0.columns|;
    MoveColumns(t0.columns, k, n - 1)[n - 1 := t0.columns[k].(state := state, offset := n - 1)]
  }

  /** The indexes while the dropped column is still written. */
  function WrittenIndices(t0: Table, k: nat, name: string): seq<Index>
    requires k < |t0.columns|
  {
    MoveIndices(Mark(t0.indices, name, WriteOnly), k, |t0.columns| - 1)
  }

  ghost predicate DropShape(j: DropJob, t0: Table, s: JobView) {
    && s.t.maxColumnID == t0.maxColumnID && s.t.maxIndexID == t0.maxIndexID
    && (s.t != t0 ==> DropFits(j, t0))
    && match s.job
       case Running => s.t == t0 || (DropFits(j, t0) && DropMiddle(j, t0, s.t))
       case Cancelled => s.t == t0
       case Done => DropFits(j, t0) && DropEnd(j, t0, s.t)
       case _ => false
  }

  predicate DropFits(j: DropJob, t0: Table) {
    j.allowed && Find(t0.columns, j.name) < |t0.columns| && Droppable(t0, j.name)
  }

  ghost predicate DropMiddle(j: DropJob, t0: Table, t: Table)
    requires DropFits(j, t0)
  {
    var k := Find(t0.columns, j.name);
    var written := WrittenIndices(t0, k, j.name);
    || (t.columns == Dropping(t0, k, WriteOnly) && t.indices == written)
    || (t.columns == Dropping(t0, k, DeleteOnly) && t.indices == Keep(written, j.name))
    || (t.columns == Dropping(t0, k, DeleteReorganization) && t.indices == Keep(written, j.name))
  }

  ghost predicate DropEnd(j: DropJob, t0: Table, t: Table)
    requires DropFits(j, t0)
  {
    var k, n := Find(t0.columns, j.name), |t0.columns|;
    t.columns == Dropping(t0, k, DeleteReorganization)[..n - 1] && t.indices == Keep(WrittenIndices(t0, k, j.name), j.name)
  }

  lemma DroppingKeys(t0: Table, k: nat, state: SchemaState)
    requires Numbered(t0.columns) && DistinctColumns(t0.columns) && k < |t0.columns|
    ensures SameKeys(MoveColumns(t0.columns, k, |t0.columns| - 1), Dropping(t0, k, state))
    ensures Dropping(t0, k, state)[|t0.columns| - 1].name == t0.columns[k].name
  {
    MoveColumnsAt(t0.columns, k, |t0.columns| - 1, k);
  }

  /** Facts about the columns while one is being dropped. */
  lemma DroppingLinks(t0: Table, k: nat, state: SchemaState, indices: seq<Index>)
    requires Numbered(t0.columns) && DistinctColumns(t0.columns) && k < |t0.columns| && AllLinked(t0.columns, indices)
    ensures var cols, n := Dropping(t0, k, state), |t0.columns|;
            Numbered(cols) && DistinctColumns(cols) && AllLinked(cols, MoveIndices(indices, k, n - 1))
  {
    var n := |t0.columns|;
    MoveKeepsLinks(t0.columns, indices, k, n - 1);
    DroppingKeys(t0, k, state);
    SameKeysKeep(MoveColumns(t0.columns, k, n - 1), Dropping(t0, k, state), MoveIndices(indices, k, n - 1));
  }

  lemma DroppingFind(t0: Table, k: nat, state: SchemaState)
    requires Numbered(t0.columns) && DistinctColumns(t0.columns) && k < |t0.columns|
    ensures Find(Dropping(t0, k, state), t0.columns[k].name.L) == |t0.columns| - 1
  {
    DroppingLinks(t0, k, state, []);
    DroppingKeys(t0, k, state);
    FindIs(Dropping(t0, k, state), t0.columns[k].name.L, |t0.columns| - 1);
  }

  lemma DroppingStates(t0: Table, k: nat, state: SchemaState)
    requires Start(t0) && k < |t0.columns| && state != Public
    ensures var cols, n := Dropping(t0, k, state), |t0.columns|;
            && PublicPrefix(cols)
            && (forall i :: 0 <= i < n - 1 ==> cols[i].state == Public)
            && (forall i :: 0 <= i < n ==> cols[i].id <= t0.maxColumnID)
  {
    var cols, n := Dropping(t0, k, state), |t0.columns|;
    forall i | 0 <= i < n - 1 ensures cols[i].state == Public && cols[i].id <= t0.maxColumnID {
      MoveColumnsAt(t0.columns, k, n - 1, i);
    }
  }

  lemma MarkLinks(cols: seq<Column>, indices: seq<Index>, name: string, state: SchemaState)
    requires AllLinked(cols, indices)
    ensures AllLinked(cols, Mark(indices, name, state))
    ensures DistinctIndices(indices) ==> DistinctIndices(Mark(indices, name, state))
  {
    forall x | 0 <= x < |indices| ensures IndexLinked(cols, Mark(indices, name, state)[x]) {
      assert IndexLinked(cols, indices[x]);
      assert Mark(indices, name, state)[x].columns == indices[x].columns;
    }
  }

  /** The same indexes up to state and offsets: names, IDs, flags, column names and lengths agree. */
  predicate SameButOffsets(a: Index, b: Index) {
    && a.id == b.id && a.name == b.name && a.primary == b.primary && |a.columns| == |b.columns|
    && forall y :: 0 <= y < |a.columns| ==> a.columns[y].name == b.columns[y].name && a.columns[y].length == b.columns[y].length
  }

  lemma SameMentions(a: Index, b: Index, name: string)
    requires SameButOffsets(a, b)
    ensures (Mentions(a, name) <==> Mentions(b, name)) && (SingleIndexOf(a, name) <==> SingleIndexOf(b, name))
  {
    if Mentions(a, name) {
      var y :| 0 <= y < |a.columns| && a.columns[y].name.L == name;
      assert b.columns[y].name.L == name;
    }
    if Mentions(b, name) {
      var y :| 0 <= y < |b.columns| && b.columns[y].name.L == name;
      assert a.columns[y].name.L == name;
    }
  }

  lemma WrittenIndicesAt(t0: Table, k: nat, name: string, x: nat)
    requires k < |t0.columns| && x < |t0.indices|
    ensures |WrittenIndices(t0, k, name)| == |t0.indices| && SameButOffsets(WrittenIndices(t0, k, name)[x], t0.indices[x])
  {
  }

  /** Only single-column indexes mention a droppable column, also after the move. */
  lemma WrittenMentions(t0: Table, k: nat, name: string, index: Index)
    requires k < |t0.columns| && Droppable(t0, name) && index in WrittenIndices(t0, k, name)
    ensures (index.primary || |index.columns| > 1) ==> !Mentions(index, name)
    ensures !SingleIndexOf(index, name) ==> !Mentions(index, name)
  {
    var written := WrittenIndices(t0, k, name);
    var x :| 0 <= x < |written| && written[x] == index;
    WrittenIndicesAt(t0, k, name, x);
    SameMentions(index, t0.indices[x], name);
  }

  /** Droppable stays true while the column is being dropped. */
  lemma StaysDroppable(t0: Table, k: nat, name: string, t: Table)
    requires k < |t0.columns| && Droppable(t0, name) && |t.columns| == |t0.columns|
    requires t.indices == WrittenIndices(t0, k, name) || t.indices == Keep(WrittenIndices(t0, k, name), name)
    ensures Droppable(t, name)
  {
    KeepMembers(WrittenIndices(t0, k, name), name);
    forall x | 0 <= x < |t.indices| ensures (t.indices[x].primary || |t.indices[x].columns| > 1) ==> !Mentions(t.indices[x], name) {
      assert t.indices[x] in t.indices;
      WrittenMentions(t0, k, name, t.indices[x]);
    }
  }

  /** Once its single-column indexes are gone, nothing mentions the column. */
  lemma NothingMentions(t0: Table, k: nat, name: string, indices: seq<Index>, x: nat)
    requires k < |t0.columns| && Droppable(t0, name) && indices == Keep(WrittenIndices(t0, k, name), name) && x < |indices|
    ensures !Mentions(indices[x], name)
  {
    KeepMembers(WrittenIndices(t0, k, name), name);
    assert indices[x] in indices;
    WrittenMentions(t0, k, name, indices[x]);
  }

  lemma FirstDropRound(j: DropJob, t0: Table)
    requires Start(t0) && DropFits(j, t0)
    ensures var (t, outcome) := DropRound(t0, j.name);
            && outcome == Continued && t.maxColumnID == t0.maxColumnID && t.maxIndexID == t0.maxIndexID
            && t.columns == Dropping(t0, Find(t0.columns, j.name), WriteOnly)
            && t.indices == WrittenIndices(t0, Find(t0.columns, j.name), j.name)
  {
    var k, n := Find(t0.columns, j.name), |t0.columns|;
    var c := t0.columns[k].(state := WriteOnly);
    MoveReplaced(t0.columns, k, n - 1, c);
  }

  lemma MoveReplaced(cols: seq<Column>, from: nat, to: nat, c: Column)
    requires from < |cols| && to < |cols| && Numbered(cols) && c.offset == from
    ensures MoveColumns(cols[from := c], from, to) == MoveColumns(cols, from, to)[to := c.(offset := to)]
  {
    var a, b := MoveColumns(cols[from := c], from, to), MoveColumns(cols, from, to)[to := c.(offset := to)];
    forall i | 0 <= i < |cols| ensures a[i] == b[i] {
      MovedFrom(cols, from, to, i);
      MovedFrom(cols[from := c], from, to, i);
    }
  }

  /** The later rounds find the column last, so their moves change nothing. */
  lemma LaterDropRound(j: DropJob, t0: Table, t: Table)
    requires Start(t0) && DropFits(j, t0) && DropMiddle(j, t0, t)
    ensures var (now, outcome) := DropRound(t, j.name);
            && now.maxColumnID == t.maxColumnID && now.maxIndexID == t.maxIndexID
            && ((outcome == Continued && DropMiddle(j, t0, now)) || (outcome == Dropped && DropEnd(j, t0, now)))
  {
    var k, n := Find(t0.columns, j.name), |t0.columns|;
    var state := t.columns[n - 1].state;
    DroppingFind(t0, k, state);
    StaysDroppable(t0, k, j.name, t);
    DropLast(t, j.name);
    DroppingSetState(t0, k, state, DeleteOnly);
    DroppingSetState(t0, k, state, DeleteReorganization);
  }

  /** A round on a column that is last already moves nothing. */
  lemma DropLast(t: Table, name: string)
    requires t.columns != [] && Find(t.columns, name) == |t.columns| - 1 && Droppable(t, name)
    ensures var last := |t.columns| - 1;
            DropRound(t, name) == match t.columns[last].state
                                  case Public => DropRound(t, name)
                                  case WriteOnly => (SetState(t, last, DeleteOnly).(indices := Keep(t.indices, name)), Continued)
                                  case DeleteOnly => (SetState(t, last, DeleteReorganization), Continued)
                                  case DeleteReorganization => (t.(columns := t.columns[..last]), Dropped)
                                  case _ => (t, Invalid)
  {
    var last := |t.columns| - 1;
    MoveNowhere(t, last);
    MoveNowhere(SetState(t, last, DeleteOnly), last);
    MoveNowhere(SetState(t, last, DeleteReorganization), last);
  }

  lemma DroppingSetState(t0: Table, k: nat, a: SchemaState, b: SchemaState)
    requires k < |t0.columns|
    ensures var cols, last := Dropping(t0, k, a), |t0.columns| - 1;
            cols[last := cols[last].(state := b)] == Dropping(t0, k, b)
  {
  }

  lemma {:induction false} DropRunShape(j: DropJob, t0: Table, steps: seq<Step>)
    requires Start(t0)
    ensures DropShape(j, t0, DropRun(j, t0, steps))
    decreases |steps|
  {
    if steps != [] {
      var s := DropRun(j, t0, steps[..|steps| - 1]);
      DropRunShape(j, t0, steps[..|steps| - 1]);
      DropStepShape(j, t0, s, steps[|steps| - 1]);
    }
  }

  lemma DropStepShape(j: DropJob, t0: Table, s: JobView, step: Step)
    requires Start(t0) && DropShape(j, t0, s)
    ensures DropShape(j, t0, DropApply(j, s, step))
  {
    if s.job == Running && step == Round && j.allowed {
      if s.t == t0 {
        if DropFits(j, t0) { FirstDropRound(j, t0); }
      } else {
        LaterDropRound(j, t0, s.t);
      }
    } else if s.job == Running && step == CancelRequest && s.t != t0 {
      DroppingFind(t0, Find(t0.columns, j.name), s.t.columns[|t0.columns| - 1].state);
      }
  }

  lemma DroppingWellFormed(t0: Table, k: nat, name: string, state: SchemaState, t: Table)
    requires Start(t0) && k < |t0.columns| && state != Public && t.columns == Dropping(t0, k, state)
    requires t.indices == WrittenIndices(t0, k, name) || t.indices == Keep(WrittenIndices(t0, k, name), name)
    requires t.maxColumnID == t0.maxColumnID && t.maxIndexID == t0.maxIndexID
    ensures WellFormed(t)
  {
    MarkLinks(t0.columns, t0.indices, name, WriteOnly);
    DroppingLinks(t0, k, state, Mark(t0.indices, name, WriteOnly));
    DroppingStates(t0, k, state);
    WrittenFine(t0, k, name, t.columns);
  }

  /** The tables a drop-column job stores satisfy the invariant. */
  lemma DropMiddleWellFormed(j: DropJob, t0: Table, t: Table)
    requires Start(t0) && DropFits(j, t0) && DropMiddle(j, t0, t)
    requires t.maxColumnID == t0.maxColumnID && t.maxIndexID == t0.maxIndexID
    ensures WellFormed(t)
  {
    var k := Find(t0.columns, j.name);
    DroppingWellFormed(t0, k, j.name, t.columns[|t0.columns| - 1].state, t);
  }

  lemma WrittenFine(t0: Table, k: nat, name: string, cols: seq<Column>)
    requires Start(t0) && k < |t0.columns| && AllLinked(cols, WrittenIndices(t0, k, name))
    ensures IndicesFine(cols, WrittenIndices(t0, k, name), t0.maxIndexID)
    ensures IndicesFine(cols, Keep(WrittenIndices(t0, k, name), name), t0.maxIndexID)
  {
    var written := WrittenIndices(t0, k, name);
    forall x | 0 <= x < |written| ensures written[x].name == t0.indices[x].name && written[x].id == t0.indices[x].id {
      WrittenIndicesAt(t0, k, name, x);
    }
    KeepFine(cols, written, t0.maxIndexID, name);
  }

  predicate IndicesFine(cols: seq<Column>, indices: seq<Index>, maxID: int) {
    AllLinked(cols, indices) && DistinctIndices(indices) && forall x :: 0 <= x < |indices| ==> indices[x].id <= maxID
  }

  lemma KeepFine(cols: seq<Column>, indices: seq<Index>, maxID: int, name: string)
    requires IndicesFine(cols, indices, maxID)
    ensures IndicesFine(cols, Keep(indices, name), maxID)
  {
    var kept := Keep(indices, name);
    KeepDistinct(indices, name);
    KeepMembers(indices, name);
    forall x | 0 <= x < |kept| ensures IndexLinked(cols, kept[x]) && kept[x].id <= maxID {
      assert kept[x] in kept;
      var y :| 0 <= y < |indices| && indices[y] == kept[x];
    }
  }

  lemma DropEndWellFormed(j: DropJob, t0: Table, t: Table)
    requires Start(t0) && DropFits(j, t0) && DropEnd(j, t0, t)
    requires t.maxColumnID == t0.maxColumnID && t.maxIndexID == t0.maxIndexID
    ensures WellFormed(t)
  {
    var k, n := Find(t0.columns, j.name), |t0.columns|;
    var before := t.(columns := Dropping(t0, k, DeleteReorganization));
    DropMiddleWellFormed(j, t0, before);
    MoveColumnsAt(t0.columns, k, n - 1, k);
    forall x | 0 <= x < |t.indices| ensures !Refers(t.indices[x], n - 1) {
      NothingMentions(t0, k, j.name, t.indices, x);
      assert IndexLinked(before.columns, t.indices[x]);
      SameLookup(before.columns, t.indices[x], n - 1);
    }
    TruncateKeeps(before.columns, t.indices);
  }

  /** What a finished drop leaves of the columns: the others, in order, numbered anew. */
  function Renumbered(cols: seq<Column>): seq<Column> {
    seq(|cols|, (i: nat) requires i < |cols| => cols[i].(offset := i))
  }

  lemma DroppedColumns(t0: Table, k: nat, state: SchemaState)
    requires Start(t0) && k < |t0.columns|
    ensures Dropping(t0, k, state)[..|t0.columns| - 1] == Renumbered(t0.columns[..k] + t0.columns[k + 1..])
  {
    var n := |t0.columns|;
    var rest := t0.columns[..k] + t0.columns[k + 1..];
    forall i | 0 <= i < n - 1 ensures Dropping(t0, k, state)[i] == Renumbered(rest)[i] {
      MoveColumnsAt(t0.columns, k, n - 1, i);
    }
  }

  lemma {:induction false} KeepMoved(indices: seq<Index>, name: string, state: SchemaState, from: nat, to: nat)
    ensures Keep(MoveIndices(Mark(indices, name, state), from, to), name) == MoveIndices(Keep(indices, name), from, to)
    decreases |indices|
  {
    if indices != [] {
      var n := |indices| - 1;
      var init, last := indices[..n], indices[n];
      KeepMoved(init, name, state, from, to);
      var all := MoveIndices(Mark(indices, name, state), from, to);
      assert all[..n] == MoveIndices(Mark(init, name, state), from, to);
      assert SameButOffsets(all[n], last);
      SameMentions(all[n], last, name);
      if !SingleIndexOf(last, name) {
        assert all[n] == MoveIndex(last, from, to);
        assert MoveIndices(Keep(init, name) + [last], from, to) == MoveIndices(Keep(init, name), from, to) + [MoveIndex(last, from, to)];
      }
    } else {
      assert Mark(indices, name, state) == [] && MoveIndices([], from, to) == [];
    }
  }

  /**
    Every run of a drop-column job keeps the invariant. A finished one has removed exactly the column and its
    single-column indexes; a cancelled one has changed nothing.
   */
  lemma DropRuns(j: DropJob, t0: Table, steps: seq<Step>)
    requires Start(t0)
    ensures var s := DropRun(j, t0, steps);
            && WellFormed(s.t)
            && (s.job == Cancelled ==> s.t == t0)
            && (s.job == Done ==>
                  var k, n := Find(t0.columns, j.name), |t0.columns|;
                  && DropFits(j, t0)
                  && s.t.columns == Renumbered(t0.columns[..k] + t0.columns[k + 1..])
                  && s.t.indices == MoveIndices(Keep(t0.indices, j.name), k, n - 1))
  {
    DropRunShape(j, t0, steps);
    var s := DropRun(j, t0, steps);
    if s.job == Done {
      DropEndWellFormed(j, t0, s.t);
      DroppedColumns(t0, Find(t0.columns, j.name), DeleteReorganization);
      KeepMoved(t0.indices, j.name, WriteOnly, Find(t0.columns, j.name), |t0.columns| - 1);
    } else if s.t != t0 {
      DropMiddleWellFormed(j, t0, s.t);
    }
  }

  /** Four rounds that do not fail complete the drop, exactly when the job is allowed and its column can be dropped. */
  lemma DropCompletes(j: DropJob, t0: Table)
    requires Start(t0)
    ensures DropRun(j, t0, [Round] + [Round] + [Round] + [Round]).job == Done <==> DropFits(j, t0)
  {
    if DropFits(j, t0) {
      FirstDropStored(j, t0);
      DropNext(j, t0, [Round], WriteOnly);
      DropNext(j, t0, [Round] + [Round], DeleteOnly);
      DropNext(j, t0, [Round] + [Round] + [Round], DeleteReorganization);
    } else {
      DropRunShape(j, t0, [Round] + [Round] + [Round] + [Round]);
    }
  }

  /** The job is running and its column is last, in the given state. */
  ghost predicate DropAt(j: DropJob, t0: Table, s: JobView, state: SchemaState)
    requires DropFits(j, t0)
  {
    s.job == Running && DropMiddle(j, t0, s.t) && s.t.columns == Dropping(t0, Find(t0.columns, j.name), state)
  }

  lemma FirstDropStored(j: DropJob, t0: Table)
    requires Start(t0) && DropFits(j, t0)
    ensures DropAt(j, t0, DropRun(j, t0, [Round]), WriteOnly)
  {
    DropOnce(j, t0, []);
    assert [] + [Round] == [Round];
    FirstDropRound(j, t0);
  }

  lemma DropNext(j: DropJob, t0: Table, steps: seq<Step>, state: SchemaState)
    requires Start(t0) && DropFits(j, t0) && state in {WriteOnly, DeleteOnly, DeleteReorganization}
    requires DropAt(j, t0, DropRun(j, t0, steps), state)
    ensures var now := DropRun(j, t0, steps + [Round]);
            if state == DeleteReorganization then now.job == Done
            else DropAt(j, t0, now, if state == WriteOnly then DeleteOnly else DeleteReorganization)
  {
    DropForward(j, t0, DropRun(j, t0, steps).t, state);
    DropOnce(j, t0, steps);
  }

  lemma DropOnce(j: DropJob, t0: Table, steps: seq<Step>)
    ensures DropRun(j, t0, steps + [Round]) == DropApply(j, DropRun(j, t0, steps), Round)
  {
    assert (steps + [Round])[..|steps|] == steps;
  }

  /** The next state of a column that is being dropped. */
  lemma DropForward(j: DropJob, t0: Table, t: Table, state: SchemaState)
    requires Start(t0) && DropFits(j, t0) && DropMiddle(j, t0, t) && t.columns == Dropping(t0, Find(t0.columns, j.name), state)
    requires state in {WriteOnly, DeleteOnly, DeleteReorganization}
    ensures var (now, outcome) := DropRound(t, j.name);
            if state == DeleteReorganization then outcome == Dropped && DropEnd(j, t0, now)
            else outcome == Continued && DropMiddle(j, t0, now)
                 && now.columns == Dropping(t0, Find(t0.columns, j.name), if state == WriteOnly then DeleteOnly else DeleteReorganization)
  {
    var k, n := Find(t0.columns, j.name), |t0.columns|;
    DroppingFind(t0, k, state);
    StaysDroppable(t0, k, j.name, t);
    DropLast(t, j.name);
    DroppingSetState(t0, k, state, DeleteOnly);
    DroppingSetState(t0, k, state, DeleteReorganization);
    LaterDropRound(j, t0, t);
  }
}
