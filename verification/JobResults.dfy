/** What the column jobs leave, said column by column and index by index (ddl/column.go). */
module JobResults {
  import opened ColumnOrder
  import opened TableInfo
  import opened ColumnJobs
  import opened ModifyColumn
  import opened ModifyRuns
  import opened Search

  // ----- Columns -----

  /** `after` is `before` with the column c put in at dest; only offsets differ. */
  predicate Inserted(before: seq<Column>, after: seq<Column>, c: Column, dest: nat) {
    && dest < |after| && after[dest] == c.(offset := dest)
    && Renumbered(after[..dest] + after[dest + 1..]) == Renumbered(before)
  }

  /** The column at dest is where the clause asks for it; without a clause it is at `home`. */
  predicate PlacedAs(after: seq<Column>, dest: nat, pos: Position, home: nat) {
    match pos
    case NoPosition => dest == home
    case First => dest == 0
    case After(name) => 0 < dest <= |after| && after[dest - 1].name.L == name
  }

  /** A moved column seen from the columns without it. */
  lemma MovedIsInserted(cols: seq<Column>, from: nat, to: nat)
    requires from < |cols| && to < |cols| && Numbered(cols)
    ensures Inserted(cols[..from] + cols[from + 1..], MoveColumns(cols, from, to), cols[from], to)
  {
    var moved, rest := MoveColumns(cols, from, to), cols[..from] + cols[from + 1..];
    MoveColumnsAt(cols, from, to, from);
    var others := moved[..to] + moved[to + 1..];
    forall i | 0 <= i < |rest| ensures Renumbered(others)[i] == Renumbered(rest)[i] {
      var at := if i < to then i else i + 1;
      MoveColumnsAt(cols, from, to, at);
      assert others[i] == moved[at];
      assert rest[i] == if i < from then cols[i] else cols[i + 1];
    }
  }

  /** The move goes where the clause says. */
  lemma MovedAsPlaced(cols: seq<Column>, from: nat, pos: Position)
    requires from < |cols| && Numbered(cols)
    requires pos.After? ==> Find(cols, pos.name) < |cols| && Find(cols, pos.name) != from
    ensures var dest := Locate(from, pos, if pos.After? then Find(cols, pos.name) else 0);
            dest < |cols| && PlacedAs(MoveColumns(cols, from, dest), dest, pos, from)
  {
    if pos.After? {
      var r := Find(cols, pos.name);
      MoveColumnsAt(cols, from, Locate(from, pos, r), r);
      LocateIsRight(from, pos, r);
    }
  }

  // ----- Indexes -----

  function On(name: string): Index -> bool {
    (index: Index) => Mentions(index, name)
  }

  function NotOn(name: string): Index -> bool {
    (index: Index) => !Mentions(index, name)
  }

  predicate PublicAt(cols: seq<Column>, offset: int) {
    0 <= offset < |cols| && cols[offset].state == Public
  }

  /** No public index is on a column that is not public. */
  predicate PublicOnPublic(t: Table) {
    forall x, y :: 0 <= x < |t.indices| && t.indices[x].state == Public && 0 <= y < |t.indices[x].columns| ==>
      PublicAt(t.columns, t.indices[x].columns[y].offset)
  }

  lemma AllPublic(t: Table)
    requires WellFormed(t) && forall i :: 0 <= i < |t.columns| ==> t.columns[i].state == Public
    ensures PublicOnPublic(t)
  {
    forall x, y | 0 <= x < |t.indices| && 0 <= y < |t.indices[x].columns|
      ensures PublicAt(t.columns, t.indices[x].columns[y].offset)
    {
      assert IndexLinked(t.columns, t.indices[x]);
      assert PointsAt(t.columns, t.indices[x].columns[y]);
    }
  }

  /** An index that does not mention the last column, the only one that may not be public. */
  lemma AllButLastPublic(t: Table, x: nat, y: nat)
    requires WellFormed(t) && t.columns != [] && forall i :: 0 <= i < |t.columns| - 1 ==> t.columns[i].state == Public
    requires x < |t.indices| && !Mentions(t.indices[x], t.columns[|t.columns| - 1].name.L) && y < |t.indices[x].columns|
    ensures PublicAt(t.columns, t.indices[x].columns[y].offset)
  {
    assert IndexLinked(t.columns, t.indices[x]);
    assert PointsAt(t.columns, t.indices[x].columns[y]);
  }

  // ----- ADD COLUMN -----

  /** The column an add-column job adds. */
  function NewColumnOf(j: AddJob, t0: Table, state: SchemaState): Column {
    Column(t0.maxColumnID + 1, j.def.name, |t0.columns|, state, false, j.def.notNull, false, j.def.tp)
  }

  /** The new column is last and not public; everything else is as before. */
  predicate NotYetAdded(j: AddJob, t0: Table, t: Table, state: SchemaState) {
    state != Public && t.columns == t0.columns + [NewColumnOf(j, t0, state)] && t.indices == t0.indices
  }

  /** The new column stands at dest among the old ones; the indexes differ only in offsets. */
  predicate AddedAt(j: AddJob, t0: Table, t: Table, dest: nat) {
    && Inserted(t0.columns, t.columns, NewColumnOf(j, t0, Public), dest)
    && PlacedAs(t.columns, dest, j.pos, |t0.columns|)
    && |t.indices| == |t0.indices|
    && forall x :: 0 <= x < |t0.indices| ==>
         SameButOffsets(t.indices[x], t0.indices[x]) && t.indices[x].state == t0.indices[x].state
  }

  lemma AddedTable(j: AddJob, t0: Table) returns (dest: nat)
    requires Start(t0) && AddFits(j, t0)
    ensures AddedAt(j, t0, Added(j, t0), dest) && PublicOnPublic(Added(j, t0))
  {
    var e, n, name := Extended(t0, j.def, Public), |t0.columns|, if j.pos.After? then j.pos.name else "";
    ExtendedWellFormed(t0, j.def, Public);
    AddedWellFormed(j, t0);
    AllPublic(Added(j, t0));
    ExtendedFinds(t0, j.def, Public, name);
    dest := Locate(n, j.pos, if j.pos.After? then Find(t0.columns, j.pos.name) else 0);
    MovedIsInserted(e.columns, n, dest);
    MovedAsPlaced(e.columns, n, j.pos);
    assert e.columns[..n] + e.columns[n + 1..] == t0.columns;
  }

  lemma ExtendedTable(j: AddJob, t0: Table, state: SchemaState)
    requires Start(t0) && AddFits(j, t0) && state != Public
    ensures NotYetAdded(j, t0, Extended(t0, j.def, state), state) && PublicOnPublic(Extended(t0, j.def, state))
  {
    var e := Extended(t0, j.def, state);
    ExtendedWellFormed(t0, j.def, state);
    FreshNotMentioned(t0, j.def.name.L);
    forall x, y | 0 <= x < |e.indices| && 0 <= y < |e.indices[x].columns|
      ensures PublicAt(e.columns, e.indices[x].columns[y].offset)
    {
      AllButLastPublic(e, x, y);
    }
  }

  /**
    In every run of an add-column job a table with the new column has it last, as the statement defines it and not public,
    until the job is done; then it stands where the clause asks for it, and no index has changed but in offsets.
   */
  lemma AddRunTables(j: AddJob, t0: Table, steps: seq<Step>) returns (dest: nat)
    requires Start(t0)
    ensures var s := AddRun(j, t0, steps);
            && PublicOnPublic(s.t)
            && (s.job in {Running, Rollingback} && s.t != t0 ==> exists state :: NotYetAdded(j, t0, s.t, state))
            && (s.job == Done ==> AddedAt(j, t0, s.t, dest))
  {
    AddRunShape(j, t0, steps);
    var s := AddRun(j, t0, steps);
    dest := 0;
    if s.job == Done {
      dest := AddedTable(j, t0);
    } else if s.t.columns == t0.columns && s.t.indices == t0.indices {
      AllPublic(t0);
    } else {
      var state :| state != Public && s.t == Extended(t0, j.def, state);
      ExtendedTable(j, t0, state);
    }
  }

  // ----- DROP COLUMN -----

  /** While the column is only written, every index on it is too; the others are as before. */
  predicate IndexesWritten(t0: Table, t: Table, name: string) {
    && |t.indices| == |t0.indices|
    && forall x :: 0 <= x < |t0.indices| ==>
         && SameButOffsets(t.indices[x], t0.indices[x])
         && t.indices[x].state == if Mentions(t0.indices[x], name) then WriteOnly else t0.indices[x].state
  }

  /** Later the indexes on the column are gone; the others are there in their order. */
  predicate IndexesGone(t0: Table, t: Table, name: string, at: seq<nat>) {
    && Positions(t0.indices, at, NotOn(name))
    && |t.indices| == |at|
    && forall i :: 0 <= i < |at| ==>
         SameButOffsets(t.indices[i], t0.indices[at[i]]) && t.indices[i].state == t0.indices[at[i]].state
  }

  function NotSingle(name: string): Index -> bool {
    (index: Index) => !SingleIndexOf(index, name)
  }

  lemma {:induction false} KeepFilters(indices: seq<Index>, name: string) returns (at: seq<nat>)
    ensures Filters(indices, Keep(indices, name), at, NotSingle(name))
    decreases |indices|
  {
    at := [];
    if indices != [] {
      var n := |indices| - 1;
      var init := KeepFilters(indices[..n], name);
      FiltersSnoc(indices, Keep(indices[..n], name), init, NotSingle(name));
      at := if NotSingle(name)(indices[n]) then init + [n] else init;
    }
  }

  lemma WrittenStates(t0: Table, k: nat, name: string, x: nat)
    requires k < |t0.columns| && x < |t0.indices| && Droppable(t0, name)
    ensures |WrittenIndices(t0, k, name)| == |t0.indices|
    ensures WrittenIndices(t0, k, name)[x].state == if Mentions(t0.indices[x], name) then WriteOnly else t0.indices[x].state
  {
    var index := t0.indices[x];
    if SingleIndexOf(index, name) { assert index.columns[0].name.L == name; }
    if Mentions(index, name) { assert |index.columns| == 1; }
  }

  /** What is written in the middle of a drop, index by index. */
  lemma WrittenAt(t0: Table, k: nat, name: string, x: nat)
    requires k < |t0.columns| && x < |t0.indices| && Droppable(t0, name)
    ensures var written := WrittenIndices(t0, k, name);
            && |written| == |t0.indices| && SameButOffsets(written[x], t0.indices[x])
            && written[x].state == (if Mentions(t0.indices[x], name) then WriteOnly else t0.indices[x].state)
            && (SingleIndexOf(written[x], name) <==> Mentions(t0.indices[x], name))
  {
    var index := t0.indices[x];
    WrittenIndicesAt(t0, k, name, x);
    WrittenStates(t0, k, name, x);
    SameMentions(WrittenIndices(t0, k, name)[x], index, name);
    if Mentions(index, name) { assert |index.columns| == 1; }
    if SingleIndexOf(index, name) { assert index.columns[0].name.L == name; }
  }

  lemma IndexesAreWritten(t0: Table, k: nat, name: string, t: Table)
    requires k < |t0.columns| && Droppable(t0, name) && t.indices == WrittenIndices(t0, k, name)
    ensures IndexesWritten(t0, t, name)
  {
    forall x | 0 <= x < |t0.indices|
      ensures SameButOffsets(t.indices[x], t0.indices[x])
      ensures t.indices[x].state == if Mentions(t0.indices[x], name) then WriteOnly else t0.indices[x].state
    {
      WrittenAt(t0, k, name, x);
    }
  }

  lemma IndexesAreGone(t0: Table, k: nat, name: string, t: Table) returns (at: seq<nat>)
    requires k < |t0.columns| && Droppable(t0, name) && t.indices == Keep(WrittenIndices(t0, k, name), name)
    ensures IndexesGone(t0, t, name, at)
  {
    var written := WrittenIndices(t0, k, name);
    at := KeepFilters(written, name);
    forall x: nat | x < |t0.indices| ensures !Mentions(t0.indices[x], name) <==> x in at {
      WrittenAt(t0, k, name, x);
      assert NotSingle(name)(written[x]) <==> !SingleIndexOf(written[x], name);
    }
    forall i | 0 <= i < |at|
      ensures SameButOffsets(t.indices[i], t0.indices[at[i]]) && t.indices[i].state == t0.indices[at[i]].state
    {
      WrittenAt(t0, k, name, at[i]);
      assert NotSingle(name)(written[at[i]]);
    }
  }

  /** The dropped column is last, in a state that is not public; the others are there in their order. */
  predicate BeingDropped(t0: Table, k: nat, t: Table, state: SchemaState)
    requires k < |t0.columns|
  {
    && state != Public
    && t.columns == Renumbered(t0.columns[..k] + t0.columns[k + 1..]) + [t0.columns[k].(state := state, offset := |t0.columns| - 1)]
  }

  lemma DroppingIs(t0: Table, k: nat, state: SchemaState, t: Table)
    requires Start(t0) && k < |t0.columns| && state != Public && t.columns == Dropping(t0, k, state)
    ensures BeingDropped(t0, k, t, state)
  {
    DroppedColumns(t0, k, state);
    assert t.columns == t.columns[..|t0.columns| - 1] + [t.columns[|t0.columns| - 1]];
  }

  lemma PublicWhileWritten(t: Table, name: string)
    requires WellFormed(t) && t.columns != [] && t.columns[|t.columns| - 1].name.L == name
    requires forall i :: 0 <= i < |t.columns| - 1 ==> t.columns[i].state == Public
    requires forall x :: 0 <= x < |t.indices| && Mentions(t.indices[x], name) ==> t.indices[x].state != Public
    ensures PublicOnPublic(t)
  {
    forall x, y | 0 <= x < |t.indices| && t.indices[x].state == Public && 0 <= y < |t.indices[x].columns|
      ensures PublicAt(t.columns, t.indices[x].columns[y].offset)
    {
      AllButLastPublic(t, x, y);
    }
  }

  /** A table in the middle of a drop. */
  lemma DropMiddleTable(j: DropJob, t0: Table, t: Table) returns (state: SchemaState, at: seq<nat>)
    requires Start(t0) && DropFits(j, t0) && DropMiddle(j, t0, t) && t.maxColumnID == t0.maxColumnID && t.maxIndexID == t0.maxIndexID
    ensures BeingDropped(t0, Find(t0.columns, j.name), t, state) && PublicOnPublic(t)
    ensures if state == WriteOnly then IndexesWritten(t0, t, j.name) else IndexesGone(t0, t, j.name, at)
  {
    var k, n := Find(t0.columns, j.name), |t0.columns|;
    state, at := t.columns[n - 1].state, [];
    DropMiddleWellFormed(j, t0, t);
    DroppingIs(t0, k, state, t);
    DroppingStates(t0, k, state);
    if state == WriteOnly {
      IndexesAreWritten(t0, k, j.name, t);
      forall x | 0 <= x < |t.indices| && Mentions(t.indices[x], j.name) ensures t.indices[x].state != Public {
        SameMentions(t.indices[x], t0.indices[x], j.name);
      }
    } else {
      at := IndexesAreGone(t0, k, j.name, t);
      forall x | 0 <= x < |t.indices| ensures !Mentions(t.indices[x], j.name) {
        NothingMentions(t0, k, j.name, t.indices, x);
      }
    }
    PublicWhileWritten(t, j.name);
  }

  /**
    In every run of a drop-column job the column, once the job has begun, is last and not public. While it is only written
    so are all indexes on it; after that they are gone. No other index changes but in offsets, and no public index is ever
    on a column that is not.
   */
  lemma DropRunTables(j: DropJob, t0: Table, steps: seq<Step>) returns (state: SchemaState, at: seq<nat>)
    requires Start(t0)
    ensures var s := DropRun(j, t0, steps);
            && PublicOnPublic(s.t)
            && (s.t != t0 ==> DropFits(j, t0))
            && (s.job == Running && s.t != t0 ==>
                  && BeingDropped(t0, Find(t0.columns, j.name), s.t, state)
                  && if state == WriteOnly then IndexesWritten(t0, s.t, j.name) else IndexesGone(t0, s.t, j.name, at))
            && (s.job == Done ==> IndexesGone(t0, s.t, j.name, at))
  {
    DropRunShape(j, t0, steps);
    DropRuns(j, t0, steps);
    var s := DropRun(j, t0, steps);
    state, at := Public, [];
    if s.job == Done {
      at := IndexesAreGone(t0, Find(t0.columns, j.name), j.name, s.t);
      AllPublic(s.t);
    } else if s.t == t0 {
      AllPublic(t0);
    } else {
      state, at := DropMiddleTable(j, t0, s.t);
    }
  }

  // ----- MODIFY COLUMN -----

  /** The length an index column has on a column of the given type: its own where the type allows a prefix that long. */
  predicate LengthOn(before: IndexColumn, after: IndexColumn, tp: Type) {
    && (tp.prefixable && before.length <= tp.flen ==> after.length == before.length)
    && (!tp.prefixable || before.length > tp.flen ==> after.length == UNSPECIFIED_LENGTH)
  }

  /** An index column on the old column is now on the one called `name`; any other is as before. */
  predicate Carried(before: IndexColumn, after: IndexColumn, oldName: string, name: CIStr, tp: Type) {
    if before.name.L == oldName then after.name == name && LengthOn(before, after, tp)
    else after.name == before.name && after.length == before.length
  }

  predicate ColumnsCarried(before: Index, after: Index, oldName: string, name: CIStr, tp: Type) {
    && after.primary == before.primary && |after.columns| == |before.columns|
    && forall y :: 0 <= y < |before.columns| ==> Carried(before.columns[y], after.columns[y], oldName, name, tp)
  }

  lemma RetargetCarries(cols: seq<Column>, before: Index, after: Index, oldName: string, c: Column)
    requires DistinctColumns(cols) && IndexLinked(cols, before) && after.primary == before.primary
    requires after.columns == Retarget(before.columns, oldName, c)
    ensures ColumnsCarried(before, after, oldName, c.name, c.tp)
  {
    var p := FindIndexColumn(before.columns, oldName);
    forall y | 0 <= y < |before.columns| && y != p ensures before.columns[y].name.L != oldName {
      if y > p {
        assert PointsAt(cols, before.columns[y]) && PointsAt(cols, before.columns[p]);
        assert before.columns[p].offset != before.columns[y].offset;
      }
    }
  }

  /** An index of the old table and what a completed job has made of it. */
  predicate IndexCarried(j: ModifyJob, t0: Table, before: Index, after: Index) {
    && after.name == before.name && ColumnsCarried(before, after, j.oldName, j.def.name, j.def.tp)
    && if Mentions(before, j.oldName) then after.id > t0.maxIndexID && after.state == Public
       else after.id == before.id && after.state == before.state
  }

  /** The column a modify-column job leaves in place of the old one. */
  function ModifiedColumnOf(j: ModifyJob, t0: Table): Column {
    Column(t0.maxColumnID + 1, j.def.name, 0, Public, false, j.def.notNull, false, j.def.tp)
  }

  lemma FinalIndexCarried(j: ModifyJob, t0: Table, final: seq<Index>, x: nat)
    requires ModifyStart(j, t0) && ModifyFits(j, t0) && FinalIndices(j, t0, final) && x < |final|
    ensures IndexCarried(j, t0, t0.indices[x], final[x])
  {
    var at, k := AtOf(j, t0), OldOf(j, t0);
    RelatedAtFacts(t0.indices, j.oldName);
    assert IndexLinked(t0.columns, t0.indices[x]);
    if x in at {
      var m :| 0 <= m < |at| && at[m] == x;
      RetargetCarries(t0.columns, t0.indices[x], final[x], j.oldName, FinalColumn(j, t0));
    } else {
      assert final[x] == t0.indices[x];
      forall y | 0 <= y < |final[x].columns| ensures final[x].columns[y].name.L != j.oldName {
        assert !Mentions(final[x], j.oldName);
      }
    }
  }

  /** Moving columns changes only offsets. */
  lemma MovedCarried(j: ModifyJob, t0: Table, before: Index, after: Index, from: nat, to: nat)
    requires IndexCarried(j, t0, before, after)
    ensures IndexCarried(j, t0, before, MoveIndex(after, from, to))
  {
  }

  /** What a completed job leaves of columns and indexes. */
  predicate ModifiedAt(j: ModifyJob, t0: Table, k: nat, t: Table, dest: nat)
    requires k < |t0.columns|
  {
    && Inserted(t0.columns[..k] + t0.columns[k + 1..], t.columns, ModifiedColumnOf(j, t0), dest)
    && PlacedAs(t.columns, dest, j.pos, k)
    && |t.indices| == |t0.indices|
    && forall x :: 0 <= x < |t0.indices| ==> IndexCarried(j, t0, t0.indices[x], t.indices[x])
  }

  lemma DoneTable(j: ModifyJob, t0: Table, t: Table) returns (dest: nat)
    requires ModifyStart(j, t0) && ModifyFits(j, t0) && ModifyDone(j, t0, t)
    ensures ModifiedAt(j, t0, OldOf(j, t0), t, dest) && PublicOnPublic(t)
  {
    var k, cols := OldOf(j, t0), WithFinalColumn(j, t0);
    dest := Locate(k, j.pos, if j.pos.After? then Find(t0.columns, j.pos.name) else 0);
    var final :|
      && FinalIndices(j, t0, final)
      && t == MoveColumn(Table(cols, final, t0.maxColumnID + 1, t0.maxIndexID + |AtOf(j, t0)|), k, dest);
    DoneColumns(j, t0, dest);
    forall x | 0 <= x < |t0.indices| ensures IndexCarried(j, t0, t0.indices[x], t.indices[x]) {
      FinalIndexCarried(j, t0, final, x);
      MovedCarried(j, t0, t0.indices[x], final[x], k, dest);
    }
    DoneIsPublic(j, t0, t);
  }

  lemma DoneColumns(j: ModifyJob, t0: Table, dest: nat)
    requires ModifyStart(j, t0) && ModifyFits(j, t0)
    requires j.pos.After? ==> Find(t0.columns, j.pos.name) < |t0.columns| && Find(t0.columns, j.pos.name) != OldOf(j, t0)
    requires dest == Locate(OldOf(j, t0), j.pos, if j.pos.After? then Find(t0.columns, j.pos.name) else 0) && dest < |t0.columns|
    ensures var k, moved := OldOf(j, t0), MoveColumns(WithFinalColumn(j, t0), OldOf(j, t0), dest);
            && Inserted(t0.columns[..k] + t0.columns[k + 1..], moved, ModifiedColumnOf(j, t0), dest)
            && PlacedAs(moved, dest, j.pos, k)
  {
    var k, cols := OldOf(j, t0), WithFinalColumn(j, t0);
    FinalColumnsFine(j, t0);
    MovedIsInserted(cols, k, dest);
    assert cols[..k] + cols[k + 1..] == t0.columns[..k] + t0.columns[k + 1..];
    if j.pos.After? {
      var r := Find(t0.columns, j.pos.name);
      FindIs(cols, j.pos.name, r);
    }
    MovedAsPlaced(cols, k, j.pos);
  }

  lemma DoneIsPublic(j: ModifyJob, t0: Table, t: Table)
    requires ModifyStart(j, t0) && ModifyFits(j, t0) && ModifyDone(j, t0, t)
    ensures PublicOnPublic(t)
  {
    var k, cols := OldOf(j, t0), WithFinalColumn(j, t0);
    var final :|
      && FinalIndices(j, t0, final)
      && t == MoveColumn(Table(cols, final, t0.maxColumnID + 1, t0.maxIndexID + |AtOf(j, t0)|), k,
                         Locate(k, j.pos, if j.pos.After? then Find(t0.columns, j.pos.name) else 0));
    FinalColumnsFine(j, t0);
    FinalIndicesFine(j, t0, final);
    MoveWellFormed(Table(cols, final, t0.maxColumnID + 1, t0.maxIndexID + |AtOf(j, t0)|), k,
                   Locate(k, j.pos, if j.pos.After? then Find(t0.columns, j.pos.name) else 0));
    AllPublic(t);
  }

  /** While the job runs: the changing column is last, and only a flag of the old column differs from before. */
  predicate ColumnsChanging(j: ModifyJob, t0: Table, k: nat, t: Table, state: SchemaState)
    requires k < |t0.columns|
  {
    var n, c := |t0.columns|, t0.columns[k];
    && |t.columns| == n + 1
    && t.columns[..n] == t0.columns[k := c.(preventNull := c.preventNull || (!c.notNull && j.def.notNull))]
    && t.columns[n] == Column(t0.maxColumnID + 1, t.columns[n].name, n, state, true, j.def.notNull, false, j.def.tp)
    && forall i :: 0 <= i < n ==> t.columns[n].name.L != t0.columns[i].name.L
  }

  /** For every index on the old column there is a temporary one on the changing column, in the changing column's state. */
  predicate TempCarried(j: ModifyJob, t0: Table, before: Index, temp: Index, id: int, c: Column) {
    && temp.id == id && temp.state == c.state && OriginOf(temp) == before.name
    && ColumnsCarried(before, temp, j.oldName, c.name, j.def.tp)
  }

  predicate IndexesChanging(j: ModifyJob, t0: Table, t: Table, at: seq<nat>) {
    && t.columns != []
    && Positions(t0.indices, at, On(j.oldName))
    && |t.indices| == |t0.indices| + |at| && t.indices[..|t0.indices|] == t0.indices
    && forall m :: 0 <= m < |at| ==>
         TempCarried(j, t0, t0.indices[at[m]], t.indices[|t0.indices| + m], t0.maxIndexID + 1 + m, t.columns[|t.columns| - 1])
  }

  lemma MiddleColumnsChanging(j: ModifyJob, t0: Table, state: SchemaState)
    requires ModifyStart(j, t0) && ModifyFits(j, t0)
    ensures ColumnsChanging(j, t0, OldOf(j, t0), Middle(j, t0, state), state)
  {
    MiddleColumns(j, t0, state);
    forall i | 0 <= i < |t0.columns| ensures ChangingOf(j, t0, state).name.L != t0.columns[i].name.L {
      ChangingNameFresh(j, t0, i);
    }
  }

  lemma RelatedPositions(indices: seq<Index>, name: string)
    ensures Positions(indices, RelatedAt(indices, name), On(name))
  {
    var at := RelatedAt(indices, name);
    RelatedAtFacts(indices, name);
    forall i | 0 <= i < |at| ensures at[i] < |indices| && On(name)(indices[at[i]]) {
      assert at[i] in at;
    }
  }

  lemma MiddleTemp(j: ModifyJob, t0: Table, state: SchemaState, m: nat)
    requires ModifyStart(j, t0) && ModifyFits(j, t0) && m < |AtOf(j, t0)|
    ensures TempCarried(j, t0, t0.indices[AtOf(j, t0)[m]], TempsOf(j, t0)[m].(state := state), t0.maxIndexID + 1 + m,
                        ChangingOf(j, t0, state))
  {
    var at, c := AtOf(j, t0), ChangingOf(j, t0, StateNone);
    var index, temp := t0.indices[at[m]], TempsOf(j, t0)[m].(state := state);
    TempsAt(t0.indices, at, t0.maxIndexID, j.oldName, c, m);
    assert IndexLinked(t0.columns, index);
    RetargetCarries(t0.columns, index, temp, j.oldName, c);
    assert index.name == NewCIStr(index.name.O);
  }

  lemma MiddleIndexesChanging(j: ModifyJob, t0: Table, state: SchemaState)
    requires ModifyStart(j, t0) && ModifyFits(j, t0)
    ensures IndexesChanging(j, t0, Middle(j, t0, state), AtOf(j, t0))
  {
    var at, n, t := AtOf(j, t0), |t0.indices|, Middle(j, t0, state);
    RelatedPositions(t0.indices, j.oldName);
    assert t.columns[|t.columns| - 1] == ChangingOf(j, t0, state);
    forall m | 0 <= m < |at|
      ensures TempCarried(j, t0, t0.indices[at[m]], t.indices[n + m], t0.maxIndexID + 1 + m, ChangingOf(j, t0, state))
    {
      MiddleTemp(j, t0, state, m);
    }
  }

  lemma MiddlePublic(j: ModifyJob, t0: Table, state: SchemaState)
    requires ModifyStart(j, t0) && ModifyFits(j, t0) && state != Public
    ensures PublicOnPublic(Middle(j, t0, state))
  {
    var t, n := Middle(j, t0, state), |t0.indices|;
    MiddleWellFormed(j, t0, state);
    MiddleColumns(j, t0, state);
    forall x, y | 0 <= x < |t.indices| && t.indices[x].state == Public && 0 <= y < |t.indices[x].columns|
      ensures PublicAt(t.columns, t.indices[x].columns[y].offset)
    {
      assert x < n && t.indices[x] == t0.indices[x];
      assert IndexLinked(t0.columns, t0.indices[x]);
      assert PointsAt(t0.columns, t0.indices[x].columns[y]);
    }
  }

  /**
    In every run of a data-changing modify-column job: while it runs, the changing column is last, in a state that is not
    public, with one temporary index for each index on the old column; when it is done, the new column stands where the
    clause asks for it in place of the old one, and every index column on it has kept its length where the new type allows it.
   */
  lemma ModifyRunTables(j: ModifyJob, t0: Table, steps: seq<ModifyStep>) returns (state: SchemaState, at: seq<nat>, dest: nat)
    requires ModifyStart(j, t0)
    ensures var s, k := ModifyRun(j, t0, steps), Find(t0.columns, j.oldName);
            && PublicOnPublic(s.t)
            && (s.job in {Running, Rollingback} && s.t != t0 ==>
                  k < |t0.columns| && state != Public && ColumnsChanging(j, t0, k, s.t, state) && IndexesChanging(j, t0, s.t, at))
            && (s.job == Done ==> k < |t0.columns| && ModifiedAt(j, t0, k, s.t, dest))
  {
    RunShape(j, t0, steps);
    var s := ModifyRun(j, t0, steps);
    state, at, dest := StateNone, [], 0;
    if s.job == Done {
      dest := DoneTable(j, t0, s.t);
    } else if IsMiddle(j, t0, s.t) {
      state :| state in {DeleteOnly, WriteOnly, WriteReorganization} && s.t == Middle(j, t0, state);
      at := AtOf(j, t0);
      MiddleColumnsChanging(j, t0, state);
      MiddleIndexesChanging(j, t0, state);
      MiddlePublic(j, t0, state);
    } else {
      AllPublic(t0);
      assert s.t.columns == t0.columns && s.t.indices == t0.indices;
    }
  }

  /** The state of the column with that ID. */
  function StateOfID(t: Table, id: int): SchemaState {
    var i := FindID(t.columns, id);
    if i == |t.columns| then StateNone else t.columns[i].state
  }

  /** The states a changing column goes through, one at a time; a rollback takes it away from any of them. */
  predicate NextState(a: SchemaState, b: SchemaState) {
    || a == b || (b == StateNone && a != Public)
    || (a, b) in {(StateNone, DeleteOnly), (DeleteOnly, WriteOnly), (WriteOnly, WriteReorganization), (WriteReorganization, Public)}
  }

  lemma StateIn(t: Table, i: nat)
    requires WellFormed(t) && i < |t.columns|
    ensures StateOfID(t, t.columns[i].id) == t.columns[i].state
  {
    assert FindID(t.columns, t.columns[i].id) == i;
  }

  lemma StateOfMiddle(j: ModifyJob, t0: Table, state: SchemaState)
    requires ModifyStart(j, t0) && ModifyFits(j, t0) && state != Public
    ensures StateOfID(Middle(j, t0, state), t0.maxColumnID + 1) == state
  {
    MiddleWellFormed(j, t0, state);
    StateIn(Middle(j, t0, state), |t0.columns|);
  }

  lemma StateOfDone(j: ModifyJob, t0: Table, t: Table)
    requires ModifyStart(j, t0) && ModifyFits(j, t0) && ModifyDone(j, t0, t)
    ensures StateOfID(t, t0.maxColumnID + 1) == Public
  {
    var dest := DoneTable(j, t0, t);
    DoneWellFormed(j, t0, t);
    StateIn(t, dest);
  }

  /** One more step of any run takes the changing column at most one state further. */
  lemma ModifyStateSteps(j: ModifyJob, t0: Table, steps: seq<ModifyStep>, step: ModifyStep)
    requires ModifyStart(j, t0)
    ensures var a, b, id := ModifyRun(j, t0, steps), ModifyRun(j, t0, steps + [step]), t0.maxColumnID + 1;
            NextState(StateOfID(a.t, id), StateOfID(b.t, id))
  {
    var s := ModifyRun(j, t0, steps);
    RunShape(j, t0, steps);
    RunShape(j, t0, steps + [step]);
    assert (steps + [step])[..|steps|] == steps;
    assert StateOfID(t0, t0.maxColumnID + 1) == StateNone;
    if step == Advance && s.job in {Running, Rollingback} {
      AdvanceState(j, t0, s);
    }
  }

  lemma AdvanceState(j: ModifyJob, t0: Table, s: ModifyView)
    requires ModifyStart(j, t0) && ModifyShape(j, t0, s) && s.job in {Running, Rollingback}
    ensures NextState(StateOfID(s.t, t0.maxColumnID + 1), StateOfID(ModifyRound(j, s).t, t0.maxColumnID + 1))
  {
    if s.t == t0 && s.changing == NoChanging {
      AdvanceStart(j, t0, s);
    } else {
      var state :| state in {DeleteOnly, WriteOnly, WriteReorganization} && s.t == Middle(j, t0, state);
      AdvanceLater(j, t0, state, s);
    }
  }

  lemma AdvanceStart(j: ModifyJob, t0: Table, s: ModifyView)
    requires ModifyStart(j, t0) && ModifyShape(j, t0, s) && s.job in {Running, Rollingback} && s.t == t0 && s.changing == NoChanging
    ensures NextState(StateOfID(t0, t0.maxColumnID + 1), StateOfID(ModifyRound(j, s).t, t0.maxColumnID + 1))
  {
    assert StateOfID(t0, t0.maxColumnID + 1) == StateNone;
    if s.job == Rollingback {
      RollbackFromStart(j, t0, s);
    } else if ModifyFits(j, t0) {
      FirstModifyRound(j, t0);
      StateOfMiddle(j, t0, DeleteOnly);
    } else {
      RoundWithoutFit(j, t0, s);
    }
  }

  lemma AdvanceLater(j: ModifyJob, t0: Table, state: SchemaState, s: ModifyView)
    requires ModifyStart(j, t0) && ModifyFits(j, t0) && state in {DeleteOnly, WriteOnly, WriteReorganization}
    requires s.t == Middle(j, t0, state) && s.changing == Appended(t0.maxColumnID + 1) && s.job in {Running, Rollingback}
    ensures NextState(StateOfID(s.t, t0.maxColumnID + 1), StateOfID(ModifyRound(j, s).t, t0.maxColumnID + 1))
  {
    StateOfMiddle(j, t0, state);
    if s.job == Running { AdvanceMiddle(j, t0, state, s); } else { RollbackFromMiddle(j, t0, state, s); }
  }

  lemma AdvanceMiddle(j: ModifyJob, t0: Table, state: SchemaState, s: ModifyView)
    requires ModifyStart(j, t0) && ModifyFits(j, t0) && state in {DeleteOnly, WriteOnly, WriteReorganization}
    requires s.t == Middle(j, t0, state) && s.changing == Appended(t0.maxColumnID + 1) && s.job == Running
    ensures NextState(state, StateOfID(ModifyRound(j, s).t, t0.maxColumnID + 1))
  {
    RoundOnMiddle(j, t0, state, s);
    RoundFromMiddle(j, t0, state, s);
    StateOfMiddle(j, t0, state);
    var now := ModifyRound(j, s);
    if !Clash(j, t0) {
      match state
      case DeleteOnly => NextRound(j, t0, DeleteOnly, WriteOnly); StateOfMiddle(j, t0, WriteOnly);
      case WriteOnly => NextRound(j, t0, WriteOnly, WriteReorganization); StateOfMiddle(j, t0, WriteReorganization);
      case WriteReorganization => if now.job == Done { StateOfDone(j, t0, now.t); }
    }
  }
}
