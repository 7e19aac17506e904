/** What every run of a data-changing modify-column job keeps, restores and produces. */
module ModifyRuns {
  import opened ColumnOrder
  import opened TableInfo
  import opened ColumnJobs
  import opened ModifyColumn
  import Names = ChangingNames

  /** The job's modifyColumnTp agrees with the table, and no earlier change left its flag behind. */
  predicate ModifyStart(j: ModifyJob, t0: Table) {
    && Start(t0) && ProperNames(t0.indices)
    && var k := Find(t0.columns, j.oldName);
       k < |t0.columns| ==>
         && (j.nullToNotNull <==> !t0.columns[k].notNull && j.def.notNull)
         && (j.nullToNotNull ==> !t0.columns[k].preventNull)
  }

  predicate ModifyFits(j: ModifyJob, t0: Table) {
    && j.allowed && Find(t0.columns, j.oldName) < |t0.columns|
    && (j.def.name.L == j.oldName || Find(t0.columns, j.def.name.L) == |t0.columns|)
  }

  function WithState(indices: seq<Index>, state: SchemaState): seq<Index> {
    seq(|indices|, (x: nat) requires x < |indices| => indices[x].(state := state))
  }

  ghost function OldOf(j: ModifyJob, t0: Table): nat {
    Find(t0.columns, j.oldName)
  }

  ghost function ChangingOf(j: ModifyJob, t0: Table, state: SchemaState): Column
    requires ModifyFits(j, t0)
  {
    ChangingColumn(t0, t0.columns[OldOf(j, t0)].name.O, j.def, state)
  }

  ghost function AtOf(j: ModifyJob, t0: Table): (at: seq<nat>)
    requires ModifyFits(j, t0)
    ensures AtIn(t0.indices, at)
  {
    RelatedAtFacts(t0.indices, t0.columns[OldOf(j, t0)].name.L);
    RelatedAt(t0.indices, t0.columns[OldOf(j, t0)].name.L)
  }

  ghost function TempsOf(j: ModifyJob, t0: Table): (r: seq<Index>)
    requires ModifyFits(j, t0)
    ensures |r| == |AtOf(j, t0)|
  {
    Temps(t0.indices, AtOf(j, t0), t0.maxIndexID, t0.columns[OldOf(j, t0)].name.L, ChangingOf(j, t0, StateNone))
  }

  /** The table while the job runs: the changing column is last, the temporary indexes follow the others. */
  ghost function Middle(j: ModifyJob, t0: Table, state: SchemaState): Table
    requires ModifyFits(j, t0)
  {
    Table(PreventNull(t0.columns, OldOf(j, t0), j.def) + [ChangingOf(j, t0, state)],
          t0.indices + WithState(TempsOf(j, t0), state),
          t0.maxColumnID + 1, t0.maxIndexID + |AtOf(j, t0)|)
  }

  // ----- The changing column and the temporary indexes -----

  lemma ChangingNameFresh(j: ModifyJob, t0: Table, i: nat)
    requires ModifyFits(j, t0) && i < |t0.columns|
    ensures t0.columns[i].name.L != ChangingOf(j, t0, StateNone).name.L
  {
    LowerCharOk();
    var names := ColumnNames(t0.columns);
    Names.ChangingNameUnused(LowerChar, Names.COLUMN_PREFIX, t0.columns[OldOf(j, t0)].name.O, names);
    assert names[i] in names;
  }

  /** Putting an index on another column keeps it linked. */
  lemma RetargetLinked(cols: seq<Column>, index: Index, k: nat, c: Column)
    requires DistinctColumns(cols) && IndexLinked(cols, index) && k < |cols| && Mentions(index, cols[k].name.L)
    requires c.offset == |cols|
    ensures IndexLinked(cols + [c], index.(columns := Retarget(index.columns, cols[k].name.L, c)))
    ensures Refers(index.(columns := Retarget(index.columns, cols[k].name.L, c)), |cols|)
  {
    var ics, name := index.columns, cols[k].name.L;
    var p, r := FindIndexColumn(ics, name), Retarget(ics, name, c);
    assert p < |ics| by {
      var y :| 0 <= y < |ics| && ics[y].name.L == name;
    }
    assert r[p].offset == |cols|;
    forall y | 0 <= y < |r| ensures PointsAt(cols + [c], r[y]) {
      assert PointsAt(cols, ics[y]);
    }
    forall y, z | 0 <= y < z < |r| ensures r[y].offset != r[z].offset {
      assert PointsAt(cols, ics[y]) && PointsAt(cols, ics[z]);
    }
  }

  /** Each temporary index is its original on the changing column, under a new ID and a name that leads back. */
  lemma {:induction false} TempsAt(indices: seq<Index>, at: seq<nat>, maxID: int, name: string, c: Column, m: nat)
    requires AtIn(indices, at) && m < |at|
    ensures var temp, index := Temps(indices, at, maxID, name, c)[m], indices[at[m]];
            && temp.id == maxID + 1 + m && temp.columns == Retarget(index.columns, name, c)
            && temp.primary == index.primary
            && Names.OriginName(Names.INDEX_PREFIX, temp.name.O) == index.name.O
    decreases |at|
  {
    var l := |at| - 1;
    var init := Temps(indices, at[..l], maxID, name, c);
    if m == l {
      Names.OriginRoundTrip(LowerChar, Names.INDEX_PREFIX, indices[at[m]].name.O, IndexNames(indices + init));
    } else {
      TempsAt(indices, at[..l], maxID, name, c, m);
      assert Temps(indices, at, maxID, name, c)[m] == init[m];
    }
  }

  /** The temporary indexes clash neither with the others nor with each other. */
  lemma {:induction false} TempsDistinct(indices: seq<Index>, at: seq<nat>, maxID: int, name: string, c: Column)
    requires AtIn(indices, at) && DistinctIndices(indices) && forall x :: 0 <= x < |indices| ==> indices[x].id <= maxID
    ensures DistinctIndices(indices + Temps(indices, at, maxID, name, c))
    ensures forall x :: 0 <= x < |indices| + |at| ==> (indices + Temps(indices, at, maxID, name, c))[x].id <= maxID + |at|
    decreases |at|
  {
    var all := indices + Temps(indices, at, maxID, name, c);
    if at == [] {
      assert all == indices;
    } else {
      var m := |at| - 1;
      var init := Temps(indices, at[..m], maxID, name, c);
      var before := indices + init;
      TempsDistinct(indices, at[..m], maxID, name, c);
      assert all == before + [all[|all| - 1]];
      LowerCharOk();
      var names := IndexNames(before);
      Names.ChangingNameUnused(LowerChar, Names.INDEX_PREFIX, indices[at[m]].name.O, names);
      forall x | 0 <= x < |before| ensures before[x].name.L != all[|all| - 1].name.L && before[x].id != all[|all| - 1].id {
        assert names[x] in names;
      }
    }
  }

  /** Columns of the middle tables: keys as in t0, then the changing column. */
  lemma MiddleColumns(j: ModifyJob, t0: Table, state: SchemaState)
    requires ModifyStart(j, t0) && ModifyFits(j, t0)
    ensures var cols, n := Middle(j, t0, state).columns, |t0.columns|;
            && |cols| == n + 1 && cols[n] == ChangingOf(j, t0, state)
            && Numbered(cols) && DistinctColumns(cols)
            && (forall i :: 0 <= i < n ==> cols[i].id <= t0.maxColumnID && cols[i].state == Public)
            && (forall i :: 0 <= i < n ==> cols[i].name == t0.columns[i].name && cols[i].id == t0.columns[i].id)
            && AllLinked(cols, t0.indices)
  {
    var n, c := |t0.columns|, ChangingOf(j, t0, state);
    var cols := PreventNull(t0.columns, OldOf(j, t0), j.def);
    SameKeysKeep(t0.columns, cols, t0.indices);
    forall i | 0 <= i < n ensures cols[i].name.L != c.name.L { ChangingNameFresh(j, t0, i); }
    AppendKeeps(cols, t0.indices, c);
  }

  /** The indexes that have the changing column are the temporary ones. */
  lemma WhoHasIt(j: ModifyJob, t0: Table, state: SchemaState)
    requires ModifyStart(j, t0) && ModifyFits(j, t0)
    ensures var cols, id := Middle(j, t0, state).columns, t0.maxColumnID + 1;
            && (forall x :: 0 <= x < |t0.indices| ==> !HasColumn(cols, t0.indices[x], id))
            && (forall m :: 0 <= m < |TempsOf(j, t0)| ==>
                  IndexLinked(cols, TempsOf(j, t0)[m]) && HasColumn(cols, TempsOf(j, t0)[m], id))
  {
    var cols, n := Middle(j, t0, state).columns, |t0.columns|;
    MiddleColumns(j, t0, state);
    forall x | 0 <= x < |t0.indices| ensures !HasColumn(cols, t0.indices[x], t0.maxColumnID + 1) {
      assert IndexLinked(cols, t0.indices[x]) && IndexLinked(t0.columns, t0.indices[x]);
      SameLookup(cols, t0.indices[x], n);
      forall y | 0 <= y < |t0.indices[x].columns| ensures t0.indices[x].columns[y].offset != n {
        assert PointsAt(t0.columns, t0.indices[x].columns[y]);
      }
    }
    forall m | 0 <= m < |TempsOf(j, t0)|
      ensures IndexLinked(cols, TempsOf(j, t0)[m]) && HasColumn(cols, TempsOf(j, t0)[m], t0.maxColumnID + 1)
    {
      TempLinked(j, t0, state, m);
      SameLookup(cols, TempsOf(j, t0)[m], n);
    }
  }

  lemma TempLinked(j: ModifyJob, t0: Table, state: SchemaState, m: nat)
    requires ModifyStart(j, t0) && ModifyFits(j, t0) && m < |TempsOf(j, t0)|
    ensures IndexLinked(Middle(j, t0, state).columns, TempsOf(j, t0)[m]) && Refers(TempsOf(j, t0)[m], |t0.columns|)
  {
    var k, c, at := OldOf(j, t0), ChangingOf(j, t0, StateNone), AtOf(j, t0);
    var name := t0.columns[k].name.L;
    RelatedAtFacts(t0.indices, name);
    assert at[m] in at;
    TempsAt(t0.indices, at, t0.maxIndexID, name, c, m);
    var index, temp := t0.indices[at[m]], TempsOf(j, t0)[m];
    RetargetLinked(t0.columns, index, k, c);
    var moved := index.(columns := Retarget(index.columns, name, c));
    assert temp.columns == moved.columns;
    LinkedByKeys(t0.columns + [c], Middle(j, t0, state).columns, moved, temp);
    var y :| 0 <= y < |moved.columns| && moved.columns[y].offset == |t0.columns|;
    assert temp.columns[y].offset == |t0.columns|;
  }

  lemma LinkedByKeys(a: seq<Column>, b: seq<Column>, x: Index, y: Index)
    requires IndexLinked(a, x) && x.columns == y.columns && |a| == |b| && forall i :: 0 <= i < |a| ==> a[i].name == b[i].name
    ensures IndexLinked(b, y)
  {
    forall z | 0 <= z < |y.columns| ensures PointsAt(b, y.columns[z]) {
      assert PointsAt(a, x.columns[z]);
    }
  }

  // ----- State changes and rollback on the middle tables -----

  /** Setting the state of the last column and of the indexes on it, when exactly the indexes b are on it. */
  lemma StateChangeShape(base: seq<Column>, c: Column, a: seq<Index>, b: seq<Index>, maxColumn: int, maxIndex: int, to: SchemaState)
    requires Separate(base, c, a, b)
    ensures SetChangingState(Table(base + [c], a + b, maxColumn, maxIndex), c.id, to)
            == Table(base + [c.(state := to)], a + WithState(b, to), maxColumn, maxIndex)
  {
    var r := SetChangingState(Table(base + [c], a + b, maxColumn, maxIndex), c.id, to);
    assert r.columns == base + [c.(state := to)];
    assert r.indices == a + WithState(b, to);
  }

  ghost predicate SameIDs(a: seq<Column>, b: seq<Column>) {
    |a| == |b| && forall i :: 0 <= i < |a| ==> a[i].id == b[i].id
  }

  ghost predicate SameColumns(a: seq<Index>, b: seq<Index>) {
    |a| == |b| && forall x :: 0 <= x < |a| ==> a[x].columns == b[x].columns
  }

  /** The last column is new, no original index is on it and every temporary one is. */
  ghost predicate Separate(base: seq<Column>, c: Column, a: seq<Index>, b: seq<Index>) {
    && (forall i :: 0 <= i < |base| ==> base[i].id != c.id)
    && (forall x :: 0 <= x < |a| ==> !HasColumn(base + [c], a[x], c.id))
    && (forall x :: 0 <= x < |b| ==> HasColumn(base + [c], b[x], c.id))
  }

  lemma TempsSeparate(j: ModifyJob, t0: Table, base: seq<Column>, c: Column, temps: seq<Index>)
    requires ModifyStart(j, t0) && ModifyFits(j, t0) && c.id == t0.maxColumnID + 1
    requires SameIDs(base, t0.columns) && SameColumns(temps, TempsOf(j, t0))
    ensures Separate(base, c, t0.indices, temps)
  {
    var cols := Middle(j, t0, StateNone).columns;
    MiddleColumns(j, t0, StateNone);
    WhoHasIt(j, t0, StateNone);
    forall i | 0 <= i < |base| ensures base[i].id != c.id {
      assert base[i].id == cols[i].id;
    }
    forall x | 0 <= x < |t0.indices| ensures !HasColumn(base + [c], t0.indices[x], c.id) {
      HasColumnByIDs(cols, base + [c], t0.indices[x], t0.indices[x], c.id);
    }
    forall m | 0 <= m < |temps| ensures HasColumn(base + [c], temps[m], c.id) {
      HasColumnByIDs(cols, base + [c], TempsOf(j, t0)[m], temps[m], c.id);
    }
  }

  lemma StateChange(j: ModifyJob, t0: Table, from: SchemaState, to: SchemaState, temps: seq<Index>)
    requires ModifyStart(j, t0) && ModifyFits(j, t0)
    requires SameColumns(temps, TempsOf(j, t0)) && WithState(temps, to) == WithState(TempsOf(j, t0), to)
    ensures SetChangingState(Middle(j, t0, from).(indices := t0.indices + temps), t0.maxColumnID + 1, to) == Middle(j, t0, to)
  {
    var base, c := PreventNull(t0.columns, OldOf(j, t0), j.def), ChangingOf(j, t0, from);
    TempsSeparate(j, t0, base, c, temps);
    StateChangeShape(base, c, t0.indices, temps, t0.maxColumnID + 1, t0.maxIndexID + |AtOf(j, t0)|, to);
  }

  lemma FirstRound(j: ModifyJob, t0: Table)
    requires ModifyStart(j, t0) && ModifyFits(j, t0)
    ensures AtIn(t0.indices, RelatedAt(t0.indices, t0.columns[OldOf(j, t0)].name.L))
    ensures SetChangingState(SetUp(t0, OldOf(j, t0), j.def), t0.maxColumnID + 1, DeleteOnly) == Middle(j, t0, DeleteOnly)
  {
    RelatedAtFacts(t0.indices, t0.columns[OldOf(j, t0)].name.L);
    StateChange(j, t0, StateNone, DeleteOnly, TempsOf(j, t0));
    assert SetUp(t0, OldOf(j, t0), j.def) == Middle(j, t0, StateNone).(indices := t0.indices + TempsOf(j, t0));
  }

  lemma NextRound(j: ModifyJob, t0: Table, from: SchemaState, to: SchemaState)
    requires ModifyStart(j, t0) && ModifyFits(j, t0)
    ensures SetChangingState(Middle(j, t0, from), t0.maxColumnID + 1, to) == Middle(j, t0, to)
  {
    var temps := WithState(TempsOf(j, t0), from);
    assert WithState(temps, to) == WithState(TempsOf(j, t0), to);
    StateChange(j, t0, from, to, temps);
  }

  lemma {:induction false} WithoutColumnNone(cols: seq<Column>, id: int)
    requires forall i :: 0 <= i < |cols| ==> cols[i].id != id
    ensures WithoutColumn(cols, id) == cols
    decreases |cols|
  {
    if cols != [] {
      WithoutColumnNone(cols[..|cols| - 1], id);
      assert cols == cols[..|cols| - 1] + [cols[|cols| - 1]];
    }
  }

  lemma {:induction false} WithoutIndicesSplit(cols: seq<Column>, a: seq<Index>, b: seq<Index>, id: int)
    requires forall x :: 0 <= x < |a| ==> !HasColumn(cols, a[x], id)
    requires forall x :: 0 <= x < |b| ==> HasColumn(cols, b[x], id)
    ensures WithoutIndicesOn(cols, a + b, id) == a
    decreases |a| + |b|
  {
    var all := a + b;
    if b != [] {
      assert all[..|all| - 1] == a + b[..|b| - 1];
      WithoutIndicesSplit(cols, a, b[..|b| - 1], id);
    } else if a != [] {
      assert all[..|all| - 1] == a[..|a| - 1] + [];
      WithoutIndicesSplit(cols, a[..|a| - 1], [], id);
      assert a == a[..|a| - 1] + [a[|a| - 1]];
    }
  }

  /** Removing the last column and the indexes on it, when exactly the indexes b are on it. */
  lemma RemoveShape(base: seq<Column>, c: Column, a: seq<Index>, b: seq<Index>, maxColumn: int, maxIndex: int)
    requires Separate(base, c, a, b)
    ensures RemoveChanging(Table(base + [c], a + b, maxColumn, maxIndex), c.id) == Table(base, a, maxColumn, maxIndex)
  {
    var cols := base + [c];
    assert cols[..|cols| - 1] == base;
    WithoutColumnNone(base, c.id);
    WithoutIndicesSplit(cols, a, b, c.id);
  }

  /** Clearing the flags undoes what preventing nulls did. */
  lemma FlagsUndone(j: ModifyJob, t0: Table)
    requires ModifyStart(j, t0) && ModifyFits(j, t0)
    ensures var k := OldOf(j, t0);
            var base := PreventNull(t0.columns, k, j.def);
            if j.nullToNotNull then ClearFlags(base, k) == t0.columns else base == t0.columns
  {
  }

  /** Rolling back any middle table gives the original columns and indexes. */
  lemma RollbackMiddle(j: ModifyJob, t0: Table, state: SchemaState)
    requires ModifyStart(j, t0) && ModifyFits(j, t0)
    ensures var t, k := Middle(j, t0, state), OldOf(j, t0);
            RemoveChanging(if j.nullToNotNull then t.(columns := ClearFlags(t.columns, k)) else t, t0.maxColumnID + 1)
            == t.(columns := t0.columns, indices := t0.indices)
  {
    var k, c, temps := OldOf(j, t0), ChangingOf(j, t0, state), WithState(TempsOf(j, t0), state);
    var t, base := Middle(j, t0, state), PreventNull(t0.columns, k, j.def);
    FlagsUndone(j, t0);
    if j.nullToNotNull { assert ClearFlags(t.columns, k) == ClearFlags(base, k) + [c]; }
    TempsSeparate(j, t0, t0.columns, c, temps);
    RemoveShape(t0.columns, c, t0.indices, temps, t.maxColumnID, t.maxIndexID);
  }

  lemma HasColumnByIDs(a: seq<Column>, b: seq<Column>, x: Index, y: Index, id: int)
    requires |a| == |b| && (forall i :: 0 <= i < |a| ==> a[i].id == b[i].id) && x.columns == y.columns
    ensures HasColumn(a, x, id) <==> HasColumn(b, y, id)
  {
  }

  lemma DistinctByKeys(a: seq<Index>, b: seq<Index>, maxID: int)
    requires DistinctIndices(a) && |a| == |b| && forall x :: 0 <= x < |a| ==> a[x].name == b[x].name && a[x].id == b[x].id <= maxID
    ensures DistinctIndices(b) && forall x :: 0 <= x < |b| ==> b[x].id <= maxID
  {
  }

  lemma MiddleIndices(j: ModifyJob, t0: Table, state: SchemaState)
    requires ModifyFits(j, t0) && DistinctIndices(t0.indices) && forall x :: 0 <= x < |t0.indices| ==> t0.indices[x].id <= t0.maxIndexID
    ensures var t := Middle(j, t0, state);
            DistinctIndices(t.indices) && forall x :: 0 <= x < |t.indices| ==> t.indices[x].id <= t.maxIndexID
  {
    TempsDistinct(t0.indices, AtOf(j, t0), t0.maxIndexID, t0.columns[OldOf(j, t0)].name.L, ChangingOf(j, t0, StateNone));
    DistinctByKeys(t0.indices + TempsOf(j, t0), t0.indices + WithState(TempsOf(j, t0), state), Middle(j, t0, state).maxIndexID);
  }

  lemma LinkedWithStates(cols: seq<Column>, a: seq<Index>, b: seq<Index>, state: SchemaState)
    requires AllLinked(cols, a) && AllLinked(cols, b)
    ensures AllLinked(cols, a + WithState(b, state))
  {
    var all := a + WithState(b, state);
    forall x | 0 <= x < |all| ensures IndexLinked(cols, all[x]) {
      if x < |a| {
        assert IndexLinked(cols, a[x]);
      } else {
        LinkedByKeys(cols, cols, b[x - |a|], all[x]);
      }
    }
  }

  lemma MiddleLinked(j: ModifyJob, t0: Table, state: SchemaState)
    requires ModifyStart(j, t0) && ModifyFits(j, t0)
    ensures AllLinked(Middle(j, t0, state).columns, Middle(j, t0, state).indices)
  {
    MiddleColumns(j, t0, state);
    WhoHasIt(j, t0, state);
    LinkedWithStates(Middle(j, t0, state).columns, t0.indices, TempsOf(j, t0), state);
  }

  lemma MiddleWellFormed(j: ModifyJob, t0: Table, state: SchemaState)
    requires ModifyStart(j, t0) && ModifyFits(j, t0) && state != Public
    ensures WellFormed(Middle(j, t0, state))
  {
    MiddleColumns(j, t0, state);
    MiddleLinked(j, t0, state);
    MiddleIndices(j, t0, state);
  }

  // ----- Completion -----

  function FinishAll(indices: seq<Index>, internal: string, c: Column): (r: seq<Index>)
    ensures |r| == |indices|
  {
    seq(|indices|, (x: nat) requires x < |indices| =>
      indices[x].(columns := RetargetAll(indices[x].columns, internal, c), state := Public))
  }

  lemma FinishAllSnoc(indices: seq<Index>, last: Index, internal: string, c: Column)
    ensures FinishAll(indices + [last], internal, c) ==
            FinishAll(indices, internal, c) + [last.(columns := RetargetAll(last.columns, internal, c), state := Public)]
  {
  }

  lemma {:induction false} FinishedNone(cols: seq<Column>, a: seq<Index>, id: int, internal: string, c: Column)
    requires forall x :: 0 <= x < |a| ==> !HasColumn(cols, a[x], id)
    ensures Finished(cols, a, id, internal, c) == []
    decreases |a|
  {
    if a != [] { FinishedNone(cols, a[..|a| - 1], id, internal, c); }
  }

  lemma {:induction false} FinishedSplit(cols: seq<Column>, a: seq<Index>, b: seq<Index>, id: int, internal: string, c: Column)
    requires forall x :: 0 <= x < |a| ==> !HasColumn(cols, a[x], id)
    requires forall x :: 0 <= x < |b| ==> HasColumn(cols, b[x], id)
    ensures Finished(cols, a + b, id, internal, c) == FinishAll(b, internal, c)
    decreases |b|
  {
    if b == [] {
      assert a + b == a;
      FinishedNone(cols, a, id, internal, c);
    } else {
      var init, last := b[..|b| - 1], b[|b| - 1];
      FinishedSplit(cols, a, init, id, internal, c);
      FinishAllSnoc(init, last, internal, c);
      assert b == init + [last];
      FinishedSnoc(cols, a + init, last, id, internal, c);
      assert a + b == (a + init) + [last];
    }
  }

  lemma FinishedSnoc(cols: seq<Column>, indices: seq<Index>, last: Index, id: int, internal: string, c: Column)
    requires HasColumn(cols, last, id)
    ensures Finished(cols, indices + [last], id, internal, c) ==
            Finished(cols, indices, id, internal, c) + [last.(columns := RetargetAll(last.columns, internal, c), state := Public)]
  {
    assert (indices + [last])[..|indices|] == indices;
  }

  /** Temporary indexes whose origin names are those of the indexes at the given positions. */
  ghost predicate Replacing(indices: seq<Index>, at: seq<nat>, temps: seq<Index>) {
    && |at| == |temps| && AtIn(indices, at)
    && (forall m, l :: 0 <= m < l < |at| ==> at[m] < at[l])
    && (forall m :: 0 <= m < |at| ==> OriginOf(temps[m]) == indices[at[m]].name)
  }

  /** The list after the first l temporary indexes have been put in place. */
  ghost predicate Replaced(indices: seq<Index>, at: seq<nat>, temps: seq<Index>, l: nat, list: seq<Index>)
    requires Replacing(indices, at, temps) && l <= |at|
  {
    && |list| == |indices|
    && (forall m :: 0 <= m < l ==> list[at[m]] == temps[m].(name := indices[at[m]].name))
    && (forall x :: 0 <= x < |indices| && x !in at[..l] ==> list[x] == indices[x])
  }

  lemma ReplacedNames(indices: seq<Index>, at: seq<nat>, temps: seq<Index>, l: nat, list: seq<Index>, x: nat)
    requires Replacing(indices, at, temps) && l <= |at| && Replaced(indices, at, temps, l, list) && x < |indices|
    ensures list[x].name == indices[x].name
  {
    if x in at[..l] {
      var m :| 0 <= m < l && at[..l][m] == x;
      assert at[m] == x;
    }
  }

  lemma FindByName(indices: seq<Index>, list: seq<Index>, x: nat)
    requires DistinctIndices(indices) && |list| == |indices| && x < |indices|
    requires forall y :: 0 <= y < |indices| ==> list[y].name == indices[y].name
    ensures FindIndex(list, indices[x].name.L) == x
  {
  }

  lemma ReplaceStep(indices: seq<Index>, at: seq<nat>, temps: seq<Index>, l: nat, list: seq<Index>)
    requires DistinctIndices(indices) && Replacing(indices, at, temps) && l < |at| && Replaced(indices, at, temps, l, list)
    ensures Replaced(indices, at, temps, l + 1, ReplaceOne(list, temps[l]))
  {
    assert ReplaceOne(list, temps[l]) == list[at[l] := temps[l].(name := indices[at[l]].name)] by {
      forall x | 0 <= x < |indices| ensures list[x].name == indices[x].name {
        ReplacedNames(indices, at, temps, l, list, x);
      }
      FindByName(indices, list, at[l]);
    }
    PutInPlace(indices, at, temps, l, list);
  }

  lemma PutInPlace(indices: seq<Index>, at: seq<nat>, temps: seq<Index>, l: nat, list: seq<Index>)
    requires Replacing(indices, at, temps) && l < |at| && Replaced(indices, at, temps, l, list)
    ensures Replaced(indices, at, temps, l + 1, list[at[l] := temps[l].(name := indices[at[l]].name)])
  {
    var now := list[at[l] := temps[l].(name := indices[at[l]].name)];
    assert at[..l + 1] == at[..l] + [at[l]];
    forall m | 0 <= m < l + 1 ensures now[at[m]] == temps[m].(name := indices[at[m]].name) {
      if m < l { assert at[m] < at[l]; }
    }
  }

  lemma ReplaceOldStep(indices: seq<Index>, temps: seq<Index>, l: nat)
    requires l < |temps|
    ensures ReplaceOld(indices, temps[..l + 1]) == ReplaceOne(ReplaceOld(indices, temps[..l]), temps[l])
  {
    assert temps[..l + 1][..l] == temps[..l];
  }

  /** replaceOldIndexes puts each temporary index where its original was and leaves the others alone. */
  lemma {:induction false} ReplaceOldAt(indices: seq<Index>, at: seq<nat>, temps: seq<Index>, l: nat)
    requires DistinctIndices(indices) && Replacing(indices, at, temps) && l <= |at|
    ensures Replaced(indices, at, temps, l, ReplaceOld(indices, temps[..l]))
    decreases l
  {
    if l > 0 {
      var list := ReplaceOld(indices, temps[..l - 1]);
      assert Replaced(indices, at, temps, l - 1, list) by { ReplaceOldAt(indices, at, temps, l - 1); }
      ReplaceStep(indices, at, temps, l - 1, list);
      ReplaceOldStep(indices, temps, l - 1);
    }
  }

  /** Putting an index on the changing column and then on its final form is putting it there at once. */
  lemma RetargetTwice(ics: seq<IndexColumn>, name: string, c: Column, c1: Column)
    requires c.tp == c1.tp && forall y :: 0 <= y < |ics| ==> ics[y].name.L != c.name.L
    ensures RetargetAll(Retarget(ics, name, c), c.name.L, c1) == Retarget(ics, name, c1)
  {
  }

  /** The column in its final form. */
  ghost function FinalColumn(j: ModifyJob, t0: Table): Column
    requires ModifyFits(j, t0)
  {
    ChangingOf(j, t0, Public).(name := j.def.name, changing := false, offset := OldOf(j, t0))
  }

  /** The indexes of a completed job: those on the old column have a new ID and are on the new column; the rest is as before. */
  ghost predicate FinalIndices(j: ModifyJob, t0: Table, final: seq<Index>)
    requires ModifyFits(j, t0)
  {
    var at, k := AtOf(j, t0), OldOf(j, t0);
    && |final| == |t0.indices|
    && (forall m :: 0 <= m < |at| ==>
          var index := t0.indices[at[m]];
          final[at[m]] == Index(t0.maxIndexID + 1 + m, index.name, Retarget(index.columns, t0.columns[k].name.L, FinalColumn(j, t0)),
                                Public, index.primary))
    && (forall x :: 0 <= x < |final| && x !in at ==> final[x] == t0.indices[x])
  }

  ghost function WithFinalColumn(j: ModifyJob, t0: Table): seq<Column>
    requires ModifyFits(j, t0)
  {
    t0.columns[OldOf(j, t0) := FinalColumn(j, t0)]
  }

  lemma RetargetByKeys(ics: seq<IndexColumn>, name: string, a: Column, b: Column)
    requires a.name == b.name && a.offset == b.offset && a.tp == b.tp
    ensures Retarget(ics, name, a) == Retarget(ics, name, b) && RetargetAll(ics, name, a) == RetargetAll(ics, name, b)
  {
  }

  lemma FinishedTemp(j: ModifyJob, t0: Table, m: nat, c1: Column)
    requires ModifyStart(j, t0) && ModifyFits(j, t0) && m < |AtOf(j, t0)|
    requires c1 == FinalColumn(j, t0).(state := WriteReorganization)
    ensures var temp, index := FinishAll(WithState(TempsOf(j, t0), WriteReorganization), ChangingOf(j, t0, StateNone).name.L, c1)[m],
                t0.indices[AtOf(j, t0)[m]];
            && temp.(name := index.name) == Index(t0.maxIndexID + 1 + m, index.name,
                 Retarget(index.columns, t0.columns[OldOf(j, t0)].name.L, FinalColumn(j, t0)), Public, index.primary)
            && OriginOf(temp) == index.name
  {
    var k, c, at := OldOf(j, t0), ChangingOf(j, t0, StateNone), AtOf(j, t0);
    var name, index := t0.columns[k].name.L, t0.indices[at[m]];
    TempsAt(t0.indices, at, t0.maxIndexID, name, c, m);
    forall y | 0 <= y < |index.columns| ensures index.columns[y].name.L != c.name.L {
      assert IndexLinked(t0.columns, index);
      assert PointsAt(t0.columns, index.columns[y]);
      ChangingNameFresh(j, t0, index.columns[y].offset);
    }
    RetargetTwice(index.columns, name, c, c1);
    RetargetByKeys(index.columns, name, c1, FinalColumn(j, t0));
  }

  lemma ReplacedIndices(j: ModifyJob, t0: Table, c1: Column)
    requires ModifyStart(j, t0) && ModifyFits(j, t0)
    requires c1 == FinalColumn(j, t0).(state := WriteReorganization)
    ensures FinalIndices(j, t0, ReplaceOld(t0.indices,
              FinishAll(WithState(TempsOf(j, t0), WriteReorganization), ChangingOf(j, t0, StateNone).name.L, c1)))
  {
    var at := AtOf(j, t0);
    var temps := FinishAll(WithState(TempsOf(j, t0), WriteReorganization), ChangingOf(j, t0, StateNone).name.L, c1);
    RelatedAtFacts(t0.indices, t0.columns[OldOf(j, t0)].name.L);
    forall m | 0 <= m < |at| ensures OriginOf(temps[m]) == t0.indices[at[m]].name {
      FinishedTemp(j, t0, m, c1);
    }
    ReplaceOldAt(t0.indices, at, temps, |at|);
    assert temps[..|at|] == temps && at[..|at|] == at;
    forall m | 0 <= m < |at|
      ensures var index := t0.indices[at[m]];
              temps[m].(name := index.name) == Index(t0.maxIndexID + 1 + m, index.name,
                Retarget(index.columns, t0.columns[OldOf(j, t0)].name.L, FinalColumn(j, t0)), Public, index.primary)
    {
      FinishedTemp(j, t0, m, c1);
    }
  }

  /** The table of a completed job. */
  ghost predicate ModifyDone(j: ModifyJob, t0: Table, t: Table)
    requires ModifyFits(j, t0)
  {
    var k := OldOf(j, t0);
    var dest := Locate(k, j.pos, if j.pos.After? then Find(t0.columns, j.pos.name) else 0);
    && (j.pos.After? ==> Find(t0.columns, j.pos.name) < |t0.columns| && Find(t0.columns, j.pos.name) != k)
    && dest < |t0.columns|
    && exists final ::
         && FinalIndices(j, t0, final)
         && t == MoveColumn(Table(WithFinalColumn(j, t0), final, t0.maxColumnID + 1, t0.maxIndexID + |AtOf(j, t0)|), k, dest)
  }

  /** The result is t2 with its column k made public and moved to its place. */
  ghost predicate MovedInto(r: Adjusted, t2: Table, k: nat, pos: Position)
    requires k < |t2.columns|
  {
    var p := PlaceOf(t2, k, pos);
    r.Ready? ==> p.At? && r.t == MoveColumn(SetState(t2, k, Public), k, p.offset)
  }

  ghost predicate IDsApart(a: seq<Index>, b: seq<Index>) {
    forall x, y :: 0 <= x < |a| && 0 <= y < |b| ==> a[x].id != b[y].id
  }

  lemma {:induction false} WithoutIDsSplit(a: seq<Index>, b: seq<Index>, gone: seq<Index>)
    requires IDsApart(a, gone) && forall y :: 0 <= y < |b| ==> HasID(gone, b[y].id)
    ensures WithoutIDs(a + b, gone) == a
    decreases |a| + |b|
  {
    var all := a + b;
    if b != [] {
      assert all[..|all| - 1] == a + b[..|b| - 1];
      WithoutIDsSplit(a, b[..|b| - 1], gone);
    } else if a != [] {
      assert all[..|all| - 1] == a[..|a| - 1] + [];
      WithoutIDsSplit(a[..|a| - 1], [], gone);
      assert a == a[..|a| - 1] + [a[|a| - 1]];
    }
  }

  lemma FinishedGone(a: seq<Index>, b: seq<Index>, internal: string, c: Column)
    requires IDsApart(a, b)
    ensures WithoutIDs(a + b, FinishAll(b, internal, c)) == a
  {
    var done := FinishAll(b, internal, c);
    forall y | 0 <= y < |b| ensures HasID(done, b[y].id) {
      assert done[y].id == b[y].id;
    }
    WithoutIDsSplit(a, b, done);
  }

  /** Substituting in a table whose last column is the changing one. */
  lemma SubstituteLast(t: Table, t2: Table, base: seq<Column>, c: Column, a: seq<Index>, b: seq<Index>, k: nat, def: ColumnDef)
    requires k < |base| && Separate(base, c, a, b) && IDsApart(a, b)
    requires t.columns == base + [c] && t.indices == a + b
    requires var c1 := c.(name := def.name, changing := false, offset := k);
             t2 == t.(columns := base[k := c1], indices := ReplaceOld(a, FinishAll(b, c.name.L, c1)))
    ensures Substituted(t, k, |base|, def) == t2
  {
    var c1 := c.(name := def.name, changing := false, offset := k);
    SubstitutedAtEnd(t, k, def);
    FinishedSplit(t.columns, a, b, c.id, c.name.L, c1);
    FinishedGone(a, b, c.name.L, c1);
    assert t.columns[k := c1][..|base|] == base[k := c1];
  }

  /** When the changing column is last, it need not be moved there. */
  lemma SubstitutedAtEnd(t: Table, k: nat, def: ColumnDef)
    requires k + 1 < |t.columns|
    ensures var n := |t.columns| - 1;
            var c := t.columns[n];
            var c1 := c.(name := def.name, changing := false, offset := k);
            var done := Finished(t.columns, t.indices, c.id, c.name.L, c1);
            Substituted(t, k, n, def) ==
            t.(columns := t.columns[k := c1][..n], indices := ReplaceOld(WithoutIDs(t.indices, done), done))
  {
    MoveNowhere(t, |t.columns| - 1);
  }

  ghost function NotYetPublic(j: ModifyJob, t0: Table): Column
    requires ModifyFits(j, t0)
  {
    FinalColumn(j, t0).(state := WriteReorganization)
  }

  /** The table between replacing the old objects and moving the new column. */
  ghost function Halfway(j: ModifyJob, t0: Table, final: seq<Index>): Table
    requires ModifyFits(j, t0)
  {
    Table(t0.columns[OldOf(j, t0) := NotYetPublic(j, t0)], final, t0.maxColumnID + 1, t0.maxIndexID + |AtOf(j, t0)|)
  }

  ghost function FinishedIndices(j: ModifyJob, t0: Table): seq<Index>
    requires ModifyFits(j, t0)
  {
    ReplaceOld(t0.indices, FinishAll(WithState(TempsOf(j, t0), WriteReorganization), ChangingOf(j, t0, StateNone).name.L, NotYetPublic(j, t0)))
  }

  lemma MiddleSubstituted(j: ModifyJob, t0: Table, base: seq<Column>, temps: seq<Index>)
    requires ModifyFits(j, t0) && base == PreventNull(t0.columns, OldOf(j, t0), j.def)
    requires temps == WithState(TempsOf(j, t0), WriteReorganization)
    requires Separate(base, ChangingOf(j, t0, WriteReorganization), t0.indices, temps) && IDsApart(t0.indices, temps)
    ensures Substituted(Middle(j, t0, WriteReorganization), OldOf(j, t0), |t0.columns|, j.def) == Halfway(j, t0, FinishedIndices(j, t0))
  {
    var k, c := OldOf(j, t0), ChangingOf(j, t0, WriteReorganization);
    var t, t2 := Middle(j, t0, WriteReorganization), Halfway(j, t0, FinishedIndices(j, t0));
    assert base[k := NotYetPublic(j, t0)] == t0.columns[k := NotYetPublic(j, t0)];
    SubstituteLast(t, t2, base, c, t0.indices, temps, k, j.def);
  }

  lemma AdjustBySubstituted(t: Table, k: nat, def: ColumnDef, pos: Position)
    requires k + 1 < |t.columns|
    ensures MovedInto(Adjust(t, k, |t.columns| - 1, def, pos), Substituted(t, k, |t.columns| - 1, def), k, pos)
  {
  }

  lemma TempsApart(j: ModifyJob, t0: Table, temps: seq<Index>)
    requires ModifyStart(j, t0) && ModifyFits(j, t0) && temps == WithState(TempsOf(j, t0), WriteReorganization)
    ensures IDsApart(t0.indices, temps)
  {
    forall x, m | 0 <= x < |t0.indices| && 0 <= m < |temps| ensures t0.indices[x].id != temps[m].id {
      TempsAt(t0.indices, AtOf(j, t0), t0.maxIndexID, t0.columns[OldOf(j, t0)].name.L, ChangingOf(j, t0, StateNone), m);
    }
  }

  lemma AdjustIsMoved(j: ModifyJob, t0: Table)
    requires ModifyStart(j, t0) && ModifyFits(j, t0)
    ensures MovedInto(Adjust(Middle(j, t0, WriteReorganization), OldOf(j, t0), |t0.columns|, j.def, j.pos),
                      Halfway(j, t0, FinishedIndices(j, t0)), OldOf(j, t0), j.pos)
  {
    var base, temps := PreventNull(t0.columns, OldOf(j, t0), j.def), WithState(TempsOf(j, t0), WriteReorganization);
    TempsSeparate(j, t0, base, ChangingOf(j, t0, WriteReorganization), temps);
    TempsApart(j, t0, temps);
    MiddleSubstituted(j, t0, base, temps);
    AdjustBySubstituted(Middle(j, t0, WriteReorganization), OldOf(j, t0), j.def, j.pos);
  }

  lemma AdjustMiddle(j: ModifyJob, t0: Table)
    requires ModifyStart(j, t0) && ModifyFits(j, t0)
    ensures var r := Adjust(Middle(j, t0, WriteReorganization), OldOf(j, t0), |t0.columns|, j.def, j.pos);
            r.Ready? ==> ModifyDone(j, t0, r.t)
  {
    AdjustIsMoved(j, t0);
    ReplacedIndices(j, t0, NotYetPublic(j, t0));
    ReadyIsDone(j, t0, FinishedIndices(j, t0));
  }

  lemma ReadyIsDone(j: ModifyJob, t0: Table, final: seq<Index>)
    requires ModifyStart(j, t0) && ModifyFits(j, t0) && FinalIndices(j, t0, final)
    ensures var k, t2 := OldOf(j, t0), Halfway(j, t0, final);
            var p := PlaceOf(t2, k, j.pos);
            p.At? ==> ModifyDone(j, t0, MoveColumn(SetState(t2, k, Public), k, p.offset))
  {
    HalfwayPublic(j, t0, final);
    PlaceUnchanged(t0, Halfway(j, t0, final), OldOf(j, t0), j.pos);
  }

  lemma HalfwayPublic(j: ModifyJob, t0: Table, final: seq<Index>)
    requires ModifyFits(j, t0)
    ensures SetState(Halfway(j, t0, final), OldOf(j, t0), Public)
            == Table(WithFinalColumn(j, t0), final, t0.maxColumnID + 1, t0.maxIndexID + |AtOf(j, t0)|)
  {
    assert SetState(Halfway(j, t0, final), OldOf(j, t0), Public).columns == WithFinalColumn(j, t0);
  }

  /** The place is looked up in the table that already has the new column, which is not public yet: the old offsets count. */
  lemma PlaceUnchanged(t0: Table, t2: Table, k: nat, pos: Position)
    requires Start(t0) && k < |t0.columns| == |t2.columns| && t2.columns[k].state != Public
    requires forall i :: 0 <= i < |t0.columns| && i != k ==> t2.columns[i] == t0.columns[i]
    ensures var p := PlaceOf(t2, k, pos);
            p.At? ==> && p.offset == Locate(k, pos, if pos.After? then Find(t0.columns, pos.name) else 0)
                      && (pos.After? ==> Find(t0.columns, pos.name) < |t0.columns| && Find(t0.columns, pos.name) != k)
  {
    if pos.After? {
      var i := Find(t2.columns, pos.name);
      if i < |t2.columns| && t2.columns[i].state == Public {
        FindIs(t0.columns, pos.name, i);
      }
    }
  }

  // ----- The completed table keeps the invariant -----

  lemma FinalColumnsFine(j: ModifyJob, t0: Table)
    requires ModifyStart(j, t0) && ModifyFits(j, t0)
    ensures var cols := WithFinalColumn(j, t0);
            && Numbered(cols) && DistinctColumns(cols)
            && (forall i :: 0 <= i < |cols| ==> cols[i].state == Public && cols[i].id <= t0.maxColumnID + 1)
  {
    var k := OldOf(j, t0);
    if j.def.name.L == j.oldName { assert t0.columns[k].name.L == j.def.name.L; }
  }

  /** An index on the old column, put on the new one. */
  lemma FinalIndexLinked(t0: Table, k: nat, index: Index, now: Index, c: Column)
    requires Start(t0) && k < |t0.columns| && IndexLinked(t0.columns, index) && Mentions(index, t0.columns[k].name.L)
    requires c.offset == k && now.columns == Retarget(index.columns, t0.columns[k].name.L, c)
    ensures IndexLinked(t0.columns[k := c], now)
  {
    var ics, name := index.columns, t0.columns[k].name.L;
    var p := FindIndexColumn(ics, name);
    assert p < |ics| by {
      var y :| 0 <= y < |ics| && ics[y].name.L == name;
    }
    assert PointsAt(t0.columns, ics[p]);
    assert ics[p].offset == k;
    forall y | 0 <= y < |ics| ensures PointsAt(t0.columns[k := c], now.columns[y]) {
      assert PointsAt(t0.columns, ics[y]);
      if y < p { assert ics[y].offset != ics[p].offset; }
      if p < y { assert ics[p].offset != ics[y].offset; }
    }
    forall y, z | 0 <= y < z < |ics| ensures now.columns[y].offset != now.columns[z].offset {
      assert ics[y].offset != ics[z].offset;
    }
  }

  /** An index that is not on the old column does not notice. */
  lemma OtherIndexLinked(t0: Table, k: nat, index: Index, c: Column)
    requires Start(t0) && k < |t0.columns| && IndexLinked(t0.columns, index) && !Mentions(index, t0.columns[k].name.L)
    ensures IndexLinked(t0.columns[k := c], index)
  {
    SameLookup(t0.columns, index, k);
    forall y | 0 <= y < |index.columns| ensures PointsAt(t0.columns[k := c], index.columns[y]) {
      assert PointsAt(t0.columns, index.columns[y]);
      assert index.columns[y].offset != k;
    }
  }

  lemma FinalIndexAt(j: ModifyJob, t0: Table, final: seq<Index>, x: nat)
    requires ModifyStart(j, t0) && ModifyFits(j, t0) && FinalIndices(j, t0, final) && x < |final|
    ensures IndexLinked(WithFinalColumn(j, t0), final[x])
    ensures final[x].name == t0.indices[x].name
    ensures if x in AtOf(j, t0)
            then exists m :: 0 <= m < |AtOf(j, t0)| && AtOf(j, t0)[m] == x && final[x].id == t0.maxIndexID + 1 + m
            else final[x].id == t0.indices[x].id
  {
    var at, k := AtOf(j, t0), OldOf(j, t0);
    RelatedAtFacts(t0.indices, t0.columns[k].name.L);
    assert IndexLinked(t0.columns, t0.indices[x]);
    if x in at {
      var m :| 0 <= m < |at| && at[m] == x;
      FinalIndexLinked(t0, k, t0.indices[x], final[x], FinalColumn(j, t0));
      assert final[at[m]].id == t0.maxIndexID + 1 + m;
    } else {
      OtherIndexLinked(t0, k, t0.indices[x], FinalColumn(j, t0));
    }
  }

  lemma FinalIDs(j: ModifyJob, t0: Table, final: seq<Index>, x: nat, y: nat)
    requires ModifyStart(j, t0) && ModifyFits(j, t0) && FinalIndices(j, t0, final) && x < y < |final|
    ensures final[x].id != final[y].id && final[x].name.L != final[y].name.L
  {
    FinalIndexAt(j, t0, final, x);
    FinalIndexAt(j, t0, final, y);
    assert t0.indices[x].id <= t0.maxIndexID && t0.indices[y].id <= t0.maxIndexID;
  }

  lemma FinalIndicesFine(j: ModifyJob, t0: Table, final: seq<Index>)
    requires ModifyStart(j, t0) && ModifyFits(j, t0) && FinalIndices(j, t0, final)
    ensures AllLinked(WithFinalColumn(j, t0), final) && DistinctIndices(final)
    ensures forall x :: 0 <= x < |final| ==> final[x].id <= t0.maxIndexID + |AtOf(j, t0)|
  {
    forall x | 0 <= x < |final|
      ensures IndexLinked(WithFinalColumn(j, t0), final[x]) && final[x].id <= t0.maxIndexID + |AtOf(j, t0)|
    {
      FinalIndexAt(j, t0, final, x);
      assert t0.indices[x].id <= t0.maxIndexID;
    }
    forall x, y | 0 <= x < y < |final| ensures final[x].name.L != final[y].name.L && final[x].id != final[y].id {
      FinalIDs(j, t0, final, x, y);
    }
  }

  lemma DoneWellFormed(j: ModifyJob, t0: Table, t: Table)
    requires ModifyStart(j, t0) && ModifyFits(j, t0) && ModifyDone(j, t0, t)
    ensures WellFormed(t)
  {
    var k := OldOf(j, t0);
    var dest := Locate(k, j.pos, if j.pos.After? then Find(t0.columns, j.pos.name) else 0);
    var final :|
      && FinalIndices(j, t0, final)
      && t == MoveColumn(Table(WithFinalColumn(j, t0), final, t0.maxColumnID + 1, t0.maxIndexID + |AtOf(j, t0)|), k, dest);
    FinalColumnsFine(j, t0);
    FinalIndicesFine(j, t0, final);
    MoveWellFormed(Table(WithFinalColumn(j, t0), final, t0.maxColumnID + 1, t0.maxIndexID + |AtOf(j, t0)|), k, dest);
  }

  // ----- Whole runs -----

  ghost predicate IsMiddle(j: ModifyJob, t0: Table, t: Table) {
    ModifyFits(j, t0) && exists state :: state in {DeleteOnly, WriteOnly, WriteReorganization} && t == Middle(j, t0, state)
  }

  /** The new name is the internal name the job itself will use. */
  ghost predicate Clash(j: ModifyJob, t0: Table) {
    ModifyFits(j, t0) && j.def.name.L != j.oldName && j.def.name.L == ChangingOf(j, t0, StateNone).name.L
  }

  /** What a modify-column job can have stored. */
  ghost predicate ModifyShape(j: ModifyJob, t0: Table, s: ModifyView) {
    match s.job
    case Running => InProgress(j, t0, s)
    case Rollingback => InProgress(j, t0, s)
    case RollbackDone => Restored(t0, s.t)
    case Done => ModifyFits(j, t0) && ModifyDone(j, t0, s.t)
    case Cancelled => s.t == t0 || (Clash(j, t0) && IsMiddle(j, t0, s.t))
  }

  ghost predicate InProgress(j: ModifyJob, t0: Table, s: ModifyView) {
    || (s.t == t0 && s.changing == NoChanging)
    || (IsMiddle(j, t0, s.t) && s.changing == Appended(t0.maxColumnID + 1))
  }

  /** The columns and indexes are the original ones; only the ID counters may have grown. */
  predicate Restored(t0: Table, t: Table) {
    t.columns == t0.columns && t.indices == t0.indices && t.maxColumnID >= t0.maxColumnID && t.maxIndexID >= t0.maxIndexID
  }

  /** What a round finds in a middle table. */
  lemma MiddleFinds(j: ModifyJob, t0: Table, state: SchemaState)
    requires ModifyStart(j, t0) && ModifyFits(j, t0)
    ensures var cols, n := Middle(j, t0, state).columns, |t0.columns|;
            && |cols| == n + 1 && cols[n].state == state
            && Find(cols, j.oldName) == OldOf(j, t0) && cols[OldOf(j, t0)].state == Public
            && FindID(cols, t0.maxColumnID + 1) == n
            && (j.def.name.L != j.oldName ==> (Find(cols, j.def.name.L) < n + 1 <==> Clash(j, t0)))
  {
    var cols, n := Middle(j, t0, state).columns, |t0.columns|;
    MiddleColumns(j, t0, state);
    FindIs(cols, j.oldName, OldOf(j, t0));
    assert cols[n].name == ChangingOf(j, t0, StateNone).name;
  }

  lemma PreventedOnce(j: ModifyJob, t0: Table, state: SchemaState)
    requires ModifyFits(j, t0)
    ensures var t, k := Middle(j, t0, state), OldOf(j, t0);
            k < |t.columns| && PreventNull(t.columns, k, j.def) == t.columns
  {
  }

  /** The branch the first round takes. */
  lemma FirstBranch(j: ModifyJob, t0: Table)
    requires ModifyFits(j, t0) && t0.columns[OldOf(j, t0)].state == Public
    ensures AtIn(t0.indices, RelatedAt(t0.indices, t0.columns[OldOf(j, t0)].name.L))
    ensures ModifyRound(j, ModifyView(t0, Running, NoChanging)) ==
            ModifyView(SetChangingState(SetUp(t0, OldOf(j, t0), j.def), t0.maxColumnID + 1, DeleteOnly),
                       Running, Appended(t0.maxColumnID + 1))
  {
    RelatedAtFacts(t0.indices, t0.columns[OldOf(j, t0)].name.L);
  }

  lemma FirstModifyRound(j: ModifyJob, t0: Table)
    requires ModifyStart(j, t0) && ModifyFits(j, t0)
    ensures ModifyRound(j, ModifyView(t0, Running, NoChanging))
            == ModifyView(Middle(j, t0, DeleteOnly), Running, Appended(t0.maxColumnID + 1))
  {
    FirstBranch(j, t0);
    FirstRound(j, t0);
  }

  lemma RoundWithoutFit(j: ModifyJob, t0: Table, s: ModifyView)
    requires ModifyStart(j, t0) && !ModifyFits(j, t0) && s == ModifyView(t0, Running, NoChanging)
    ensures ModifyRound(j, s) == s.(job := Cancelled)
  {
  }

  lemma RollbackFromStart(j: ModifyJob, t0: Table, s: ModifyView)
    requires ModifyStart(j, t0) && s == ModifyView(t0, Rollingback, NoChanging)
    ensures ModifyRound(j, s).t == t0 && ModifyRound(j, s).job in {Cancelled, RollbackDone}
  {
    var k := OldOf(j, t0);
    if k < |t0.columns| && j.nullToNotNull { assert ClearFlags(t0.columns, k) == t0.columns; }
  }

  lemma RoundFromStart(j: ModifyJob, t0: Table, s: ModifyView)
    requires ModifyStart(j, t0) && s.t == t0 && s.changing == NoChanging && s.job in {Running, Rollingback}
    ensures ModifyShape(j, t0, ModifyRound(j, s))
  {
    if s.job == Rollingback {
      RollbackFromStart(j, t0, s);
    } else if ModifyFits(j, t0) {
      FirstModifyRound(j, t0);
    } else {
      RoundWithoutFit(j, t0, s);
    }
  }

  lemma RoundFromMiddle(j: ModifyJob, t0: Table, state: SchemaState, s: ModifyView)
    requires ModifyStart(j, t0) && ModifyFits(j, t0) && state in {DeleteOnly, WriteOnly, WriteReorganization}
    requires s.t == Middle(j, t0, state) && s.changing == Appended(t0.maxColumnID + 1) && s.job == Running
    ensures ModifyShape(j, t0, ModifyRound(j, s))
  {
    RoundOnMiddle(j, t0, state, s);
    if !Clash(j, t0) {
      match state
      case DeleteOnly => NextRound(j, t0, DeleteOnly, WriteOnly);
      case WriteOnly => NextRound(j, t0, WriteOnly, WriteReorganization);
      case WriteReorganization => AdjustMiddle(j, t0);
    }
  }

  /** The branch a round takes once the changing column is there: k is the old column's offset, i the changing one's. */
  lemma LaterBranch(j: ModifyJob, s: ModifyView, k: nat, i: nat)
    requires s.job == Running && s.changing.Appended? && j.allowed && k < |s.t.columns| && i < |s.t.columns| && i != k
    requires Find(s.t.columns, j.oldName) == k && s.t.columns[k].state == Public && FindID(s.t.columns, s.changing.id) == i
    requires s.t.columns[i].state in {DeleteOnly, WriteOnly, WriteReorganization}
    ensures ModifyRound(j, s) ==
            if j.def.name.L != j.oldName && Find(s.t.columns, j.def.name.L) < |s.t.columns| then s.(job := Cancelled) else
            if s.t.columns[i].state == DeleteOnly then
              s.(t := SetChangingState(s.t.(columns := PreventNull(s.t.columns, k, j.def)), s.changing.id, WriteOnly)) else
            if s.t.columns[i].state == WriteOnly then s.(t := SetChangingState(s.t, s.changing.id, WriteReorganization)) else
            match Adjust(s.t, k, i, j.def, j.pos)
            case Failed => s.(job := Rollingback)
            case Ready(t1) => ModifyView(t1, Done, s.changing)
  {
  }

  lemma RoundOnMiddle(j: ModifyJob, t0: Table, state: SchemaState, s: ModifyView)
    requires ModifyStart(j, t0) && ModifyFits(j, t0) && state in {DeleteOnly, WriteOnly, WriteReorganization}
    requires s.t == Middle(j, t0, state) && s.changing == Appended(t0.maxColumnID + 1) && s.job == Running
    ensures ModifyRound(j, s) ==
            if Clash(j, t0) then s.(job := Cancelled) else
            if state == DeleteOnly then s.(t := SetChangingState(s.t, t0.maxColumnID + 1, WriteOnly)) else
            if state == WriteOnly then s.(t := SetChangingState(s.t, t0.maxColumnID + 1, WriteReorganization)) else
            match Adjust(s.t, OldOf(j, t0), |t0.columns|, j.def, j.pos)
            case Failed => s.(job := Rollingback)
            case Ready(t1) => ModifyView(t1, Done, s.changing)
  {
    MiddleFinds(j, t0, state);
    PreventedOnce(j, t0, state);
    LaterBranch(j, s, OldOf(j, t0), |t0.columns|);
  }

  lemma RollbackFromMiddle(j: ModifyJob, t0: Table, state: SchemaState, s: ModifyView)
    requires ModifyStart(j, t0) && ModifyFits(j, t0)
    requires s.t == Middle(j, t0, state) && s.changing == Appended(t0.maxColumnID + 1) && s.job == Rollingback
    ensures ModifyRound(j, s).job == RollbackDone && Restored(t0, ModifyRound(j, s).t)
  {
    MiddleFinds(j, t0, state);
    RollbackMiddle(j, t0, state);
  }

  lemma StepShape(j: ModifyJob, t0: Table, s: ModifyView, step: ModifyStep)
    requires ModifyStart(j, t0) && ModifyShape(j, t0, s)
    ensures ModifyShape(j, t0, ModifyApply(j, s, step))
  {
    if step == Advance && s.job in {Running, Rollingback} {
      if s.t == t0 && s.changing == NoChanging {
        RoundFromStart(j, t0, s);
      } else {
        var state :| state in {DeleteOnly, WriteOnly, WriteReorganization} && s.t == Middle(j, t0, state);
        if s.job == Running { RoundFromMiddle(j, t0, state, s); } else { RollbackFromMiddle(j, t0, state, s); }
      }
    }
  }

  lemma {:induction false} RunShape(j: ModifyJob, t0: Table, steps: seq<ModifyStep>)
    requires ModifyStart(j, t0)
    ensures ModifyShape(j, t0, ModifyRun(j, t0, steps))
    decreases |steps|
  {
    if steps != [] {
      RunShape(j, t0, steps[..|steps| - 1]);
      StepShape(j, t0, ModifyRun(j, t0, steps[..|steps| - 1]), steps[|steps| - 1]);
    }
  }

  /**
    Every run of a data-changing modify-column job keeps the invariant. A rolled-back job has restored the columns and
    indexes exactly; a completed one leaves the new column in place of the old one, at the place asked for, and every
    index on the old column replaced by one of the same name on the new column.
   */
  lemma ModifyRunsFine(j: ModifyJob, t0: Table, steps: seq<ModifyStep>)
    requires ModifyStart(j, t0)
    ensures var s := ModifyRun(j, t0, steps);
            && WellFormed(s.t)
            && (s.job == RollbackDone ==> Restored(t0, s.t))
            && (s.job == Cancelled && !Clash(j, t0) ==> s.t == t0)
            && (s.job == Done ==> ModifyFits(j, t0) && ModifyDone(j, t0, s.t))
  {
    RunShape(j, t0, steps);
    var s := ModifyRun(j, t0, steps);
    if s.job == Done {
      DoneWellFormed(j, t0, s.t);
    } else if IsMiddle(j, t0, s.t) {
      var state :| state in {DeleteOnly, WriteOnly, WriteReorganization} && s.t == Middle(j, t0, state);
      MiddleWellFormed(j, t0, state);
    }
  }

  /** The place asked for exists and is not the modified column itself. */
  predicate PlaceFits(j: ModifyJob, t0: Table) {
    j.pos.After? ==> Find(t0.columns, j.pos.name) < |t0.columns| && Find(t0.columns, j.pos.name) != Find(t0.columns, j.oldName)
  }

  /** The completion fails exactly when the place asked for does not exist or is the column itself. */
  lemma AdjustSucceeds(j: ModifyJob, t0: Table)
    requires ModifyStart(j, t0) && ModifyFits(j, t0)
    ensures Adjust(Middle(j, t0, WriteReorganization), OldOf(j, t0), |t0.columns|, j.def, j.pos).Ready? <==> PlaceFits(j, t0)
  {
    var t, k, n := Middle(j, t0, WriteReorganization), OldOf(j, t0), |t0.columns|;
    var t2 := Halfway(j, t0, FinishedIndices(j, t0));
    AdjustIsMoved(j, t0);
    ReadyByPlace(t, t2, k, j.def, j.pos);
    MiddleSubstitutedAgain(j, t0);
    PlaceStillThere(j, t0, t2);
    assert t.columns[k].name == t0.columns[k].name;
    if j.pos.After? && Find(t0.columns, j.pos.name) == k { assert t0.columns[k].name.L == j.pos.name; }
  }

  lemma MiddleSubstitutedAgain(j: ModifyJob, t0: Table)
    requires ModifyStart(j, t0) && ModifyFits(j, t0)
    ensures Substituted(Middle(j, t0, WriteReorganization), OldOf(j, t0), |t0.columns|, j.def) == Halfway(j, t0, FinishedIndices(j, t0))
  {
    var base, temps := PreventNull(t0.columns, OldOf(j, t0), j.def), WithState(TempsOf(j, t0), WriteReorganization);
    TempsSeparate(j, t0, base, ChangingOf(j, t0, WriteReorganization), temps);
    TempsApart(j, t0, temps);
    MiddleSubstituted(j, t0, base, temps);
  }

  lemma ReadyByPlace(t: Table, t2: Table, k: nat, def: ColumnDef, pos: Position)
    requires k + 1 < |t.columns| && k < |t2.columns|
    ensures Substituted(t, k, |t.columns| - 1, def) == t2 ==>
              (Adjust(t, k, |t.columns| - 1, def, pos).Ready? <==>
               !(pos.After? && t.columns[k].name.L == pos.name) && PlaceOf(t2, k, pos).At?)
  {
  }

  /** A column other than the modified one is found as before; the modified one is not public yet. */
  lemma PlaceStillThere(j: ModifyJob, t0: Table, t2: Table)
    requires ModifyStart(j, t0) && ModifyFits(j, t0) && t2 == Halfway(j, t0, FinishedIndices(j, t0))
    ensures j.pos.After? && t0.columns[OldOf(j, t0)].name.L != j.pos.name ==>
              (PlaceOf(t2, OldOf(j, t0), j.pos).At? <==> Find(t0.columns, j.pos.name) < |t0.columns|)
    ensures !j.pos.After? ==> PlaceOf(t2, OldOf(j, t0), j.pos).At?
  {
    var k := OldOf(j, t0);
    if j.pos.After? && t0.columns[k].name.L != j.pos.name {
      var i := Find(t0.columns, j.pos.name);
      if i < |t0.columns| {
        FinalColumnsFine(j, t0);
        FindHalfway(j, t0, t2, i);
      } else {
        PlaceUnchanged(t0, t2, k, j.pos);
      }
    }
  }

  lemma FindHalfway(j: ModifyJob, t0: Table, t2: Table, i: nat)
    requires ModifyStart(j, t0) && ModifyFits(j, t0) && t2.columns == t0.columns[OldOf(j, t0) := NotYetPublic(j, t0)]
    requires i < |t0.columns| && i != OldOf(j, t0)
    ensures Find(t2.columns, t0.columns[i].name.L) == i && t2.columns[i].state == Public
  {
    FinalColumnsFine(j, t0);
    var cols := WithFinalColumn(j, t0);
    assert forall x :: 0 <= x < |cols| ==> t2.columns[x].name == cols[x].name && t2.columns[x].id == cols[x].id;
    assert DistinctColumns(t2.columns);
    FindIs(t2.columns, t0.columns[i].name.L, i);
  }

  /** Four rounds without errors complete the job if and only if its names and its place fit. */
  lemma ModifyCompletes(j: ModifyJob, t0: Table)
    requires ModifyStart(j, t0)
    ensures ModifyRun(j, t0, [Advance] + [Advance] + [Advance] + [Advance]).job == Done
            <==> ModifyFits(j, t0) && !Clash(j, t0) && PlaceFits(j, t0)
  {
    var s0 := ModifyView(t0, Running, NoChanging);
    FourAdvances(j, t0);
    if !ModifyFits(j, t0) {
      RoundWithoutFit(j, t0, s0);
    } else {
      FirstModifyRound(j, t0);
      var s1 := ModifyRound(j, s0);
      RoundOnMiddle(j, t0, DeleteOnly, s1);
      if !Clash(j, t0) {
        NextRound(j, t0, DeleteOnly, WriteOnly);
        var s2 := ModifyRound(j, s1);
        RoundOnMiddle(j, t0, WriteOnly, s2);
        NextRound(j, t0, WriteOnly, WriteReorganization);
        RoundOnMiddle(j, t0, WriteReorganization, ModifyRound(j, s2));
        AdjustSucceeds(j, t0);
      }
    }
  }

  lemma FourAdvances(j: ModifyJob, t0: Table)
    ensures ModifyRun(j, t0, [Advance] + [Advance] + [Advance] + [Advance])
            == ModifyRound(j, ModifyRound(j, ModifyRound(j, ModifyRound(j, ModifyView(t0, Running, NoChanging)))))
  {
    AdvanceOnce(j, t0, []);
    assert [] + [Advance] == [Advance];
    AdvanceOnce(j, t0, [Advance]);
    AdvanceOnce(j, t0, [Advance] + [Advance]);
    AdvanceOnce(j, t0, [Advance] + [Advance] + [Advance]);
  }

  lemma AdvanceOnce(j: ModifyJob, t0: Table, steps: seq<ModifyStep>)
    ensures ModifyRun(j, t0, steps + [Advance]) == ModifyRound(j, ModifyRun(j, t0, steps))
  {
    assert (steps + [Advance])[..|steps|] == steps;
  }

  /** Every run that ends without success has restored the table. */
  ghost predicate AlwaysRestores(j: ModifyJob, t0: Table) {
    forall steps: seq<ModifyStep> :: ModifyRun(j, t0, steps).job in {RollbackDone, Cancelled} ==> Restored(t0, ModifyRun(j, t0, steps).t)
  }

  /**
    Renaming the column to the very name the job picks for its changing column defeats the clean-up: the second round
    takes the changing column for an existing one and cancels the job. This is the only way to lose the original table.
   */
  lemma RestoresUnlessClash(j: ModifyJob, t0: Table)
    requires ModifyStart(j, t0)
    ensures AlwaysRestores(j, t0) <==> !Clash(j, t0)
  {
    if Clash(j, t0) {
      ClashLoses(j, t0);
    } else {
      forall steps: seq<ModifyStep> | ModifyRun(j, t0, steps).job in {RollbackDone, Cancelled}
        ensures Restored(t0, ModifyRun(j, t0, steps).t)
      {
        ModifyRunsFine(j, t0, steps);
      }
    }
  }

  lemma ClashLoses(j: ModifyJob, t0: Table)
    requires ModifyStart(j, t0) && Clash(j, t0)
    ensures ModifyRun(j, t0, [Advance, Advance]).job == Cancelled
    ensures !Restored(t0, ModifyRun(j, t0, [Advance, Advance]).t)
  {
    var s := ModifyView(Middle(j, t0, DeleteOnly), Running, Appended(t0.maxColumnID + 1));
    FirstModifyRound(j, t0);
    RoundOnMiddle(j, t0, DeleteOnly, s);
    assert [Advance][..0] == [] && [Advance, Advance][..1] == [Advance];
    assert ModifyRun(j, t0, [Advance]) == s;
    assert |s.t.columns| == |t0.columns| + 1;
  }

  /** The smallest case: a table of one column, renamed to the name the job would use inside. */
  lemma RenameToTheInternalName()
    ensures var t0 := Table([Column(1, NewCIStr("a"), 0, Public, false, false, false, Type(false, 0))], [], 1, 0);
            var j := ModifyJob("a", ColumnDef(NewCIStr("_Col$_a_0"), false, Type(false, 1)), NoPosition, false, true);
            ModifyStart(j, t0) && !AlwaysRestores(j, t0)
  {
    var t0 := Table([Column(1, NewCIStr("a"), 0, Public, false, false, false, Type(false, 0))], [], 1, 0);
    var j := ModifyJob("a", ColumnDef(NewCIStr("_Col$_a_0"), false, Type(false, 1)), NoPosition, false, true);
    assert Names.Lower(LowerChar, "a")[0] == 'a';
    assert NewCIStr("a").L == "a" && |NewCIStr("_Col$_a_0").L| == 9;
    assert Find(t0.columns, "a") == 0;
    assert t0.columns[1..] == [];
    assert Find(t0.columns, j.def.name.L) == 1;
    var names, base := ColumnNames(t0.columns), Names.Lower(LowerChar, Names.COLUMN_PREFIX + "a");
    assert names == ["a"];
    assert |Names.Numbered(base, 0)| == 9;
    assert Names.Numbered(base, 0) !in Names.Names(names);
    assert Names.FirstFreeFrom(base, Names.Names(names), 0) == 0;
    assert Names.Decimal(0) == "0";
    assert Names.ChangingName(LowerChar, Names.COLUMN_PREFIX, "a", names) == "_Col$_a_0";
    RestoresUnlessClash(j, t0);
  }
}
