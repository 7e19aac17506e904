/** A modify-column job that rewrites data: set-up, state changes, replacement of the old objects, rollback (ddl/column.go). */
module ModifyColumn {
  import opened ColumnOrder
  import opened TableInfo
  import opened ColumnJobs
  import Names = ChangingNames
  import Search

  /**
    `nullToNotNull` is the job's modifyColumnTp; `allowed` stands for the checks on generated columns, partitions and
    the primary key, which do not change while the job runs.
   */
  datatype ModifyJob = ModifyJob(oldName: string, def: ColumnDef, pos: Position, nullToNotNull: bool, allowed: bool)

  /** The changing column recorded in the job's arguments once the first round is stored. */
  datatype Changing = NoChanging | Appended(id: int)

  datatype ModifyView = ModifyView(t: Table, job: JobState, changing: Changing)

  /** A round; an error that stores nothing; an error that also starts the rollback; a cancel request. */
  datatype ModifyStep = Advance | Fail | Abort | Cancel

  // ----- Index columns -----

  /** SetIdxColNameOffset */
  function SetIndexColumn(ic: IndexColumn, c: Column): IndexColumn {
    IndexColumn(c.name, c.offset, if !c.tp.prefixable || c.tp.flen < ic.length then UNSPECIFIED_LENGTH else ic.length)
  }

  /** findIdxCol, with the length of the list for "not found" */
  function FindIndexColumn(ics: seq<IndexColumn>, name: string): (p: nat)
    ensures p <= |ics| && (forall y :: 0 <= y < p ==> ics[y].name.L != name)
    ensures p < |ics| ==> ics[p].name.L == name
  {
    Search.First(ics, (ic: IndexColumn) => ic.name.L == name)
  }

  /** The index columns with the one on `name` put on c instead. */
  function Retarget(ics: seq<IndexColumn>, name: string, c: Column): (r: seq<IndexColumn>)
    ensures |r| == |ics|
  {
    var p := FindIndexColumn(ics, name);
    if p < |ics| then ics[p := SetIndexColumn(ics[p], c)] else ics
  }

  /** updateNewIdxColsNameOffset on one index */
  function RetargetAll(ics: seq<IndexColumn>, name: string, c: Column): (r: seq<IndexColumn>)
    ensures |r| == |ics|
  {
    seq(|ics|, (y: nat) requires y < |ics| => if ics[y].name.L == name then SetIndexColumn(ics[y], c) else ics[y])
  }

  // ----- Set-up: the changing column and the temporary indexes -----

  function ColumnNames(cols: seq<Column>): seq<string> {
    seq(|cols|, (i: nat) requires i < |cols| => cols[i].name.L)
  }

  function IndexNames(indices: seq<Index>): seq<string> {
    seq(|indices|, (x: nat) requires x < |indices| => indices[x].name.L)
  }

  function ChangingColumn(t: Table, oldName: string, def: ColumnDef, state: SchemaState): Column {
    Column(t.maxColumnID + 1, NewCIStr(Names.ChangingName(LowerChar, Names.COLUMN_PREFIX, oldName, ColumnNames(t.columns))),
           |t.columns|, state, true, def.notNull, false, def.tp)
  }

  /** FindRelatedIndexesToChange: the positions of the indexes on that column, when no temporary index exists yet. */
  function RelatedAt(indices: seq<Index>, name: string): seq<nat> {
    if indices == [] then [] else
      var n := |indices| - 1;
      RelatedAt(indices[..n], name) + if Mentions(indices[n], name) then [n] else []
  }

  predicate AtIn(indices: seq<Index>, at: seq<nat>) {
    forall m :: 0 <= m < |at| ==> at[m] < |indices|
  }

  /** The temporary indexes, each named against all indexes that exist by then. */
  function Temps(indices: seq<Index>, at: seq<nat>, maxID: int, oldName: string, c: Column): (r: seq<Index>)
    requires AtIn(indices, at)
    ensures |r| == |at|
    decreases |at|
  {
    if at == [] then [] else
      var m := |at| - 1;
      var init := Temps(indices, at[..m], maxID, oldName, c);
      init + [TempOf(indices + init, indices[at[m]], maxID + 1 + m, oldName, c)]
  }

  /** A temporary index: a clone on the changing column, under a new ID and a name not yet used. */
  function TempOf(existing: seq<Index>, index: Index, id: int, oldName: string, c: Column): Index {
    Index(id, NewCIStr(Names.ChangingName(LowerChar, Names.INDEX_PREFIX, index.name.O, IndexNames(existing))),
          Retarget(index.columns, oldName, c), index.state, index.primary)
  }

  /** updateChangingObjState on the changing column and the indexes that have it. */
  function SetChangingState(t: Table, id: int, state: SchemaState): Table {
    t.(columns := seq(|t.columns|, (i: nat) requires i < |t.columns| =>
                    if t.columns[i].id == id then t.columns[i].(state := state) else t.columns[i]),
       indices := seq(|t.indices|, (x: nat) requires x < |t.indices| =>
                    if HasColumn(t.columns, t.indices[x], id) then t.indices[x].(state := state) else t.indices[x]))
  }

  /** modifyColsFromNull2NotNull, when it finds no null */
  function PreventNull(cols: seq<Column>, k: nat, def: ColumnDef): seq<Column>
    requires k < |cols|
  {
    if !cols[k].notNull && def.notNull then cols[k := cols[k].(preventNull := true)] else cols
  }

  function SetUp(t: Table, k: nat, def: ColumnDef): Table
    requires k < |t.columns|
    requires AtIn(t.indices, RelatedAt(t.indices, t.columns[k].name.L))
  {
    var name := t.columns[k].name;
    var c, at := ChangingColumn(t, name.O, def, StateNone), RelatedAt(t.indices, name.L);
    t.(columns := PreventNull(t.columns, k, def) + [c],
       indices := t.indices + Temps(t.indices, at, t.maxIndexID, name.L, c),
       maxColumnID := t.maxColumnID + 1, maxIndexID := t.maxIndexID + |at|)
  }

  lemma {:induction false} RelatedAtFacts(indices: seq<Index>, name: string)
    ensures AtIn(indices, RelatedAt(indices, name))
    ensures forall x :: 0 <= x < |indices| ==> (x in RelatedAt(indices, name) <==> Mentions(indices[x], name))
    ensures forall m, l :: 0 <= m < l < |RelatedAt(indices, name)| ==> RelatedAt(indices, name)[m] < RelatedAt(indices, name)[l]
    decreases |indices|
  {
    if indices != [] {
      var n := |indices| - 1;
      RelatedAtFacts(indices[..n], name);
      var init := RelatedAt(indices[..n], name);
      assert forall x :: 0 <= x < n ==> indices[..n][x] == indices[x];
      assert forall m :: 0 <= m < |init| ==> init[m] < n;
    }
  }

  // ----- Rollback: removeChangingColAndIdxs -----

  function WithoutColumn(cols: seq<Column>, id: int): seq<Column> {
    if cols == [] then [] else
      WithoutColumn(cols[..|cols| - 1], id) + if cols[|cols| - 1].id == id then [] else [cols[|cols| - 1]]
  }

  function WithoutIndicesOn(cols: seq<Column>, indices: seq<Index>, id: int): seq<Index> {
    if indices == [] then [] else
      WithoutIndicesOn(cols, indices[..|indices| - 1], id)
      + if HasColumn(cols, indices[|indices| - 1], id) then [] else [indices[|indices| - 1]]
  }

  function RemoveChanging(t: Table, id: int): Table {
    t.(columns := WithoutColumn(t.columns, id), indices := WithoutIndicesOn(t.columns, t.indices, id))
  }

  function ClearFlags(cols: seq<Column>, k: nat): seq<Column>
    requires k < |cols|
  {
    cols[k := cols[k].(notNull := false, preventNull := false)]
  }

  // ----- Completion: adjustTableInfoAfterModifyColumnWithData -----

  /** The first part of replaceOldIndexes: the indexes without those that have the ID of a given one. */
  function WithoutIDs(indices: seq<Index>, gone: seq<Index>): seq<Index> {
    if indices == [] then [] else
      var last := indices[|indices| - 1];
      WithoutIDs(indices[..|indices| - 1], gone)
      + if HasID(gone, last.id) then [] else [last]
  }

  predicate HasID(indices: seq<Index>, id: int) {
    exists x :: 0 <= x < |indices| && indices[x].id == id
  }

  /** One round of the last loop of replaceOldIndexes. */
  function ReplaceOne(indices: seq<Index>, temp: Index): (r: seq<Index>)
    ensures |r| == |indices|
  {
    var x := FindIndex(indices, OriginOf(temp).L);
    if x < |indices| then indices[x := temp.(name := OriginOf(temp))] else indices
  }

  function OriginOf(temp: Index): CIStr {
    NewCIStr(Names.OriginName(Names.INDEX_PREFIX, temp.name.O))
  }

  function FindIndex(indices: seq<Index>, name: string): (x: nat)
    ensures x <= |indices| && (forall y :: 0 <= y < x ==> indices[y].name.L != name)
    ensures x < |indices| ==> indices[x].name.L == name
  {
    Search.First(indices, (x: Index) => x.name.L == name)
  }

  function ReplaceOld(indices: seq<Index>, temps: seq<Index>): (r: seq<Index>)
    ensures |r| == |indices|
    decreases |temps|
  {
    if temps == [] then indices else ReplaceOne(ReplaceOld(indices, temps[..|temps| - 1]), temps[|temps| - 1])
  }

  /** The indexes that have the changing column, put on the column under its final name and made public. */
  function Finished(cols: seq<Column>, indices: seq<Index>, id: int, internal: string, c: Column): seq<Index> {
    if indices == [] then [] else
      var last := indices[|indices| - 1];
      Finished(cols, indices[..|indices| - 1], id, internal, c)
      + if HasColumn(cols, last, id) then [last.(columns := RetargetAll(last.columns, internal, c), state := Public)] else []
  }

  datatype Adjusted = Failed | Ready(t: Table)

  /** replaceOldColumn, updateNewIdxColsNameOffset and replaceOldIndexes; i is the changing column's offset. */
  function Substituted(t: Table, k: nat, i: nat, def: ColumnDef): (r: Table)
    requires k < |t.columns| && i < |t.columns| && k != i
    ensures |r.columns| == |t.columns| - 1
  {
    var n, c := |t.columns| - 1, t.columns[i];
    var t1, k1 := MoveColumn(t, i, n), NewIndex(i, n, k);
    var c1 := c.(name := def.name, changing := false, offset := k1);
    var done := Finished(t.columns, t1.indices, c.id, c.name.L, c1);
    t1.(columns := t1.columns[k1 := c1][..n], indices := ReplaceOld(WithoutIDs(t1.indices, done), done))
  }

  /** The whole of adjustTableInfoAfterModifyColumnWithData and the final state change. */
  function Adjust(t: Table, k: nat, i: nat, def: ColumnDef, pos: Position): Adjusted
    requires k < |t.columns| && i < |t.columns| && k != i
  {
    if pos.After? && t.columns[k].name.L == pos.name then Failed else
      var t2, k1 := Substituted(t, k, i, def), NewIndex(i, |t.columns| - 1, k);
      match PlaceOf(t2, k1, pos)
      case Nowhere => Failed
      case At(dest) => Ready(MoveColumn(SetState(t2, k1, Public), k1, dest))
  }

  // ----- The job -----

  function FindID(cols: seq<Column>, id: int): (i: nat)
    ensures i <= |cols| && (forall j :: 0 <= j < i ==> cols[j].id != id) && (i < |cols| ==> cols[i].id == id)
  {
    Search.First(cols, (c: Column) => c.id == id)
  }

  /** One round of onModifyColumn for a change that rewrites data. */
  function ModifyRound(j: ModifyJob, s: ModifyView): ModifyView {
    if s.job != Running && s.job != Rollingback then s else
      var t := s.t;
      var k, n := Find(t.columns, j.oldName), |t.columns|;
      if k == n || t.columns[k].state != Public then s.(job := Cancelled)
      else if s.job == Rollingback then
        var t1 := if j.nullToNotNull then t.(columns := ClearFlags(t.columns, k)) else t;
        ModifyView(if s.changing.Appended? then RemoveChanging(t1, s.changing.id) else t1, RollbackDone, s.changing)
      else if j.def.name.L != j.oldName && Find(t.columns, j.def.name.L) < n then s.(job := Cancelled)
      else if !j.allowed then s.(job := Cancelled)
      else if s.changing.NoChanging? then
        RelatedAtFacts(t.indices, t.columns[k].name.L);
        var id := t.maxColumnID + 1;
        ModifyView(SetChangingState(SetUp(t, k, j.def), id, DeleteOnly), Running, Appended(id))
      else
        var i := FindID(t.columns, s.changing.id);
        if i == n || i == k then s.(job := Cancelled) else
          match t.columns[i].state
          case DeleteOnly =>
            s.(t := SetChangingState(t.(columns := PreventNull(t.columns, k, j.def)), s.changing.id, WriteOnly))
          case WriteOnly => s.(t := SetChangingState(t, s.changing.id, WriteReorganization))
          case WriteReorganization =>
            (match Adjust(t, k, i, j.def, j.pos)
             case Failed => s.(job := Rollingback)
             case Ready(t1) => ModifyView(t1, Done, s.changing))
          case _ => s
  }

  /** rollingbackModifyColumn */
  function ModifyCancel(s: ModifyView): ModifyView {
    if s.job != Running then s
    else if s.changing.NoChanging? then s.(job := Cancelled)
    else s.(job := Rollingback)
  }

  function ModifyApply(j: ModifyJob, s: ModifyView, step: ModifyStep): ModifyView {
    match step
    case Advance => ModifyRound(j, s)
    case Fail => s
    case Abort => if s.job == Running then s.(job := Rollingback) else s
    case Cancel => ModifyCancel(s)
  }

  function ModifyRun(j: ModifyJob, t0: Table, steps: seq<ModifyStep>): ModifyView {
    if steps == [] then ModifyView(t0, Running, NoChanging)
    else ModifyApply(j, ModifyRun(j, t0, steps[..|steps| - 1]), steps[|steps| - 1])
  }
}
