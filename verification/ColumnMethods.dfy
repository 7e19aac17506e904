/** The imperative edits of ddl/column.go, each shown to do what its specification function says. */
module ColumnMethods {
  import opened ColumnOrder
  import opened TableInfo
  import opened ColumnJobs
  import opened ModifyColumn
  import Names = ChangingNames

  // ----- Dropping and adding -----

  method IsDroppable(info: Info, name: string) returns (ok: bool)
    ensures ok <==> Droppable(info.View(), name)
  {
    if |info.columns| == 1 { return false; }
    for x := 0 to |info.indices|
      invariant forall k :: 0 <= k < x && (info.indices[k].primary || |info.indices[k].columns| > 1) ==> !Mentions(info.indices[k], name)
    {
      if info.indices[x].primary || |info.indices[x].columns| > 1 {
        for y := 0 to |info.indices[x].columns|
          invariant forall k :: 0 <= k < y ==> info.indices[x].columns[k].name.L != name
        {
          if info.indices[x].columns[y].name.L == name {
            assert Mentions(info.indices[x], name);
            return false;
          }
        }
      }
    }
    ok := true;
  }

  /** listIndicesWithColumn followed by setIndicesState */
  method MarkIndices(info: Info, name: string, state: SchemaState)
    modifies info`indices
    ensures info.indices == Mark(old(info.indices), name, state)
  {
    ghost var before := info.indices;
    for x := 0 to |info.indices|
      invariant |info.indices| == |before|
      invariant forall k :: 0 <= k < |before| ==> info.indices[k] == if k < x then Mark(before, name, state)[k] else before[k]
    {
      if SingleIndexOf(info.indices[x], name) { info.indices := info.indices[x := info.indices[x].(state := state)]; }
    }
  }

  /** The loop of onDropColumn that leaves out the indexes on the column. */
  method KeepIndices(info: Info, name: string)
    modifies info`indices
    ensures info.indices == Keep(old(info.indices), name)
  {
    var kept := [];
    for x := 0 to |info.indices|
      invariant kept == Keep(info.indices[..x], name) && info.indices == old(info.indices)
    {
      assert info.indices[..x + 1][..x] == info.indices[..x];
      if !SingleIndexOf(info.indices[x], name) { kept := kept + [info.indices[x]]; }
    }
    assert info.indices[..|info.indices|] == info.indices;
    info.indices := kept;
  }

  method SetColumnState(info: Info, k: nat, state: SchemaState)
    requires k < |info.columns|
    modifies info`columns
    ensures info.View() == SetState(old(info.View()), k, state)
  {
    info.columns := info.columns[k := info.columns[k].(state := state)];
  }

  /** onDropColumn */
  method OnDropColumn(info: Info, name: string) returns (outcome: DropOutcome)
    modifies info
    ensures (info.View(), outcome) == DropRound(old(info.View()), name)
  {
    var k := Find(info.columns, name);
    if k == |info.columns| { return Refused; }
    var droppable := IsDroppable(info, name);
    if !droppable { return Refused; }
    match info.columns[k].state {
      case Public =>
        SetColumnState(info, k, WriteOnly);
        MarkIndices(info, name, WriteOnly);
        info.MoveColumnInfo(k, |info.columns| - 1);
        outcome := Continued;
      case WriteOnly =>
        SetColumnState(info, k, DeleteOnly);
        info.MoveColumnInfo(k, |info.columns| - 1);
        KeepIndices(info, name);
        outcome := Continued;
      case DeleteOnly =>
        SetColumnState(info, k, DeleteReorganization);
        info.MoveColumnInfo(k, |info.columns| - 1);
        outcome := Continued;
      case DeleteReorganization =>
        info.MoveColumnInfo(k, |info.columns| - 1);
        info.columns := info.columns[..|info.columns| - 1];
        outcome := Dropped;
      case _ => outcome := Invalid;
    }
  }

  /** InitAndAddColumnToTable, then the state of the first round */
  method InitAndAddColumn(info: Info, def: ColumnDef, state: SchemaState)
    modifies info
    ensures info.View() == Extended(old(info.View()), def, state)
  {
    info.maxColumnID := info.maxColumnID + 1;
    info.columns := info.columns + [Column(info.maxColumnID, def.name, |info.columns|, state, false, def.notNull, false, def.tp)];
  }

  /** onAddColumn */
  method OnAddColumn(info: Info, j: AddJob, job: JobState) returns (now: JobState)
    requires job == Running || job == Rollingback
    modifies info
    ensures JobView(info.View(), now) == AddRound(j, JobView(old(info.View()), job))
  {
    now := job;
    if job == Rollingback {
      var outcome := OnDropColumn(info, j.def.name.L);
      match outcome {
        case Dropped => now := RollbackDone;
        case Continued =>
        case Refused => now := Cancelled;
        case Invalid =>
      }
      return;
    }
    var k, n := Find(info.columns, j.def.name.L), |info.columns|;
    if k < n && info.columns[k].state == Public { return Cancelled; }
    if j.pos.After? && Find(info.columns, j.pos.name) == n { return Cancelled; }
    if k == n {
      if n + 1 > j.limit { return Cancelled; }
      InitAndAddColumn(info, j.def, DeleteOnly);
      return;
    }
    match info.columns[k].state
    case StateNone => SetColumnState(info, k, DeleteOnly);
    case DeleteOnly => SetColumnState(info, k, WriteOnly);
    case WriteOnly => SetColumnState(info, k, WriteReorganization);
    case WriteReorganization =>
      var place := PlaceOf(info.View(), k, j.pos);
      if place.At? {
        SetColumnState(info, k, Public);
        info.MoveColumnInfo(k, place.offset);
        now := Done;
      }
    case _ =>
  }

  // ----- Modifying -----

  /** HasColumnInIndexColumns */
  method HasColumnIn(cols: seq<Column>, index: Index, id: int) returns (has: bool)
    requires forall y :: 0 <= y < |index.columns| ==> 0 <= index.columns[y].offset < |cols|
    ensures has <==> HasColumn(cols, index, id)
  {
    for y := 0 to |index.columns|
      invariant forall k :: 0 <= k < y ==> cols[index.columns[k].offset].id != id
    {
      if cols[index.columns[y].offset].id == id { return true; }
    }
    has := false;
  }

  /** removeChangingColAndIdxs */
  method RemoveChangingColAndIdxs(info: Info, id: int)
    requires AllLinked(info.columns, info.indices)
    modifies info
    ensures info.View() == RemoveChanging(old(info.View()), id)
  {
    var restIdx := [];
    for x := 0 to |info.indices|
      invariant info.View() == old(info.View())
      invariant restIdx == WithoutIndicesOn(info.columns, info.indices[..x], id)
    {
      assert info.indices[..x + 1][..x] == info.indices[..x];
      assert IndexLinked(info.columns, info.indices[x]);
      assert forall y :: 0 <= y < |info.indices[x].columns| ==> PointsAt(info.columns, info.indices[x].columns[y]);
      var has := HasColumnIn(info.columns, info.indices[x], id);
      if !has { restIdx := restIdx + [info.indices[x]]; }
    }
    assert info.indices[..|info.indices|] == info.indices;
    var restCols := [];
    for i := 0 to |info.columns|
      invariant restCols == WithoutColumn(info.columns[..i], id)
    {
      assert info.columns[..i + 1][..i] == info.columns[..i];
      if info.columns[i].id != id { restCols := restCols + [info.columns[i]]; }
    }
    assert info.columns[..|info.columns|] == info.columns;
    info.indices := restIdx;
    info.columns := restCols;
  }

  /** The first loops of replaceOldIndexes. */
  method RemoveByID(indices: seq<Index>, changing: seq<Index>) returns (rest: seq<Index>)
    ensures rest == WithoutIDs(indices, changing)
  {
    rest := [];
    for x := 0 to |indices|
      invariant rest == WithoutIDs(indices[..x], changing)
    {
      assert indices[..x + 1][..x] == indices[..x];
      var y := 0;
      while y < |changing| && changing[y].id != indices[x].id
        invariant 0 <= y <= |changing| && forall k :: 0 <= k < y ==> changing[k].id != indices[x].id
      {
        y := y + 1;
      }
      if y == |changing| { rest := rest + [indices[x]]; }
    }
    assert indices[..|indices|] == indices;
  }

  /** One round of the last loop of replaceOldIndexes. */
  method PutBack(indices: seq<Index>, temp: Index) returns (r: seq<Index>)
    ensures r == ReplaceOne(indices, temp)
  {
    var name := NewCIStr(Names.OriginName(Names.INDEX_PREFIX, temp.name.O));
    var i := 0;
    while i < |indices| && indices[i].name.L != name.L
      invariant 0 <= i <= |indices| && forall k :: 0 <= k < i ==> indices[k].name.L != name.L
    {
      i := i + 1;
    }
    r := if i < |indices| then indices[i := temp.(name := name)] else indices;
  }

  /** replaceOldIndexes */
  method ReplaceOldIndexes(info: Info, changing: seq<Index>)
    modifies info`indices
    ensures info.indices == ReplaceOld(WithoutIDs(old(info.indices), changing), changing)
  {
    var rest := RemoveByID(info.indices, changing);
    var list := rest;
    for y := 0 to |changing|
      invariant list == ReplaceOld(rest, changing[..y])
    {
      assert changing[..y + 1][..y] == changing[..y];
      list := PutBack(list, changing[y]);
    }
    assert changing[..|changing|] == changing;
    info.indices := list;
  }

  /** One round of the set-up loop of onModifyColumn. */
  method MakeTemp(existing: seq<Index>, index: Index, id: int, name: string, c: Column) returns (temp: Index)
    ensures temp == TempOf(existing, index, id, name, c)
  {
    LowerCharOk();
    var tmpName := Names.GenChangingUniqueName(LowerChar, Names.INDEX_PREFIX, index.name.O, IndexNames(existing));
    temp := index.(id := id, name := NewCIStr(tmpName));
    var p := 0;
    while p < |temp.columns| && temp.columns[p].name.L != name
      invariant 0 <= p <= |temp.columns| && forall y :: 0 <= y < p ==> temp.columns[y].name.L != name
    {
      p := p + 1;
    }
    if p < |temp.columns| { temp := temp.(columns := temp.columns[p := SetIndexColumn(temp.columns[p], c)]); }
  }

  lemma TempsStep(indices: seq<Index>, at: seq<nat>, m: nat, maxID: int, name: string, c: Column)
    requires AtIn(indices, at) && m < |at|
    ensures AtIn(indices, at[..m]) && AtIn(indices, at[..m + 1])
    ensures var temps := Temps(indices, at[..m], maxID, name, c);
            Temps(indices, at[..m + 1], maxID, name, c) == temps + [TempOf(indices + temps, indices[at[m]], maxID + 1 + m, name, c)]
  {
    assert at[..m + 1][..m] == at[..m];
  }

  /** The set-up loop of onModifyColumn: a temporary index for every index on the column. */
  method AddTempIndexes(indices: seq<Index>, related: seq<nat>, maxID: int, name: string, c: Column) returns (temps: seq<Index>)
    requires AtIn(indices, related)
    ensures temps == Temps(indices, related, maxID, name, c)
  {
    temps := [];
    for m := 0 to |related|
      invariant AtIn(indices, related[..m]) && temps == Temps(indices, related[..m], maxID, name, c)
    {
      TempsStep(indices, related, m, maxID, name, c);
      var temp := MakeTemp(indices + temps, indices[related[m]], maxID + 1 + m, name, c);
      temps := temps + [temp];
    }
    assert related[..|related|] == related;
  }

  /** The set-up part of onModifyColumn */
  method SetUpChanging(info: Info, k: nat, def: ColumnDef)
    requires k < |info.columns|
    modifies info
    ensures AtIn(old(info.indices), RelatedAt(old(info.indices), old(info.columns[k].name.L)))
    ensures info.View() == SetUp(old(info.View()), k, def)
  {
    var oldName := info.columns[k].name;
    var c := MakeChangingColumn(info, oldName.O, def);
    RelatedAtFacts(info.indices, oldName.L);
    var related := RelatedAt(info.indices, oldName.L);
    var temps := AddTempIndexes(info.indices, related, info.maxIndexID, oldName.L, c);
    info.indices := info.indices + temps;
    info.maxIndexID := info.maxIndexID + |temps|;
    info.maxColumnID := info.maxColumnID + 1;
    info.columns := PreventNull(info.columns, k, def) + [c];
  }

  method MakeChangingColumn(info: Info, oldName: string, def: ColumnDef) returns (c: Column)
    ensures c == ChangingColumn(info.View(), oldName, def, StateNone)
  {
    LowerCharOk();
    var name := Names.GenChangingUniqueName(LowerChar, Names.COLUMN_PREFIX, oldName, ColumnNames(info.columns));
    c := Column(info.maxColumnID + 1, NewCIStr(name), |info.columns|, StateNone, true, def.notNull, false, def.tp);
  }
}
