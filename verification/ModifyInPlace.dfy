/** A modify-column job that leaves the data alone: adjustTableInfoAfterModifyColumn (ddl/column.go). */
module ModifyInPlace {
  import opened ColumnOrder
  import opened TableInfo
  import opened ColumnJobs
  import opened ModifyColumn
  import opened JobResults

  function NewColumn(t: Table, k: nat, def: ColumnDef): Column
    requires k < |t.columns|
  {
    Column(t.columns[k].id, def.name, t.columns[k].offset, t.columns[k].state, false, def.notNull, false, def.tp)
  }

  function RenameIn(index: Index, name: string, c: Column): Index {
    index.(columns := RetargetAll(index.columns, name, c))
  }

  function RenameInAll(indices: seq<Index>, name: string, c: Column): seq<Index> {
    seq(|indices|, (x: nat) requires x < |indices| => RenameIn(indices[x], name, c))
  }

  /** The column is replaced and moved; index columns of the old name then take the new name and offset. */
  function Replace(t: Table, k: nat, def: ColumnDef, pos: Position): Adjusted
    requires k < |t.columns|
  {
    if pos.After? && t.columns[k].name.L == pos.name then Failed else
      match PlaceOf(t, k, pos)
      case Nowhere => Failed
      case At(dest) =>
        var t1 := MoveColumn(t.(columns := t.columns[k := NewColumn(t, k, def)]), k, dest);
        Ready(t1.(indices := RenameInAll(t1.indices, t.columns[k].name.L, t1.columns[dest])))
  }

  predicate NameFits(t: Table, k: nat, def: ColumnDef)
    requires k < |t.columns|
  {
    def.name.L == t.columns[k].name.L || Find(t.columns, def.name.L) == |t.columns|
  }

  /** One index through the move and the renaming. */
  lemma IndexThrough(t: Table, k: nat, def: ColumnDef, dest: nat, index: Index)
    requires Numbered(t.columns) && DistinctColumns(t.columns) && k < |t.columns| && dest < |t.columns|
    requires IndexLinked(t.columns, index)
    ensures var cols := MoveColumns(t.columns[k := NewColumn(t, k, def)], k, dest);
            IndexLinked(cols, RenameIn(MoveIndex(index, k, dest), t.columns[k].name.L, cols[dest]))
  {
    var base := t.columns[k := NewColumn(t, k, def)];
    var cols := MoveColumns(base, k, dest);
    var now := RenameIn(MoveIndex(index, k, dest), t.columns[k].name.L, cols[dest]);
    MoveColumnsAt(base, k, dest, k);
    forall y | 0 <= y < |now.columns|
      ensures PointsAt(cols, now.columns[y]) && now.columns[y].offset == NewIndex(k, dest, index.columns[y].offset)
    {
      assert PointsAt(t.columns, index.columns[y]);
      MoveColumnsAt(base, k, dest, index.columns[y].offset);
    }
    forall y, z | 0 <= y < z < |now.columns| ensures now.columns[y].offset != now.columns[z].offset {
      assert PointsAt(t.columns, index.columns[y]) && PointsAt(t.columns, index.columns[z]);
      IndexRoundTrip(k, dest, index.columns[y].offset);
      IndexRoundTrip(k, dest, index.columns[z].offset);
    }
  }

  lemma ColumnsThrough(t: Table, k: nat, def: ColumnDef, dest: nat)
    requires Start(t) && k < |t.columns| && dest < |t.columns| && NameFits(t, k, def)
    ensures var cols := MoveColumns(t.columns[k := NewColumn(t, k, def)], k, dest);
            && Numbered(cols) && DistinctColumns(cols)
            && forall i :: 0 <= i < |cols| ==> cols[i].state == Public && cols[i].id <= t.maxColumnID
  {
    var base := t.columns[k := NewColumn(t, k, def)];
    assert Numbered(base) && DistinctColumns(base);
    MoveKeepsLinks(base, [], k, dest);
    forall i | 0 <= i < |base| ensures MoveColumns(base, k, dest)[i].state == Public && MoveColumns(base, k, dest)[i].id <= t.maxColumnID {
      MoveColumnsAt(base, k, dest, i);
    }
  }

  /**
    Modifying in place keeps the invariant: the column keeps its ID and goes where the clause says, every index keeps
    its ID and name, and the index columns that were on it still are, under the new name.
   */
  lemma ReplaceKeeps(t: Table, k: nat, def: ColumnDef, pos: Position)
    requires Start(t) && k < |t.columns| && NameFits(t, k, def)
    ensures var r := Replace(t, k, def, pos);
            r.Ready? ==>
              && WellFormed(r.t) && |r.t.indices| == |t.indices|
              && (forall x :: 0 <= x < |t.indices| ==> r.t.indices[x].id == t.indices[x].id && r.t.indices[x].name == t.indices[x].name)
              && var dest := PlaceOf(t, k, pos).offset;
                 r.t.columns == MoveColumns(t.columns[k := NewColumn(t, k, def)], k, dest)
                 && r.t.columns[dest] == NewColumn(t, k, def).(offset := dest)
  {
    var p := PlaceOf(t, k, pos);
    if p.At? {
      var base := t.columns[k := NewColumn(t, k, def)];
      var cols := MoveColumns(base, k, p.offset);
      var indices := RenameInAll(MoveIndices(t.indices, k, p.offset), t.columns[k].name.L, cols[p.offset]);
      ColumnsThrough(t, k, def, p.offset);
      MoveColumnsAt(base, k, p.offset, k);
      forall x | 0 <= x < |indices| ensures IndexLinked(cols, indices[x]) {
        IndexThrough(t, k, def, p.offset, t.indices[x]);
      }
    }
  }

  /** The columns after the move, seen from the other columns. */
  lemma ReplacedColumns(t: Table, k: nat, def: ColumnDef, pos: Position)
    requires Start(t) && k < |t.columns| && NameFits(t, k, def)
    requires pos.After? ==> Find(t.columns, pos.name) < |t.columns| && Find(t.columns, pos.name) != k
    ensures var base, dest := t.columns[k := NewColumn(t, k, def)], PlaceOf(t, k, pos).offset;
            && Inserted(t.columns[..k] + t.columns[k + 1..], MoveColumns(base, k, dest), NewColumn(t, k, def), dest)
            && PlacedAs(MoveColumns(base, k, dest), dest, pos, k)
  {
    var base, dest := t.columns[k := NewColumn(t, k, def)], PlaceOf(t, k, pos).offset;
    assert Numbered(base) && base[..k] + base[k + 1..] == t.columns[..k] + t.columns[k + 1..];
    if pos.After? {
      var at := Find(t.columns, pos.name);
      assert DistinctColumns(base) && base[at] == t.columns[at];
      FindIs(base, pos.name, at);
    }
    MovedIsInserted(base, k, dest);
    MovedAsPlaced(base, k, pos);
  }

  lemma IndexReplaced(index: Index, k: nat, dest: nat, name: string, c: Column)
    ensures ColumnsCarried(index, RenameIn(MoveIndex(index, k, dest), name, c), name, c.name, c.tp)
  {
  }

  /**
    Modifying in place fails exactly when the clause names no other column of the table. Otherwise the column keeps its ID,
    has the new definition, and stands where the clause says among the others; and every index keeps its ID, name and state,
    with the columns that were on it carried to the new name, at their own length where the new type allows it.
   */
  lemma ReplaceMeans(t: Table, k: nat, def: ColumnDef, pos: Position) returns (dest: nat)
    requires Start(t) && k < |t.columns| && NameFits(t, k, def)
    ensures var r, oldName := Replace(t, k, def, pos), t.columns[k].name.L;
            && (r.Ready? <==> pos.After? ==> Find(t.columns, pos.name) < |t.columns| && pos.name != oldName)
            && (r.Ready? ==>
                  && Inserted(t.columns[..k] + t.columns[k + 1..], r.t.columns,
                              Column(t.columns[k].id, def.name, 0, Public, false, def.notNull, false, def.tp), dest)
                  && PlacedAs(r.t.columns, dest, pos, k)
                  && |r.t.indices| == |t.indices|
                  && forall x :: 0 <= x < |t.indices| ==>
                       && r.t.indices[x].id == t.indices[x].id && r.t.indices[x].name == t.indices[x].name
                       && r.t.indices[x].state == t.indices[x].state
                       && ColumnsCarried(t.indices[x], r.t.indices[x], oldName, def.name, def.tp))
  {
    var p := PlaceOf(t, k, pos);
    dest := if p.At? then p.offset else 0;
    if Replace(t, k, def, pos).Ready? {
      ReplacedColumns(t, k, def, pos);
      var cols := MoveColumns(t.columns[k := NewColumn(t, k, def)], k, dest);
      forall x | 0 <= x < |t.indices|
        ensures ColumnsCarried(t.indices[x], RenameIn(MoveIndex(t.indices[x], k, dest), t.columns[k].name.L, cols[dest]),
                               t.columns[k].name.L, def.name, def.tp)
      {
        IndexReplaced(t.indices[x], k, dest, t.columns[k].name.L, cols[dest]);
      }
    }
  }
}
