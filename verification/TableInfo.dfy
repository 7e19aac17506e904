/** Table metadata and the edits column jobs make to it (parser/model/model.go, ddl/column.go). */
module TableInfo {
  import opened ColumnOrder
  import opened ChangingNames
  import Search

  datatype SchemaState = StateNone | DeleteOnly | WriteOnly | WriteReorganization | DeleteReorganization | Public

  /** What the edits look at of a column's type. */
  datatype Type = Type(prefixable: bool, flen: int)

  /** `changing` stands for a non-nil ChangeStateInfo. */
  datatype Column = Column(id: int, name: CIStr, offset: int, state: SchemaState, changing: bool, notNull: bool, preventNull: bool, tp: Type)

  datatype IndexColumn = IndexColumn(name: CIStr, offset: int, length: int)

  datatype Index = Index(id: int, name: CIStr, columns: seq<IndexColumn>, state: SchemaState, primary: bool)

  datatype Table = Table(columns: seq<Column>, indices: seq<Index>, maxColumnID: int, maxIndexID: int)

  const UNSPECIFIED_LENGTH := -1

  function LowerChar(c: char): char {
    if 'A' <= c <= 'Z' then c + 32 as char else c
  }

  /** A name as written, and the lower-case form under which it is compared. */
  datatype CIStr = CIStr(O: string, L: string)

  function NewCIStr(s: string): CIStr {
    CIStr(s, Lower(LowerChar, s))
  }

  lemma LowerCharOk()
    ensures LowerCasing(LowerChar) && forall c: char :: !('A' <= LowerChar(c) <= 'Z')
  {
  }

  // ----- The invariant -----

  predicate DistinctColumns(cols: seq<Column>) {
    forall i, j :: 0 <= i < j < |cols| ==> cols[i].name.L != cols[j].name.L && cols[i].id != cols[j].id
  }

  predicate DistinctIndices(indices: seq<Index>) {
    forall i, j :: 0 <= i < j < |indices| ==> indices[i].name.L != indices[j].name.L && indices[i].id != indices[j].id
  }

  /** An index column's offset points at the column of its name. */
  predicate PointsAt(cols: seq<Column>, ic: IndexColumn) {
    0 <= ic.offset < |cols| && cols[ic.offset].name.L == ic.name.L
  }

  predicate IndexLinked(cols: seq<Column>, index: Index) {
    && (forall y :: 0 <= y < |index.columns| ==> PointsAt(cols, index.columns[y]))
    && (forall y, z :: 0 <= y < z < |index.columns| ==> index.columns[y].offset != index.columns[z].offset)
  }

  predicate Numbered(cols: seq<Column>) {
    forall i :: 0 <= i < |cols| ==> cols[i].offset == i
  }

  predicate PublicPrefix(cols: seq<Column>) {
    forall i, j :: 0 <= i < j < |cols| && cols[j].state == Public ==> cols[i].state == Public
  }

  predicate IDsBelow(t: Table) {
    && (forall i :: 0 <= i < |t.columns| ==> t.columns[i].id <= t.maxColumnID)
    && (forall x :: 0 <= x < |t.indices| ==> t.indices[x].id <= t.maxIndexID)
  }

  /** Index names carry their own lower-case form. */
  predicate ProperNames(indices: seq<Index>) {
    forall x :: 0 <= x < |indices| ==> indices[x].name == NewCIStr(indices[x].name.O)
  }

  predicate AllLinked(cols: seq<Column>, indices: seq<Index>) {
    forall x :: 0 <= x < |indices| ==> IndexLinked(cols, indices[x])
  }

  /** What every step of a column job keeps. */
  predicate WellFormed(t: Table) {
    && Numbered(t.columns) && DistinctColumns(t.columns) && PublicPrefix(t.columns)
    && AllLinked(t.columns, t.indices) && DistinctIndices(t.indices) && IDsBelow(t)
  }

  // ----- Lookups -----

  /** FindColumnInfo: the position of the first column of that lower-case name; |cols| when there is none. */
  function Find(cols: seq<Column>, name: string): (i: nat)
    ensures i <= |cols| && (forall j :: 0 <= j < i ==> cols[j].name.L != name)
    ensures i < |cols| ==> cols[i].name.L == name
  {
    Search.First(cols, (c: Column) => c.name.L == name)
  }

  lemma FindIs(cols: seq<Column>, name: string, i: nat)
    requires DistinctColumns(cols) && i < |cols| && cols[i].name.L == name
    ensures Find(cols, name) == i
  {
  }

  /** HasColumnInIndexColumns */
  predicate HasColumn(cols: seq<Column>, index: Index, id: int) {
    exists y :: 0 <= y < |index.columns| && 0 <= index.columns[y].offset < |cols| && cols[index.columns[y].offset].id == id
  }

  predicate Refers(index: Index, offset: int) {
    exists y :: 0 <= y < |index.columns| && index.columns[y].offset == offset
  }

  predicate Mentions(index: Index, name: string) {
    exists y :: 0 <= y < |index.columns| && index.columns[y].name.L == name
  }

  /** In a linked index, looking for a column by offset, by name or by ID is the same. */
  lemma SameLookup(cols: seq<Column>, index: Index, i: nat)
    requires DistinctColumns(cols) && IndexLinked(cols, index) && i < |cols|
    ensures Refers(index, i) <==> Mentions(index, cols[i].name.L)
    ensures Refers(index, i) <==> HasColumn(cols, index, cols[i].id)
  {
    if Refers(index, i) {
      var y :| 0 <= y < |index.columns| && index.columns[y].offset == i;
      assert PointsAt(cols, index.columns[y]);
    }
    if Mentions(index, cols[i].name.L) {
      var y :| 0 <= y < |index.columns| && index.columns[y].name.L == cols[i].name.L;
      assert PointsAt(cols, index.columns[y]);
    }
  }

  // ----- MoveColumnInfo -----

  predicate Affected(from: nat, to: nat, i: int) {
    from != to && (from <= i <= to || to <= i <= from)
  }

  function MoveColumns(cols: seq<Column>, from: nat, to: nat): (r: seq<Column>)
    requires from < |cols| && to < |cols|
    ensures |r| == |cols|
  {
    var moved := Move(cols, from, to);
    seq(|cols|, (i: nat) requires i < |cols| => if Affected(from, to, i) then moved[i].(offset := i) else moved[i])
  }

  function MoveOffset(from: nat, to: nat, offset: int): int {
    if offset < 0 then offset else NewIndex(from, to, offset)
  }

  function MoveIndex(index: Index, from: nat, to: nat): Index {
    index.(columns := seq(|index.columns|, (y: nat) requires y < |index.columns| =>
                            index.columns[y].(offset := MoveOffset(from, to, index.columns[y].offset))))
  }

  function MoveIndices(indices: seq<Index>, from: nat, to: nat): seq<Index> {
    seq(|indices|, (x: nat) requires x < |indices| => MoveIndex(indices[x], from, to))
  }

  function MoveColumn(t: Table, from: nat, to: nat): Table
    requires from < |t.columns| && to < |t.columns|
  {
    t.(columns := MoveColumns(t.columns, from, to), indices := MoveIndices(t.indices, from, to))
  }

  /** The columns between the two offsets shift by one and are numbered anew. */
  lemma MoveColumnsAt(cols: seq<Column>, from: nat, to: nat, i: nat)
    requires from < |cols| && to < |cols| && i < |cols| && Numbered(cols)
    ensures NewIndex(from, to, i) < |cols|
    ensures MoveColumns(cols, from, to)[NewIndex(from, to, i)] == cols[i].(offset := NewIndex(from, to, i))
    ensures OldIndex(from, to, i) < |cols|
    ensures MoveColumns(cols, from, to)[i] == cols[OldIndex(from, to, i)].(offset := i)
  {
    MoveAt(cols, from, to, i);
    IndexRoundTrip(from, to, i);
  }

  /** A move keeps the columns numbered and distinct and every index column on its column. */
  lemma MoveKeepsLinks(cols: seq<Column>, indices: seq<Index>, from: nat, to: nat)
    requires from < |cols| && to < |cols| && Numbered(cols) && DistinctColumns(cols) && AllLinked(cols, indices)
    ensures Numbered(MoveColumns(cols, from, to)) && DistinctColumns(MoveColumns(cols, from, to))
    ensures AllLinked(MoveColumns(cols, from, to), MoveIndices(indices, from, to))
  {
    var moved := MoveColumns(cols, from, to);
    forall i, j | 0 <= i < j < |cols|
      ensures moved[i].name.L != moved[j].name.L && moved[i].id != moved[j].id
    {
      MoveColumnsAt(cols, from, to, i);
      MoveColumnsAt(cols, from, to, j);
      IndexRoundTrip(from, to, i);
      IndexRoundTrip(from, to, j);
    }
    forall i | 0 <= i < |cols| ensures moved[i].offset == i {
      MoveColumnsAt(cols, from, to, i);
    }
    forall x | 0 <= x < |indices| ensures IndexLinked(moved, MoveIndices(indices, from, to)[x]) {
      MoveKeepsIndex(cols, indices[x], from, to);
    }
  }

  lemma MoveKeepsIndex(cols: seq<Column>, index: Index, from: nat, to: nat)
    requires from < |cols| && to < |cols| && Numbered(cols) && IndexLinked(cols, index)
    ensures IndexLinked(MoveColumns(cols, from, to), MoveIndex(index, from, to))
  {
    var moved, now := MoveColumns(cols, from, to), MoveIndex(index, from, to);
    forall y | 0 <= y < |index.columns| ensures PointsAt(moved, now.columns[y]) {
      assert PointsAt(cols, index.columns[y]);
      MoveColumnsAt(cols, from, to, index.columns[y].offset);
    }
    forall y, z | 0 <= y < z < |index.columns| ensures now.columns[y].offset != now.columns[z].offset {
      assert PointsAt(cols, index.columns[y]) && PointsAt(cols, index.columns[z]);
      IndexRoundTrip(from, to, index.columns[y].offset);
      IndexRoundTrip(from, to, index.columns[z].offset);
    }
  }

  /** Moving a column onto itself changes nothing. */
  lemma MoveNowhere(t: Table, i: nat)
    requires i < |t.columns|
    ensures MoveColumn(t, i, i) == t
  {
    var cols := t.columns;
    assert Move(cols, i, i) == cols by {
      forall k | 0 <= k < |cols| ensures Move(cols, i, i)[k] == cols[k] { MovedFrom(cols, i, i, k); }
    }
    assert MoveColumns(cols, i, i) == cols;
    forall x | 0 <= x < |t.indices| ensures MoveIndices(t.indices, i, i)[x] == t.indices[x] {
      assert MoveIndex(t.indices[x], i, i).columns == t.indices[x].columns;
    }
    assert MoveIndices(t.indices, i, i) == t.indices;
  }

  // ----- Small edits -----

  /** Columns that differ only in state, flags and type link the same indexes. */
  predicate SameKeys(a: seq<Column>, b: seq<Column>) {
    |a| == |b| && forall i :: 0 <= i < |a| ==> a[i].id == b[i].id && a[i].name == b[i].name && a[i].offset == b[i].offset
  }

  lemma SameKeysKeep(a: seq<Column>, b: seq<Column>, indices: seq<Index>)
    requires SameKeys(a, b) && Numbered(a) && DistinctColumns(a) && AllLinked(a, indices)
    ensures Numbered(b) && DistinctColumns(b) && AllLinked(b, indices)
  {
    forall x | 0 <= x < |indices| ensures IndexLinked(b, indices[x]) {
      assert IndexLinked(a, indices[x]);
      forall y | 0 <= y < |indices[x].columns| ensures PointsAt(b, indices[x].columns[y]) {
        assert PointsAt(a, indices[x].columns[y]);
      }
    }
  }

  lemma AppendKeeps(cols: seq<Column>, indices: seq<Index>, c: Column)
    requires Numbered(cols) && DistinctColumns(cols) && AllLinked(cols, indices) && c.offset == |cols|
    requires forall i :: 0 <= i < |cols| ==> cols[i].name.L != c.name.L && cols[i].id != c.id
    ensures Numbered(cols + [c]) && DistinctColumns(cols + [c]) && AllLinked(cols + [c], indices)
  {
    forall x | 0 <= x < |indices| ensures IndexLinked(cols + [c], indices[x]) {
      assert IndexLinked(cols, indices[x]);
      forall y | 0 <= y < |indices[x].columns| ensures PointsAt(cols + [c], indices[x].columns[y]) {
        assert PointsAt(cols, indices[x].columns[y]);
      }
    }
  }

  /** The last column can go when no index refers to it. */
  lemma TruncateKeeps(cols: seq<Column>, indices: seq<Index>)
    requires cols != [] && Numbered(cols) && DistinctColumns(cols) && AllLinked(cols, indices)
    requires forall x :: 0 <= x < |indices| ==> !Refers(indices[x], |cols| - 1)
    ensures var rest := cols[..|cols| - 1]; Numbered(rest) && DistinctColumns(rest) && AllLinked(rest, indices)
  {
    var rest := cols[..|cols| - 1];
    forall x | 0 <= x < |indices| ensures IndexLinked(rest, indices[x]) {
      assert IndexLinked(cols, indices[x]) && !Refers(indices[x], |cols| - 1);
      forall y | 0 <= y < |indices[x].columns| ensures PointsAt(rest, indices[x].columns[y]) {
        assert PointsAt(cols, indices[x].columns[y]);
      }
    }
  }

  /** Columns from..i-1 hold their right neighbours. */
  ghost predicate ShiftedDown(before: seq<Column>, now: seq<Column>, from: nat, i: nat) {
    && |now| == |before| && i < |now|
    && (forall j :: 0 <= j < |now| && !(from <= j < i) ==> now[j] == before[j])
    && (forall j :: 0 <= j < |now| && from <= j < i ==> now[j] == before[j + 1].(offset := j))
  }

  /** Columns i+1..from hold their left neighbours. */
  ghost predicate ShiftedUp(before: seq<Column>, now: seq<Column>, from: nat, i: nat) {
    && |now| == |before| && from < |now|
    && (forall j :: 0 <= j < |now| && !(i < j <= from) ==> now[j] == before[j])
    && (forall j :: 0 <= j < |now| && i < j <= from ==> now[j] == before[j - 1].(offset := j))
  }

  lemma ShiftedIsMoved(before: seq<Column>, now: seq<Column>, from: nat, to: nat)
    requires from < |before| && to < |before| && from != to
    requires if from < to then ShiftedDown(before, now, from, to) else ShiftedUp(before, now, from, to)
    ensures now[to := before[from].(offset := to)] == MoveColumns(before, from, to)
  {
    var r := now[to := before[from].(offset := to)];
    forall i | 0 <= i < |r| ensures r[i] == MoveColumns(before, from, to)[i] {
      MovedFrom(before, from, to, i);
    }
  }

  /** The table being edited. */
  class Info {
    var columns: seq<Column>
    var indices: seq<Index>
    var maxColumnID: int
    var maxIndexID: int

    constructor (t: Table)
      ensures View() == t
    {
      columns, indices, maxColumnID, maxIndexID := t.columns, t.indices, t.maxColumnID, t.maxIndexID;
    }

    function View(): Table
      reads this
    {
      Table(columns, indices, maxColumnID, maxIndexID)
    }

    /** The last loops of MoveColumnInfo: rewrite the index columns whose offset changed. */
    method RewriteOffsets(updated: map<int, int>, ghost from: nat, ghost to: nat)
      requires forall o: int :: (if o in updated then updated[o] else o) == MoveOffset(from, to, o)
      modifies this`indices
      ensures indices == MoveIndices(old(indices), from, to)
    {
      for x := 0 to |indices|
        invariant |indices| == |old(indices)|
        invariant forall k :: 0 <= k < |indices| ==>
                    indices[k] == if k < x then MoveIndex(old(indices)[k], from, to) else old(indices)[k]
      {
        var cols := indices[x].columns;
        for y := 0 to |cols|
          invariant |cols| == |indices[x].columns|
          invariant forall k :: 0 <= k < |cols| ==>
                      cols[k] == if k < y then indices[x].columns[k].(offset := MoveOffset(from, to, indices[x].columns[k].offset))
                                 else indices[x].columns[k]
        {
          if cols[y].offset in updated { cols := cols[y := cols[y].(offset := updated[cols[y].offset])]; }
        }
        assert cols == MoveIndex(indices[x], from, to).columns;
        indices := indices[x := indices[x].(columns := cols)];
      }
    }

    /** The loop of MoveColumnInfo that shifts columns down. */
    method ShiftDown(from: nat, to: nat) returns (updated: map<int, int>)
      requires from < to < |columns|
      modifies this`columns
      ensures ShiftedDown(old(columns), columns, from, to)
      ensures forall o: int :: (o in updated <==> from < o <= to) && (o in updated ==> updated[o] == o - 1)
    {
      updated := map[];
      ghost var before := columns;
      for i := from to to
        invariant ShiftedDown(before, columns, from, i)
        invariant forall o: int :: (o in updated <==> from < o <= i) && (o in updated ==> updated[o] == o - 1)
      {
        assert columns[i + 1] == before[i + 1];
        columns := columns[i := columns[i + 1].(offset := i)];
        updated := updated[i + 1 := i];
      }
    }

    /** The loop of MoveColumnInfo that shifts columns up. */
    method ShiftUp(from: nat, to: nat) returns (updated: map<int, int>)
      requires to < from < |columns|
      modifies this`columns
      ensures ShiftedUp(old(columns), columns, from, to)
      ensures forall o: int :: (o in updated <==> to <= o < from) && (o in updated ==> updated[o] == o + 1)
    {
      updated := map[];
      ghost var before := columns;
      var i := from;
      while i > to
        invariant to <= i <= from && ShiftedUp(before, columns, from, i)
        invariant forall o: int :: (o in updated <==> i <= o < from) && (o in updated ==> updated[o] == o + 1)
      {
        assert columns[i - 1] == before[i - 1];
        columns := columns[i := columns[i - 1].(offset := i)];
        updated := updated[i - 1 := i];
        i := i - 1;
      }
    }

    /** MoveColumnInfo */
    method MoveColumnInfo(from: nat, to: nat)
      requires from < |columns| && to < |columns|
      modifies this
      ensures View() == MoveColumn(old(View()), from, to)
    {
      if from == to {
        MoveNowhere(View(), from);
        return;
      }
      var src := columns[from];
      var updated;
      if from < to { updated := ShiftDown(from, to); } else { updated := ShiftUp(from, to); }
      ShiftedIsMoved(old(columns), columns, from, to);
      columns := columns[to := src.(offset := to)];
      updated := updated[from := to];
      RewriteOffsets(updated, from, to);
    }
  }
}
