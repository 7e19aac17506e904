/** The columns an index build reads through the coprocessor (ddl/index_cop.go). */
module UsedColumns {
  import Search

  const EXTRA_HANDLE_ID := -1

  /** A column: for a virtual generated column, `deps` names the columns its expression mentions. */
  datatype Column = Column(id: int, name: string, deps: set<string>)

  datatype Handle = PKIsHandle(pk: nat) | CommonHandle(primary: seq<nat>) | RowID

  predicate DistinctIDs(cols: seq<Column>) {
    forall i, j :: 0 <= i < j < |cols| ==> cols[i].id != cols[j].id
  }

  predicate OffsetsIn(cols: seq<Column>, offsets: seq<nat>) {
    forall k :: 0 <= k < |offsets| ==> offsets[k] < |cols|
  }

  /** The position of the first column of that name; |cols| when there is none. */
  function FindColumn(cols: seq<Column>, name: string): (i: nat)
    ensures i <= |cols| && (forall j :: 0 <= j < i ==> cols[j].name != name)
    ensures i < |cols| ==> cols[i].name == name
  {
    Search.First(cols, (c: Column) => c.name == name)
  }

  // ----- The dependency graph -----

  predicate DependsOn(cols: seq<Column>, i: nat, j: nat) {
    i < |cols| && j < |cols| && exists name :: name in cols[i].deps && FindColumn(cols, name) == j
  }

  /** A chain of dependencies from one of the roots. */
  predicate Chain(cols: seq<Column>, roots: seq<nat>, p: seq<nat>) {
    && p != [] && p[0] in roots
    && forall k :: 0 <= k < |p| - 1 ==> DependsOn(cols, p[k], p[k + 1])
  }

  ghost predicate Reachable(cols: seq<Column>, roots: seq<nat>, i: nat) {
    exists p :: Chain(cols, roots, p) && p[|p| - 1] == i
  }

  predicate DepsExist(cols: seq<Column>, i: nat) {
    i < |cols| && forall name :: name in cols[i].deps ==> FindColumn(cols, name) < |cols|
  }

  predicate Marked(cols: seq<Column>, used: set<int>, i: nat) {
    i < |cols| && cols[i].id in used
  }

  /** Everything the column depends on exists and is marked or waiting. */
  predicate Expanded(cols: seq<Column>, used: set<int>, queue: seq<nat>, i: nat) {
    && DepsExist(cols, i)
    && forall name :: name in cols[i].deps ==>
         Marked(cols, used, FindColumn(cols, name)) || FindColumn(cols, name) in queue
  }

  /** A start set that contains what its columns depend on; the empty set is one. */
  predicate Closed(cols: seq<Column>, used: set<int>) {
    forall i :: 0 <= i < |cols| && cols[i].id in used ==> Expanded(cols, used, [], i)
  }

  /** The position in the queue of the first column not marked yet. */
  function FirstUnmarked(cols: seq<Column>, used: set<int>, queue: seq<nat>): nat {
    if queue == [] || !Marked(cols, used, queue[0]) then 0 else 1 + FirstUnmarked(cols, used, queue[1..])
  }

  function Unmarked(cols: seq<Column>, used: set<int>): set<int> {
    set i | 0 <= i < |cols| && cols[i].id !in used
  }

  lemma {:induction false} FirstUnmarkedAppend(cols: seq<Column>, used: set<int>, queue: seq<nat>, more: seq<nat>)
    requires exists k :: 0 <= k < |queue| && !Marked(cols, used, queue[k])
    ensures FirstUnmarked(cols, used, queue + more) == FirstUnmarked(cols, used, queue)
    decreases |queue|
  {
    if Marked(cols, used, queue[0]) {
      var k :| 0 <= k < |queue| && !Marked(cols, used, queue[k]);
      assert queue[1..][k - 1] == queue[k];
      assert (queue + more)[1..] == queue[1..] + more;
      FirstUnmarkedAppend(cols, used, queue[1..], more);
    }
  }

  lemma {:induction false} AllMarked(cols: seq<Column>, used: set<int>, queue: seq<nat>)
    ensures FirstUnmarked(cols, used, queue) <= |queue|
    ensures (forall k :: 0 <= k < |queue| ==> Marked(cols, used, queue[k])) ==> FirstUnmarked(cols, used, queue) == |queue|
    decreases |queue|
  {
    if queue != [] { AllMarked(cols, used, queue[1..]); }
  }

  lemma HasMember<T>(s: seq<T>)
    requires s != []
    ensures exists x :: x in s
  {
    assert s[0] in s;
  }

  /**
    Popping a marked column moves the first unmarked one forward, or shortens a queue without any: what the popped
    column depends on was marked or queued already, so in the second case nothing is appended.
   */
  lemma PopMarked(cols: seq<Column>, used: set<int>, queue: seq<nat>, more: seq<nat>)
    requires queue != [] && Marked(cols, used, queue[0])
    requires forall j :: j in more ==> !Marked(cols, used, j) && j in queue
    ensures FirstUnmarked(cols, used, queue[1..] + more) < FirstUnmarked(cols, used, queue)
  {
    var rest := queue[1..];
    if k :| 0 <= k < |rest| && !Marked(cols, used, rest[k]) {
      FirstUnmarkedAppend(cols, used, rest, more);
    } else {
      assert forall k :: 0 < k < |queue| ==> queue[k] == rest[k - 1];
      assert forall j :: j in queue ==> Marked(cols, used, j);
      if more != [] { HasMember(more); }
      assert rest + more == rest;
      AllMarked(cols, used, rest);
      AllMarked(cols, used, queue);
    }
  }

  lemma ReachableStep(cols: seq<Column>, roots: seq<nat>, i: nat, j: nat)
    requires Reachable(cols, roots, i) && DependsOn(cols, i, j)
    ensures Reachable(cols, roots, j)
  {
    var p :| Chain(cols, roots, p) && p[|p| - 1] == i;
    assert Chain(cols, roots, p + [j]);
  }

  lemma RootReachable(cols: seq<Column>, roots: seq<nat>, i: nat)
    requires i in roots
    ensures Reachable(cols, roots, i)
  {
    assert Chain(cols, roots, [i]);
  }

  /** A closed set holding the roots holds every column on a chain from them. */
  lemma {:induction false} ClosedHoldsChains(cols: seq<Column>, used: set<int>, roots: seq<nat>, p: seq<nat>)
    requires Closed(cols, used) && (forall r :: r in roots ==> Marked(cols, used, r)) && Chain(cols, roots, p)
    ensures Marked(cols, used, p[|p| - 1])
    decreases |p|
  {
    if |p| > 1 {
      var q := p[..|p| - 1];
      assert Chain(cols, roots, q);
      ClosedHoldsChains(cols, used, roots, q);
      assert DependsOn(cols, q[|q| - 1], p[|q|]);
    }
  }

  // ----- fillUsedColumns -----

  /** What the marks may contain: the start set and columns reachable from the roots. */
  ghost predicate Justified(cols: seq<Column>, start: set<int>, roots: seq<nat>, used: set<int>) {
    forall id :: id in used ==> id in start || exists i :: 0 <= i < |cols| && cols[i].id == id && Reachable(cols, roots, i)
  }

  ghost predicate QueueOk(cols: seq<Column>, roots: seq<nat>, queue: seq<nat>) {
    forall k :: 0 <= k < |queue| ==> queue[k] < |cols| && Reachable(cols, roots, queue[k])
  }

  ghost predicate RootsSeen(cols: seq<Column>, used: set<int>, roots: seq<nat>, queue: seq<nat>) {
    forall r :: r in roots ==> Marked(cols, used, r) || r in queue
  }

  ghost predicate MarkedExpanded(cols: seq<Column>, used: set<int>, queue: seq<nat>) {
    forall i :: 0 <= i < |cols| && cols[i].id in used ==> Expanded(cols, used, queue, i)
  }

  /** The dependencies of one column, in any order: the unmarked ones are queued; a missing one is an error. */
  method QueueDependencies(cols: seq<Column>, used: set<int>, next: nat) returns (ok: bool, more: seq<nat>)
    requires next < |cols|
    ensures ok <==> DepsExist(cols, next)
    ensures ok ==> forall j :: j in more <==> DependsOn(cols, next, j) && !Marked(cols, used, j)
  {
    more := [];
    var deps := cols[next].deps;
    while deps != {}
      invariant deps <= cols[next].deps
      invariant forall name :: name in cols[next].deps - deps ==>
                  FindColumn(cols, name) < |cols| && (Marked(cols, used, FindColumn(cols, name)) || FindColumn(cols, name) in more)
      invariant forall j :: j in more ==> DependsOn(cols, next, j) && !Marked(cols, used, j)
      decreases deps
    {
      var name :| name in deps;
      deps := deps - {name};
      var j := FindColumn(cols, name);
      if j == |cols| { return false, []; }
      if cols[j].id !in used { more := more + [j]; }
    }
    ok := true;
  }

  /** What one round of the loop does to the bookkeeping, once the popped column's dependencies exist. */
  lemma RoundKeeps(cols: seq<Column>, start: set<int>, roots: seq<nat>, used: set<int>, queue: seq<nat>, more: seq<nat>)
    requires DistinctIDs(cols) && queue != []
    requires QueueOk(cols, roots, queue) && Justified(cols, start, roots, used)
    requires RootsSeen(cols, used, roots, queue) && MarkedExpanded(cols, used, queue)
    requires DepsExist(cols, queue[0])
    requires var now := used + {cols[queue[0]].id};
             forall j :: j in more <==> DependsOn(cols, queue[0], j) && !Marked(cols, now, j)
    ensures var now, rest := used + {cols[queue[0]].id}, queue[1..] + more;
            && QueueOk(cols, roots, rest) && Justified(cols, start, roots, now)
            && RootsSeen(cols, now, roots, rest) && MarkedExpanded(cols, now, rest)
  {
    var now, rest, next := used + {cols[queue[0]].id}, queue[1..] + more, queue[0];
    forall k | 0 <= k < |rest|
      ensures rest[k] < |cols| && Reachable(cols, roots, rest[k])
    {
      if k >= |queue| - 1 {
        assert rest[k] in more;
        ReachableStep(cols, roots, next, rest[k]);
      } else {
        assert rest[k] == queue[k + 1];
      }
    }
    StaysSeen(cols, used, queue, more);
    forall i | 0 <= i < |cols| && cols[i].id in now
      ensures Expanded(cols, now, rest, i)
    {
      if i == next {
        forall name | name in cols[i].deps
          ensures Marked(cols, now, FindColumn(cols, name)) || FindColumn(cols, name) in rest
        {
          assert DependsOn(cols, i, FindColumn(cols, name));
        }
      } else {
        assert cols[i].id in used;
      }
    }
  }

  lemma StaysSeen(cols: seq<Column>, used: set<int>, queue: seq<nat>, more: seq<nat>)
    requires queue != [] && queue[0] < |cols|
    ensures forall j :: Marked(cols, used, j) || j in queue ==>
              Marked(cols, used + {cols[queue[0]].id}, j) || j in queue[1..] + more
  {
    assert queue == [queue[0]] + queue[1..];
  }

  /** The queue and the marks get smaller in the lexicographic measure. */
  lemma RoundDecreases(cols: seq<Column>, used: set<int>, queue: seq<nat>, more: seq<nat>)
    requires queue != [] && queue[0] < |cols| && MarkedExpanded(cols, used, queue)
    requires var now := used + {cols[queue[0]].id};
             forall j :: j in more <==> DependsOn(cols, queue[0], j) && !Marked(cols, now, j)
    ensures var now, rest := used + {cols[queue[0]].id}, queue[1..] + more;
            || Unmarked(cols, now) < Unmarked(cols, used)
            || (now == used && FirstUnmarked(cols, now, rest) < FirstUnmarked(cols, used, queue))
  {
    var next := queue[0];
    if cols[next].id in used {
      assert used + {cols[next].id} == used;
      assert Expanded(cols, used, queue, next);
      PopMarked(cols, used, queue, more);
    } else {
      assert next in Unmarked(cols, used);
    }
  }

  /**
    fillUsedColumns. From a closed start set it ends on every dependency graph, succeeds exactly when every column
    reachable from the index columns has all its dependencies, and then marks the start set and the reachable columns.
   */
  method FillUsedColumns(cols: seq<Column>, start: set<int>, offsets: seq<nat>) returns (ok: bool, used: set<int>)
    requires DistinctIDs(cols) && OffsetsIn(cols, offsets) && Closed(cols, start)
    ensures ok <==> forall i :: Reachable(cols, offsets, i) ==> DepsExist(cols, i)
    ensures ok ==> forall i :: 0 <= i < |cols| ==> (cols[i].id in used <==> cols[i].id in start || Reachable(cols, offsets, i))
    ensures ok ==> start <= used && Closed(cols, used)
    ensures ok ==> forall id :: id in used ==> id in start || exists i :: 0 <= i < |cols| && cols[i].id == id
  {
    var queue := offsets;
    used := start;
    forall k | 0 <= k < |offsets| ensures Reachable(cols, offsets, offsets[k]) { RootReachable(cols, offsets, offsets[k]); }
    while queue != []
      invariant start <= used
      invariant QueueOk(cols, offsets, queue) && Justified(cols, start, offsets, used)
      invariant RootsSeen(cols, used, offsets, queue) && MarkedExpanded(cols, used, queue)
      decreases Unmarked(cols, used), FirstUnmarked(cols, used, queue)
    {
      var next := queue[0];
      ghost var before := used;
      assert Reachable(cols, offsets, next);
      used := used + {cols[next].id};
      var found, more := QueueDependencies(cols, used, next);
      if !found { return false, {}; }
      RoundKeeps(cols, start, offsets, before, queue, more);
      RoundDecreases(cols, before, queue, more);
      queue := queue[1..] + more;
    }
    ok := true;
    Finished(cols, start, offsets, used);
  }

  /** With an empty queue the marks are the closure. */
  lemma Finished(cols: seq<Column>, start: set<int>, roots: seq<nat>, used: set<int>)
    requires DistinctIDs(cols) && start <= used && Justified(cols, start, roots, used)
    requires RootsSeen(cols, used, roots, []) && MarkedExpanded(cols, used, [])
    ensures Closed(cols, used) && forall i :: Reachable(cols, roots, i) ==> DepsExist(cols, i)
    ensures forall i :: 0 <= i < |cols| ==> (cols[i].id in used <==> cols[i].id in start || Reachable(cols, roots, i))
  {
    forall i | Reachable(cols, roots, i)
      ensures Marked(cols, used, i) && DepsExist(cols, i)
    {
      var p :| Chain(cols, roots, p) && p[|p| - 1] == i;
      ClosedHoldsChains(cols, used, roots, p);
      assert Expanded(cols, used, [], i);
    }
  }

  // ----- newCopContext -----

  /** Positions of the given IDs among the output columns; an ID that is not there is skipped. */
  function Resolve(output: seq<Column>, ids: seq<int>): seq<nat> {
    if ids == [] then [] else
      var j := PositionOf(output, ids[|ids| - 1]);
      Resolve(output, ids[..|ids| - 1]) + if j < |output| then [j] else []
  }

  function PositionOf(output: seq<Column>, id: int): (j: nat)
    ensures j <= |output| && (forall k :: 0 <= k < j ==> output[k].id != id) && (j < |output| ==> output[j].id == id)
  {
    Search.First(output, (c: Column) => c.id == id)
  }

  predicate Present(output: seq<Column>, id: int) {
    exists j :: 0 <= j < |output| && output[j].id == id
  }

  /** Pairing of resolved offsets with the IDs they were resolved for. */
  predicate Resolved(output: seq<Column>, offsets: seq<nat>, ids: seq<int>) {
    |offsets| == |ids| && forall k :: 0 <= k < |ids| ==> offsets[k] < |output| && output[offsets[k]].id == ids[k]
  }

  function InOutput(output: seq<Column>): int -> bool {
    (id: int) => PositionOf(output, id) < |output|
  }

  /** The offsets are the first positions of the IDs at the given places. */
  predicate FirstPositions(output: seq<Column>, ids: seq<int>, offsets: seq<nat>, at: seq<nat>)
    requires Search.Within(ids, at)
  {
    |offsets| == |at| && forall i :: 0 <= i < |at| ==> offsets[i] == PositionOf(output, ids[at[i]])
  }

  lemma FirstPositionsSnoc(output: seq<Column>, ids: seq<int>, offsets: seq<nat>, at: seq<nat>)
    requires ids != [] && Search.Within(ids[..|ids| - 1], at) && FirstPositions(output, ids[..|ids| - 1], offsets, at)
    ensures Search.Within(ids, at) && FirstPositions(output, ids, offsets, at)
    ensures var n := |ids| - 1;
            Search.Within(ids, at + [n]) && FirstPositions(output, ids, offsets + [PositionOf(output, ids[n])], at + [n])
  {
  }

  /** Exactly the IDs that are present are resolved, in order, each to its first position. */
  lemma {:induction false} ResolveExact(output: seq<Column>, ids: seq<int>) returns (at: seq<nat>)
    ensures Search.Positions(ids, at, InOutput(output)) && FirstPositions(output, ids, Resolve(output, ids), at)
    decreases |ids|
  {
    at := [];
    if ids != [] {
      var n := |ids| - 1;
      var init := ResolveExact(output, ids[..n]);
      Search.PositionsSnoc(ids, init, InOutput(output));
      FirstPositionsSnoc(output, ids, Resolve(output, ids[..n]), init);
      at := if InOutput(output)(ids[n]) then init + [n] else init;
    }
  }

  lemma {:induction false} ResolveAll(output: seq<Column>, ids: seq<int>)
    requires forall id :: id in ids ==> Present(output, id)
    ensures Resolved(output, Resolve(output, ids), ids)
    decreases |ids|
  {
    if ids != [] {
      var n := |ids| - 1;
      ResolveAll(output, ids[..n]);
      assert Present(output, ids[n]);
      var offsets, j := Resolve(output, ids[..n]), PositionOf(output, ids[n]);
      ResolvedSnoc(output, offsets, ids[..n], j, ids[n]);
      assert ids == ids[..n] + [ids[n]];
    }
  }

  lemma ResolvedSnoc(output: seq<Column>, offsets: seq<nat>, ids: seq<int>, j: nat, id: int)
    requires Resolved(output, offsets, ids) && j < |output| && output[j].id == id
    ensures Resolved(output, offsets + [j], ids + [id])
  {
  }

  /** resolveIndicesForIndex and resolveIndicesForHandle */
  method ResolveIndices(output: seq<Column>, ids: seq<int>) returns (offsets: seq<nat>)
    ensures offsets == Resolve(output, ids)
  {
    offsets := [];
    for i := 0 to |ids|
      invariant offsets == Resolve(output, ids[..i])
    {
      assert ids[..i + 1][..i] == ids[..i];
      var j := 0;
      while j < |output| && output[j].id != ids[i]
        invariant 0 <= j <= |output| && forall k :: 0 <= k < j ==> output[k].id != ids[i]
      {
        j := j + 1;
      }
      if j < |output| { offsets := offsets + [j]; }
    }
    assert ids[..|ids|] == ids;
  }

  function Selected(cols: seq<Column>, used: set<int>): seq<Column> {
    if cols == [] then [] else
      Selected(cols[..|cols| - 1], used) + if cols[|cols| - 1].id in used then [cols[|cols| - 1]] else []
  }

  /** The columns read are in table order. */
  lemma {:induction false} SelectedInOrder(cols: seq<Column>, used: set<int>) returns (at: seq<nat>)
    ensures Search.Filters(cols, Selected(cols, used), at, (c: Column) => c.id in used)
    decreases |cols|
  {
    at := [];
    if cols != [] {
      var n := |cols| - 1;
      var init := SelectedInOrder(cols[..n], used);
      Search.FiltersSnoc(cols, Selected(cols[..n], used), init, (c: Column) => c.id in used);
      at := if cols[n].id in used then init + [n] else init;
    }
  }

  lemma {:induction false} SelectedMembers(cols: seq<Column>, used: set<int>)
    ensures forall c :: c in Selected(cols, used) <==> c in cols && c.id in used
    decreases |cols|
  {
    if cols != [] {
      SelectedMembers(cols[..|cols| - 1], used);
      assert cols == cols[..|cols| - 1] + [cols[|cols| - 1]];
    }
  }

  function IDsAt(cols: seq<Column>, offsets: seq<nat>): seq<int>
    requires OffsetsIn(cols, offsets)
  {
    seq(|offsets|, (k: nat) requires k < |offsets| => cols[offsets[k]].id)
  }

  predicate HandleIn(cols: seq<Column>, handle: Handle) {
    match handle
    case PKIsHandle(pk) => pk < |cols|
    case CommonHandle(primary) => OffsetsIn(cols, primary)
    case RowID => true
  }

  /** The columns the index build must read. */
  ghost predicate Needed(cols: seq<Column>, index: seq<nat>, handle: Handle, i: nat) {
    || Reachable(cols, index, i)
    || (handle.PKIsHandle? && i == handle.pk)
    || (handle.CommonHandle? && Reachable(cols, handle.primary, i))
  }

  function HandleIDs(cols: seq<Column>, handle: Handle): seq<int>
    requires HandleIn(cols, handle)
  {
    match handle
    case PKIsHandle(pk) => [cols[pk].id]
    case CommonHandle(primary) => IDsAt(cols, primary)
    case RowID => [EXTRA_HANDLE_ID]
  }

  /**
    The column part of newCopContext. Exactly the needed columns are read, in table order, followed by the extra handle
    column when the table has no clustered index; every index column and every handle column is found among them.
   */
  method NewCopContext(cols: seq<Column>, index: seq<nat>, handle: Handle)
    returns (ok: bool, output: seq<Column>, idxOffsets: seq<nat>, handleOffsets: seq<nat>)
    requires DistinctIDs(cols) && OffsetsIn(cols, index) && HandleIn(cols, handle)
    requires forall i :: 0 <= i < |cols| ==> cols[i].id != EXTRA_HANDLE_ID
    ensures ok <==> forall i :: Reachable(cols, index, i) || (handle.CommonHandle? && Reachable(cols, handle.primary, i)) ==> DepsExist(cols, i)
    ensures ok ==> exists used: set<int> ::
                     && (forall i :: 0 <= i < |cols| ==> (cols[i].id in used <==> Needed(cols, index, handle, i)))
                     && output == Selected(cols, used) + if handle.RowID? then [Column(EXTRA_HANDLE_ID, "_tidb_rowid", {})] else []
    ensures ok ==> Resolved(output, idxOffsets, IDsAt(cols, index))
    ensures ok ==> Resolved(output, handleOffsets, HandleIDs(cols, handle))
  {
    output, idxOffsets, handleOffsets := [], [], [];
    var used;
    ok, used := UsedIDs(cols, index, handle);
    if !ok { return; }
    output := SelectColumns(cols, used);
    if handle.RowID? { output := output + [Column(EXTRA_HANDLE_ID, "_tidb_rowid", {})]; }
    NeededResolve(cols, index, handle, used, output);
    idxOffsets := ResolveIndices(output, IDsAt(cols, index));
    handleOffsets := ResolveIndices(output, HandleIDs(cols, handle));
  }

  /** The marks newCopContext collects for the index and the handle. */
  method UsedIDs(cols: seq<Column>, index: seq<nat>, handle: Handle) returns (ok: bool, used: set<int>)
    requires DistinctIDs(cols) && OffsetsIn(cols, index) && HandleIn(cols, handle)
    ensures ok <==> forall i :: Reachable(cols, index, i) || (handle.CommonHandle? && Reachable(cols, handle.primary, i)) ==> DepsExist(cols, i)
    ensures ok ==> forall i :: 0 <= i < |cols| ==> (cols[i].id in used <==> Needed(cols, index, handle, i))
  {
    ok, used := FillUsedColumns(cols, {}, index);
    if !ok { return; }
    if handle.PKIsHandle? {
      used := used + {cols[handle.pk].id};
    } else if handle.CommonHandle? {
      ok, used := FillUsedColumns(cols, used, handle.primary);
    }
  }

  method SelectColumns(cols: seq<Column>, used: set<int>) returns (output: seq<Column>)
    ensures output == Selected(cols, used)
  {
    output := [];
    for i := 0 to |cols|
      invariant output == Selected(cols[..i], used)
    {
      assert cols[..i + 1][..i] == cols[..i];
      if cols[i].id in used { output := output + [cols[i]]; }
    }
    assert cols[..|cols|] == cols;
  }

  lemma NeededResolve(cols: seq<Column>, index: seq<nat>, handle: Handle, used: set<int>, output: seq<Column>)
    requires OffsetsIn(cols, index) && HandleIn(cols, handle)
    requires forall i :: 0 <= i < |cols| ==> (cols[i].id in used <==> Needed(cols, index, handle, i))
    requires output == Selected(cols, used) + if handle.RowID? then [Column(EXTRA_HANDLE_ID, "_tidb_rowid", {})] else []
    ensures Resolved(output, Resolve(output, IDsAt(cols, index)), IDsAt(cols, index))
    ensures Resolved(output, Resolve(output, HandleIDs(cols, handle)), HandleIDs(cols, handle))
  {
    forall k | 0 <= k < |index|
      ensures Present(output, IDsAt(cols, index)[k])
    {
      RootReachable(cols, index, index[k]);
      IsOutput(cols, used, output, index[k]);
    }
    ResolveAll(output, IDsAt(cols, index));
    forall k | 0 <= k < |HandleIDs(cols, handle)|
      ensures Present(output, HandleIDs(cols, handle)[k])
    {
      match handle
      case PKIsHandle(pk) => IsOutput(cols, used, output, pk);
      case CommonHandle(primary) =>
        RootReachable(cols, primary, primary[k]);
        IsOutput(cols, used, output, primary[k]);
      case RowID => assert output[|output| - 1].id == EXTRA_HANDLE_ID;
    }
    ResolveAll(output, HandleIDs(cols, handle));
  }

  lemma IsOutput(cols: seq<Column>, used: set<int>, output: seq<Column>, i: nat)
    requires i < |cols| && cols[i].id in used && Selected(cols, used) <= output
    ensures Present(output, cols[i].id)
  {
    SelectedMembers(cols, used);
    assert cols[i] in Selected(cols, used);
    var j :| 0 <= j < |Selected(cols, used)| && Selected(cols, used)[j] == cols[i];
    assert output[j].id == cols[i].id;
  }
}
