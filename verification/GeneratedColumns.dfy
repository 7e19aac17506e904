/** The order of generated columns: the checks of ddl/generated_column.go against the column order the job produces. */
module GeneratedColumns {
  import opened ColumnOrder
  import Search

  /** A public column; `deps` are the columns its generation expression mentions. */
  datatype Column = Column(name: string, generated: bool, deps: set<string>, hidden: bool)

  datatype Attribute = Attribute(position: nat, generated: bool, deps: set<string>)

  datatype Verdict = Accepted | NonPrior | BadField

  predicate DistinctNames(cols: seq<Column>) {
    forall i, j :: 0 <= i < j < |cols| ==> cols[i].name != cols[j].name
  }

  predicate Named(cols: seq<Column>, name: string) {
    exists i :: 0 <= i < |cols| && cols[i].name == name
  }

  /** Every generated column mentions existing columns, and generated ones only when they are earlier. */
  predicate Legal(cols: seq<Column>) {
    && (forall i, name :: 0 <= i < |cols| && cols[i].generated && name in cols[i].deps ==> Named(cols, name))
    && (forall i, j :: 0 <= i < |cols| && 0 <= j < |cols| && Needs(cols, i, j) ==> j < i)
  }

  /** Column i is generated from the generated column j. */
  predicate Needs(cols: seq<Column>, i: nat, j: nat) {
    i < |cols| && j < |cols| && cols[i].generated && cols[j].generated && cols[j].name in cols[i].deps
  }

  /** In a legal order no chain of generated columns comes back to where it started, whatever its length. */
  lemma {:induction false} NoCycles(cols: seq<Column>, p: seq<nat>)
    requires Legal(cols) && |p| > 1 && forall k :: 0 <= k < |p| - 1 ==> Needs(cols, p[k], p[k + 1])
    ensures p[|p| - 1] < p[0]
    decreases |p|
  {
    assert Needs(cols, p[0], p[1]);
    if |p| > 2 {
      var q := p[1..];
      forall k | 0 <= k < |q| - 1 ensures Needs(cols, q[k], q[k + 1]) {
        assert Needs(cols, p[k + 1], p[k + 1 + 1]);
      }
      NoCycles(cols, q);
    }
  }

  // ----- verifyColumnGeneration -----

  predicate Earlier(m: map<string, Attribute>, name: string, dep: string)
    requires name in m
  {
    dep in m && (m[dep].generated ==> m[dep].position < m[name].position)
  }

  /** verifyColumnGeneration: the dependencies are looked at in any order. */
  method VerifyColumnGeneration(m: map<string, Attribute>, name: string) returns (v: Verdict)
    requires name in m
    ensures v == Accepted <==> (m[name].generated ==> forall dep :: dep in m[name].deps ==> Earlier(m, name, dep))
    ensures v == BadField ==> exists dep :: dep in m[name].deps && dep !in m
    ensures v == NonPrior ==>
              exists dep :: dep in m[name].deps && dep in m && m[dep].generated && m[dep].position >= m[name].position
  {
    var attribute := m[name];
    if attribute.generated {
      var deps := attribute.deps;
      while deps != {}
        invariant deps <= attribute.deps && forall dep :: dep in attribute.deps - deps ==> Earlier(m, name, dep)
        decreases deps
      {
        var dep :| dep in deps;
        deps := deps - {dep};
        if dep !in m { return BadField; }
        if m[dep].generated && attribute.position <= m[dep].position { return NonPrior; }
      }
    }
    v := Accepted;
  }

  // ----- findPositionRelativeColumn -----

  /** The offset of the first column of that name; |cols| when there is none. */
  function Offset(cols: seq<Column>, name: string): (i: nat)
    ensures i <= |cols| && (forall j :: 0 <= j < i ==> cols[j].name != name)
    ensures i < |cols| ==> cols[i].name == name
  {
    Search.First(cols, (c: Column) => c.name == name)
  }

  predicate PositionExists(cols: seq<Column>, pos: Position) {
    pos.After? ==> Named(cols, pos.name)
  }

  function RelativePosition(cols: seq<Column>, pos: Position): nat {
    match pos
    case NoPosition => |cols|
    case First => 0
    case After(name) => Offset(cols, name) + 1
  }

  /** Where LocateOffsetToMove sends the column at offset `current`. */
  function Destination(cols: seq<Column>, current: nat, pos: Position): nat {
    Locate(current, pos, if pos.After? then Offset(cols, pos.name) else 0)
  }

  method FindPositionRelativeColumn(cols: seq<Column>, pos: Position) returns (ok: bool, position: int)
    ensures ok <==> PositionExists(cols, pos)
    ensures ok ==> position == RelativePosition(cols, pos)
  {
    ok, position := true, |cols|;
    match pos
    case NoPosition =>
    case First => position := 0;
    case After(name) =>
      var i := 0;
      while i < |cols| && cols[i].name != name
        invariant 0 <= i <= |cols| && forall j :: 0 <= j < i ==> cols[j].name != name
      {
        i := i + 1;
      }
      if i == |cols| { return false, -1; }
      position := i + 1;
  }

  // ----- Rule 2 of checkModifyGeneratedColumn -----

  /** The position rule 2 gives a column: its offset, or for the modified one what the clause says. */
  function RulePosition(cols: seq<Column>, at: nat, pos: Position, i: nat): nat {
    if i == at && !pos.NoPosition? then RelativePosition(cols, pos) else i
  }

  /** What rule 2 demands, by column rather than by name. */
  predicate RuleTwo(cols: seq<Column>, at: nat, col: Column, pos: Position)
    requires at < |cols|
  {
    var now := cols[at := col];
    && PositionExists(cols, pos)
    && (forall i, name :: 0 <= i < |now| && now[i].generated && name in now[i].deps ==> Named(now, name))
    && (forall i, j :: 0 <= i < |now| && 0 <= j < |now| && Needs(now, i, j) ==>
          RulePosition(cols, at, pos, j) < RulePosition(cols, at, pos, i))
  }

  /** The map rule 2 builds, over the first n columns. */
  ghost predicate Describes(m: map<string, Attribute>, now: seq<Column>, n: nat, place: nat -> nat)
    requires n <= |now|
  {
    && (forall i :: 0 <= i < n ==> now[i].name in m && Fits(m[now[i].name], now[i], place(i)))
    && (forall name :: name in m ==> Named(now[..n], name))
  }

  predicate Fits(a: Attribute, col: Column, position: nat) {
    a.position == position && a.generated == col.generated && (col.generated ==> a.deps == col.deps)
  }

  lemma DescribesNext(m: map<string, Attribute>, now: seq<Column>, n: nat, place: nat -> nat, a: Attribute)
    requires n < |now| && DistinctNames(now) && Describes(m, now, n, place) && Fits(a, now[n], place(n))
    ensures Describes(m[now[n].name := a], now, n + 1, place)
  {
    assert now[..n + 1] == now[..n] + [now[n]];
    forall name | name in m || name == now[n].name ensures Named(now[..n + 1], name) {
      if name == now[n].name {
        assert now[..n + 1][n].name == name;
      } else {
        assert Named(now[..n], name);
        var i :| 0 <= i < n && now[..n][i].name == name;
        assert now[..n + 1][i].name == name;
      }
    }
  }

  lemma EarlierByColumn(m: map<string, Attribute>, now: seq<Column>, place: nat -> nat, i: nat)
    requires DistinctNames(now) && Describes(m, now, |now|, place) && i < |now| && now[i].generated
    ensures (forall dep :: dep in now[i].deps ==> Earlier(m, now[i].name, dep))
            <==> && (forall name :: name in now[i].deps ==> Named(now, name))
                 && (forall j :: 0 <= j < |now| && Needs(now, i, j) ==> place(j) < place(i))
  {
    assert now[..|now|] == now;
    if forall dep :: dep in now[i].deps ==> Earlier(m, now[i].name, dep) {
      forall j | 0 <= j < |now| && Needs(now, i, j) ensures place(j) < place(i) {
        assert Earlier(m, now[i].name, now[j].name);
      }
    }
    if && (forall name :: name in now[i].deps ==> Named(now, name))
       && (forall j :: 0 <= j < |now| && Needs(now, i, j) ==> place(j) < place(i))
    {
      forall dep | dep in now[i].deps ensures Earlier(m, now[i].name, dep) {
        assert Named(now, dep);
        var j :| 0 <= j < |now| && now[j].name == dep;
        if now[j].generated { assert Needs(now, i, j); }
      }
    }
  }

  /** Rule 2 holds exactly when every generated column passes the check against the map. */
  lemma RuleTwoByName(cols: seq<Column>, at: nat, col: Column, pos: Position, m: map<string, Attribute>, place: nat -> nat)
    requires at < |cols| && DistinctNames(cols[at := col]) && PositionExists(cols, pos)
    requires forall i :: place(i) == RulePosition(cols, at, pos, i)
    requires Describes(m, cols[at := col], |cols|, place)
    ensures RuleTwo(cols, at, col, pos) <==> AllEarlier(m, cols[at := col], |cols|)
  {
    var now := cols[at := col];
    if AllEarlier(m, now, |now|) {
      forall i, name | 0 <= i < |now| && now[i].generated && name in now[i].deps ensures Named(now, name) {
        EarlierByColumn(m, now, place, i);
      }
      forall i, j | 0 <= i < |now| && 0 <= j < |now| && Needs(now, i, j) ensures place(j) < place(i) {
        EarlierByColumn(m, now, place, i);
      }
    }
    if RuleTwo(cols, at, col, pos) {
      forall i, dep | 0 <= i < |now| && now[i].generated && dep in now[i].deps ensures Earlier(m, now[i].name, dep) {
        EarlierByColumn(m, now, place, i);
      }
    }
  }

  predicate AllEarlier(m: map<string, Attribute>, now: seq<Column>, n: nat)
    requires n <= |now| && forall i :: 0 <= i < n ==> now[i].name in m
  {
    forall i, dep :: 0 <= i < n && now[i].generated && dep in now[i].deps ==> Earlier(m, now[i].name, dep)
  }

  /** The first loop of rule 2: the attributes by name. */
  method BuildGenerations(cols: seq<Column>, at: nat, col: Column, pos: Position, ghost place: nat -> nat)
    returns (ok: bool, m: map<string, Attribute>)
    requires at < |cols| && DistinctNames(cols[at := col])
    requires forall i :: place(i) == RulePosition(cols, at, pos, i)
    ensures ok <==> PositionExists(cols, pos)
    ensures ok ==> Describes(m, cols[at := col], |cols|, place)
  {
    m := map[];
    ghost var now := cols[at := col];
    for i := 0 to |cols|
      invariant Describes(m, now, i, place)
      invariant i > at ==> PositionExists(cols, pos)
    {
      var attribute;
      if i == at {
        var position: int := i;
        if !pos.NoPosition? {
          ok, position := FindPositionRelativeColumn(cols, pos);
          if !ok { return; }
        }
        attribute := Attribute(position, col.generated, col.deps);
      } else {
        attribute := Attribute(i, cols[i].generated, if cols[i].generated then cols[i].deps else {});
      }
      DescribesNext(m, now, i, place, attribute);
      m := m[(if i == at then col.name else cols[i].name) := attribute];
    }
    ok := true;
  }

  /** The second loop of rule 2: every column is verified against the map. */
  method VerifyAll(m: map<string, Attribute>, names: seq<string>) returns (v: Verdict)
    requires forall i :: 0 <= i < |names| ==> names[i] in m
    ensures v == Accepted <==> forall i :: 0 <= i < |names| ==> PassesIn(m, names[i])
  {
    for i := 0 to |names|
      invariant forall k :: 0 <= k < i ==> PassesIn(m, names[k])
    {
      v := VerifyColumnGeneration(m, names[i]);
      if v != Accepted { return; }
    }
    v := Accepted;
  }

  predicate PassesIn(m: map<string, Attribute>, name: string) {
    name in m && (m[name].generated ==> forall dep :: dep in m[name].deps ==> Earlier(m, name, dep))
  }

  lemma AllPass(m: map<string, Attribute>, now: seq<Column>, place: nat -> nat, names: seq<string>)
    requires Describes(m, now, |now|, place) && |names| == |now| && forall i :: 0 <= i < |now| ==> names[i] == now[i].name
    ensures AllEarlier(m, now, |now|) <==> forall i :: 0 <= i < |names| ==> PassesIn(m, names[i])
  {
    forall i | 0 <= i < |now|
      ensures PassesIn(m, names[i]) <==> (now[i].generated ==> forall dep :: dep in now[i].deps ==> Earlier(m, now[i].name, dep))
    {
      assert Fits(m[now[i].name], now[i], place(i));
    }
  }

  /** Rule 2: build the map by name, then verify every column against it. */
  method CheckModifyRuleTwo(cols: seq<Column>, at: nat, col: Column, pos: Position) returns (v: Verdict)
    requires at < |cols| && DistinctNames(cols[at := col])
    ensures v == Accepted <==> RuleTwo(cols, at, col, pos)
  {
    ghost var place := (i: nat) => RulePosition(cols, at, pos, i);
    var ok, m := BuildGenerations(cols, at, col, pos, place);
    if !ok { return BadField; }
    RuleTwoByName(cols, at, col, pos, m, place);
    var names := seq(|cols|, (i: nat) requires i < |cols| => if i == at then col.name else cols[i].name);
    AllPass(m, cols[at := col], place, names);
    v := VerifyAll(m, names);
  }

  // ----- Rule 2 against the order after the move -----

  /** The new column, put where the clause says. */
  function AfterModify(cols: seq<Column>, at: nat, col: Column, pos: Position): seq<Column>
    requires at < |cols| && Destination(cols, at, pos) < |cols|
  {
    Move(cols[at := col], at, Destination(cols, at, pos))
  }

  /** The one case rule 2 refuses although the move is fine: the column now right behind the modified one needs it. */
  predicate TieAtTarget(cols: seq<Column>, at: nat, col: Column, pos: Position)
    requires at < |cols|
  {
    var p := RulePosition(cols, at, pos, at);
    p != at && p < |cols| && Needs(cols[at := col], p, at)
  }

  /** Positions given by rule 2 order the columns as the move does, except that a tie stands for "behind". */
  lemma RuleOrder(cols: seq<Column>, at: nat, pos: Position, i: nat, j: nat)
    requires at < |cols| && PositionExists(cols, pos) && i < |cols| && j < |cols| && i != j
    ensures var dest := Destination(cols, at, pos);
            NewIndex(at, dest, j) < NewIndex(at, dest, i)
            <==> RulePosition(cols, at, pos, j) < RulePosition(cols, at, pos, i)
                 || (j == at && RulePosition(cols, at, pos, j) == i)
  {
  }

  lemma NeedsAfterMove(now: seq<Column>, from: nat, to: nat, i: nat, j: nat)
    requires from < |now| && to < |now| && i < |now| && j < |now|
    ensures Needs(now, i, j) <==> Needs(Move(now, from, to), NewIndex(from, to, i), NewIndex(from, to, j))
  {
    MoveAt(now, from, to, i);
    MoveAt(now, from, to, j);
  }

  lemma NamedAfterMove(now: seq<Column>, from: nat, to: nat, name: string)
    requires from < |now| && to < |now|
    ensures Named(now, name) <==> Named(Move(now, from, to), name)
  {
    if Named(now, name) {
      var i :| 0 <= i < |now| && now[i].name == name;
      MoveAt(now, from, to, i);
      assert Move(now, from, to)[NewIndex(from, to, i)].name == name;
    }
    if Named(Move(now, from, to), name) {
      var i :| 0 <= i < |now| && Move(now, from, to)[i].name == name;
      MoveAt(now, from, to, i);
      assert now[OldIndex(from, to, i)].name == name;
    }
  }

  /** A legal order after a move, said in the offsets before it. */
  lemma LegalAfterMove(now: seq<Column>, from: nat, to: nat)
    requires from < |now| && to < |now|
    ensures Legal(Move(now, from, to)) <==>
            && (forall i, name :: 0 <= i < |now| && now[i].generated && name in now[i].deps ==> Named(now, name))
            && (forall i, j :: 0 <= i < |now| && 0 <= j < |now| && Needs(now, i, j) ==> NewIndex(from, to, j) < NewIndex(from, to, i))
  {
    var moved := Move(now, from, to);
    if Legal(moved) {
      forall i, name | 0 <= i < |now| && now[i].generated && name in now[i].deps ensures Named(now, name) {
        MoveAt(now, from, to, i);
        assert moved[NewIndex(from, to, i)] == now[i];
        NamedAfterMove(now, from, to, name);
      }
      forall i, j | 0 <= i < |now| && 0 <= j < |now| && Needs(now, i, j)
        ensures NewIndex(from, to, j) < NewIndex(from, to, i)
      {
        MoveAt(now, from, to, i);
        MoveAt(now, from, to, j);
        NeedsAfterMove(now, from, to, i, j);
      }
    }
    if && (forall i, name :: 0 <= i < |now| && now[i].generated && name in now[i].deps ==> Named(now, name))
       && (forall i, j :: 0 <= i < |now| && 0 <= j < |now| && Needs(now, i, j) ==> NewIndex(from, to, j) < NewIndex(from, to, i))
    {
      forall i, name | 0 <= i < |moved| && moved[i].generated && name in moved[i].deps ensures Named(moved, name) {
        MoveAt(now, from, to, i);
        assert moved[i] == now[OldIndex(from, to, i)];
        NamedAfterMove(now, from, to, name);
      }
      forall i, j | 0 <= i < |moved| && 0 <= j < |moved| && Needs(moved, i, j) ensures j < i {
        MoveAt(now, from, to, i);
        MoveAt(now, from, to, j);
        IndexRoundTrip(from, to, i);
        IndexRoundTrip(from, to, j);
        NeedsAfterMove(now, from, to, OldIndex(from, to, i), OldIndex(from, to, j));
      }
    }
  }

  /**
    Rule 2 accepts a modification exactly when the columns after the actual move are in a legal order and the tie does
    not occur. In particular what it accepts is legal.
   */
  lemma RuleTwoIsExact(cols: seq<Column>, at: nat, col: Column, pos: Position)
    requires at < |cols| && PositionExists(cols, pos)
    ensures Destination(cols, at, pos) < |cols|
    ensures RuleTwo(cols, at, col, pos) <==> Legal(AfterModify(cols, at, col, pos)) && !TieAtTarget(cols, at, col, pos)
  {
    var now, dest := cols[at := col], Destination(cols, at, pos);
    LegalAfterMove(now, at, dest);
    if RuleTwo(cols, at, col, pos) {
      forall i, j | 0 <= i < |now| && 0 <= j < |now| && Needs(now, i, j)
        ensures NewIndex(at, dest, j) < NewIndex(at, dest, i)
      {
        if i != j { RuleOrder(cols, at, pos, i, j); }
      }
    }
    if Legal(AfterModify(cols, at, col, pos)) && !TieAtTarget(cols, at, col, pos) {
      forall i, j | 0 <= i < |now| && 0 <= j < |now| && Needs(now, i, j)
        ensures RulePosition(cols, at, pos, j) < RulePosition(cols, at, pos, i)
      {
        if i != j { RuleOrder(cols, at, pos, i, j); }
      }
    }
  }

  /** The refusal of a legal order: b is generated from a and already follows it; moving a right before b is refused. */
  lemma RuleTwoRefusesALegalMove()
    ensures var cols := [Column("a", true, {}, false), Column("c", false, {}, false), Column("b", true, {"a"}, false)];
            && Legal(AfterModify(cols, 0, cols[0], After("c")))
            && !RuleTwo(cols, 0, cols[0], After("c"))
  {
    var a, c, b := Column("a", true, {}, false), Column("c", false, {}, false), Column("b", true, {"a"}, false);
    var cols := [a, c, b];
    assert cols[1..][0] == c;
    assert Offset(cols, "c") == 1 && cols[1].name == "c";
    assert AfterModify(cols, 0, a, After("c")) == [c, a, b];
    assert [c, a, b][1].name == "a";
    assert Needs(cols[0 := a], 2, 0);
  }

  // ----- ADD COLUMN -----

  predicate Visible(cols: seq<Column>, name: string) {
    exists i :: 0 <= i < |cols| && cols[i].name == name && !cols[i].hidden
  }

  /** checkDependedColExist: the visible columns are struck from the set; what is left over is missing. */
  method CheckDependedColExist(deps: set<string>, cols: seq<Column>) returns (ok: bool)
    ensures ok <==> forall name :: name in deps ==> Visible(cols, name)
  {
    var left := deps;
    for i := 0 to |cols|
      invariant forall name :: name in left <==>
                  name in deps && forall k :: 0 <= k < i && cols[k].name == name ==> cols[k].hidden
    {
      if !cols[i].hidden { left := left - {cols[i].name}; }
    }
    if left != {} {
      var name :| name in left;
      assert name in deps;
    }
    ok := left == {};
  }

  /** verifyColumnGenerationSingle */
  method VerifyColumnGenerationSingle(deps: set<string>, cols: seq<Column>, pos: Position) returns (v: Verdict)
    ensures v == BadField <==> !PositionExists(cols, pos)
    ensures v == Accepted <==>
            && PositionExists(cols, pos)
            && forall i :: 0 <= i < |cols| && cols[i].generated && cols[i].name in deps ==> i < RelativePosition(cols, pos)
  {
    var ok, p := FindPositionRelativeColumn(cols, pos);
    if !ok { return BadField; }
    for i := 0 to |cols|
      invariant forall k :: 0 <= k < i && cols[k].generated && cols[k].name in deps ==> k < p
    {
      if cols[i].name in deps && cols[i].generated && i >= p { return NonPrior; }
    }
    v := Accepted;
  }

  /** The columns after ADD COLUMN: appended, then moved. */
  function AfterAdd(cols: seq<Column>, col: Column, pos: Position): seq<Column>
    requires Destination(cols, |cols|, pos) <= |cols|
  {
    Move(cols + [col], |cols|, Destination(cols, |cols|, pos))
  }

  /** What the appended column adds to the relation: nothing older needs it. */
  lemma NeedsAfterAppend(cols: seq<Column>, col: Column)
    requires Legal(cols) && !Named(cols, col.name)
    ensures var now, n := cols + [col], |cols|;
            && (forall i, j :: 0 <= i < n && 0 <= j < n ==> (Needs(now, i, j) <==> Needs(cols, i, j)))
            && (forall i :: 0 <= i < n ==> !Needs(now, i, n))
            && (forall j :: 0 <= j < n ==> (Needs(now, n, j) <==> col.generated && cols[j].generated && cols[j].name in col.deps))
            && (Needs(now, n, n) <==> col.generated && col.name in col.deps)
  {
    var now, n := cols + [col], |cols|;
    forall i | 0 <= i < n ensures !Needs(now, i, n) {
      assert cols[i] == now[i];
    }
  }

  lemma NamedAfterAppend(cols: seq<Column>, col: Column, name: string)
    ensures Named(cols + [col], name) <==> Named(cols, name) || name == col.name
  {
    var now := cols + [col];
    if Named(cols, name) {
      var i :| 0 <= i < |cols| && cols[i].name == name;
      assert now[i].name == name;
    }
    if name == col.name { assert now[|cols|].name == name; }
  }

  predicate AddAccepted(cols: seq<Column>, col: Column, pos: Position) {
    && (forall name :: name in col.deps ==> Named(cols, name))
    && forall i :: 0 <= i < |cols| && cols[i].generated && cols[i].name in col.deps ==> i < RelativePosition(cols, pos)
  }

  /**
    ADD COLUMN of a generated column keeps a legal order legal exactly when its dependencies exist and
    verifyColumnGenerationSingle accepts; a column that is not generated keeps it always.
   */
  lemma AddKeepsLegal(cols: seq<Column>, col: Column, pos: Position)
    requires Legal(cols) && PositionExists(cols, pos) && !Named(cols, col.name)
    ensures Destination(cols, |cols|, pos) <= |cols|
    ensures Legal(AfterAdd(cols, col, pos)) <==> (col.generated ==> AddAccepted(cols, col, pos))
  {
    var now, n, dest := cols + [col], |cols|, Destination(cols, |cols|, pos);
    LegalAfterMove(now, n, dest);
    NeedsAfterAppend(cols, col);
    forall name ensures Named(now, name) <==> Named(cols, name) || name == col.name {
      NamedAfterAppend(cols, col, name);
    }
    if Legal(AfterAdd(cols, col, pos)) && col.generated {
      assert !Needs(now, n, n);
      forall name | name in col.deps ensures Named(cols, name) {
        assert now[n].generated && name in now[n].deps;
      }
      forall i | 0 <= i < n && cols[i].generated && cols[i].name in col.deps ensures i < RelativePosition(cols, pos) {
        assert Needs(now, n, i);
      }
    }
    if col.generated ==> AddAccepted(cols, col, pos) {
      AcceptedIsLegal(cols, col, pos);
    }
  }

  lemma AcceptedIsLegal(cols: seq<Column>, col: Column, pos: Position)
    requires Legal(cols) && PositionExists(cols, pos) && !Named(cols, col.name)
    requires col.generated ==> AddAccepted(cols, col, pos)
    ensures Destination(cols, |cols|, pos) <= |cols|
    ensures Legal(AfterAdd(cols, col, pos))
  {
    var now, n, dest := cols + [col], |cols|, Destination(cols, |cols|, pos);
    NeedsAfterAppend(cols, col);
    forall i, name | 0 <= i < |now| && now[i].generated && name in now[i].deps ensures Named(now, name) {
      NamedAfterAppend(cols, col, name);
      if i < n { assert now[i] == cols[i]; }
    }
    forall i, j | 0 <= i < |now| && 0 <= j < |now| && Needs(now, i, j) ensures NewIndex(n, dest, j) < NewIndex(n, dest, i) {
    }
    LegalAfterMove(now, n, dest);
  }

  /**
    The checks CreateNewColumn makes of a generated column. They accept exactly when the position exists, the columns are
    in a legal order with the new one in its place, and no dependency is hidden.
   */
  method CheckAddGenerated(cols: seq<Column>, col: Column, pos: Position) returns (v: Verdict)
    requires Legal(cols) && !Named(cols, col.name) && col.generated
    ensures v == Accepted <==>
            && PositionExists(cols, pos) && Legal(AfterAdd(cols, col, pos))
            && forall name :: name in col.deps && Named(cols, name) ==> Visible(cols, name)
    ensures v == NonPrior ==> PositionExists(cols, pos) && !Legal(AfterAdd(cols, col, pos))
  {
    if PositionExists(cols, pos) { AddKeepsLegal(cols, col, pos); }
    var ok := CheckDependedColExist(col.deps, cols);
    if !ok { return BadField; }
    v := VerifyColumnGenerationSingle(col.deps, cols, pos);
  }

  /** CREATE TABLE: verifying every column with its own offset is exactly a legal order. */
  lemma CreateIsExact(cols: seq<Column>, m: map<string, Attribute>)
    requires DistinctNames(cols) && Describes(m, cols, |cols|, (i: nat) => i)
    ensures Legal(cols) <==>
            forall i, dep :: 0 <= i < |cols| && cols[i].generated && dep in cols[i].deps ==> Earlier(m, cols[i].name, dep)
  {
    forall i | 0 <= i < |cols| && cols[i].generated
      ensures (forall dep :: dep in cols[i].deps ==> Earlier(m, cols[i].name, dep))
              <==> && (forall name :: name in cols[i].deps ==> Named(cols, name))
                   && (forall j :: 0 <= j < |cols| && Needs(cols, i, j) ==> j < i)
    {
      EarlierByColumn(m, cols, (k: nat) => k, i);
    }
  }
}
