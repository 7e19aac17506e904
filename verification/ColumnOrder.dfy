/** Moving one element of a list (MoveColumnInfo) and where a FIRST or AFTER clause moves it (LocateOffsetToMove). */
module ColumnOrder {
  datatype Position = NoPosition | First | After(name: string)

  /** The list with the element at `from` taken out and put back at `to`. */
  function Move<T>(s: seq<T>, from: nat, to: nat): (r: seq<T>)
    requires from < |s| && to < |s|
    ensures |r| == |s|
  {
    var rest := s[..from] + s[from + 1..];
    rest[..to] + [s[from]] + rest[to..]
  }

  /** Where the element at i is after the move. */
  function NewIndex(from: nat, to: nat, i: nat): nat {
    if i == from then to
    else if from < i <= to then i - 1
    else if to <= i < from then i + 1
    else i
  }

  /** Where the element at i was before the move. */
  function OldIndex(from: nat, to: nat, i: nat): nat {
    NewIndex(to, from, i)
  }

  lemma IndexRoundTrip(from: nat, to: nat, i: nat)
    ensures OldIndex(from, to, NewIndex(from, to, i)) == i && NewIndex(from, to, OldIndex(from, to, i)) == i
  {
  }

  /** Every element is found at its new index. */
  lemma MoveAt<T>(s: seq<T>, from: nat, to: nat, i: nat)
    requires from < |s| && to < |s| && i < |s|
    ensures NewIndex(from, to, i) < |s| && Move(s, from, to)[NewIndex(from, to, i)] == s[i]
    ensures OldIndex(from, to, i) < |s| && Move(s, from, to)[i] == s[OldIndex(from, to, i)]
  {
    MovedFrom(s, from, to, i);
    MovedFrom(s, from, to, NewIndex(from, to, i));
    IndexRoundTrip(from, to, i);
  }

  lemma MovedFrom<T>(s: seq<T>, from: nat, to: nat, i: nat)
    requires from < |s| && to < |s| && i < |s|
    ensures Move(s, from, to)[i] == s[OldIndex(from, to, i)]
  {
    var rest := s[..from] + s[from + 1..];
    assert forall k :: 0 <= k < |rest| ==> rest[k] == if k < from then s[k] else s[k + 1];
  }

  /** LocateOffsetToMove, given the offset of the public column an AFTER clause names. */
  function Locate(current: nat, pos: Position, relative: nat): nat {
    match pos
    case NoPosition => current
    case First => 0
    case After(_) => if current <= relative then relative else relative + 1
  }

  /** After the move the column is right behind the named one, or first. */
  lemma LocateIsRight(current: nat, pos: Position, relative: nat)
    ensures var dest := Locate(current, pos, relative);
            && (pos.First? ==> NewIndex(current, dest, current) == 0)
            && (pos.After? && relative != current ==>
                  NewIndex(current, dest, current) == NewIndex(current, dest, relative) + 1)
            && (pos.NoPosition? || (pos.After? && relative == current) ==> dest == current)
  {
  }
}
