/** The first-match search that the lookups by name and by ID share, and what it means to filter a list in order. */
module Search {

  /** The position of the first element that p accepts; the length when there is none. */
  function First<T>(s: seq<T>, p: T -> bool): (i: nat)
    ensures i <= |s| && (forall j :: 0 <= j < i ==> !p(s[j])) && (i < |s| ==> p(s[i]))
  {
    if s == [] || p(s[0]) then 0 else 1 + First(s[1..], p)
  }

  predicate Within<T>(s: seq<T>, at: seq<nat>) {
    forall i :: 0 <= i < |at| ==> at[i] < |s|
  }

  /** `at` lists, in ascending order, exactly the positions of the elements that p accepts. */
  predicate Positions<T>(s: seq<T>, at: seq<nat>, p: T -> bool) {
    && Within(s, at) && (forall i :: 0 <= i < |at| ==> p(s[at[i]]))
    && (forall i, j :: 0 <= i < j < |at| ==> at[i] < at[j])
    && (forall x: nat :: x < |s| && p(s[x]) ==> x in at)
  }

  /** One more element at the end of the list. */
  lemma PositionsSnoc<T>(s: seq<T>, at: seq<nat>, p: T -> bool)
    requires s != [] && Positions(s[..|s| - 1], at, p)
    ensures var n := |s| - 1; Positions(s, if p(s[n]) then at + [n] else at, p)
  {
    var n := |s| - 1;
    var now := if p(s[n]) then at + [n] else at;
    forall x: nat | x < |s| && p(s[x]) ensures x in now {
      if x < n {
        assert s[..n][x] == s[x];
        assert x in at;
      }
    }
  }

  /** r is what p accepts of s, in order. */
  predicate Filters<T(==)>(s: seq<T>, r: seq<T>, at: seq<nat>, p: T -> bool) {
    Positions(s, at, p) && Picks(s, r, at)
  }

  /** r holds the elements of s at the given positions. */
  predicate Picks<T(==)>(s: seq<T>, r: seq<T>, at: seq<nat>)
    requires Within(s, at)
  {
    |r| == |at| && forall i :: 0 <= i < |at| ==> r[i] == s[at[i]]
  }

  lemma PicksSnoc<T>(s: seq<T>, r: seq<T>, at: seq<nat>)
    requires s != [] && Within(s[..|s| - 1], at) && Picks(s[..|s| - 1], r, at)
    ensures Within(s, at) && Picks(s, r, at) && Within(s, at + [|s| - 1]) && Picks(s, r + [s[|s| - 1]], at + [|s| - 1])
  {
  }

  lemma FiltersSnoc<T>(s: seq<T>, r: seq<T>, at: seq<nat>, p: T -> bool)
    requires s != [] && Filters(s[..|s| - 1], r, at, p)
    ensures var n := |s| - 1; if p(s[n]) then Filters(s, r + [s[n]], at + [n], p) else Filters(s, r, at, p)
  {
    PositionsSnoc(s, at, p);
    PicksSnoc(s, r, at);
  }

  /** Filtering what was filtered. */
  lemma FiltersTwice<T>(s: seq<T>, r: seq<T>, at: seq<nat>, p: T -> bool, t: seq<T>, bt: seq<nat>, q: T -> bool, both: T -> bool)
    returns (ct: seq<nat>)
    requires Filters(s, r, at, p) && Filters(r, t, bt, q) && forall i :: 0 <= i < |s| ==> (both(s[i]) <==> p(s[i]) && q(s[i]))
    ensures Filters(s, t, ct, both)
  {
    ct := seq(|bt|, (i: nat) requires i < |bt| => at[bt[i]]);
    forall i | 0 <= i < |bt| ensures ct[i] < |s| && both(s[ct[i]]) && t[i] == s[ct[i]] {
      assert r[bt[i]] == s[at[bt[i]]];
    }
    forall x: nat | x < |s| && both(s[x]) ensures x in ct {
      assert x in at;
      var k :| 0 <= k < |at| && at[k] == x;
      assert r[k] == s[x];
      assert k in bt;
      var l :| 0 <= l < |bt| && bt[l] == k;
      assert ct[l] == x;
    }
  }

  lemma FiltersAll<T>(s: seq<T>, p: T -> bool) returns (at: seq<nat>)
    requires forall k :: 0 <= k < |s| ==> p(s[k])
    ensures Filters(s, s, at, p)
  {
    at := seq(|s|, (k: nat) => k);
    forall x: nat | x < |s| ensures x in at {
      assert at[x] == x;
    }
  }

  /** Taking out the one element that p rejects. */
  lemma FiltersAllButOne<T>(s: seq<T>, i: nat, p: T -> bool) returns (at: seq<nat>)
    requires i < |s| && forall k :: 0 <= k < |s| ==> (p(s[k]) <==> k != i)
    ensures Filters(s, s[..i] + s[i + 1..], at, p)
  {
    at := seq(|s| - 1, (k: nat) => if k < i then k else k + 1);
    forall x: nat | x < |s| && x != i ensures x in at {
      assert at[if x < i then x else x - 1] == x;
    }
  }
}
