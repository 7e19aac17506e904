/** Internal names of the columns and indexes a modify-column job adds, and the way back (ddl/column.go). */
module ChangingNames {
  const COLUMN_PREFIX := "_Col$_"
  const INDEX_PREFIX := "_Idx$_"

  /** Lower-casing character by character, leaving digits and the underscore alone. */
  ghost predicate LowerCasing(lc: char -> char) {
    lc('_') == '_' && forall c: char :: '0' <= c <= '9' ==> lc(c) == c
  }

  function Lower(lc: char -> char, s: string): string {
    seq(|s|, (i: nat) requires i < |s| => lc(s[i]))
  }

  /** Two names have one lower-case form exactly when they differ in case only. */
  lemma LowerFolds(lc: char -> char, a: string, b: string)
    ensures Lower(lc, a) == Lower(lc, b) <==> |a| == |b| && forall i :: 0 <= i < |a| ==> lc(a[i]) == lc(b[i])
  {
    if Lower(lc, a) == Lower(lc, b) {
      assert |Lower(lc, a)| == |a| && |Lower(lc, b)| == |b|;
      forall i | 0 <= i < |a| ensures lc(a[i]) == lc(b[i]) {
        assert Lower(lc, a)[i] == lc(a[i]) && Lower(lc, b)[i] == lc(b[i]);
      }
    }
  }

  // ----- Decimal suffixes -----

  function Digit(d: nat): char
    requires d < 10
  {
    '0' + d as char
  }

  function Decimal(n: nat): (s: string)
    ensures s != [] && forall c :: c in s ==> '0' <= c <= '9'
  {
    if n < 10 then [Digit(n)] else Decimal(n / 10) + [Digit(n % 10)]
  }

  function Value(s: string): int {
    if s == [] then 0 else Value(s[..|s| - 1]) * 10 + (s[|s| - 1] as int - '0' as int)
  }

  lemma {:induction false} ValueOfDecimal(n: nat)
    ensures Value(Decimal(n)) == n
  {
    if n < 10 {
      assert [Digit(n)][..0] == [];
    } else {
      ValueOfDecimal(n / 10);
      var s := Decimal(n / 10);
      assert (s + [Digit(n % 10)])[..|s|] == s;
    }
  }

  function Numbered(base: string, k: nat): string {
    base + "_" + Decimal(k)
  }

  lemma NumberedInjective(base: string, j: nat, k: nat)
    ensures Numbered(base, j) == Numbered(base, k) ==> j == k
  {
    if Numbered(base, j) == Numbered(base, k) {
      assert Decimal(j) == Numbered(base, j)[|base| + 1..] == Numbered(base, k)[|base| + 1..] == Decimal(k);
      ValueOfDecimal(j);
      ValueOfDecimal(k);
    }
  }

  /** Lower-casing a numbered name lower-cases its base and nothing else. */
  lemma LowerNumbered(lc: char -> char, base: string, k: nat)
    requires LowerCasing(lc)
    ensures Lower(lc, Numbered(base, k)) == Numbered(Lower(lc, base), k)
  {
    var d := Decimal(k);
    assert forall i :: 0 <= i < |d| ==> d[i] in d;
  }

  // ----- Searching for an unused suffix -----

  function FirstNumbers(base: string, k: nat): set<string> {
    set j | 0 <= j < k :: Numbered(base, j)
  }

  lemma {:induction false} DistinctNumbers(base: string, k: nat)
    ensures |FirstNumbers(base, k)| == k
  {
    if k > 0 {
      DistinctNumbers(base, k - 1);
      forall j | 0 <= j < k - 1 ensures Numbered(base, j) != Numbered(base, k - 1) {
        NumberedInjective(base, j, k - 1);
      }
      assert FirstNumbers(base, k) == FirstNumbers(base, k - 1) + {Numbered(base, k - 1)};
    }
  }

  lemma SubsetSize<T>(a: set<T>, b: set<T>)
    requires a <= b
    ensures |a| <= |b|
  {
    assert b == a + (b - a);
  }

  /** No more suffixes can be taken than there are names. */
  lemma Pigeonhole(base: string, used: set<string>, k: nat)
    requires forall j :: 0 <= j < k ==> Numbered(base, j) in used
    ensures k <= |used|
  {
    DistinctNumbers(base, k);
    SubsetSize(FirstNumbers(base, k), used);
  }

  /** The least suffix that is not taken. */
  ghost predicate IsFirstFree(base: string, used: set<string>, k: nat) {
    Numbered(base, k) !in used && forall j :: 0 <= j < k ==> Numbered(base, j) in used
  }

  function FirstFreeFrom(base: string, used: set<string>, k: nat): (free: nat)
    requires forall j :: 0 <= j < k ==> Numbered(base, j) in used
    ensures IsFirstFree(base, used, free)
    decreases |used| - k
  {
    if Numbered(base, k) in used then Pigeonhole(base, used, k + 1); FirstFreeFrom(base, used, k + 1) else k
  }

  /** The loop of genChangingColumnUniqueName and genChangingIndexUniqueName: it ends for every set of names. */
  method FirstFree(base: string, used: set<string>) returns (k: nat)
    ensures IsFirstFree(base, used, k)
  {
    k := 0;
    while Numbered(base, k) in used
      invariant forall j :: 0 <= j < k ==> Numbered(base, j) in used
      decreases |used| - k
    {
      Pigeonhole(base, used, k + 1);
      k := k + 1;
    }
  }

  function Names(names: seq<string>): set<string> {
    set n | n in names
  }

  /** The name generated for `name` when the given lower-case names exist. */
  function ChangingName(lc: char -> char, prefix: string, name: string, lowerNames: seq<string>): string {
    Numbered(prefix + name, FirstFreeFrom(Lower(lc, prefix + name), Names(lowerNames), 0))
  }

  /** genChangingColumnUniqueName with COLUMN_PREFIX, genChangingIndexUniqueName with INDEX_PREFIX */
  method GenChangingUniqueName(lc: char -> char, prefix: string, name: string, lowerNames: seq<string>) returns (r: string)
    requires LowerCasing(lc)
    ensures r == ChangingName(lc, prefix, name, lowerNames) && Lower(lc, r) !in lowerNames
  {
    var used: set<string> := {};
    for i := 0 to |lowerNames|
      invariant used == Names(lowerNames[..i])
    {
      assert lowerNames[..i + 1] == lowerNames[..i] + [lowerNames[i]];
      used := used + {lowerNames[i]};
    }
    assert lowerNames[..|lowerNames|] == lowerNames;
    var k := FirstFree(Lower(lc, prefix + name), used);
    r := Numbered(prefix + name, k);
    ChangingNameUnused(lc, prefix, name, lowerNames);
  }

  /** The generated name is unused, whatever the case its letters are written in. */
  lemma ChangingNameUnused(lc: char -> char, prefix: string, name: string, lowerNames: seq<string>)
    requires LowerCasing(lc)
    ensures Lower(lc, ChangingName(lc, prefix, name, lowerNames)) !in lowerNames
  {
    var base, used := Lower(lc, prefix + name), Names(lowerNames);
    var k := FirstFreeFrom(base, used, 0);
    LowerNumbered(lc, prefix + name, k);
    assert Numbered(base, k) !in used;
  }

  // ----- Back to the origin -----

  function TrimPrefix(s: string, prefix: string): string {
    if prefix <= s then s[|prefix|..] else s
  }

  /** The prefix is taken off exactly once, even when nothing else is left; another string is left alone. */
  lemma TrimPrefixUndoes(s: string, prefix: string, rest: string)
    ensures TrimPrefix(prefix + rest, prefix) == rest
    ensures TrimPrefix(s, prefix) == s <==> prefix == [] || !(prefix <= s)
  {
    assert (prefix + rest)[|prefix|..] == rest && prefix <= prefix + rest;
  }

  /** The position of the last occurrence; -1 when there is none. */
  function LastIndex(s: string, c: char): (i: int)
    ensures -1 <= i < |s|
  {
    if s == [] then -1 else if s[|s| - 1] == c then |s| - 1 else LastIndex(s[..|s| - 1], c)
  }

  /** getChangingColumnOriginName and getChangingIndexOriginName */
  function OriginName(prefix: string, s: string): string {
    var name := TrimPrefix(s, prefix);
    var pos := LastIndex(name, '_');
    if pos == -1 then name else name[..pos]
  }

  lemma {:induction false} LastIndexBefore(s: string, c: char, tail: string)
    requires c !in tail
    ensures LastIndex(s + [c] + tail, c) == |s|
    decreases |tail|
  {
    var all := s + [c] + tail;
    if tail == [] {
      assert all[|all| - 1] == c;
    } else {
      var init := tail[..|tail| - 1];
      assert all[|all| - 1] == tail[|tail| - 1];
      assert all[..|all| - 1] == s + [c] + init;
      LastIndexBefore(s, c, init);
    }
  }

  lemma Reassociate(a: string, b: string, c: string)
    ensures (a + b) + c == a + (b + c)
  {
  }

  /** Every generated name leads back to the name it was made from, whatever underscores or prefixes that contains. */
  lemma OriginRoundTrip(lc: char -> char, prefix: string, name: string, lowerNames: seq<string>)
    ensures OriginName(prefix, ChangingName(lc, prefix, name, lowerNames)) == name
  {
    var k := FirstFreeFrom(Lower(lc, prefix + name), Names(lowerNames), 0);
    Reassociate(prefix, name, "_");
    Reassociate(prefix, name + "_", Decimal(k));
    assert TrimPrefix(Numbered(prefix + name, k), prefix) == name + "_" + Decimal(k);
    LastIndexBefore(name, '_', Decimal(k));
  }
}
