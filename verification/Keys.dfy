/** Keys of the key-value store: byte strings in lexicographic order (kv/key.go). */
module Keys {

  type byte = x: int | 0 <= x < 256

  type Key = seq<byte>

  /** bytes.Compare(a, b) < 0 */
  predicate Lt(a: Key, b: Key) {
    b != [] && (a == [] || a[0] < b[0] || (a[0] == b[0] && Lt(a[1..], b[1..])))
  }

  predicate Le(a: Key, b: Key) {
    a == b || Lt(a, b)
  }

  /** Key.Next: append a zero byte. */
  function Next(k: Key): Key {
    k + [0]
  }

  predicate HasPrefix(k: Key, prefix: Key) {
    |prefix| <= |k| && k[..|prefix|] == prefix
  }

  lemma {:induction false} LtIrreflexive(a: Key)
    ensures !Lt(a, a)
  {
    if a != [] { LtIrreflexive(a[1..]); }
  }

  lemma {:induction false} LtTransitive(a: Key, b: Key, c: Key)
    requires Lt(a, b) && Lt(b, c)
    ensures Lt(a, c)
  {
    if a != [] && a[0] == b[0] && b[0] == c[0] { LtTransitive(a[1..], b[1..], c[1..]); }
  }

  lemma {:induction false} LtTotal(a: Key, b: Key)
    ensures Lt(a, b) || a == b || Lt(b, a)
  {
    if a != [] && b != [] && a[0] == b[0] {
      LtTotal(a[1..], b[1..]);
      assert a == [a[0]] + a[1..] && b == [b[0]] + b[1..];
    }
  }

  lemma Asymmetric(a: Key, b: Key)
    requires Le(a, b)
    ensures !Lt(b, a)
    ensures Lt(a, b) ==> !Le(b, a)
  {
    LtIrreflexive(a);
    LtIrreflexive(b);
    if Lt(a, b) && Lt(b, a) { LtTransitive(a, b, a); }
  }

  /** No key lies strictly between k and Next(k). */
  lemma {:induction false} NextIsSuccessor(a: Key, k: Key)
    ensures Lt(a, Next(k)) <==> Le(a, k)
  {
    if a == [] {
    } else if k == [] {
      assert Next(k) == [0];
      assert !Lt(a[1..], []);
    } else {
      assert Next(k)[1..] == Next(k[1..]);
      NextIsSuccessor(a[1..], k[1..]);
      assert a == [a[0]] + a[1..] && k == [k[0]] + k[1..];
    }
  }

  /** The keys that carry a prefix are an interval of the key order. */
  lemma {:induction false} PrefixInterval(prefix: Key, lo: Key, k: Key, hi: Key)
    requires HasPrefix(lo, prefix) && HasPrefix(hi, prefix)
    requires Le(lo, k) && Le(k, hi)
    ensures HasPrefix(k, prefix)
  {
    if prefix != [] && k != lo && k != hi {
      assert lo[0] == prefix[0] == hi[0] && k[0] == prefix[0];
      assert HasPrefix(lo[1..], prefix[1..]) by { assert lo[1..][..|prefix[1..]|] == lo[..|prefix|][1..]; }
      assert HasPrefix(hi[1..], prefix[1..]) by { assert hi[1..][..|prefix[1..]|] == hi[..|prefix|][1..]; }
      PrefixInterval(prefix[1..], lo[1..], k[1..], hi[1..]);
      assert k[..|prefix|] == [k[0]] + k[1..][..|prefix[1..]|];
      assert prefix == [prefix[0]] + prefix[1..];
    }
  }

  predicate AllMax(k: Key) {
    forall b :: b in k ==> b == 255
  }

  /** Key.PrefixNext: the key incremented with carry, or with a zero byte appended when every byte is 255. */
  function PrefixNext(k: Key): Key {
    if AllMax(k) then k + [0] else Carry(k)
  }

  /** Increment the last byte; a byte that overflows becomes zero, stays in place and carries. */
  function Carry(k: Key): Key
    requires !AllMax(k)
  {
    var n := |k| - 1;
    assert k == k[..n] + [k[n]];
    if k[n] != 255 then k[n := k[n] + 1] else Carry(k[..n]) + [0]
  }

  lemma {:induction false} LtAppend(a: Key, b: Key, x: Key, y: Key)
    requires |a| == |b| && Lt(a, b)
    ensures Lt(a + x, b + y)
  {
    if a[0] == b[0] {
      assert (a + x)[1..] == a[1..] + x && (b + y)[1..] == b[1..] + y;
      LtAppend(a[1..], b[1..], x, y);
    }
  }

  lemma {:induction false} LtCommonPrefix(p: Key, a: Key, b: Key)
    requires Lt(a, b)
    ensures Lt(p + a, p + b)
  {
    if p == [] {
      assert p + a == a && p + b == b;
    } else {
      assert (p + a)[1..] == p[1..] + a && (p + b)[1..] == p[1..] + b;
      LtCommonPrefix(p[1..], a, b);
    }
  }

  lemma {:induction false} CarryGreater(k: Key)
    requires !AllMax(k)
    ensures |Carry(k)| == |k| && Lt(k, Carry(k))
  {
    var n := |k| - 1;
    assert k == k[..n] + [k[n]];
    if k[n] != 255 {
      LtCommonPrefix(k[..n], [k[n]], [k[n] + 1]);
      assert Carry(k) == k[..n] + [k[n] + 1];
    } else {
      CarryGreater(k[..n]);
      LtAppend(k[..n], Carry(k[..n]), [k[n]], [0]);
    }
  }

  lemma PrefixNextGreater(k: Key)
    ensures Lt(k, PrefixNext(k))
  {
    if AllMax(k) {
      NextIsSuccessor(k, k);
    } else {
      CarryGreater(k);
    }
  }

  /** A snapshot of the store, in iteration order. */
  predicate Sorted(s: seq<Key>) {
    forall i, j :: 0 <= i < j < |s| ==> Lt(s[i], s[j])
  }

  /** Position of the first key of s that is not below k. */
  function Rank(s: seq<Key>, k: Key): (r: nat)
    ensures r <= |s|
  {
    if s == [] || !Lt(s[0], k) then 0 else 1 + Rank(s[1..], k)
  }

  lemma {:induction false} RankCounts(s: seq<Key>, k: Key)
    requires Sorted(s)
    ensures forall i :: 0 <= i < |s| ==> (i < Rank(s, k) <==> Lt(s[i], k))
  {
    if s != [] {
      if Lt(s[0], k) {
        RankCounts(s[1..], k);
        assert forall i :: 0 < i < |s| ==> s[i] == s[1..][i - 1];
      } else {
        forall i | 0 <= i < |s| && Lt(s[i], k)
          ensures false
        {
          if i > 0 { LtTransitive(s[0], s[i], k); }
        }
      }
    }
  }

  lemma RankMonotone(s: seq<Key>, a: Key, b: Key)
    requires Sorted(s) && Le(a, b)
    ensures Rank(s, a) <= Rank(s, b)
  {
    RankCounts(s, a);
    RankCounts(s, b);
    var r := Rank(s, b);
    if r < Rank(s, a) && Lt(a, b) { LtTransitive(s[r], a, b); }
  }

  /** Keys below Next(k) are the keys at most k. */
  lemma RankNext(s: seq<Key>, k: Key)
    requires Sorted(s)
    ensures Rank(s, Next(k)) == if k in s then Rank(s, k) + 1 else Rank(s, k)
    ensures k in s ==> s[Rank(s, k)] == k
  {
    RankCounts(s, k);
    RankCounts(s, Next(k));
    var r, n := Rank(s, k), Rank(s, Next(k));
    NextIsSuccessor(k, k);
    LtIrreflexive(k);
    RankMonotone(s, k, Next(k));
    if n > r {
      NextIsSuccessor(s[r], k);
      assert s[r] == k;
      if n > r + 1 { NextIsSuccessor(s[r + 1], k); }
    }
    if k in s {
      var i :| 0 <= i < |s| && s[i] == k;
    }
  }

  lemma RankOfMember(s: seq<Key>, i: nat)
    requires Sorted(s) && i < |s|
    ensures Rank(s, s[i]) == i && Rank(s, Next(s[i])) == i + 1
  {
    RankCounts(s, s[i]);
    LtIrreflexive(s[i]);
    assert i > 0 ==> Lt(s[i - 1], s[i]);
    RankNext(s, s[i]);
  }
}
