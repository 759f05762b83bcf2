/** Go's sort.Slice by an integer key. It is not stable, so all a caller may rely on
    is that some ascending permutation comes back. */
module Sorting {
  predicate Ascending<T>(s: seq<T>, key: T -> int) {
    forall i, j | 0 <= i < j < |s| :: key(s[i]) <= key(s[j])
  }

  predicate StrictlyAscending<T>(s: seq<T>, key: T -> int) {
    forall i, j | 0 <= i < j < |s| :: key(s[i]) < key(s[j])
  }

  predicate DistinctBy<T>(s: seq<T>, key: T -> int) {
    forall i, j | 0 <= i < j < |s| :: key(s[i]) != key(s[j])
  }

  function Placed<T>(s: seq<T>, x: T, key: T -> int): (r: seq<T>)
    requires Ascending(s, key)
    ensures multiset(r) == multiset(s) + multiset{x} && Ascending(r, key)
  {
    if s == [] then [x]
    else
      var n := |s| - 1;
      assert s == s[..n] + [s[n]];
      if key(s[n]) <= key(x) then s + [x]
      else
        var r := Placed(s[..n], x, key);
        PlacedBelow(s, x, key, r);
        r + [s[n]]
  }

  lemma PlacedBelow<T>(s: seq<T>, x: T, key: T -> int, r: seq<T>)
    requires s != [] && Ascending(s, key) && key(x) < key(s[|s| - 1])
    requires multiset(r) == multiset(s[..|s| - 1]) + multiset{x}
    ensures forall i | 0 <= i < |r| :: key(r[i]) <= key(s[|s| - 1])
  {
    forall i | 0 <= i < |r| ensures key(r[i]) <= key(s[|s| - 1]) {
      assert r[i] in multiset(r);
      assert r[i] in s[..|s| - 1] || r[i] == x;
    }
  }

  method SortSlice<T>(s: seq<T>, key: T -> int) returns (r: seq<T>)
    ensures multiset(r) == multiset(s) && Ascending(r, key)
  {
    r := [];
    for i := 0 to |s|
      invariant multiset(r) == multiset(s[..i]) && Ascending(r, key)
    {
      assert s[..i + 1] == s[..i] + [s[i]];
      r := Placed(r, s[i], key);
    }
    assert s[..|s|] == s;
  }

  /** With distinct keys there is only one ascending permutation. */
  lemma {:induction false} SortIsUnique<T>(s: seq<T>, t: seq<T>, key: T -> int)
    requires multiset(s) == multiset(t) && StrictlyAscending(s, key) && StrictlyAscending(t, key)
    ensures s == t
  {
    SameLength(s, t);
    if s != [] {
      var n := |s| - 1;
      SameLast(s, t, key);
      FrontAscends(s, key);
      FrontAscends(t, key);
      SortIsUnique(FrontOf(s), FrontOf(t), key);
      SameFrontSameSeq(s, t);
    }
  }

  lemma SameFrontSameSeq<T>(s: seq<T>, t: seq<T>)
    requires s != [] && t != [] && FrontOf(s) == FrontOf(t) && s[|s| - 1] == t[|t| - 1]
    ensures s == t
  {
    assert s == FrontOf(s) + [s[|s| - 1]];
    assert t == FrontOf(t) + [t[|t| - 1]];
  }

  function FrontOf<T>(s: seq<T>): (r: seq<T>)
    requires s != []
    ensures r == s[..|s| - 1] && multiset(r) == multiset(s) - multiset{s[|s| - 1]}
  {
    var n := |s| - 1;
    assert s == s[..n] + [s[n]];
    s[..n]
  }

  lemma FrontAscends<T>(s: seq<T>, key: T -> int)
    requires s != [] && StrictlyAscending(s, key)
    ensures StrictlyAscending(FrontOf(s), key)
  {
  }

  lemma SameLength<T>(s: seq<T>, t: seq<T>)
    requires multiset(s) == multiset(t)
    ensures |s| == |t|
  {
    assert |s| == |multiset(s)|;
  }

  lemma SameLast<T>(s: seq<T>, t: seq<T>, key: T -> int)
    requires s != [] && |s| == |t| && multiset(s) == multiset(t)
    requires StrictlyAscending(s, key) && StrictlyAscending(t, key)
    ensures s[|s| - 1] == t[|t| - 1]
  {
    LastIsLargest(s, t, key);
    LastIsLargest(t, s, key);
    assert s[|s| - 1] in multiset(t);
    var j :| 0 <= j < |t| && t[j] == s[|s| - 1];
  }

  lemma LastIsLargest<T>(s: seq<T>, t: seq<T>, key: T -> int)
    requires s != [] && multiset(s) == multiset(t) && StrictlyAscending(s, key)
    ensures forall j | 0 <= j < |t| :: key(t[j]) <= key(s[|s| - 1])
  {
    forall j | 0 <= j < |t| ensures key(t[j]) <= key(s[|s| - 1]) {
      assert t[j] in multiset(s);
    }
  }

  /** Having distinct keys does not depend on the order. */
  lemma DistinctInAnyOrder<T>(s: seq<T>, t: seq<T>, key: T -> int)
    requires multiset(s) == multiset(t) && DistinctBy(s, key)
    ensures DistinctBy(t, key)
  {
    forall i, j | 0 <= i < j < |t| ensures key(t[i]) != key(t[j]) {
      OccursOnce(s, t[i], key);
      if t[i] == t[j] {
        OccursTwice(t, i, j);
      } else {
        assert t[i] in multiset(s) && t[j] in multiset(s);
        var a :| 0 <= a < |s| && s[a] == t[i];
        var b :| 0 <= b < |s| && s[b] == t[j];
      }
    }
  }

  lemma OccursOnce<T>(s: seq<T>, x: T, key: T -> int)
    requires DistinctBy(s, key)
    ensures multiset(s)[x] <= 1
  {
    if s != [] {
      var n := |s| - 1;
      assert s == s[..n] + [s[n]];
      OccursOnce(s[..n], x, key);
      if x == s[n] {
        assert x !in s[..n];
      }
    }
  }

  lemma OccursTwice<T>(t: seq<T>, i: nat, j: nat)
    requires i < j < |t| && t[i] == t[j]
    ensures multiset(t)[t[i]] >= 2
  {
    assert t == t[..i] + [t[i]] + t[i + 1..j] + [t[j]] + t[j + 1..];
  }
}
