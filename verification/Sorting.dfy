// Removing elements from lists, and sorting by an integer key, as sort_unstable and sort_unstable_by_key do.
//
// An unstable sort may return any ordered permutation, so the specification is the relation
// "ordered and a permutation"; SortBy is one implementation of it.
module Sorting {

  predicate SortedBy<T(!new)>(key: T -> int, s: seq<T>) {
    forall i, j :: 0 <= i < j < |s| ==> key(s[i]) <= key(s[j])
  }

  function InsertBy<T(!new)>(key: T -> int, x: T, s: seq<T>): (r: seq<T>)
    requires SortedBy(key, s)
    ensures SortedBy(key, r) && multiset(r) == multiset(s) + multiset{x}
    decreases |s|
  {
    if s == [] || key(s[|s| - 1]) <= key(x) then
      LastInserted(key, x, s);
      s + [x]
    else
      var n := |s| - 1;
      assert s == s[..n] + [s[n]];
      var rest := InsertBy(key, x, s[..n]);
      LastAbove(key, x, s, rest);
      rest + [s[n]]
  }

  lemma LastInserted<T(!new)>(key: T -> int, x: T, s: seq<T>)
    requires SortedBy(key, s) && (s == [] || key(s[|s| - 1]) <= key(x))
    ensures SortedBy(key, s + [x])
  {
  }

  lemma LastAbove<T(!new)>(key: T -> int, x: T, s: seq<T>, rest: seq<T>)
    requires s != [] && SortedBy(key, s) && key(x) < key(s[|s| - 1]) && SortedBy(key, rest)
    requires multiset(rest) == multiset(s[..|s| - 1]) + multiset{x}
    ensures SortedBy(key, rest + [s[|s| - 1]])
  {
    forall i | 0 <= i < |rest|
      ensures key(rest[i]) <= key(s[|s| - 1])
    {
      assert rest[i] in multiset(rest);
      if rest[i] != x {
        assert rest[i] in multiset(s[..|s| - 1]);
        var j :| 0 <= j < |s| - 1 && s[j] == rest[i];
      }
    }
  }

  /** An ordered permutation of s. */
  function SortBy<T(!new)>(key: T -> int, s: seq<T>): (r: seq<T>)
    ensures SortedBy(key, r) && multiset(r) == multiset(s) && |r| == |s|
  {
    if s == [] then []
    else
      var n := |s| - 1;
      assert s == s[..n] + [s[n]];
      var r := InsertBy(key, s[n], SortBy(key, s[..n]));
      assert |multiset(r)| == |multiset(s)|;
      r
  }

  /** Elements with equal keys are equal. */
  ghost predicate KeyDetermines<T(!new)>(key: T -> int, s: seq<T>) {
    forall i, j :: 0 <= i < |s| && 0 <= j < |s| && key(s[i]) == key(s[j]) ==> s[i] == s[j]
  }

  lemma RemoveLast<T>(s: seq<T>)
    requires s != []
    ensures multiset(s[..|s| - 1]) == multiset(s) - multiset{s[|s| - 1]}
  {
    assert s == s[..|s| - 1] + [s[|s| - 1]];
  }

  /** The list without its i-th element. */
  function RemoveAt<T>(s: seq<T>, i: nat): (r: seq<T>)
    requires i < |s|
    ensures |r| == |s| - 1
  {
    s[..i] + s[i + 1..]
  }

  lemma RemoveOne<T>(s: seq<T>, i: nat)
    requires i < |s|
    ensures s[i] in multiset(s) && multiset(RemoveAt(s, i)) == multiset(s) - multiset{s[i]}
  {
    assert s == s[..i] + [s[i]] + s[i + 1..];
  }

  /** Where the last element of a list is in a permutation of it, and that the rests are permutations too. */
  lemma LocateLast<T>(s: seq<T>, t: seq<T>) returns (k: nat)
    requires s != [] && multiset(s) == multiset(t)
    ensures k < |t| && t[k] == s[|s| - 1]
    ensures multiset(s[..|s| - 1]) == multiset(RemoveAt(t, k))
  {
    var n := |s| - 1;
    assert s[n] in multiset(t);
    k := Occurs(s[n], t);
    RemoveLast(s);
    RemoveOne(t, k);
  }

  lemma Occurs<T>(x: T, s: seq<T>) returns (i: nat)
    requires x in multiset(s)
    ensures i < |s| && s[i] == x
  {
    i :| 0 <= i < |s| && s[i] == x;
  }

  lemma SameLast<T(!new)>(key: T -> int, s: seq<T>, t: seq<T>)
    requires SortedBy(key, s) && SortedBy(key, t) && multiset(s) == multiset(t) && KeyDetermines(key, s)
    requires |s| == |t| > 0
    ensures s[|s| - 1] == t[|t| - 1]
  {
    var n := |s| - 1;
    assert s[n] in multiset(s) && t[n] in multiset(t);
    var i := Occurs(s[n], t);
    var j := Occurs(t[n], s);
    assert i == n || key(t[i]) <= key(t[n]);
    assert j == n || key(s[j]) <= key(s[n]);
  }

  lemma PrefixKeeps<T(!new)>(key: T -> int, s: seq<T>)
    requires SortedBy(key, s) && s != []
    ensures SortedBy(key, s[..|s| - 1]) && (KeyDetermines(key, s) ==> KeyDetermines(key, s[..|s| - 1]))
  {
  }

  /** If keys determine elements there is only one ordered permutation. */
  lemma {:induction false} SortedUnique<T(!new)>(key: T -> int, s: seq<T>, t: seq<T>)
    requires SortedBy(key, s) && SortedBy(key, t) && multiset(s) == multiset(t) && KeyDetermines(key, s)
    ensures s == t
    decreases |s|
  {
    hide SortedBy, KeyDetermines;
    assert |multiset(s)| == |multiset(t)|;
    if s != [] {
      SameLast(key, s, t);
      RemoveLast(s);
      RemoveLast(t);
      PrefixKeeps(key, s);
      PrefixKeeps(key, t);
      SortedUnique(key, s[..|s| - 1], t[..|t| - 1]);
      Rejoin(s);
      Rejoin(t);
    }
  }

  lemma Rejoin<T>(s: seq<T>)
    requires s != []
    ensures s == s[..|s| - 1] + [s[|s| - 1]]
  {
  }

  /** Sorting the permutations of a list gives one result, if keys determine elements. */
  lemma SortIsCanonical<T(!new)>(key: T -> int, s: seq<T>, t: seq<T>)
    requires multiset(s) == multiset(t) && KeyDetermines(key, s)
    ensures SortBy(key, s) == SortBy(key, t)
  {
    hide SortBy;
    DeterminesTransfer(key, s, SortBy(key, s));
    SortedUnique(key, SortBy(key, s), SortBy(key, t));
  }

  lemma DeterminesTransfer<T(!new)>(key: T -> int, s: seq<T>, t: seq<T>)
    requires KeyDetermines(key, s) && multiset(s) == multiset(t)
    ensures KeyDetermines(key, t)
  {
    forall i, j | 0 <= i < |t| && 0 <= j < |t| && key(t[i]) == key(t[j])
      ensures t[i] == t[j]
    {
      assert t[i] in multiset(t) && t[j] in multiset(t);
      var p := Occurs(t[i], s);
      var q := Occurs(t[j], s);
    }
  }

  lemma SwapEqualKeys<T(!new)>(key: T -> int, a: seq<T>, p: nat, q: nat)
    requires SortedBy(key, a) && p < |a| && q < |a| && key(a[p]) == key(a[q])
    ensures SortedBy(key, a[p := a[q]][q := a[p]]) && multiset(a[p := a[q]][q := a[p]]) == multiset(a)
  {
  }

  /**
   * The order is canonical only if keys determine elements: otherwise the same list has two
   * different ordered permutations, and an unstable sort may return either.
   */
  lemma TiesAreAmbiguous<T(!new)>(key: T -> int, s: seq<T>) returns (a: seq<T>, b: seq<T>)
    requires !KeyDetermines(key, s)
    ensures SortedBy(key, a) && SortedBy(key, b) && multiset(a) == multiset(b) == multiset(s) && a != b
  {
    hide SortBy, SortedBy;
    var i, j :| 0 <= i < |s| && 0 <= j < |s| && key(s[i]) == key(s[j]) && s[i] != s[j];
    a := SortBy(key, s);
    assert s[i] in multiset(s) && s[j] in multiset(s);
    var p := Occurs(s[i], a);
    var q := Occurs(s[j], a);
    SwapEqualKeys(key, a, p, q);
    b := a[p := a[q]][q := a[p]];
    assert b[p] != a[p];
  }
}
