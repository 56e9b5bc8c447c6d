/** Python's `sorted(..., key=...)` on a list: a stable sort by a key. */
module Sorting {

  predicate SortedBy<T>(s: seq<T>, key: T -> real)
  {
    forall i, j :: 0 <= i < j < |s| ==> key(s[i]) <= key(s[j])
  }

  /** Puts `x` in front of the first element whose key is not smaller. */
  function Insert<T(==)>(x: T, t: seq<T>, key: T -> real): (r: seq<T>)
    requires SortedBy(t, key)
    ensures SortedBy(r, key)
    ensures multiset(r) == multiset(t) + multiset{x}
    ensures r[0] == x || (t != [] && r[0] == t[0])
    decreases |t|
  {
    if t == [] || key(x) <= key(t[0]) then
      ConsSorted(x, t, key);
      [x] + t
    else
      var rest := Insert(x, t[1..], key);
      assert t == [t[0]] + t[1..];
      ConsSorted(t[0], rest, key);
      [t[0]] + rest
  }

  /** An element no larger than the head of a sorted list keeps it sorted in front. */
  lemma ConsSorted<T>(h: T, s: seq<T>, key: T -> real)
    requires SortedBy(s, key) && (s != [] ==> key(h) <= key(s[0]))
    ensures SortedBy([h] + s, key)
  {
    var r := [h] + s;
    forall i, j | 0 <= i < j < |r|
      ensures key(r[i]) <= key(r[j])
    {
      if i == 0 && j > 1 {
        assert key(s[0]) <= key(s[j - 1]);
      }
    }
  }

  /** An insertion sort: sorted by `key` and a permutation of `s`. Each element is
      inserted in front of the elements with an equal key that come after it in `s`,
      so ties keep their order. */
  function SortBy<T(==)>(s: seq<T>, key: T -> real): (r: seq<T>)
    ensures SortedBy(r, key)
    ensures multiset(r) == multiset(s)
    decreases |s|
  {
    if s == [] then []
    else
      assert s == [s[0]] + s[1..];
      Insert(s[0], SortBy(s[1..], key), key)
  }

  /** The entries of `s` whose key is `v`, in order. */
  function WithKey<T>(s: seq<T>, key: T -> real, v: real): seq<T>
  {
    if s == [] then [] else (if key(s[0]) == v then [s[0]] else []) + WithKey(s[1..], key, v)
  }

  /** Inserting `x` puts it in front of the entries of its own key. */
  lemma {:induction false} InsertStable<T>(x: T, t: seq<T>, key: T -> real, v: real)
    requires SortedBy(t, key)
    ensures WithKey(Insert(x, t, key), key, v) == (if key(x) == v then [x] else []) + WithKey(t, key, v)
    decreases |t|
  {
    if t != [] && key(x) > key(t[0]) {
      assert SortedBy(t[1..], key);
      InsertStable(x, t[1..], key, v);
      var rest := Insert(x, t[1..], key);
      assert ([t[0]] + rest)[1..] == rest;
    }
  }

  /** SortBy is stable: among the entries of one key, the order of `s` is kept. */
  lemma {:induction false} SortByStable<T>(s: seq<T>, key: T -> real, v: real)
    ensures WithKey(SortBy(s, key), key, v) == WithKey(s, key, v)
    decreases |s|
  {
    if s != [] {
      SortByStable(s[1..], key, v);
      InsertStable(s[0], SortBy(s[1..], key), key, v);
    }
  }

  /** Entries all of key `v` are kept as they are. */
  lemma {:induction false} WithKeyAll<T>(s: seq<T>, key: T -> real, v: real)
    requires forall i :: 0 <= i < |s| ==> key(s[i]) == v
    ensures WithKey(s, key, v) == s
  {
    if s != [] {
      WithKeyAll(s[1..], key, v);
    }
  }

  /** When every key is the same, sorting changes nothing. */
  lemma SortByUniform<T>(s: seq<T>, key: T -> real, v: real)
    requires forall i :: 0 <= i < |s| ==> key(s[i]) == v
    ensures SortBy(s, key) == s
  {
    var r := SortBy(s, key);
    forall i | 0 <= i < |r|
      ensures key(r[i]) == v
    {
      assert r[i] in multiset(r);
      var j :| 0 <= j < |s| && s[j] == r[i];
    }
    SortByStable(s, key, v);
    WithKeyAll(s, key, v);
    WithKeyAll(r, key, v);
  }
}
