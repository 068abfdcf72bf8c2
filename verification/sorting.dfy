/** Ordering by an integer key: the `ORDER BY ... DESC/ASC` of the store's queries and the
    comparator sorts of the page controllers. */
module Sorting {

  ghost predicate SortedDesc<T>(s: seq<T>, key: T -> int) {
    forall i, j :: 0 <= i < j < |s| ==> key(s[i]) >= key(s[j])
  }

  ghost predicate SortedAsc<T>(s: seq<T>, key: T -> int) {
    forall i, j :: 0 <= i < j < |s| ==> key(s[i]) <= key(s[j])
  }

  /** Puts `x` into the descending sequence `s`, before the first element whose key is not larger. */
  function InsertDesc<T>(x: T, s: seq<T>, key: T -> int): (r: seq<T>)
    requires SortedDesc(s, key)
    ensures multiset(r) == multiset(s) + multiset{x}
    ensures SortedDesc(r, key)
  {
    if s == [] || key(x) >= key(s[0]) then
      ConsDesc(x, s, key);
      [x] + s
    else
      assert s == [s[0]] + s[1..];
      var tail := InsertDesc(x, s[1..], key);
      HeadDominates(s[0], x, s[1..], tail, key);
      ConsDesc(s[0], tail, key);
      [s[0]] + tail
  }

  /** A head whose key is no smaller than every key of a descending sequence keeps it descending. */
  lemma ConsDesc<T>(h: T, s: seq<T>, key: T -> int)
    requires SortedDesc(s, key)
    requires forall k :: 0 <= k < |s| ==> key(h) >= key(s[k])
    ensures SortedDesc([h] + s, key)
  {
  }

  /** Every element of `tail`, being `x` or an element of `rest`, has a key no larger than `h`'s. */
  lemma HeadDominates<T>(h: T, x: T, rest: seq<T>, tail: seq<T>, key: T -> int)
    requires key(x) < key(h)
    requires forall k :: 0 <= k < |rest| ==> key(h) >= key(rest[k])
    requires multiset(tail) == multiset(rest) + multiset{x}
    ensures forall k :: 0 <= k < |tail| ==> key(h) >= key(tail[k])
  {
    forall k | 0 <= k < |tail|
      ensures key(h) >= key(tail[k])
    {
      var y := tail[k];
      assert y in multiset(tail);
      if y != x {
        assert y in multiset(rest);
        var j :| 0 <= j < |rest| && rest[j] == y;
      }
    }
  }

  /** A stable sort, largest key first. */
  function SortDesc<T>(s: seq<T>, key: T -> int): (r: seq<T>)
    ensures multiset(r) == multiset(s)
    ensures |r| == |s|
    ensures SortedDesc(r, key)
  {
    if s == [] then []
    else
      assert s == [s[0]] + s[1..];
      InsertDesc(s[0], SortDesc(s[1..], key), key)
  }

  function Negated<T>(key: T -> int): T -> int {
    (x: T) => -key(x)
  }

  /** A stable sort, smallest key first. */
  function SortAsc<T>(s: seq<T>, key: T -> int): (r: seq<T>)
    ensures multiset(r) == multiset(s)
    ensures |r| == |s|
    ensures SortedAsc(r, key)
  {
    var r := SortDesc(s, Negated(key));
    assert forall i, j :: 0 <= i < j < |r| ==> Negated(key)(r[i]) >= Negated(key)(r[j]);
    r
  }

  /** The elements whose key is `k`, in their order in `s`. */
  function WithKey<T>(s: seq<T>, key: T -> int, k: int): seq<T> {
    if s == [] then []
    else (if key(s[0]) == k then [s[0]] else []) + WithKey(s[1..], key, k)
  }

  lemma WithKeyCons<T>(x: T, s: seq<T>, key: T -> int, k: int)
    ensures WithKey([x] + s, key, k) == (if key(x) == k then [x] else []) + WithKey(s, key, k)
  {
    assert ([x] + s)[0] == x && ([x] + s)[1..] == s;
  }

  /** Inserting `x` puts it in front of every element with the same key. */
  lemma {:induction false} InsertKeeps<T>(x: T, s: seq<T>, key: T -> int, k: int)
    requires SortedDesc(s, key)
    ensures WithKey(InsertDesc(x, s, key), key, k) == (if key(x) == k then [x] else []) + WithKey(s, key, k)
  {
    if s == [] || key(x) >= key(s[0]) {
      WithKeyCons(x, s, key, k);
    } else {
      var t := s[1..];
      assert SortedDesc(t, key);
      var tail := InsertDesc(x, t, key);
      assert InsertDesc(x, s, key) == [s[0]] + tail;
      InsertKeeps(x, t, key, k);
      WithKeyCons(s[0], tail, key, k);
      WithKeyCons(s[0], t, key, k);
      assert s == [s[0]] + t;
      // x and s[0] have different keys, so at most one of them is kept.
      assert key(x) == k ==> key(s[0]) != k;
    }
  }

  /** The sort is stable: the elements of any one key come out in their input order. */
  lemma {:induction false} SortDescStable<T>(s: seq<T>, key: T -> int, k: int)
    ensures WithKey(SortDesc(s, key), key, k) == WithKey(s, key, k)
  {
    if s != [] {
      SortDescStable(s[1..], key, k);
      InsertKeeps(s[0], SortDesc(s[1..], key), key, k);
      WithKeyCons(s[0], s[1..], key, k);
      assert s == [s[0]] + s[1..];
    }
  }

  /** Negating the key groups the same elements. */
  lemma {:induction false} WithNegatedKey<T>(s: seq<T>, key: T -> int, k: int)
    ensures WithKey(s, Negated(key), -k) == WithKey(s, key, k)
  {
    if s != [] {
      WithNegatedKey(s[1..], key, k);
    }
  }

  /** The ascending sort is stable too. */
  lemma SortAscStable<T>(s: seq<T>, key: T -> int, k: int)
    ensures WithKey(SortAsc(s, key), key, k) == WithKey(s, key, k)
  {
    SortDescStable(s, Negated(key), -k);
    WithNegatedKey(SortAsc(s, key), key, k);
    WithNegatedKey(s, key, k);
  }

  /** Sequences holding the same elements have the same members. */
  lemma SameMembers<T>(a: seq<T>, b: seq<T>)
    requires multiset(a) == multiset(b)
    ensures forall x :: x in a <==> x in b
  {
    forall x ensures x in a <==> x in b {
      assert x in a <==> x in multiset(a);
      assert x in b <==> x in multiset(b);
    }
  }

  /** Sorting a sequence that is already sorted leaves it as it is. */
  lemma {:induction false} SortSortedKeeps<T>(s: seq<T>, key: T -> int)
    requires SortedDesc(s, key)
    ensures SortDesc(s, key) == s
  {
    if s != [] {
      assert SortedDesc(s[1..], key);
      SortSortedKeeps(s[1..], key);
      assert forall k :: 0 <= k < |s[1..]| ==> key(s[0]) >= key(s[1..][k]);
      assert s == [s[0]] + s[1..];
    }
  }
}
