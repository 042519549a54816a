/** Ordering by an integer key, shared by the record listing (newest first)
    and the similarity ranking (closest first).

    `SortBy` is a stable insertion sort: elements with equal keys keep the
    order in which they were given. */
module Sorting {

  /** `s` is non-decreasing in `key`. */
  ghost predicate SortedBy<T>(s: seq<T>, key: T -> int) {
    forall i, j :: 0 <= i < j < |s| ==> key(s[i]) <= key(s[j])
  }

  /** Places `x` in front of the first element whose key is not smaller. */
  function Insert<T>(x: T, s: seq<T>, key: T -> int): (r: seq<T>)
    ensures multiset(r) == multiset(s) + multiset{x}
    ensures |r| == |s| + 1
    ensures r[0] == x || (s != [] && r[0] == s[0])
  {
    if s == [] then [x]
    else if key(x) <= key(s[0]) then [x] + s
    else
      assert s == [s[0]] + s[1..];
      [s[0]] + Insert(x, s[1..], key)
  }

  /** Inserting into a sorted sequence keeps it sorted. */
  lemma {:induction false} InsertSorted<T>(x: T, s: seq<T>, key: T -> int)
    requires SortedBy(s, key)
    ensures SortedBy(Insert(x, s, key), key)
  {
    if s != [] && key(x) > key(s[0]) {
      var rest := Insert(x, s[1..], key);
      InsertSorted(x, s[1..], key);
      assert rest[0] == x || rest[0] == s[1];
      HeadSorted(s[0], rest, key);
    } else if s != [] {
      HeadSorted(x, s, key);
    }
  }

  /** A sorted sequence stays sorted under a new head no larger than its own. */
  lemma HeadSorted<T>(h: T, s: seq<T>, key: T -> int)
    requires SortedBy(s, key)
    requires s != [] ==> key(h) <= key(s[0])
    ensures SortedBy([h] + s, key)
  {
    var r := [h] + s;
    forall i, j | 0 <= i < j < |r|
      ensures key(r[i]) <= key(r[j])
    {
      if i > 0 {
        assert r[i] == s[i - 1] && r[j] == s[j - 1];
      } else {
        assert r[j] == s[j - 1];
        assert key(s[0]) <= key(s[j - 1]);
      }
    }
  }

  /** The elements of `s` in non-decreasing key order. */
  function SortBy<T>(s: seq<T>, key: T -> int): (r: seq<T>)
    ensures multiset(r) == multiset(s)
    ensures SortedBy(r, key)
  {
    if s == [] then []
    else
      assert s == [s[0]] + s[1..];
      InsertSorted(s[0], SortBy(s[1..], key), key);
      Insert(s[0], SortBy(s[1..], key), key)
  }

  /** The first `limit` elements, or all of them when `limit` is negative
      or exceeds the length (SQLite's `LIMIT` semantics). */
  function Take<T>(s: seq<T>, limit: int): (r: seq<T>)
    ensures |r| == if limit < 0 || limit > |s| then |s| else limit
    ensures r == s[..|r|]
  {
    if limit < 0 || limit > |s| then s else s[..limit]
  }

  /** Cutting a sorted sequence keeps it sorted, keeps only elements of the
      input, and everything cut away ranks no better than anything kept. */
  lemma {:induction false} TakeOfSorted<T>(s: seq<T>, key: T -> int, limit: int)
    requires SortedBy(s, key)
    ensures SortedBy(Take(s, limit), key)
    ensures multiset(Take(s, limit)) <= multiset(s)
    ensures forall a, b :: a in Take(s, limit) && b in multiset(s) - multiset(Take(s, limit)) ==> key(a) <= key(b)
  {
    var r := Take(s, limit);
    var n := |r|;
    assert s == r + s[n..];
    assert multiset(s) == multiset(r) + multiset(s[n..]);
    forall a, b | a in r && b in multiset(s) - multiset(r)
      ensures key(a) <= key(b)
    {
      assert b in multiset(s[n..]);
      SortedSplit(s, key, n, a, b);
    }
  }

  /** In a sorted sequence, an element before a cut ranks no worse than an
      element after it. */
  lemma SortedSplit<T>(s: seq<T>, key: T -> int, n: nat, a: T, b: T)
    requires SortedBy(s, key)
    requires n <= |s| && a in s[..n] && b in s[n..]
    ensures key(a) <= key(b)
  {
    var i :| 0 <= i < n && s[..n][i] == a;
    var j :| 0 <= j < |s| - n && s[n..][j] == b;
    assert s[i] == a && s[n + j] == b;
  }
}
