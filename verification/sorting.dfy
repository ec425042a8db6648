/** A stable descending sort on an integer-pair key: the model of every
    `ORDER BY … DESC` and of Python's `sorted(…, key=lambda x: -k(x))`. */
module Sorting {
  import opened Base

  type Key = (int, int)

  /** Lexicographic `a >= b`. */
  predicate KeyGe(a: Key, b: Key) {
    a.0 > b.0 || (a.0 == b.0 && a.1 >= b.1)
  }

  /** Keys never increase along `s`. */
  predicate SortedDesc<T>(s: seq<T>, key: T -> Key) {
    forall i, j :: 0 <= i < j < |s| ==> KeyGe(key(s[i]), key(s[j]))
  }

  /** Every key in `s` is at most `k`. */
  predicate AllAtMost<T>(s: seq<T>, key: T -> Key, k: Key) {
    forall i :: 0 <= i < |s| ==> KeyGe(k, key(s[i]))
  }

  /** Puts `x` in front of the first element whose key it reaches, so that
      `x` precedes every element of equal key already in `s`. */
  function Insert<T>(x: T, s: seq<T>, key: T -> Key): (r: seq<T>)
    ensures |r| == |s| + 1
    ensures multiset(r) == multiset(s) + multiset{x}
    decreases |s|
  {
    if |s| == 0 || KeyGe(key(x), key(s[0])) then [x] + s
    else
      assert s == [s[0]] + s[1..];
      [s[0]] + Insert(x, s[1..], key)
  }

  lemma {:induction false} InsertAtMost<T>(x: T, s: seq<T>, key: T -> Key, k: Key)
    requires AllAtMost(s, key, k) && KeyGe(k, key(x))
    ensures AllAtMost(Insert(x, s, key), key, k)
    decreases |s|
  {
    if |s| > 0 && !KeyGe(key(x), key(s[0])) {
      InsertAtMost(x, s[1..], key, k);
    }
  }

  /** Inserting into a descending sequence keeps it descending. */
  lemma {:induction false} InsertSorted<T>(x: T, s: seq<T>, key: T -> Key)
    requires SortedDesc(s, key)
    ensures SortedDesc(Insert(x, s, key), key)
    decreases |s|
  {
    if |s| > 0 && !KeyGe(key(x), key(s[0])) {
      InsertSorted(x, s[1..], key);
      InsertAtMost(x, s[1..], key, key(s[0]));
    }
  }

  /** Stable sort by descending key. */
  function SortDesc<T>(s: seq<T>, key: T -> Key): (r: seq<T>)
    ensures |r| == |s|
    ensures multiset(r) == multiset(s)
    decreases |s|
  {
    if |s| == 0 then []
    else
      assert s == [s[0]] + s[1..];
      Insert(s[0], SortDesc(s[1..], key), key)
  }

  /** The result of the sort is descending. */
  lemma {:induction false} SortDescSorted<T>(s: seq<T>, key: T -> Key)
    ensures SortedDesc(SortDesc(s, key), key)
    decreases |s|
  {
    if |s| > 0 {
      SortDescSorted(s[1..], key);
      InsertSorted(s[0], SortDesc(s[1..], key), key);
    }
  }

  /** An already descending sequence is left exactly as it is. */
  lemma {:induction false} SortDescKeepsSorted<T>(s: seq<T>, key: T -> Key)
    requires SortedDesc(s, key)
    ensures SortDesc(s, key) == s
    decreases |s|
  {
    if |s| > 0 {
      SortDescKeepsSorted(s[1..], key);
    }
  }

  /** Sorting neither adds nor drops an element. */
  lemma SortDescMembers<T>(s: seq<T>, key: T -> Key)
    ensures forall x :: x in SortDesc(s, key) <==> x in s
  {
    var r := SortDesc(s, key);
    forall x
      ensures x in r <==> x in s
    {
      assert x in r <==> x in multiset(r);
      assert x in s <==> x in multiset(s);
    }
  }

  /** The elements whose key is exactly `k`. */
  function SameKey<T>(key: T -> Key, k: Key): T -> bool {
    (x: T) => key(x) == k
  }

  /** Inserting `x` puts it before every element of its key. */
  lemma {:induction false} InsertStable<T>(x: T, s: seq<T>, key: T -> Key, k: Key)
    ensures Filter(Insert(x, s, key), SameKey(key, k)) ==
      (if key(x) == k then [x] else []) + Filter(s, SameKey(key, k))
    decreases |s|
  {
    if |s| > 0 && !KeyGe(key(x), key(s[0])) {
      InsertStable(x, s[1..], key, k);
      HeadTail(s);
    }
  }

  /** The sort is stable: the elements of any one key come out in their
      input order. */
  lemma {:induction false} SortDescStable<T>(s: seq<T>, key: T -> Key, k: Key)
    ensures Filter(SortDesc(s, key), SameKey(key, k)) == Filter(s, SameKey(key, k))
    decreases |s|
  {
    if |s| > 0 {
      SortDescStable(s[1..], key, k);
      InsertStable(s[0], SortDesc(s[1..], key), key, k);
    }
  }

  /** `r` is `s`'s best `n` elements by `key`, best first: `r` takes
      `min(n, |s|)` elements of `s`, and no element left out outranks an
      element kept. */
  ghost predicate IsTop<T>(r: seq<T>, s: seq<T>, key: T -> Key, n: nat) {
    && |r| == Min(n, |s|)
    && multiset(r) <= multiset(s)
    && SortedDesc(r, key)
    && forall x, y :: x in r && y in multiset(s) - multiset(r) ==> KeyGe(key(x), key(y))
  }

  lemma PrefixSorted<T>(sorted: seq<T>, key: T -> Key, k: nat)
    requires SortedDesc(sorted, key) && k <= |sorted|
    ensures SortedDesc(sorted[..k], key)
  {
    var r := sorted[..k];
    forall i, j | 0 <= i < j < |r|
      ensures KeyGe(key(r[i]), key(r[j]))
    {
      assert r[i] == sorted[i] && r[j] == sorted[j];
    }
  }

  /** What a prefix of a sorted sequence leaves out is its suffix. */
  lemma PrefixRest<T>(sorted: seq<T>, k: nat)
    requires k <= |sorted|
    ensures multiset(sorted) - multiset(sorted[..k]) == multiset(sorted[k..])
    ensures multiset(sorted[..k]) <= multiset(sorted)
  {
    assert sorted == sorted[..k] + sorted[k..];
  }

  lemma PrefixDominates<T>(sorted: seq<T>, key: T -> Key, k: nat)
    requires SortedDesc(sorted, key) && k <= |sorted|
    ensures forall x, y :: x in sorted[..k] && y in sorted[k..] ==> KeyGe(key(x), key(y))
  {
    forall x, y | x in sorted[..k] && y in sorted[k..]
      ensures KeyGe(key(x), key(y))
    {
      var i :| 0 <= i < k && sorted[..k][i] == x;
      var j :| 0 <= j < |sorted| - k && sorted[k..][j] == y;
      assert sorted[i] == x && sorted[k + j] == y;
    }
  }

  /** A prefix of a sorted permutation of `s` holds the best elements of `s`. */
  lemma PrefixIsTop<T>(sorted: seq<T>, s: seq<T>, key: T -> Key, n: nat)
    requires |sorted| == |s| && multiset(sorted) == multiset(s) && SortedDesc(sorted, key)
    ensures IsTop(sorted[..Min(n, |s|)], s, key, n)
  {
    var k := Min(n, |s|);
    PrefixSorted(sorted, key, k);
    PrefixRest(sorted, k);
    PrefixDominates(sorted, key, k);
  }

  /** `sorted(s, key=…)[:limit]` for a descending key: Python's slice, so a
      negative limit drops elements from the end. */
  function TopBy<T(!new)>(s: seq<T>, key: T -> Key, limit: int): (r: seq<T>)
    ensures forall x :: x in r ==> x in s
    ensures limit >= 0 ==> |r| <= limit
    ensures limit >= |s| ==> forall x :: x in s ==> x in r
  {
    var sorted := SortDesc(s, key);
    assert forall x :: x in sorted <==> x in multiset(s);
    var r := PyTake(sorted, limit);
    assert forall x :: x in r ==> x in sorted;
    assert limit >= |s| ==> r == sorted;
    r
  }

  /** With a non-negative limit, `TopBy` returns the `limit` best elements,
      best first. */
  lemma TopByIsTop<T(!new)>(s: seq<T>, key: T -> Key, limit: int)
    requires limit >= 0
    ensures IsTop(TopBy(s, key, limit), s, key, limit)
  {
    SortDescSorted(s, key);
    PrefixIsTop(SortDesc(s, key), s, key, limit);
  }

  lemma TopBySorted<T(!new)>(s: seq<T>, key: T -> Key, limit: int)
    ensures SortedDesc(TopBy(s, key, limit), key)
  {
    SortDescSorted(s, key);
    var sorted := SortDesc(s, key);
    var r := TopBy(s, key, limit);
    forall i, j | 0 <= i < j < |r|
      ensures KeyGe(key(r[i]), key(r[j]))
    {
      assert r[i] == sorted[i] && r[j] == sorted[j];
    }
  }
}
