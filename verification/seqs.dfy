/** Generic sequence operations standing in for the relational operators the
    route handlers use: WHERE (Filter), ORDER BY (SortBy), SUM (Sum) and
    COUNT (Count). Keys and predicates are passed as total functions. */
module Seqs {

  /** The rows of `s` that satisfy `p`, in their original order: each such
      row as often as `s` holds it, and no other row. */
  function Filter<T(!new)>(s: seq<T>, p: T -> bool): (r: seq<T>)
    ensures forall x :: x in r <==> x in s && p(x)
    ensures forall i :: 0 <= i < |r| ==> p(r[i])
    ensures forall x :: multiset(r)[x] == if p(x) then multiset(s)[x] else 0
    ensures multiset(r) <= multiset(s)
    ensures |r| <= |s|
  {
    if |s| == 0 then []
    else
      var rest := Filter(s[1..], p);
      assert s == [s[0]] + s[1..];
      if p(s[0]) then [s[0]] + rest else rest
  }

  /** A filter that every row passes keeps the whole sequence. */
  lemma {:induction false} FilterKeepsAll<T(!new)>(s: seq<T>, p: T -> bool)
    requires forall i :: 0 <= i < |s| ==> p(s[i])
    ensures Filter(s, p) == s
    decreases |s|
  {
    if |s| > 0 {
      assert forall i :: 0 <= i < |s[1..]| ==> s[1..][i] == s[i + 1];
      FilterKeepsAll(s[1..], p);
      assert s == [s[0]] + s[1..];
    }
  }

  /** Rows ordered by non-decreasing `key`. */
  ghost predicate SortedBy<T>(s: seq<T>, key: T -> int) {
    forall i, j :: 0 <= i < j < |s| ==> key(s[i]) <= key(s[j])
  }

  /** Inserts `x` into a sequence already ordered by `key`, before the first
      row with a larger-or-equal key. */
  function Insert<T>(x: T, s: seq<T>, key: T -> int): (r: seq<T>)
    requires SortedBy(s, key)
    ensures SortedBy(r, key)
    ensures multiset(r) == multiset(s) + multiset{x}
    decreases |s|
  {
    if |s| == 0 then [x]
    else if key(x) <= key(s[0]) then [x] + s
    else
      var rest := Insert(x, s[1..], key);
      assert s == [s[0]] + s[1..];
      assert forall y :: y in rest ==> key(s[0]) <= key(y) by {
        forall y | y in rest
          ensures key(s[0]) <= key(y)
        {
          assert y in multiset(rest);
          assert y == x || y in multiset(s[1..]);
        }
      }
      [s[0]] + rest
  }

  /** Insertion sort by `key`: a permutation of `s` in ascending key order.
      Rows with equal keys keep one definite order; ORDER BY leaves that
      order open. */
  function SortBy<T>(s: seq<T>, key: T -> int): (r: seq<T>)
    ensures SortedBy(r, key)
    ensures multiset(r) == multiset(s)
    ensures |r| == |s|
  {
    if |s| == 0 then []
    else
      assert s == [s[0]] + s[1..];
      Insert(s[0], SortBy(s[1..], key), key)
  }

  lemma SortByMembership<T>(s: seq<T>, key: T -> int)
    ensures forall x :: x in SortBy(s, key) <==> x in s
  {
    var r := SortBy(s, key);
    forall x
      ensures x in r <==> x in s
    {
      assert x in r <==> x in multiset(r);
      assert x in s <==> x in multiset(s);
    }
  }

  /** Sum of `f` over all rows (SQL SUM, with the empty sum taken as 0 as
      IFNULL(SUM(..), 0) does). */
  function Sum<T>(s: seq<T>, f: T -> int): int
  {
    if |s| == 0 then 0 else f(s[0]) + Sum(s[1..], f)
  }

  lemma {:induction false} SumAppend<T>(s: seq<T>, t: seq<T>, f: T -> int)
    ensures Sum(s + t, f) == Sum(s, f) + Sum(t, f)
    decreases |s|
  {
    if |s| == 0 {
      assert s + t == t;
    } else {
      assert (s + t)[1..] == s[1..] + t;
      SumAppend(s[1..], t, f);
    }
  }

  /** Number of rows satisfying `p` (an SQL count). */
  function Count<T>(s: seq<T>, p: T -> bool): (n: nat)
    ensures n <= |s|
    ensures n == 0 <==> forall i :: 0 <= i < |s| ==> !p(s[i])
  {
    if |s| == 0 then 0
    else
      assert forall i :: 1 <= i < |s| ==> s[i] == s[1..][i - 1];
      (if p(s[0]) then 1 else 0) + Count(s[1..], p)
  }

  /** No two rows share a key (a primary-key constraint). */
  ghost predicate UniqueBy<T>(s: seq<T>, key: T -> int) {
    forall i, j :: 0 <= i < j < |s| ==> key(s[i]) != key(s[j])
  }

  lemma UniqueTail<T>(s: seq<T>, key: T -> int)
    requires |s| > 0 && UniqueBy(s, key)
    ensures UniqueBy(s[1..], key)
    ensures forall y :: y in s[1..] ==> key(y) != key(s[0])
  {
    forall y | y in s[1..]
      ensures key(y) != key(s[0])
    {
      var k :| 0 <= k < |s[1..]| && s[1..][k] == y;
      assert s[k + 1] == y;
    }
  }

  lemma UniqueCons<T>(a: T, t: seq<T>, key: T -> int)
    requires UniqueBy(t, key)
    requires forall y :: y in t ==> key(y) != key(a)
    ensures UniqueBy([a] + t, key)
  {
    var r := [a] + t;
    forall i, j | 0 <= i < j < |r|
      ensures key(r[i]) != key(r[j])
    {
      assert r[j] == t[j - 1];
      if i > 0 {
        assert r[i] == t[i - 1];
      }
    }
  }

  lemma {:induction false} FilterKeepsUnique<T(!new)>(s: seq<T>, p: T -> bool, key: T -> int)
    requires UniqueBy(s, key)
    ensures UniqueBy(Filter(s, p), key)
    decreases |s|
  {
    if |s| > 0 {
      UniqueTail(s, key);
      FilterKeepsUnique(s[1..], p, key);
      if p(s[0]) {
        UniqueCons(s[0], Filter(s[1..], p), key);
      }
    }
  }
}
