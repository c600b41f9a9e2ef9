/**
 * `ORDER BY ... LIMIT n` as the queries use it: an insertion sort by a total
 * preorder, and the first `n` rows of the result. The order among rows the
 * preorder ranks equal is whatever the sort leaves; SQL fixes none either.
 */
module Sorting {

  /** `leq` ranks every pair and is transitive. */
  ghost predicate TotalPreorder<T(!new)>(leq: (T, T) -> bool) {
    && (forall a, b :: leq(a, b) || leq(b, a))
    && (forall a, b, c :: leq(a, b) && leq(b, c) ==> leq(a, c))
  }

  predicate SortedBy<T>(s: seq<T>, leq: (T, T) -> bool) {
    forall i, j :: 0 <= i < j < |s| ==> leq(s[i], s[j])
  }

  predicate Distinct<T(==)>(s: seq<T>) {
    forall i, j :: 0 <= i < j < |s| ==> s[i] != s[j]
  }

  /** `x` placed before the first element it ranks no later than. */
  function Insert<T(!new)>(x: T, s: seq<T>, leq: (T, T) -> bool): (r: seq<T>)
    requires TotalPreorder(leq) && SortedBy(s, leq)
    ensures SortedBy(r, leq)
    ensures multiset(r) == multiset(s) + multiset{x}
  {
    if s == [] then [x]
    else if leq(x, s[0]) then [x] + s
    else
      var rest := Insert(x, s[1..], leq);
      assert s == [s[0]] + s[1..];
      assert forall k :: 0 <= k < |rest| ==> leq(s[0], rest[k]) by {
        forall k | 0 <= k < |rest| ensures leq(s[0], rest[k]) {
          assert rest[k] in multiset(s[1..]) + multiset{x};
          if rest[k] != x {
            var j :| 0 <= j < |s[1..]| && s[1..][j] == rest[k];
            assert s[j + 1] == rest[k];
          }
        }
      }
      [s[0]] + rest
  }

  /** The rows of `s` rearranged so that `leq` holds between every earlier and later row. */
  function SortBy<T(!new)>(s: seq<T>, leq: (T, T) -> bool): (r: seq<T>)
    requires TotalPreorder(leq)
    ensures SortedBy(r, leq)
    ensures multiset(r) == multiset(s)
    ensures |r| == |s|
  {
    if s == [] then []
    else
      assert s == [s[0]] + s[1..];
      Insert(s[0], SortBy(s[1..], leq), leq)
  }

  /** `LIMIT n`: the first `n` rows, or all of them when there are fewer. */
  function Take<T>(s: seq<T>, n: nat): (r: seq<T>)
    ensures |r| <= n && |r| <= |s|
    ensures |r| == n || r == s
    ensures forall i :: 0 <= i < |r| ==> r[i] == s[i]
  {
    if |s| <= n then s else s[..n]
  }

  /**
   * The first `n` rows of a sorted sequence are its top rows: a row that did not
   * make the cut means the cut is full and every row in it ranks no later.
   */
  lemma TakeIsTop<T>(s: seq<T>, leq: (T, T) -> bool, n: nat, x: T)
    requires SortedBy(s, leq)
    requires x in s && x !in Take(s, n)
    ensures |Take(s, n)| == n
    ensures forall y :: y in Take(s, n) ==> leq(y, x)
  {
    var j :| 0 <= j < |s| && s[j] == x;
    var r := Take(s, n);
    forall y | y in r ensures leq(y, x) {
      var i :| 0 <= i < |r| && r[i] == y;
    }
  }

  lemma {:induction false} MultisetAtMostOnce<T>(s: seq<T>, x: T)
    requires Distinct(s)
    ensures multiset(s)[x] <= 1
  {
    if s != [] {
      assert s == [s[0]] + s[1..];
      MultisetAtMostOnce(s[1..], x);
      if x == s[0] {
        assert x !in s[1..];
      }
    }
  }

  /** A permutation holds the same elements. */
  lemma SameElements<T>(s: seq<T>, r: seq<T>)
    requires multiset(r) == multiset(s)
    ensures forall x :: x in r <==> x in s
  {
    forall x ensures x in r <==> x in s {
      assert x in r <==> x in multiset(r);
      assert x in s <==> x in multiset(s);
    }
  }

  /** A rearrangement of a sequence without repetitions has none either. */
  lemma DistinctPermutation<T>(s: seq<T>, r: seq<T>)
    requires Distinct(s) && multiset(r) == multiset(s)
    ensures Distinct(r)
  {
    forall i, j | 0 <= i < j < |r| ensures r[i] != r[j] {
      if r[i] == r[j] {
        assert r == r[..j] + [r[j]] + r[j + 1..];
        assert r[i] in r[..j];
        assert multiset(r)[r[j]] >= 2;
        MultisetAtMostOnce(s, r[j]);
      }
    }
  }

  /**
   * `ORDER BY ... LIMIT n`: at most `n` rows of `s`, sorted; a row of `s` left
   * out means the result is full and ranks no later than that row.
   */
  function TopBy<T(!new)>(s: seq<T>, leq: (T, T) -> bool, n: nat): (r: seq<T>)
    requires TotalPreorder(leq)
    ensures |r| == if |s| <= n then |s| else n
    ensures SortedBy(r, leq)
    ensures forall x :: x in r ==> x in s
    ensures forall x :: x in s && x !in r ==> |r| == n && forall y :: y in r ==> leq(y, x)
    ensures Distinct(s) ==> Distinct(r)
  {
    var ranked := SortBy(s, leq);
    var r := Take(ranked, n);
    assert forall x :: x in ranked <==> x in s by {
      forall x ensures x in ranked <==> x in s {
        assert x in ranked <==> x in multiset(ranked);
        assert x in s <==> x in multiset(s);
      }
    }
    assert forall x :: x in r ==> x in ranked;
    assert forall x :: x in s && x !in r ==> |r| == n && forall y :: y in r ==> leq(y, x) by {
      forall x | x in s && x !in r ensures |r| == n && forall y :: y in r ==> leq(y, x) {
        TakeIsTop(ranked, leq, n, x);
      }
    }
    assert Distinct(s) ==> Distinct(r) by {
      if Distinct(s) {
        DistinctPermutation(s, ranked);
      }
    }
    r
  }
}
