/**
 * Comparators, sortedness and permutations of a slice.
 *
 * A comparator is an integer-valued function in the style of Java's
 * `Comparator.compare`; the sort only ever asks whether `cmp(x, y) <= 0`,
 * so what it needs is that this relation is a total preorder.
 */
module Ordering {

  /** `cmp(x, y) <= 0` is total (hence reflexive) and transitive. */
  ghost predicate TotalPreorder<X(!new)>(cmp: (X, X) -> int) {
    && (forall x, y :: cmp(x, y) <= 0 || cmp(y, x) <= 0)
    && (forall x, y, z :: cmp(x, y) <= 0 && cmp(y, z) <= 0 ==> cmp(x, z) <= 0)
  }

  /** Positions [lo, hi) of s are non-decreasing under cmp. */
  ghost predicate Sorted<X>(s: seq<X>, lo: int, hi: int, cmp: (X, X) -> int) {
    forall i, j :: 0 <= lo <= i < j < hi <= |s| ==> cmp(s[i], s[j]) <= 0
  }

  /** Every element at positions [lo, hi) of s satisfies p. */
  ghost predicate AllBetween<X>(s: seq<X>, lo: int, hi: int, p: X -> bool) {
    forall k :: lo <= k < hi && 0 <= k < |s| ==> p(s[k])
  }

  /** t equals s at every position outside [lo, hi). */
  ghost predicate SameOutside<X>(s: seq<X>, t: seq<X>, lo: int, hi: int) {
    |s| == |t| && forall k :: 0 <= k < |s| && !(lo <= k < hi) ==> s[k] == t[k]
  }

  /**
   * Position p splits [lo, hi) of s: everything before it is <= s[p],
   * everything after it is > s[p].
   */
  ghost predicate PartitionedAt<X>(s: seq<X>, lo: int, p: int, hi: int, cmp: (X, X) -> int)
    requires 0 <= lo <= p < hi <= |s|
  {
    && (forall k :: lo <= k < p ==> cmp(s[k], s[p]) <= 0)
    && (forall k :: p < k < hi ==> cmp(s[k], s[p]) > 0)
  }

  /** Agreement outside a range composes. */
  lemma SameOutsideTrans<X>(s: seq<X>, t: seq<X>, u: seq<X>, lo: int, hi: int)
    requires SameOutside(s, t, lo, hi) && SameOutside(t, u, lo, hi)
    ensures SameOutside(s, u, lo, hi)
  {
  }

  /** Exchanging two positions permutes a sequence. */
  lemma SwapPermutes<X>(s: seq<X>, i: int, j: int)
    requires 0 <= i < |s| && 0 <= j < |s|
    ensures multiset(s[i := s[j]][j := s[i]]) == multiset(s)
  {
    var t := s[i := s[j]];
    assert multiset(t) == multiset(s) - multiset{s[i]} + multiset{s[j]};
    assert multiset(t[j := s[i]]) == multiset(t) - multiset{t[j]} + multiset{s[i]};
  }

  /**
   * If t is a permutation of s that only moved elements inside [lo, hi),
   * then t[lo..hi] is a permutation of s[lo..hi].
   */
  lemma PermutationInside<X>(s: seq<X>, t: seq<X>, lo: int, hi: int)
    requires 0 <= lo <= hi <= |s|
    requires SameOutside(s, t, lo, hi) && multiset(s) == multiset(t)
    ensures multiset(s[lo..hi]) == multiset(t[lo..hi])
  {
    assert s == s[..lo] + s[lo..hi] + s[hi..];
    assert t == t[..lo] + t[lo..hi] + t[hi..];
    assert s[..lo] == t[..lo];
    assert s[hi..] == t[hi..];
    assert multiset(s[lo..hi]) == multiset(s) - multiset(s[..lo]) - multiset(s[hi..]) by {
      assert multiset(s) == multiset(s[..lo]) + multiset(s[lo..hi]) + multiset(s[hi..]);
    }
    assert multiset(t[lo..hi]) == multiset(t) - multiset(t[..lo]) - multiset(t[hi..]) by {
      assert multiset(t) == multiset(t[..lo]) + multiset(t[lo..hi]) + multiset(t[hi..]);
    }
  }

  /**
   * A property of all elements of a slice survives any permutation that
   * only moves elements inside that slice.
   */
  lemma AllBetweenPermuted<X>(s: seq<X>, t: seq<X>, lo: int, hi: int, p: X -> bool)
    requires 0 <= lo <= hi <= |s|
    requires SameOutside(s, t, lo, hi) && multiset(s) == multiset(t)
    requires AllBetween(s, lo, hi, p)
    ensures AllBetween(t, lo, hi, p)
  {
    PermutationInside(s, t, lo, hi);
    forall k | lo <= k < hi
      ensures p(t[k])
    {
      assert t[k] == t[lo..hi][k - lo];
      assert t[k] in multiset(s[lo..hi]);
      var m :| lo <= m < hi && s[m] == t[k] by {
        assert t[k] in s[lo..hi];
      }
    }
  }

  /**
   * Quicksort's combining step: a sorted left part whose elements are all
   * <= the pivot, the pivot, and a sorted right part whose elements are all
   * > the pivot, together form a sorted range.
   */
  lemma SortedAroundPivot<X(!new)>(s: seq<X>, lo: int, p: int, hi: int, cmp: (X, X) -> int)
    requires TotalPreorder(cmp)
    requires 0 <= lo <= p < hi <= |s|
    requires Sorted(s, lo, p, cmp) && Sorted(s, p + 1, hi, cmp)
    requires forall k :: lo <= k < p ==> cmp(s[k], s[p]) <= 0
    requires forall k :: p < k < hi ==> cmp(s[k], s[p]) > 0
    ensures Sorted(s, lo, hi, cmp)
  {
    forall i, j | lo <= i < j < hi
      ensures cmp(s[i], s[j]) <= 0
    {
      if j == p {
      } else if i == p {
        assert cmp(s[j], s[p]) > 0;
      } else if i < p < j {
        assert cmp(s[p], s[j]) <= 0;
      }
    }
  }

  /**
   * Quicksort's recursion step as a whole: s1 is partitioned around the
   * pivot at p, s2 sorts [lo, p) of s1 by a permutation, s3 sorts
   * (p, hi) of s2 by a permutation; then s3 is sorted on [lo, hi) and
   * differs from s1 only there.
   */
  lemma SortedAfterRecursion<X(!new)>(s1: seq<X>, s2: seq<X>, s3: seq<X>, lo: int, p: int, hi: int,
                                       cmp: (X, X) -> int)
    requires TotalPreorder(cmp)
    requires 0 <= lo <= p < hi <= |s1|
    requires PartitionedAt(s1, lo, p, hi, cmp)
    requires SameOutside(s1, s2, lo, p) && multiset(s1) == multiset(s2) && Sorted(s2, lo, p, cmp)
    requires SameOutside(s2, s3, p + 1, hi) && multiset(s2) == multiset(s3) && Sorted(s3, p + 1, hi, cmp)
    ensures Sorted(s3, lo, hi, cmp)
    ensures SameOutside(s1, s3, lo, hi)
  {
    var pivot := s1[p];
    AllBetweenPermuted(s1, s2, lo, p, x => cmp(x, pivot) <= 0);
    AllBetweenPermuted(s2, s3, p + 1, hi, x => cmp(x, pivot) > 0);
    assert AllBetween(s3, lo, p, x => cmp(x, pivot) <= 0) by {
      forall k | lo <= k < p
        ensures cmp(s3[k], pivot) <= 0
      {
        assert s3[k] == s2[k];
      }
    }
    assert s3[p] == pivot;
    SortedAroundPivot(s3, lo, p, hi, cmp);
  }

  /** Elements that compare both ways are equal. */
  ghost predicate Antisymmetric<X(!new)>(cmp: (X, X) -> int) {
    forall x, y :: cmp(x, y) <= 0 && cmp(y, x) <= 0 ==> x == y
  }

  /** The first element of a sorted sequence is <= each of its elements. */
  lemma SortedFirstIsLeast<X(!new)>(s: seq<X>, x: X, cmp: (X, X) -> int)
    requires TotalPreorder(cmp) && Sorted(s, 0, |s|, cmp) && x in s
    ensures cmp(s[0], x) <= 0
  {
    var k :| 0 <= k < |s| && s[k] == x;
    if k == 0 {
      assert cmp(x, x) <= 0 || cmp(x, x) <= 0;
    }
  }

  /** A sorted prefix, taken out on its own, is sorted. */
  lemma SortedPrefix<X>(s: seq<X>, n: int, cmp: (X, X) -> int)
    requires 0 <= n <= |s| && Sorted(s, 0, n, cmp)
    ensures Sorted(s[..n], 0, n, cmp)
  {
    forall i, j | 0 <= i < j < n
      ensures cmp(s[..n][i], s[..n][j]) <= 0
    {
      assert s[..n][i] == s[i] && s[..n][j] == s[j];
    }
  }

  /** Dropping the first element keeps a sequence sorted. */
  lemma SortedTail<X>(s: seq<X>, cmp: (X, X) -> int)
    requires |s| > 0 && Sorted(s, 0, |s|, cmp)
    ensures Sorted(s[1..], 0, |s| - 1, cmp)
  {
    forall i, j | 0 <= i < j < |s| - 1
      ensures cmp(s[1..][i], s[1..][j]) <= 0
    {
      assert s[1..][i] == s[i + 1] && s[1..][j] == s[j + 1];
    }
  }

  /**
   * Under an antisymmetric total preorder a multiset has only one sorted
   * arrangement: a sort's result is determined by its input's elements.
   */
  lemma {:induction false} SortedUnique<X(!new)>(s: seq<X>, t: seq<X>, cmp: (X, X) -> int)
    requires TotalPreorder(cmp) && Antisymmetric(cmp)
    requires Sorted(s, 0, |s|, cmp) && Sorted(t, 0, |t|, cmp)
    requires multiset(s) == multiset(t)
    ensures s == t
    decreases |s|
  {
    assert |s| == |multiset(s)| == |multiset(t)| == |t|;
    if |s| > 0 {
      assert s[0] in t && t[0] in s by {
        assert s[0] in multiset(t) && t[0] in multiset(s);
      }
      SortedFirstIsLeast(t, s[0], cmp);
      SortedFirstIsLeast(s, t[0], cmp);
      assert s[0] == t[0];
      assert s == [s[0]] + s[1..] && t == [t[0]] + t[1..];
      assert multiset(s[1..]) == multiset(t[1..]) by {
        assert multiset(s[1..]) == multiset(s) - multiset{s[0]} by {
          assert multiset(s) == multiset{s[0]} + multiset(s[1..]);
        }
        assert multiset(t[1..]) == multiset(t) - multiset{t[0]} by {
          assert multiset(t) == multiset{t[0]} + multiset(t[1..]);
        }
      }
      SortedTail(s, cmp);
      SortedTail(t, cmp);
      SortedUnique(s[1..], t[1..], cmp);
    }
  }
}
