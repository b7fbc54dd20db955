/**
 * The slot buffer of the array list, viewed as a sequence.
 *
 * The list keeps its elements in a nullable-slot array; here a slot is an
 * `Option` (`None` is an empty slot, Java's `null`). Every mutating
 * operation of the list is specified by one function in this module that
 * maps the old slot sequence to the new one, and the lemmas say what those
 * functions mean: on a gap-free buffer (`Dense`) most of them behave like
 * the familiar sequence operations, and off it they show the list's quirks.
 */
module Slots {

  datatype Option<T> = None | Some(value: T)

  /** Slots [0, n) are occupied and every slot from n on is empty. */
  ghost predicate Dense<T>(s: seq<Option<T>>, n: int) {
    0 <= n <= |s| && forall i :: 0 <= i < |s| ==> (s[i].Some? <==> i < n)
  }

  /**
   * The lowest index at or above `from` whose slot is occupied (when
   * `occupied`) or empty (when not), or -1 if there is none. `add(T)` looks
   * for the first empty slot from 0; `get` for the first occupied one from 1.
   */
  function FirstSlot<T>(s: seq<Option<T>>, from: nat, occupied: bool): (k: int)
    requires from <= |s|
    decreases |s| - from
    ensures k == -1 || from <= k < |s|
    ensures k == -1 <==> forall i :: from <= i < |s| ==> s[i].Some? != occupied
    ensures k != -1 ==> s[k].Some? == occupied && forall i :: from <= i < k ==> s[i].Some? != occupied
  {
    if from == |s| then -1
    else if s[from].Some? == occupied then from
    else FirstSlot(s, from + 1, occupied)
  }

  /**
   * The slots after the buffer is doubled with everything copied: r at the
   * bottom, an empty upper half of the same length.
   */
  function Grown<T>(r: seq<Option<T>>): (t: seq<Option<T>>)
    ensures |t| == 2 * |r| && t[..|r|] == r
    ensures forall k :: |r| <= k < |t| ==> t[k].None?
  {
    r + seq(|r|, _ => None)
  }

  /**
   * The growth check keeps a gap-free list gap-free: t is r, doubled when
   * the size m has reached the capacity |r|.
   */
  lemma DenseAfterGrowth<T>(r: seq<Option<T>>, m: int, t: seq<Option<T>>)
    requires Dense(r, m) && t == (if m == |r| then Grown(r) else r)
    ensures Dense(t, m) && t[..m] == r[..m]
  {
    if m == |r| {
      forall i | 0 <= i < |t|
        ensures t[i].Some? <==> i < m
      {
        if i < m {
          assert t[i] == t[..|r|][i];
        }
      }
    }
  }

  /** On a gap-free buffer with room left, the first empty slot is slot n. */
  lemma FirstEmptyOfDense<T>(s: seq<Option<T>>, n: int)
    requires Dense(s, n) && n < |s|
    ensures FirstSlot(s, 0, false) == n
  {
    assert s[n].None?;
  }

  /** Writing an element into slot n of a gap-free buffer of length n appends it. */
  lemma AppendToDense<T>(s: seq<Option<T>>, n: int, x: T, t: seq<Option<T>>)
    requires Dense(s, n) && n < |s|
    requires t == (if n + 1 == |s| then Grown(s[n := Some(x)]) else s[n := Some(x)])
    ensures Dense(t, n + 1) && t[..n + 1] == s[..n] + [Some(x)]
  {
    var r := s[n := Some(x)];
    assert r[..n + 1] == s[..n] + [Some(x)] by {
      assert forall i :: 0 <= i < n + 1 ==> r[..n + 1][i] == (s[..n] + [Some(x)])[i];
    }
    DenseAfterGrowth(r, n + 1, t);
  }

  /**
   * The loop of `add(index, x)`: every slot in (index, n] takes its left
   * neighbour's value, the rest stay. When index >= n the range is empty.
   */
  function Shifted<T>(s: seq<Option<T>>, index: int, n: int): (r: seq<Option<T>>)
    requires 0 <= index
    ensures |r| == |s|
  {
    seq(|s|, k requires 0 <= k < |s| => if index < k <= n then s[k - 1] else s[k])
  }

  /**
   * The slots after `add(index, x)` shifted and wrote, before any growth:
   * the shift, then slot `index` takes x.
   */
  function Inserted<T>(s: seq<Option<T>>, n: int, index: int, x: Option<T>): (r: seq<Option<T>>)
    requires 0 <= index < |s| && n < |s|
    ensures |r| == |s|
  {
    Shifted(s, index, n)[index := x]
  }

  /**
   * Inserting inside a gap-free list (index <= n) opens a gap at `index` and
   * keeps the list gap-free, one longer.
   */
  lemma InsertIntoDense<T>(s: seq<Option<T>>, n: int, index: int, x: T)
    requires Dense(s, n) && n < |s| && 0 <= index <= n
    ensures Dense(Inserted(s, n, index, Some(x)), n + 1)
    ensures Inserted(s, n, index, Some(x))[..n + 1] == s[..index] + [Some(x)] + s[index..n]
  {
    var r := Inserted(s, n, index, Some(x));
    var t := s[..index] + [Some(x)] + s[index..n];
    assert |t| == n + 1;
    forall i | 0 <= i < n + 1
      ensures r[..n + 1][i] == t[i]
    {
      if i < index {
        assert t[i] == s[i];
      } else if i == index {
        assert t[i] == Some(x);
      } else {
        assert t[i] == s[index..n][i - index - 1] == s[i - 1];
      }
    }
  }

  /** Inserting past the logical end shifts nothing: only slot `index` is written. */
  lemma InsertPastEnd<T>(s: seq<Option<T>>, n: int, index: int, x: Option<T>)
    requires 0 <= index < |s| && n < index
    ensures Inserted(s, n, index, x) == s[index := x]
  {
    var r := Inserted(s, n, index, x);
    assert forall k :: 0 <= k < |s| ==> r[k] == s[index := x][k];
  }

  /**
   * The slots after `get(index)`: if slot `index` is empty, the first
   * occupied slot at position >= 1 moves into it (its own slot becomes
   * empty); otherwise nothing changes.
   */
  function Compacted<T>(s: seq<Option<T>>, index: int): (r: seq<Option<T>>)
    requires 0 <= index < |s|
    ensures |r| == |s|
    ensures multiset(r) == multiset(s)
    ensures s[index].Some? ==> r == s
    ensures r[index].None? <==> s[index].None? && forall k :: 1 <= k < |s| ==> s[k].None?
    ensures forall k :: 0 <= k < |s| && k != index && r[k] != s[k] ==>
              r[k].None? && r[index] == s[k] && s[index].None?
  {
    var j := FirstSlot(s, 1, true);
    if s[index].Some? || j == -1 then s
    else s[index := s[j]][j := None]
  }

  /** Reading inside a gap-free list changes nothing. */
  lemma GetInsideDense<T>(s: seq<Option<T>>, n: int, index: int)
    requires Dense(s, n) && 0 <= index < n
    ensures Compacted(s, index) == s && s[index].Some?
  {
  }

  /**
   * Reading past the end of a gap-free list of at least two elements moves
   * its second element (slot 1) out to `index` and leaves a hole at slot 1.
   */
  lemma GetPastEndOfDense<T>(s: seq<Option<T>>, n: int, index: int)
    requires Dense(s, n) && 2 <= n <= index < |s|
    ensures Compacted(s, index) == s[index := s[1]][1 := None]
    ensures Compacted(s, index)[index] == s[1] && !Dense(Compacted(s, index), n)
  {
    assert FirstSlot(s, 1, true) == 1;
    assert Compacted(s, index)[1].None?;
  }

  /**
   * The slots after `remove(index)`: for 0 <= index < |s| - 1, slot `index`
   * takes the old slot index + 1, which becomes empty; for an index outside
   * the buffer nothing changes. (At index == |s| - 1, remove(int) throws.)
   */
  function RemovedAt<T>(s: seq<Option<T>>, index: int): (r: seq<Option<T>>)
    requires index != |s| - 1
    ensures |r| == |s|
  {
    if 0 <= index < |s| - 1 then s[index := s[index + 1]][index + 1 := None]
    else s
  }

  /**
   * Exactly the old content of slot `index` leaves the buffer; every other
   * element is still there.
   */
  lemma RemoveDropsOne<T>(s: seq<Option<T>>, index: int)
    requires 0 <= index < |s| - 1
    ensures multiset(RemovedAt(s, index)) == multiset(s) - multiset{s[index]} + multiset{None}
    ensures forall k :: 0 <= k < |s| && k != index && k != index + 1 ==> RemovedAt(s, index)[k] == s[k]
  {
    var t := s[index := s[index + 1]];
    assert multiset(t) == multiset(s) - multiset{s[index]} + multiset{s[index + 1]};
    assert multiset(t[index + 1 := None]) == multiset(t) - multiset{s[index + 1]} + multiset{None};
  }

  /**
   * Removing one of the last two elements of a gap-free list is a true
   * removal: the list stays gap-free, one shorter, without that element.
   */
  lemma RemoveNearEndOfDense<T>(s: seq<Option<T>>, n: int, index: int)
    requires Dense(s, n) && n < |s| && 0 <= index && n - 2 <= index < n
    ensures Dense(RemovedAt(s, index), n - 1)
    ensures RemovedAt(s, index)[..n - 1] == s[..index] + s[index + 1..n]
  {
    var r := RemovedAt(s, index);
    var t := s[..index] + s[index + 1..n];
    assert |t| == n - 1;
    forall i | 0 <= i < n - 1
      ensures r[..n - 1][i] == t[i]
    {
      if i < index {
        assert t[i] == s[i];
      } else {
        assert t[i] == s[index + 1..n][i - index] == s[i + 1];
      }
    }
  }

  /**
   * Removing any earlier element of a gap-free list of n elements leaves a
   * hole at index + 1, inside the new length n - 1, while the last element
   * stays at slot n - 1, outside it.
   */
  lemma RemoveEarlierLeavesHole<T>(s: seq<Option<T>>, n: int, index: int)
    requires Dense(s, n) && n < |s| && 0 <= index < n - 2
    ensures RemovedAt(s, index)[index] == s[index + 1]
    ensures RemovedAt(s, index)[index + 1].None? && index + 1 < n - 1
    ensures RemovedAt(s, index)[n - 1] == s[n - 1] && s[n - 1].Some?
    ensures !Dense(RemovedAt(s, index), n - 1)
  {
    assert RemovedAt(s, index)[index + 1].None?;
  }

  /** The reverse of a sequence. */
  function Reversed<X>(t: seq<X>): (r: seq<X>)
    ensures |r| == |t|
  {
    if |t| == 0 then [] else [t[|t| - 1]] + Reversed(t[..|t| - 1])
  }

  lemma {:induction false} ReversedElement<X>(t: seq<X>, k: int)
    requires 0 <= k < |t|
    ensures Reversed(t)[k] == t[|t| - 1 - k]
  {
    if k > 0 {
      ReversedElement(t[..|t| - 1], k - 1);
    }
  }

  lemma {:induction false} ReversedMultiset<X>(t: seq<X>)
    ensures multiset(Reversed(t)) == multiset(t)
  {
    if |t| > 0 {
      var init, last := t[..|t| - 1], t[|t| - 1];
      ReversedMultiset(init);
      assert Reversed(t) == [last] + Reversed(init);
      assert t == init + [last];
      calc {
        multiset(Reversed(t));
        multiset([last]) + multiset(Reversed(init));
        multiset(init) + multiset([last]);
        multiset(t);
      }
    }
  }

  lemma ReversedTwice<X>(t: seq<X>)
    ensures Reversed(Reversed(t)) == t
  {
    forall k | 0 <= k < |t|
      ensures Reversed(Reversed(t))[k] == t[k]
    {
      ReversedElement(Reversed(t), k);
      ReversedElement(t, |t| - 1 - k);
    }
  }

  /** The slots after `reverse()`: slots [0, n) reversed, the rest as they were. */
  function ReversedPrefix<X>(s: seq<X>, n: int): (r: seq<X>)
    requires n <= |s|
    ensures |r| == |s|
  {
    if n <= 0 then s else Reversed(s[..n]) + s[n..]
  }

  /** Slot by slot: position i < n holds the old slot n - 1 - i. */
  lemma ReversedPrefixElement<X>(s: seq<X>, n: int, i: int)
    requires n <= |s| && 0 <= i < |s|
    ensures ReversedPrefix(s, n)[i] == if i < n then s[n - 1 - i] else s[i]
  {
    if i < n {
      ReversedElement(s[..n], i);
    }
  }

  /** A buffer that matches ReversedPrefix slot by slot is ReversedPrefix. */
  lemma ReversedPrefixByElements<X>(s: seq<X>, r: seq<X>, n: int)
    requires n <= |s| == |r|
    requires forall i :: 0 <= i < n ==> r[i] == s[n - 1 - i]
    requires forall i :: 0 <= i < |s| && n <= i ==> r[i] == s[i]
    ensures r == ReversedPrefix(s, n)
  {
    forall i | 0 <= i < |s|
      ensures r[i] == ReversedPrefix(s, n)[i]
    {
      ReversedPrefixElement(s, n, i);
    }
  }

  /** Reversing twice restores the buffer. */
  lemma ReversedPrefixTwice<X>(s: seq<X>, n: int)
    requires n <= |s|
    ensures ReversedPrefix(ReversedPrefix(s, n), n) == s
  {
    if n > 0 {
      var r := ReversedPrefix(s, n);
      assert r[..n] == Reversed(s[..n]);
      assert r[n..] == s[n..];
      ReversedTwice(s[..n]);
      assert s == s[..n] + s[n..];
    }
  }

  /** Reversal is a permutation of the buffer, and of its first n slots. */
  lemma ReversedPrefixPermutes<X>(s: seq<X>, n: int)
    requires 0 <= n <= |s|
    ensures multiset(ReversedPrefix(s, n)) == multiset(s)
    ensures multiset(ReversedPrefix(s, n)[..n]) == multiset(s[..n])
  {
    if n > 0 {
      ReversedMultiset(s[..n]);
      assert s == s[..n] + s[n..];
      assert ReversedPrefix(s, n)[..n] == Reversed(s[..n]);
    }
  }

  /** Reversing a gap-free list keeps it gap-free. */
  lemma ReverseDense<T>(s: seq<Option<T>>, n: int)
    requires Dense(s, n)
    ensures Dense(ReversedPrefix(s, n), n)
  {
    forall i | 0 <= i < |s|
      ensures ReversedPrefix(s, n)[i].Some? <==> i < n
    {
      ReversedPrefixElement(s, n, i);
    }
  }
}
