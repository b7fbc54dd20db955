/**
 * The growable array list `MyArrayListImpl<T>`: a buffer of nullable slots
 * (capacity 10 at first, doubled on growth) and a logical size.
 *
 * Each mutating method is specified against a function of module Slots on
 * the old slot sequence, and where it matters, by what it does to a
 * gap-free list (`GapFree`): slots [0, size) occupied, the rest empty.
 * The list does not keep itself gap-free: `add(index, _)` past the end,
 * `get` on an empty slot and `remove` before the last two elements all
 * leave holes, and the contracts say so.
 */
module ArrayList {

  import opened Slots
  import opened Ordering

  /** The capacity of a new list. */
  const DefaultCapacity: nat := 10

  /** The capacities a list can have: the default, doubled any number of times. */
  ghost predicate ReachableCapacity(c: int)
    decreases c
  {
    c == DefaultCapacity || (c > DefaultCapacity && c % 2 == 0 && ReachableCapacity(c / 2))
  }

  class MyArrayList<T(==, !new)> {
    /** The slot buffer; `None` is an empty slot. */
    var buf: array<Option<T>>
    /** The logical size. `remove` decrements it unconditionally, so it can go negative. */
    var size: int

    /**
     * The invariant every operation keeps. In particular size < capacity, so
     * growth always happens with size == capacity.
     */
    ghost predicate Valid()
      reads this
    {
      DefaultCapacity <= buf.Length && ReachableCapacity(buf.Length) && size < buf.Length
    }

    /** Slots [0, size) are occupied and the rest are empty. */
    ghost predicate GapFree()
      reads this, buf
    {
      Dense(buf[..], size)
    }

    /**
     * The buffer holds `r`, the slots an operation computed before its growth
     * check: unchanged if size stayed below |r|; otherwise doubled, with r
     * at the bottom and the new upper half empty.
     */
    ghost predicate HoldsAfterGrowth(r: seq<Option<T>>)
      reads this, buf
    {
      buf[..] == if size == |r| then Grown(r) else r
    }

    constructor ()
      ensures Valid() && GapFree() && fresh(buf)
      ensures buf.Length == DefaultCapacity && size == 0
    {
      buf := new Option<T>[DefaultCapacity](_ => None);
      size := 0;
    }

    /**
     * add(T): the item goes into the lowest-index empty slot and size grows by
     * one; if every slot is occupied nothing changes. When size reaches the
     * capacity the buffer is doubled.
     */
    method Add(item: T)
      requires Valid()
      modifies this, buf
      ensures Valid() && (buf == old(buf) || fresh(buf))
      ensures var k := FirstSlot(old(buf[..]), 0, false);
        if k == -1 then size == old(size) && buf == old(buf) && buf[..] == old(buf[..])
        else size == old(size) + 1 && HoldsAfterGrowth(old(buf[..])[k := Some(item)])
      ensures old(GapFree()) ==> GapFree() && buf[..size] == old(buf[..size]) + [Some(item)]
    {
      ghost var s := buf[..];
      ghost var n := size;
      var written := FillFirstEmpty(item);
      if written == -1 {
        assert !Dense(s, n) by {
          if Dense(s, n) {
            FirstEmptyOfDense(s, n);
          }
        }
        return;
      }
      ghost var r := buf[..];
      if size > buf.Length - 1 {
        Grow();
      }
      assert HoldsAfterGrowth(r);
      if Dense(s, n) {
        FirstEmptyOfDense(s, n);
        AppendToDense(s, n, item, buf[..]);
      }
    }

    /**
     * The loop of add(T): the scan from slot 0 stops at the first empty slot,
     * fills it and counts the item; it returns that slot, or -1 when every
     * slot is occupied.
     */
    method FillFirstEmpty(item: T) returns (w: int)
      modifies this, buf
      ensures buf == old(buf) && w == FirstSlot(old(buf[..]), 0, false)
      ensures w == -1 ==> size == old(size) && buf[..] == old(buf[..])
      ensures w != -1 ==> size == old(size) + 1 && buf[..] == old(buf[..])[w := Some(item)]
    {
      ghost var s := buf[..];
      w := -1;
      var i := 0;
      while i < buf.Length
        invariant 0 <= i <= buf.Length
        invariant buf == old(buf) && size == old(size) && buf[..] == s
        invariant forall k :: 0 <= k < i ==> buf[k].Some?
      {
        if buf[i].None? {
          buf[i] := Some(item);
          size := size + 1;
          w := i;
          break;
        }
        i := i + 1;
      }
    }

    /**
     * add(int, T): slots [index, size) move one place right, over slot size,
     * the item is written at `index` and size grows by one; the buffer is doubled when
     * size reaches the capacity. Inside a gap-free list this is sequence
     * insertion.
     */
    method AddAt(index: int, item: T)
      requires Valid()
      requires 0 <= index < buf.Length
      modifies this, buf
      ensures Valid() && (buf == old(buf) || fresh(buf))
      ensures size == old(size) + 1
      ensures HoldsAfterGrowth(Inserted(old(buf[..]), old(size), index, Some(item)))
      ensures old(GapFree()) && index <= old(size) ==>
                GapFree() && buf[..size] == old(buf[..index]) + [Some(item)] + old(buf[index..size])
    {
      // add(int, T) checks size == myList.length before shifting; that check
      // can never succeed, because Valid() keeps size below the capacity.
      ghost var s := buf[..];
      ghost var n := size;
      ShiftRight(buf, index, size);
      buf[index] := Some(item);
      size := size + 1;
      ghost var r := Inserted(s, n, index, Some(item));
      assert buf[..] == r;
      if size == buf.Length {
        Grow();
      }
      if Dense(s, n) && index <= n {
        InsertIntoDense(s, n, index, item);
        DenseAfterGrowth(r, size, buf[..]);
      }
    }

    /**
     * The loop of add(int, T): from position n down to index + 1 each slot
     * takes its left neighbour's value.
     */
    static method ShiftRight(a: array<Option<T>>, index: int, n: int)
      requires 0 <= index < a.Length && n < a.Length
      modifies a
      ensures a[..] == Shifted(old(a[..]), index, n)
    {
      ghost var s := a[..];
      var i := n;
      while i > index
        invariant i <= n && (index <= i || i == n)
        invariant forall k :: 0 <= k < a.Length && (k <= i || n < k) ==> a[k] == s[k]
        invariant forall k :: i < k <= n ==> a[k] == s[k - 1]
      {
        a[i] := a[i - 1];
        i := i - 1;
      }
      assert forall k :: 0 <= k < a.Length ==> a[k] == Shifted(s, index, n)[k];
    }

    /**
     * copyMyArrayList: a fresh buffer of twice the capacity holding the first
     * size slots; the rest of it is empty.
     */
    method Grow()
      requires 0 <= size <= buf.Length
      modifies this
      ensures fresh(buf) && buf.Length == 2 * old(buf.Length) && size == old(size)
      ensures buf[..size] == old(buf[..size])
      ensures forall k :: size <= k < buf.Length ==> buf[k].None?
      ensures ReachableCapacity(old(buf.Length)) ==> ReachableCapacity(buf.Length)
      ensures size == old(buf.Length) ==> buf[..] == Grown(old(buf[..]))
    {
      var src := buf;
      var grown := new Option<T>[2 * src.Length](_ => None);
      for k := 0 to size
        invariant buf == src && size == old(size)
        invariant forall j :: 0 <= j < k ==> grown[j] == src[j]
        invariant forall j :: k <= j < grown.Length ==> grown[j].None?
      {
        grown[k] := src[k];
      }
      buf := grown;
      assert buf[..size] == src[..size] by {
        assert forall j :: 0 <= j < size ==> buf[j] == src[j];
      }
      if size == src.Length {
        assert buf[..] == Grown(src[..]) by {
          assert forall j :: 0 <= j < buf.Length ==> buf[j] == Grown(src[..])[j];
        }
      }
    }

    /**
     * get(int): if slot `index` is empty, the first occupied slot at position
     * >= 1 is moved into it; the result is what slot `index` then holds. An
     * occupied slot is returned with nothing changed.
     */
    method Get(index: int) returns (r: Option<T>)
      requires Valid() && 0 <= index < buf.Length
      modifies buf
      ensures buf[..] == Compacted(old(buf[..]), index)
      ensures r == buf[index]
      ensures old(buf[index]).Some? ==> r == old(buf[index]) && buf[..] == old(buf[..])
    {
      ghost var s := buf[..];
      ghost var j := FirstSlot(s, 1, true);
      ghost var moves := s[index].None? && j != -1;
      for i := 0 to buf.Length - 1
        invariant if moves && j <= i then buf[..] == s[index := s[j]][j := None] else buf[..] == s
      {
        if buf[index].None? {
          buf[index] := buf[i + 1];
          buf[i + 1] := None;
        }
      }
      r := buf[index];
    }

    /** size(): the logical size, nothing changed. */
    method Size() returns (n: int)
      ensures n == size
    {
      n := size;
    }

    /**
     * remove(int): for an index in the buffer below its last slot, slot
     * `index` takes the content of slot index + 1, which is emptied, and size
     * drops by one whether or not the slot held anything. Any other index
     * outside the buffer changes nothing. (At the last slot, remove(int) throws
     * after decrementing size; that index is excluded.)
     */
    method Remove(index: int)
      requires Valid()
      requires index != buf.Length - 1
      modifies this, buf
      ensures Valid() && buf == old(buf)
      ensures buf[..] == RemovedAt(old(buf[..]), index)
      ensures size == if 0 <= index < buf.Length then old(size) - 1 else old(size)
    {
      ghost var s := buf[..];
      ghost var n := size;
      for i := 0 to buf.Length
        invariant buf == old(buf)
        invariant if 0 <= index < i then buf[..] == RemovedAt(s, index) && size == n - 1
                  else buf[..] == s && size == n
      {
        if i == index {
          buf[i] := None;
          size := size - 1;
          if buf[index].None? {
            buf[index] := buf[i + 1];
            buf[i + 1] := None;
          }
        }
      }
    }

    /** removeAll(): every slot emptied, size reset to 0, capacity kept. */
    method RemoveAll()
      requires Valid()
      modifies this, buf
      ensures Valid() && GapFree() && buf == old(buf) && size == 0
      ensures forall k :: 0 <= k < buf.Length ==> buf[k].None?
    {
      for i := 0 to buf.Length
        invariant buf == old(buf) && size == old(size)
        invariant forall k :: 0 <= k < i ==> buf[k].None?
      {
        buf[i] := None;
      }
      size := 0;
    }

    /**
     * indexOf(T): the first index below size whose slot equals `item`, or -1.
     * Searching for `None` (Java's null) finds the first empty slot; searching
     * for an element finds the first slot holding an equal one.
     */
    method IndexOf(item: Option<T>) returns (r: int)
      requires Valid()
      ensures r == -1 || 0 <= r < size
      ensures r == -1 <==> forall k :: 0 <= k < size ==> buf[k] != item
      ensures r != -1 ==> buf[r] == item && forall k :: 0 <= k < r ==> buf[k] != item
    {
      if item.None? {
        var i := 0;
        while i < size
          invariant 0 <= i && (i <= size || i == 0)
          invariant forall k :: 0 <= k < i ==> buf[k].Some?
        {
          if buf[i].None? {
            return i;
          }
          i := i + 1;
        }
      } else {
        var i := 0;
        while i < size
          invariant 0 <= i && (i <= size || i == 0)
          invariant forall k :: 0 <= k < i ==> buf[k] != item
        {
          if buf[i].Some? && item.value == buf[i].value {
            return i;
          }
          i := i + 1;
        }
      }
      return -1;
    }

    /**
     * reverse(): two pointers from both ends of [0, size) swap and move
     * inward until they meet; the slots from size on are untouched.
     */
    method Reverse()
      requires Valid()
      modifies buf
      ensures buf[..] == ReversedPrefix(old(buf[..]), size)
      ensures multiset(buf[..]) == old(multiset(buf[..]))
      ensures old(GapFree()) ==> GapFree()
    {
      ghost var s := buf[..];
      SwapInward(buf, size);
      ReversedPrefixByElements(s, buf[..], size);
      if 0 <= size {
        ReversedPrefixPermutes(s, size);
      }
      if Dense(s, size) {
        ReverseDense(s, size);
      }
    }

    /**
     * The loop of reverse(): pointers at 0 and n - 1 exchange their slots
     * and step inward until they meet, reversing a[..n].
     */
    static method SwapInward(a: array<Option<T>>, n: int)
      requires n <= a.Length
      modifies a
      ensures forall k :: 0 <= k < n ==> a[k] == old(a[n - 1 - k])
      ensures forall k :: 0 <= k < a.Length && n <= k ==> a[k] == old(a[k])
    {
      var left := 0;
      var right := n - 1;
      while left < right
        invariant 0 <= left && right == n - 1 - left
        invariant left <= right + 1 || left == 0
        invariant forall k :: 0 <= k < left ==> a[k] == old(a[n - 1 - k])
        invariant forall k :: right < k < n ==> a[k] == old(a[n - 1 - k])
        invariant forall k :: left <= k <= right ==> a[k] == old(a[k])
        invariant forall k :: 0 <= k < a.Length && n <= k ==> a[k] == old(a[k])
      {
        var temp := a[left];
        a[left] := a[right];
        a[right] := temp;
        left := left + 1;
        right := right - 1;
      }
    }

    /**
     * sort(Comparator): nothing to do on an empty list; otherwise quicksort
     * over [0, size - 1]. The slots [0, size) end up a permutation of what
     * they held, non-decreasing under cmp; the slots from size on are
     * untouched.
     */
    method Sort(cmp: (Option<T>, Option<T>) -> int)
      requires Valid() && TotalPreorder(cmp)
      modifies buf
      ensures Sorted(buf[..], 0, size, cmp)
      ensures multiset(buf[..]) == old(multiset(buf[..]))
      ensures 0 <= size ==> multiset(buf[..size]) == old(multiset(buf[..size]))
      ensures forall k :: 0 <= k < buf.Length && size <= k ==> buf[k] == old(buf[k])
    {
      if size == 0 {
        return;
      }
      ghost var s := buf[..];
      QuickSort(buf, 0, size - 1, cmp);
      if 0 <= size {
        PermutationInside(s, buf[..], 0, size);
      }
    }

    /**
     * quickSort: partition around the leftmost element, then sort both sides
     * of the pivot's final position. Only [left, right] is touched.
     */
    static method QuickSort(a: array<Option<T>>, left: int, right: int, cmp: (Option<T>, Option<T>) -> int)
      requires 0 <= left && right < a.Length
      requires TotalPreorder(cmp)
      modifies a
      ensures Sorted(a[..], left, right + 1, cmp)
      ensures SameOutside(old(a[..]), a[..], left, right + 1)
      ensures multiset(a[..]) == old(multiset(a[..]))
      decreases right - left
    {
      if left >= right {
        return;
      }
      ghost var s0 := a[..];
      var pivotIndex := Partition(a, left, right, cmp);
      ghost var s1 := a[..];
      QuickSort(a, left, pivotIndex - 1, cmp);
      ghost var s2 := a[..];
      QuickSort(a, pivotIndex + 1, right, cmp);
      SortedAfterRecursion(s1, s2, a[..], left, pivotIndex, right + 1, cmp);
      SameOutsideTrans(s0, s1, a[..], left, right + 1);
    }

    /**
     * partition: the leftmost element is the pivot; a low pointer skips
     * elements <= pivot, a high pointer skips elements > pivot, and
     * out-of-place pairs are swapped until the pointers cross. The pivot is
     * then swapped to the high pointer's position p: everything in [left, p)
     * is <= pivot, everything in (p, right] is > pivot.
     */
    static method Partition(a: array<Option<T>>, left: int, right: int, cmp: (Option<T>, Option<T>) -> int)
      returns (p: int)
      requires 0 <= left <= right < a.Length
      modifies a
      ensures left <= p <= right
      ensures a[p] == old(a[left])
      ensures PartitionedAt(a[..], left, p, right + 1, cmp)
      ensures SameOutside(old(a[..]), a[..], left, right + 1)
      ensures multiset(a[..]) == old(multiset(a[..]))
    {
      var pivot := a[left];
      var j := Scan(a, left, right, pivot, cmp);
      Swap(a, left, j);
      p := j;
    }

    /**
     * The pointer loop of partition: on return every element of (left, j]
     * is <= pivot, every element of (j, right] is > pivot, and only
     * positions in (left, right] have been moved.
     */
    static method Scan(a: array<Option<T>>, left: int, right: int, pivot: Option<T>,
                       cmp: (Option<T>, Option<T>) -> int)
      returns (j: int)
      requires 0 <= left <= right < a.Length
      modifies a
      ensures left <= j <= right
      ensures forall k :: left < k <= j ==> cmp(a[k], pivot) <= 0
      ensures forall k :: j < k <= right ==> cmp(a[k], pivot) > 0
      ensures forall k :: 0 <= k < a.Length && !(left < k <= right) ==> a[k] == old(a[k])
      ensures multiset(a[..]) == old(multiset(a[..]))
    {
      var i := left + 1;
      j := right;
      while i <= j
        invariant left + 1 <= i <= j + 1 <= right + 1
        invariant forall k :: left < k < i ==> cmp(a[k], pivot) <= 0
        invariant forall k :: j < k <= right ==> cmp(a[k], pivot) > 0
        invariant forall k :: 0 <= k < a.Length && !(left < k <= right) ==> a[k] == old(a[k])
        invariant multiset(a[..]) == old(multiset(a[..]))
        decreases j - i + 1, if i <= j && cmp(a[i], pivot) > 0 then 1 else 0
      {
        while i <= j && cmp(a[i], pivot) <= 0
          invariant left + 1 <= i <= j + 1
          invariant forall k :: left < k < i ==> cmp(a[k], pivot) <= 0
        {
          i := i + 1;
        }
        while i <= j && cmp(a[j], pivot) > 0
          invariant left <= j <= right && i <= j + 1
          invariant forall k :: j < k <= right ==> cmp(a[k], pivot) > 0
        {
          j := j - 1;
        }
        if i < j {
          Swap(a, i, j);
        }
      }
    }

    /** The three-assignment exchange through a temporary that partition uses. */
    static method Swap(a: array<Option<T>>, i: int, j: int)
      requires 0 <= i < a.Length && 0 <= j < a.Length
      modifies a
      ensures a[i] == old(a[j]) && a[j] == old(a[i])
      ensures forall k :: 0 <= k < a.Length && k != i && k != j ==> a[k] == old(a[k])
      ensures multiset(a[..]) == old(multiset(a[..]))
    {
      var temp := a[i];
      a[i] := a[j];
      a[j] := temp;
      assert a[..] == old(a[..])[i := old(a[j])][j := old(a[i])];
      SwapPermutes(old(a[..]), i, j);
    }
  }
}
