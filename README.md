# MyArrayList in Dafny

A model of `MyArrayListImpl<T>`, a growable array list. The list keeps a buffer
of nullable slots and an integer `size`. The buffer starts with capacity 10 and
doubles when `size` reaches the capacity. The operations are:

- `add(T)` fills the first empty slot.
- `add(int, T)` moves slots `[index, size)` one place right, over slot `size`, and writes at `index`.
- `get` moves an element into an empty slot before reading it.
- `remove` moves only one neighbour.
- `removeAll` empties every slot.
- `indexOf` has a separate case for `null`.
- `reverse` swaps with two pointers.
- `sort` is a quicksort with a leftmost pivot and a caller-supplied comparator.

The project has five files:

- `slots.dfy`, module `Slots`: the buffer as a sequence of `Option` slots, with `None`
  standing for Java's `null`. Each mutating operation has a function on the old
  slot sequence:
  - `FirstSlot` finds the first empty or occupied slot.
  - `Inserted` models `add(int, T)`.
  - `Compacted` models `get`.
  - `RemovedAt` models `remove`.
  - `ReversedPrefix` models `reverse`.
  - `Grown` models the buffer after growth.

  The lemmas say what these functions mean on a gap-free buffer (`Dense`: slots
  `[0, n)` occupied, the rest empty) and off it.
- `ordering.dfy`, module `Ordering`: comparators. It says what a sort needs of one
  (`cmp(x, y) <= 0` is a total preorder), defines sortedness, and proves the
  permutation facts that quicksort relies on. It also proves that a sorted
  arrangement is unique under an antisymmetric order.
- `array_list.dfy`, module `ArrayList`: the class `MyArrayList` with the fields
  `buf: array<Option<T>>` and `size: int`.
  - Each Java method becomes a method of the class.
  - `Add`, `AddAt`, `Get`, `Remove` and `Reverse` change the array in place.
    Each `ensures` ties `buf[..]` to the matching `Slots` function of
    `old(buf[..])`. The `ensures` also states what happens on a gap-free list.
  - `RemoveAll` is specified slot by slot: every slot empty, size 0.
  - `Sort` and `QuickSort` are specified by sortedness under the comparator, a
    multiset of slots that is kept, and the slots they leave alone.
  - `Size` and `IndexOf` change nothing. `IndexOf`'s `ensures` characterises the
    index it returns.
  - `Valid()` says the capacity is 10·2^k and `size < capacity`. Every operation
    keeps it.
  - The loops of `add(T)`, `add(int, T)`, `reverse` and `partition` are separate
    methods:
    - `FillFirstEmpty` for `add(T)`.
    - `ShiftRight` for `add(int, T)`.
    - `SwapInward` for `reverse`.
    - `Scan` and `Swap` for `partition`.

    They run the same statements in the same order.
- `natural_order.dfy`, module `NaturalOrder`: `String.compareTo` and the natural
  order on slots. It proves that this order is an antisymmetric total preorder.
- `scenarios.dfy`, module `Scenarios`: the unit tests as client methods. Each
  method's `ensures` is the test's assertions.

`size` is an `int` because `remove` decrements it without checking, so it can
become negative. Because `Valid()` keeps `size` below the capacity, both growth
checks can only succeed with `size == capacity`. `copyMyArrayList` copies the
first `size` slots, which is then the whole buffer, so a growth never loses an
element, not even one that `add(int, T)` placed beyond `size`. Growth always
produces exactly `Grown(old slots)`. The same fact makes the first growth check
of `add(int, T)` (line 48), `size == myList.length`, never true. The method body
does not contain it.

## Model

| member | source | states |
|---|---|---|
| `ArrayList.MyArrayList.constructor` | src/main/java/igor/dev/task1/arraylist/impl/MyArrayListImpl.java:16-18 | a new list has capacity 10, size 0, every slot empty; it is valid and gap-free |
| `ArrayList.MyArrayList.Add` | src/main/java/igor/dev/task1/arraylist/impl/MyArrayListImpl.java:27-38 | the item goes into the lowest empty slot and size grows by 1, with the buffer doubled (everything kept, upper half empty) when size reaches the capacity. If no slot is empty nothing changes. On a gap-free list the new first size slots are the old ones plus the item, and the list stays gap-free. Validity is kept |
| `ArrayList.MyArrayList.FillFirstEmpty` | src/main/java/igor/dev/task1/arraylist/impl/MyArrayListImpl.java:28-34 | the scan returns the first empty slot (or -1 if there is none), writes the item there and counts it; nothing else changes |
| `ArrayList.MyArrayList.AddAt` | src/main/java/igor/dev/task1/arraylist/impl/MyArrayListImpl.java:47-59 | the slots become `Inserted(old slots, old size, index, item)`, then grow when full; size grows by 1. For index <= size on a gap-free list, the first size slots are old[..index] + [item] + old[index..size] and the list stays gap-free. Validity is kept |
| `ArrayList.MyArrayList.ShiftRight` | src/main/java/igor/dev/task1/arraylist/impl/MyArrayListImpl.java:51-53 | the downward copy loop leaves exactly `Shifted(old, index, n)`: slots (index, n] take their left neighbour |
| `ArrayList.MyArrayList.Grow` | src/main/java/igor/dev/task1/arraylist/impl/MyArrayListImpl.java:174-178 | a fresh buffer of twice the capacity holds the first size slots, and the rest are empty. At size == capacity it is `Grown(old slots)`. The capacity stays of the form 10·2^k |
| `ArrayList.MyArrayList.Get` | src/main/java/igor/dev/task1/arraylist/impl/MyArrayListImpl.java:68-76 | the slots become `Compacted(old slots, index)` and the result is the new slot `index`. An occupied slot is returned with nothing changed |
| `ArrayList.MyArrayList.Size` | src/main/java/igor/dev/task1/arraylist/impl/MyArrayListImpl.java:84-86 | returns size and changes nothing |
| `ArrayList.MyArrayList.Remove` | src/main/java/igor/dev/task1/arraylist/impl/MyArrayListImpl.java:96-107 | the slots become `RemovedAt(old slots, index)`; size drops by 1 exactly when index is inside the buffer, whether or not the slot held anything; validity is kept |
| `ArrayList.MyArrayList.RemoveAll` | src/main/java/igor/dev/task1/arraylist/impl/MyArrayListImpl.java:110-116 | every slot is empty, size is 0, the same buffer (capacity) is kept, and the list is valid and gap-free |
| `ArrayList.MyArrayList.IndexOf` | src/main/java/igor/dev/task1/arraylist/impl/MyArrayListImpl.java:127-142 | the result is -1 or in [0, size). It is -1 if and only if no slot below size equals the item, and otherwise it is the first such slot. `None` (null) matches an empty slot. The buffer is not changed |
| `ArrayList.MyArrayList.Reverse` | src/main/java/igor/dev/task1/arraylist/impl/MyArrayListImpl.java:149-159 | the slots become `ReversedPrefix(old slots, size)`. The multiset of slots is kept, a gap-free list stays gap-free, and size is unchanged |
| `ArrayList.MyArrayList.SwapInward` | src/main/java/igor/dev/task1/arraylist/impl/MyArrayListImpl.java:150-158 | after the two-pointer loop, slot k < n holds old slot n-1-k, and every slot from n on is unchanged |
| `ArrayList.MyArrayList.Sort` | src/main/java/igor/dev/task1/arraylist/impl/MyArrayListImpl.java:167-172 | slots [0, size) become non-decreasing under cmp and a permutation of what they held. Slots from size on are unchanged, so an empty list is left as it was |
| `ArrayList.MyArrayList.QuickSort` | src/main/java/igor/dev/task1/arraylist/impl/MyArrayListImpl.java:180-187 | [left, right] ends sorted and permuted; nothing outside it changes |
| `ArrayList.MyArrayList.Partition` | src/main/java/igor/dev/task1/arraylist/impl/MyArrayListImpl.java:189-210 | returns p in [left, right] with the old leftmost element (the pivot) at p, everything in [left, p) <= pivot and everything in (p, right] > pivot; the slice is permuted and nothing outside it changes |
| `ArrayList.MyArrayList.Scan` | src/main/java/igor/dev/task1/arraylist/impl/MyArrayListImpl.java:191-205 | the pointer loop stops with j in [left, right], (left, j] <= pivot and (j, right] > pivot, having only permuted (left, right] |
| `ArrayList.MyArrayList.Swap` | src/main/java/igor/dev/task1/arraylist/impl/MyArrayListImpl.java:201-208 | the two slots exchange contents, nothing else changes, and the multiset is kept |
| `Slots.FirstSlot` | src/main/java/igor/dev/task1/arraylist/impl/MyArrayListImpl.java:28-34 | the lowest slot at or above `from` that is empty (or occupied), -1 if and only if there is none, and no earlier slot qualifies |
| `Slots.Grown` | src/main/java/igor/dev/task1/arraylist/impl/MyArrayListImpl.java:174-178 | twice the length, the old slots at the bottom, the upper half empty |
| `Slots.DenseAfterGrowth` | src/main/java/igor/dev/task1/arraylist/impl/MyArrayListImpl.java:36-38 | the growth check keeps a gap-free buffer gap-free with the same first m slots |
| `Slots.FirstEmptyOfDense` | src/main/java/igor/dev/task1/arraylist/impl/MyArrayListImpl.java:28-34 | on a gap-free list with room left, the first empty slot is slot size |
| `Slots.AppendToDense` | src/main/java/igor/dev/task1/arraylist/impl/MyArrayListImpl.java:27-38 | writing at slot size of a gap-free list, then the growth check, gives a gap-free list whose first size+1 slots are the old ones plus the item |
| `Slots.Shifted` | src/main/java/igor/dev/task1/arraylist/impl/MyArrayListImpl.java:51-53 | the shift loop's result as a slot sequence of the buffer's length (its meaning on a gap-free list is `InsertIntoDense`) |
| `Slots.Inserted` | src/main/java/igor/dev/task1/arraylist/impl/MyArrayListImpl.java:51-55 | the shift followed by the write, as a slot sequence of the buffer's length (its meaning: `InsertIntoDense`, `InsertPastEnd`) |
| `Slots.InsertIntoDense` | src/main/java/igor/dev/task1/arraylist/impl/MyArrayListImpl.java:47-59 | for index <= size on a gap-free list, insertion is sequence insertion and the list stays gap-free, one longer |
| `Slots.InsertPastEnd` | src/main/java/igor/dev/task1/arraylist/impl/MyArrayListImpl.java:51-55 | for size < index the shift does nothing and only slot `index` is written |
| `Slots.Compacted` | src/main/java/igor/dev/task1/arraylist/impl/MyArrayListImpl.java:68-76 | the multiset of slots is kept; an occupied slot leaves everything unchanged; slot `index` ends empty exactly when it was empty and so was every slot from 1 on; at most one other slot changes, and it becomes empty after moving into `index` |
| `Slots.GetInsideDense` | src/main/java/igor/dev/task1/arraylist/impl/MyArrayListImpl.java:68-76 | reading below size of a gap-free list changes nothing |
| `Slots.GetPastEndOfDense` | src/main/java/igor/dev/task1/arraylist/impl/MyArrayListImpl.java:68-76 | reading at or past size of a gap-free list of at least two moves its second element out to `index` and the list is no longer gap-free |
| `Slots.RemovedAt` | src/main/java/igor/dev/task1/arraylist/impl/MyArrayListImpl.java:96-107 | remove's result as a slot sequence of the buffer's length (its meaning: `RemoveDropsOne`, `RemoveNearEndOfDense`, `RemoveEarlierLeavesHole`) |
| `Slots.RemoveDropsOne` | src/main/java/igor/dev/task1/arraylist/impl/MyArrayListImpl.java:96-107 | exactly the old slot `index` leaves the multiset, an empty slot joins it, and every slot other than index and index+1 is unchanged |
| `Slots.RemoveNearEndOfDense` | src/main/java/igor/dev/task1/arraylist/impl/MyArrayListImpl.java:96-107 | removing one of the last two elements of a gap-free list is a true removal: gap-free, one shorter, old[..index] + old[index+1..size] |
| `Slots.RemoveEarlierLeavesHole` | src/main/java/igor/dev/task1/arraylist/impl/MyArrayListImpl.java:96-107 | removing any earlier element leaves a hole at index+1 inside the new size and the last element beyond it, so the list is no longer gap-free |
| `Slots.Reversed` | src/main/java/igor/dev/task1/arraylist/impl/MyArrayListImpl.java:149-159 | the reversal of a sequence keeps its length; position by position it is `ReversedElement` |
| `Slots.ReversedElement` | src/main/java/igor/dev/task1/arraylist/impl/MyArrayListImpl.java:149-159 | position k of a reversal holds element \|t\|-1-k |
| `Slots.ReversedMultiset` | src/main/java/igor/dev/task1/arraylist/impl/MyArrayListImpl.java:149-159 | reversal is a permutation |
| `Slots.ReversedTwice` | src/main/java/igor/dev/task1/arraylist/impl/MyArrayListImpl.java:149-159 | reversing twice is the identity |
| `Slots.ReversedPrefix` | src/main/java/igor/dev/task1/arraylist/impl/MyArrayListImpl.java:149-159 | the slots after `reverse()`: the buffer's length is kept, and `ReversedPrefixElement` gives slot i < size as old slot size-1-i, with the rest unchanged |
| `Slots.ReversedPrefixElement` | src/main/java/igor/dev/task1/arraylist/impl/MyArrayListImpl.java:149-159 | after reverse, slot i < size holds old slot size-1-i and every other slot is unchanged |
| `Slots.ReversedPrefixTwice` | src/main/java/igor/dev/task1/arraylist/impl/MyArrayListImpl.java:149-159 | reverse applied twice restores the buffer |
| `Slots.ReversedPrefixPermutes` | src/main/java/igor/dev/task1/arraylist/impl/MyArrayListImpl.java:149-159 | reverse permutes both the whole buffer and its first size slots |
| `Slots.ReverseDense` | src/main/java/igor/dev/task1/arraylist/impl/MyArrayListImpl.java:149-159 | reverse keeps a gap-free list gap-free |
| `Ordering.SwapPermutes` | src/main/java/igor/dev/task1/arraylist/impl/MyArrayListImpl.java:201-203 | an exchange of two positions is a permutation |
| `Ordering.PermutationInside` | src/main/java/igor/dev/task1/arraylist/impl/MyArrayListImpl.java:167-172 | a permutation that moved nothing outside a slice permutes the slice |
| `Ordering.AllBetweenPermuted` | src/main/java/igor/dev/task1/arraylist/impl/MyArrayListImpl.java:180-187 | a property of every element of a slice survives a permutation inside the slice |
| `Ordering.SortedAroundPivot` | src/main/java/igor/dev/task1/arraylist/impl/MyArrayListImpl.java:180-187 | a sorted left part <= pivot, the pivot, and a sorted right part > pivot make a sorted range |
| `Ordering.SortedAfterRecursion` | src/main/java/igor/dev/task1/arraylist/impl/MyArrayListImpl.java:180-187 | partitioning and then sorting both sides by permutations sorts the range and changes nothing outside it |
| `Ordering.SortedUnique` | src/main/java/igor/dev/task1/arraylist/impl/MyArrayListImpl.java:167-172 | under an antisymmetric total preorder two sorted sequences with the same multiset are equal, so the sort's result is determined by the list's elements |
| `NaturalOrder.CompareStrings` | src/test/java/igor/dev/task1/arraylist/MyArrayListImplTest.java:100 | `compareTo` is 0 exactly on equal strings |
| `NaturalOrder.CompareStringsFlips` | src/test/java/igor/dev/task1/arraylist/MyArrayListImplTest.java:100 | swapping the arguments of `compareTo` negates it |
| `NaturalOrder.CompareStringsTransitive` | src/test/java/igor/dev/task1/arraylist/MyArrayListImplTest.java:100 | `compareTo(a, b) <= 0` is transitive |
| `NaturalOrder.Natural` | src/test/java/igor/dev/task1/arraylist/MyArrayListImplTest.java:100 | `Comparator.naturalOrder()` on slots: 0 exactly on equal slots, an empty slot before every string, two strings by `compareTo` |
| `NaturalOrder.NaturalIsTotalOrder` | src/test/java/igor/dev/task1/arraylist/MyArrayListImplTest.java:100-101 | the natural order on slots is an antisymmetric total preorder, so `sort` may be given it |
| `Scenarios.AddThenGet` | src/test/java/igor/dev/task1/arraylist/MyArrayListImplTest.java:22-28 | after adding "test1" and "test2": size 2, get(0) is "test1", get(1) is "test2" |
| `Scenarios.Filled` | src/test/java/igor/dev/task1/arraylist/MyArrayListImplTest.java:22-28 | for any item sequence, appending the items one by one to a fresh list (past capacity 10 as well) gives a valid gap-free list of size n whose slot k holds item k |
| `Scenarios.AddAtThenGet` | src/test/java/igor/dev/task1/arraylist/MyArrayListImplTest.java:31-39 | after add(0, "test1"), add(1, "test2"), add(5, "test3"): size 3 and get(0), get(1), get(5) return the three items |
| `Scenarios.SizeAfterAdds` | src/test/java/igor/dev/task1/arraylist/MyArrayListImplTest.java:48-53 | three adds give size 3 |
| `Scenarios.RemoveLast` | src/test/java/igor/dev/task1/arraylist/MyArrayListImplTest.java:56-64 | remove(2) on three items: size 2, get(0) is "test1", get(1) is "test2" |
| `Scenarios.RemoveAllEmpties` | src/test/java/igor/dev/task1/arraylist/MyArrayListImplTest.java:67-73 | removeAll on three items gives size 0 |
| `Scenarios.IndexOfSecond` | src/test/java/igor/dev/task1/arraylist/MyArrayListImplTest.java:76-81 | indexOf("test2") among three items is 1 |
| `Scenarios.ReverseThree` | src/test/java/igor/dev/task1/arraylist/MyArrayListImplTest.java:84-92 | after reverse, get(0), get(1), get(2) are "test3", "test2", "test1" |
| `Scenarios.SortOfTestItems` | src/test/java/igor/dev/task1/arraylist/MyArrayListImplTest.java:95-106 | any sorted permutation of the test's four items under the natural order is "test1", "test2", "test3", "test4" |
| `Scenarios.SortFour` | src/test/java/igor/dev/task1/arraylist/MyArrayListImplTest.java:95-106 | after adding "test1", "test3", "test2", "test4" and sorting by the natural order, get(0..3) return them in order |

## Left out

- Java exceptions are preconditions: `get` and `add(int, T)` need `0 <= index < capacity`, and `remove` needs `index != capacity - 1`. At `capacity - 1`, `remove` decrements size and then throws. A negative index makes `add(int, T)` shift part of the buffer before it throws.
- Adding `null` as an element is not modelled, because elements are `T` wrapped in `Some`. Searching for `null` with `indexOf` is modelled.
- The comparator is a function on slots and `equals` is Dafny equality. The sort requires `cmp(x, y) <= 0` to be a total preorder, which is the Java `Comparator` contract.
- `NaturalOrder.Natural` puts an empty slot before every string; Java's `naturalOrder()` would throw on `null`. `CompareStrings` compares Dafny characters, not UTF-16 code units.
- `System.arraycopy` is modelled as a copy loop.
- Integer overflow is not modelled: capacity doubling, `size` and index arithmetic use unbounded integers.
- Recursion depth of `quickSort` is not modelled.
- The first growth check of `add(int, T)` (line 48) is left out of the method body because `Valid()` makes it unreachable.
- The doc comment of `remove` (lines 89-91) promises a full shift and a shrink to a smaller array. No code implements either, so neither is modelled.
- The `MyArrayList` interface is not part of this model.
- `getShouldReturnElementByIndex` (test lines 42-45) has no scenario of its own: `Scenarios.AddThenGet` covers it.
