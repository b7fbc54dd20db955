/**
 * The unit tests of the list, as client methods whose contracts state what
 * each test asserts about a fresh list of strings.
 */
module Scenarios {

  import opened Slots
  import opened Ordering
  import opened ArrayList
  import opened NaturalOrder

  /** Two appends: size 2, and the items come back in order. */
  method AddThenGet() returns (n: int, first: Option<string>, second: Option<string>)
    ensures n == 2 && first == Some("test1") && second == Some("test2")
  {
    var list := new MyArrayList<string>();
    list.Add("test1");
    list.Add("test2");
    n := list.Size();
    first := list.Get(0);
    second := list.Get(1);
  }

  /** Inserting at 0 and then at 1, the end of the list: a gap-free list of two. */
  method TwoInserted() returns (list: MyArrayList<string>)
    ensures fresh(list) && fresh(list.buf) && list.Valid() && list.GapFree()
    ensures list.buf.Length == DefaultCapacity
    ensures list.size == 2 && list.buf[..2] == [Some("test1"), Some("test2")]
  {
    list := new MyArrayList<string>();
    list.AddAt(0, "test1");
    assert list.buf[..1] == [Some("test1")];
    list.AddAt(1, "test2");
  }

  /**
   * Inserting at 0, at 1 and then at 5, past the end: size 3, and each item
   * sits where it was inserted.
   */
  method AddAtThenGet() returns (n: int, at0: Option<string>, at1: Option<string>, at5: Option<string>)
    ensures n == 3 && at0 == Some("test1") && at1 == Some("test2") && at5 == Some("test3")
  {
    var list := TwoInserted();
    ghost var s := list.buf[..];
    list.AddAt(5, "test3");
    InsertPastEnd(s, 2, 5, Some("test3"));
    assert list.buf[..] == s[5 := Some("test3")];
    n := list.Size();
    at0 := list.Get(0);
    at1 := list.Get(1);
    at5 := list.Get(5);
  }

  /** A fresh list after appending `items` one by one: gap-free, in order. */
  method Filled(items: seq<string>) returns (list: MyArrayList<string>)
    ensures fresh(list) && fresh(list.buf) && list.Valid() && list.GapFree()
    ensures list.size == |items| && forall k :: 0 <= k < |items| ==> list.buf[k] == Some(items[k])
  {
    list := new MyArrayList<string>();
    for i := 0 to |items|
      invariant fresh(list) && fresh(list.buf) && list.Valid() && list.GapFree()
      invariant list.size == i && forall k :: 0 <= k < i ==> list.buf[k] == Some(items[k])
    {
      ghost var before := list.buf[..i];
      list.Add(items[i]);
      assert forall k :: 0 <= k < i ==> list.buf[k] == list.buf[..i + 1][k] == before[k];
    }
  }

  /** Three appends give size 3. */
  method SizeAfterAdds() returns (n: int)
    ensures n == 3
  {
    var list := Filled(["test1", "test2", "test3"]);
    n := list.Size();
  }

  /** Removing the last of three items: size 2, the first two untouched. */
  method RemoveLast() returns (n: int, first: Option<string>, second: Option<string>)
    ensures n == 2 && first == Some("test1") && second == Some("test2")
  {
    var list := Filled(["test1", "test2", "test3"]);
    ghost var s := list.buf[..];
    list.Remove(2);
    RemoveNearEndOfDense(s, 3, 2);
    n := list.Size();
    first := list.Get(0);
    second := list.Get(1);
  }

  /** removeAll() on three items gives size 0. */
  method RemoveAllEmpties() returns (n: int)
    ensures n == 0
  {
    var list := Filled(["test1", "test2", "test3"]);
    list.RemoveAll();
    n := list.Size();
  }

  /** The second of three distinct items is found at index 1. */
  method IndexOfSecond() returns (r: int)
    ensures r == 1
  {
    var list := Filled(["test1", "test2", "test3"]);
    assert list.buf[0] == Some("test1") && list.buf[1] == Some("test2");
    r := list.IndexOf(Some("test2"));
  }

  /** Reversing three items puts them in the opposite order. */
  method ReverseThree() returns (a: Option<string>, b: Option<string>, c: Option<string>)
    ensures a == Some("test3") && b == Some("test2") && c == Some("test1")
  {
    var list := Filled(["test1", "test2", "test3"]);
    ghost var s := list.buf[..];
    list.Reverse();
    ReversedPrefixElement(s, 3, 0);
    ReversedPrefixElement(s, 3, 1);
    ReversedPrefixElement(s, 3, 2);
    a := list.Get(0);
    b := list.Get(1);
    c := list.Get(2);
  }

  /**
   * The strings of the sort test differ only in their last character, so
   * that character decides their order.
   */
  lemma {:induction false} CompareLastCharacter(p: string, x: char, y: char)
    ensures CompareStrings(p + [x], p + [y]) == x as int - y as int
  {
    if |p| > 0 {
      assert (p + [x])[1..] == p[1..] + [x];
      assert (p + [y])[1..] == p[1..] + [y];
      CompareLastCharacter(p[1..], x, y);
    } else {
      assert p + [x] == [x] && p + [y] == [y];
    }
  }

  /**
   * Whatever sorted arrangement of the sort test's four items a sort
   * produces, it is the expected one.
   */
  lemma SortOfTestItems(after: seq<Option<string>>)
    requires multiset(after) == multiset([Some("test1"), Some("test3"), Some("test2"), Some("test4")])
    requires Sorted(after, 0, |after|, Natural)
    ensures after == [Some("test1"), Some("test2"), Some("test3"), Some("test4")]
  {
    var expected := [Some("test1"), Some("test2"), Some("test3"), Some("test4")];
    assert multiset(after) == multiset(expected);
    ExpectedOrderSorted();
    NaturalIsTotalOrder();
    SortedUnique(after, expected, Natural);
  }

  /** The test's expected order is sorted under the natural order. */
  lemma ExpectedOrderSorted()
    ensures Sorted([Some("test1"), Some("test2"), Some("test3"), Some("test4")], 0, 4, Natural)
  {
    var e := [Some("test1"), Some("test2"), Some("test3"), Some("test4")];
    var last := ['1', '2', '3', '4'];
    assert "test1" == "test" + ['1'] && "test2" == "test" + ['2'];
    assert "test3" == "test" + ['3'] && "test4" == "test" + ['4'];
    assert forall k :: 0 <= k < 4 ==> e[k] == Some("test" + [last[k]]);
    forall i, j | 0 <= i < j < 4
      ensures Natural(e[i], e[j]) <= 0
    {
      CompareLastCharacter("test", last[i], last[j]);
    }
  }

  /** The four appends of the sort test, out of order. */
  method FourItems() returns (list: MyArrayList<string>)
    ensures fresh(list) && fresh(list.buf) && list.Valid() && list.GapFree() && list.size == 4
    ensures list.buf[..4] == [Some("test1"), Some("test3"), Some("test2"), Some("test4")]
  {
    list := Filled(["test1", "test3", "test2", "test4"]);
    assert list.buf[..4] == [Some("test1"), Some("test3"), Some("test2"), Some("test4")];
  }

  /** The four items of the sort test after sort(naturalOrder()). */
  method SortedFour() returns (list: MyArrayList<string>)
    ensures fresh(list) && fresh(list.buf) && list.Valid() && list.size == 4
    ensures list.buf[..4] == [Some("test1"), Some("test2"), Some("test3"), Some("test4")]
  {
    list := FourItems();
    NaturalIsTotalOrder();
    list.Sort(Natural);
    SortedPrefix(list.buf[..], 4, Natural);
    SortOfTestItems(list.buf[..4]);
  }

  /**
   * Four items out of order, sorted by the natural order of strings, come
   * back in order.
   */
  method SortFour() returns (a: Option<string>, b: Option<string>, c: Option<string>, d: Option<string>)
    ensures a == Some("test1") && b == Some("test2") && c == Some("test3") && d == Some("test4")
  {
    var list := SortedFour();
    assert list.buf[0] == Some("test1") && list.buf[1] == Some("test2");
    assert list.buf[2] == Some("test3") && list.buf[3] == Some("test4");
    a := list.Get(0);
    b := list.Get(1);
    c := list.Get(2);
    d := list.Get(3);
  }
}
