/**
 * The comparator the sort test passes: the natural order of strings
 * (`String.compareTo`), lifted to slots with the empty slot first.
 */
module NaturalOrder {

  import opened Slots
  import opened Ordering

  /**
   * `String.compareTo`: the difference of the first differing characters,
   * or of the lengths when one string is a prefix of the other.
   */
  function CompareStrings(a: string, b: string): (c: int)
    ensures c == 0 <==> a == b
  {
    if |a| == 0 || |b| == 0 then |a| - |b|
    else if a[0] != b[0] then a[0] as int - b[0] as int
    else
      assert a == [a[0]] + a[1..] && b == [b[0]] + b[1..];
      CompareStrings(a[1..], b[1..])
  }

  /** Swapping the arguments negates the result. */
  lemma {:induction false} CompareStringsFlips(a: string, b: string)
    ensures CompareStrings(b, a) == -CompareStrings(a, b)
  {
    if |a| > 0 && |b| > 0 && a[0] == b[0] {
      CompareStringsFlips(a[1..], b[1..]);
    }
  }

  /** `CompareStrings(a, b) <= 0` is transitive. */
  lemma {:induction false} CompareStringsTransitive(a: string, b: string, c: string)
    requires CompareStrings(a, b) <= 0 && CompareStrings(b, c) <= 0
    ensures CompareStrings(a, c) <= 0
  {
    if |a| > 0 && a[0] == b[0] && b[0] == c[0] {
      CompareStringsTransitive(a[1..], b[1..], c[1..]);
    }
  }

  /** The comparator on slots: empty before occupied, strings by compareTo. */
  function Natural(x: Option<string>, y: Option<string>): (c: int)
    ensures c == 0 <==> x == y
    ensures x.None? && y.Some? ==> c < 0
    ensures x.Some? && y.None? ==> c > 0
  {
    match (x, y)
    case (None, None) => 0
    case (None, Some(_)) => -1
    case (Some(_), None) => 1
    case (Some(a), Some(b)) => CompareStrings(a, b)
  }

  /** The natural order is an antisymmetric total preorder. */
  lemma NaturalIsTotalOrder()
    ensures TotalPreorder(Natural) && Antisymmetric(Natural)
  {
    forall x, y
      ensures Natural(x, y) <= 0 || Natural(y, x) <= 0
    {
      if x.Some? && y.Some? {
        CompareStringsFlips(x.value, y.value);
      }
    }
    forall x, y, z | Natural(x, y) <= 0 && Natural(y, z) <= 0
      ensures Natural(x, z) <= 0
    {
      if x.Some? && y.Some? && z.Some? {
        CompareStringsTransitive(x.value, y.value, z.value);
      }
    }
    forall x, y | Natural(x, y) <= 0 && Natural(y, x) <= 0
      ensures x == y
    {
      if x.Some? && y.Some? {
        CompareStringsFlips(x.value, y.value);
      }
    }
  }
}
