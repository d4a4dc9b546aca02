/**
 * The migration from the legacy to the modern `Example`: on a list that holds
 * only `Integer`s, both versions filter to the same even numbers in the same
 * order and compute the same sum.
 */
module Migration {
  import opened JavaInt
  import Legacy = LegacyExample
  import Modern = ModernExample

  /** A `List<Integer>` seen as a raw `List`. */
  function Box(numbers: seq<Int32>): (es: seq<Legacy.Element>)
    ensures |es| == |numbers| && forall k | 0 <= k < |es| :: es[k] == Legacy.Integer(numbers[k])
  {
    seq(|numbers|, k requires 0 <= k < |numbers| => Legacy.Integer(numbers[k]))
  }

  /** What the legacy filter leaves in the list is what the modern filter returns. */
  lemma {:induction false} FilterAgrees(numbers: seq<Int32>)
    ensures Legacy.WithoutOdd(Box(numbers)) == Box(Modern.FilterEvenNumbers(numbers))
  {
    if numbers != [] {
      FilterAgrees(numbers[1..]);
      assert Box(numbers)[1..] == Box(numbers[1..]);
      var x := numbers[0];
      if Modern.IsEven(x) {
        assert Box([x] + Modern.FilterEvenNumbers(numbers[1..])) == [Legacy.Integer(x)] + Box(Modern.FilterEvenNumbers(numbers[1..]));
      }
    }
  }

  /** The legacy exact sum over the boxed numbers is the modern exact sum. */
  lemma {:induction false} TotalAgrees(numbers: seq<Int32>)
    ensures Legacy.IntegerSum(Box(numbers)) == Modern.Total(numbers)
    decreases |numbers|
  {
    if numbers != [] {
      var n := |numbers| - 1;
      TotalAgrees(numbers[..n]);
      assert Box(numbers)[..n] == Box(numbers[..n]);
      assert numbers == numbers[..n] + [numbers[n]];
      Modern.TotalAppend(numbers[..n], [numbers[n]]);
      assert [numbers[n]][1..] == [];
    }
  }

  /** Both `sum`s give the same `int`, overflow included. */
  lemma SumAgrees(numbers: seq<Int32>)
    ensures Wrap(Legacy.IntegerSum(Box(numbers))) == Modern.Sum(numbers)
  {
    TotalAgrees(numbers);
  }

  /**
   * Running the legacy methods on a raw list of `Integer`s leaves it holding
   * the modern filter's result, and the legacy sum of that list is the modern sum.
   */
  method LegacyOnIntegers(numbers: Legacy.RawList, ghost values: seq<Int32>) returns (total: Int32)
    requires numbers.elements == Box(values)
    modifies numbers
    ensures numbers.elements == Box(Modern.FilterEvenNumbers(values))
    ensures total == Modern.Sum(Modern.FilterEvenNumbers(values))
  {
    Legacy.FilterEvenNumbers(numbers);
    FilterAgrees(values);
    total := Legacy.Sum(numbers);
    SumAgrees(Modern.FilterEvenNumbers(values));
  }
}
