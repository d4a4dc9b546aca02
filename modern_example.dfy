/**
 * The modernised `Example` class (java_migration/modern_java/Example.java):
 * stream pipelines over a `List<Integer>` that build new values and never
 * change their input.
 */
module ModernExample {
  import opened Wrappers
  import opened JavaInt

  predicate IsEven(n: Int32) {
    Rem(n, 2) == 0
  }

  /** `numbers.stream().filter(n -> n % 2 == 0).collect(toList())`. */
  function FilterEvenNumbers(numbers: seq<Int32>): (r: seq<Int32>)
    ensures |r| <= |numbers|
    ensures forall k | 0 <= k < |r| :: IsEven(r[k])
  {
    if numbers == [] then []
    else if IsEven(numbers[0]) then [numbers[0]] + FilterEvenNumbers(numbers[1..])
    else FilterEvenNumbers(numbers[1..])
  }

  /** Exactly the even numbers of the input are kept. */
  lemma {:induction false} FilterMembers(numbers: seq<Int32>, n: Int32)
    ensures n in FilterEvenNumbers(numbers) <==> n in numbers && IsEven(n)
  {
    if numbers != [] {
      FilterMembers(numbers[1..], n);
      assert numbers == [numbers[0]] + numbers[1..];
    }
  }

  /** `r` is `numbers` read at the positions `pos`. */
  predicate ReadsAt(numbers: seq<Int32>, r: seq<Int32>, pos: seq<nat>) {
    |pos| == |r| && forall k | 0 <= k < |pos| :: pos[k] < |numbers| && r[k] == numbers[pos[k]]
  }

  predicate Increasing(pos: seq<nat>) {
    forall k, l | 0 <= k < l < |pos| :: pos[k] < pos[l]
  }

  /** Every position of `numbers` holding an even number is among `pos`. */
  predicate CoversEvens(numbers: seq<Int32>, pos: seq<nat>) {
    forall i | 0 <= i < |numbers| && IsEven(numbers[i]) :: i in pos
  }

  /**
   * `r` is `numbers` read at the strictly increasing positions `pos`, and
   * every position holding an even number is among them.
   */
  predicate PicksEvens(numbers: seq<Int32>, r: seq<Int32>, pos: seq<nat>) {
    ReadsAt(numbers, r, pos) && Increasing(pos) && CoversEvens(numbers, pos)
  }

  function Shift(pos: seq<nat>): (r: seq<nat>)
    ensures |r| == |pos| && forall k | 0 <= k < |r| :: r[k] == pos[k] + 1
  {
    seq(|pos|, k requires 0 <= k < |pos| => pos[k] + 1)
  }

  lemma ShiftCovers(numbers: seq<Int32>, pos: seq<nat>)
    requires CoversEvens(numbers, pos)
    ensures forall i | 1 <= i <= |numbers| && IsEven(numbers[i - 1]) :: i in Shift(pos)
  {
    var sp := Shift(pos);
    forall i | 1 <= i <= |numbers| && IsEven(numbers[i - 1]) ensures i in sp {
      var k :| 0 <= k < |pos| && pos[k] == i - 1;
      assert sp[k] == i;
    }
  }

  lemma PicksSkip(x: Int32, numbers: seq<Int32>, r: seq<Int32>, pos: seq<nat>)
    requires PicksEvens(numbers, r, pos) && !IsEven(x)
    ensures PicksEvens([x] + numbers, r, Shift(pos))
  {
    var xs, sp := [x] + numbers, Shift(pos);
    assert forall k | 0 <= k < |sp| :: xs[sp[k]] == numbers[pos[k]];
    ShiftCovers(numbers, pos);
    forall i | 0 <= i < |xs| && IsEven(xs[i]) ensures i in sp {
      assert i != 0 && xs[i] == numbers[i - 1];
    }
  }

  lemma ReadsTake(x: Int32, numbers: seq<Int32>, r: seq<Int32>, pos: seq<nat>)
    requires ReadsAt(numbers, r, pos)
    ensures ReadsAt([x] + numbers, [x] + r, [0] + Shift(pos))
  {
    var xs, xr, p := [x] + numbers, [x] + r, [0] + Shift(pos);
    forall k | 0 <= k < |p| ensures p[k] < |xs| && xr[k] == xs[p[k]] {
      if k > 0 {
        assert p[k] == pos[k - 1] + 1 && xr[k] == r[k - 1];
      }
    }
  }

  lemma IncreasingTake(pos: seq<nat>)
    requires Increasing(pos)
    ensures Increasing([0] + Shift(pos))
  {
    var p := [0] + Shift(pos);
    forall k, l | 0 <= k < l < |p| ensures p[k] < p[l] {
      assert p[l] == pos[l - 1] + 1;
      if k > 0 {
        assert p[k] == pos[k - 1] + 1;
      }
    }
  }

  lemma CoversTake(x: Int32, numbers: seq<Int32>, pos: seq<nat>)
    requires CoversEvens(numbers, pos)
    ensures CoversEvens([x] + numbers, [0] + Shift(pos))
  {
    var xs, p := [x] + numbers, [0] + Shift(pos);
    ShiftCovers(numbers, pos);
    forall i | 0 <= i < |xs| && IsEven(xs[i]) ensures i in p {
      if i != 0 {
        assert xs[i] == numbers[i - 1];
        assert i in Shift(pos);
      }
    }
  }

  lemma PicksTake(x: Int32, numbers: seq<Int32>, r: seq<Int32>, pos: seq<nat>)
    requires PicksEvens(numbers, r, pos) && IsEven(x)
    ensures PicksEvens([x] + numbers, [x] + r, [0] + Shift(pos))
  {
    ReadsTake(x, numbers, r, pos);
    IncreasingTake(pos);
    CoversTake(x, numbers, pos);
  }

  /**
   * The result is the input's even numbers in their input order: it reads the
   * input at strictly increasing positions, and every position holding an
   * even number is read.
   */
  lemma {:induction false} FilterPositions(numbers: seq<Int32>) returns (pos: seq<nat>)
    ensures PicksEvens(numbers, FilterEvenNumbers(numbers), pos)
  {
    if numbers == [] {
      pos := [];
    } else {
      var rest := FilterPositions(numbers[1..]);
      assert numbers == [numbers[0]] + numbers[1..];
      if IsEven(numbers[0]) {
        PicksTake(numbers[0], numbers[1..], FilterEvenNumbers(numbers[1..]), rest);
        pos := [0] + Shift(rest);
      } else {
        PicksSkip(numbers[0], numbers[1..], FilterEvenNumbers(numbers[1..]), rest);
        pos := Shift(rest);
      }
    }
  }

  lemma {:induction false} FilterAppend(a: seq<Int32>, b: seq<Int32>)
    ensures FilterEvenNumbers(a + b) == FilterEvenNumbers(a) + FilterEvenNumbers(b)
  {
    if a == [] {
      assert a + b == b;
    } else {
      assert (a + b)[0] == a[0] && (a + b)[1..] == a[1..] + b;
      FilterAppend(a[1..], b);
    }
  }

  /** The exact sum of the numbers. */
  function Total(numbers: seq<Int32>): int {
    if numbers == [] then 0 else numbers[0] + Total(numbers[1..])
  }

  lemma {:induction false} TotalAppend(a: seq<Int32>, b: seq<Int32>)
    ensures Total(a + b) == Total(a) + Total(b)
  {
    if a == [] {
      assert a + b == b;
    } else {
      assert (a + b)[0] == a[0] && (a + b)[1..] == a[1..] + b;
      TotalAppend(a[1..], b);
    }
  }

  /**
   * `numbers.stream().mapToInt(Integer::intValue).sum()`: `int` additions,
   * so the result is the exact sum wrapped to 32 bits; an empty list gives 0.
   */
  function Sum(numbers: seq<Int32>): (r: Int32)
    ensures r == Wrap(Total(numbers))
  {
    if numbers == [] then 0
    else
      var rest := Sum(numbers[1..]);
      WrapAdd(Total(numbers[1..]), numbers[0]);
      Add(numbers[0], rest)
  }

  /** `numbers.stream().mapToInt(Integer::intValue).max()`, with `None` for an empty `OptionalInt`. */
  function Max(numbers: seq<Int32>): (r: Option<Int32>)
    ensures r.None? <==> numbers == []
    ensures r.Some? ==> r.value in numbers && forall k | 0 <= k < |numbers| :: numbers[k] <= r.value
  {
    if numbers == [] then None
    else
      match Max(numbers[1..])
      case None => Some(numbers[0])
      case Some(m) =>
        assert forall k | 1 <= k < |numbers| :: numbers[k] == numbers[1..][k - 1];
        Some(if numbers[0] >= m then numbers[0] else m)
  }
}
