/**
 * The legacy `Example` class (java_migration/legacy_java/Example.java): a raw
 * `List` that may hold any objects, filtered in place by an index loop that
 * steps back after each removal, and summed by an accumulating loop.
 */
module LegacyExample {
  import opened JavaInt

  /** An element of a raw `List`: a boxed `Integer`, `null`, or some other object. */
  datatype Element = Integer(value: Int32) | Null | Other(id: nat)

  /** A mutable raw `List`; `remove(i)` shifts the later elements down by one. */
  class RawList {
    var elements: seq<Element>

    constructor(elements0: seq<Element>)
      ensures elements == elements0
    {
      elements := elements0;
    }
  }

  /** `obj instanceof Integer && value % 2 != 0`: the elements the filter removes. */
  predicate IsOdd(e: Element) {
    e.Integer? && Rem(e.value, 2) != 0
  }

  /** The list with its odd `Integer`s taken out and everything else kept in order. */
  function WithoutOdd(es: seq<Element>): (r: seq<Element>)
    ensures |r| <= |es|
  {
    if es == [] then []
    else if IsOdd(es[0]) then WithoutOdd(es[1..])
    else [es[0]] + WithoutOdd(es[1..])
  }

  /** The number of odd `Integer`s. */
  function CountOdd(es: seq<Element>): nat {
    if es == [] then 0 else (if IsOdd(es[0]) then 1 else 0) + CountOdd(es[1..])
  }

  lemma {:induction false} WithoutOddAppend(a: seq<Element>, b: seq<Element>)
    ensures WithoutOdd(a + b) == WithoutOdd(a) + WithoutOdd(b)
  {
    if a == [] {
      assert a + b == b;
    } else {
      assert (a + b)[0] == a[0] && (a + b)[1..] == a[1..] + b;
      WithoutOddAppend(a[1..], b);
    }
  }

  /** Filtering one more element: it is kept exactly when it is not an odd `Integer`. */
  lemma WithoutOddSnoc(s: seq<Element>, e: Element)
    ensures WithoutOdd(s + [e]) == WithoutOdd(s) + (if IsOdd(e) then [] else [e])
  {
    WithoutOddAppend(s, [e]);
    assert [e][1..] == [];
  }

  /** No odd `Integer` is left, and everything else is kept: membership both ways. */
  lemma {:induction false} WithoutOddMembers(es: seq<Element>, e: Element)
    ensures e in WithoutOdd(es) <==> e in es && !IsOdd(e)
  {
    if es != [] {
      WithoutOddMembers(es[1..], e);
      assert es == [es[0]] + es[1..];
    }
  }

  /** After filtering, no element is an odd `Integer`. */
  lemma NoOddLeft(es: seq<Element>)
    ensures forall k | 0 <= k < |WithoutOdd(es)| :: !IsOdd(WithoutOdd(es)[k])
  {
    forall k | 0 <= k < |WithoutOdd(es)| ensures !IsOdd(WithoutOdd(es)[k]) {
      WithoutOddMembers(es, WithoutOdd(es)[k]);
    }
  }

  /** The new length is the old length less the number of odd `Integer`s. */
  lemma {:induction false} WithoutOddLength(es: seq<Element>)
    ensures |WithoutOdd(es)| == |es| - CountOdd(es)
  {
    if es != [] {
      WithoutOddLength(es[1..]);
    }
  }

  /** Filtering twice removes nothing more. */
  lemma {:induction false} WithoutOddIdempotent(es: seq<Element>)
    ensures WithoutOdd(WithoutOdd(es)) == WithoutOdd(es)
  {
    if es != [] {
      WithoutOddIdempotent(es[1..]);
      if !IsOdd(es[0]) {
        var r := [es[0]] + WithoutOdd(es[1..]);
        assert r[0] == es[0] && r[1..] == WithoutOdd(es[1..]);
      }
    }
  }

  /**
   * `filterEvenNumbers(numbers)`: walks the list with an index that is
   * stepped back after each `remove(i)`, so an element shifted into place `i`
   * is examined too and runs of odd numbers all go. The list ends up with
   * exactly its odd `Integer`s taken out.
   */
  method FilterEvenNumbers(numbers: RawList)
    modifies numbers
    ensures numbers.elements == WithoutOdd(old(numbers.elements))
    ensures forall k | 0 <= k < |numbers.elements| :: !IsOdd(numbers.elements[k])
    ensures |numbers.elements| == |old(numbers.elements)| - CountOdd(old(numbers.elements))
  {
    ghost var original := numbers.elements;
    ghost var j := 0;
    var i: int := 0;
    while i < |numbers.elements|
      invariant 0 <= i <= |numbers.elements|
      invariant 0 <= j <= |original|
      invariant numbers.elements[..i] == WithoutOdd(original[..j])
      invariant numbers.elements[i..] == original[j..]
      decreases |numbers.elements| - i
    {
      var obj := numbers.elements[i];
      assert obj == original[j];
      assert original[..j + 1] == original[..j] + [obj];
      WithoutOddSnoc(original[..j], obj);
      assert numbers.elements[i + 1..] == numbers.elements[i..][1..] == original[j + 1..];
      if obj.Integer? {
        var value := obj.value;
        if Rem(value, 2) != 0 {
          ghost var before := numbers.elements;
          numbers.elements := numbers.elements[..i] + numbers.elements[i + 1..];
          assert numbers.elements[..i] == before[..i] && numbers.elements[i..] == before[i + 1..];
          i := i - 1;
        }
      }
      i := i + 1;
      j := j + 1;
    }
    assert original[..j] == original;
    NoOddLeft(original);
    WithoutOddLength(original);
  }

  /** The exact sum of the `Integer` elements; every other element adds nothing. */
  function IntegerSum(es: seq<Element>): int {
    if es == [] then 0
    else IntegerSum(es[..|es| - 1]) + (if es[|es| - 1].Integer? then es[|es| - 1].value else 0)
  }

  /**
   * `sum(numbers)`: adds up the `Integer` elements with `int` arithmetic, so
   * the total is their exact sum wrapped to 32 bits; an empty list gives 0.
   */
  method Sum(numbers: RawList) returns (total: Int32)
    ensures total == Wrap(IntegerSum(numbers.elements))
  {
    total := 0;
    var i := 0;
    while i < |numbers.elements|
      invariant 0 <= i <= |numbers.elements|
      invariant total == Wrap(IntegerSum(numbers.elements[..i]))
    {
      var obj := numbers.elements[i];
      assert numbers.elements[..i + 1][..i] == numbers.elements[..i];
      if obj.Integer? {
        WrapAdd(IntegerSum(numbers.elements[..i]), obj.value);
        total := Add(total, obj.value);
      }
      i := i + 1;
    }
    assert numbers.elements[..i] == numbers.elements;
  }

  lemma {:induction false} IntegerSumAppend(a: seq<Element>, b: seq<Element>)
    ensures IntegerSum(a + b) == IntegerSum(a) + IntegerSum(b)
    decreases |b|
  {
    if b == [] {
      assert a + b == a;
    } else {
      var c := b[..|b| - 1];
      assert (a + b)[..|a + b| - 1] == a + c;
      IntegerSumAppend(a, c);
    }
  }

  /** Non-`Integer` elements add nothing: dropping them leaves the sum as it is. */
  lemma {:induction false} IntegerSumIgnoresOthers(a: seq<Element>, b: seq<Element>, e: Element)
    requires !e.Integer?
    ensures IntegerSum(a + [e] + b) == IntegerSum(a + b)
  {
    IntegerSumAppend(a + [e], b);
    IntegerSumAppend(a, b);
    assert (a + [e])[..|a + [e]| - 1] == a;
  }

  /** Removing odd numbers removes their values from the exact sum and nothing else. */
  lemma {:induction false} IntegerSumEvenOnly(es: seq<Element>)
    ensures IntegerSum(es) == IntegerSum(WithoutOdd(es)) + OddSum(es)
    decreases |es|
  {
    if es != [] {
      IntegerSumEvenOnly(es[1..]);
      assert es == [es[0]] + es[1..];
      IntegerSumAppend([es[0]], es[1..]);
      if !IsOdd(es[0]) {
        IntegerSumAppend([es[0]], WithoutOdd(es[1..]));
      }
      assert [es[0]][..0] == [];
    }
  }

  /** The exact sum of the odd `Integer` elements. */
  function OddSum(es: seq<Element>): int {
    if es == [] then 0 else (if IsOdd(es[0]) then es[0].value else 0) + OddSum(es[1..])
  }
}
