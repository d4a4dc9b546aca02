/**
 * Java's 32-bit `int`: values in [-2^31, 2^31), addition that wraps around
 * modulo 2^32, and the remainder operator `%`, which truncates toward zero so
 * that its result takes the sign of the dividend.
 */
module JavaInt {
  const Modulus: int := 0x1_0000_0000
  const MinInt: int := -0x8000_0000
  const MaxInt: int := 0x7FFF_FFFF

  type Int32 = x: int | MinInt <= x <= MaxInt

  /** The `int` that a mathematical integer wraps to: the one congruent to it modulo 2^32. */
  function Wrap(x: int): (r: Int32)
    ensures (x - r) % Modulus == 0
    ensures MinInt <= x <= MaxInt ==> r == x
  {
    (x - MinInt) % Modulus + MinInt
  }

  /** Two integers that differ by a multiple of 2^32 wrap to the same `int`. */
  lemma WrapCongruent(x: int, y: int)
    requires (x - y) % Modulus == 0
    ensures Wrap(x) == Wrap(y)
  {
    var q := (x - y) / Modulus;
    assert x - y == q * Modulus;
    assert x - MinInt == (y - MinInt) + q * Modulus;
    ModAddMultiple(y - MinInt, q);
  }

  lemma ModAddMultiple(a: int, q: int)
    ensures (a + q * Modulus) % Modulus == a % Modulus
  {
    var r := a % Modulus;
    var d := a / Modulus;
    assert a == d * Modulus + r;
    assert a + q * Modulus == (d + q) * Modulus + r;
  }

  /** Wrapping an intermediate result does not change the final wrap, so a running `+=` wraps like the exact sum. */
  lemma WrapAdd(a: int, b: int)
    ensures Wrap(Wrap(a) + b) == Wrap(a + b)
  {
    WrapCongruent(Wrap(a) + b, a + b);
  }

  /** `a + b` on Java `int`s. */
  function Add(a: Int32, b: Int32): (r: Int32)
    ensures (a + b - r) % Modulus == 0
    ensures MinInt <= a + b <= MaxInt ==> r == a + b
  {
    Wrap(a + b)
  }

  function Abs(x: int): nat {
    if x < 0 then -x else x
  }

  /** `a % b` on Java `int`s: truncating division's remainder. */
  function Rem(a: Int32, b: Int32): (r: int)
    requires b != 0
    ensures Abs(r) < Abs(b)
    ensures a >= 0 ==> r >= 0
    ensures a < 0 ==> r <= 0
  {
    if a >= 0 then a % Abs(b) else -((-(a as int)) % Abs(b))
  }

  /** `n % 2 != 0` holds exactly for the odd numbers, negative ones included. */
  lemma RemTwo(n: Int32)
    ensures Rem(n, 2) != 0 <==> n % 2 == 1
  {
    if n < 0 {
      var m: int := -(n as int);
      assert n % 2 == 0 <==> m % 2 == 0 by {
        var q := m / 2;
        assert m == 2 * q + m % 2;
        assert n == 2 * (-q - 1) + (2 - m % 2);
      }
    }
  }
}
