/**
  The pieces of C arithmetic the device relies on: the widths of `int` and
  `time64_t`, division that truncates toward zero (ISO C99, section 6.5.5,
  paragraph 6), and the Linux error numbers the control path returns.
*/
module CArith {

  /** `int` on every Linux target: 32-bit two's complement. */
  const IntMin: int := -0x8000_0000
  const IntMax: int := 0x7fff_ffff

  /** `time64_t`: signed 64-bit seconds. */
  const Time64Min: int := -0x8000_0000_0000_0000
  const Time64Max: int := 0x7fff_ffff_ffff_ffff

  /** Error numbers from the Linux errno table. */
  const EFAULT: int := 14
  const EINVAL: int := 22

  predicate IsInt32(x: int) { IntMin <= x <= IntMax }

  type Int32 = x: int | IsInt32(x)

  predicate In64(x: int) { Time64Min <= x <= Time64Max }

  function Abs(x: int): nat { if x < 0 then -x else x }

  /**
    C's `a / d` for a positive divisor: the quotient rounded toward zero.
    Dafny's own `/` rounds toward minus infinity when `a` is negative, so the
    two differ on every negative `a` that `d` does not divide.
  */
  function TruncDiv(a: int, d: int): (q: int)
    requires d > 0
    ensures a >= 0 ==> 0 <= q && q * d <= a < q * d + d
    ensures a < 0 ==> q <= 0 && q * d - d < a <= q * d
  {
    if a >= 0 then
      FloorDivBounds(a, d);
      a / d
    else
      FloorDivBounds(-a, d);
      -((-a) / d)
  }

  /** Euclidean division of a non-negative dividend, with its bounds stated on `q * d`. */
  lemma FloorDivBounds(a: nat, d: int)
    requires d > 0
    ensures 0 <= a / d && (a / d) * d <= a < (a / d) * d + d
  {
    var q, r := a / d, a % d;
    assert a == d * q + r && 0 <= r < d;
    assert d * q == q * d;
  }

  /** Truncating division is odd in its dividend; floor division is not. */
  lemma TruncDivNegate(a: int, d: int)
    requires d > 0
    ensures TruncDiv(-a, d) == -TruncDiv(a, d)
  {
  }

  /** Dividing by a positive divisor never grows the magnitude. */
  lemma TruncDivShrinks(a: int, d: int)
    requires d > 0
    ensures Abs(TruncDiv(a, d)) <= Abs(a)
  {
    if a >= 0 {
      var q := TruncDiv(a, d);
      assert q <= q * d by { MulMonotone(q, d); }
    } else {
      var q := TruncDiv(-a, d);
      assert q <= q * d by { MulMonotone(q, d); }
      TruncDivNegate(-a, d);
    }
  }

  lemma MulMonotone(q: int, d: int)
    requires q >= 0 && d >= 1
    ensures q <= q * d
  {
    assert q * d == q + q * (d - 1);
    assert q * (d - 1) >= 0;
  }

  /** Scaling both sides of `u <= v` by a non-negative factor. */
  lemma MulLeft(u: int, v: int, w: nat)
    requires u <= v
    ensures u * w <= v * w
  {
    assert v * w - u * w == (v - u) * w;
  }

  /** The magnitude of a product is at most the product of magnitude bounds. */
  lemma MulBound(a: int, b: int, x: nat, y: nat)
    requires Abs(a) <= x && Abs(b) <= y
    ensures Abs(a * b) <= x * y
  {
    assert Abs(a * b) == Abs(a) * Abs(b) by {
      if a < 0 && b < 0 { assert a * b == (-a) * (-b); }
      else if a < 0 { assert a * b == -((-a) * b); }
      else if b < 0 { assert a * b == -(a * (-b)); }
    }
    MulLeft(Abs(a), x, Abs(b));
    assert x * Abs(b) == Abs(b) * x && x * y == y * x;
    MulLeft(Abs(b), y, x);
  }
}
