/** Numeric conventions of the JavaScript front end, stated over Dafny's
    unbounded `int` and exact `real`: rounding, ceiling, truncating
    remainder, and the Option type used for `null`/`undefined` inputs. */
module Numerics {

  /** A value that may be absent (`null` or `undefined` in the source). */
  datatype Option<+T> = None | Some(value: T)

  function Min(x: int, y: int): int { if x <= y then x else y }

  function Max(x: int, y: int): int { if x >= y then x else y }

  /** `Math.round`: the nearest integer, halves rounded towards +infinity. */
  function Round(x: real): (r: int)
    ensures x - 0.5 < r as real <= x + 0.5
  {
    (x + 0.5).Floor
  }

  /** `Math.ceil`: the least integer not below `x`. */
  function Ceil(x: real): (r: int)
    ensures x <= r as real < x + 1.0
  {
    -((-x).Floor)
  }

  /** Truncation towards zero, the rounding hidden in JavaScript's `%`: the
      integer part of `x`, keeping its sign. */
  function Trunc(x: real): (r: int)
    ensures 0.0 <= x ==> 0 <= r && r as real <= x < r as real + 1.0
    ensures x < 0.0 ==> r <= 0 && r as real - 1.0 < x <= r as real
  {
    if x >= 0.0 then x.Floor else Ceil(x)
  }

  /** JavaScript's `x % m` on numbers, for a positive divisor: the result has
      the sign of `x` and is smaller than `m` in size, unlike Dafny's
      Euclidean `%`. */
  function JsRemainder(x: real, m: real): (r: real)
    requires m > 0.0
    ensures 0.0 <= x ==> 0.0 <= r < m
    ensures x < 0.0 ==> -m < r <= 0.0
  {
    RemainderBounds(x, m);
    x - Trunc(x / m) as real * m
  }

  /** The quotient is truncated by less than one step of `m`, in the
      direction of zero. */
  lemma RemainderBounds(x: real, m: real)
    requires m > 0.0
    ensures 0.0 <= x ==> 0.0 <= x - Trunc(x / m) as real * m < m
    ensures x < 0.0 ==> -m < x - Trunc(x / m) as real * m <= 0.0
  {
    DivBounds(x, m);
    if 0.0 <= x {
      StepAbove(x, Trunc(x / m) as real, m);
    } else {
      StepBelow(x, Trunc(x / m) as real, m);
    }
  }

  /** Subtracting `t` steps of `m` from `x` subtracts `t` from the quotient. */
  lemma DivSub(x: real, t: real, m: real)
    requires m > 0.0
    ensures (x - t * m) / m == x / m - t
  {
  }

  lemma DivNeg(x: real, m: real)
    requires m > 0.0
    ensures (-x) / m == -(x / m)
  {
  }

  /** `x - t * m` is below one step of `m` when `t` is the floor of `x / m`. */
  lemma StepAbove(x: real, t: real, m: real)
    requires m > 0.0 && t <= x / m < t + 1.0
    ensures 0.0 <= x - t * m < m
  {
    DivSub(x, t, m);
    DivBounds(x - t * m, m);
  }

  /** `x - t * m` is above minus one step of `m` when `t` is the ceiling of
      `x / m`. */
  lemma StepBelow(x: real, t: real, m: real)
    requires m > 0.0 && t - 1.0 < x / m <= t
    ensures -m < x - t * m <= 0.0
  {
    DivSub(x, t, m);
    DivNeg(x - t * m, m);
    DivBounds(-(x - t * m), m);
  }

  lemma MulLeq(x: real, y: real, m: real)
    requires x <= y && m > 0.0
    ensures x * m <= y * m
  {
  }

  lemma MulLt(x: real, y: real, m: real)
    requires x < y && m > 0.0
    ensures x * m < y * m
  {
  }

  /** Comparing a quotient by a positive divisor with 0 and 1 is comparing
      the dividend with 0 and with the divisor. */
  lemma DivBounds(x: real, y: real)
    requires y > 0.0
    ensures x / y < 0.0 <==> x < 0.0
    ensures x / y == 0.0 <==> x == 0.0
    ensures x / y < 1.0 <==> x < y
    ensures x / y == 1.0 <==> x == y
  {
    var q := x / y;
    assert q * y == x;
    if q < 0.0 { MulLt(q, 0.0, y); }
    if q > 0.0 { MulLt(0.0, q, y); }
    if q < 1.0 { MulLt(q, 1.0, y); assert 1.0 * y == y; }
    if q > 1.0 { MulLt(1.0, q, y); assert 1.0 * y == y; }
  }

  /** Rounding an integer gives the integer back. */
  lemma RoundOfInt(k: int)
    ensures Round(k as real) == k
  {
  }

  /** Rounding keeps every integer bound of its argument. */
  lemma RoundWithin(lo: int, hi: int, x: real)
    requires lo as real <= x <= hi as real
    ensures lo <= Round(x) <= hi
  {
  }

  /** Rounding is monotonic. */
  lemma RoundMonotone(x: real, y: real)
    requires x <= y
    ensures Round(x) <= Round(y)
  {
  }

  /** The ceiling of a quotient of integers, as the chain of integer bounds
      that page counts and strides rely on. */
  lemma CeilQuotient(a: int, b: int)
    requires b > 0
    ensures (Ceil(a as real / b as real) - 1) * b < a <= Ceil(a as real / b as real) * b
  {
    var t := Ceil(a as real / b as real);
    StepBelow(a as real, t as real, b as real);
    CastMul(t, b);
    assert (t - 1) * b == t * b - b;
  }

  /** Converting a product to `real` is multiplying the converted factors. */
  lemma {:induction false} CastMul(x: int, y: nat)
    ensures (x * y) as real == x as real * y as real
  {
    if y > 0 {
      CastMul(x, y - 1);
      assert x * y == x * (y - 1) + x;
      assert x as real * y as real == x as real * (y - 1) as real + x as real;
    }
  }
}
