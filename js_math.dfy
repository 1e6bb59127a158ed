/** The few pieces of the JavaScript runtime the colour wheel leans on, stated
    over exact reals: the `Math` object's transcendental functions, the
    truncating remainder operator `%`, `Math.min`, and the store conversion of a
    `Uint8ClampedArray` (the pixel buffer of a canvas image). */
module JsMath {

  datatype Option<+T> = None | Some(value: T)

  type Positive = x: real | 0.0 < x witness 1.0

  /** `Math.PI`, `Math.sqrt`, `Math.atan2`, `Math.cos` and `Math.sin`. Exact
      reals have no closed form for these, so they are carried as values; the
      laws the wheel relies on are the predicate `Utils.Lawful`. */
  datatype Math = Math(
    pi: Positive,
    sqrt: real -> real,
    atan2: (real, real) -> real,
    cos: real -> real,
    sin: real -> real)

  /** The integer part of `q`, rounding toward zero. */
  function Trunc(q: real): (n: int)
    ensures 0.0 <= q ==> 0 <= n && n as real <= q < n as real + 1.0
    ensures q < 0.0 ==> n <= 0 && n as real - 1.0 < q <= n as real
  {
    if 0.0 <= q then q.Floor else -((-q).Floor)
  }

  /** JavaScript's `a % b` on numbers: the remainder of a division truncated
      toward zero, so it carries the sign of the dividend. */
  function JsRem(a: real, b: real): real
    requires b != 0.0
  {
    a - b * Trunc(a / b) as real
  }

  lemma JsRemBounds(a: real, b: real)
    requires 0.0 < b
    ensures 0.0 <= a ==> 0.0 <= JsRem(a, b) < b
    ensures a < 0.0 ==> -b < JsRem(a, b) <= 0.0
  {
    var n := Trunc(a / b) as real;
    assert JsRem(a, b) == a - n * b;
    if 0.0 <= a {
      QuotientBounds(a, b, n, n + 1.0);
      assert (n + 1.0) * b == n * b + b;
    } else {
      QuotientBounds(a, b, n - 1.0, n);
      assert (n - 1.0) * b == n * b - b;
    }
  }

  /** Multiplying the bounds of a quotient back by its positive divisor. */
  lemma QuotientBounds(a: real, b: real, lo: real, hi: real)
    requires 0.0 < b
    ensures lo <= a / b ==> lo * b <= a
    ensures lo < a / b ==> lo * b < a
    ensures a / b <= hi ==> a <= hi * b
    ensures a / b < hi ==> a < hi * b
  {
    var q := a / b;
    assert q * b == a;
    if lo < q { MulStrictMonotone(lo, q, b); }
    if q < hi { MulStrictMonotone(q, hi, b); }
  }

  lemma MulStrictMonotone(x: real, y: real, b: real)
    requires 0.0 < b && x < y
    ensures x * b < y * b
  {
  }

  lemma NonNegMul(x: real, y: real)
    requires 0.0 <= x && 0.0 <= y
    ensures 0.0 <= x * y
  {
  }

  lemma PosMul(x: real, y: real)
    requires 0.0 < x && 0.0 < y
    ensures 0.0 < x * y
  {
  }

  /** Squaring is strictly increasing on the non-negative reals. */
  lemma SquareStrictMonotone(a: real, b: real)
    requires 0.0 <= a < b
    ensures a * a < b * b
  {
    PosMul(b - a, b + a);
  }

  /** For a non-negative dividend the truncating remainder is the floor-based
      (Euclidean) one. */
  lemma JsRemOfNonNegative(a: real, b: real)
    requires 0.0 <= a && 0.0 < b
    ensures JsRem(a, b) == a - b * (a / b).Floor as real
  {
  }

  /** JavaScript's `a % b` on integral numbers, for a positive divisor. */
  function JsIntRem(a: int, b: int): (r: int)
    requires 0 < b
    ensures 0 <= a ==> 0 <= r < b
    ensures a < 0 ==> -b < r <= 0
  {
    if 0 <= a then a % b else -((-a) % b)
  }

  /** `Math.abs`. */
  function Abs(a: real): (m: real)
    ensures 0.0 <= m
    ensures m == a || m == -a
  {
    if a < 0.0 then -a else a
  }

  /** `Math.min`. */
  function Min(a: real, b: real): (m: real)
    ensures m <= a && m <= b
    ensures m == a || m == b
  {
    if a <= b then a else b
  }

  /** The conversion a `Uint8ClampedArray` applies to every number stored into
      it (ToUint8Clamp, section 7.1.12 of ECMA-262): clamp to 0..255, then
      round to the nearest integer, ties to even. */
  function ToUint8Clamp(v: real): (b: int)
    ensures 0 <= b <= 255
    ensures 0.0 <= v <= 255.0 ==> -0.5 <= b as real - v <= 0.5
    ensures v <= 0.0 ==> b == 0
    ensures 255.0 <= v ==> b == 255
  {
    if v <= 0.0 then 0
    else if 255.0 <= v then 255
    else
      var f := v.Floor;
      if f as real + 0.5 < v then f + 1
      else if v < f as real + 0.5 then f
      else if f % 2 == 1 then f + 1
      else f
  }

  lemma ToUint8ClampOfInteger(n: int)
    requires 0 <= n <= 255
    ensures ToUint8Clamp(n as real) == n
  {
  }
}
