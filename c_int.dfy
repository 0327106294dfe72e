/** Integer semantics of the C code that Dafny's unbounded, Euclidean integers do not give directly:
    truncating division and remainder, and the wrap-around of a conversion to a 32-bit `int`. */
module CInt {

  /** An unsigned 8-bit value (`unsigned char`). */
  type byte = x: int | 0 <= x < 0x100

  const INT32_MIN: int := -0x8000_0000
  const INT32_MAX: int := 0x7FFF_FFFF
  const INT64_MIN: int := -0x8000_0000_0000_0000
  const INT64_MAX: int := 0x7FFF_FFFF_FFFF_FFFF

  predicate IsInt32(x: int) { INT32_MIN <= x <= INT32_MAX }

  predicate IsInt64(x: int) { INT64_MIN <= x <= INT64_MAX }

  /** C's `a / b` for a positive divisor: the quotient rounded toward zero. */
  function CDiv(a: int, b: int): (q: int)
    requires b > 0
    ensures a >= 0 ==> 0 <= q && b * q <= a < b * q + b
    ensures a < 0 ==> q <= 0 && b * q - b < a <= b * q
  {
    EuclideanNonneg(if a >= 0 then a else -a, b);
    if a >= 0 then a / b else -((-a) / b)
  }

  /** C's `a % b` for a positive divisor: the remainder has the sign of the dividend. */
  function CMod(a: int, b: int): (r: int)
    requires b > 0
    ensures a == b * CDiv(a, b) + r
    ensures a >= 0 ==> 0 <= r < b
    ensures a < 0 ==> -b < r <= 0
  {
    EuclideanNonneg(if a >= 0 then a else -a, b);
    if a >= 0 then a % b else -((-a) % b)
  }

  /** Division of a non-negative number by a positive one, and the same for the negated quotient. */
  lemma EuclideanNonneg(n: int, b: int)
    requires n >= 0 && b > 0
    ensures n == b * (n / b) + n % b && 0 <= n % b < b && 0 <= n / b
    ensures b * -(n / b) == -(b * (n / b))
  {
  }

  /** The conversion `(int)x` of a wider integer, which keeps the low 32 bits (two's complement). */
  function ToInt32(x: int): (r: int)
    ensures IsInt32(r)
    ensures (x - r) % 0x1_0000_0000 == 0
    ensures IsInt32(x) ==> r == x
  {
    (x - INT32_MIN) % 0x1_0000_0000 + INT32_MIN
  }
}
