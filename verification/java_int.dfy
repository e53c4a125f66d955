/** Java's `int` division and remainder. Java truncates the quotient toward zero, so the
    remainder takes the sign of the dividend; Dafny's `/` and `%` are Euclidean. */
module JavaInt {

  /** `a / b` as Java computes it, for a positive divisor: the quotient rounded toward zero. */
  function Div(a: int, b: int): (q: int)
    requires b > 0
    ensures 0 <= a ==> 0 <= q && q * b <= a < q * b + b
    ensures a < 0 ==> q <= 0 && a <= q * b < a + b
  {
    if a >= 0 then a / b else -((-a) / b)
  }

  /** `a % b` as Java computes it, for a positive divisor: the remainder has the sign of `a`. */
  function Rem(a: int, b: int): (r: int)
    requires b > 0
    ensures a == Div(a, b) * b + r
    ensures 0 <= a ==> 0 <= r < b
    ensures a < 0 ==> -b < r <= 0
  {
    a - Div(a, b) * b
  }

  function Min(a: int, b: int): (m: int)
    ensures m <= a && m <= b && (m == a || m == b)
  {
    if a <= b then a else b
  }

  function Max(a: int, b: int): (m: int)
    ensures a <= m && b <= m && (m == a || m == b)
  {
    if a <= b then b else a
  }
}
