/** Python's numeric conversions on exact reals: `round(x)` (nearest
    integer, ties to even), `round(x, 3)` and `int(x)` (truncation toward
    zero). */
module Numbers {

  /** Python 3 `round(x)`: the nearest integer; a tie goes to the even one. */
  function Round(x: real): (n: int)
    ensures x - 0.5 <= n as real <= x + 0.5
    ensures (n as real - x == 0.5 || x - n as real == 0.5) ==> n % 2 == 0
  {
    var f := x.Floor;
    var d := x - f as real;
    if d < 0.5 then f
    else if d > 0.5 then f + 1
    else if f % 2 == 0 then f
    else f + 1
  }

  /** Python `round(x, 3)`: `x` rounded to three decimal places. */
  function Round3(x: real): (r: real)
    ensures x - 0.0005 <= r <= x + 0.0005
  {
    Round(x * 1000.0) as real / 1000.0
  }

  /** Python `int(x)` on a float: drops the fractional part. */
  function Trunc(x: real): (n: int)
    ensures 0.0 <= x ==> n as real <= x < n as real + 1.0
    ensures x < 0.0 ==> n as real - 1.0 < x <= n as real
  {
    if x >= 0.0 then x.Floor else -((-x).Floor)
  }
}
