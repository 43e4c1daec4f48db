/** Exact-real models of the numeric conversions used by the application:
    Python `int(float)`, Python `round(x, 2)` and JavaScript `Math.round`. */
module Numeric {

  /** Python `int(x)` on a float: truncation toward zero. */
  function Trunc(x: real): (n: int)
    ensures 0.0 <= x ==> n as real <= x < n as real + 1.0
    ensures x < 0.0 ==> n as real - 1.0 < x <= n as real
  {
    if 0.0 <= x then x.Floor else -((-x).Floor)
  }

  /** The least integer not below `x`. */
  function Ceil(x: real): (n: int)
    ensures x <= n as real < x + 1.0
  {
    -((-x).Floor)
  }

  /** Round to the nearest integer, ties to the even neighbour (Python's rounding rule). */
  function RoundHalfEven(y: real): (n: int)
    ensures y - 0.5 <= n as real <= y + 0.5
    ensures y.Floor <= n <= y.Floor + 1
  {
    var f := y.Floor;
    var frac := y - f as real;
    if frac < 0.5 then f
    else if frac > 0.5 then f + 1
    else if f % 2 == 0 then f else f + 1
  }

  /** A value with at most two decimal places. */
  predicate IsHundredths(x: real) {
    (x * 100.0).Floor as real == x * 100.0
  }

  /** Every integer has two decimal places (none). */
  lemma IntHundredths(n: int)
    ensures IsHundredths(n as real)
  {
    assert n as real * 100.0 == (n * 100) as real;
  }

  /** Python `round(x, 2)` on the exact value `x` (binary floating point is not modelled). */
  function Round2(x: real): (r: real)
    ensures x - 0.005 <= r <= x + 0.005
    ensures 0.0 <= x ==> 0.0 <= r
    ensures x <= 100.0 ==> r <= 100.0
    ensures IsHundredths(r)
  {
    var n := RoundHalfEven(x * 100.0);
    Hundredths(x, n);
    n as real / 100.0
  }

  /** Scaling a whole number of hundredths back by 100 keeps its distance and its bounds. */
  lemma Hundredths(x: real, n: int)
    requires x * 100.0 - 0.5 <= n as real <= x * 100.0 + 0.5
    requires (x * 100.0).Floor <= n <= (x * 100.0).Floor + 1
    ensures x - 0.005 <= n as real / 100.0 <= x + 0.005
    ensures 0.0 <= x ==> 0.0 <= n as real / 100.0
    ensures x <= 100.0 ==> n as real / 100.0 <= 100.0
    ensures IsHundredths(n as real / 100.0)
  {
    var r := n as real / 100.0;
    assert r * 100.0 == n as real;
    if x <= 100.0 {
      assert (x * 100.0).Floor <= 10000;
    }
  }


  /** `round(x, 2)` leaves a value that already has two decimals alone, and it is monotone. */
  lemma Round2Fixes(x: real)
    requires IsHundredths(x)
    ensures Round2(x) == x
  {
  }

  lemma {:induction false} Round2Monotone(x: real, y: real)
    requires x <= y
    ensures Round2(x) <= Round2(y)
  {
    var a, b := x * 100.0, y * 100.0;
    assert a <= b;
    var m, n := RoundHalfEven(a), RoundHalfEven(b);
    if a.Floor == b.Floor {
      var f := a.Floor;
      assert a - f as real <= b - f as real;
    } else {
      assert a.Floor < b.Floor;
    }
  }

  /** JavaScript `Math.round`: the nearest integer, ties toward +infinity. */
  function JsRound(x: real): (n: int)
    ensures x - 0.5 < n as real <= x + 0.5
  {
    (x + 0.5).Floor
  }
}
