/** The numeric building blocks the planner uses from Python and NumPy:
    `x ** n` with a whole exponent, the built-in `round` (ties to even),
    `round(x, 2)` and `np.ceil`, all over exact reals. */
module Numbers {

  /** x raised to a natural power; a positive base keeps it positive. */
  function Pow(x: real, n: nat): (p: real)
    ensures n == 0 ==> p == 1.0
    ensures x > 0.0 ==> p > 0.0
  {
    if n == 0 then 1.0 else x * Pow(x, n - 1)
  }

  /** A base above one raised to a positive power stays above one. */
  lemma {:induction false} PowAboveOne(x: real, n: nat)
    requires x > 1.0 && n >= 1
    ensures Pow(x, n) > 1.0
  {
    if n > 1 {
      PowAboveOne(x, n - 1);
      var p := Pow(x, n - 1);
      assert x * p - x == x * (p - 1.0);
      assert x * (p - 1.0) > 0.0;
    }
  }

  function Abs(x: real): real
  {
    if x < 0.0 then -x else x
  }

  /** Python's `round(x)`: the nearest integer, ties to the even neighbour. */
  function RoundHalfEven(x: real): (n: int)
    ensures Abs(x - n as real) <= 0.5
    ensures Abs(x - n as real) == 0.5 ==> n % 2 == 0
  {
    var f := x.Floor;
    var d := x - f as real;
    if d < 0.5 then f
    else if d > 0.5 then f + 1
    else if f % 2 == 0 then f
    else f + 1
  }

  /** No other integer is closer to x than `round(x)`. */
  lemma RoundHalfEvenIsNearest(x: real, m: int)
    ensures Abs(x - RoundHalfEven(x) as real) <= Abs(x - m as real)
  {
    var n := RoundHalfEven(x);
    if m < n {
      assert m as real <= n as real - 1.0;
    } else if m > n {
      assert m as real >= n as real + 1.0;
    }
  }

  /** Python's `round(x, 2)`: x rounded to cents, ties to even. The result
      is a whole number of cents, and a tie goes to an even number of cents. */
  function RoundCents(x: real): (r: real)
    ensures Abs(x - r) <= 0.005
    ensures (r * 100.0).Floor as real == r * 100.0
    ensures Abs(x * 100.0 - r * 100.0) == 0.5 ==> (r * 100.0).Floor % 2 == 0
  {
    var n := RoundHalfEven(x * 100.0);
    CentsScale(x, n);
    n as real / 100.0
  }

  /** Dividing by a hundred: the cents come back whole, and distances
      shrink by the same factor. */
  lemma CentsScale(x: real, n: int)
    ensures (n as real / 100.0) * 100.0 == n as real
    ensures ((n as real / 100.0) * 100.0).Floor == n
    ensures Abs(x - n as real / 100.0) * 100.0 == Abs(x * 100.0 - n as real)
  {
  }

  /** `int(np.ceil(x))`: the least integer not below x. */
  function Ceil(x: real): (n: int)
    ensures n as real - 1.0 < x <= n as real
  {
    if x.Floor as real == x then x.Floor else x.Floor + 1
  }
}
