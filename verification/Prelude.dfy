/** Small vocabulary shared by every module of the model. */
module Prelude {

  datatype Option<+T> = None | Some(value: T) {
    function GetOr(default: T): T {
      if Some? then value else default
    }
  }

  datatype Result<+T, +E> = Ok(value: T) | Err(error: E)

  function Max(a: real, b: real): real {
    if a >= b then a else b
  }

  function Min(a: real, b: real): real {
    if a <= b then a else b
  }

  function MaxInt(a: int, b: int): int {
    if a >= b then a else b
  }

  function MinInt(a: int, b: int): int {
    if a <= b then a else b
  }

  function Abs(a: real): real {
    if a >= 0.0 then a else -a
  }
}

/** Products and quotients of reals, one step at a time. */
module Arithmetic {

  lemma Cancel(a: real, b: real, n: real)
    requires n > 0.0
    ensures a * n <= b * n <==> a <= b
  {
  }

  lemma OneMore(j: nat, x: real)
    ensures (j + 1) as real * x == j as real * x + x
  {
  }

  lemma Regroup(a: real, b: real, c: real)
    ensures a * b * c == a * (b * c)
  {
  }

  lemma ProductIsPositive(a: real, b: real)
    requires a > 0.0 && b > 0.0
    ensures a * b > 0.0
  {
  }

  lemma NotNegative(a: real, b: real)
    requires a >= 0.0 && b >= 0.0
    ensures a * b >= 0.0
  {
  }

  lemma ZeroFactor(a: real, b: real)
    ensures a * b == 0.0 <==> a == 0.0 || b == 0.0
  {
  }

  lemma SquareIsPositive(x: real)
    ensures x * x >= 0.0 && (x * x == 0.0 <==> x == 0.0)
  {
    ZeroFactor(x, x);
  }

  lemma SquaresKeepOrder(a: real, b: real)
    requires a >= 0.0 && b >= 0.0
    ensures a <= b <==> a * a <= b * b
  {
    assert (b - a) * (b + a) == b * b - a * a;
    if a < b {
      ProductIsPositive(b - a, b + a);
    } else if b < a {
      ProductIsPositive(a - b, b + a);
      assert (a - b) * (b + a) == -((b - a) * (b + a));
    }
  }

  lemma NegatedFactor(a: real, b: real)
    ensures a * -b == -(a * b)
  {
  }

  lemma SameQuotient(s: real, q: real, x: real)
    requires s != 0.0
    ensures q == x / s <==> s * q == x
  {
  }

  lemma Cleared(s: real, q: real, x: real, c: real)
    requires s * q == x
    ensures s * (q * c) == x * c
  {
    Regroup(s, q, c);
  }

  lemma Spread(s: real, x: real, y: real)
    ensures s * (x - y) == s * x - s * y && s * (x + y) == s * x + s * y
  {
  }

  lemma SameFactor(s: real, x: real, y: real)
    requires s != 0.0 && s * x == y * s
    ensures x == y
  {
  }

  lemma DivideBack(x: real, d: real)
    requires d != 0.0
    ensures x / d * d == x
  {
  }
}

/** Python's one-argument `round`: nearest integer, ties to the even neighbour. */
module Rounding {

  function RoundHalfEven(x: real): (n: int)
    ensures n as real - 0.5 <= x <= n as real + 0.5
    ensures x == n as real - 0.5 || x == n as real + 0.5 ==> n % 2 == 0
  {
    var f := x.Floor;
    var d := x - f as real;
    if d < 0.5 then f
    else if d > 0.5 then f + 1
    else if f % 2 == 0 then f else f + 1
  }

  /** The two postconditions of `RoundHalfEven` leave one integer. */
  lemma RoundUnique(x: real, n: int)
    requires n as real - 0.5 <= x <= n as real + 0.5
    requires x == n as real - 0.5 || x == n as real + 0.5 ==> n % 2 == 0
    ensures RoundHalfEven(x) == n
  {
    var m := RoundHalfEven(x);
    assert -1.0 <= m as real - n as real <= 1.0;
    assert m == n || m == n + 1 || m == n - 1;
  }

  lemma RoundOfInteger(n: int)
    ensures RoundHalfEven(n as real) == n
  {
    RoundUnique(n as real, n);
  }

  lemma RoundIsOdd(x: real)
    ensures RoundHalfEven(-x) == -RoundHalfEven(x)
  {
    RoundUnique(-x, -RoundHalfEven(x));
  }

  lemma RoundMonotone(x: real, y: real)
    requires x <= y
    ensures RoundHalfEven(x) <= RoundHalfEven(y)
  {
  }
}
