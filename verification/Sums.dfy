/** Finite sums of reals, with the exchange of summation order. */
module Sums {

  function Sum(n: nat, f: int -> real): real {
    if n == 0 then 0.0 else Sum(n - 1, f) + f(n - 1)
  }

  /** A binary variable as a number. */
  function B(b: bool): (r: real)
    ensures 0.0 <= r <= 1.0
  {
    if b then 1.0 else 0.0
  }

  lemma {:induction false} SumSame(n: nat, f: int -> real, g: int -> real)
    requires forall i :: 0 <= i < n ==> f(i) == g(i)
    ensures Sum(n, f) == Sum(n, g)
  {
    if n > 0 {
      SumSame(n - 1, f, g);
    }
  }

  lemma {:induction false} SumPlus(n: nat, f: int -> real, g: int -> real, h: int -> real)
    requires forall i :: 0 <= i < n ==> h(i) == f(i) + g(i)
    ensures Sum(n, h) == Sum(n, f) + Sum(n, g)
  {
    if n > 0 {
      SumPlus(n - 1, f, g, h);
    }
  }

  lemma {:induction false} SumScaled(n: nat, c: real, f: int -> real, h: int -> real)
    requires forall i :: 0 <= i < n ==> h(i) == c * f(i)
    ensures Sum(n, h) == c * Sum(n, f)
  {
    if n > 0 {
      SumScaled(n - 1, c, f, h);
      assert c * Sum(n, f) == c * Sum(n - 1, f) + c * f(n - 1);
    }
  }

  lemma {:induction false} SumBalance(n: nat, x: real, y: real, e: int -> real, a: int -> real, b: int -> real, c: int -> real, g: int -> real)
    requires forall k :: 0 <= k < n ==> e(k) == a(k) + x * b(k) - y * c(k) - g(k)
    ensures Sum(n, e) == Sum(n, a) + x * Sum(n, b) - y * Sum(n, c) - Sum(n, g)
  {
    if n > 0 {
      SumBalance(n - 1, x, y, e, a, b, c, g);
      assert x * Sum(n, b) == x * Sum(n - 1, b) + x * b(n - 1);
      assert y * Sum(n, c) == y * Sum(n - 1, c) + y * c(n - 1);
    }
  }

  lemma {:induction false} SumOfZeros(n: nat, f: int -> real)
    requires forall i :: 0 <= i < n ==> f(i) == 0.0
    ensures Sum(n, f) == 0.0
  {
    if n > 0 {
      SumOfZeros(n - 1, f);
    }
  }

  lemma {:induction false} SumMonotone(n: nat, f: int -> real, g: int -> real)
    requires forall i :: 0 <= i < n ==> f(i) <= g(i)
    ensures Sum(n, f) <= Sum(n, g)
  {
    if n > 0 {
      SumMonotone(n - 1, f, g);
    }
  }

  lemma {:induction false} SumAtLeast(n: nat, f: int -> real, i: nat)
    requires i < n && forall j :: 0 <= j < n ==> f(j) >= 0.0
    ensures Sum(n, f) >= f(i)
  {
    SumNonNegative(n - 1, f);
    if i < n - 1 {
      SumAtLeast(n - 1, f, i);
    }
  }

  lemma {:induction false} SumNonNegative(n: nat, f: int -> real)
    requires forall j :: 0 <= j < n ==> f(j) >= 0.0
    ensures Sum(n, f) >= 0.0
  {
    if n > 0 {
      SumNonNegative(n - 1, f);
    }
  }

  /** Two different terms of a nonnegative sum bound it from below together. */
  lemma {:induction false} SumAtLeastTwo(n: nat, f: int -> real, i: nat, j: nat)
    requires i < j < n && forall k :: 0 <= k < n ==> f(k) >= 0.0
    ensures Sum(n, f) >= f(i) + f(j)
  {
    if j == n - 1 {
      SumAtLeast(n - 1, f, i);
    } else {
      SumAtLeastTwo(n - 1, f, i, j);
    }
  }

  // Rows and columns of a table, as functions with names so that sums over them can be compared.

  function Row(f: (int, int) -> real, i: int): int -> real {
    j => f(i, j)
  }

  function Column(f: (int, int) -> real, j: int): int -> real {
    i => f(i, j)
  }

  function RowSums(f: (int, int) -> real, m: nat): int -> real {
    i => Sum(m, Row(f, i))
  }

  function ColumnSums(f: (int, int) -> real, n: nat): int -> real {
    j => Sum(n, Column(f, j))
  }

  /** Summing a table by rows or by columns gives the same total. */
  lemma {:induction false} SumExchange(n: nat, m: nat, f: (int, int) -> real)
    ensures Sum(n, RowSums(f, m)) == Sum(m, ColumnSums(f, n))
  {
    if n == 0 {
      SumOfZeros(m, ColumnSums(f, 0));
    } else {
      SumExchange(n - 1, m, f);
      SumPlus(m, ColumnSums(f, n - 1), Row(f, n - 1), ColumnSums(f, n));
    }
  }
}
