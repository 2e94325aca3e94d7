/** Bisection for the depot import the feeder can host, over a power-flow oracle that says whether a
    voltage or thermal limit is violated at a given import. */
module HostingLimit {
  import opened Arithmetic
  import opened Rounding

  function Pow2(k: nat): (r: int)
    ensures r >= k + 1
  {
    if k == 0 then 1 else 2 * Pow2(k - 1)
  }

  /** The interval after `k` halvings. */
  function IntervalAfter(violates: real -> bool, bound: real, k: nat): (real, real) {
    if k == 0 then (0.0, bound)
    else
      var (lower, upper) := IntervalAfter(violates, bound, k - 1);
      var candidate := (lower + upper) / 2.0;
      if violates(candidate) then (lower, candidate) else (candidate, upper)
  }

  /** How often an interval of this width is halved before it is within the tolerance. */
  function Calls(width: real, tolerance: real): nat
    requires tolerance > 0.0
    decreases (width / tolerance).Floor
  {
    if width <= tolerance then 0
    else
      HalvingDescends(width, tolerance);
      1 + Calls(width / 2.0, tolerance)
  }

  lemma HalvingDescends(width: real, tolerance: real)
    requires 0.0 < tolerance < width
    ensures 0 <= (width / 2.0 / tolerance).Floor < (width / tolerance).Floor
  {
    var x := width / tolerance;
    assert x > 1.0;
    assert width / 2.0 / tolerance == x / 2.0;
  }

  function Milli(x: real): real {
    RoundHalfEven(x * 1000.0) as real / 1000.0
  }

  function WithMargin(lower: real, margin: real): real {
    Milli(lower * margin)
  }

  function HostingLimitOf(violates: real -> bool, bound: real, margin: real, tolerance: real): real
    requires tolerance > 0.0
  {
    WithMargin(IntervalAfter(violates, bound, Calls(bound, tolerance)).0, margin)
  }

  /** The bisection loop. With a tolerance that is not positive the source's loop need not end. */
  method FindHostingLimit(violates: real -> bool, bound: real, margin: real, tolerance: real) returns (limit: real, calls: nat)
    requires tolerance > 0.0
    ensures limit == HostingLimitOf(violates, bound, margin, tolerance)
    ensures calls == Calls(bound, tolerance)
  {
    var lower, upper := 0.0, bound;
    calls := 0;
    while upper - lower > tolerance
      invariant (lower, upper) == IntervalAfter(violates, bound, calls)
      invariant calls + Calls(upper - lower, tolerance) == Calls(bound, tolerance)
      decreases Calls(upper - lower, tolerance)
    {
      var candidate := (lower + upper) / 2.0;
      assert candidate - lower == (upper - lower) / 2.0 == upper - candidate;
      if violates(candidate) {
        upper := candidate;
      } else {
        lower := candidate;
      }
      calls := calls + 1;
    }
    limit := WithMargin(lower, margin);
  }

  // ---------------------------------------------------------------- shape and length of the search

  /** `n` widths make the bound, and `m` widths the lower end. */
  ghost predicate WholeWidths(lower: real, upper: real, n: real, m: real, bound: real) {
    (upper - lower) * n == bound && lower == m * (upper - lower)
  }

  /** One halving, to the lower or the upper half. */
  lemma HalfWidth(l: real, u: real, n: real, h: real, bound: real)
    requires WholeWidths(l, u, n, h, bound)
    ensures var c := (l + u) / 2.0;
            WholeWidths(l, c, 2.0 * n, 2.0 * h, bound) && WholeWidths(c, u, 2.0 * n, 2.0 * h + 1.0, bound)
  {
    var w := u - l;
    var c := (l + u) / 2.0;
    assert c - l == w / 2.0 && u - c == w / 2.0;
    assert w / 2.0 * (2.0 * n) == w * n;
    assert 2.0 * h * (w / 2.0) == h * w;
    assert (2.0 * h + 1.0) * (w / 2.0) == h * w + w / 2.0;
  }

  /** After `k` halvings the width is the bound over two to the `k`, and the lower end is a whole
      number of widths. */
  lemma {:induction false} Dyadic(violates: real -> bool, bound: real, k: nat) returns (m: nat)
    ensures var (lower, upper) := IntervalAfter(violates, bound, k);
            WholeWidths(lower, upper, Pow2(k) as real, m as real, bound)
    ensures m < Pow2(k)
  {
    if k == 0 {
      m := 0;
    } else {
      hide WholeWidths;
      var h := Dyadic(violates, bound, k - 1);
      var (l, u) := IntervalAfter(violates, bound, k - 1);
      m := if violates((l + u) / 2.0) then 2 * h else 2 * h + 1;
      HalfWidth(l, u, Pow2(k - 1) as real, h as real, bound);
      assert Pow2(k) as real == 2.0 * Pow2(k - 1) as real;
      assert (2 * h) as real == 2.0 * h as real && (2 * h + 1) as real == 2.0 * h as real + 1.0;
    }
  }

  /** The number of oracle calls is the least `k` for which the bound over two to the `k` is within
      the tolerance. */
  lemma {:induction false} CallsIsLeast(bound: real, tolerance: real, k: nat)
    requires tolerance > 0.0
    ensures k >= Calls(bound, tolerance) <==> bound <= tolerance * Pow2(k) as real
    decreases k
  {
    assert tolerance * Pow2(k) as real >= tolerance;
    if k > 0 && bound > tolerance {
      CallsIsLeast(bound / 2.0, tolerance, k - 1);
      assert tolerance * Pow2(k) as real == 2.0 * (tolerance * Pow2(k - 1) as real);
    }
  }

  lemma ThirteenCallsAtTheDefaults()
    ensures Calls(2500.0, 0.5) == 13
  {
    CallsIsLeast(2500.0, 0.5, 13);
    CallsIsLeast(2500.0, 0.5, 12);
    assert Pow2(4) == 16;
    assert Pow2(8) == 256;
    assert Pow2(12) == 4096;
  }

  // ---------------------------------------------------------------- a monotone oracle

  ghost predicate Monotone(violates: real -> bool) {
    forall x, y :: x <= y && violates(x) ==> violates(y)
  }

  /** The lower end stays safe, and the upper end is either violated or still the bound. */
  lemma {:induction false} EndsKeepTheirSides(violates: real -> bool, bound: real, k: nat)
    requires !violates(0.0)
    ensures var (lower, upper) := IntervalAfter(violates, bound, k);
            !violates(lower) && (upper == bound || violates(upper))
  {
    if k > 0 {
      EndsKeepTheirSides(violates, bound, k - 1);
    }
  }

  lemma WidthAtTheEnd(violates: real -> bool, bound: real, tolerance: real)
    requires tolerance > 0.0
    ensures var k := Calls(bound, tolerance);
            var (lower, upper) := IntervalAfter(violates, bound, k);
            upper - lower <= tolerance && (k > 0 ==> upper - lower > tolerance / 2.0)
  {
    hide IntervalAfter, Calls;
    var k := Calls(bound, tolerance);
    var m := Dyadic(violates, bound, k);
    var (lower, upper) := IntervalAfter(violates, bound, k);
    CallsIsLeast(bound, tolerance, k);
    var width, n := upper - lower, Pow2(k) as real;
    WidthIffBound(width, n, tolerance, bound);
    if k > 0 {
      CallsIsLeast(bound, tolerance, k - 1);
      WidthIffBound(width, n, tolerance / 2.0, bound);
      HalfTimesTwice(tolerance, Pow2(k - 1) as real);
      assert n == 2.0 * Pow2(k - 1) as real;
    }
  }

  lemma WidthIffBound(width: real, n: real, limit: real, bound: real)
    requires n > 0.0 && width * n == bound
    ensures width <= limit <==> bound <= limit * n
  {
    Cancel(width, limit, n);
  }

  lemma HalfTimesTwice(x: real, y: real)
    ensures x / 2.0 * (2.0 * y) == x * y
  {
  }

  /** For a monotone oracle that is safe at zero, the lower end found is safe, and every safe import
      up to the bound is within the tolerance of it. */
  lemma LowerIsWithinToleranceOfTheThreshold(violates: real -> bool, bound: real, tolerance: real, safe: real)
    requires Monotone(violates) && !violates(0.0) && tolerance > 0.0
    requires !violates(safe) && safe <= bound
    ensures var lower := IntervalAfter(violates, bound, Calls(bound, tolerance)).0;
            !violates(lower) && safe <= lower + tolerance
  {
    EndsKeepTheirSides(violates, bound, Calls(bound, tolerance));
    WidthAtTheEnd(violates, bound, tolerance);
  }

  // ---------------------------------------------------------------- after margin and rounding

  /** The width the search ends with. */
  function FinalWidth(bound: real, tolerance: real): real
    requires tolerance > 0.0
  {
    bound / Pow2(Calls(bound, tolerance)) as real
  }

  /** The published limit is safe whatever the feeder does. */
  ghost predicate AlwaysSafe(bound: real, margin: real, tolerance: real)
    requires tolerance > 0.0
  {
    forall violates: real -> bool :: Monotone(violates) && !violates(0.0) ==> !violates(HostingLimitOf(violates, bound, margin, tolerance))
  }

  /** Margin and rounding raise none of the lower ends the search can find. */
  ghost predicate MarginCoversRounding(bound: real, margin: real, tolerance: real)
    requires tolerance > 0.0
  {
    forall m: nat {:trigger LowerEnd(m, bound, tolerance)} :: m < Pow2(Calls(bound, tolerance)) ==>
      WithMargin(LowerEnd(m, bound, tolerance), margin) <= LowerEnd(m, bound, tolerance)
  }

  /** The `m`-th lower end the search can find. */
  function LowerEnd(m: nat, bound: real, tolerance: real): real
    requires tolerance > 0.0
  {
    m as real * FinalWidth(bound, tolerance)
  }

  lemma WidthIsQuotient(width: real, n: real, bound: real)
    requires n > 0.0 && width * n == bound
    ensures width == bound / n
  {
    DivideBack(bound, n);
    Cancel(width, bound / n, n);
    Cancel(bound / n, width, n);
  }

  /** The search ends at one of those lower ends, one width below its upper end. */
  lemma EndsAtALowerEnd(violates: real -> bool, bound: real, tolerance: real) returns (m: nat)
    requires tolerance > 0.0
    ensures m < Pow2(Calls(bound, tolerance))
    ensures var (lower, upper) := IntervalAfter(violates, bound, Calls(bound, tolerance));
            lower == LowerEnd(m, bound, tolerance) && upper - lower == FinalWidth(bound, tolerance)
  {
    hide IntervalAfter, Calls, Pow2;
    var k := Calls(bound, tolerance);
    m := Dyadic(violates, bound, k);
    var (lower, upper) := IntervalAfter(violates, bound, k);
    WidthIsQuotient(upper - lower, Pow2(k) as real, bound);
  }

  /** The oracle that allows exactly the imports up to `threshold`. */
  function Above(threshold: real): real -> bool {
    x => x > threshold
  }

  lemma AboveIsMonotone(threshold: real)
    requires threshold >= 0.0
    ensures Monotone(Above(threshold)) && !Above(threshold)(0.0)
  {
  }

  /** For a threshold at a lower end the search finds exactly that lower end. */
  lemma SearchFindsTheThreshold(bound: real, tolerance: real, m: nat)
    requires tolerance > 0.0 && bound > 0.0 && m < Pow2(Calls(bound, tolerance))
    ensures IntervalAfter(Above(LowerEnd(m, bound, tolerance)), bound, Calls(bound, tolerance)).0 == LowerEnd(m, bound, tolerance)
  {
    hide IntervalAfter, Calls, Pow2, FinalWidth, LowerEnd;
    var k := Calls(bound, tolerance);
    var t := LowerEnd(m, bound, tolerance);
    WidthIsPositive(bound, tolerance);
    LowerEndIs(m, bound, tolerance);
    AboveIsMonotone(t);
    EndsKeepTheirSides(Above(t), bound, k);
    var found := EndsAtALowerEnd(Above(t), bound, tolerance);
    LowerEndsInOrder(found, m, bound, tolerance);
    BoundIsBeyond(bound, tolerance, found, m);
  }

  lemma WidthIsPositive(bound: real, tolerance: real)
    requires tolerance > 0.0 && bound > 0.0
    ensures FinalWidth(bound, tolerance) > 0.0
    ensures FinalWidth(bound, tolerance) * Pow2(Calls(bound, tolerance)) as real == bound
  {
    var n := Pow2(Calls(bound, tolerance)) as real;
    DivideBack(bound, n);
    Cancel(bound / n, 0.0, n);
  }

  lemma LowerEndIs(m: nat, bound: real, tolerance: real)
    requires tolerance > 0.0
    ensures LowerEnd(m, bound, tolerance) == m as real * FinalWidth(bound, tolerance)
    ensures FinalWidth(bound, tolerance) >= 0.0 ==> LowerEnd(m, bound, tolerance) >= 0.0
  {
  }

  /** On a grid of positive width, positions are ordered as their numbers. */
  lemma GridOrder(i: nat, j: nat, w: real, a: real, b: real)
    requires w > 0.0 && a == i as real * w && b == j as real * w
    ensures a <= b <==> i <= j
    ensures a + w > b <==> i >= j
  {
    Cancel(i as real, j as real, w);
    OneMore(i, w);
    var c := (i + 1) as real * w;
    assert c == a + w;
    Cancel((i + 1) as real, j as real, w);
    assert (i + 1) as real <= j as real <==> i + 1 <= j;
    assert c <= b <==> i + 1 <= j;
  }

  lemma LowerEndsInOrder(i: nat, j: nat, bound: real, tolerance: real)
    requires tolerance > 0.0 && bound > 0.0
    ensures LowerEnd(i, bound, tolerance) <= LowerEnd(j, bound, tolerance) <==> i <= j
    ensures LowerEnd(i, bound, tolerance) + FinalWidth(bound, tolerance) > LowerEnd(j, bound, tolerance) <==> i >= j
  {
    hide FinalWidth, LowerEnd;
    WidthIsPositive(bound, tolerance);
    LowerEndIs(i, bound, tolerance);
    LowerEndIs(j, bound, tolerance);
    GridOrder(i, j, FinalWidth(bound, tolerance), LowerEnd(i, bound, tolerance), LowerEnd(j, bound, tolerance));
  }

  /** The bound lies beyond the upper end of every earlier cell. */
  lemma BoundIsBeyond(bound: real, tolerance: real, i: nat, m: nat)
    requires tolerance > 0.0 && bound > 0.0 && m < Pow2(Calls(bound, tolerance))
    ensures LowerEnd(i, bound, tolerance) + FinalWidth(bound, tolerance) == bound ==> i >= m
  {
    hide FinalWidth, Calls, Pow2;
    var w, n := FinalWidth(bound, tolerance), Pow2(Calls(bound, tolerance));
    WidthIsPositive(bound, tolerance);
    OneMore(i, w);
    Cancel(n as real, (i + 1) as real, w);
  }

  /** Exact: the published limit is safe for every monotone oracle that is safe at zero if and only if
      margin and rounding raise none of the finitely many lower ends the search can find. */
  lemma SafeForEveryFeederIff(bound: real, margin: real, tolerance: real)
    requires tolerance > 0.0
    ensures AlwaysSafe(bound, margin, tolerance) <==> MarginCoversRounding(bound, margin, tolerance)
  {
    hide IntervalAfter, Calls, Pow2, WithMargin, LowerEnd;
    if MarginCoversRounding(bound, margin, tolerance) {
      forall violates: real -> bool | Monotone(violates) && !violates(0.0) ensures !violates(HostingLimitOf(violates, bound, margin, tolerance)) {
        CoveredLimitIsSafe(violates, bound, margin, tolerance);
      }
    }
    if AlwaysSafe(bound, margin, tolerance) {
      forall m: nat | m < Pow2(Calls(bound, tolerance)) ensures WithMargin(LowerEnd(m, bound, tolerance), margin) <= LowerEnd(m, bound, tolerance) {
        UncoveredLimitIsViolated(bound, margin, tolerance, m);
      }
    }
  }

  lemma CoveredLimitIsSafe(violates: real -> bool, bound: real, margin: real, tolerance: real)
    requires Monotone(violates) && !violates(0.0) && tolerance > 0.0 && MarginCoversRounding(bound, margin, tolerance)
    ensures !violates(HostingLimitOf(violates, bound, margin, tolerance))
    ensures HostingLimitOf(violates, bound, margin, tolerance) <= IntervalAfter(violates, bound, Calls(bound, tolerance)).0
  {
    hide IntervalAfter, Calls, Pow2, WithMargin, LowerEnd;
    EndsKeepTheirSides(violates, bound, Calls(bound, tolerance));
    var m := EndsAtALowerEnd(violates, bound, tolerance);
  }

  lemma UncoveredLimitIsViolated(bound: real, margin: real, tolerance: real, m: nat)
    requires tolerance > 0.0 && m < Pow2(Calls(bound, tolerance))
    ensures WithMargin(LowerEnd(m, bound, tolerance), margin) > LowerEnd(m, bound, tolerance) ==>
              exists violates: real -> bool :: Monotone(violates) && !violates(0.0) && violates(HostingLimitOf(violates, bound, margin, tolerance))
  {
    var t := LowerEnd(m, bound, tolerance);
    if bound > 0.0 {
      hide IntervalAfter, Pow2, WithMargin, LowerEnd, FinalWidth;
      WidthIsPositive(bound, tolerance);
      LowerEndIs(m, bound, tolerance);
      AboveIsMonotone(t);
      SearchFindsTheThreshold(bound, tolerance, m);
      assert HostingLimitOf(Above(t), bound, margin, tolerance) == WithMargin(t, margin);
    } else {
      assert m == 0;
      LowerEndIs(0, bound, tolerance);
      assert t == 0.0 * FinalWidth(bound, tolerance) == 0.0;
      NothingHosted(margin);
    }
  }

  /** It suffices that the margin leaves more room than rounding to three decimals can use up, as it
      does at the defaults, 0.98 and 0.5. */
  lemma RoomCoversRounding(bound: real, margin: real, tolerance: real)
    requires tolerance > 0.0 && (1.0 - margin) * tolerance / 2.0 >= 0.0005
    ensures MarginCoversRounding(bound, margin, tolerance)
  {
    hide Calls, Pow2, WithMargin, FinalWidth, LowerEnd;
    forall m: nat | m < Pow2(Calls(bound, tolerance)) ensures WithMargin(LowerEnd(m, bound, tolerance), margin) <= LowerEnd(m, bound, tolerance) {
      LowerEndIs(m, bound, tolerance);
      if m == 0 {
        assert LowerEnd(m, bound, tolerance) == 0.0 * FinalWidth(bound, tolerance) == 0.0;
        NothingHosted(margin);
      } else {
        FinalWidthIsOverHalf(bound, tolerance, m);
        RoomForRounding(m as real, FinalWidth(bound, tolerance), LowerEnd(m, bound, tolerance), margin, tolerance);
      }
    }
  }

  lemma FinalWidthIsOverHalf(bound: real, tolerance: real, m: nat)
    requires tolerance > 0.0 && 0 < m < Pow2(Calls(bound, tolerance))
    ensures FinalWidth(bound, tolerance) > tolerance / 2.0
  {
    hide IntervalAfter, FinalWidth, Calls;
    var none := EndsAtALowerEnd(Above(0.0), bound, tolerance);
    WidthAtTheEnd(Above(0.0), bound, tolerance);
    assert Calls(bound, tolerance) > 0;
  }

  /** So the limit published at the defaults is safe. */
  lemma ThePublishedLimitIsSafe(violates: real -> bool, bound: real, margin: real, tolerance: real)
    requires Monotone(violates) && !violates(0.0) && tolerance > 0.0
    requires (1.0 - margin) * tolerance / 2.0 >= 0.0005
    ensures !violates(HostingLimitOf(violates, bound, margin, tolerance))
    ensures HostingLimitOf(violates, bound, margin, tolerance) <= IntervalAfter(violates, bound, Calls(bound, tolerance)).0
  {
    hide MarginCoversRounding, IntervalAfter, Calls, HostingLimitOf;
    RoomCoversRounding(bound, margin, tolerance);
    CoveredLimitIsSafe(violates, bound, margin, tolerance);
  }

  lemma NothingHosted(margin: real)
    ensures WithMargin(0.0, margin) == 0.0
  {
    assert 0.0 * margin == 0.0;
    RoundOfInteger(0);
  }

  lemma RoomForRounding(m: real, width: real, lower: real, margin: real, tolerance: real)
    requires m >= 1.0 && lower == m * width && width > tolerance / 2.0 && tolerance > 0.0
    requires (1.0 - margin) * tolerance / 2.0 >= 0.0005
    ensures WithMargin(lower, margin) <= lower
  {
    Cancel(1.0 - margin, 0.0, tolerance);
    assert (m - 1.0) * width >= 0.0;
    assert (1.0 - margin) * (lower - tolerance / 2.0) >= 0.0;
  }

  /** The condition can fail: with no margin, a bound of 1.2 W and a tolerance of 0.6 W. */
  lemma RoundingCanCrossTheThreshold()
    ensures !AlwaysSafe(0.0012, 1.0, 0.0006)
  {
    assert Calls(0.0006, 0.0006) == 0;
    assert Calls(0.0012, 0.0006) == 1;
    assert Pow2(1) == 2;
    assert LowerEnd(1, 0.0012, 0.0006) == 0.0006;
    RoundUnique(0.6, 1);
    assert WithMargin(0.0006, 1.0) == 0.001;
    SafeForEveryFeederIff(0.0012, 1.0, 0.0006);
  }
}
