/** Resampling of price series and multiplier boundaries to a planning horizon. */
module SeriesResampling {
  import opened Arithmetic
  import opened Prelude
  import opened Rounding

  datatype SeriesError = EmptySeries

  /** The source sample that target position `idx` takes. */
  function SourceIndex(idx: int, n: int, target: int): int
    requires target > 0
  {
    idx * n / target
  }

  ghost predicate Resampled(values: seq<real>, target: nat, r: seq<real>) {
    && |r| == target
    && forall idx :: 0 <= idx < target ==>
         0 <= SourceIndex(idx, |values|, target) < |values| && r[idx] == values[SourceIndex(idx, |values|, target)]
  }

  lemma SourceIndexInRange(idx: nat, n: nat, target: nat)
    requires n > 0 && idx < target
    ensures 0 <= SourceIndex(idx, n, target) < n
  {
    DivisionBounds(idx * n, target);
    MulMonotone(idx + 1, target, n);
    MulSuccessor(n, idx);
    if SourceIndex(idx, n, target) >= n {
      MulMonotone(n, SourceIndex(idx, n, target), target);
    }
  }

  lemma DivisionBounds(a: nat, b: nat)
    requires b > 0
    ensures b * (a / b) <= a < b * (a / b) + b && a / b >= 0
  {
  }

  lemma MulMonotone(a: nat, b: nat, c: nat)
    requires a <= b
    ensures a * c <= b * c && c * a <= c * b
  {
  }

  lemma MulSuccessor(a: nat, b: nat)
    ensures a * (b + 1) == a * b + a
  {
  }

  /** The quotient is the only number with these bounds. */
  lemma QuotientUnique(a: nat, b: nat, q: nat)
    requires b > 0 && b * q <= a < b * q + b
    ensures a / b == q
  {
    DivisionBounds(a, b);
    var p := a / b;
    MulSuccessor(b, p);
    MulSuccessor(b, q);
    if p < q {
      MulMonotone(p + 1, q, b);
    } else if q < p {
      MulMonotone(q + 1, p, b);
    }
  }

  /** Same length, one value, an exact multiple, or the general case: all four branches take
      value floor(idx * n / target) at position idx. */
  method ExpandSeries(values: seq<real>, target: nat) returns (r: Result<seq<real>, SeriesError>)
    ensures values == [] ==> r == Err(EmptySeries)
    ensures values != [] ==> r.Ok? && Resampled(values, target, r.value)
  {
    if values == [] {
      return Err(EmptySeries);
    }
    var n := |values|;
    if n == target {
      forall idx | 0 <= idx < target ensures SourceIndex(idx, n, target) == idx {
        QuotientUnique(idx * n, target, idx);
      }
      return Ok(values);
    }
    if n == 1 {
      forall idx | 0 <= idx < target ensures SourceIndex(idx, 1, target) == 0 {
        QuotientUnique(idx, target, 0);
      }
      return Ok(seq(target, i => values[0]));
    }
    if target % n == 0 {
      var repeat := target / n;
      var expanded: seq<real> := [];
      for k := 0 to n
        invariant |expanded| == k * repeat
        invariant forall idx :: 0 <= idx < k * repeat ==> 0 <= SourceIndex(idx, n, target) < n && expanded[idx] == values[SourceIndex(idx, n, target)]
      {
        assert (k + 1) * repeat == k * repeat + repeat;
        forall idx | k * repeat <= idx < (k + 1) * repeat ensures SourceIndex(idx, n, target) == k {
          RepeatedBlock(idx, n, target, repeat, k);
        }
        expanded := expanded + seq(repeat, i => values[k]);
      }
      assert n * repeat == target;
      return Ok(expanded);
    }
    var expanded: seq<real> := [];
    for idx := 0 to target
      invariant |expanded| == idx
      invariant forall j :: 0 <= j < idx ==> 0 <= SourceIndex(j, n, target) < n && expanded[j] == values[SourceIndex(j, n, target)]
    {
      SourceIndexInRange(idx, n, target);
      var source := if n - 1 <= idx * n / target then n - 1 else idx * n / target;
      expanded := expanded + [values[source]];
    }
    return Ok(expanded);
  }

  lemma RepeatedBlock(idx: nat, n: nat, target: nat, repeat: nat, k: nat)
    requires n > 0 && target == n * repeat && k * repeat <= idx < (k + 1) * repeat
    ensures target > 0 && SourceIndex(idx, n, target) == k
  {
    assert repeat > 0;
    MulMonotone(1, n, repeat);
    MulMonotone(k * repeat, idx, n);
    MulMonotone(idx + 1, (k + 1) * repeat, n);
    assert target * k == k * repeat * n;
    assert (idx + 1) * n == idx * n + n && (k + 1) * repeat * n == target * k + target;
    QuotientUnique(idx * n, target, k);
  }

  /** First target position that takes a source sample numbered `k` or more. */
  function FirstUse(k: nat, n: nat, target: nat): int
    requires n > 0
  {
    (k * target + n - 1) / n
  }

  lemma UsesAreABlock(idx: nat, k: nat, n: nat, target: nat)
    requires n > 0 && idx < target
    ensures SourceIndex(idx, n, target) >= k <==> idx >= FirstUse(k, n, target)
  {
    var q, f := SourceIndex(idx, n, target), FirstUse(k, n, target);
    DivisionBounds(idx * n, target);
    DivisionBounds(k * target + n - 1, n);
    MulSuccessor(n, idx);
    MulSuccessor(target, q);
    if q >= k {
      MulMonotone(k, q, target);
      if idx + 1 <= f {
        MulMonotone(idx + 1, f, n);
      }
    } else {
      MulMonotone(q + 1, k, target);
      if idx >= f {
        MulMonotone(f, idx, n);
      }
    }
  }

  /** Source sample k is used on one block of positions, floor(target/n) or ceil(target/n) of them. */
  lemma EachSampleUsedEvenly(k: nat, n: nat, target: nat)
    requires n > 0 && k < n
    ensures forall idx :: 0 <= idx < target ==> (SourceIndex(idx, n, target) == k <==> FirstUse(k, n, target) <= idx < FirstUse(k + 1, n, target))
    ensures target / n <= FirstUse(k + 1, n, target) - FirstUse(k, n, target) <= (target + n - 1) / n
    ensures FirstUse(0, n, target) == 0 && FirstUse(n, n, target) == target
  {
    forall idx | 0 <= idx < target ensures SourceIndex(idx, n, target) == k <==> FirstUse(k, n, target) <= idx < FirstUse(k + 1, n, target) {
      UsesAreABlock(idx, k, n, target);
      UsesAreABlock(idx, k + 1, n, target);
    }
    BlockLength(k, n, target);
    QuotientUnique(n - 1, n, 0);
    QuotientUnique(n * target + n - 1, n, target);
  }

  lemma BlockLength(k: nat, n: nat, target: nat)
    requires n > 0
    ensures target / n <= FirstUse(k + 1, n, target) - FirstUse(k, n, target) <= (target + n - 1) / n
  {
    var a := k * target + n - 1;
    assert (k + 1) * target + n - 1 == a + target;
    QuotientOfSum(a, target, n);
  }

  lemma QuotientOfSum(a: nat, b: nat, n: nat)
    requires n > 0
    ensures b / n <= (a + b) / n - a / n <= (b + n - 1) / n
  {
    DivisionBounds(a, n);
    DivisionBounds(b, n);
    DivisionBounds(a + b, n);
    DivisionBounds(b + n - 1, n);
    SumOfBounds(n, a / n, b / n, (a + b) / n, (b + n - 1) / n, a, b);
  }

  lemma SumOfBounds(n: nat, p: nat, q: nat, r: nat, c: nat, a: nat, b: nat)
    requires n > 0 && n * p <= a < n * p + n && n * q <= b < n * q + n
    requires n * r <= a + b < n * r + n && n * c <= b + n - 1 < n * c + n
    ensures q <= r - p <= c
  {
    MulSum(n, p, q);
    MulSum(n, p, c);
    MulSuccessor(n, r);
    MulSuccessor(n, p + c);
    if r < p + q {
      MulMonotone(r + 1, p + q, n);
    } else if r > p + c {
      MulMonotone(p + c + 1, r, n);
    }
  }

  lemma MulSum(n: nat, p: nat, q: nat)
    ensures n * (p + q) == n * p + n * q
  {
  }

  // ---------------------------------------------------------------- boundaries

  function Cleaned(b: real): (c: int)
    ensures c >= 1
  {
    MaxInt(1, RoundHalfEven(b))
  }

  /** Nondecreasing, and strictly so until the horizon is reached. */
  ghost predicate Monotone(r: seq<int>, target: int) {
    forall i :: 0 <= i < |r| - 1 ==> r[i] <= r[i + 1] && (r[i] < target ==> r[i] < r[i + 1])
  }

  /** A boundary in proportion to the new horizon; unchanged when the horizon is. */
  function InProportion(cleaned: int, source: int, target: int): int
    requires source != 0
  {
    if source == target then cleaned
    else MaxInt(1, MinInt(target, RoundHalfEven((cleaned as real / source as real) * target as real)))
  }

  /** A boundary is the nearest whole step, at least 1. */
  lemma NearestBoundary(b: real)
    ensures b >= 0.5 ==> -0.5 <= Cleaned(b) as real - b <= 0.5
    ensures b < 0.5 ==> Cleaned(b) == 1
  {
    RoundUnique(0.5, 0);
    if b < 0.5 {
      RoundMonotone(b, 0.5);
    } else {
      RoundMonotone(0.5, b);
    }
  }

  /** Rounded and kept between 1 and `target`. */
  lemma NearestInside(x: real, target: int)
    requires target >= 1
    ensures var w := MaxInt(1, MinInt(target, RoundHalfEven(x)));
            && (x <= 0.5 ==> w == 1)
            && (0.5 <= x <= target as real ==> w as real - 0.5 <= x <= w as real + 0.5)
            && (x >= target as real ==> w == target)
  {
    RoundUnique(0.5, 0);
    RoundOfInteger(target);
    if x <= 0.5 {
      RoundMonotone(x, 0.5);
    } else {
      RoundMonotone(0.5, x);
    }
    if x <= target as real {
      RoundMonotone(x, target as real);
    } else {
      RoundMonotone(target as real, x);
    }
  }

  /** Scaled to another horizon it keeps its share of it to within half a step, inside the horizon and
      never before step 1. */
  lemma ShareIsKept(cleaned: int, source: int, target: int)
    requires cleaned >= 1 && source >= 1 && target >= 1 && source != target
    ensures var w := InProportion(cleaned, source, target);
            && 1 <= w <= target
            && (cleaned <= source && 2 * (cleaned * target) >= source ==> -source <= 2 * (w * source) - 2 * (cleaned * target) <= source)
            && (cleaned > source ==> w == target)
            && (2 * (cleaned * target) < source ==> w == 1)
  {
    hide RoundHalfEven;
    var w, x := InProportion(cleaned, source, target), (cleaned as real / source as real) * target as real;
    NearestInside(x, target);
    ShareTimesSource(cleaned, source, target, x);
    Products(w, source, cleaned, target);
    ShareInUnits(w, source, target, w * source, cleaned * target, source * target, x);
    if cleaned <= source {
      MulMonotone(cleaned, source, target);
    } else {
      MulMonotone(source + 1, cleaned, target);
      MulSuccessor(target, source);
    }
  }

  lemma ShareInUnits(w: int, source: int, target: int, a: int, b: int, c: int, x: real)
    requires source >= 1 && x * source as real == b as real
    requires a as real == w as real * source as real && c as real == target as real * source as real
    requires x <= 0.5 ==> w == 1
    requires 0.5 <= x <= target as real ==> w as real - 0.5 <= x <= w as real + 0.5
    requires x >= target as real ==> w == target
    ensures 2 * b < source ==> w == 1
    ensures 2 * b >= source && b <= c ==> -source <= 2 * a - 2 * b <= source
    ensures b > c ==> w == target
  {
    var p, q, r := b as real, a as real, c as real;
    InUnits(x, w as real, target as real, source as real, p, q, r);
    TwiceInReals(a, b, c, source, p, q, r);
  }

  lemma TwiceInReals(a: int, b: int, c: int, source: int, p: real, q: real, r: real)
    requires p == b as real && q == a as real && r == c as real
    ensures 2 * b < source <==> !(source as real <= 2.0 * p)
    ensures b <= c <==> p <= r
    ensures -source <= 2 * a - 2 * b <= source <==> -(source as real) <= 2.0 * q - 2.0 * p <= source as real
  {
  }

  /** Comparisons of quotients, multiplied out. */
  lemma InUnits(x: real, w: real, t: real, n: real, p: real, q: real, r: real)
    requires n > 0.0 && p == x * n && q == w * n && r == t * n
    ensures x <= 0.5 <==> 2.0 * p <= n
    ensures 0.5 <= x <==> n <= 2.0 * p
    ensures x <= t <==> p <= r
    ensures t <= x <==> r <= p
    ensures w - 0.5 <= x <= w + 0.5 <==> -n <= 2.0 * q - 2.0 * p <= n
  {
    Cancel(x, 0.5, n);
    Cancel(0.5, x, n);
    Cancel(x, t, n);
    Cancel(t, x, n);
    HalfAround(w, n, q, x, p);
  }

  lemma HalfAround(w: real, n: real, q: real, x: real, p: real)
    requires n > 0.0 && q == w * n && p == x * n
    ensures w - 0.5 <= x <==> 2.0 * q - 2.0 * p <= n
    ensures x <= w + 0.5 <==> -n <= 2.0 * q - 2.0 * p
  {
    Spread(n, w, x);
    WithinHalf(w - x, n, q - p);
  }

  lemma WithinHalf(d: real, n: real, e: real)
    requires n > 0.0 && e == n * d
    ensures d <= 0.5 <==> 2.0 * e <= n
    ensures -0.5 <= d <==> -n <= 2.0 * e
  {
    if d <= 0.5 {
      NotNegative(n, 0.5 - d);
    } else {
      ProductIsPositive(n, d - 0.5);
    }
    if -0.5 <= d {
      NotNegative(n, d + 0.5);
    } else {
      ProductIsPositive(n, -0.5 - d);
    }
    Spread(n, d, 0.5);
  }

  lemma Products(w: int, source: int, cleaned: int, target: int)
    ensures (w * source) as real == w as real * source as real
    ensures (cleaned * target) as real == cleaned as real * target as real
    ensures (source * target) as real == target as real * source as real
  {
  }

  lemma ShareTimesSource(cleaned: int, source: int, target: int, x: real)
    requires source >= 1 && x == (cleaned as real / source as real) * target as real
    ensures x * source as real == cleaned as real * target as real
  {
    var c, n, t := cleaned as real, source as real, target as real;
    DivideBack(c, n);
    Regroup(c / n, t, n);
    Regroup(c / n, n, t);
    assert t * n == n * t;
  }

  /** Each boundary but the last is the proportional one, moved up past its predecessor if it must
      be, and never beyond the horizon. */
  ghost predicate ClosestAfter(r: seq<int>, wanted: seq<int>, target: int, n: int)
    requires |r| <= |wanted|
  {
    forall i {:trigger wanted[i]} :: 0 <= i < n && i < |r| ==>
      r[i] == MinInt(target, MaxInt((if i == 0 then 0 else r[i - 1]) + 1, wanted[i]))
  }

  lemma NothingPlaced(wanted: seq<int>, target: int, n: int)
    ensures ClosestAfter([], wanted, target, n)
  {
  }

  lemma ClosestExtends(r: seq<int>, x: int, wanted: seq<int>, target: int, n: int)
    requires |r| < |wanted| && ClosestAfter(r, wanted, target, n)
    requires |r| < n ==> x == MinInt(target, MaxInt((if r == [] then 0 else r[|r| - 1]) + 1, wanted[|r|]))
    ensures ClosestAfter(r + [x], wanted, target, n)
  {
  }

  function SourceSteps(boundaries: seq<real>, given: Option<real>): (source: int)
    requires boundaries != []
    ensures source >= 1
  {
    match given
    case None => Cleaned(boundaries[|boundaries| - 1])
    case Some(s) => Cleaned(s)
  }

  function Wanted(boundaries: seq<real>, target: nat, given: Option<real>): (w: seq<int>)
    requires boundaries != []
    ensures |w| == |boundaries|
  {
    var source := SourceSteps(boundaries, given);
    seq(|boundaries|, i requires 0 <= i < |boundaries| => InProportion(Cleaned(boundaries[i]), source, target))
  }

  lemma SameScaling(boundaries: seq<real>, target: nat, given: Option<real>, cleaned: seq<int>, scaled: seq<int>)
    requires boundaries != [] && |cleaned| == |scaled| == |boundaries|
    requires forall i :: 0 <= i < |boundaries| ==> cleaned[i] == Cleaned(boundaries[i])
    requires var source := SourceSteps(boundaries, given);
             if source == target then scaled == cleaned
             else forall i :: 0 <= i < |scaled| ==> scaled[i] == InProportion(cleaned[i], source, target)
    ensures scaled == Wanted(boundaries, target, given)
  {
    hide Cleaned;
  }

  lemma StrictUntilTheEnd(r: seq<int>, target: int)
    requires Monotone(r, target) && forall i :: 0 <= i < |r| ==> r[i] <= target
    ensures forall i :: 0 <= i < |r| - 1 ==> r[i] < r[i + 1] || r[i] == r[i + 1] == target
  {
  }

  lemma OneBoundary(target: nat)
    ensures Monotone([target], target)
  {
  }

  /** Scaled boundaries start at 1 or later, never decrease, and end at the horizon. */
  method ScaleBoundaries(boundaries: seq<real>, target: nat, sourceSteps: Option<real>) returns (r: seq<int>)
    requires target >= 1
    ensures |r| == MaxInt(1, |boundaries|) && r[|r| - 1] == target
    ensures forall i :: 0 <= i < |r| ==> MinInt(target, i + 1) <= r[i] <= target
    ensures Monotone(r, target)
    ensures forall i :: 0 <= i < |r| - 1 ==> r[i] < r[i + 1] || r[i] == r[i + 1] == target
    ensures boundaries != [] ==> |r| == |boundaries| && ClosestAfter(r, Wanted(boundaries, target, sourceSteps), target, |boundaries| - 1)
  {
    hide ClosestAfter, Monotone, Cleaned, InProportion, Wanted;
    if boundaries == [] {
      OneBoundary(target);
      r := [target];
      StrictUntilTheEnd(r, target);
      return;
    }
    var cleaned := seq(|boundaries|, i requires 0 <= i < |boundaries| => Cleaned(boundaries[i]));
    var source := match sourceSteps
      case None => MaxInt(1, cleaned[|cleaned| - 1])
      case Some(s) => Cleaned(s);
    var scaled := cleaned;
    if source != target {
      scaled := seq(|cleaned|, i requires 0 <= i < |cleaned| => InProportion(cleaned[i], source, target));
    }
    SameScaling(boundaries, target, sourceSteps, cleaned, scaled);
    r := Monotonize(scaled, target);
    StrictUntilTheEnd(r, target);
    assert r[|r| - 1 := target] == r;
    r := r[|r| - 1 := target];
  }

  /** Pushes every boundary past the one before it, and the last one to the horizon. */
  method Monotonize(scaled: seq<int>, target: nat) returns (r: seq<int>)
    requires target >= 1 && scaled != []
    ensures |r| == |scaled| && r[|r| - 1] == target
    ensures forall i :: 0 <= i < |r| ==> MinInt(target, i + 1) <= r[i] <= target
    ensures Monotone(r, target) && ClosestAfter(r, scaled, target, |scaled| - 1)
  {
    hide ClosestAfter;
    NothingPlaced(scaled, target, |scaled| - 1);
    r := [];
    var prev := 0;
    for i := 0 to |scaled|
      invariant |r| == i && prev == (if i == 0 then 0 else r[i - 1])
      invariant forall j :: 0 <= j < i ==> MinInt(target, j + 1) <= r[j] <= target
      invariant Monotone(r, target)
      invariant i == |scaled| ==> r[i - 1] == target
      invariant ClosestAfter(r, scaled, target, |scaled| - 1)
    {
      var minimum := if i < |scaled| - 1 then prev + 1 else target;
      var boundary := MinInt(target, MaxInt(minimum, scaled[i]));
      ClosestExtends(r, boundary, scaled, target, |scaled| - 1);
      r := r + [boundary];
      prev := boundary;
    }
  }

  // ---------------------------------------------------------------- multiplier schedule

  /** Where segment `i` begins. */
  function SegmentStart(ends: seq<int>, i: nat): int
    requires i <= |ends|
  {
    if i == 0 then 0 else ends[i - 1]
  }

  /** The multiplier in force at each step: the one whose segment contains it. */
  ghost predicate PiecewiseConstant(multipliers: seq<real>, ends: seq<int>, r: seq<real>) {
    && |multipliers| == |ends|
    && forall i, t :: 0 <= i < |ends| && 0 <= t && SegmentStart(ends, i) <= t < ends[i] && t < |r| ==> r[t] == multipliers[i]
  }

  /** A schedule of exactly `target` steps. Matching multipliers and boundaries give a piecewise
      constant schedule on the scaled boundaries; once these have reached the horizon their segments
      are empty. The loop always covers the horizon, so nothing is ever padded. */
  method BuildMultiplierSchedule(multipliers: seq<real>, boundaries: seq<real>, target: nat)
    returns (r: Result<(seq<real>, seq<int>), SeriesError>)
    requires target >= 1
    ensures multipliers == [] <==> r.Err?
    ensures r.Ok? ==> |r.value.0| == target
    ensures r.Ok? && |multipliers| == |r.value.1| ==> PiecewiseConstant(multipliers, r.value.1, r.value.0)
    ensures r.Ok? && |multipliers| == |r.value.1| ==>
              forall i, t :: 0 <= i < |multipliers| && (if i == 0 then 0 else r.value.1[i - 1]) <= t < r.value.1[i] && 0 <= t < target ==>
                r.value.0[t] == multipliers[i]
    ensures r.Ok? && |multipliers| != target && boundaries != [] && |multipliers| == |boundaries| ==>
              && |r.value.1| == |boundaries| && r.value.1[|boundaries| - 1] == target
              && ClosestAfter(r.value.1, Wanted(boundaries, target, Some(boundaries[|boundaries| - 1])), target, |boundaries| - 1)
    ensures r.Ok? && |multipliers| != target && |multipliers| != MaxInt(1, |boundaries|) ==> Resampled(multipliers, target, r.value.0)
  {
    if multipliers == [] {
      return Err(EmptySeries);
    }
    var everyStep := seq(target, i => i + 1);
    if |multipliers| == target {
      return Ok((multipliers, everyStep));
    }
    var source := if boundaries != [] then boundaries[|boundaries| - 1] else |multipliers| as real;
    var scaled := ScaleBoundaries(if boundaries != [] then boundaries else [|multipliers| as real], target, Some(source));
    if |multipliers| == |scaled| {
      var schedule := LayOut(multipliers, scaled, target);
      return Ok((schedule[..target], scaled));
    }
    var expanded := ExpandSeries(multipliers, target);
    return Ok((expanded.value, everyStep));
  }

  /** Lays the multipliers out segment by segment; the segments reach the horizon. */
  method LayOut(multipliers: seq<real>, scaled: seq<int>, target: nat) returns (schedule: seq<real>)
    requires |multipliers| == |scaled| >= 1 && scaled[|scaled| - 1] == target >= 1
    requires Monotone(scaled, target) && forall i :: 0 <= i < |scaled| ==> 1 <= scaled[i] <= target
    ensures |schedule| >= target && PiecewiseConstant(multipliers, scaled, schedule)
  {
    schedule := [];
    var start := 0;
    for i := 0 to |scaled|
      invariant |schedule| == start
      invariant if SegmentStart(scaled, i) < target then start == SegmentStart(scaled, i) else start >= target
      invariant forall j :: 0 <= j < i ==> SegmentStart(scaled, j) <= scaled[j] <= start
      invariant forall j, t :: 0 <= j < i && SegmentStart(scaled, j) <= t < scaled[j] && 0 <= t ==> schedule[t] == multipliers[j]
    {
      var end := MaxInt(start + 1, MinInt(target, scaled[i]));
      schedule := schedule + seq(end - start, k => multipliers[i]);
      start := end;
    }
    if |schedule| < target {
      assert false;
    }
  }
}
