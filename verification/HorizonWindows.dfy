/** Trips on the rolling horizon: absolute windows, their shift to the remaining horizon, and what
    the coverage constraint implies about served energy. */
module HorizonWindows {
  import opened Arithmetic
  import opened Prelude
  import opened Rounding
  import opened Sums
  import opened FleetEnergy
  import ServiceEvents

  datatype Window = Window(startAbs: int, endAbs: int, startRt: int, endRt: int, remainingActive: int)

  /** A trip's window, absolute and relative; `None` when nothing of it is left. */
  function TripWindow(startRaw: int, endRaw: int, delayMinutes: int, timestepMinutes: int, full: int, current: int): (w: Option<Window>)
    requires timestepMinutes > 0
  {
    var delaySteps := RoundHalfEven(delayMinutes as real / timestepMinutes as real);
    var start := MinInt(full, MaxInt(1, startRaw + delaySteps));
    var end := MinInt(full, MaxInt(start + 1, endRaw + delaySteps));
    if end <= current then None
    else Some(Window(start, end, MaxInt(1, start - current + 1), MinInt(full - current + 1, end - current + 1),
                     MaxInt(0, end - MaxInt(start, current))))
  }

  /** The relative window selects exactly the steps whose absolute time lies in the absolute window. */
  lemma WindowShift(startRaw: int, endRaw: int, delayMinutes: int, timestepMinutes: int, full: int, current: int, t: int)
    requires timestepMinutes > 0 && 1 <= current <= full && 1 <= t <= full - current + 1
    ensures match TripWindow(startRaw, endRaw, delayMinutes, timestepMinutes, full, current)
            case None => true
            case Some(w) => (w.startRt <= t < w.endRt <==> w.startAbs <= current + t - 1 < w.endAbs)
  {
  }

  /** A delay moves both ends of the absolute window later by the same whole number of steps, the nearest
      to the delay with halves to the even number; the day's ends cut it off, and one step always stays. */
  lemma DelayMovesTheWindow(startRaw: int, endRaw: int, delayMinutes: int, timestepMinutes: int, full: int, current: int, steps: int)
    requires timestepMinutes > 0
    requires var off := 2 * (delayMinutes - steps * timestepMinutes);
             -timestepMinutes < off < timestepMinutes || ((off == timestepMinutes || off == -timestepMinutes) && steps % 2 == 0)
    ensures match TripWindow(startRaw, endRaw, delayMinutes, timestepMinutes, full, current)
            case None => current >= full || (current >= endRaw + steps && current >= startRaw + steps + 1 && current >= 2)
            case Some(w) =>
              && (1 <= startRaw + steps <= full ==> w.startAbs == startRaw + steps)
              && (startRaw + steps < 1 <= full ==> w.startAbs == 1)
              && (startRaw + steps > full >= 1 ==> w.startAbs == full)
              && (w.startAbs < endRaw + steps <= full ==> w.endAbs == endRaw + steps)
              && (endRaw + steps > full > w.startAbs ==> w.endAbs == full)
              && (endRaw + steps <= w.startAbs < full ==> w.endAbs == w.startAbs + 1)
  {
    hide RoundHalfEven;
    NearestStep(delayMinutes, timestepMinutes, steps);
  }

  lemma NearestStep(delayMinutes: int, timestepMinutes: int, steps: int)
    requires timestepMinutes > 0
    requires var off := 2 * (delayMinutes - steps * timestepMinutes);
             -timestepMinutes < off < timestepMinutes || ((off == timestepMinutes || off == -timestepMinutes) && steps % 2 == 0)
    ensures RoundHalfEven(delayMinutes as real / timestepMinutes as real) == steps
  {
    hide RoundHalfEven;
    ProductAsReal(steps, timestepMinutes);
    QuotientIsNear(delayMinutes as real, timestepMinutes as real, steps as real);
    RoundUnique(delayMinutes as real / timestepMinutes as real, steps);
  }

  lemma ProductAsReal(a: int, b: int)
    ensures (a * b) as real == a as real * b as real
  {
  }

  lemma QuotientIsNear(d: real, n: real, k: real)
    requires n > 0.0
    ensures -n <= 2.0 * (d - k * n) ==> k - 0.5 <= d / n
    ensures 2.0 * (d - k * n) <= n ==> d / n <= k + 0.5
    ensures d / n == k - 0.5 ==> 2.0 * (d - k * n) == -n
    ensures d / n == k + 0.5 ==> 2.0 * (d - k * n) == n
  {
    var x := d / n;
    DivideBack(d, n);
    assert (k - 0.5) * n == k * n - 0.5 * n && (k + 0.5) * n == k * n + 0.5 * n;
    Cancel(k - 0.5, x, n);
    Cancel(x, k + 0.5, n);
  }

  /** A longer delay never moves a window earlier. */
  lemma LongerDelaysAreLater(startRaw: int, endRaw: int, delayMinutes: int, more: nat, timestepMinutes: int, full: int, current: int)
    requires timestepMinutes > 0
    ensures var a := TripWindow(startRaw, endRaw, delayMinutes, timestepMinutes, full, current);
            var b := TripWindow(startRaw, endRaw, delayMinutes + more, timestepMinutes, full, current);
            a.Some? ==> b.Some? && a.value.startAbs <= b.value.startAbs && a.value.endAbs <= b.value.endAbs
  {
    hide RoundHalfEven;
    var d, e, n := delayMinutes as real, (delayMinutes + more) as real, timestepMinutes as real;
    DivideBack(d, n);
    DivideBack(e, n);
    Cancel(d / n, e / n, n);
    RoundMonotone(d / n, e / n);
  }

  /** The active steps of a trip on a horizon of `steps` steps, listed in order. */
  method ActiveSteps(steps: nat, startRt: int, endRt: int) returns (active: seq<int>)
    ensures forall t :: t in active <==> 1 <= t <= steps && startRt <= t < endRt
    ensures forall a, b :: 0 <= a < b < |active| ==> active[a] < active[b]
    ensures |active| == MaxInt(0, MinInt(steps + 1, endRt) - MaxInt(1, startRt))
  {
    active := [];
    for t := 1 to steps + 1
      invariant forall s :: s in active <==> 1 <= s < t && startRt <= s < endRt
      invariant forall a, b :: 0 <= a < b < |active| ==> active[a] < active[b]
      invariant |active| == MaxInt(0, MinInt(t, endRt) - MaxInt(1, startRt))
    {
      if startRt <= t < endRt {
        assert forall a :: 0 <= a < |active| ==> active[a] in active;
        active := active + [t];
      }
    }
  }

  /** The number of active steps is the remaining activity derived when the context was built. */
  lemma ActiveCountIsRemaining(startRaw: int, endRaw: int, delayMinutes: int, timestepMinutes: int, full: int, current: int)
    requires timestepMinutes > 0 && 1 <= current <= full
    ensures match TripWindow(startRaw, endRaw, delayMinutes, timestepMinutes, full, current)
            case None => true
            case Some(w) => w.remainingActive
                            == MaxInt(0, MinInt(full - current + 2, w.endRt) - MaxInt(1, w.startRt))
  {
  }

  // ---------------------------------------------------------------- served energy

  /** A sum over a list of steps. */
  function SumOver(steps: seq<int>, f: int -> real): real {
    if steps == [] then 0.0 else SumOver(steps[..|steps| - 1], f) + f(steps[|steps| - 1])
  }

  function Served(d: Site, p: Plan, i: int): int -> real {
    t => Sum(d.buses, ServesByBus(p, i, t))
  }

  function Unserved(p: Plan, i: int): int -> real {
    t => B(p.unserved(i, t))
  }

  function ServedEnergy(d: Site, p: Plan, i: int): int -> real {
    t => d.tripKwh(i) * Sum(d.buses, ServesByBus(p, i, t))
  }

  function UnservedEnergy(d: Site, p: Plan, i: int): int -> real {
    t => B(p.unserved(i, t)) * d.tripKwh(i)
  }

  /** Over the active steps, coverage alone fixes the step count and the energy that is served or
      declared unserved, whatever the plan. */
  lemma {:induction false} CoverageFixesTheTotals(d: Site, p: Plan, i: nat, active: seq<int>)
    requires Coverage(d, p) && i < d.trips
    requires forall t :: t in active ==> 0 <= t < d.steps && d.active(i, t)
    ensures SumOver(active, Served(d, p, i)) + SumOver(active, Unserved(p, i)) == |active| as real
    ensures SumOver(active, ServedEnergy(d, p, i)) + SumOver(active, UnservedEnergy(d, p, i)) == d.tripKwh(i) * |active| as real
  {
    hide Coverage, Served, Unserved, ServedEnergy, UnservedEnergy;
    if active != [] {
      var rest, t := active[..|active| - 1], active[|active| - 1];
      assert t in active && forall s :: s in rest ==> s in active;
      CoverageFixesTheTotals(d, p, i, rest);
      CoveredStep(d, p, i, t);
      OneMore(|rest|, d.tripKwh(i));
    } else {
      assert d.tripKwh(i) * 0.0 == 0.0;
    }
  }

  lemma CoveredStep(d: Site, p: Plan, i: nat, t: nat)
    requires Coverage(d, p) && i < d.trips && t < d.steps && d.active(i, t)
    ensures Served(d, p, i)(t) + Unserved(p, i)(t) == 1.0
    ensures ServedEnergy(d, p, i)(t) + UnservedEnergy(d, p, i)(t) == d.tripKwh(i)
  {
    var kwh, served, u := d.tripKwh(i), Sum(d.buses, ServesByBus(p, i, t)), B(p.unserved(i, t));
    assert served + u == 1.0;
    assert kwh * served + u * kwh == kwh * (served + u) == kwh;
  }

  /** The energy a trip is said to still need. A state row overrides it only with a positive value. */
  function RemainingNeed(energyPerStep: real, remainingActive: int, stateRow: Option<real>): real {
    var need := match stateRow
      case Some(v) => if v <= 0.0 then energyPerStep * remainingActive as real else v
      case None => energyPerStep * remainingActive as real;
    Max(0.0, need)
  }

  /** A positive figure in the state row is the need; otherwise it is the energy of the steps left, and never
      negative. */
  lemma NeedOfATrip(energyPerStep: real, steps: nat, stated: real)
    ensures stated > 0.0 ==> RemainingNeed(energyPerStep, steps, Some(stated)) == stated
    ensures stated <= 0.0 ==> RemainingNeed(energyPerStep, steps, Some(stated)) == RemainingNeed(energyPerStep, steps, None)
    ensures energyPerStep >= 0.0 ==> RemainingNeed(energyPerStep, steps, None) == energyPerStep * steps as real
    ensures energyPerStep <= 0.0 ==> RemainingNeed(energyPerStep, steps, None) == 0.0
  {
    MaxOfMultiple(energyPerStep, steps);
    assert 0.0 * steps as real == 0.0;
  }

  /** The served-energy constraint adds nothing a plan can violate: under coverage it holds for
      every plan or for none, exactly when the need is at most the energy of the active steps. */
  lemma ServedEnergyConstraintIsPlanFree(d: Site, p: Plan, i: nat, active: seq<int>, need: real)
    requires Coverage(d, p) && i < d.trips
    requires forall t :: t in active ==> 0 <= t < d.steps && d.active(i, t)
    ensures SumOver(active, ServedEnergy(d, p, i)) + SumOver(active, UnservedEnergy(d, p, i)) >= need
       <==> need <= d.tripKwh(i) * |active| as real
  {
    CoverageFixesTheTotals(d, p, i, active);
  }

  lemma MaxOfMultiple(x: real, n: nat)
    ensures Max(0.0, x) * n as real == Max(0.0, x * n as real)
  {
    if x < 0.0 {
      assert 0.0 * n as real == 0.0;
    }
  }

  /** For a trip without a state row whose remaining activity is its number of active steps, the
      constraint holds with equality under every covering plan. */
  lemma ServedEnergyIsTight(d: Site, p: Plan, i: nat, active: seq<int>, energyPerStep: real)
    requires Coverage(d, p) && i < d.trips && d.tripKwh(i) == Max(0.0, energyPerStep)
    requires forall t :: t in active ==> 0 <= t < d.steps && d.active(i, t)
    ensures SumOver(active, ServedEnergy(d, p, i)) + SumOver(active, UnservedEnergy(d, p, i))
         == RemainingNeed(energyPerStep, |active|, None)
  {
    hide Coverage, SumOver;
    CoverageFixesTheTotals(d, p, i, active);
    MaxOfMultiple(energyPerStep, |active|);
  }

  /** Covered is the opposite of declared unserved. */
  lemma CoveredIffNotUnserved(d: Site, p: Plan, i: nat, t: nat)
    requires Coverage(d, p) && i < d.trips && t < d.steps && d.active(i, t)
    ensures (exists k :: 0 <= k < d.buses && p.serves(k, i, t)) <==> !p.unserved(i, t)
  {
    CountsAreNonNegative(p, i, t);
    if k :| 0 <= k < d.buses && p.serves(k, i, t) {
      SumAtLeast(d.buses, ServesByBus(p, i, t), k);
    } else {
      SumOfZeros(d.buses, ServesByBus(p, i, t));
    }
  }

  /** The bus list read off a plan: some bus exactly when one serves the trip. */
  ghost predicate ReadsOff(d: Site, p: Plan, i: nat, bus: seq<Option<ServiceEvents.BusId>>, start: nat, end: nat) {
    && |bus| == d.steps && start <= end <= d.steps
    && forall t :: 0 <= t < d.steps ==>
         && (d.active(i, t) <==> start <= t < end)
         && (bus[t].Some? <==> exists k :: 0 <= k < d.buses && p.serves(k, i, t))
  }

  lemma InactiveIsNotUnserved(d: Site, p: Plan, i: nat, t: nat)
    requires Coverage(d, p) && i < d.trips && t < d.steps && !d.active(i, t)
    ensures !p.unserved(i, t)
  {
  }

  function UnmetUpTo(bus: seq<Option<ServiceEvents.BusId>>, start: nat, end: nat, t: nat): nat
    requires start <= end <= |bus|
  {
    ServiceEvents.CountFalse(ServiceEvents.CoverageOf(bus, start, ServiceEvents.Clamp(t, start, end)))
  }

  lemma UnmetStep(d: Site, p: Plan, i: nat, bus: seq<Option<ServiceEvents.BusId>>, start: nat, end: nat, t: nat)
    requires Coverage(d, p) && i < d.trips && ReadsOff(d, p, i, bus, start, end) && t < d.steps
    ensures UnmetUpTo(bus, start, end, t + 1) as real == UnmetUpTo(bus, start, end, t) as real + Unserved(p, i)(t)
  {
    hide Coverage, ServiceEvents.CountFalse, ServiceEvents.CoverageOf;
    assert Unserved(p, i)(t) == B(p.unserved(i, t));
    if start <= t < end {
      CoveredIffNotUnserved(d, p, i, t);
      ServiceEvents.OneMoreCovered(bus, start, t);
      ServiceEvents.OneMoreStep(ServiceEvents.CoverageOf(bus, start, t), bus[t].Some?, start);
    } else {
      InactiveIsNotUnserved(d, p, i, t);
    }
  }

  lemma NothingUnmetYet(d: Site, p: Plan, i: nat, bus: seq<Option<ServiceEvents.BusId>>, start: nat, end: nat)
    requires ReadsOff(d, p, i, bus, start, end)
    ensures UnmetUpTo(bus, start, end, 0) == 0
  {
    assert ServiceEvents.CoverageOf(bus, start, start) == [];
  }

  lemma {:induction false} UnmetSoFar(d: Site, p: Plan, i: nat, bus: seq<Option<ServiceEvents.BusId>>, start: nat, end: nat, t: nat)
    requires Coverage(d, p) && i < d.trips && ReadsOff(d, p, i, bus, start, end) && t <= d.steps
    ensures UnmetUpTo(bus, start, end, t) as real == Sum(t, Unserved(p, i))
  {
    hide Coverage, ReadsOff, Unserved, UnmetUpTo;
    if t > 0 {
      UnmetSoFar(d, p, i, bus, start, end, t - 1);
      UnmetStep(d, p, i, bus, start, end, t - 1);
    } else {
      NothingUnmetYet(d, p, i, bus, start, end);
    }
  }

  /** The reported unmet duration of a trip is the sum of the model's unserved variables. */
  lemma UnmetDurationIsUnserved(d: Site, p: Plan, i: nat, bus: seq<Option<ServiceEvents.BusId>>, start: nat, end: nat)
    requires Coverage(d, p) && i < d.trips && ReadsOff(d, p, i, bus, start, end)
    ensures ServiceEvents.CountFalse(ServiceEvents.CoverageOf(bus, start, end)) as real == Sum(d.steps, Unserved(p, i))
  {
    UnmetSoFar(d, p, i, bus, start, end, d.steps);
  }
}
