/** Earliest-available charging: every interval takes as much of the remaining energy as the site
    allows, until the requirement is met. */
module GreedyCharging {
  import opened Arithmetic
  import opened Prelude

  const MET_KWH := 0.0000001
  const SHORTFALL_KWH := 0.000001

  datatype ChargingError = ValueError | ZeroDivision | GridDispatchInfeasible

  // ---------------------------------------------------------------- the schedule, step by step

  /** Energy taken in step `j` when `left` remains: nothing after the loop has broken off. */
  function Taken(left: real, perStep: real, j: nat): real {
    if j > 0 && left <= MET_KWH then 0.0 else Min(left, perStep)
  }

  function Left(required: real, perStep: real, j: nat): real {
    if j == 0 then required
    else Left(required, perStep, j - 1) - Taken(Left(required, perStep, j - 1), perStep, j - 1)
  }

  function Power(required: real, perStep: real, hours: real): int -> real
    requires hours != 0.0
  {
    j => if j < 0 then 0.0 else Taken(Left(required, perStep, j), perStep, j) / hours
  }

  function ScheduleOf(required: real, steps: nat, hours: real, capacity: real): seq<real>
    requires hours != 0.0
  {
    seq(steps, Power(required, capacity * hours, hours))
  }

  lemma {:induction false} NothingMoreIsTaken(required: real, perStep: real, j: nat, k: nat)
    requires 0 < j <= k && Left(required, perStep, j) <= MET_KWH
    ensures Left(required, perStep, k) == Left(required, perStep, j)
    ensures Taken(Left(required, perStep, k), perStep, k) == 0.0
  {
    if j < k {
      NothingMoreIsTaken(required, perStep, j, k - 1);
    }
  }

  lemma RestIsZero(required: real, perStep: real, hours: real, from: nat, steps: nat)
    requires hours != 0.0 && 0 < from <= steps && (from == steps || Left(required, perStep, from) <= MET_KWH)
    ensures Left(required, perStep, steps) == Left(required, perStep, from)
    ensures forall k :: from <= k < steps ==> Power(required, perStep, hours)(k) == 0.0
  {
    hide Left;
    if from < steps {
      NothingMoreIsTaken(required, perStep, from, steps);
      forall k | from <= k < steps ensures Power(required, perStep, hours)(k) == 0.0 {
        NothingMoreIsTaken(required, perStep, from, k);
      }
    }
  }

  /** The energy of interval `k`: what is still needed or the site allows, whichever is less; nothing once
      the need is met to 1e-7 kWh. */
  lemma AsMuchAsItCan(required: real, steps: nat, hours: real, capacity: real, k: nat)
    requires hours != 0.0 && k < steps
    ensures var s := ScheduleOf(required, steps, hours, capacity);
            var left := required - Energy(s[..k], hours);
            s[k] * hours == if k > 0 && left <= 0.0000001 then 0.0 else if left <= capacity * hours then left else capacity * hours
  {
    hide Left, Energy;
    EnergySoFar(required, steps, hours, capacity, k);
    DivideBack(Taken(Left(required, capacity * hours, k), capacity * hours, k), hours);
  }

  method UncontrolledSchedule(required: real, steps: int, hours: real, capacity: real) returns (r: Result<seq<real>, ChargingError>)
    ensures r == if required < 0.0 || steps < 1 then Err(ValueError)
                 else if hours == 0.0 then Err(ZeroDivision)
                 else if Left(required, capacity * hours, steps) > 0.000001 then Err(GridDispatchInfeasible)
                 else Ok(ScheduleOf(required, steps, hours, capacity))
  {
    if required < 0.0 || steps < 1 {
      return Err(ValueError);
    }
    if hours == 0.0 {
      return Err(ZeroDivision);
    }
    hide Left, ScheduleOf;
    var perStep := capacity * hours;
    var schedule := new real[steps](_ => 0.0);
    var remaining := required;
    var index := 0;
    while index < steps
      invariant 0 <= index <= steps
      invariant remaining == Left(required, perStep, index)
      invariant forall j :: 0 <= j < index ==> schedule[j] == Power(required, perStep, hours)(j)
      invariant forall j :: index <= j < steps ==> schedule[j] == 0.0
      invariant index > 0 ==> remaining > MET_KWH
    {
      var energy := Min(remaining, perStep);
      schedule[index] := energy / hours;
      remaining := remaining - energy;
      index := index + 1;
      if remaining <= MET_KWH {
        break;
      }
    }
    RestIsZero(required, perStep, hours, index, steps);
    if remaining > SHORTFALL_KWH {
      return Err(GridDispatchInfeasible);
    }
    assert schedule[..] == ScheduleOf(required, steps, hours, capacity);
    r := Ok(schedule[..]);
  }

  // ---------------------------------------------------------------- how much, and how early

  /** Energy delivered by a schedule of powers. */
  function Energy(powers: seq<real>, hours: real): real {
    if powers == [] then 0.0 else Energy(powers[..|powers| - 1], hours) + powers[|powers| - 1] * hours
  }

  /** What `j` full steps supply. */
  function Supply(perStep: real, j: nat): real {
    j as real * perStep
  }

  lemma SupplyGrows(perStep: real, j: nat)
    ensures Supply(perStep, 0) == 0.0 && Supply(perStep, j + 1) == Supply(perStep, j) + perStep
  {
    OneMore(j, perStep);
  }

  lemma {:induction false} WhatIsLeft(required: real, perStep: real, j: nat)
    requires required >= 0.0 && perStep >= 0.0
    ensures var rest := required - Supply(perStep, j);
            && Left(required, perStep, j) >= Max(0.0, rest)
            && (Left(required, perStep, j) == Max(0.0, rest) || Left(required, perStep, j) <= MET_KWH)
  {
    hide Supply;
    SupplyGrows(perStep, if j == 0 then 0 else j - 1);
    if j > 0 {
      WhatIsLeft(required, perStep, j - 1);
    }
  }

  lemma EnergyOfOneMore(powers: seq<real>, hours: real, k: nat)
    requires 0 < k <= |powers|
    ensures Energy(powers[..k], hours) == Energy(powers[..k - 1], hours) + powers[k - 1] * hours
  {
    assert powers[..k][..k - 1] == powers[..k - 1];
  }

  lemma {:induction false} EnergySoFar(required: real, steps: nat, hours: real, capacity: real, k: nat)
    requires hours != 0.0 && k <= steps
    ensures Energy(ScheduleOf(required, steps, hours, capacity)[..k], hours) == required - Left(required, capacity * hours, k)
  {
    hide Taken;
    var s := ScheduleOf(required, steps, hours, capacity);
    if k > 0 {
      EnergySoFar(required, steps, hours, capacity, k - 1);
      EnergyOfOneMore(s, hours, k);
      DivideBack(Taken(Left(required, capacity * hours, k - 1), capacity * hours, k - 1), hours);
    }
  }

  ghost predicate WithinCapacity(powers: seq<real>, capacity: real) {
    forall j :: 0 <= j < |powers| ==> 0.0 <= powers[j] <= capacity
  }

  /** The schedule is refused exactly when the requirement exceeds what the horizon can deliver by
      more than the tolerance. */
  lemma RefusedIffOverTheHorizon(required: real, steps: nat, hours: real, capacity: real)
    requires required >= 0.0 && steps >= 1 && hours > 0.0 && capacity >= 0.0
    ensures Left(required, capacity * hours, steps) > 0.000001 <==> required > steps as real * (capacity * hours) + 0.000001
  {
    WhatIsLeft(required, capacity * hours, steps);
  }

  /** An accepted schedule stays within capacity and delivers the requirement up to the tolerance. */
  lemma RequirementIsDelivered(required: real, steps: nat, hours: real, capacity: real)
    requires required >= 0.0 && hours > 0.0 && capacity >= 0.0
    requires Left(required, capacity * hours, steps) <= 0.000001
    ensures var s := ScheduleOf(required, steps, hours, capacity);
            && WithinCapacity(s, capacity)
            && required - 0.000001 <= Energy(s, hours) <= required
  {
    var s := ScheduleOf(required, steps, hours, capacity);
    EnergySoFar(required, steps, hours, capacity, steps);
    WhatIsLeft(required, capacity * hours, steps);
    assert s[..steps] == s;
    forall j | 0 <= j < steps ensures 0.0 <= s[j] <= capacity {
      WhatIsLeft(required, capacity * hours, j);
      Quotient(Taken(Left(required, capacity * hours, j), capacity * hours, j), hours, capacity);
    }
  }

  lemma Quotient(energy: real, hours: real, capacity: real)
    requires hours > 0.0 && 0.0 <= energy <= capacity * hours
    ensures 0.0 <= energy / hours <= capacity
  {
    DivideBack(energy, hours);
    Cancel(energy / hours, capacity, hours);
    Cancel(0.0, energy / hours, hours);
  }

  lemma {:induction false} EnergyIsBounded(powers: seq<real>, hours: real, capacity: real)
    requires hours > 0.0 && WithinCapacity(powers, capacity)
    ensures 0.0 <= Energy(powers, hours) <= Supply(capacity * hours, |powers|)
  {
    hide Supply;
    SupplyGrows(capacity * hours, if powers == [] then 0 else |powers| - 1);
    if powers != [] {
      var n := |powers|;
      EnergyIsBounded(powers[..n - 1], hours, capacity);
      assert 0.0 <= powers[n - 1] * hours <= capacity * hours;
    }
  }

  lemma {:induction false} PrefixDeliversLess(powers: seq<real>, hours: real, capacity: real, k: nat)
    requires hours > 0.0 && WithinCapacity(powers, capacity) && k <= |powers|
    ensures Energy(powers[..k], hours) <= Energy(powers, hours)
  {
    if k == |powers| {
      assert powers[..k] == powers;
    } else {
      var front := powers[..|powers| - 1];
      PrefixDeliversLess(front, hours, capacity, k);
      assert front[..k] == powers[..k];
      assert powers[|powers| - 1] * hours >= 0.0;
    }
  }

  /** Nothing charges earlier: at every point of time the greedy schedule has delivered, up to the
      tolerance, at least as much as any schedule within capacity with no more energy in total. */
  lemma NothingChargesEarlier(required: real, steps: nat, hours: real, capacity: real, other: seq<real>, k: nat)
    requires required >= 0.0 && hours > 0.0 && capacity >= 0.0 && k <= steps == |other|
    requires WithinCapacity(other, capacity) && Energy(other, hours) <= required
    ensures Energy(other[..k], hours) <= Energy(ScheduleOf(required, steps, hours, capacity)[..k], hours) + 0.0000001
  {
    hide Supply, ScheduleOf, Energy, Left;
    EnergySoFar(required, steps, hours, capacity, k);
    WhatIsLeft(required, capacity * hours, k);
    EnergyIsBounded(other[..k], hours, capacity);
    PrefixDeliversLess(other, hours, capacity, k);
  }
}
