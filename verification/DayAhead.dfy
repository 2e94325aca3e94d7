/** The day-ahead model's constraints as a predicate over assignments, and what they do and do not
    conserve. Steps 1..T are numbered 0..T-1; trip windows keep the model's own numbering. Plans have
    the shape they have in `FleetEnergy`; this model declares no service unserved and no shortfall,
    so those two parts of a plan are never read. */
module DayAhead {
  import opened Arithmetic
  import opened FleetEnergy
  import opened Sums

  const MINIMUM_SOC := 0.2
  const MAXIMUM_SOC := 1.0
  const END_SOC := 0.2

  datatype Day = Day(
    buses: nat, trips: nat, chargers: nat, steps: nat,
    alpha: int -> real, beta: int -> real, gama: int -> real,
    capacityKwh: int -> real, initialSoc: int -> real, siteLimit: real,
    tripStart: int -> int, tripEnd: int -> int, v2g: bool)

  predicate Active(d: Day, i: int, t: int) {
    d.tripStart(i) <= t + 1 < d.tripEnd(i)
  }

  // ---------------------------------------------------------------- the terms being summed

  function ChargeTerm(d: Day, p: Plan, k: int, t: int): int -> real {
    n => d.alpha(n) * B(p.charges(k, n, t))
  }

  function DischargeTerm(d: Day, p: Plan, k: int, t: int): int -> real {
    n => d.beta(n) * B(p.discharges(k, n, t))
  }

  /** The same terms as the balance constraint writes them, with the efficiencies inside. */
  function ChargeIn(d: Day, p: Plan, k: int, t: int): int -> real {
    n => CHARGE_EFFICIENCY * d.alpha(n) * B(p.charges(k, n, t))
  }

  function DischargeOut(d: Day, p: Plan, k: int, t: int): int -> real {
    n => DISCHARGE_FACTOR * d.beta(n) * B(p.discharges(k, n, t))
  }

  function DrawTerm(d: Day, p: Plan, k: int, t: int): int -> real {
    i => d.gama(i) * B(p.serves(k, i, t))
  }

  function ChargeTable(d: Day, p: Plan): (int, int) -> real {
    (k, t) => Sum(d.chargers, ChargeTerm(d, p, k, t))
  }

  function DischargeTable(d: Day, p: Plan): (int, int) -> real {
    (k, t) => Sum(d.chargers, DischargeTerm(d, p, k, t))
  }

  function DischargeOutTable(d: Day, p: Plan): (int, int) -> real {
    (k, t) => Sum(d.chargers, DischargeOut(d, p, k, t))
  }

  function DrawTable(d: Day, p: Plan): (int, int) -> real {
    (k, t) => Sum(d.trips, DrawTerm(d, p, k, t))
  }

  // ---------------------------------------------------------------- the constraint system

  /** Bus `k` may serve only trip `k`, and every trip is served in each step of its window. */
  ghost predicate Assignment(d: Day, p: Plan) {
    && (forall k, i, t :: 0 <= k < d.buses && 0 <= i < d.trips && 0 <= t < d.steps && i != k ==> !p.serves(k, i, t))
    && (forall i, t :: 0 <= i < d.trips && 0 <= t < d.steps && Active(d, i, t) ==> Sum(d.buses, ServesByBus(p, i, t)) == 1.0)
  }

  ghost predicate Continuity(d: Day, p: Plan) {
    forall i, k, t :: 0 <= i < d.trips && 0 <= k < d.buses && 0 <= t < d.steps - 1 && Active(d, i, t) && Active(d, i, t + 1) ==>
      p.serves(k, i, t) ==> p.serves(k, i, t + 1)
  }

  ghost predicate Charging(d: Day, p: Plan) {
    && (forall k, t :: 0 <= k < d.buses && 0 <= t < d.steps ==>
          && Sum(d.trips, ServesByTrip(p, k, t)) + B(p.atCharger(k, t)) <= 1.0
          && Sum(d.chargers, PlugByCharger(p, k, t)) <= B(p.atCharger(k, t)))
    && (forall n, t :: 0 <= n < d.chargers && 0 <= t < d.steps ==> Sum(d.buses, PlugByBus(p, n, t)) <= 1.0)
  }

  /** The balance starts at the second step; the first only fixes the initial energy. */
  ghost predicate Balance(d: Day, p: Plan) {
    && (forall k :: 0 <= k < d.buses ==> p.energy(k, 0) == d.initialSoc(k) * d.capacityKwh(k))
    && (forall k, t :: 0 <= k < d.buses && 1 <= t < d.steps ==>
          p.energy(k, t) == p.energy(k, t - 1) + Sum(d.chargers, ChargeIn(d, p, k, t))
                            - Sum(d.trips, DrawTerm(d, p, k, t)) - Sum(d.chargers, DischargeOut(d, p, k, t)))
  }

  ghost predicate Exchange(d: Day, p: Plan) {
    && (forall t :: 0 <= t < d.steps ==>
          && 0.0 <= p.bought(t) == Sum(d.buses, Column(ChargeTable(d, p), t)) <= d.siteLimit
          && 0.0 <= p.sold(t) == Sum(d.buses, Column(DischargeTable(d, p), t))
          && (!d.v2g ==> p.sold(t) == 0.0))
    && Sum(d.buses, Column(DischargeOutTable(d, p), 0)) == 0.0
    && (!d.v2g ==> forall k, n, t :: 0 <= k < d.buses && 0 <= n < d.chargers && 0 <= t < d.steps ==> !p.discharges(k, n, t))
  }

  ghost predicate Floors(d: Day, p: Plan) {
    forall k, t :: 0 <= k < d.buses && 0 <= t < d.steps ==>
      && 0.0 <= p.energy(k, t)
      && d.capacityKwh(k) * MINIMUM_SOC <= p.energy(k, t) <= MAXIMUM_SOC * d.capacityKwh(k)
  }

  /** The end-of-day constraint: the energy before the last step, and what that step charges. */
  ghost predicate EndOfDay(d: Day, p: Plan) {
    forall k :: 0 <= k < d.buses ==>
      p.energy(k, d.steps - 2) + Sum(d.chargers, ChargeIn(d, p, k, d.steps - 1)) >= END_SOC * d.capacityKwh(k)
  }

  /** With a single step the last constraint would name a variable that does not exist. */
  ghost predicate Feasible(d: Day, p: Plan) {
    d.steps >= 2 && Assignment(d, p) && Continuity(d, p) && Charging(d, p) && Balance(d, p) && Exchange(d, p)
    && Floors(d, p) && EndOfDay(d, p)
  }

  // ---------------------------------------------------------------- who serves

  lemma {:induction false} OnlyOneTerm(n: nat, f: int -> real, i: nat)
    requires forall j :: 0 <= j < n && j != i ==> f(j) == 0.0
    ensures Sum(n, f) == if i < n then f(i) else 0.0
  {
    if n > 0 {
      OnlyOneTerm(n - 1, f, i);
    }
  }

  lemma OwnBusServes(d: Day, p: Plan, i: nat, t: nat)
    requires Assignment(d, p) && i < d.trips && t < d.steps && Active(d, i, t)
    ensures i < d.buses && p.serves(i, i, t)
  {
    forall k | 0 <= k < d.buses && k != i ensures ServesByBus(p, i, t)(k) == 0.0 {
      assert !p.serves(k, i, t);
    }
    OnlyOneTerm(d.buses, ServesByBus(p, i, t), i);
  }

  /** In a feasible plan every trip is served by the bus of its own number in each step of its
      window, and that bus neither charges nor discharges then. More trips than buses leave no
      feasible plan once one of the surplus trips has an active step. */
  lemma OwnBusServesTheWholeTrip(d: Day, p: Plan, i: nat, t: nat, n: nat)
    requires Feasible(d, p) && i < d.trips && t < d.steps && d.tripStart(i) <= t + 1 < d.tripEnd(i) && n < d.chargers
    ensures i < d.buses && p.serves(i, i, t)
    ensures !p.charges(i, n, t) && !p.discharges(i, n, t)
  {
    hide Assignment, Balance, Exchange, Floors, EndOfDay, Continuity;
    OwnBusServes(d, p, i, t);
    CountsAreNonNegative(p, i, t);
    SumAtLeast(d.trips, ServesByTrip(p, i, t), i);
    SumAtLeast(d.chargers, PlugByCharger(p, i, t), n);
  }

  /** So the constraint that a bus keeps a trip it has begun is redundant. */
  lemma ContinuityIsRedundant(d: Day, p: Plan)
    requires Assignment(d, p)
    ensures forall i, k, t ::
              0 <= i < d.trips && 0 <= k < d.buses && 0 <= t < d.steps - 1 && d.tripStart(i) <= t + 1 && t + 2 < d.tripEnd(i) ==>
                p.serves(k, i, t) ==> p.serves(k, i, t + 1)
    ensures Continuity(d, p)
  {
    forall i, k, t | 0 <= i < d.trips && 0 <= k < d.buses && 0 <= t < d.steps - 1 && Active(d, i, t) && Active(d, i, t + 1) && p.serves(k, i, t)
      ensures p.serves(k, i, t + 1)
    {
      assert i == k;
      OwnBusServes(d, p, i, t + 1);
    }
  }

  // ---------------------------------------------------------------- conservation

  /** `f` scaled by `c`, without its first column. */
  function Later(c: real, f: (int, int) -> real): (int, int) -> real {
    (k, t) => if t == 0 then 0.0 else c * f(k, t)
  }

  function LaterSteps(c: real, f: int -> real): int -> real {
    t => if t == 0 then 0.0 else c * f(t)
  }

  lemma {:induction false} LaterStepsSum(n: nat, c: real, f: int -> real)
    requires n > 0
    ensures Sum(n, LaterSteps(c, f)) == c * (Sum(n, f) - f(0))
  {
    if n > 1 {
      LaterStepsSum(n - 1, c, f);
      assert c * (Sum(n, f) - f(0)) == c * (Sum(n - 1, f) - f(0)) + c * f(n - 1);
    } else {
      assert Sum(1, f) == Sum(0, f) + f(0);
    }
  }

  function Stored(d: Day, p: Plan): (int, int) -> real {
    Later(CHARGE_EFFICIENCY, ChargeTable(d, p))
  }

  function Released(d: Day, p: Plan): (int, int) -> real {
    Later(DISCHARGE_FACTOR, DischargeTable(d, p))
  }

  function Driven(d: Day, p: Plan): (int, int) -> real {
    Later(1.0, DrawTable(d, p))
  }

  function Initial(d: Day): int -> real {
    k => d.initialSoc(k) * d.capacityKwh(k)
  }

  lemma EfficiencyComesOut(d: Day, p: Plan, k: nat, t: nat, n: int)
    ensures ChargeIn(d, p, k, t)(n) == CHARGE_EFFICIENCY * ChargeTerm(d, p, k, t)(n)
    ensures DischargeOut(d, p, k, t)(n) == DISCHARGE_FACTOR * DischargeTerm(d, p, k, t)(n)
  {
    Regroup(CHARGE_EFFICIENCY, d.alpha(n), B(p.charges(k, n, t)));
    Regroup(DISCHARGE_FACTOR, d.beta(n), B(p.discharges(k, n, t)));
  }

  lemma EfficienciesComeOut(d: Day, p: Plan, k: nat, t: nat)
    ensures Sum(d.chargers, ChargeIn(d, p, k, t)) == CHARGE_EFFICIENCY * ChargeTable(d, p)(k, t)
    ensures Sum(d.chargers, DischargeOut(d, p, k, t)) == DISCHARGE_FACTOR * DischargeTable(d, p)(k, t)
  {
    hide Sum;
    forall n {
      EfficiencyComesOut(d, p, k, t, n);
    }
    SumScaled(d.chargers, CHARGE_EFFICIENCY, ChargeTerm(d, p, k, t), ChargeIn(d, p, k, t));
    SumScaled(d.chargers, DISCHARGE_FACTOR, DischargeTerm(d, p, k, t), DischargeOut(d, p, k, t));
  }

  lemma StepBalance(d: Day, p: Plan, k: nat, t: nat)
    requires Balance(d, p) && k < d.buses && 1 <= t < d.steps
    ensures p.energy(k, t) == p.energy(k, t - 1) + Stored(d, p)(k, t) - Released(d, p)(k, t) - Driven(d, p)(k, t)
  {
    hide Sum, ChargeIn, DischargeOut, ChargeTable, DischargeTable, DrawTerm;
    EfficienciesComeOut(d, p, k, t);
    assert DrawTable(d, p)(k, t) == 1.0 * DrawTable(d, p)(k, t);
  }

  lemma {:induction false} BusTelescopes(d: Day, p: Plan, k: nat, upto: nat)
    requires Balance(d, p) && k < d.buses && 1 <= upto <= d.steps
    ensures p.energy(k, upto - 1) == Initial(d)(k) + Sum(upto, Row(Stored(d, p), k))
                                     - Sum(upto, Row(Released(d, p), k)) - Sum(upto, Row(Driven(d, p), k))
  {
    if upto == 1 {
      FirstColumn(CHARGE_EFFICIENCY, ChargeTable(d, p), k);
      FirstColumn(DISCHARGE_FACTOR, DischargeTable(d, p), k);
      FirstColumn(1.0, DrawTable(d, p), k);
    } else {
      hide Balance, Stored, Released, Driven;
      StepBalance(d, p, k, upto - 1);
      BusTelescopes(d, p, k, upto - 1);
    }
  }

  lemma FirstColumn(c: real, f: (int, int) -> real, k: int)
    ensures Sum(1, Row(Later(c, f), k)) == 0.0
  {
    assert Sum(1, Row(Later(c, f), k)) == Sum(0, Row(Later(c, f), k)) + Row(Later(c, f), k)(0);
  }

  /** A table summed by bus equals its column totals summed by step, the first step left out. */
  lemma LaterTotal(d: Day, c: real, f: (int, int) -> real, total: int -> real)
    requires d.steps > 0 && forall t :: 0 <= t < d.steps ==> total(t) == Sum(d.buses, Column(f, t))
    ensures Sum(d.buses, RowSums(Later(c, f), d.steps)) == c * (Sum(d.steps, total) - total(0))
  {
    SumExchange(d.buses, d.steps, Later(c, f));
    forall t | 0 <= t < d.steps ensures ColumnSums(Later(c, f), d.buses)(t) == LaterSteps(c, total)(t) {
      if t == 0 {
        SumOfZeros(d.buses, Column(Later(c, f), 0));
      } else {
        SumScaled(d.buses, c, Column(f, t), Column(Later(c, f), t));
      }
    }
    SumSame(d.steps, ColumnSums(Later(c, f), d.buses), LaterSteps(c, total));
    LaterStepsSum(d.steps, c, total);
  }

  /** Nothing is sold in the first step: the constraint bounds the scaled sum, and the scale is positive. */
  lemma NothingSoldFirst(d: Day, p: Plan)
    requires Exchange(d, p) && d.steps > 0
    ensures p.sold(0) == 0.0
  {
    hide Sum, ChargeIn, DischargeOut, ChargeTable, DischargeTable, ChargeTerm, DischargeTerm;
    forall k | 0 <= k < d.buses
      ensures Column(DischargeOutTable(d, p), 0)(k) == DISCHARGE_FACTOR * Column(DischargeTable(d, p), 0)(k)
    {
      EfficienciesComeOut(d, p, k, 0);
    }
    SumScaled(d.buses, DISCHARGE_FACTOR, Column(DischargeTable(d, p), 0), Column(DischargeOutTable(d, p), 0));
  }

  lemma Spread(c: real, a: real, b: real)
    ensures c * (a - b) == c * a - c * b
  {
  }

  /** Energy the served trips take from the second step on. */
  function TripEnergy(d: Day, p: Plan): real {
    Sum(d.buses, RowSums(Driven(d, p), d.steps))
  }

  /** Every feasible plan conserves energy, except that what is bought in the first step is paid for
      and never reaches a battery. */
  lemma FirstPurchaseIsLost(d: Day, p: Plan)
    requires Feasible(d, p)
    ensures Sum(d.buses, Column(p.energy, d.steps - 1))
         == Sum(d.buses, Initial(d)) + 0.9 * (Sum(d.steps, p.bought) - p.bought(0))
            - 1.0 / 0.9 * Sum(d.steps, p.sold) - TripEnergy(d, p)
  {
    hide ChargeTable, DischargeTable, DrawTable, Balance, Charging, Floors, EndOfDay, Assignment, Continuity, Later, Initial, Sum;
    var stored, released, driven := RowSums(Stored(d, p), d.steps), RowSums(Released(d, p), d.steps), RowSums(Driven(d, p), d.steps);
    forall k | 0 <= k < d.buses
      ensures Column(p.energy, d.steps - 1)(k) == Initial(d)(k) + stored(k) - released(k) - driven(k)
    {
      BusTelescopes(d, p, k, d.steps);
    }
    SumBalance(d.buses, 1.0, 1.0, Column(p.energy, d.steps - 1), Initial(d), stored, released, driven);
    LaterTotal(d, CHARGE_EFFICIENCY, ChargeTable(d, p), p.bought);
    LaterTotal(d, DISCHARGE_FACTOR, DischargeTable(d, p), p.sold);
    NothingSoldFirst(d, p);
    Spread(DISCHARGE_FACTOR, Sum(d.steps, p.sold), p.sold(0));
  }

  // ---------------------------------------------------------------- the end of the day

  /** The energy floor alone implies the end-of-day constraint, since charging adds energy: the
      constraint is redundant, and dropping it changes no feasible plan. */
  lemma EndOfDayConstraintIsRedundant(d: Day, p: Plan)
    requires d.steps >= 2 && Floors(d, p) && forall n :: 0 <= n < d.chargers ==> d.alpha(n) >= 0.0
    ensures EndOfDay(d, p)
  {
    hide Sum;
    forall k | 0 <= k < d.buses
      ensures p.energy(k, d.steps - 2) + Sum(d.chargers, ChargeIn(d, p, k, d.steps - 1)) >= END_SOC * d.capacityKwh(k)
    {
      var charged := ChargeIn(d, p, k, d.steps - 1);
      forall n | 0 <= n < d.chargers ensures charged(n) >= 0.0 {
        ChargingAddsEnergy(d, p, k, n, d.steps - 1);
      }
      SumNonNegative(d.chargers, charged);
    }
  }

  /** Nor is it what makes a plan end the day with the target energy: the floor of every step, a fifth of
      the capacity, is that target. */
  lemma EveryStepMeetsTheTarget(d: Day, p: Plan, k: nat, t: nat)
    requires Feasible(d, p) && k < d.buses && t < d.steps
    ensures 0.2 * d.capacityKwh(k) <= p.energy(k, t) <= d.capacityKwh(k)
    ensures p.energy(k, d.steps - 2) + Sum(d.chargers, ChargeIn(d, p, k, d.steps - 1)) >= 0.2 * d.capacityKwh(k)
  {
    hide Assignment, Continuity, Charging, Balance, Exchange, Sum, ChargeIn;
  }

  lemma ChargingAddsEnergy(d: Day, p: Plan, k: nat, n: nat, t: nat)
    requires d.alpha(n) >= 0.0
    ensures ChargeIn(d, p, k, t)(n) >= 0.0
  {
    var b := B(p.charges(k, n, t));
    assert b == 0.0 || b == 1.0;
    assert ChargeIn(d, p, k, t)(n) == CHARGE_EFFICIENCY * d.alpha(n) * b;
    if b == 0.0 {
      assert CHARGE_EFFICIENCY * d.alpha(n) * 0.0 == 0.0;
    }
  }
}
