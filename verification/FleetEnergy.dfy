/** The remaining-horizon model's physical constraints, as a predicate over assignments, and what
    every feasible assignment conserves. Steps 1..T of the model are numbered 0..T-1 here, and
    buses, trips and chargers by position. */
module FleetEnergy {
  import opened Sums

  const CHARGE_EFFICIENCY := 0.9
  const DISCHARGE_FACTOR := 1.0 / 0.9
  const RESERVE_FRACTION := 0.2

  datatype Site = Site(
    buses: nat, trips: nat, chargers: nat, steps: nat,
    capacityKwh: int -> real,
    initialKwh: int -> real,
    available: int -> bool,
    chargerKwh: (int, int) -> real,
    tripKwh: int -> real,
    active: (int, int) -> bool,
    v2g: bool)

  datatype Plan = Plan(
    serves: (int, int, int) -> bool,
    charges: (int, int, int) -> bool,
    discharges: (int, int, int) -> bool,
    atCharger: (int, int) -> bool,
    energy: (int, int) -> real,
    bought: int -> real,
    sold: int -> real,
    unserved: (int, int) -> bool,
    shortfall: (int, int) -> real)

  // ---------------------------------------------------------------- the terms being summed

  function ServesByBus(p: Plan, i: int, t: int): int -> real {
    k => B(p.serves(k, i, t))
  }

  function ServesByTrip(p: Plan, k: int, t: int): int -> real {
    i => B(p.serves(k, i, t))
  }

  function PlugByCharger(p: Plan, k: int, t: int): int -> real {
    n => B(p.charges(k, n, t)) + B(p.discharges(k, n, t))
  }

  function PlugByBus(p: Plan, n: int, t: int): int -> real {
    k => B(p.charges(k, n, t)) + B(p.discharges(k, n, t))
  }

  function ChargeTerm(d: Site, p: Plan, k: int, t: int): int -> real {
    n => d.chargerKwh(n, t) * B(p.charges(k, n, t))
  }

  function DischargeTerm(d: Site, p: Plan, k: int, t: int): int -> real {
    n => d.chargerKwh(n, t) * B(p.discharges(k, n, t))
  }

  /** The same terms as the balance constraint writes them, with the efficiencies inside. */
  function ChargeIn(d: Site, p: Plan, k: int, t: int): int -> real {
    n => d.chargerKwh(n, t) * CHARGE_EFFICIENCY * B(p.charges(k, n, t))
  }

  function DischargeOut(d: Site, p: Plan, k: int, t: int): int -> real {
    n => d.chargerKwh(n, t) * DISCHARGE_FACTOR * B(p.discharges(k, n, t))
  }

  function DrawTerm(d: Site, p: Plan, k: int, t: int): int -> real {
    i => d.tripKwh(i) * B(p.serves(k, i, t))
  }

  function ChargerRatings(d: Site, t: int): int -> real {
    n => d.chargerKwh(n, t)
  }

  /** Energy charged, discharged and driven, as tables over bus and step. */
  function ChargeTable(d: Site, p: Plan): (int, int) -> real {
    (k, t) => Sum(d.chargers, ChargeTerm(d, p, k, t))
  }

  function DischargeTable(d: Site, p: Plan): (int, int) -> real {
    (k, t) => Sum(d.chargers, DischargeTerm(d, p, k, t))
  }

  function DrawTable(d: Site, p: Plan): (int, int) -> real {
    (k, t) => Sum(d.trips, DrawTerm(d, p, k, t))
  }

  // ---------------------------------------------------------------- the constraint system

  ghost predicate Coverage(d: Site, p: Plan) {
    forall i, t :: 0 <= i < d.trips && 0 <= t < d.steps ==>
      if d.active(i, t) then Sum(d.buses, ServesByBus(p, i, t)) + B(p.unserved(i, t)) == 1.0
      else Sum(d.buses, ServesByBus(p, i, t)) == 0.0 && !p.unserved(i, t)
  }

  ghost predicate UnavailableIdle(d: Site, p: Plan) {
    && (forall k, i, t :: 0 <= k < d.buses && !d.available(k) && 0 <= i < d.trips && 0 <= t < d.steps ==> !p.serves(k, i, t))
    && (forall k, n, t :: 0 <= k < d.buses && !d.available(k) && 0 <= n < d.chargers && 0 <= t < d.steps ==>
          !p.charges(k, n, t) && !p.discharges(k, n, t))
  }

  ghost predicate OneActivity(d: Site, p: Plan) {
    forall k, t :: 0 <= k < d.buses && 0 <= t < d.steps && d.available(k) ==>
      && Sum(d.trips, ServesByTrip(p, k, t)) + B(p.atCharger(k, t)) <= 1.0
      && Sum(d.chargers, PlugByCharger(p, k, t)) == B(p.atCharger(k, t))
  }

  ghost predicate OneBusPerCharger(d: Site, p: Plan) {
    forall n, t :: 0 <= n < d.chargers && 0 <= t < d.steps ==> Sum(d.buses, PlugByBus(p, n, t)) <= 1.0
  }

  ghost predicate SiteExchange(d: Site, p: Plan) {
    forall t :: 0 <= t < d.steps ==>
      && 0.0 <= p.bought(t) == Sum(d.buses, Column(ChargeTable(d, p), t)) <= Sum(d.chargers, ChargerRatings(d, t))
      && 0.0 <= p.sold(t) == Sum(d.buses, Column(DischargeTable(d, p), t)) <= Sum(d.chargers, ChargerRatings(d, t))
      && (!d.v2g ==> p.sold(t) == 0.0)
  }

  function EnergyBefore(d: Site, p: Plan, k: int, t: int): real {
    if t == 0 then d.initialKwh(k) else p.energy(k, t - 1)
  }

  ghost predicate Balance(d: Site, p: Plan) {
    forall k, t :: 0 <= k < d.buses && 0 <= t < d.steps ==>
      p.energy(k, t) == EnergyBefore(d, p, k, t) + Sum(d.chargers, ChargeIn(d, p, k, t))
                        - Sum(d.chargers, DischargeOut(d, p, k, t)) - Sum(d.trips, DrawTerm(d, p, k, t))
  }

  ghost predicate Limits(d: Site, p: Plan) {
    && (forall k, t :: 0 <= k < d.buses && 0 <= t < d.steps ==>
          && 0.0 <= p.energy(k, t) <= d.capacityKwh(k)
          && p.shortfall(k, t) >= 0.0
          && p.energy(k, t) + p.shortfall(k, t) >= RESERVE_FRACTION * d.capacityKwh(k))
    && (forall k :: 0 <= k < d.buses ==> p.energy(k, d.steps - 1) >= RESERVE_FRACTION * d.capacityKwh(k))
  }

  ghost predicate Feasible(d: Site, p: Plan) {
    && d.steps >= 1
    && Coverage(d, p) && UnavailableIdle(d, p) && OneActivity(d, p) && OneBusPerCharger(d, p)
    && SiteExchange(d, p) && Balance(d, p) && Limits(d, p)
  }

  // ---------------------------------------------------------------- conservation

  function TotalBought(d: Site, p: Plan): real {
    Sum(d.steps, p.bought)
  }

  function TotalSold(d: Site, p: Plan): real {
    Sum(d.steps, p.sold)
  }

  /** Energy the served trips take, over all buses and steps. */
  function TripEnergyServed(d: Site, p: Plan): real {
    Sum(d.buses, RowSums(DrawTable(d, p), d.steps))
  }

  function InitialEnergy(d: Site): real {
    Sum(d.buses, d.initialKwh)
  }

  function FinalEnergy(d: Site, p: Plan): real {
    Sum(d.buses, Column(p.energy, d.steps - 1))
  }

  /** The efficiencies come out of the per-charger sums. */
  lemma StepBalance(d: Site, p: Plan, k: nat, t: nat)
    requires Balance(d, p) && k < d.buses && t < d.steps
    ensures p.energy(k, t) == EnergyBefore(d, p, k, t) + 0.9 * ChargeTable(d, p)(k, t)
                              - DischargeTable(d, p)(k, t) / 0.9 - DrawTable(d, p)(k, t)
  {
    SumScaled(d.chargers, 0.9, ChargeTerm(d, p, k, t), ChargeIn(d, p, k, t));
    SumScaled(d.chargers, 1.0 / 0.9, DischargeTerm(d, p, k, t), DischargeOut(d, p, k, t));
  }

  /** One bus, from the start to the end of the first `upto` steps. */
  lemma {:induction false} BusTelescopes(d: Site, p: Plan, k: nat, upto: nat)
    requires Balance(d, p) && k < d.buses && 1 <= upto <= d.steps
    ensures p.energy(k, upto - 1) == d.initialKwh(k) + 0.9 * Sum(upto, Row(ChargeTable(d, p), k))
                                     - Sum(upto, Row(DischargeTable(d, p), k)) / 0.9 - Sum(upto, Row(DrawTable(d, p), k))
  {
    hide Balance, ChargeTable, DischargeTable, DrawTable;
    StepBalance(d, p, k, upto - 1);
    if upto > 1 {
      BusTelescopes(d, p, k, upto - 1);
    }
  }

  /** Every feasible plan conserves fleet energy. */
  lemma FleetConservation(d: Site, p: Plan)
    requires Feasible(d, p)
    ensures FinalEnergy(d, p) == InitialEnergy(d) + 0.9 * TotalBought(d, p) - TotalSold(d, p) / 0.9 - TripEnergyServed(d, p)
  {
    hide ChargeTable, DischargeTable, DrawTable, Balance, Coverage, OneActivity, Limits, UnavailableIdle, OneBusPerCharger;
    var charged, discharged, drawn := RowSums(ChargeTable(d, p), d.steps), RowSums(DischargeTable(d, p), d.steps), RowSums(DrawTable(d, p), d.steps);
    forall k | 0 <= k < d.buses
      ensures Column(p.energy, d.steps - 1)(k) == d.initialKwh(k) + 0.9 * charged(k) - discharged(k) / 0.9 - drawn(k)
    {
      BusTelescopes(d, p, k, d.steps);
    }
    SumBalance(d.buses, 0.9, 1.0 / 0.9, Column(p.energy, d.steps - 1), d.initialKwh, charged, discharged, drawn);
    SumExchange(d.buses, d.steps, ChargeTable(d, p));
    SumSame(d.steps, ColumnSums(ChargeTable(d, p), d.buses), p.bought);
    SumExchange(d.buses, d.steps, DischargeTable(d, p));
    SumSame(d.steps, ColumnSums(DischargeTable(d, p), d.buses), p.sold);
    assert Sum(d.buses, charged) == TotalBought(d, p) && Sum(d.buses, discharged) == TotalSold(d, p);
    assert 1.0 / 0.9 * TotalSold(d, p) == TotalSold(d, p) / 0.9;
  }

  function Reserves(d: Site): int -> real {
    k => RESERVE_FRACTION * d.capacityKwh(k)
  }

  /** What the fleet can export at most, given what it starts with, buys and drives. */
  lemma ExportIsBounded(d: Site, p: Plan)
    requires Feasible(d, p)
    ensures TotalSold(d, p) <= 0.9 * (InitialEnergy(d) + 0.9 * TotalBought(d, p) - TripEnergyServed(d, p)
                                      - 0.2 * Sum(d.buses, d.capacityKwh))
  {
    hide TotalBought, TotalSold, TripEnergyServed, InitialEnergy, Coverage, OneActivity, UnavailableIdle, OneBusPerCharger, SiteExchange, Balance;
    FleetConservation(d, p);
    SumScaled(d.buses, RESERVE_FRACTION, d.capacityKwh, Reserves(d));
    SumMonotone(d.buses, Reserves(d), Column(p.energy, d.steps - 1));
  }

  // ---------------------------------------------------------------- exclusivity

  lemma CountsAreNonNegative(p: Plan, a: int, t: int)
    ensures forall j :: ServesByBus(p, a, t)(j) >= 0.0 && ServesByTrip(p, a, t)(j) >= 0.0
    ensures forall j :: PlugByCharger(p, a, t)(j) >= 0.0 && PlugByBus(p, a, t)(j) >= 0.0
  {
    forall j ensures ServesByBus(p, a, t)(j) >= 0.0 && ServesByTrip(p, a, t)(j) >= 0.0
                     && PlugByCharger(p, a, t)(j) >= 0.0 && PlugByBus(p, a, t)(j) >= 0.0 {
      assert ServesByBus(p, a, t)(j) == B(p.serves(j, a, t)) && ServesByTrip(p, a, t)(j) == B(p.serves(a, j, t));
      assert PlugByCharger(p, a, t)(j) == B(p.charges(a, j, t)) + B(p.discharges(a, j, t));
      assert PlugByBus(p, a, t)(j) == B(p.charges(j, a, t)) + B(p.discharges(j, a, t));
    }
  }

  /** In one step a bus serves a trip or uses a charger, never both, and never charges and
      discharges at once. */
  lemma OneThingAtATime(d: Site, p: Plan, k: nat, t: nat, i: nat, n: nat)
    requires Feasible(d, p) && k < d.buses && t < d.steps && i < d.trips && n < d.chargers
    ensures p.serves(k, i, t) ==> !p.charges(k, n, t) && !p.discharges(k, n, t)
    ensures !(p.charges(k, n, t) && p.discharges(k, n, t))
  {
    hide Coverage, OneBusPerCharger, SiteExchange, Balance, Limits, Sum;
    CountsAreNonNegative(p, k, t);
    if d.available(k) {
      SumAtLeast(d.trips, ServesByTrip(p, k, t), i);
      SumAtLeast(d.chargers, PlugByCharger(p, k, t), n);
    }
  }

  /** Nor does it serve two trips or use two chargers. */
  lemma OneTripOnePlug(d: Site, p: Plan, k: nat, t: nat, i: nat, j: nat, n: nat, m: nat)
    requires Feasible(d, p) && k < d.buses && t < d.steps
    requires i < j < d.trips && n < m < d.chargers
    ensures !(p.serves(k, i, t) && p.serves(k, j, t))
    ensures !((p.charges(k, n, t) || p.discharges(k, n, t)) && (p.charges(k, m, t) || p.discharges(k, m, t)))
  {
    hide Coverage, OneBusPerCharger, SiteExchange, Balance, Limits, Sum;
    CountsAreNonNegative(p, k, t);
    if d.available(k) {
      SumAtLeastTwo(d.trips, ServesByTrip(p, k, t), i, j);
      SumAtLeastTwo(d.chargers, PlugByCharger(p, k, t), n, m);
    }
  }

  /** A charger takes one bus, and a trip is covered by one bus. */
  lemma OneBusEach(d: Site, p: Plan, t: nat, k: nat, l: nat, n: nat, i: nat)
    requires Feasible(d, p) && t < d.steps && k < l < d.buses && n < d.chargers && i < d.trips
    ensures !((p.charges(k, n, t) || p.discharges(k, n, t)) && (p.charges(l, n, t) || p.discharges(l, n, t)))
    ensures !(p.serves(k, i, t) && p.serves(l, i, t))
  {
    hide OneActivity, UnavailableIdle, SiteExchange, Balance, Limits, Sum;
    CountsAreNonNegative(p, n, t);
    CountsAreNonNegative(p, i, t);
    SumAtLeastTwo(d.buses, PlugByBus(p, n, t), k, l);
    SumAtLeastTwo(d.buses, ServesByBus(p, i, t), k, l);
  }

  /** An unavailable bus does nothing, so it keeps the energy it starts with. */
  lemma UnavailableBusKeepsItsEnergy(d: Site, p: Plan, k: nat, t: nat)
    requires Feasible(d, p) && k < d.buses && t < d.steps && !d.available(k)
    ensures forall i :: 0 <= i < d.trips ==> !p.serves(k, i, t)
    ensures forall n :: 0 <= n < d.chargers ==> !p.charges(k, n, t) && !p.discharges(k, n, t)
    ensures p.energy(k, t) == d.initialKwh(k)
  {
    hide Coverage, OneActivity, OneBusPerCharger, SiteExchange, Limits, Balance;
    IdleSoFar(d, p, k, t);
  }

  lemma {:induction false} IdleSoFar(d: Site, p: Plan, k: nat, t: nat)
    requires Balance(d, p) && UnavailableIdle(d, p) && k < d.buses && t < d.steps && !d.available(k)
    ensures p.energy(k, t) == d.initialKwh(k)
  {
    hide UnavailableIdle, Balance;
    IdleStep(d, p, k, t);
    if t > 0 {
      IdleSoFar(d, p, k, t - 1);
    }
  }

  lemma IdleStep(d: Site, p: Plan, k: nat, t: nat)
    requires Balance(d, p) && UnavailableIdle(d, p) && k < d.buses && t < d.steps && !d.available(k)
    ensures p.energy(k, t) == EnergyBefore(d, p, k, t)
  {
    hide Sum, EnergyBefore;
    forall n | 0 <= n < d.chargers ensures ChargeIn(d, p, k, t)(n) == 0.0 && DischargeOut(d, p, k, t)(n) == 0.0 {
      assert !p.charges(k, n, t) && !p.discharges(k, n, t);
      TimesNothing(d.chargerKwh(n, t));
    }
    forall i | 0 <= i < d.trips ensures DrawTerm(d, p, k, t)(i) == 0.0 {
      assert !p.serves(k, i, t);
      TimesNothing(d.tripKwh(i));
    }
    SumOfZeros(d.chargers, ChargeIn(d, p, k, t));
    SumOfZeros(d.chargers, DischargeOut(d, p, k, t));
    SumOfZeros(d.trips, DrawTerm(d, p, k, t));
  }

  lemma TimesNothing(x: real)
    ensures x * CHARGE_EFFICIENCY * B(false) == 0.0 && x * DISCHARGE_FACTOR * B(false) == 0.0 && x * B(false) == 0.0
  {
  }

  /** Without export nothing is sold, and what the fleet ends with is what it started with and charged,
      less what it drove. */
  lemma WithoutExport(d: Site, p: Plan, t: nat)
    requires Feasible(d, p) && !d.v2g && t < d.steps
    ensures p.sold(t) == 0.0
    ensures FinalEnergy(d, p) == InitialEnergy(d) + 0.9 * TotalBought(d, p) - TripEnergyServed(d, p)
  {
    hide FinalEnergy, InitialEnergy, TotalBought, TripEnergyServed, Coverage, OneActivity, OneBusPerCharger, Balance, Limits, UnavailableIdle;
    FleetConservation(d, p);
    SumOfZeros(d.steps, p.sold);
  }

  // ---------------------------------------------------------------- these constraints never conflict

  /** Nobody moves, and every active step of every trip is declared unserved. */
  function Idle(d: Site): Plan {
    Plan((k, i, t) => false, (k, n, t) => false, (k, n, t) => false, (k, t) => false,
         (k, t) => d.initialKwh(k), t => 0.0, t => 0.0, (i, t) => d.active(i, t), (k, t) => 0.0)
  }

  /** When every bus starts between its reserve and its capacity this plan meets all of these constraints,
      with or without export, whatever trips there are and whichever buses are away. */
  lemma IdleIsFeasible(d: Site)
    requires d.steps >= 1
    requires forall k :: 0 <= k < d.buses ==> 0.0 <= 0.2 * d.capacityKwh(k) <= d.initialKwh(k) <= d.capacityKwh(k)
    requires forall n, t :: 0 <= n < d.chargers && 0 <= t < d.steps ==> d.chargerKwh(n, t) >= 0.0
    ensures Feasible(d, Idle(d))
  {
    hide Coverage, UnavailableIdle, OneActivity, OneBusPerCharger, SiteExchange, Balance, Limits;
    IdleCovers(d);
    IdleExchangesNothing(d);
    IdleKeepsEnergy(d);
  }

  lemma IdleCovers(d: Site)
    ensures Coverage(d, Idle(d)) && UnavailableIdle(d, Idle(d)) && OneActivity(d, Idle(d)) && OneBusPerCharger(d, Idle(d))
  {
    hide Sum, ServesByBus, ServesByTrip, PlugByBus, PlugByCharger;
    var p := Idle(d);
    forall i, t ensures Sum(d.buses, ServesByBus(p, i, t)) == 0.0 && Sum(d.buses, PlugByBus(p, i, t)) == 0.0 {
      IdleCounts(d, i, t);
      SumOfZeros(d.buses, ServesByBus(p, i, t));
      SumOfZeros(d.buses, PlugByBus(p, i, t));
    }
    forall k, t ensures Sum(d.trips, ServesByTrip(p, k, t)) == 0.0 && Sum(d.chargers, PlugByCharger(p, k, t)) == 0.0 {
      IdleCounts(d, k, t);
      SumOfZeros(d.trips, ServesByTrip(p, k, t));
      SumOfZeros(d.chargers, PlugByCharger(p, k, t));
    }
  }

  lemma IdleCounts(d: Site, a: int, t: int)
    ensures forall j :: ServesByBus(Idle(d), a, t)(j) == 0.0 && ServesByTrip(Idle(d), a, t)(j) == 0.0
    ensures forall j :: PlugByBus(Idle(d), a, t)(j) == 0.0 && PlugByCharger(Idle(d), a, t)(j) == 0.0
  {
    var p := Idle(d);
    forall j ensures ServesByBus(p, a, t)(j) == 0.0 && ServesByTrip(p, a, t)(j) == 0.0
                     && PlugByBus(p, a, t)(j) == 0.0 && PlugByCharger(p, a, t)(j) == 0.0 {
      assert ServesByBus(p, a, t)(j) == B(false) && ServesByTrip(p, a, t)(j) == B(false);
      assert PlugByBus(p, a, t)(j) == B(false) + B(false) && PlugByCharger(p, a, t)(j) == B(false) + B(false);
    }
  }

  lemma IdleExchangesNothing(d: Site)
    requires forall n, t :: 0 <= n < d.chargers && 0 <= t < d.steps ==> d.chargerKwh(n, t) >= 0.0
    ensures SiteExchange(d, Idle(d))
  {
    hide Sum, ChargeTerm, DischargeTerm;
    var p := Idle(d);
    forall t | 0 <= t < d.steps
      ensures Sum(d.buses, Column(ChargeTable(d, p), t)) == 0.0 && Sum(d.buses, Column(DischargeTable(d, p), t)) == 0.0
      ensures Sum(d.chargers, ChargerRatings(d, t)) >= 0.0
    {
      forall k ensures Column(ChargeTable(d, p), t)(k) == 0.0 && Column(DischargeTable(d, p), t)(k) == 0.0 {
        IdleTerms(d, k, t);
      }
      SumOfZeros(d.buses, Column(ChargeTable(d, p), t));
      SumOfZeros(d.buses, Column(DischargeTable(d, p), t));
      SumNonNegative(d.chargers, ChargerRatings(d, t));
    }
  }

  lemma IdleTerms(d: Site, k: int, t: int)
    ensures var p := Idle(d);
            && Sum(d.chargers, ChargeTerm(d, p, k, t)) == 0.0 && Sum(d.chargers, DischargeTerm(d, p, k, t)) == 0.0
            && Sum(d.chargers, ChargeIn(d, p, k, t)) == 0.0 && Sum(d.chargers, DischargeOut(d, p, k, t)) == 0.0
            && Sum(d.trips, DrawTerm(d, p, k, t)) == 0.0
  {
    hide Sum;
    var p := Idle(d);
    forall n ensures ChargeTerm(d, p, k, t)(n) == 0.0 && DischargeTerm(d, p, k, t)(n) == 0.0
                     && ChargeIn(d, p, k, t)(n) == 0.0 && DischargeOut(d, p, k, t)(n) == 0.0 {
      TimesNothing(d.chargerKwh(n, t));
    }
    forall i ensures DrawTerm(d, p, k, t)(i) == 0.0 {
      TimesNothing(d.tripKwh(i));
    }
    SumOfZeros(d.chargers, ChargeTerm(d, p, k, t));
    SumOfZeros(d.chargers, DischargeTerm(d, p, k, t));
    SumOfZeros(d.chargers, ChargeIn(d, p, k, t));
    SumOfZeros(d.chargers, DischargeOut(d, p, k, t));
    SumOfZeros(d.trips, DrawTerm(d, p, k, t));
  }

  lemma IdleKeepsEnergy(d: Site)
    requires d.steps >= 1
    requires forall k :: 0 <= k < d.buses ==> 0.0 <= 0.2 * d.capacityKwh(k) <= d.initialKwh(k) <= d.capacityKwh(k)
    ensures Balance(d, Idle(d)) && Limits(d, Idle(d))
  {
    hide Sum, ChargeIn, DischargeOut, DrawTerm;
    forall k, t | 0 <= k < d.buses && 0 <= t < d.steps
      ensures Idle(d).energy(k, t) == EnergyBefore(d, Idle(d), k, t) + Sum(d.chargers, ChargeIn(d, Idle(d), k, t))
                                      - Sum(d.chargers, DischargeOut(d, Idle(d), k, t)) - Sum(d.trips, DrawTerm(d, Idle(d), k, t))
    {
      IdleTerms(d, k, t);
    }
  }
}
