/** The price of the lock tolerance on a depot: the first lock leaves room for a shortfall of the
    reserve, and the second stage uses it. */
module ReserveLockout {
  import Arithmetic
  import opened Prelude
  import opened Sums
  import opened FleetEnergy
  import opened Lexicographic

  const SERVICE_PENALTY := 100000.0
  const INTERRUPTION_PENALTY := 5000.0
  const SHORTFALL_PENALTY := 8000.0
  const SWITCH_PENALTY := 25.0

  /** A plan with the slack of its one operational requirement and its number of bus switches. */
  datatype Assignment = Assignment(plan: Plan, slack: real, switches: nat)

  function UnservedTable(d: Site, p: Plan): (int, int) -> real {
    (i, t) => B(d.active(i, t)) * B(p.unserved(i, t))
  }

  function WeightedUnservedTable(d: Site, p: Plan): (int, int) -> real {
    (i, t) => (d.steps - t) as real * (B(d.active(i, t)) * B(p.unserved(i, t)))
  }

  /** The service score of a depot where no trip is under way at the start. */
  function ServiceScore(d: Site, p: Plan): real {
    SERVICE_PENALTY * Sum(d.trips, RowSums(WeightedUnservedTable(d, p), d.steps))
    + INTERRUPTION_PENALTY * Sum(d.trips, RowSums(UnservedTable(d, p), d.steps))
    + SHORTFALL_PENALTY * Sum(d.buses, RowSums(p.shortfall, d.steps))
  }

  function Cost(price: real, f: int -> real): int -> real {
    t => price * f(t)
  }

  /** The economic score at one price for buying and nothing paid for selling. */
  function EconomicScore(d: Site, price: real, x: Assignment): real {
    SWITCH_PENALTY * x.switches as real + Sum(d.steps, Cost(price, x.plan.bought)) - Sum(d.steps, Cost(0.0, x.plan.sold))
  }

  function ScoresOf(d: Site, price: real): Scores<Assignment> {
    Scores((x: Assignment) => ServiceScore(d, x.plan),
           (x: Assignment) => x.slack,
           (x: Assignment) => EconomicScore(d, price, x),
           (x: Assignment) => ServiceScore(d, x.plan) + EconomicScore(d, price, x))
  }

  /** The scores on two steps, one trip and one bus, in figures: an uncovered step costs 5000 and 100 000 more
      for every step from it to the end, a kWh short of the reserve 8000, a switch 25. */
  lemma ScoresInFigures(d: Site, price: real, x: Assignment)
    requires d.steps == 2 && d.trips == 1 && d.buses == 1 && d.active(0, 0) && d.active(0, 1)
    ensures var scores, p := ScoresOf(d, price), x.plan;
            && scores.service(x) == (if p.unserved(0, 0) then 205000.0 else 0.0) + (if p.unserved(0, 1) then 105000.0 else 0.0)
                                    + 8000.0 * (p.shortfall(0, 0) + p.shortfall(0, 1))
            && scores.operational(x) == x.slack
            && scores.economic(x) == 25.0 * x.switches as real + price * p.bought(0) + price * p.bought(1)
            && scores.weighted(x) == scores.service(x) + scores.economic(x)
  {
    var p := x.plan;
    OneRow(d, WeightedUnservedTable(d, p));
    OneRow(d, UnservedTable(d, p));
    OneRow(d, p.shortfall);
    TwoTerms(Cost(price, p.bought));
    TwoTerms(Cost(0.0, p.sold));
  }

  lemma OneRow(d: Site, f: (int, int) -> real)
    requires d.steps == 2
    ensures Sum(1, RowSums(f, d.steps)) == f(0, 0) + f(0, 1)
  {
    TwoTerms(Row(f, 0));
    assert Sum(1, RowSums(f, 2)) == Sum(0, RowSums(f, 2)) + RowSums(f, 2)(0);
  }

  /** The plan is feasible, and its slack covers what the first step's export misses of the target. */
  ghost predicate Allowed(d: Site, target: real, x: Assignment) {
    Feasible(d, x.plan) && x.slack >= 0.0 && x.plan.sold(0) + x.slack >= target && x.switches <= d.buses * d.trips * d.steps
  }

  ghost function AllowedIn(d: Site, target: real): Assignment -> bool {
    (x: Assignment) => Allowed(d, target, x)
  }

  // ---------------------------------------------------------------- the depot

  /** What the charger moves in the first step. */
  function Export(a: real): real {
    1.8 * a + 0.9
  }

  function ChargerAt(a: real): (int, int) -> real {
    (n, t) => if t == 0 then Export(a) else 1.0 + a
  }

  function Always(value: real): int -> real {
    k => value
  }

  function Reserve(a: real): real {
    20.0 * (1.0 + a)
  }

  function Initial(a: real): real {
    Reserve(a) + (2.0 * a + 1.0) - a / SHORTFALL_PENALTY
  }

  /** One bus, one charger, two steps, and a trip without an active step in them. Exporting in the first
      step leaves the bus short of the reserve by `a` over the shortfall penalty. */
  function Depot(a: real): Site {
    Site(1, 1, 1, 2, Always(100.0 * (1.0 + a)), Always(Initial(a)), k => true, ChargerAt(a), Always(1.0), (i, t) => false, true)
  }

  lemma OneTerm(f: int -> real)
    ensures Sum(1, f) == f(0)
  {
    assert Sum(0, f) == 0.0;
  }

  lemma TwoTerms(f: int -> real)
    ensures Sum(2, f) == f(0) + f(1)
  {
    OneTerm(f);
  }

  /** What the bus does in a step. */
  datatype Move = Stay | Charge | Discharge

  function MoveAt(first: Move, second: Move, t: int): Move {
    if t == 0 then first else second
  }

  function Gain(a: real, m: Move, t: int): real {
    OnlyIf(m == Charge, ChargerAt(a)(0, t) * CHARGE_EFFICIENCY) - OnlyIf(m == Discharge, ChargerAt(a)(0, t) * DISCHARGE_FACTOR)
  }

  /** The energy after each of the two steps. */
  function Level(a: real, first: Move, second: Move, t: int): real {
    Initial(a) + Gain(a, first, 0) + if t == 0 then 0.0 else Gain(a, second, 1)
  }

  /** The plan with these moves and no more shortfall than they need. */
  function Moves(a: real, first: Move, second: Move): Plan {
    Plan((k, i, t) => false, (k, n, t) => MoveAt(first, second, t) == Charge, (k, n, t) => MoveAt(first, second, t) == Discharge,
         (k, t) => MoveAt(first, second, t) != Stay,
         (k, t) => Level(a, first, second, t),
         t => OnlyIf(MoveAt(first, second, t) == Charge, ChargerAt(a)(0, t)),
         t => OnlyIf(MoveAt(first, second, t) == Discharge, ChargerAt(a)(0, t)),
         (i, t) => false,
         (k, t) => Max(0.0, Reserve(a) - Level(a, first, second, t)))
  }

  function Idle(a: real): Plan {
    Moves(a, Stay, Stay)
  }

  /** Export first and charge back. */
  function ExportFirst(a: real): Plan {
    Moves(a, Discharge, Charge)
  }

  /** With one bus, one trip and one charger every count of the model is one term, */
  lemma SingleCounts(p: Plan, t: nat)
    ensures Sum(1, ServesByBus(p, 0, t)) == B(p.serves(0, 0, t)) && Sum(1, ServesByTrip(p, 0, t)) == B(p.serves(0, 0, t))
    ensures Sum(1, PlugByCharger(p, 0, t)) == B(p.charges(0, 0, t)) + B(p.discharges(0, 0, t)) == Sum(1, PlugByBus(p, 0, t))
  {
    hide Sum, B;
    OneTerm(ServesByBus(p, 0, t));
    OneTerm(ServesByTrip(p, 0, t));
    OneTerm(PlugByCharger(p, 0, t));
    OneTerm(PlugByBus(p, 0, t));
  }

  function OnlyIf(b: bool, x: real): real {
    if b then x else 0.0
  }

  lemma Switched(b: bool, x: real)
    ensures x * B(b) == OnlyIf(b, x)
  {
  }

  /** and so is every energy. */
  lemma SingleEnergies(d: Site, p: Plan, t: nat)
    requires d.buses == d.trips == d.chargers == 1
    ensures Sum(1, Column(ChargeTable(d, p), t)) == OnlyIf(p.charges(0, 0, t), d.chargerKwh(0, t))
    ensures Sum(1, Column(DischargeTable(d, p), t)) == OnlyIf(p.discharges(0, 0, t), d.chargerKwh(0, t))
    ensures Sum(1, ChargerRatings(d, t)) == d.chargerKwh(0, t)
    ensures Sum(1, ChargeIn(d, p, 0, t)) == OnlyIf(p.charges(0, 0, t), d.chargerKwh(0, t) * CHARGE_EFFICIENCY)
    ensures Sum(1, DischargeOut(d, p, 0, t)) == OnlyIf(p.discharges(0, 0, t), d.chargerKwh(0, t) * DISCHARGE_FACTOR)
    ensures Sum(1, DrawTerm(d, p, 0, t)) == OnlyIf(p.serves(0, 0, t), d.tripKwh(0))
  {
    hide Sum, B, OnlyIf;
    SingleTable(d.chargerKwh(0, t), ChargeTerm(d, p, 0, t), p.charges(0, 0, t));
    OneTerm(Column(ChargeTable(d, p), t));
    SingleTable(d.chargerKwh(0, t), DischargeTerm(d, p, 0, t), p.discharges(0, 0, t));
    OneTerm(Column(DischargeTable(d, p), t));
    OneTerm(ChargerRatings(d, t));
    SingleTable(d.chargerKwh(0, t) * CHARGE_EFFICIENCY, ChargeIn(d, p, 0, t), p.charges(0, 0, t));
    SingleTable(d.chargerKwh(0, t) * DISCHARGE_FACTOR, DischargeOut(d, p, 0, t), p.discharges(0, 0, t));
    SingleTable(d.tripKwh(0), DrawTerm(d, p, 0, t), p.serves(0, 0, t));
  }

  lemma SingleTable(x: real, f: int -> real, b: bool)
    requires f(0) == x * B(b)
    ensures Sum(1, f) == OnlyIf(b, x)
  {
    OneTerm(f);
    Switched(b, x);
  }

  lemma MovesAreActivities(a: real, first: Move, second: Move)
    ensures var d, p := Depot(a), Moves(a, first, second); Coverage(d, p) && UnavailableIdle(d, p) && OneActivity(d, p) && OneBusPerCharger(d, p)
  {
    hide Sum;
    SingleCounts(Moves(a, first, second), 0);
    SingleCounts(Moves(a, first, second), 1);
  }

  lemma MovesExchange(a: real, first: Move, second: Move)
    requires a > 0.0
    ensures SiteExchange(Depot(a), Moves(a, first, second))
  {
    hide Sum, ChargeTable, DischargeTable;
    SingleEnergies(Depot(a), Moves(a, first, second), 0);
    SingleEnergies(Depot(a), Moves(a, first, second), 1);
  }

  lemma MovesBalance(a: real, first: Move, second: Move)
    ensures Balance(Depot(a), Moves(a, first, second))
  {
    hide Sum, ChargeTable, DischargeTable, Export, OnlyIf;
    var d, p := Depot(a), Moves(a, first, second);
    SingleEnergies(d, p, 0);
    SingleEnergies(d, p, 1);
    NothingDrawn(d, p, 0);
    NothingDrawn(d, p, 1);
  }

  lemma NothingDrawn(d: Site, p: Plan, t: nat)
    requires d.trips == 1 && !p.serves(0, 0, t)
    ensures Sum(1, DrawTerm(d, p, 0, t)) == 0.0
  {
    hide Sum;
    OneTerm(DrawTerm(d, p, 0, t));
  }

  /** The levels a plan of the depot may have. */
  predicate LevelsFit(a: real, first: Move, second: Move) {
    && 0.0 <= Level(a, first, second, 0) <= 100.0 * (1.0 + a)
    && Reserve(a) <= Level(a, first, second, 1) <= 100.0 * (1.0 + a)
  }

  lemma MovesAreFeasible(a: real, first: Move, second: Move)
    requires a > 0.0
    ensures LevelsFit(a, first, second) ==> Feasible(Depot(a), Moves(a, first, second))
  {
    hide Coverage, UnavailableIdle, OneActivity, OneBusPerCharger, SiteExchange, Balance, Level;
    MovesAreActivities(a, first, second);
    MovesExchange(a, first, second);
    MovesBalance(a, first, second);
  }

  lemma ExportTakesItsEnergy(a: real)
    ensures Export(a) * DISCHARGE_FACTOR == 2.0 * a + 1.0
  {
  }

  lemma IdleIsFeasible(a: real)
    requires a > 0.0
    ensures Feasible(Depot(a), Idle(a)) && Idle(a).shortfall(0, 0) == 0.0 && Idle(a).shortfall(0, 1) == 0.0
    ensures Idle(a).bought(0) == 0.0 && Idle(a).bought(1) == 0.0 && Idle(a).sold(0) == 0.0
  {
    hide Feasible, Depot;
    MovesAreFeasible(a, Stay, Stay);
  }

  lemma ExportFirstIsFeasible(a: real)
    requires a > 0.0
    ensures Feasible(Depot(a), ExportFirst(a)) && ExportFirst(a).sold(0) == Export(a)
    ensures ExportFirst(a).shortfall(0, 0) == a / SHORTFALL_PENALTY && ExportFirst(a).shortfall(0, 1) == 0.0
  {
    hide Feasible, Depot, Export, Gain;
    GainsOfExportFirst(a);
    assert ChargerAt(a)(0, 0) == Export(a);
    assert Level(a, Discharge, Charge, 0) == Reserve(a) - a / SHORTFALL_PENALTY;
    assert Level(a, Discharge, Charge, 1) == Reserve(a) - a / SHORTFALL_PENALTY + 0.9 * (1.0 + a);
    MovesAreFeasible(a, Discharge, Charge);
  }

  lemma GainsOfExportFirst(a: real)
    ensures Gain(a, Discharge, 0) == -(2.0 * a + 1.0) && Gain(a, Charge, 1) == 0.9 * (1.0 + a)
  {
    hide Export;
    ExportTakesItsEnergy(a);
    assert Gain(a, Discharge, 0) == -(Export(a) * DISCHARGE_FACTOR);
    assert Gain(a, Charge, 1) == (1.0 + a) * CHARGE_EFFICIENCY;
  }

  /** On this depot the service score is the price of the shortfalls. */
  lemma ServiceScoreOf(a: real, p: Plan)
    ensures ServiceScore(Depot(a), p) == SHORTFALL_PENALTY * (p.shortfall(0, 0) + p.shortfall(0, 1))
  {
    hide Sum;
    var d := Depot(a);
    NothingActive(d, p);
    OneTerm(RowSums(WeightedUnservedTable(d, p), 2));
    OneTerm(RowSums(UnservedTable(d, p), 2));
    OneTerm(RowSums(p.shortfall, 2));
    TwoTerms(Row(WeightedUnservedTable(d, p), 0));
    TwoTerms(Row(UnservedTable(d, p), 0));
    TwoTerms(Row(p.shortfall, 0));
  }

  lemma NothingActive(d: Site, p: Plan)
    requires forall t :: !d.active(0, t)
    ensures forall t :: UnservedTable(d, p)(0, t) == 0.0 && WeightedUnservedTable(d, p)(0, t) == 0.0
  {
    forall t ensures UnservedTable(d, p)(0, t) == 0.0 && WeightedUnservedTable(d, p)(0, t) == 0.0 {
      assert B(d.active(0, t)) == 0.0;
      assert B(d.active(0, t)) * B(p.unserved(0, t)) == 0.0;
      assert (d.steps - t) as real * 0.0 == 0.0;
    }
  }

  lemma EconomicScoreOf(a: real, price: real, x: Assignment)
    ensures EconomicScore(Depot(a), price, x) == SWITCH_PENALTY * x.switches as real + price * x.plan.bought(0) + price * x.plan.bought(1)
  {
    hide Sum;
    TwoTerms(Cost(price, x.plan.bought));
    TwoTerms(Cost(0.0, x.plan.sold));
    assert 0.0 * x.plan.sold(0) == 0.0 && 0.0 * x.plan.sold(1) == 0.0;
  }

  /** On this depot a plan that exports anything in the first step falls short of the reserve and buys
      in the second. */
  lemma ExportMeansShortfall(a: real, p: Plan)
    requires a > 0.0 && Feasible(Depot(a), p) && p.sold(0) > 0.0
    ensures p.shortfall(0, 0) >= a / SHORTFALL_PENALTY && p.shortfall(0, 1) >= 0.0
    ensures p.bought(0) >= 0.0 && p.bought(1) == 1.0 + a
  {
    hide Sum, ChargeTable, DischargeTable;
    SingleCounts(p, 0);
    SingleEnergies(Depot(a), p, 0);
    SingleEnergies(Depot(a), p, 1);
    ExportTakesItsEnergy(a);
    var d := Depot(a);
    assert p.discharges(0, 0, 0);
    assert OneActivity(d, p) && d.available(0);
    assert !p.charges(0, 0, 0);
    assert p.energy(0, 0) == EnergyBefore(d, p, 0, 0) - Export(a) * DISCHARGE_FACTOR;
    assert p.energy(0, 1) >= RESERVE_FRACTION * d.capacityKwh(0);
    assert p.charges(0, 0, 1);
  }

  lemma IdleIsAllowed(a: real, price: real)
    requires a > 0.0
    ensures var idle := Assignment(Idle(a), Export(a), 0);
            && Allowed(Depot(a), Export(a), idle) && ServiceScore(Depot(a), idle.plan) == 0.0 && EconomicScore(Depot(a), price, idle) == 0.0
  {
    hide Feasible, ServiceScore, EconomicScore, Depot;
    IdleIsFeasible(a);
    ServiceScoreOf(a, Idle(a));
    EconomicScoreOf(a, price, Assignment(Idle(a), Export(a), 0));
  }

  lemma ExportFirstIsAllowed(a: real)
    requires a > 0.0
    ensures Allowed(Depot(a), Export(a), Assignment(ExportFirst(a), 0.0, 0)) && ServiceScore(Depot(a), ExportFirst(a)) == a
  {
    hide Feasible, ServiceScore, Depot;
    ExportFirstIsFeasible(a);
    ServiceScoreOf(a, ExportFirst(a));
  }

  lemma ScoresAreNotNegative(a: real, target: real)
    ensures forall x: Assignment :: Allowed(Depot(a), target, x) ==> ServiceScore(Depot(a), x.plan) >= 0.0
  {
    hide Sum, ServiceScore, Coverage, UnavailableIdle, OneActivity, OneBusPerCharger, SiteExchange, Balance;
    forall x: Assignment | Allowed(Depot(a), target, x) ensures ServiceScore(Depot(a), x.plan) >= 0.0 {
      ServiceScoreOf(a, x.plan);
      assert x.plan.shortfall(0, 0) >= 0.0 && x.plan.shortfall(0, 1) >= 0.0;
    }
  }

  /** A plan whose slack stays within the tolerance exports, so it falls short and has to buy. */
  lemma FoundExports(a: real, price: real, x: Assignment)
    requires a > 0.0 && price > 0.0 && Allowed(Depot(a), Export(a), x) && x.slack <= a
    ensures x.plan.shortfall(0, 0) > 0.0 && ServiceScore(Depot(a), x.plan) > 0.0 && EconomicScore(Depot(a), price, x) >= price
  {
    hide Feasible, ServiceScore, EconomicScore, Depot;
    ExportMeansShortfall(a, x.plan);
    ServiceScoreOf(a, x.plan);
    EconomicScoreOf(a, price, x);
    Arithmetic.NotNegative(price, x.plan.bought(0));
    Arithmetic.NotNegative(price, a);
    assert price * (1.0 + a) == price + price * a;
  }

  /** For every positive absolute tolerance there is a depot on which every exact solver makes the run
      return a plan that falls short of the reserve and costs at least `price`, although an idle plan
      falls short of nothing and costs nothing: the lock on the service score leaves room for the
      shortfall, and the operational stage, which prefers the export, then locks the idle plan out. */
  lemma ToleranceCostsTheReserve(s: Settings, price: real, solve: Backend<Assignment>)
    requires NonNegative(s) && s.lexicographic && s.absTolerance > 0.0 && s.lexicographicGap < 1.0 && price > 0.0
    requires var a := s.absTolerance;
             && Exact(s, StagesOf(s, ScoresOf(Depot(a), price)), solve, AllowedIn(Depot(a), Export(a)))
             && LoadsOnlySolutions(solve, AllowedIn(Depot(a), Export(a)))
    ensures var a := s.absTolerance;
            && Run(s, StagesOf(s, ScoresOf(Depot(a), price)), 3, solve).Continue?
            && var found := Run(s, StagesOf(s, ScoresOf(Depot(a), price)), 3, solve).progress.point;
               && found.Some? && Allowed(Depot(a), Export(a), found.value)
               && found.value.plan.shortfall(0, 0) > 0.0 && ServiceScore(Depot(a), found.value.plan) > 0.0
               && EconomicScore(Depot(a), price, found.value) >= price
    ensures var a, idle := s.absTolerance, Assignment(Idle(s.absTolerance), Export(s.absTolerance), 0);
            && Allowed(Depot(a), Export(a), idle)
            && ServiceScore(Depot(a), idle.plan) == 0.0 && EconomicScore(Depot(a), price, idle) == 0.0
  {
    hide Run, OneStage, Exact, LoadsOnlySolutions, Admits, Minimises, Minima, Feasible, Depot, Idle, ExportFirst, ServiceScore, EconomicScore;
    var a := s.absTolerance;
    var d, target := Depot(a), Export(a);
    var stages, feasible := StagesOf(s, ScoresOf(d, price)), AllowedIn(d, target);
    var idle, first := Assignment(Idle(a), target, 0), Assignment(ExportFirst(a), 0.0, 0);
    IdleIsAllowed(a, price);
    ExportFirstIsAllowed(a);
    TheResultIsOptimalWithinTheLocks(s, stages, solve, feasible, idle);
    var r, found := Run(s, stages, 3, solve).progress.records, Run(s, stages, 3, solve).progress.point.value;
    NothingLockedYet(s, stages, r, idle);
    MinimumAttained(s, stages, 0, r, feasible);
    ScoresAreNotNegative(a, target);
    MinimumAt(s, stages, 0, r, feasible, idle);
    OnlyZeroIsBelowItsGap(r[0].value, s.lexicographicGap);
    assert WithinLocks(s, stages, r[..1], first);
    MinimumAttained(s, stages, 1, r, feasible);
    MinimumAt(s, stages, 1, r, feasible, first);
    OnlyZeroIsBelowItsGap(r[1].value, s.lexicographicGap);
    LockAt(s, stages, 1, r, found);
    FoundExports(a, price, found);
  }

  // ---------------------------------------------------------------- the depot has exact solvers

  function MoveOf(p: Plan, t: int): Move {
    if p.charges(0, 0, t) then Charge else if p.discharges(0, 0, t) then Discharge else Stay
  }

  /** The same moves with no more shortfall, slack and switches than they need. */
  function Trimmed(a: real, x: Assignment): Assignment {
    TrimmedTo(a, MoveOf(x.plan, 0), MoveOf(x.plan, 1))
  }

  function TrimmedTo(a: real, first: Move, second: Move): Assignment {
    var p := Moves(a, first, second);
    Assignment(p, Max(0.0, Export(a) - p.sold(0)), 0)
  }

  /** The moves fix what is exchanged and the energy levels. */
  lemma MovesFixThePlan(a: real, p: Plan, t: nat)
    requires a > 0.0 && Feasible(Depot(a), p) && t < 2
    ensures p.bought(t) == OnlyIf(MoveOf(p, t) == Charge, ChargerAt(a)(0, t)) && p.sold(t) == OnlyIf(MoveOf(p, t) == Discharge, ChargerAt(a)(0, t))
    ensures p.energy(0, t) == EnergyBefore(Depot(a), p, 0, t) + Gain(a, MoveOf(p, t), t)
  {
    hide Sum, ChargeTable, DischargeTable, Export;
    var d := Depot(a);
    SingleCounts(p, t);
    SingleEnergies(d, p, t);
    assert Coverage(d, p) && OneActivity(d, p) && d.available(0);
    assert !(p.charges(0, 0, t) && p.discharges(0, 0, t));
    assert !p.serves(0, 0, t);
    NothingDrawn(d, p, t);
  }

  lemma LevelsOfThePlan(a: real, p: Plan)
    requires a > 0.0 && Feasible(Depot(a), p)
    ensures var f, s := MoveOf(p, 0), MoveOf(p, 1);
            p.energy(0, 0) == Level(a, f, s, 0) && p.energy(0, 1) == Level(a, f, s, 1) && LevelsFit(a, f, s)
  {
    hide Sum, Coverage, UnavailableIdle, OneActivity, OneBusPerCharger, SiteExchange, Balance, Gain, MoveOf;
    MovesFixThePlan(a, p, 0);
    MovesFixThePlan(a, p, 1);
  }

  /** Trimming keeps an allowed assignment allowed and raises none of the scores. */
  lemma TrimmingLowersScores(a: real, price: real, x: Assignment)
    requires a > 0.0 && price >= 0.0 && Allowed(Depot(a), Export(a), x)
    ensures Allowed(Depot(a), Export(a), Trimmed(a, x)) && Trimmed(a, x).slack <= x.slack
    ensures ServiceScore(Depot(a), Trimmed(a, x).plan) <= ServiceScore(Depot(a), x.plan)
    ensures EconomicScore(Depot(a), price, Trimmed(a, x)) <= EconomicScore(Depot(a), price, x)
  {
    hide Feasible, ServiceScore, EconomicScore, Depot, Export, Gain, MoveOf, OnlyIf;
    var y, d := Trimmed(a, x), Depot(a);
    LevelsOfThePlan(a, x.plan);
    MovesFixThePlan(a, x.plan, 0);
    MovesFixThePlan(a, x.plan, 1);
    MovesAreFeasible(a, MoveOf(x.plan, 0), MoveOf(x.plan, 1));
    ServiceScoreOf(a, x.plan);
    ServiceScoreOf(a, y.plan);
    ShortfallsAtLeast(a, x.plan);
    EconomicScoreOf(a, price, x);
    EconomicScoreOf(a, price, y);
  }

  lemma ShortfallsAtLeast(a: real, p: Plan)
    requires Feasible(Depot(a), p)
    ensures p.shortfall(0, 0) >= Max(0.0, Reserve(a) - p.energy(0, 0)) && p.shortfall(0, 1) >= Max(0.0, Reserve(a) - p.energy(0, 1))
  {
    hide Sum, Coverage, UnavailableIdle, OneActivity, OneBusPerCharger, SiteExchange, Balance;
  }

  /** All trimmed assignments. */
  function Candidates(a: real): seq<Assignment> {
    [TrimmedTo(a, Stay, Stay), TrimmedTo(a, Stay, Charge), TrimmedTo(a, Stay, Discharge),
     TrimmedTo(a, Charge, Stay), TrimmedTo(a, Charge, Charge), TrimmedTo(a, Charge, Discharge),
     TrimmedTo(a, Discharge, Stay), TrimmedTo(a, Discharge, Charge), TrimmedTo(a, Discharge, Discharge)]
  }

  function Place(first: Move, second: Move): nat {
    Rank(first) * 3 + Rank(second)
  }

  function Rank(m: Move): nat {
    match m
    case Stay => 0
    case Charge => 1
    case Discharge => 2
  }

  lemma TrimmedIsACandidate(a: real, x: Assignment) returns (i: nat)
    ensures i < |Candidates(a)| && Candidates(a)[i] == Trimmed(a, x)
  {
    hide TrimmedTo, MoveOf;
    i := Place(MoveOf(x.plan, 0), MoveOf(x.plan, 1));
  }

  lemma {:induction false} LeastOf<P>(candidates: seq<P>, ok: P -> bool, score: P -> real, i: nat) returns (best: P)
    requires i < |candidates| && ok(candidates[i])
    ensures ok(best) && forall k :: 0 <= k < |candidates| && ok(candidates[k]) ==> score(best) <= score(candidates[k])
    decreases |candidates|
  {
    var rest, last := candidates[..|candidates| - 1], candidates[|candidates| - 1];
    if j: nat :| j < |rest| && ok(rest[j]) {
      best := LeastOf(rest, ok, score, j);
      if ok(last) && score(last) < score(best) {
        best := last;
      }
    } else {
      best := last;
    }
  }

  ghost function AllowedUnder(a: real, locks: seq<Lock<Assignment>>): Assignment -> bool {
    (x: Assignment) => Allowed(Depot(a), Export(a), x) && Admits(locks, x)
  }

  /** Every score has a minimiser under any locks on the scores that leave a solution. */
  lemma DepotHasMinima(s: Settings, price: real, a: real)
    requires NonNegative(s) && s.lexicographic && a > 0.0 && price >= 0.0
    ensures MinimaExist(s, StagesOf(s, ScoresOf(Depot(a), price)), AllowedIn(Depot(a), Export(a)))
  {
    hide Minimises, OnStages, Admits, Allowed, Depot;
    var stages, feasible := StagesOf(s, ScoresOf(Depot(a), price)), AllowedIn(Depot(a), Export(a));
    forall locks, j: nat | j < |stages| ensures HasMinimum(s, stages, feasible, locks, j) {
      if OnStages(stages, locks) {
        if q :| feasible(q) && Admits(locks, q) {
          var p := StageHasMinimum(s, price, a, locks, j, q);
        }
      }
    }
  }

  lemma TrimmedIsAdmitted(s: Settings, price: real, a: real, locks: seq<Lock<Assignment>>, j: nat, x: Assignment)
    requires s.lexicographic && a > 0.0 && price >= 0.0 && Allowed(Depot(a), Export(a), x) && Admits(locks, x)
    requires OnStages(StagesOf(s, ScoresOf(Depot(a), price)), locks) && j < 3
    ensures Allowed(Depot(a), Export(a), Trimmed(a, x)) && Admits(locks, Trimmed(a, x))
    ensures StagesOf(s, ScoresOf(Depot(a), price))[j].score(Trimmed(a, x)) <= StagesOf(s, ScoresOf(Depot(a), price))[j].score(x)
  {
    hide Allowed, Trimmed, Depot, ServiceScore, EconomicScore;
    var stages := StagesOf(s, ScoresOf(Depot(a), price));
    TrimmingLowersScores(a, price, x);
    forall i | 0 <= i < 3 ensures stages[i].score(Trimmed(a, x)) <= stages[i].score(x) {
    }
    forall l | l in locks ensures l.score(Trimmed(a, x)) <= l.bound {
      var i :| 0 <= i < |stages| && l.score == stages[i].score;
      assert l.score(x) <= l.bound;
    }
  }

  lemma StageHasMinimum(s: Settings, price: real, a: real, locks: seq<Lock<Assignment>>, j: nat, some: Assignment) returns (p: Assignment)
    requires NonNegative(s) && s.lexicographic && a > 0.0 && price >= 0.0 && j < 3
    requires OnStages(StagesOf(s, ScoresOf(Depot(a), price)), locks) && Allowed(Depot(a), Export(a), some) && Admits(locks, some)
    ensures Minimises(AllowedIn(Depot(a), Export(a)), locks, StagesOf(s, ScoresOf(Depot(a), price))[j].score, StageGap(s, 3, j), p)
  {
    hide Admits, Allowed, Depot, Trimmed, Candidates, ScoresOf, OnStages, StageGap, Abs;
    var stages, ok := StagesOf(s, ScoresOf(Depot(a), price)), AllowedUnder(a, locks);
    var score := stages[j].score;
    TrimmedIsAdmitted(s, price, a, locks, j, some);
    var i := TrimmedIsACandidate(a, some);
    p := LeastOf(Candidates(a), ok, score, i);
    GapIsNotNegative(s, 3, j, score(p));
    forall q | AllowedIn(Depot(a), Export(a))(q) && Admits(locks, q) ensures score(p) <= score(q) + StageGap(s, 3, j) * Abs(score(p)) {
      TrimmedIsAdmitted(s, price, a, locks, j, q);
      var k := TrimmedIsACandidate(a, q);
      assert ok(Candidates(a)[k]);
    }
  }

  lemma GapIsNotNegative(s: Settings, stages: nat, j: nat, value: real)
    requires NonNegative(s)
    ensures StageGap(s, stages, j) * Abs(value) >= 0.0
  {
    Arithmetic.NotNegative(StageGap(s, stages, j), Abs(value));
  }

  /** So there are exact solvers on this depot. */
  lemma DepotHasAnExactSolver(s: Settings, price: real)
    requires NonNegative(s) && s.lexicographic && s.absTolerance > 0.0 && price > 0.0
    ensures var a := s.absTolerance;
            exists solve: Backend<Assignment> ::
              && Exact(s, StagesOf(s, ScoresOf(Depot(a), price)), solve, AllowedIn(Depot(a), Export(a)))
              && LoadsOnlySolutions(solve, AllowedIn(Depot(a), Export(a)))
  {
    hide Exact, LoadsOnlySolutions, MinimaExist;
    DepotHasMinima(s, price, s.absTolerance);
    ExactSolverExistsIff(s, StagesOf(s, ScoresOf(Depot(s.absTolerance), price)), AllowedIn(Depot(s.absTolerance), Export(s.absTolerance)));
  }
}
