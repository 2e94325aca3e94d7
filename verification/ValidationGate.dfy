/** What a result has been validated for when it passes, and so what the power delivered to the
    controller was validated for. */
module ValidationGate {
  import Arithmetic
  import opened Prelude
  import opened Sums
  import opened FleetEnergy
  import opened ServiceEvents
  import opened RunLifecycle
  import HorizonWindows
  import DayAhead
  import PlcSpec
  import OtGateway
  import DispatchPolicy

  const SHORTFALL_TOLERANCE := 0.000001

  /** Steps of one bus that fall short of the reserve by more than the tolerance. */
  function Violations(row: seq<real>): nat {
    if row == [] then 0 else Violations(row[..|row| - 1]) + if row[|row| - 1] > SHORTFALL_TOLERANCE then 1 else 0
  }

  function AllViolations(table: seq<seq<real>>): nat {
    if table == [] then 0 else AllViolations(table[..|table| - 1]) + Violations(table[|table| - 1])
  }

  lemma {:induction false} NoViolations(row: seq<real>)
    ensures Violations(row) == 0 <==> forall t :: 0 <= t < |row| ==> row[t] <= SHORTFALL_TOLERANCE
  {
    if row != [] {
      NoViolations(row[..|row| - 1]);
      assert row == row[..|row| - 1] + [row[|row| - 1]];
    }
  }

  lemma {:induction false} NoViolationsAnywhere(table: seq<seq<real>>)
    ensures AllViolations(table) == 0 <==> forall k :: 0 <= k < |table| ==> Violations(table[k]) == 0
  {
    if table != [] {
      NoViolationsAnywhere(table[..|table| - 1]);
      assert table == table[..|table| - 1] + [table[|table| - 1]];
    }
  }

  function ShortfallOf(d: Site, p: Plan, k: int): (row: seq<real>)
    ensures |row| == d.steps && forall t :: 0 <= t < d.steps ==> row[t] == p.shortfall(k, t)
  {
    seq(d.steps, t requires 0 <= t < d.steps => p.shortfall(k, t))
  }

  function ShortfallTable(d: Site, p: Plan): (table: seq<seq<real>>)
    ensures |table| == d.buses && forall k :: 0 <= k < d.buses ==> table[k] == ShortfallOf(d, p, k)
  {
    seq(d.buses, k requires 0 <= k < d.buses => ShortfallOf(d, p, k))
  }

  /** The serving bus of each trip and step, read off the plan. */
  ghost predicate Extracted(d: Site, p: Plan, trips: seq<TripPlan>) {
    && |trips| == d.trips
    && forall i :: 0 <= i < d.trips ==> trips[i].Valid() && HorizonWindows.ReadsOff(d, p, i, trips[i].served, trips[i].start, trips[i].end)
  }

  /** The gate: no trip is listed as unserved, no step falls short, and the solver was not stopped by
      its time limit. */
  ghost predicate Passes(d: Site, p: Plan, trips: seq<TripPlan>, timedOut: bool) {
    UnmetCount(trips) == 0 && AllViolations(ShortfallTable(d, p)) == 0 && !timedOut
  }

  ghost predicate TripServed(d: Site, p: Plan, i: int) {
    forall t :: 0 <= t < d.steps && d.active(i, t) ==> exists k :: 0 <= k < d.buses && p.serves(k, i, t)
  }

  ghost predicate ServesEverything(d: Site, p: Plan) {
    forall i :: 0 <= i < d.trips ==> TripServed(d, p, i)
  }

  ghost predicate BusWithinTolerance(d: Site, p: Plan, k: int) {
    forall t :: 0 <= t < d.steps ==> p.shortfall(k, t) <= SHORTFALL_TOLERANCE
  }

  ghost predicate ShortfallsWithinTolerance(d: Site, p: Plan) {
    forall k :: 0 <= k < d.buses ==> BusWithinTolerance(d, p, k)
  }

  ghost predicate KeepsReserve(d: Site, p: Plan) {
    forall k, t :: 0 <= k < d.buses && 0 <= t < d.steps ==> p.energy(k, t) >= RESERVE_FRACTION * d.capacityKwh(k) - SHORTFALL_TOLERANCE
  }

  /** A bus with identifier 0 serves the trip in its window. */
  ghost predicate ServedByZero(trip: TripPlan) {
    exists t :: trip.start <= t < trip.end && t < |trip.served| && trip.served[t] == Some(0)
  }

  lemma {:induction false} NoneFlagged(trips: seq<TripPlan>)
    ensures UnmetCount(trips) == 0 <==> forall i :: 0 <= i < |trips| ==> !trips[i].Flagged()
  {
    if trips != [] {
      NoneFlagged(trips[..|trips| - 1]);
      assert trips == trips[..|trips| - 1] + [trips[|trips| - 1]];
    }
  }

  lemma FlaggedIff(d: Site, p: Plan, i: nat, trip: TripPlan)
    requires trip.Valid() && HorizonWindows.ReadsOff(d, p, i, trip.served, trip.start, trip.end)
    ensures !trip.Flagged() <==> TripServed(d, p, i) && !ServedByZero(trip)
  {
    if !trip.Flagged() {
      forall t | 0 <= t < d.steps && d.active(i, t) ensures exists k :: 0 <= k < d.buses && p.serves(k, i, t) {
        assert !Unserved(trip.served[t]);
      }
    }
    if t :| trip.start <= t < trip.end && t < |trip.served| && Unserved(trip.served[t]) {
      assert d.active(i, t);
    }
  }

  lemma NoneUnmetIff(d: Site, p: Plan, trips: seq<TripPlan>)
    requires Extracted(d, p, trips)
    ensures UnmetCount(trips) == 0 <==> ServesEverything(d, p) && forall i :: 0 <= i < d.trips ==> !ServedByZero(trips[i])
  {
    hide TripServed, ServedByZero, UnmetCount, TripPlan.Flagged;
    NoneFlagged(trips);
    forall i | 0 <= i < d.trips ensures !trips[i].Flagged() <==> TripServed(d, p, i) && !ServedByZero(trips[i]) {
      FlaggedIff(d, p, i, trips[i]);
    }
  }

  lemma BusWithinIff(d: Site, p: Plan, k: int)
    ensures Violations(ShortfallOf(d, p, k)) == 0 <==> BusWithinTolerance(d, p, k)
  {
    hide ShortfallOf;
    var row := ShortfallOf(d, p, k);
    NoViolations(row);
    if Violations(row) == 0 {
      forall t | 0 <= t < d.steps ensures p.shortfall(k, t) <= SHORTFALL_TOLERANCE {
        assert row[t] <= SHORTFALL_TOLERANCE;
      }
    }
  }

  lemma NoneShortIff(d: Site, p: Plan)
    ensures AllViolations(ShortfallTable(d, p)) == 0 <==> ShortfallsWithinTolerance(d, p)
  {
    hide AllViolations, Violations, ShortfallTable, ShortfallOf, BusWithinTolerance;
    var table := ShortfallTable(d, p);
    NoViolationsAnywhere(table);
    forall k | 0 <= k < d.buses ensures Violations(table[k]) == 0 <==> BusWithinTolerance(d, p, k) {
      BusWithinIff(d, p, k);
    }
  }

  /** Exact: a result passes if and only if every active step of every trip is served, by no bus with
      identifier 0, every shortfall is within 1e-6 kWh, and the solver was not stopped. */
  lemma PassesIff(d: Site, p: Plan, trips: seq<TripPlan>, timedOut: bool)
    requires Extracted(d, p, trips)
    ensures Passes(d, p, trips, timedOut) <==>
      && (forall i, t :: 0 <= i < d.trips && 0 <= t < d.steps && d.active(i, t) ==> exists k :: 0 <= k < d.buses && p.serves(k, i, t))
      && (forall i, t :: 0 <= i < d.trips && trips[i].start <= t < trips[i].end && t < |trips[i].served| ==> trips[i].served[t] != Some(0))
      && (forall k, t :: 0 <= k < d.buses && 0 <= t < d.steps ==> p.shortfall(k, t) <= 0.000001)
      && !timedOut
  {
    hide UnmetCount, AllViolations;
    NoneUnmetIff(d, p, trips);
    NoneShortIff(d, p);
    ServedInFull(d, p);
    NoZeroInFull(d, trips);
    ShortInFull(d, p);
  }

  lemma ServedInFull(d: Site, p: Plan)
    ensures ServesEverything(d, p) <==>
      forall i, t :: 0 <= i < d.trips && 0 <= t < d.steps && d.active(i, t) ==> exists k :: 0 <= k < d.buses && p.serves(k, i, t)
  {
    if ServesEverything(d, p) {
      forall i, t | 0 <= i < d.trips && 0 <= t < d.steps && d.active(i, t) ensures exists k :: 0 <= k < d.buses && p.serves(k, i, t) {
        assert TripServed(d, p, i);
      }
    }
  }

  lemma NoZeroInFull(d: Site, trips: seq<TripPlan>)
    requires |trips| == d.trips
    ensures (forall i :: 0 <= i < d.trips ==> !ServedByZero(trips[i])) <==>
      forall i, t :: 0 <= i < d.trips && trips[i].start <= t < trips[i].end && t < |trips[i].served| ==> trips[i].served[t] != Some(0)
  {
  }

  lemma ShortInFull(d: Site, p: Plan)
    ensures ShortfallsWithinTolerance(d, p) <==> forall k, t :: 0 <= k < d.buses && 0 <= t < d.steps ==> p.shortfall(k, t) <= 0.000001
  {
    if ShortfallsWithinTolerance(d, p) {
      forall k, t | 0 <= k < d.buses && 0 <= t < d.steps ensures p.shortfall(k, t) <= 0.000001 {
        assert BusWithinTolerance(d, p, k);
      }
    }
  }

  /** A feasible plan that passes serves everything and keeps the reserve, up to the tolerance. */
  lemma PassedPlan(d: Site, p: Plan, trips: seq<TripPlan>, timedOut: bool)
    requires Feasible(d, p) && Extracted(d, p, trips) && Passes(d, p, trips, timedOut)
    ensures ServesEverything(d, p) && KeepsReserve(d, p)
    ensures forall i, t :: 0 <= i < d.trips && 0 <= t < d.steps && d.active(i, t) ==> exists k :: 0 <= k < d.buses && p.serves(k, i, t)
    ensures forall k, t :: 0 <= k < d.buses && 0 <= t < d.steps ==> p.energy(k, t) >= 0.2 * d.capacityKwh(k) - 0.000001
  {
    hide Coverage, UnavailableIdle, OneActivity, OneBusPerCharger, SiteExchange, Balance, ServesEverything, Passes, Extracted;
    PassesIff(d, p, trips, timedOut);
    ServedInFull(d, p);
  }

  // ---------------------------------------------------------------- results, and the runs that carry them

  function Series(steps: nat, f: int -> real): (s: seq<real>)
    ensures |s| == steps && forall t :: 0 <= t < steps ==> s[t] == f(t)
  {
    seq(steps, t requires 0 <= t < steps => f(t))
  }

  /** What a run optimizes, fixed by its input and, for a remaining horizon, by its notice. */
  datatype Model = RemainingHorizon(site: Site) | WholeDay(day: DayAhead.Day)

  function Steps(m: Model): nat {
    match m
    case RemainingHorizon(d) => d.steps
    case WholeDay(d) => d.steps
  }

  ghost predicate FeasibleFor(m: Model, p: Plan) {
    match m
    case RemainingHorizon(d) => Feasible(d, p)
    case WholeDay(d) => DayAhead.Feasible(d, p)
  }

  /** The series of the result are those of the plan. */
  ghost predicate Carries(m: Model, r: Payload, p: Plan) {
    r.buy == Some(Series(Steps(m), p.bought)) && r.sell == Some(Series(Steps(m), p.sold))
  }

  /** A remaining-horizon result passes as its plan does; every day-ahead result that is published
      passes. */
  ghost predicate MarkedFor(m: Model, r: Payload, p: Plan) {
    match m
    case RemainingHorizon(d) => exists trips, timedOut :: Extracted(d, p, trips) && r.validationPassed == Passes(d, p, trips, timedOut)
    case WholeDay(_) => r.validationPassed
  }

  /** What the optimizer returns for this model and this feasible assignment of it. */
  ghost predicate PublishedFrom(m: Model, r: Payload, p: Plan) {
    FeasibleFor(m, p) && Carries(m, r, p) && MarkedFor(m, r, p)
  }

  /** Every completion of this run that hands in a passing result hands in one of this model. */
  ghost predicate PassesOnlyResultsOf(m: Model, commits: seq<Commit>, id: RunId) {
    forall k :: 0 <= k < |commits| && commits[k].event.Complete? && commits[k].event.id == id && commits[k].event.payload.validationPassed ==>
      exists p :: PublishedFrom(m, commits[k].event.payload, p)
  }

  /** So does every run that is approved in the end. */
  ghost predicate ApprovedRunsAreOptimized(hash: Hash, model: RunId -> Model, commits: seq<Commit>) {
    forall id :: DispatchPolicy.HasApproval(StateAfter(hash, commits), id) ==> PassesOnlyResultsOf(model(id), commits, id)
  }

  /** The plan is feasible for the model, serves every active step of every trip, and keeps the reserve:
      up to the tolerance on a remaining horizon, exactly on a whole day. */
  ghost predicate Good(m: Model, p: Plan) {
    && FeasibleFor(m, p)
    && match m
       case RemainingHorizon(d) => ServesEverything(d, p) && KeepsReserve(d, p)
       case WholeDay(d) => ServesTheDay(d, p) && KeepsDailyReserve(d, p)
  }

  ghost predicate ServesTheDay(d: DayAhead.Day, p: Plan) {
    forall i, t :: 0 <= i < d.trips && 0 <= t < d.steps && DayAhead.Active(d, i, t) ==> i < d.buses && p.serves(i, i, t)
  }

  ghost predicate KeepsDailyReserve(d: DayAhead.Day, p: Plan) {
    forall k, t :: 0 <= k < d.buses && 0 <= t < d.steps ==> p.energy(k, t) >= DayAhead.MINIMUM_SOC * d.capacityKwh(k)
  }

  /** What a good plan is, written out. */
  lemma GoodInFull(m: Model, p: Plan)
    requires Good(m, p)
    ensures match m
            case RemainingHorizon(d) =>
              && Feasible(d, p)
              && (forall i, t :: 0 <= i < d.trips && 0 <= t < d.steps && d.active(i, t) ==> exists k :: 0 <= k < d.buses && p.serves(k, i, t))
              && (forall k, t :: 0 <= k < d.buses && 0 <= t < d.steps ==> p.energy(k, t) >= 0.2 * d.capacityKwh(k) - 0.000001)
            case WholeDay(d) =>
              && DayAhead.Feasible(d, p)
              && (forall i, t :: 0 <= i < d.trips && 0 <= t < d.steps && d.tripStart(i) <= t + 1 < d.tripEnd(i) ==> p.serves(i, i, t))
              && (forall k, t :: 0 <= k < d.buses && 0 <= t < d.steps ==> p.energy(k, t) >= 0.2 * d.capacityKwh(k))
  {
    hide Feasible, DayAhead.Feasible;
    match m
    case RemainingHorizon(d) => ServedInFull(d, p);
    case WholeDay(_) =>
  }

  ghost predicate CompletedWith(commits: seq<Commit>, k: nat, id: RunId, r: Payload) {
    k < |commits| && commits[k].event.Complete? && commits[k].event.id == id && commits[k].event.payload == r
  }

  lemma ResultAfter(hash: Hash, id: RunId, now: Run, c: Commit)
    ensures var r := RowAfter(hash, id, now, c).result;
            r == now.result || (c.event.Complete? && c.event.id == id && r == Some(c.event.payload))
  {
  }

  /** In every history, whatever races it has, a stored result was handed in by a completion of that run. */
  lemma {:induction false} ResultsComeFromCompletions(hash: Hash, commits: seq<Commit>, id: RunId) returns (k: nat)
    requires id in StateAfter(hash, commits).runs && StateAfter(hash, commits).runs[id].result.Some?
    ensures CompletedWith(commits, k, id, StateAfter(hash, commits).runs[id].result.value)
  {
    hide RowAfter, Apply;
    var before, c := commits[..|commits| - 1], commits[|commits| - 1];
    var db := StateAfter(hash, before);
    ApprovalOfApply(hash, db, c, id);
    if id in db.runs {
      RowOfApply(hash, db, c, id);
      ResultAfter(hash, id, db.runs[id], c);
      if StateAfter(hash, commits).runs[id].result == db.runs[id].result {
        k := ResultsComeFromCompletions(hash, before, id);
      } else {
        k := |commits| - 1;
      }
    } else {
      NoResultYet(c.event);
    }
  }

  lemma NoResultYet(e: Event)
    requires e.Create?
    ensures NewRow(e).result == None
  {
  }

  lemma DayIsServed(d: DayAhead.Day, p: Plan)
    requires DayAhead.Feasible(d, p)
    ensures ServesTheDay(d, p)
  {
    hide DayAhead.Assignment, DayAhead.Continuity, DayAhead.Charging, DayAhead.Balance, DayAhead.Exchange, DayAhead.Floors, DayAhead.EndOfDay;
    forall i, t | 0 <= i < d.trips && 0 <= t < d.steps && DayAhead.Active(d, i, t) ensures i < d.buses && p.serves(i, i, t) {
      DayAhead.OwnBusServes(d, p, i, t);
    }
  }

  /** A result that passes is that of a good plan of its model. */
  lemma PassedIsGood(m: Model, r: Payload, p: Plan)
    requires PublishedFrom(m, r, p) && r.validationPassed
    ensures Good(m, p)
  {
    hide Extracted, Passes, ServesEverything, KeepsReserve, Feasible, DayAhead.Feasible, KeepsDailyReserve, ServesTheDay;
    match m
    case RemainingHorizon(d) =>
      var trips, timedOut :| Extracted(d, p, trips) && r.validationPassed == Passes(d, p, trips, timedOut);
      PassedPlan(d, p, trips, timedOut);
    case WholeDay(d) =>
      DayIsServed(d, p);
      DayKeepsReserve(d, p);
  }

  lemma DayKeepsReserve(d: DayAhead.Day, p: Plan)
    requires DayAhead.Feasible(d, p)
    ensures KeepsDailyReserve(d, p)
  {
    hide DayAhead.Assignment, DayAhead.Continuity, DayAhead.Charging, DayAhead.Balance, DayAhead.Exchange, DayAhead.EndOfDay;
  }

  /** The result stored for the run is that of the plan, and the plan is a good one of the run's model. */
  ghost predicate RunsPlan(db: Db, model: RunId -> Model, id: RunId, p: Plan) {
    id in db.runs && db.runs[id].result.Some? && Carries(model(id), db.runs[id].result.value, p) && Good(model(id), p)
  }

  /** What the plan exchanges in this interval, as power over the run's time step. */
  function PlannedKw(db: Db, inputs: DispatchPolicy.Registry, id: RunId, interval: int, p: Plan): real
    requires id in db.runs && DispatchPolicy.InputOf(db, inputs, id).Some?
  {
    (p.bought(interval - 1) - p.sold(interval - 1)) * 60.0 / DispatchPolicy.InputOf(db, inputs, id).value.timestepMinutes as real
  }

  /** An authorised interval is a step of a good plan of the run's own model, the plan whose series the run
      stores, and its setpoint is what that plan exchanges in that step. */
  lemma AuthorisedIsPlanned(hash: Hash, commits: seq<Commit>, inputs: DispatchPolicy.Registry, model: RunId -> Model, id: RunId, interval: int)
    returns (p: Plan)
    requires PassesOnlyResultsOf(model(id), commits, id) && DispatchPolicy.Authorised(StateAfter(hash, commits), inputs, id, interval)
    ensures var db := StateAfter(hash, commits);
            && RunsPlan(db, model, id, p) && 1 <= interval <= Steps(model(id))
            && DispatchPolicy.SetpointOf(db, inputs, id, interval) == PlannedKw(db, inputs, id, interval, p)
  {
    hide StateAfter, FeasibleFor, MarkedFor, Good, Steps;
    var k := ResultsComeFromCompletions(hash, commits, id);
    var r := commits[k].event.payload;
    p :| PublishedFrom(model(id), r, p);
    PassedIsGood(model(id), r, p);
  }

  /** The power registers hold what an authorised interval of this plan exchanges. */
  ghost predicate Delivers(db: Db, inputs: DispatchPolicy.Registry, model: RunId -> Model, s: PlcSpec.Plc, id: RunId, interval: int, p: Plan) {
    && DispatchPolicy.Authorised(db, inputs, id, interval) && RunsPlan(db, model, id, p) && 1 <= interval <= Steps(model(id))
    && OtGateway.PowerIs(s, PlannedKw(db, inputs, id, interval, p))
  }

  /** End to end: if the passing results of approved runs are results of their models, the power at the
      controller is always zero or what a plan exchanges in one step, where the plan is a good one of
      the model of a run, the run stores that plan's series, and the run is approved for that step in
      that very state. */
  lemma DeliveredPowerIsPlanned(hash: Hash, inputs: DispatchPolicy.Registry, model: RunId -> Model, steps: seq<DispatchPolicy.SystemStep>)
    requires DispatchPolicy.Supervised(hash, inputs, PlcSpec.INITIAL, steps)
    requires ReadsPast(hash, DispatchPolicy.Commits(steps)) && DispatchPolicy.ApprovedRunsAreSafe(hash, DispatchPolicy.Commits(steps))
    requires ApprovedRunsAreOptimized(hash, model, DispatchPolicy.Commits(steps))
    ensures var db, s := StateAfter(hash, DispatchPolicy.Commits(steps)), DispatchPolicy.PlcAfter(PlcSpec.INITIAL, steps);
            OtGateway.PowerIsZero(s) || exists id, interval, p :: Delivers(db, inputs, model, s, id, interval, p)
  {
    hide StateAfter, PassesOnlyResultsOf, OtGateway.PowerIs, OtGateway.PowerIsZero, RunsPlan, PlannedKw, Steps;
    hide DispatchPolicy.Supervised, ReadsPast, DispatchPolicy.ApprovedRunsAreSafe, DispatchPolicy.SetpointOf;
    var db, s := StateAfter(hash, DispatchPolicy.Commits(steps)), DispatchPolicy.PlcAfter(PlcSpec.INITIAL, steps);
    DispatchPolicy.PowerIsAlwaysJustified(hash, inputs, steps);
    if !OtGateway.PowerIsZero(s) {
      var id, interval :| DispatchPolicy.Authorised(db, inputs, id, interval)
                          && OtGateway.PowerIs(s, DispatchPolicy.SetpointOf(db, inputs, id, interval));
      var p := AuthorisedIsPlanned(hash, DispatchPolicy.Commits(steps), inputs, model, id, interval);
      assert Delivers(db, inputs, model, s, id, interval, p);
    }
  }

  // ---------------------------------------------------------------- against the envelope the dispatch checks

  function KwOf(input: DispatchPolicy.DepotInput): int -> real {
    n => if 0 <= n < |input.chargersKw| then input.chargersKw[n] else 0.0
  }

  /** No charger moves more energy in a step than its rating in the input allows. */
  ghost predicate RatedBy(m: Model, input: DispatchPolicy.DepotInput) {
    && input.timestepMinutes > 0
    && var minutes := input.timestepMinutes as real;
       match m
       case RemainingHorizon(d) =>
         && d.chargers == |input.chargersKw|
         && forall n, t :: 0 <= n < d.chargers && 0 <= t < d.steps ==> d.chargerKwh(n, t) * 60.0 <= input.chargersKw[n] * minutes
       case WholeDay(d) =>
         && d.chargers == |input.chargersKw|
         && (forall n :: 0 <= n < d.chargers ==> 0.0 <= d.beta(n) && d.beta(n) * 60.0 <= input.chargersKw[n] * minutes)
         && d.siteLimit * 60.0 <= DispatchPolicy.Total(input.chargersKw) * minutes
  }

  lemma {:induction false} TotalOfMore(values: seq<real>, x: real)
    ensures DispatchPolicy.Total(values + [x]) == DispatchPolicy.Total(values) + x
  {
    if values == [] {
      assert values + [x] == [x];
    } else {
      assert (values + [x])[1..] == values[1..] + [x];
      TotalOfMore(values[1..], x);
    }
  }

  lemma {:induction false} TotalIsSum(input: DispatchPolicy.DepotInput, n: nat)
    requires n <= |input.chargersKw|
    ensures DispatchPolicy.Total(input.chargersKw[..n]) == Sum(n, KwOf(input))
  {
    if n > 0 {
      TotalIsSum(input, n - 1);
      TotalOfMore(input.chargersKw[..n - 1], input.chargersKw[n - 1]);
      assert input.chargersKw[..n] == input.chargersKw[..n - 1] + [input.chargersKw[n - 1]];
    }
  }

  function Times(c: real, f: int -> real): int -> real {
    n => c * f(n)
  }

  lemma InOrder(x: real, kw: real, minutes: real)
    ensures x * 60.0 <= kw * minutes <==> 60.0 * x <= minutes * kw
  {
  }

  /** What all chargers can move in one step, at their ratings. */
  lemma RatingsInTotal(input: DispatchPolicy.DepotInput, kwh: int -> real)
    requires forall n :: 0 <= n < |input.chargersKw| ==> kwh(n) * 60.0 <= input.chargersKw[n] * input.timestepMinutes as real
    ensures Sum(|input.chargersKw|, kwh) * 60.0 <= DispatchPolicy.Total(input.chargersKw) * input.timestepMinutes as real
  {
    hide Sum, DispatchPolicy.Total;
    var count, minutes := |input.chargersKw|, input.timestepMinutes as real;
    TotalIsSum(input, count);
    assert input.chargersKw[..count] == input.chargersKw;
    var left, right := Times(60.0, kwh), Times(minutes, KwOf(input));
    SumScaled(count, 60.0, kwh, left);
    SumScaled(count, minutes, KwOf(input), right);
    forall n | 0 <= n < count ensures left(n) <= right(n) {
      InOrder(kwh(n), input.chargersKw[n], minutes);
    }
    SumMonotone(count, left, right);
  }

  /** One charger's discharging, bus by bus. */
  function Discharging(d: DayAhead.Day, p: Plan, t: int): (int, int) -> real {
    (k, n) => d.beta(n) * B(p.discharges(k, n, t))
  }

  function Discharges(p: Plan, n: int, t: int): int -> real {
    k => B(p.discharges(k, n, t))
  }

  /** A charger serves one bus at a time, so a day's export in a step is within the ratings too. */
  lemma DayExportIsRated(d: DayAhead.Day, p: Plan, t: nat)
    requires DayAhead.Charging(d, p) && DayAhead.Exchange(d, p) && t < d.steps && forall n :: 0 <= n < d.chargers ==> 0.0 <= d.beta(n)
    ensures p.sold(t) <= Sum(d.chargers, d.beta)
  {
    hide Sum, DayAhead.Charging;
    SumExchange(d.buses, d.chargers, Discharging(d, p, t));
    forall k | 0 <= k < d.buses ensures Sums.Column(DayAhead.DischargeTable(d, p), t)(k) == RowSums(Discharging(d, p, t), d.chargers)(k) {
      SumSame(d.chargers, DayAhead.DischargeTerm(d, p, k, t), Row(Discharging(d, p, t), k));
    }
    SumSame(d.buses, Sums.Column(DayAhead.DischargeTable(d, p), t), RowSums(Discharging(d, p, t), d.chargers));
    forall n | 0 <= n < d.chargers ensures ColumnSums(Discharging(d, p, t), d.buses)(n) <= d.beta(n) {
      OneBusDischarges(d, p, n, t);
      SumScaled(d.buses, d.beta(n), Discharges(p, n, t), Sums.Column(Discharging(d, p, t), n));
      AtMostOnce(d.beta(n), Sum(d.buses, Discharges(p, n, t)));
    }
    SumMonotone(d.chargers, ColumnSums(Discharging(d, p, t), d.buses), d.beta);
  }

  lemma OneBusDischarges(d: DayAhead.Day, p: Plan, n: nat, t: nat)
    requires DayAhead.Charging(d, p) && n < d.chargers && t < d.steps
    ensures Sum(d.buses, Discharges(p, n, t)) <= 1.0
  {
    hide Sum;
    forall k ensures Discharges(p, n, t)(k) <= PlugByBus(p, n, t)(k) {
      assert PlugByBus(p, n, t)(k) == B(p.charges(k, n, t)) + B(p.discharges(k, n, t));
    }
    SumMonotone(d.buses, Discharges(p, n, t), PlugByBus(p, n, t));
  }

  lemma AtMostOnce(x: real, times: real)
    requires x >= 0.0 && times <= 1.0
    ensures x * times <= x
  {
    assert x * (1.0 - times) >= 0.0;
    assert x * (1.0 - times) == x - x * times;
  }

  /** In every step a feasible plan buys and sells no more than the ratings allow. */
  lemma ExchangeIsRated(m: Model, input: DispatchPolicy.DepotInput, p: Plan, t: nat)
    requires FeasibleFor(m, p) && RatedBy(m, input) && t < Steps(m)
    ensures var limit := DispatchPolicy.Total(input.chargersKw) * input.timestepMinutes as real;
            0.0 <= p.bought(t) && p.bought(t) * 60.0 <= limit && 0.0 <= p.sold(t) && p.sold(t) * 60.0 <= limit
  {
    hide Sum, DispatchPolicy.Total, Coverage, UnavailableIdle, OneActivity, OneBusPerCharger, Balance, Limits;
    hide DayAhead.Assignment, DayAhead.Continuity, DayAhead.Charging, DayAhead.Balance, DayAhead.Floors, DayAhead.EndOfDay;
    match m
    case RemainingHorizon(d) => RatingsInTotal(input, ChargerRatings(d, t));
    case WholeDay(d) =>
      DayExportIsRated(d, p, t);
      RatingsInTotal(input, d.beta);
  }

  lemma QuotientWithin(x: real, total: real, minutes: real, limit: real)
    requires minutes > 0.0 && total * minutes == limit && -limit <= x <= limit
    ensures Abs(x / minutes) <= total
  {
    var kw := x / minutes;
    Arithmetic.DivideBack(x, minutes);
    Arithmetic.Cancel(kw, total, minutes);
    Arithmetic.NegatedFactor(minutes, total);
    Arithmetic.Cancel(-total, kw, minutes);
  }

  lemma DifferenceWithin(b: real, s: real, total: real, minutes: real)
    requires minutes > 0.0 && 0.0 <= b && 0.0 <= s && b * 60.0 <= total * minutes && s * 60.0 <= total * minutes
    ensures Abs((b - s) * 60.0 / minutes) <= total
  {
    QuotientWithin((b - s) * 60.0, total, minutes, total * minutes);
  }

  /** The envelope check refuses no interval of an optimizer result, unless the model lets a charger move
      more than the rating that the check adds up. */
  lemma EnvelopeNeverRefuses(db: Db, inputs: DispatchPolicy.Registry, model: RunId -> Model, id: RunId, interval: int, p: Plan)
    requires RunsPlan(db, model, id, p) && DispatchPolicy.InHorizon(db, id, interval)
    requires DispatchPolicy.InputOf(db, inputs, id).Some? && RatedBy(model(id), DispatchPolicy.InputOf(db, inputs, id).value)
    ensures DispatchPolicy.InEnvelope(db, inputs, id, interval)
  {
    hide FeasibleFor, Steps, RatedBy, DispatchPolicy.Total;
    var input := DispatchPolicy.InputOf(db, inputs, id).value;
    RatedHasMinutes(model(id), input);
    ExchangeIsRated(model(id), input, p, interval - 1);
    DifferenceWithin(p.bought(interval - 1), p.sold(interval - 1), DispatchPolicy.Total(input.chargersKw), input.timestepMinutes as real);
  }

  lemma RatedHasMinutes(m: Model, input: DispatchPolicy.DepotInput)
    requires RatedBy(m, input)
    ensures input.timestepMinutes > 0
  {
  }
}
