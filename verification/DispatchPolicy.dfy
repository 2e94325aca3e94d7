/** The ordered dispatch policy over the store, and the power it can justify at the controller. */
module DispatchPolicy {
  import opened Prelude
  import opened ModbusCodec
  import opened PlcSpec
  import opened OtGateway
  import opened RunLifecycle
  import RunRaces

  /** A registered depot input: time step and charger ratings. */
  datatype DepotInput = DepotInput(timestepMinutes: int, chargersKw: seq<real>)

  type Registry = map<(string, string), DepotInput>

  function Total(values: seq<real>): real {
    if values == [] then 0.0 else values[0] + Total(values[1..])
  }

  datatype Check = Check(code: string, passed: bool)

  const POLICY_CODES := [
    "separate_control_credential",
    "successful_candidate",
    "immutable_operator_approval",
    "approval_result_hash",
    "deterministic_validation",
    "interval_in_horizon",
    "site_capacity_envelope"]

  predicate Succeeds(db: Db, id: RunId)
    requires id in db.runs
  {
    db.runs[id].status == Succeeded
  }

  predicate HasApproval(db: Db, id: RunId) {
    id in db.approvals && db.approvals[id].approved
  }

  predicate HashBound(db: Db, id: RunId)
    requires id in db.runs
  {
    && db.runs[id].resultSha.Some? && db.runs[id].resultSha.value != ""
    && id in db.approvals && db.approvals[id].resultSha == db.runs[id].resultSha.value
  }

  predicate Validated(db: Db, id: RunId)
    requires id in db.runs
  {
    db.runs[id].result.Some? && db.runs[id].result.value.validationPassed
  }

  predicate InHorizon(db: Db, id: RunId, interval: int)
    requires id in db.runs
  {
    && db.runs[id].result.Some?
    && var p := db.runs[id].result.value;
       p.buy.Some? && p.sell.Some? && |p.buy.value| == |p.sell.value| && 1 <= interval <= |p.buy.value|
  }

  /** The input a run was optimized on, when it can be loaded and has a usable time step. */
  function InputOf(db: Db, inputs: Registry, id: RunId): Option<DepotInput>
    requires id in db.runs
  {
    var reference := (db.runs[id].inputReference, db.runs[id].inputSha);
    if reference in inputs && inputs[reference].timestepMinutes != 0 then Some(inputs[reference]) else None
  }

  /** Energy bought minus sold in the interval, as power over it. */
  function SetpointOf(db: Db, inputs: Registry, id: RunId, interval: int): real
    requires id in db.runs && InHorizon(db, id, interval) && InputOf(db, inputs, id).Some?
  {
    var p := db.runs[id].result.value;
    (p.buy.value[interval - 1] - p.sell.value[interval - 1]) * 60.0 / InputOf(db, inputs, id).value.timestepMinutes as real
  }

  predicate InEnvelope(db: Db, inputs: Registry, id: RunId, interval: int)
    requires id in db.runs && InHorizon(db, id, interval) && InputOf(db, inputs, id).Some?
  {
    Abs(SetpointOf(db, inputs, id, interval)) <= Total(InputOf(db, inputs, id).value.chargersKw) + ENVELOPE_TOLERANCE
  }

  /** An interval whose power the operator has released: a succeeded, validated run with an
      approval bound to the hash of its result, inside its horizon and the site envelope. */
  predicate Authorised(db: Db, inputs: Registry, id: RunId, interval: int) {
    && id in db.runs && Succeeds(db, id) && HasApproval(db, id) && HashBound(db, id) && Validated(db, id)
    && InHorizon(db, id, interval)
    && InputOf(db, inputs, id).Some? && InEnvelope(db, inputs, id, interval)
  }

  /** Authorisation in the columns of the two rows and the registered input. */
  lemma AuthorisedByRows(db: Db, inputs: Registry, id: RunId, interval: int)
    ensures Authorised(db, inputs, id, interval) <==>
              && id in db.runs && id in db.approvals
              && var run, approval := db.runs[id], db.approvals[id];
              && run.status == Succeeded && approval.approved
              && run.resultSha == Some(approval.resultSha) && approval.resultSha != ""
              && run.result.Some? && run.result.value.validationPassed
              && run.result.value.buy.Some? && run.result.value.sell.Some?
              && var buy, sell := run.result.value.buy.value, run.result.value.sell.value;
              && |buy| == |sell| && 1 <= interval <= |buy|
              && (run.inputReference, run.inputSha) in inputs
              && var input := inputs[(run.inputReference, run.inputSha)];
              && input.timestepMinutes != 0
              && var kw := (buy[interval - 1] - sell[interval - 1]) * 60.0 / input.timestepMinutes as real;
              && SetpointOf(db, inputs, id, interval) == kw
              && -Total(input.chargersKw) - 0.0000001 <= kw <= Total(input.chargersKw) + 0.0000001
  {
  }

  /** The site capacity is the sum of the ratings. */
  lemma {:induction false} TotalIsTheSum(a: seq<real>, b: seq<real>, x: real)
    ensures Total(a + b) == Total(a) + Total(b) && Total([x]) == x
  {
    if a == [] {
      assert [] + b == b && Total([x]) == x + Total([x][1..]);
    } else {
      TotalIsTheSum(a[1..], b, x);
      assert (a + b)[1..] == a[1..] + b;
    }
  }

  /** The controller's power is zero or is an authorised interval's power. */
  ghost predicate Justified(db: Db, inputs: Registry, s: Plc) {
    || PowerIsZero(s)
    || exists id, interval :: Authorised(db, inputs, id, interval) && PowerIs(s, SetpointOf(db, inputs, id, interval))
  }

  /** What a supervised operation may do to the controller's power. */
  ghost predicate SupervisedMove(db: Db, inputs: Registry, before: Plc, after: Plc) {
    || PowerOf(after) == PowerOf(before)
    || PowerIsZero(after)
    || exists id, interval :: Authorised(db, inputs, id, interval) && PowerIs(after, SetpointOf(db, inputs, id, interval))
  }

  /** The rows the gate decided on: the run as it was first read, and the approval read after it. */
  function View(hash: Hash, history: seq<Commit>, runsAt: nat, approvalsAt: nat): Db
    requires runsAt <= |history| && approvalsAt <= |history|
  {
    Db(StateAfter(hash, history[..runsAt]).runs, StateAfter(hash, history[..approvalsAt]).approvals)
  }

  /** An authorisation decided on rows that have since only evolved still stands, with its setpoint. */
  lemma AuthorisedEvolves(a: Db, b: Db, now: Db, inputs: Registry, id: RunId, interval: int)
    requires RunEvolves(a, now, id) && RunEvolves(b, now, id) && Authorised(Db(a.runs, b.approvals), inputs, id, interval)
    ensures Authorised(now, inputs, id, interval)
    ensures SetpointOf(now, inputs, id, interval) == SetpointOf(Db(a.runs, b.approvals), inputs, id, interval)
  {
    assert now.runs[id] == a.runs[id];
  }

  /** If every update of the approved run lands safely, whatever happens to other runs, an authorised
      interval stays authorised across every later commit, whenever the run and the approval were
      read. */
  lemma AuthorisedIsStable(hash: Hash, history: seq<Commit>, runsAt: nat, approvalsAt: nat, inputs: Registry, id: RunId, interval: int)
    requires ReadsPast(hash, history) && AllSafeFor(hash, history, id) && runsAt <= |history| && approvalsAt <= |history|
    requires Authorised(View(hash, history, runsAt, approvalsAt), inputs, id, interval)
    ensures Authorised(StateAfter(hash, history), inputs, id, interval)
    ensures SetpointOf(StateAfter(hash, history), inputs, id, interval)
         == SetpointOf(View(hash, history, runsAt, approvalsAt), inputs, id, interval)
  {
    hide ReadsPast, AllSafeFor, StateAfter, RunEvolves, Authorised, SetpointOf;
    assert history[..|history|] == history;
    RunStaysInOrder(hash, history, runsAt, |history|, id);
    RunStaysInOrder(hash, history, approvalsAt, |history|, id);
    AuthorisedEvolves(StateAfter(hash, history[..runsAt]), StateAfter(hash, history[..approvalsAt]), StateAfter(hash, history), inputs, id, interval);
  }

  lemma JustifiedEvolves(a: Db, now: Db, inputs: Registry, s: Plc)
    requires Justified(a, inputs, s) && forall id :: HasApproval(a, id) ==> RunEvolves(a, now, id)
    ensures Justified(now, inputs, s)
  {
    hide RunEvolves, HasApproval, HashBound, Validated, InHorizon, InputOf, InEnvelope, SetpointOf, PowerIs;
    if !PowerIsZero(s) {
      var id, interval :| Authorised(a, inputs, id, interval) && PowerIs(s, SetpointOf(a, inputs, id, interval));
      assert Db(a.runs, a.approvals) == a;
      AuthorisedEvolves(a, a, now, inputs, id, interval);
    }
  }

  /** A move decided on earlier rows keeps the power justified by the store as it is now, if the runs
      approved by then have only evolved. */
  lemma MoveKeepsJustified(a: Db, b: Db, now: Db, inputs: Registry, before: Plc, after: Plc)
    requires forall id :: HasApproval(b, id) ==> RunEvolves(a, now, id) && RunEvolves(b, now, id)
    requires Justified(now, inputs, before) && SupervisedMove(Db(a.runs, b.approvals), inputs, before, after)
    ensures Justified(now, inputs, after)
  {
    hide RunEvolves, HashBound, Validated, InHorizon, InputOf, InEnvelope, SetpointOf, ImportTenths, ExportTenths;
    var view := Db(a.runs, b.approvals);
    if PowerOf(after) != PowerOf(before) && !PowerIsZero(after) {
      var id, interval :| Authorised(view, inputs, id, interval) && PowerIs(after, SetpointOf(view, inputs, id, interval));
      assert HasApproval(b, id);
      AuthorisedEvolves(a, b, now, inputs, id, interval);
    }
  }

  /** A step of the whole system: a commit in the store, or a supervised move of the controller,
      decided on the run as it was after `runsAt` commits and the approval after `approvalsAt`. */
  datatype SystemStep = Committed(commit: Commit) | Moved(next: Plc, runsAt: nat, approvalsAt: nat)

  function Commits(steps: seq<SystemStep>): seq<Commit> {
    if steps == [] then []
    else Commits(steps[..|steps| - 1]) + match steps[|steps| - 1] case Committed(c) => [c] case Moved(_, _, _) => []
  }

  function PlcAfter(s: Plc, steps: seq<SystemStep>): Plc {
    if steps == [] then s
    else match steps[|steps| - 1]
         case Moved(next, _, _) => next
         case Committed(_) => PlcAfter(s, steps[..|steps| - 1])
  }

  ghost predicate SupervisedStep(hash: Hash, inputs: Registry, s: Plc, before: seq<SystemStep>, step: SystemStep) {
    step.Moved? ==>
      && step.runsAt <= |Commits(before)| && step.approvalsAt <= |Commits(before)|
      && SupervisedMove(View(hash, Commits(before), step.runsAt, step.approvalsAt), inputs, PlcAfter(s, before), step.next)
  }

  /** Histories in which only supervised operations reach the controller. */
  ghost predicate Supervised(hash: Hash, inputs: Registry, s: Plc, steps: seq<SystemStep>) {
    forall k {:trigger steps[k]} :: 0 <= k < |steps| ==> SupervisedStep(hash, inputs, s, steps[..k], steps[k])
  }

  /** Every update of an approved run lands safely. Other runs may lose updates. */
  ghost predicate ApprovedRunsAreSafe(hash: Hash, history: seq<Commit>) {
    forall id :: HasApproval(StateAfter(hash, history), id) ==> AllSafeFor(hash, history, id)
  }

  lemma HasApprovalStays(hash: Hash, history: seq<Commit>, n: nat, id: RunId)
    requires n <= |history| && HasApproval(StateAfter(hash, history[..n]), id)
    ensures HasApproval(StateAfter(hash, history), id)
  {
    ApprovalsStay(hash, history, n, id);
  }

  lemma ApprovedRunsAreSafePrefix(hash: Hash, history: seq<Commit>, n: nat)
    requires ApprovedRunsAreSafe(hash, history) && n <= |history|
    ensures ApprovedRunsAreSafe(hash, history[..n])
  {
    hide HasApproval, AllSafeFor, StateAfter;
    forall id | HasApproval(StateAfter(hash, history[..n]), id) ensures AllSafeFor(hash, history[..n], id) {
      HasApprovalStays(hash, history, n, id);
      SafeForPrefix(hash, history, n, id);
    }
  }

  lemma ApprovedRunEvolves(hash: Hash, history: seq<Commit>, n: nat, m: nat, id: RunId)
    requires ReadsPast(hash, history) && ApprovedRunsAreSafe(hash, history) && n <= |history| && m <= |history|
    requires HasApproval(StateAfter(hash, history[..m]), id)
    ensures RunEvolves(StateAfter(hash, history[..n]), StateAfter(hash, history), id)
  {
    hide HasApproval, AllSafeFor, StateAfter, ReadsPast;
    HasApprovalStays(hash, history, m, id);
    assert history[..|history|] == history;
    RunStaysInOrder(hash, history, n, |history|, id);
  }

  /** What follows the history lands safely on every run approved by then, and finds it in order. */
  ghost predicate ApprovedLandSafely(hash: Hash, history: seq<Commit>, commits: seq<Commit>) {
    forall id :: HasApproval(StateAfter(hash, history + commits), id) ==>
      RunOk(hash, StateAfter(hash, history), id) && SafeAfterFor(hash, history, commits, id)
  }

  /** So it is in every history whose approved runs are safe. */
  lemma SafeTailsLandSafely(hash: Hash, history: seq<Commit>, commits: seq<Commit>)
    requires ReadsPast(hash, history + commits) && ApprovedRunsAreSafe(hash, history + commits)
    ensures ApprovedLandSafely(hash, history, commits)
  {
    hide HasApproval, AllSafeFor, StateAfter, ReadsPast, RunOk, SafeAfterFor;
    forall id | HasApproval(StateAfter(hash, history + commits), id)
      ensures RunOk(hash, StateAfter(hash, history), id) && SafeAfterFor(hash, history, commits, id)
    {
      SafeHistoriesHaveSafeTails(hash, history, commits, id);
    }
  }

  /** End to end: however commits and supervised operations interleave, and however old the rows an
      operation decided on, in every state the controller's power is zero or that of an interval
      authorised in that very state, provided every update of an approved run lands safely. */
  lemma {:induction false} PowerIsAlwaysJustified(hash: Hash, inputs: Registry, steps: seq<SystemStep>)
    requires Supervised(hash, inputs, INITIAL, steps)
    requires ReadsPast(hash, Commits(steps)) && ApprovedRunsAreSafe(hash, Commits(steps))
    ensures Justified(StateAfter(hash, Commits(steps)), inputs, PlcAfter(INITIAL, steps))
  {
    hide Justified, SupervisedMove, StateAfter, ReadsPast, ApprovedRunsAreSafe, RunEvolves, HasApproval;
    if steps == [] {
      InitialIsJustified(hash, inputs);
    } else {
      var before, last := steps[..|steps| - 1], steps[|steps| - 1];
      SupervisedPrefix(hash, inputs, steps);
      var h, now := Commits(before), StateAfter(hash, Commits(steps));
      match last {
        case Committed(c) =>
          assert Commits(steps) == h + [c];
          assert Commits(steps)[..|h|] == h;
          ReadsPastPrefix(hash, Commits(steps), |h|);
          ApprovedRunsAreSafePrefix(hash, Commits(steps), |h|);
          PowerIsAlwaysJustified(hash, inputs, before);
          forall id | HasApproval(StateAfter(hash, h), id) ensures RunEvolves(StateAfter(hash, h), now, id) {
            ApprovedRunEvolves(hash, Commits(steps), |h|, |h|, id);
          }
          JustifiedEvolves(StateAfter(hash, h), now, inputs, PlcAfter(INITIAL, before));
        case Moved(next, runsAt, approvalsAt) =>
          assert Commits(steps) == h;
          PowerIsAlwaysJustified(hash, inputs, before);
          var a, b := StateAfter(hash, h[..runsAt]), StateAfter(hash, h[..approvalsAt]);
          forall id | HasApproval(b, id) ensures RunEvolves(a, now, id) && RunEvolves(b, now, id) {
            ApprovedRunEvolves(hash, h, runsAt, approvalsAt, id);
            ApprovedRunEvolves(hash, h, approvalsAt, approvalsAt, id);
          }
          MoveKeepsJustified(a, b, now, inputs, PlcAfter(INITIAL, before), next);
      }
    }
  }

  /** The same in the columns of the rows: power flows only while a succeeded and validated run stands
      that an operator approved, for the very result it now holds; it is that of one of its intervals to
      half a tenth of a kW, and inside the site's charging capacity. */
  lemma PowerFlowsOnlyByApproval(hash: Hash, inputs: Registry, steps: seq<SystemStep>) returns (id: RunId, interval: int)
    requires Supervised(hash, inputs, INITIAL, steps)
    requires ReadsPast(hash, Commits(steps)) && ApprovedRunsAreSafe(hash, Commits(steps))
    ensures var db, s := StateAfter(hash, Commits(steps)), PlcAfter(INITIAL, steps);
            && (s.importRaw == 0 || s.exportRaw == 0)
            && (s.importRaw != 0 || s.exportRaw != 0 ==>
                  && id in db.runs && id in db.approvals
                  && var run, approval := db.runs[id], db.approvals[id];
                  && run.status == Succeeded && approval.approved && run.resultSha == Some(approval.resultSha)
                  && run.result.Some? && run.result.value.validationPassed
                  && run.result.value.buy.Some? && run.result.value.sell.Some?
                  && var buy, sell := run.result.value.buy.value, run.result.value.sell.value;
                  && |buy| == |sell| && 1 <= interval <= |buy|
                  && (run.inputReference, run.inputSha) in inputs
                  && var input := inputs[(run.inputReference, run.inputSha)];
                  && input.timestepMinutes != 0
                  && var kw := (buy[interval - 1] - sell[interval - 1]) * 60.0 / input.timestepMinutes as real;
                  && -Total(input.chargersKw) - 0.0000001 <= kw <= Total(input.chargersKw) + 0.0000001
                  && -0.05 <= s.importRaw as real / 10.0 - s.exportRaw as real / 10.0 - kw <= 0.05)
  {
    hide StateAfter, HashBound, Validated, InHorizon, InputOf, InEnvelope, Supervised, ReadsPast, ApprovedRunsAreSafe, SetpointOf;
    hide Justified, Commits, PlcAfter;
    var db, s := StateAfter(hash, Commits(steps)), PlcAfter(INITIAL, steps);
    PowerIsAlwaysJustified(hash, inputs, steps);
    JustifiedPowerInKw(db, inputs, s);
    id, interval := 0, 0;
    if s.importRaw != 0 || s.exportRaw != 0 {
      id, interval :| Authorised(db, inputs, id, interval)
                      && Abs(RegisterKw(s.importRaw) - RegisterKw(s.exportRaw) - SetpointOf(db, inputs, id, interval)) <= 0.05;
      AuthorisedByRows(db, inputs, id, interval);
    }
  }

  lemma SupervisedPrefix(hash: Hash, inputs: Registry, steps: seq<SystemStep>)
    requires steps != [] && Supervised(hash, inputs, INITIAL, steps)
    ensures Supervised(hash, inputs, INITIAL, steps[..|steps| - 1])
    ensures SupervisedStep(hash, inputs, INITIAL, steps[..|steps| - 1], steps[|steps| - 1])
  {
    hide SupervisedStep;
    var before := steps[..|steps| - 1];
    assert forall k :: 0 <= k < |before| ==> before[..k] == steps[..k] && before[k] == steps[k];
  }

  lemma InitialIsJustified(hash: Hash, inputs: Registry)
    ensures Justified(StateAfter(hash, Commits([])), inputs, PlcAfter(INITIAL, []))
  {
  }

  /** Without that condition it fails: after the race that overwrites an approved run the approval is
      still there, and it justifies no power but zero. */
  lemma RaceLeavesPowerUnjustified(hash: Hash, inputs: Registry, id: RunId, workerId: string, payload: Payload, decidedBy: string, s: Plc)
    returns (commits: seq<Commit>)
    requires payload.validationPassed && hash(payload) != "" && !PowerIsZero(s)
    ensures ReadsPast(hash, commits) && !ApprovedRunsAreSafe(hash, commits)
    ensures HasApproval(StateAfter(hash, commits), id) && !Justified(StateAfter(hash, commits), inputs, s)
  {
    hide ReadsPast, AllSafeFor, StateAfter, PowerIs, Validated, HashBound, InHorizon;
    commits := RunRaces.CancellationOverwritesAnApprovedRun(hash, id, workerId, payload, decidedBy);
    var db := StateAfter(hash, commits);
    forall other, interval ensures !Authorised(db, inputs, other, interval) {
      assert other in db.runs ==> other == id;
    }
  }

  /** What a justified controller delivers, in kW. */
  lemma JustifiedPowerInKw(db: Db, inputs: Registry, s: Plc)
    requires Justified(db, inputs, s)
    ensures || (s.importRaw == 0 && s.exportRaw == 0)
            || exists id, interval :: Authorised(db, inputs, id, interval)
                 && Abs(RegisterKw(s.importRaw) - RegisterKw(s.exportRaw) - SetpointOf(db, inputs, id, interval)) <= 0.05
    ensures s.importRaw == 0 || s.exportRaw == 0
  {
    hide InHorizon, InputOf, InEnvelope, HashBound, Validated, SetpointOf, ImportTenths, ExportTenths;
    if !PowerIsZero(s) {
      var id, interval :| Authorised(db, inputs, id, interval) && PowerIs(s, SetpointOf(db, inputs, id, interval));
      TenthsOfSetpoint(SetpointOf(db, inputs, id, interval));
      assert RegisterKw(s.importRaw) - RegisterKw(s.exportRaw) == (s.importRaw - s.exportRaw) as real * 0.1;
    }
  }
}
