/** The supervised dispatch operation: the ordered policy gate, the gateway call, and the evidence
    rows every decision leaves behind. */
module DispatchEvidence {
  import opened Prelude
  import opened ModbusCodec
  import opened PlcSpec
  import opened PlcSimulator
  import opened ModbusClient
  import opened ReplayProtection
  import opened OtGateway
  import opened RunLifecycle
  import opened RunRepository
  import opened DispatchPolicy

  datatype Decision = Accepted | Rejected | ExchangeFailed

  datatype Action = DispatchAction | SafeStateAction

  datatype Attempt = Attempt(
    runId: Option<RunId>,
    interval: Option<int>,
    command: CommandId,
    action: Action,
    decision: Decision,
    reasonCode: string,
    setpointKw: Option<real>,
    resultSha: Option<Digest>,
    checks: seq<Check>,
    response: Option<ControllerResponse>)

  datatype SecurityEvent = SecurityEvent(eventType: string, severity: string, command: CommandId, outcome: Decision, reasonCode: string)

  /** The event that accompanies an attempt. */
  function EventOf(a: Attempt): SecurityEvent {
    var (eventType, severity) := match a.decision
      case Accepted => if a.action.SafeStateAction? then ("emergency_safe_state_activated", "high") else ("approved_dispatch_applied", "info")
      case Rejected => ("dispatch_rejected", RefusalSeverity(a.reasonCode))
      case ExchangeFailed => ("controller_exchange_failed", RefusalSeverity(a.reasonCode));
    SecurityEvent(eventType, severity, a.command, a.decision, a.reasonCode)
  }

  function RefusalSeverity(reasonCode: string): string {
    if reasonCode in {"invalid_credential", "replayed_command"} then "high" else "medium"
  }

  /** Which event it is and how severe: accepted operations by their kind, refusals of a bad credential or
      a replayed identifier high, all others medium. */
  lemma EventColumns(a: Attempt)
    ensures var e := EventOf(a);
            && e.command == a.command && e.outcome == a.decision && e.reasonCode == a.reasonCode
            && (e.eventType == "approved_dispatch_applied" <==> a.decision == Accepted && a.action == DispatchAction)
            && (e.eventType == "emergency_safe_state_activated" <==> a.decision == Accepted && a.action == SafeStateAction)
            && (e.eventType == "dispatch_rejected" <==> a.decision == Rejected)
            && (e.eventType == "controller_exchange_failed" <==> a.decision == ExchangeFailed)
            && (e.severity == "info" <==> a.decision == Accepted && a.action == DispatchAction)
            && (e.severity == "high" <==>
                  || (a.decision == Accepted && a.action == SafeStateAction)
                  || (a.decision != Accepted && (a.reasonCode == "invalid_credential" || a.reasonCode == "replayed_command")))
            && (e.severity == "medium" <==> e.severity != "info" && e.severity != "high")
  {
    assert |"approved_dispatch_applied"| == 25 && |"emergency_safe_state_activated"| == 30;
    assert |"dispatch_rejected"| == 17 && |"controller_exchange_failed"| == 26;
    assert "info"[0] != "high"[0] && |"medium"| == 6;
  }

  /** `Uncaught`: an exception the operation does not catch; it leaves no evidence row. */
  datatype Outcome =
    | Done(attempt: Attempt)
    | Rejection(attempt: Attempt, statusCode: int)
    | RunMissing
    | Uncaught

  datatype DispatchRequest = DispatchRequest(
    runId: RunId, interval: int, credentialConfigured: bool, credentialAccepted: bool, envelope: Envelope)

  /** The k-th policy condition, in the order they are checked. */
  predicate Passes(db: Db, inputs: Registry, q: DispatchRequest, k: nat)
    requires q.runId in db.runs && k < |POLICY_CODES|
  {
    if k == 0 then q.credentialConfigured && q.credentialAccepted
    else if k == 1 then Succeeds(db, q.runId)
    else if k == 2 then HasApproval(db, q.runId)
    else if k == 3 then HashBound(db, q.runId)
    else if k == 4 then Validated(db, q.runId)
    else if k == 5 then InHorizon(db, q.runId, q.interval)
    else InHorizon(db, q.runId, q.interval) && InputOf(db, inputs, q.runId).Some? && InEnvelope(db, inputs, q.runId, q.interval)
  }

  /** The first k conditions hold. */
  ghost predicate PassBelow(db: Db, inputs: Registry, q: DispatchRequest, k: nat)
    requires q.runId in db.runs && k <= |POLICY_CODES|
  {
    forall j :: 0 <= j < k ==> Passes(db, inputs, q, j)
  }

  /** The first condition that fails, or the number of conditions. */
  ghost function FirstFailing(db: Db, inputs: Registry, q: DispatchRequest): (k: nat)
    requires q.runId in db.runs
    ensures k <= |POLICY_CODES| && PassBelow(db, inputs, q, k)
    ensures k < |POLICY_CODES| ==> !Passes(db, inputs, q, k)
  {
    if exists k :: 0 <= k < |POLICY_CODES| && !Passes(db, inputs, q, k) && PassBelow(db, inputs, q, k)
    then var k :| 0 <= k < |POLICY_CODES| && !Passes(db, inputs, q, k) && PassBelow(db, inputs, q, k); k
    else NoneFails(db, inputs, q, |POLICY_CODES|); |POLICY_CODES|
  }

  lemma NoneFails(db: Db, inputs: Registry, q: DispatchRequest, n: nat)
    requires q.runId in db.runs && n <= |POLICY_CODES|
    requires !exists k :: 0 <= k < |POLICY_CODES| && !Passes(db, inputs, q, k) && PassBelow(db, inputs, q, k)
    ensures PassBelow(db, inputs, q, n)
  {
    if n > 0 {
      NoneFails(db, inputs, q, n - 1);
    }
  }

  lemma FirstFailingIs(db: Db, inputs: Registry, q: DispatchRequest, k: nat)
    requires q.runId in db.runs && k <= |POLICY_CODES| && PassBelow(db, inputs, q, k)
    requires k < |POLICY_CODES| ==> !Passes(db, inputs, q, k)
    ensures FirstFailing(db, inputs, q) == k
  {
  }

  /** The code and status a failing condition is reported with. */
  function FailureCode(q: DispatchRequest, k: nat): string
    requires k < |POLICY_CODES|
  {
    if k > 0 then POLICY_CODES[k] else if q.credentialConfigured then "invalid_credential" else "dispatch_disabled"
  }

  function FailureStatus(q: DispatchRequest, k: nat): int {
    if k > 0 then 409 else if q.credentialConfigured then 401 else 503
  }

  /** The recorded checks: the conditions below k as passed, then (unless all were evaluated) the failed one. */
  function Trail(k: nat, failed: bool): (checks: seq<Check>)
    requires k <= |POLICY_CODES| && (failed ==> k < |POLICY_CODES|)
  {
    (if k == 0 then [] else Trail(k - 1, false) + [Check(POLICY_CODES[k - 1], true)])
    + (if failed then [Check(POLICY_CODES[k], false)] else [])
  }

  /** A site without chargers: the gateway request itself is invalid. */
  predicate NoCapacity(db: Db, inputs: Registry, id: RunId)
    requires id in db.runs
  {
    InputOf(db, inputs, id).Some? && Total(InputOf(db, inputs, id).value.chargersKw) <= 0.0
  }

  /** What every attempt on this interval records. */
  function Base(db: Db, q: DispatchRequest): Attempt
    requires q.runId in db.runs
  {
    Attempt(Some(q.runId), Some(q.interval), q.envelope.id, DispatchAction, Rejected, "", None, db.runs[q.runId].resultSha, [], None)
  }

  /** What it records once the setpoint is derived and inside the envelope. */
  function Derived(db: Db, inputs: Registry, q: DispatchRequest): Attempt
    requires q.runId in db.runs && InHorizon(db, q.runId, q.interval) && InputOf(db, inputs, q.runId).Some?
  {
    Base(db, q).(checks := Trail(|POLICY_CODES|, false), setpointKw := Some(SetpointOf(db, inputs, q.runId, q.interval)))
  }

  /** The answer once the conditions on stored rows hold. `refusal` is the gateway's reason to
      refuse, if it has one, and `completed` whether its exchange with the controller succeeds. */
  ghost predicate AnsweredInterval(db: Db, inputs: Registry, configured: bool, refusal: Option<string>, completed: bool,
                                   q: DispatchRequest, r: Outcome)
    requires q.runId in db.runs && InHorizon(db, q.runId, q.interval)
  {
    if InputOf(db, inputs, q.runId).None? then r == Uncaught
    else
      var d := Derived(db, inputs, q);
      if !InEnvelope(db, inputs, q.runId, q.interval) then
        r == Rejection(d.(checks := Trail(6, true), reasonCode := POLICY_CODES[6]), 409)
      else if !configured then
        r == Rejection(d.(decision := ExchangeFailed, reasonCode := "ot_gateway_disabled"), 503)
      else if NoCapacity(db, inputs, q.runId) then r == Uncaught
      else if refusal.Some? then r == Rejection(d.(reasonCode := refusal.value), 409)
      else if !completed then r == Rejection(d.(decision := ExchangeFailed, reasonCode := "controller_unavailable"), 503)
      else
        && r.Done? && r.attempt.response.Some?
        && r.attempt == d.(decision := Accepted, reasonCode := "dispatch_applied", response := r.attempt.response)
  }

  /** The answer to a dispatch request: the first failing condition decides. */
  ghost predicate Answered(db: Db, inputs: Registry, configured: bool, refusal: Option<string>, completed: bool,
                           q: DispatchRequest, r: Outcome)
  {
    if q.runId !in db.runs then r == RunMissing
    else
      var k := FirstFailing(db, inputs, q);
      if k < 6 then r == Rejection(Base(db, q).(checks := Trail(k, true), reasonCode := FailureCode(q, k)), FailureStatus(q, k))
      else
        FirstSixPass(db, inputs, q);
        AnsweredInterval(db, inputs, configured, refusal, completed, q, r)
  }

  class DispatchEvidenceRepository {
    const store: Store
    const gateway: DispatchGateway
    const gatewayConfigured: bool
    const inputs: Registry
    var attempts: seq<Attempt>
    var events: seq<SecurityEvent>

    ghost function Plc(): PlcSpec.Plc
      reads gateway.client.plc
      requires gateway.client.plc.Valid()
    {
      gateway.client.plc.View()
    }

    /** The store is what its commits made it, and the gateway's memory what it admitted. */
    ghost predicate Valid()
      reads this, store, gateway, gateway.client.plc
    {
      store.Valid() && gateway.Valid()
    }

    /** The store justifies the controller's power as it is now. */
    ghost predicate PowerJustified()
      requires gateway.client.plc.Valid()
      reads this, store, gateway, gateway.client.plc
    {
      Justified(store.Contents(), inputs, Plc())
    }

    /** What others commit during a call lands safely on the approved runs. */
    ghost predicate OthersAreSafe(commits: seq<Commit>)
      reads this, store
    {
      ApprovedLandSafely(store.hash, store.log, commits)
    }

    /** The rows the gate decides on: the run as it is now, and the approval as it is once these
        commits have been made. */
    ghost function Gate(beforeApproval: seq<Commit>): Db
      reads this, store
    {
      Db(store.runs, StateAfter(store.hash, store.log + beforeApproval).approvals)
    }

    constructor (store: Store, gateway: DispatchGateway, gatewayConfigured: bool, inputs: Registry)
      requires store.Valid() && gateway.Valid()
      ensures Valid() && attempts == [] && events == []
      ensures gateway.client.plc.View() == INITIAL ==> PowerJustified()
      ensures this.store == store && this.gateway == gateway && this.gatewayConfigured == gatewayConfigured && this.inputs == inputs
    {
      this.store := store;
      this.gateway := gateway;
      this.gatewayConfigured := gatewayConfigured;
      this.inputs := inputs;
      attempts, events := [], [];
    }

    /** One attempt row and one event row, committed together. */
    method Persist(attempt: Attempt, eventType: string, severity: string)
      modifies this`attempts, this`events
      ensures attempts == old(attempts) + [attempt]
      ensures events == old(events) + [SecurityEvent(eventType, severity, attempt.command, attempt.decision, attempt.reasonCode)]
    {
      attempts := attempts + [attempt];
      events := events + [SecurityEvent(eventType, severity, attempt.command, attempt.decision, attempt.reasonCode)];
    }

    /** Records a refusal and reports it. */
    method Reject(attempt: Attempt, statusCode: int) returns (r: Outcome)
      requires attempt.decision != Accepted
      modifies this`attempts, this`events
      ensures r == Rejection(attempt, statusCode)
      ensures OneMoreRow(attempt)
    {
      Persist(attempt,
              if attempt.decision == ExchangeFailed then "controller_exchange_failed" else "dispatch_rejected",
              if attempt.reasonCode in {"invalid_credential", "replayed_command"} then "high" else "medium");
      r := Rejection(attempt, statusCode);
    }

    /** The evidence of one operation: exactly one attempt, and exactly the event that goes with it. */
    twostate predicate OneMoreRow(attempt: Attempt)
      reads this
    {
      attempts == old(attempts) + [attempt] && events == old(events) + [EventOf(attempt)]
    }

    /** The gateway's reason to refuse this interval now, if it has one. */
    ghost function RefusalOf(db: Db, q: DispatchRequest, now: real): Option<string>
      reads this, gateway
    {
      if q.runId in db.runs && InHorizon(db, q.runId, q.interval) && InputOf(db, inputs, q.runId).Some? then
        Refusal(gateway.policy, gateway.history, q.envelope, now, Finite(SetpointOf(db, inputs, q.runId, q.interval)),
                Total(InputOf(db, inputs, q.runId).value.chargersKw))
      else None
    }

    /** The exchange for this interval succeeds on this network: the controller takes the setpoint, and
        the acknowledgement and the readback come back. */
    ghost predicate ExchangeCompletes(db: Db, q: DispatchRequest, conduits: Conduits) {
      && q.runId in db.runs && InHorizon(db, q.runId, q.interval) && InputOf(db, inputs, q.runId).Some?
      && var kw := SetpointOf(db, inputs, q.runId, q.interval);
      && ImportTenths(kw) as real * 0.1 <= gateway.client.plc.siteCapacityKw
      && ExportTenths(kw) as real * 0.1 <= gateway.client.plc.siteCapacityKw
      && -32768 <= ImportTenths(kw) - ExportTenths(kw) <= 32767
      && Completes(conduits.write, gateway.client.retries + 1, 12) && Completes(conduits.read, gateway.client.retries + 1, 71)
    }

    /** The gateway was not asked. */
    twostate predicate NothingSent()
      requires old(gateway.client.plc.Valid()) && gateway.client.plc.Valid()
      reads gateway, gateway.client.plc
    {
      Plc() == old(Plc()) && gateway.history == old(gateway.history)
    }

    /** One policy condition: it is added to the recorded checks, and a failing one ends the
        operation with a refusal. */
    method Require(q: DispatchRequest, k: nat, passed: bool, attempt: Attempt, checks: seq<Check>, ghost gate: Db)
      returns (refused: Option<Outcome>, recorded: seq<Check>)
      requires q.runId in gate.runs && k < |POLICY_CODES| && checks == Trail(k, false) && attempt.decision == Rejected
      requires PassBelow(gate, inputs, q, k) && passed == Passes(gate, inputs, q, k)
      modifies this`attempts, this`events
      ensures passed ==> && refused == None && recorded == Trail(k + 1, false) && PassBelow(gate, inputs, q, k + 1)
                         && attempts == old(attempts) && events == old(events)
      ensures !passed ==> && FirstFailing(gate, inputs, q) == k && refused.Some?
                          && var refusal := attempt.(checks := Trail(k, true), reasonCode := FailureCode(q, k));
                             refused.value == Rejection(refusal, FailureStatus(q, k)) && OneMoreRow(refusal)
    {
      hide Passes, FirstFailing;
      TrailSteps();
      recorded := checks + [Check(POLICY_CODES[k], passed)];
      if passed {
        refused := None;
      } else {
        FirstFailingIs(gate, inputs, q, k);
        var r := Reject(attempt.(checks := recorded, reasonCode := FailureCode(q, k)), FailureStatus(q, k));
        refused := Some(r);
      }
    }

    /** The six conditions that need only the rows read, in order. */
    method PolicyGate(q: DispatchRequest, run: Run, approval: Option<Approval>, attempt: Attempt, ghost gate: Db)
      returns (refused: Option<Outcome>, checks: seq<Check>)
      requires q.runId in gate.runs && run == gate.runs[q.runId] && q.interval >= 1 && attempt.decision == Rejected
      requires approval == if q.runId in gate.approvals then Some(gate.approvals[q.runId]) else None
      modifies this`attempts, this`events
      ensures refused.None? ==> && checks == Trail(6, false) && PassBelow(gate, inputs, q, 6)
                                && attempts == old(attempts) && events == old(events)
      ensures refused.Some? ==>
                var k := FirstFailing(gate, inputs, q);
                k < 6 && refused.value == Rejection(attempt.(checks := Trail(k, true), reasonCode := FailureCode(q, k)), FailureStatus(q, k))
      ensures refused.Some? ==> refused.value.Rejection? && OneMoreRow(refused.value.attempt)
    {
      hide PassBelow, Trail, FirstFailing, FailureCode, FailureStatus;
      NothingCheckedYet(gate, inputs, q);
      refused, checks := Require(q, 0, q.credentialConfigured && q.credentialAccepted, attempt, [], gate);
      if refused.Some? { return; }
      refused, checks := Require(q, 1, run.status == Succeeded, attempt, checks, gate);
      if refused.Some? { return; }
      var approved := approval.Some? && approval.value.approved;
      refused, checks := Require(q, 2, approved, attempt, checks, gate);
      if refused.Some? { return; }
      var bound := run.resultSha.Some? && run.resultSha.value != "" && approval.value.resultSha == run.resultSha.value;
      refused, checks := Require(q, 3, bound, attempt, checks, gate);
      if refused.Some? { return; }
      var validated := run.result.Some? && run.result.value.validationPassed;
      refused, checks := Require(q, 4, validated, attempt, checks, gate);
      if refused.Some? { return; }
      var buy, sell := run.result.value.buy, run.result.value.sell;
      var inHorizon := buy.Some? && sell.Some? && |buy.value| == |sell.value| && q.interval <= |buy.value|;
      refused, checks := Require(q, 5, inHorizon, attempt, checks, gate);
    }

    /** The dispatch of one interval. Others commit between the read of the run and that of its
        approval, and again before the gateway is asked.
        The answer and what is recorded follow from the first condition that fails on the rows read,
        or else from the gateway; exactly one attempt and one event are left, except after a missing
        run and two uncaught faults, which leave none. The gateway is asked only when every condition
        holds, and an accepted attempt means that the controller carries out the derived setpoint.
        If the power was justified and what others commit is safe for the approved runs, the store as
        it is afterwards justifies the power the controller is left with. */
    method Dispatch(q: DispatchRequest, now: real, beforeApproval: seq<Commit>, beforeGateway: seq<Commit>, conduits: Conduits)
      returns (r: Outcome)
      requires Valid() && q.interval >= 1 && gateway.ClockAt(now)
      modifies this`attempts, this`events, store, gateway`seen, gateway`history, gateway.client.plc
      ensures Valid()
      ensures store.log == if q.runId in old(store.runs) then old(store.log) + beforeApproval + beforeGateway else old(store.log)
      ensures old(PowerJustified()) && old(OthersAreSafe(beforeApproval + beforeGateway)) ==> PowerJustified()
      ensures SupervisedMove(old(Gate(beforeApproval)), inputs, old(Plc()), Plc())
      ensures var gate := old(Gate(beforeApproval));
              Answered(gate, inputs, gatewayConfigured, old(RefusalOf(Gate(beforeApproval), q, now)),
                       ExchangeCompletes(old(Gate(beforeApproval)), q, conduits), q, r)
      ensures r.Done? ==> OneMoreRow(r.attempt)
      ensures r.Rejection? ==> OneMoreRow(r.attempt)
      ensures !r.Done? && !r.Rejection? ==> attempts == old(attempts) && events == old(events)
      ensures var gate := old(Gate(beforeApproval));
              q.runId !in gate.runs || FirstFailing(gate, inputs, q) < |POLICY_CODES| || r == Uncaught || !gatewayConfigured ==> NothingSent()
      ensures r.Rejection? && r.attempt.decision == Rejected ==> Plc() == old(Plc())
      ensures r.Rejection? && r.attempt.decision == ExchangeFailed && gatewayConfigured
              && gateway.client.plc.siteCapacityKw >= 0.0 && Completes(conduits.fallback, gateway.client.retries + 1, 0) ==>
                ModbusClient.Holds(Plc(), 0.0, true)
      ensures r.Done? ==> && Authorised(old(Gate(beforeApproval)), inputs, q.runId, q.interval)
                          && ModbusClient.Holds(Plc(), SetpointOf(old(Gate(beforeApproval)), inputs, q.runId, q.interval), false)
                          && r.attempt.response.Some? && r.attempt.response.value.readback == SnapshotOf(Plc())
      ensures r.Done? || r.Rejection? ==> attempts == old(attempts) + [r.attempt] && events == old(events) + [EventOf(r.attempt)]
      // in the columns of the rows read
      ensures q.runId !in old(store.runs) ==> r == RunMissing
      ensures q.runId in old(store.runs) && r.Done? ==>
                var run, approvals := old(store.runs)[q.runId], StateAfter(store.hash, old(store.log) + beforeApproval).approvals;
                && q.credentialConfigured && q.credentialAccepted && run.status == Succeeded
                && q.runId in approvals && approvals[q.runId].approved
                && run.resultSha == Some(approvals[q.runId].resultSha) && run.resultSha != Some("")
                && run.result.Some? && run.result.value.validationPassed
                && run.result.value.buy.Some? && run.result.value.sell.Some?
                && |run.result.value.buy.value| == |run.result.value.sell.value| && q.interval <= |run.result.value.buy.value|
      ensures q.runId in old(store.runs) && q.credentialConfigured && q.credentialAccepted && old(store.runs)[q.runId].status != Succeeded ==>
                r.Rejection? && r.statusCode == 409 && r.attempt.reasonCode == "successful_candidate"
      ensures q.runId in old(store.runs) && q.credentialConfigured && q.credentialAccepted && old(store.runs)[q.runId].status == Succeeded ==>
                var run, approvals := old(store.runs)[q.runId], StateAfter(store.hash, old(store.log) + beforeApproval).approvals;
                if q.runId !in approvals || !approvals[q.runId].approved then
                  r.Rejection? && r.statusCode == 409 && r.attempt.reasonCode == "immutable_operator_approval"
                else if run.resultSha != Some(approvals[q.runId].resultSha) || run.resultSha == Some("") then
                  r.Rejection? && r.statusCode == 409 && r.attempt.reasonCode == "approval_result_hash"
                else if run.result.None? || !run.result.value.validationPassed then
                  r.Rejection? && r.statusCode == 409 && r.attempt.reasonCode == "deterministic_validation"
                else if run.result.value.buy.None? || run.result.value.sell.None?
                        || |run.result.value.buy.value| != |run.result.value.sell.value| || q.interval > |run.result.value.buy.value| then
                  r.Rejection? && r.statusCode == 409 && r.attempt.reasonCode == "interval_in_horizon"
                else r == Uncaught || ((r.Done? || r.Rejection?) && |r.attempt.checks| == 7)
      ensures r.Rejection? && r.attempt.decision == Rejected && |r.attempt.checks| < 7 ==>
                gateway.client.plc.View() == old(gateway.client.plc.View()) && gateway.history == old(gateway.history)
      ensures r == RunMissing || r == Uncaught || !gatewayConfigured ==>
                gateway.client.plc.View() == old(gateway.client.plc.View()) && gateway.history == old(gateway.history)
    {
      hide Reachable, Authorised, PowerIs, ModbusClient.Holds, SetpointOf, StateAfter, Trail, FirstFailing, Justified, SupervisedMove;
      SameMove(Gate(beforeApproval), inputs, Plc());
      hide Last, Ids, SnapshotOf, InEnvelope, NoCapacity, DispatchGateway.Valid, Refusal, AnsweredInterval, ApprovedLandSafely;
      hide Answered, EventOf, SimulatedSiteController.Valid, SimulatedSiteController.View, RefusalOf, ExchangeCompletes, RowStays;
      if q.runId !in store.runs {
        return RunMissing;
      }
      ghost var gate, history := Gate(beforeApproval), store.log;
      var run, approval := ReadRows(q.runId, beforeApproval, beforeGateway);
      r := Decide(q, now, run, approval, gate, conduits);
      JustifiedAfterwards(store.hash, history, beforeApproval, beforeGateway, inputs, old(Plc()), Plc());
    }

    /** The run row, then the approval row, while others commit. */
    method ReadRows(id: RunId, beforeApproval: seq<Commit>, beforeGateway: seq<Commit>) returns (run: Run, approval: Option<Approval>)
      requires store.Valid() && id in store.runs
      modifies store
      ensures store.Valid() && store.log == old(store.log) + beforeApproval + beforeGateway
      ensures run == old(store.runs)[id]
      ensures var approvals := StateAfter(store.hash, old(store.log) + beforeApproval).approvals;
              approval == if id in approvals then Some(approvals[id]) else None
    {
      hide StateAfter;
      run := store.runs[id];
      store.PerformAll(beforeApproval);
      approval := if id in store.approvals then Some(store.approvals[id]) else None;
      store.PerformAll(beforeGateway);
    }

    /** The decision on the rows read, and the exchange with the gateway. */
    method Decide(q: DispatchRequest, now: real, run: Run, approval: Option<Approval>, ghost gate: Db, conduits: Conduits) returns (r: Outcome)
      requires gateway.Valid() && q.interval >= 1 && gateway.ClockAt(now) && q.runId in gate.runs && run == gate.runs[q.runId]
      requires approval == if q.runId in gate.approvals then Some(gate.approvals[q.runId]) else None
      modifies this`attempts, this`events, gateway`seen, gateway`history, gateway.client.plc
      ensures gateway.Valid() && SupervisedMove(gate, inputs, old(Plc()), Plc())
      ensures Answered(gate, inputs, gatewayConfigured, old(RefusalOf(gate, q, now)), ExchangeCompletes(gate, q, conduits), q, r)
      ensures r.Done? ==> OneMoreRow(r.attempt)
      ensures r.Rejection? ==> OneMoreRow(r.attempt)
      ensures !r.Done? && !r.Rejection? ==> attempts == old(attempts) && events == old(events)
      ensures FirstFailing(gate, inputs, q) < |POLICY_CODES| || r == Uncaught || !gatewayConfigured ==> NothingSent()
      ensures r.Rejection? && r.attempt.decision == Rejected ==> Plc() == old(Plc())
      ensures r.Rejection? && r.attempt.decision == ExchangeFailed && gatewayConfigured
              && gateway.client.plc.siteCapacityKw >= 0.0 && Completes(conduits.fallback, gateway.client.retries + 1, 0) ==>
                ModbusClient.Holds(Plc(), 0.0, true)
      ensures r.Done? ==> && Authorised(gate, inputs, q.runId, q.interval)
                          && ModbusClient.Holds(Plc(), SetpointOf(gate, inputs, q.runId, q.interval), false)
                          && r.attempt.response.Some? && r.attempt.response.value.readback == SnapshotOf(Plc())
      // in the columns of the rows read
      ensures r.Done? ==>
                && q.credentialConfigured && q.credentialAccepted && run.status == Succeeded
                && approval.Some? && approval.value.approved
                && run.resultSha == Some(approval.value.resultSha) && run.resultSha != Some("")
                && run.result.Some? && run.result.value.validationPassed
                && run.result.value.buy.Some? && run.result.value.sell.Some?
                && |run.result.value.buy.value| == |run.result.value.sell.value| && q.interval <= |run.result.value.buy.value|
      ensures q.credentialConfigured && q.credentialAccepted && run.status != Succeeded ==>
                r.Rejection? && r.statusCode == 409 && r.attempt.reasonCode == "successful_candidate"
      ensures q.credentialConfigured && q.credentialAccepted && run.status == Succeeded ==>
                if approval.None? || !approval.value.approved then
                  r.Rejection? && r.statusCode == 409 && r.attempt.reasonCode == "immutable_operator_approval"
                else if run.resultSha != Some(approval.value.resultSha) || run.resultSha == Some("") then
                  r.Rejection? && r.statusCode == 409 && r.attempt.reasonCode == "approval_result_hash"
                else if run.result.None? || !run.result.value.validationPassed then
                  r.Rejection? && r.statusCode == 409 && r.attempt.reasonCode == "deterministic_validation"
                else if run.result.value.buy.None? || run.result.value.sell.None?
                        || |run.result.value.buy.value| != |run.result.value.sell.value| || q.interval > |run.result.value.buy.value| then
                  r.Rejection? && r.statusCode == 409 && r.attempt.reasonCode == "interval_in_horizon"
                else r == Uncaught || ((r.Done? || r.Rejection?) && |r.attempt.checks| == 7)
      ensures r.Rejection? && r.attempt.decision == Rejected && |r.attempt.checks| < 7 ==>
                gateway.client.plc.View() == old(gateway.client.plc.View()) && gateway.history == old(gateway.history)
    {
      hide Reachable, Authorised, PowerIs, ModbusClient.Holds, SetpointOf, Trail, FirstFailing, SupervisedMove;
      SameMove(gate, inputs, Plc());
      hide Last, Ids, SnapshotOf, InEnvelope, NoCapacity, DispatchGateway.Valid, Refusal, AnsweredInterval;
      hide SimulatedSiteController.Valid, SimulatedSiteController.View, ExchangeCompletes, Completes, EventOf, Authorised;
      var attempt := Attempt(Some(q.runId), Some(q.interval), q.envelope.id, DispatchAction, Rejected, "", None, run.resultSha, [], None);
      var refused, checks := PolicyGate(q, run, approval, attempt, gate);
      FirstFailingByRows(gate, inputs, q, FirstFailing(gate, inputs, q));
      TrailsWrittenOut();
      if refused.Some? {
        return refused.value;
      }
      if Passes(gate, inputs, q, 6) {
        FirstFailingIs(gate, inputs, q, 7);
      } else {
        FirstFailingIs(gate, inputs, q, 6);
      }
      FirstSixPass(gate, inputs, q);
      r := DispatchInterval(q, now, run, attempt, checks, gate, conduits);
      IntervalByRows(gate, inputs, gatewayConfigured, old(RefusalOf(gate, q, now)), ExchangeCompletes(gate, q, conduits), q, r);
    }

    /** The part after the horizon check: input, setpoint, envelope, gateway. */
    method DispatchInterval(q: DispatchRequest, now: real, run: Run, attempt: Attempt, checks: seq<Check>, ghost gate: Db, conduits: Conduits)
      returns (r: Outcome)
      requires gateway.Valid() && gateway.ClockAt(now)
      requires q.runId in gate.runs && run == gate.runs[q.runId] && PassBelow(gate, inputs, q, 6) && InHorizon(gate, q.runId, q.interval)
      requires checks == Trail(6, false) && attempt == Base(gate, q)
      modifies this`attempts, this`events, gateway`seen, gateway`history, gateway.client.plc
      ensures gateway.Valid() && SupervisedMove(gate, inputs, old(Plc()), Plc())
      ensures AnsweredInterval(gate, inputs, gatewayConfigured, old(RefusalOf(gate, q, now)), ExchangeCompletes(gate, q, conduits), q, r)
      ensures r.Done? || r.Rejection? || r.Uncaught?
      ensures r.Done? ==> OneMoreRow(r.attempt)
      ensures r.Rejection? ==> OneMoreRow(r.attempt)
      ensures r.Uncaught? ==> attempts == old(attempts) && events == old(events)
      ensures !Passes(gate, inputs, q, 6) || r == Uncaught || !gatewayConfigured ==> NothingSent()
      ensures r.Rejection? && r.attempt.decision == Rejected ==> Plc() == old(Plc())
      ensures r.Rejection? && r.attempt.decision == ExchangeFailed && gatewayConfigured
              && gateway.client.plc.siteCapacityKw >= 0.0 && Completes(conduits.fallback, gateway.client.retries + 1, 0) ==>
                ModbusClient.Holds(Plc(), 0.0, true)
      ensures r.Done? ==> && Authorised(gate, inputs, q.runId, q.interval)
                          && ModbusClient.Holds(Plc(), SetpointOf(gate, inputs, q.runId, q.interval), false)
                          && r.attempt.response.Some? && r.attempt.response.value.readback == SnapshotOf(Plc())
    {
      hide Reachable, PowerIs, ModbusClient.Holds, Trail, SupervisedMove;
      hide Last, Ids, Admissible, Refusal, WindowRefusal, SnapshotOf, Exchanged, Completes, FirstComplete, React, Core, EncodeDispatch;
      hide SimulatedSiteController.Valid, SimulatedSiteController.View, ImportTenths, ExportTenths, PowerOf, PowerIsZero;
      hide Succeeds, HasApproval, HashBound, Validated;
      hide PassBelow, FirstFailing, Total, RefusalSeverity;
      SameMove(gate, inputs, Plc());
      FirstSixPass(gate, inputs, q);
      TrailSteps();
      var reference := (run.inputReference, run.inputSha);
      if reference !in inputs {
        return Uncaught;
      }
      var input := inputs[reference];
      if input.timestepMinutes == 0 {
        return Uncaught;
      }
      var capacityKw := Total(input.chargersKw);
      var index := q.interval - 1;
      var setpointKw := (run.result.value.buy.value[index] - run.result.value.sell.value[index]) * 60.0 / input.timestepMinutes as real;
      assert setpointKw == SetpointOf(gate, inputs, q.runId, q.interval);
      var inside := Abs(setpointKw) <= capacityKw + ENVELOPE_TOLERANCE;
      assert inside <==> InEnvelope(gate, inputs, q.runId, q.interval);
      var refused, all := Require(q, 6, inside, attempt.(setpointKw := Some(setpointKw)), checks, gate);
      if refused.Some? { return refused.value; }
      assert Authorised(gate, inputs, q.runId, q.interval);
      if !gatewayConfigured {
        r := Reject(attempt.(checks := all, decision := ExchangeFailed, reasonCode := "ot_gateway_disabled", setpointKw := Some(setpointKw)), 503);
        return;
      }
      if capacityKw <= 0.0 {
        return Uncaught;
      }
      r := Send(q.envelope, now, setpointKw, capacityKw, run.resultSha.value,
                attempt.(checks := all, setpointKw := Some(setpointKw)), conduits);
      DispatchedMove(gate, inputs, q.runId, q.interval, old(Plc()), Plc());
    }

    /** The gateway is asked, and its answer recorded. */
    method Send(envelope: Envelope, now: real, kw: real, capacityKw: real, resultSha: Digest, attempt: Attempt, conduits: Conduits)
      returns (r: Outcome)
      requires gateway.Valid() && gateway.ClockAt(now) && attempt.decision == Rejected && attempt.action == DispatchAction
      modifies this`attempts, this`events, gateway`seen, gateway`history, gateway.client.plc
      ensures gateway.Valid() && (r.Done? || r.Rejection?) && OneMoreRow(r.attempt)
      ensures var refusal := old(Refusal(gateway.policy, gateway.history, envelope, now, Finite(kw), capacityKw));
              var completed := && ImportTenths(kw) as real * 0.1 <= gateway.client.plc.siteCapacityKw
                               && ExportTenths(kw) as real * 0.1 <= gateway.client.plc.siteCapacityKw
                               && -32768 <= ImportTenths(kw) - ExportTenths(kw) <= 32767
                               && Completes(conduits.write, gateway.client.retries + 1, 12)
                               && Completes(conduits.read, gateway.client.retries + 1, 71);
              if refusal.Some? then
                r == Rejection(attempt.(reasonCode := refusal.value), 409) && Plc() == old(Plc())
              else if !completed then
                && r == Rejection(attempt.(decision := ExchangeFailed, reasonCode := "controller_unavailable"), 503)
                && (gateway.client.plc.siteCapacityKw >= 0.0 && Completes(conduits.fallback, gateway.client.retries + 1, 0) ==>
                      ModbusClient.Holds(Plc(), 0.0, true))
              else
                && r.Done? && r.attempt.response.Some?
                && r.attempt == attempt.(decision := Accepted, reasonCode := "dispatch_applied", response := r.attempt.response)
                && ModbusClient.Holds(Plc(), kw, false) && r.attempt.response.value.readback == SnapshotOf(Plc())
      ensures || PowerOf(Plc()) == PowerOf(old(Plc())) || PowerIsZero(Plc()) || PowerIs(Plc(), kw)
              || ModbusClient.Holds(Plc(), kw, false)
    {
      hide Reachable, PowerIs, ModbusClient.Holds, PowerOf, PowerIsZero, ImportTenths, ExportTenths;
      hide Last, Ids, Admissible, Refusal, WindowRefusal, SnapshotOf, Exchanged, Completes, FirstComplete, React, Core, EncodeDispatch;
      hide SimulatedSiteController.Valid, SimulatedSiteController.View;
      var sent := gateway.Dispatch(GatewayCommand(envelope, Finite(kw), capacityKw, resultSha), now, conduits);
      if sent.Err? {
        match sent.error {
          case Policy(code) =>
            r := Reject(attempt.(reasonCode := code), 409);
          case Unavailable(code, _) =>
            r := Reject(attempt.(decision := ExchangeFailed, reasonCode := code), 503);
        }
        return;
      }
      var accepted := attempt.(decision := Accepted, reasonCode := "dispatch_applied", response := Some(sent.value));
      Persist(accepted, "approved_dispatch_applied", "info");
      r := Done(accepted);
    }

    /** The emergency operation: a separate credential, one attempt and one event in every case;
        accepted means the controller is at zero power in safe state. An admitted request is carried out
        as soon as one attempt arrives, whatever comes back. */
    method SafeState(credentialConfigured: bool, credentialAccepted: bool, envelope: Envelope, now: real, conduits: Conduits) returns (r: Outcome)
      requires Valid() && gateway.ClockAt(now)
      modifies this`attempts, this`events, gateway`seen, gateway`history, gateway.client.plc
      ensures Valid() && (old(PowerJustified()) ==> PowerJustified())
      ensures SupervisedMove(store.Contents(), inputs, old(Plc()), Plc())
      ensures var refusal := old(AdmissionRefusal(gateway.policy, gateway.history, envelope, now));
              if !credentialConfigured then
                r.Rejection? && r.statusCode == 503 && r.attempt.decision == Rejected && r.attempt.reasonCode == "safe_state_disabled"
              else if !credentialAccepted then
                r.Rejection? && r.statusCode == 401 && r.attempt.decision == Rejected && r.attempt.reasonCode == "invalid_credential"
              else if !gatewayConfigured then
                r.Rejection? && r.statusCode == 503 && r.attempt.decision == ExchangeFailed && r.attempt.reasonCode == "ot_gateway_disabled"
              else if refusal.Some? then
                r.Rejection? && r.statusCode == 409 && r.attempt.decision == Rejected && r.attempt.reasonCode == refusal.value
              else if gateway.client.plc.siteCapacityKw >= 0.0
                      && Completes(conduits.write, gateway.client.retries + 1, 12) && Completes(conduits.read, gateway.client.retries + 1, 71) then
                && r.Done? && r.attempt.decision == Accepted && r.attempt.reasonCode == "emergency_safe_state_activated"
                && r.attempt.setpointKw == Some(0.0) && r.attempt.response.Some?
              else
                r.Rejection? && r.statusCode == 503 && r.attempt.decision == ExchangeFailed && r.attempt.reasonCode == "safe_state_unavailable"
      ensures (r.Done? || r.Rejection?)
              && r.attempt.runId == None && r.attempt.interval == None && r.attempt.command == envelope.id && r.attempt.action == SafeStateAction
              && r.attempt.resultSha == None
              && r.attempt.checks == [Check("separate_emergency_credential", credentialConfigured && credentialAccepted)]
      ensures r.Rejection? ==> r.attempt.setpointKw == None && r.attempt.response == None
      ensures credentialConfigured && credentialAccepted && gatewayConfigured
              && old(AdmissionRefusal(gateway.policy, gateway.history, envelope, now)).None?
              && gateway.client.plc.siteCapacityKw >= 0.0 && Completes(conduits.write, gateway.client.retries + 1, 0) ==>
                ModbusClient.Holds(Plc(), 0.0, true)
      ensures (r.Done? || r.Rejection?) && OneMoreRow(r.attempt)
      ensures r.Done? ==> ModbusClient.Holds(Plc(), 0.0, true) && r.attempt.response.value.readback == SnapshotOf(Plc())
      ensures attempts == old(attempts) + [r.attempt] && events == old(events) + [EventOf(r.attempt)]
      ensures !credentialConfigured || !credentialAccepted || !gatewayConfigured ==>
                gateway.client.plc.View() == old(gateway.client.plc.View()) && gateway.history == old(gateway.history)
      ensures r.Rejection? && r.attempt.decision == Rejected ==> Plc() == old(Plc())
    {
      hide Reachable, ModbusClient.Holds, Justified, SupervisedMove, StateAfter;
      hide Last, Ids, Admissible, AdmissionRefusal, WindowRefusal, SnapshotOf, PowerOf, PowerIsZero, Exchanged, Completes, FirstComplete;
      hide SimulatedSiteController.Valid, SimulatedSiteController.View, Core;
      SameMove(store.Contents(), inputs, Plc());
      var check := Check("separate_emergency_credential", credentialConfigured && credentialAccepted);
      var attempt := Attempt(None, None, envelope.id, SafeStateAction, Rejected, "", None, None, [check], None);
      if !credentialConfigured || !credentialAccepted {
        r := Reject(attempt.(reasonCode := if !credentialConfigured then "safe_state_disabled" else "invalid_credential"),
                    if !credentialConfigured then 503 else 401);
        return;
      }
      if !gatewayConfigured {
        r := Reject(attempt.(decision := ExchangeFailed, reasonCode := "ot_gateway_disabled"), 503);
        return;
      }
      var sent := gateway.SafeState(envelope, now, conduits);
      ZeroMove(store.Contents(), inputs, old(Plc()), Plc());
      if sent.Err? {
        match sent.error {
          case Policy(code) =>
            r := Reject(attempt.(reasonCode := code), 409);
          case Unavailable(code, _) =>
            r := Reject(attempt.(decision := ExchangeFailed, reasonCode := code), 503);
        }
        return;
      }
      var accepted := attempt.(decision := Accepted, reasonCode := "emergency_safe_state_activated", setpointKw := Some(0.0), response := Some(sent.value));
      Persist(accepted, "emergency_safe_state_activated", "high");
      r := Done(accepted);
    }

    /** The heartbeat watch reaches the controller too, and keeps its power justified. Its answer and what it
        does to the controller are the gateway's. */
    method WatchController(now: real, conduits: Conduits) returns (r: Result<Snapshot, GatewayError>)
      requires Valid()
      modifies gateway`lastHeartbeat, gateway`lastHeartbeatChange, gateway.client.plc
      ensures Valid() && (old(PowerJustified()) ==> PowerJustified())
      ensures SupervisedMove(store.Contents(), inputs, old(Plc()), Plc())
      ensures var beat := BeatAfterRead(gateway.client.plc.Config(), old(Plc()), conduits.read, gateway.client.retries + 1);
              if !Completes(conduits.read, gateway.client.retries + 1, 71) then
                r == Err(Unavailable("controller_heartbeat_lost", false)) && gateway.lastHeartbeat == old(gateway.lastHeartbeat)
              else if old(gateway.lastHeartbeat) == Some(beat) && now - old(gateway.lastHeartbeatChange) >= gateway.heartbeatStaleSeconds then
                && r.Err? && r.error.Unavailable? && r.error.code == "controller_heartbeat_lost"
                && (r.error.safeStateApplied <==>
                      gateway.client.plc.siteCapacityKw >= 0.0 && Completes(conduits.fallback, gateway.client.retries + 1, 12))
                && (gateway.client.plc.siteCapacityKw >= 0.0 && Completes(conduits.fallback, gateway.client.retries + 1, 0) ==>
                      ModbusClient.Holds(Plc(), 0.0, true))
              else
                r == Ok(SnapshotOf(Plc())) && gateway.lastHeartbeat == Some(beat)
    {
      hide Reachable, ModbusClient.Holds, Justified, SupervisedMove, StateAfter, Completes, BeatAfterRead;
      hide Last, Ids, SnapshotOf, PowerOf, PowerIsZero, Core, SimulatedSiteController.Valid, SimulatedSiteController.View;
      r := gateway.ControllerStatus(now, conduits);
      ZeroMove(store.Contents(), inputs, old(Plc()), Plc());
    }

    /** A safe commit by any other party leaves the running power justified. */
    method OtherCommit(c: Commit)
      requires Valid()
      modifies store
      ensures Valid() && store.log == old(store.log) + [c] && Plc() == old(Plc())
      ensures old(PowerJustified()) && old(OthersAreSafe([c])) ==> PowerJustified()
    {
      hide Reachable, Justified, ApprovedLandSafely, Apply, StateAfter;
      ghost var history := store.log;
      store.Perform(c);
      SameMove(Db(StateAfter(store.hash, history).runs, StateAfter(store.hash, history + []).approvals), inputs, Plc());
      JustifiedAfterwards(store.hash, history, [], [c], inputs, Plc(), Plc());
      assert history + [] + [c] == store.log && [] + [c] == [c];
    }
  }

  /** A call that decided on older rows leaves a power that the store justifies afterwards. */
  lemma JustifiedAfterwards(hash: Hash, history: seq<Commit>, beforeApproval: seq<Commit>, beforeGateway: seq<Commit>, inputs: Registry,
                            before: PlcSpec.Plc, after: PlcSpec.Plc)
    requires var gate := Db(StateAfter(hash, history).runs, StateAfter(hash, history + beforeApproval).approvals);
             SupervisedMove(gate, inputs, before, after)
    ensures Justified(StateAfter(hash, history), inputs, before) && ApprovedLandSafely(hash, history, beforeApproval + beforeGateway) ==>
              Justified(StateAfter(hash, history + beforeApproval + beforeGateway), inputs, after)
  {
    hide RunOk, HasApproval, SafeAfterFor, StateAfter, RunEvolves, Justified, SupervisedMove;
    var both := beforeApproval + beforeGateway;
    if Justified(StateAfter(hash, history), inputs, before) && ApprovedLandSafely(hash, history, both) {
      assert history + both == history + beforeApproval + beforeGateway;
      var a, b, now := StateAfter(hash, history), StateAfter(hash, history + beforeApproval), StateAfter(hash, history + both);
      forall id | HasApproval(a, id) ensures RunEvolves(a, now, id) {
        assert (history + both)[..|history|] == history;
        HasApprovalStays(hash, history + both, |history|, id);
        SafeCommitsKeepRun(hash, history, both, id);
      }
      forall id | HasApproval(b, id) ensures RunEvolves(a, now, id) && RunEvolves(b, now, id) {
        assert (history + both)[..|history| + |beforeApproval|] == history + beforeApproval;
        HasApprovalStays(hash, history + both, |history| + |beforeApproval|, id);
        SafeInTwoParts(hash, history, beforeApproval, beforeGateway, id);
      }
      JustifiedEvolves(a, now, inputs, before);
      MoveKeepsJustified(a, b, now, inputs, before, after);
    }
  }

  /** A run evolves from the beginning and from the middle of what lands safely on it. */
  lemma SafeInTwoParts(hash: Hash, history: seq<Commit>, first: seq<Commit>, second: seq<Commit>, id: RunId)
    requires RunOk(hash, StateAfter(hash, history), id) && SafeAfterFor(hash, history, first + second, id)
    ensures RunEvolves(StateAfter(hash, history), StateAfter(hash, history + (first + second)), id)
    ensures RunEvolves(StateAfter(hash, history + first), StateAfter(hash, history + (first + second)), id)
  {
    hide RunOk, SafeAfterFor, StateAfter, RunEvolves;
    SafeCommitsKeepRun(hash, history, first + second, id);
    SafePrefixFor(hash, history, first + second, |first|, id);
    assert (first + second)[..|first|] == first;
    SafeCommitsKeepRun(hash, history, first, id);
    SafeSuffix(hash, history, first, second, id);
    SafeCommitsKeepRun(hash, history + first, second, id);
    assert history + first + second == history + (first + second);
  }

  lemma SafeSuffix(hash: Hash, history: seq<Commit>, first: seq<Commit>, second: seq<Commit>, id: RunId)
    requires SafeAfterFor(hash, history, first + second, id)
    ensures SafeAfterFor(hash, history + first, second, id)
  {
    hide SafeStepFor, StateAfter;
    var both := first + second;
    forall k | 0 <= k < |second| ensures SafeStepFor(hash, StateAfter(hash, history + first + second[..k]), second[k], id) {
      var n := |first| + k;
      assert both[n] == second[k] && both[..n] == first + second[..k];
      assert history + both[..n] == history + first + second[..k];
    }
  }

  // ---------------------------------------------------------------- the answer, in the columns of the rows

  /** The answer to a dispatch request in the columns of the run and approval rows, the registered input
      and the request alone: which condition is reported, with which status, and which checks are
      recorded. */
  lemma AnswerByRows(db: Db, inputs: Registry, configured: bool, refusal: Option<string>, completed: bool, q: DispatchRequest, r: Outcome)
    requires q.runId in db.runs && q.interval >= 1 && Answered(db, inputs, configured, refusal, completed, q, r)
    ensures var run := db.runs[q.runId];
            if !q.credentialConfigured then
              && r.Rejection? && r.statusCode == 503 && r.attempt.decision == Rejected && r.attempt.reasonCode == "dispatch_disabled"
              && r.attempt.checks == [Check("separate_control_credential", false)]
            else if !q.credentialAccepted then
              && r.Rejection? && r.statusCode == 401 && r.attempt.decision == Rejected && r.attempt.reasonCode == "invalid_credential"
              && r.attempt.checks == [Check("separate_control_credential", false)]
            else if run.status != Succeeded then
              && r.Rejection? && r.statusCode == 409 && r.attempt.decision == Rejected && r.attempt.reasonCode == "successful_candidate"
              && r.attempt.checks == [Check("separate_control_credential", true), Check("successful_candidate", false)]
            else if q.runId !in db.approvals || !db.approvals[q.runId].approved then
              && r.Rejection? && r.statusCode == 409 && r.attempt.decision == Rejected && r.attempt.reasonCode == "immutable_operator_approval"
              && r.attempt.checks == [Check("separate_control_credential", true), Check("successful_candidate", true),
                                      Check("immutable_operator_approval", false)]
            else if run.resultSha != Some(db.approvals[q.runId].resultSha) || run.resultSha == Some("") then
              && r.Rejection? && r.statusCode == 409 && r.attempt.decision == Rejected && r.attempt.reasonCode == "approval_result_hash"
              && r.attempt.checks == [Check("separate_control_credential", true), Check("successful_candidate", true),
                                      Check("immutable_operator_approval", true), Check("approval_result_hash", false)]
            else if run.result.None? || !run.result.value.validationPassed then
              && r.Rejection? && r.statusCode == 409 && r.attempt.decision == Rejected && r.attempt.reasonCode == "deterministic_validation"
              && r.attempt.checks == [Check("separate_control_credential", true), Check("successful_candidate", true),
                                      Check("immutable_operator_approval", true), Check("approval_result_hash", true),
                                      Check("deterministic_validation", false)]
            else if run.result.value.buy.None? || run.result.value.sell.None?
                    || |run.result.value.buy.value| != |run.result.value.sell.value| || q.interval > |run.result.value.buy.value| then
              && r.Rejection? && r.statusCode == 409 && r.attempt.decision == Rejected && r.attempt.reasonCode == "interval_in_horizon"
              && r.attempt.checks == [Check("separate_control_credential", true), Check("successful_candidate", true),
                                      Check("immutable_operator_approval", true), Check("approval_result_hash", true),
                                      Check("deterministic_validation", true), Check("interval_in_horizon", false)]
            else AnsweredInterval(db, inputs, configured, refusal, completed, q, r)
    ensures r.Rejection? ==>
              && r.attempt.response == None && r.attempt.runId == Some(q.runId) && r.attempt.interval == Some(q.interval) && r.attempt.command == q.envelope.id
              && r.attempt.action == DispatchAction && r.attempt.resultSha == db.runs[q.runId].resultSha
  {
    hide Passes, InEnvelope, SetpointOf, InputOf, FirstFailing, NoCapacity, Trail;
    var k := FirstFailing(db, inputs, q);
    FirstFailingByRows(db, inputs, q, k);
    TrailsWrittenOut();
    if k >= 6 {
      FirstSixPass(db, inputs, q);
    }
  }

  lemma FirstFailingByRows(db: Db, inputs: Registry, q: DispatchRequest, k: nat)
    requires q.runId in db.runs && q.interval >= 1 && k == FirstFailing(db, inputs, q)
    ensures var run := db.runs[q.runId];
            if !q.credentialConfigured || !q.credentialAccepted then k == 0
            else if run.status != Succeeded then k == 1
            else if q.runId !in db.approvals || !db.approvals[q.runId].approved then k == 2
            else if run.resultSha != Some(db.approvals[q.runId].resultSha) || run.resultSha == Some("") then k == 3
            else if run.result.None? || !run.result.value.validationPassed then k == 4
            else if run.result.value.buy.None? || run.result.value.sell.None?
                    || |run.result.value.buy.value| != |run.result.value.sell.value| || q.interval > |run.result.value.buy.value| then k == 5
            else k >= 6
  {
    hide InEnvelope, InputOf, FirstFailing;
    assert PassBelow(db, inputs, q, k);
    assert k > 0 ==> Passes(db, inputs, q, 0);
    assert k > 1 ==> Passes(db, inputs, q, 1);
    assert k > 2 ==> Passes(db, inputs, q, 2);
    assert k > 3 ==> Passes(db, inputs, q, 3);
    assert k > 4 ==> Passes(db, inputs, q, 4);
    assert k > 5 ==> Passes(db, inputs, q, 5);
    assert k < 7 ==> !Passes(db, inputs, q, k);
  }

  lemma TrailsWrittenOut()
    ensures Trail(0, true) == [Check("separate_control_credential", false)]
    ensures Trail(1, true) == [Check("separate_control_credential", true), Check("successful_candidate", false)]
    ensures Trail(2, true) == [Check("separate_control_credential", true), Check("successful_candidate", true),
                               Check("immutable_operator_approval", false)]
    ensures Trail(3, true) == [Check("separate_control_credential", true), Check("successful_candidate", true),
                               Check("immutable_operator_approval", true), Check("approval_result_hash", false)]
    ensures Trail(4, true) == [Check("separate_control_credential", true), Check("successful_candidate", true),
                               Check("immutable_operator_approval", true), Check("approval_result_hash", true),
                               Check("deterministic_validation", false)]
    ensures Trail(5, true) == [Check("separate_control_credential", true), Check("successful_candidate", true),
                               Check("immutable_operator_approval", true), Check("approval_result_hash", true),
                               Check("deterministic_validation", true), Check("interval_in_horizon", false)]
    ensures Trail(6, false) == [Check("separate_control_credential", true), Check("successful_candidate", true),
                                Check("immutable_operator_approval", true), Check("approval_result_hash", true),
                                Check("deterministic_validation", true), Check("interval_in_horizon", true)]
  {
    hide Trail;
    TrailSteps();
  }

  /** The same for an interval of an approved schedule: input, envelope, gateway, site, refusal, exchange. */
  lemma IntervalByRows(db: Db, inputs: Registry, configured: bool, refusal: Option<string>, completed: bool, q: DispatchRequest, r: Outcome)
    requires q.runId in db.runs && InHorizon(db, q.runId, q.interval)
    requires AnsweredInterval(db, inputs, configured, refusal, completed, q, r)
    ensures var run := db.runs[q.runId];
            var reference := (run.inputReference, run.inputSha);
            if reference !in inputs || inputs[reference].timestepMinutes == 0 then r == Uncaught
            else
              var kw := (run.result.value.buy.value[q.interval - 1] - run.result.value.sell.value[q.interval - 1]) * 60.0
                        / inputs[reference].timestepMinutes as real;
              var capacityKw := Total(inputs[reference].chargersKw);
              if kw > capacityKw + 0.0000001 || -kw > capacityKw + 0.0000001 then
                && r.Rejection? && r.statusCode == 409 && r.attempt.decision == Rejected && r.attempt.reasonCode == "site_capacity_envelope"
                && |r.attempt.checks| == 7 && r.attempt.checks[6] == Check("site_capacity_envelope", false)
              else if !configured then
                r.Rejection? && r.statusCode == 503 && r.attempt.decision == ExchangeFailed && r.attempt.reasonCode == "ot_gateway_disabled"
              else if capacityKw <= 0.0 then r == Uncaught
              else if refusal.Some? then
                r.Rejection? && r.statusCode == 409 && r.attempt.decision == Rejected && r.attempt.reasonCode == refusal.value
              else if !completed then
                r.Rejection? && r.statusCode == 503 && r.attempt.decision == ExchangeFailed && r.attempt.reasonCode == "controller_unavailable"
              else
                r.Done? && r.attempt.decision == Accepted && r.attempt.reasonCode == "dispatch_applied" && r.attempt.response.Some?
    ensures r.Done? || r.Rejection? ==>
              && r.attempt.runId == Some(q.runId) && r.attempt.interval == Some(q.interval) && r.attempt.command == q.envelope.id
              && r.attempt.action == DispatchAction && r.attempt.resultSha == db.runs[q.runId].resultSha
              && (InputOf(db, inputs, q.runId).Some? ==> r.attempt.setpointKw == Some(SetpointOf(db, inputs, q.runId, q.interval)))
              && |r.attempt.checks| == 7
              && r.attempt.checks[..6] == [Check("separate_control_credential", true), Check("successful_candidate", true),
                                           Check("immutable_operator_approval", true), Check("approval_result_hash", true),
                                           Check("deterministic_validation", true), Check("interval_in_horizon", true)]
              && r.attempt.checks[6].code == "site_capacity_envelope"
  {
    hide Trail, Total;
    TrailSteps();
    TrailsWrittenOut();
  }

  lemma SameMove(db: Db, inputs: Registry, s: PlcSpec.Plc)
    ensures SupervisedMove(db, inputs, s, s)
  {
  }

  /** A move that keeps the power or sets it to zero is always justified. */
  lemma ZeroMove(db: Db, inputs: Registry, before: PlcSpec.Plc, after: PlcSpec.Plc)
    requires PowerOf(after) == PowerOf(before) || PowerIsZero(after)
    ensures SupervisedMove(db, inputs, before, after)
    ensures Justified(db, inputs, before) ==> Justified(db, inputs, after)
  {
    hide Authorised;
  }

  lemma DispatchedMove(db: Db, inputs: Registry, id: RunId, interval: int, before: PlcSpec.Plc, after: PlcSpec.Plc)
    requires Authorised(db, inputs, id, interval)
    requires || PowerOf(after) == PowerOf(before) || PowerIsZero(after)
             || PowerIs(after, SetpointOf(db, inputs, id, interval))
             || ModbusClient.Holds(after, SetpointOf(db, inputs, id, interval), false)
    ensures SupervisedMove(db, inputs, before, after)
  {
  }

  lemma FirstSixPass(db: Db, inputs: Registry, q: DispatchRequest)
    requires q.runId in db.runs && PassBelow(db, inputs, q, 6)
    ensures Succeeds(db, q.runId) && HasApproval(db, q.runId) && HashBound(db, q.runId) && Validated(db, q.runId)
    ensures InHorizon(db, q.runId, q.interval)
  {
    assert Passes(db, inputs, q, 1) && Passes(db, inputs, q, 2) && Passes(db, inputs, q, 3);
    assert Passes(db, inputs, q, 4) && Passes(db, inputs, q, 5);
  }

  lemma NothingCheckedYet(db: Db, inputs: Registry, q: DispatchRequest)
    requires q.runId in db.runs
    ensures Trail(0, false) == [] && PassBelow(db, inputs, q, 0)
  {
  }

  lemma TrailSteps()
    ensures Trail(0, false) == []
    ensures forall k :: 0 <= k < |POLICY_CODES| ==> Trail(k + 1, false) == Trail(k, false) + [Check(POLICY_CODES[k], true)]
    ensures forall k :: 0 <= k < |POLICY_CODES| ==> Trail(k, true) == Trail(k, false) + [Check(POLICY_CODES[k], false)]
  {
    forall k | 0 <= k < |POLICY_CODES|
      ensures Trail(k + 1, false) == Trail(k, false) + [Check(POLICY_CODES[k], true)]
      ensures Trail(k, true) == Trail(k, false) + [Check(POLICY_CODES[k], false)]
    {
    }
  }
}
