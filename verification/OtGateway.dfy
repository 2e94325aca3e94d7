/** The supervisory gateway: freshness window, replay memory, power envelope, then the PLC exchange,
    with a best-effort zero-power fallback. */
module OtGateway {
  import opened Prelude
  import opened Rounding
  import opened ModbusCodec
  import opened PlcSpec
  import opened PlcSimulator
  import opened ModbusClient
  import opened WireFormat
  import opened ReplayProtection

  const MAX_UNSIGNED_POWER_KW := 6553.5
  const ENVELOPE_TOLERANCE := 0.0000001

  /** A setpoint as received: a float may be infinite or not a number. */
  datatype Power = Finite(kw: real) | NonFinite

  datatype GatewayCommand = GatewayCommand(envelope: Envelope, setpoint: Power, siteCapacityKw: real, resultSha: string)

  /** What the network does during one gateway call: to the command, to the readback, to the fallback. */
  datatype Conduits = Conduits(write: Conduit, read: Conduit, fallback: Conduit)

  datatype GatewayError =
    | Policy(code: string)
    | Unavailable(code: string, safeStateApplied: bool)

  datatype ControllerResponse = ControllerResponse(
    commandId: CommandId, frame: Bytes, responseFrame: Bytes, setpointKw: real, readback: Snapshot, transportAttempts: nat)

  function WindowCode(f: WindowFault): string {
    match f
    case InvalidWindow => "invalid_command_window"
    case FutureCommand => "future_command"
    case StaleCommand => "stale_command"
  }

  /** Why a power request may not be sent at all. */
  function EnvelopeRefusal(setpoint: Power, siteCapacityKw: real): Option<string> {
    match setpoint
    case NonFinite => Some("non_finite_setpoint")
    case Finite(kw) =>
      if Abs(kw) > Min(siteCapacityKw, MAX_UNSIGNED_POWER_KW) + ENVELOPE_TOLERANCE then Some("unsafe_setpoint") else None
  }

  /** Why a command may not be admitted: its window first, then its identifier. */
  function AdmissionRefusal(p: FreshnessPolicy, history: seq<Admission>, e: Envelope, now: real): (r: Option<string>)
    ensures r.None? <==> Admissible(p, history, e, now)
  {
    match WindowRefusal(p, e, now)
    case Some(f) => Some(WindowCode(f))
    case None => if e.id in Last(Ids(history), p.cacheSize) then Some("replayed_command") else None
  }

  /** The first reason, in the gateway's order, to refuse without touching the controller. */
  function Refusal(p: FreshnessPolicy, history: seq<Admission>, e: Envelope, now: real, setpoint: Power, siteCapacityKw: real): Option<string> {
    match AdmissionRefusal(p, history, e, now)
    case Some(code) => Some(code)
    case None => EnvelopeRefusal(setpoint, siteCapacityKw)
  }

  /** Window and replay checks together. */
  lemma AdmissionByParts(p: FreshnessPolicy, history: seq<Admission>, e: Envelope, now: real)
    ensures WindowRefusal(p, e, now).Some? ==> AdmissionRefusal(p, history, e, now) == Some(WindowCode(WindowRefusal(p, e, now).value))
    ensures WindowRefusal(p, e, now).None? && e.id in Last(Ids(history), p.cacheSize) ==>
              AdmissionRefusal(p, history, e, now) == Some("replayed_command")
  {
  }

  /** The refusals in the times of the command and the positions of the history: an identifier is refused
      exactly when one of the last `cacheSize` admissions had it. */
  lemma AdmissionCodes(p: FreshnessPolicy, history: seq<Admission>, e: Envelope, now: real)
    ensures var r := AdmissionRefusal(p, history, e, now);
            && (r == Some("invalid_command_window") <==> e.expiresAt <= e.issuedAt)
            && (r == Some("future_command") <==> e.issuedAt < e.expiresAt && now + p.maxSkew < e.issuedAt)
            && (r == Some("stale_command") <==> && e.issuedAt < e.expiresAt && e.issuedAt <= now + p.maxSkew
                                                && (now > e.expiresAt || now - e.issuedAt > p.maxAge))
            && (r == Some("replayed_command") <==>
                  && e.issuedAt < e.expiresAt && e.issuedAt <= now + p.maxSkew && now <= e.expiresAt && now - e.issuedAt <= p.maxAge
                  && exists k :: 0 <= k < |history| && |history| - p.cacheSize <= k && history[k].envelope.id == e.id)
            && (r.Some? ==> r.value in {"invalid_command_window", "future_command", "stale_command", "replayed_command"})
  {
    RememberedByPosition(p, history, e.id);
    assert |WindowCode(InvalidWindow)| == 22 && |WindowCode(FutureCommand)| == 14 && |WindowCode(StaleCommand)| == 13;
    assert |"replayed_command"| == 16;
  }

  lemma RememberedByPosition(p: FreshnessPolicy, history: seq<Admission>, id: CommandId)
    ensures id in Last(Ids(history), p.cacheSize)
       <==> exists k :: 0 <= k < |history| && |history| - p.cacheSize <= k && history[k].envelope.id == id
  {
    hide Ids;
    var ids := Ids(history);
    if exists k :: 0 <= k < |history| && |history| - p.cacheSize <= k && history[k].envelope.id == id {
      var k :| 0 <= k < |history| && |history| - p.cacheSize <= k && history[k].envelope.id == id;
      var remembered := Last(ids, p.cacheSize);
      assert remembered[if |ids| <= p.cacheSize then k else k - (|ids| - p.cacheSize)] == ids[k];
    }
    if id in Last(ids, p.cacheSize) {
      var j :| 0 <= j < |Last(ids, p.cacheSize)| && Last(ids, p.cacheSize)[j] == id;
      var k := if |ids| <= p.cacheSize then j else j + (|ids| - p.cacheSize);
      assert history[k].envelope.id == id;
    }
  }

  /** A power request is refused when it is not a number, or beyond the site capacity or the 6553.5 kW of
      a register, by more than a tenth of a milliwatt. */
  lemma EnvelopeCodes(setpoint: Power, siteCapacityKw: real)
    ensures var r := EnvelopeRefusal(setpoint, siteCapacityKw);
            && (r == Some("non_finite_setpoint") <==> setpoint.NonFinite?)
            && (r == Some("unsafe_setpoint") <==>
                  && setpoint.Finite?
                  && (|| setpoint.kw > siteCapacityKw + 0.0000001 || setpoint.kw > 6553.5 + 0.0000001
                      || -setpoint.kw > siteCapacityKw + 0.0000001 || -setpoint.kw > 6553.5 + 0.0000001))
            && (r.Some? ==> r.value in {"non_finite_setpoint", "unsafe_setpoint"})
  {
    assert |"non_finite_setpoint"| == 19 && |"unsafe_setpoint"| == 15;
  }

  /** The frames of a response: the command encoded under the low 16 bits of its identifier, and an
      acknowledgement of it. */
  predicate Exchanged(id: CommandId, setpointKw: real, safeState: bool, frame: Bytes, response: Bytes) {
    && EncodeDispatch(setpointKw, id % 0x1_0000, 1, safeState) == Ok(frame)
    && DecodeWriteResponse(response, id % 0x1_0000, 1).Ok?
  }

  /** Those frames, byte by byte. */
  lemma ExchangedFrames(id: CommandId, setpointKw: real, safeState: bool, f: Bytes, a: Bytes)
    requires Exchanged(id, setpointKw, safeState, f, a)
    ensures && |f| == 19 && f[0] as int * 256 + f[1] as int == id % 65536 && f[6] == 1 && f[7] == 16
            && f[13] as int * 256 + f[14] as int == RoundHalfEven(Max(setpointKw, 0.0) * 10.0)
            && f[15] as int * 256 + f[16] as int == RoundHalfEven(Max(-setpointKw, 0.0) * 10.0)
            && f[17] == 0 && f[18] == (if safeState then 1 else 0)
    ensures && |a| == 12 && a[0] as int * 256 + a[1] as int == id % 65536 && a[6] == 1 && a[7] == 16
            && a[8] as int * 256 + a[9] as int == 100 && a[10] as int * 256 + a[11] as int == 3
  {
    hide EncodeDispatch, DecodeWriteResponse, EncodeWriteResponse, RoundHalfEven;
    CommandFrame(setpointKw, id % 0x1_0000, 1, safeState);
    WriteResponseIffAcknowledged(a, id % 0x1_0000, 1);
    AcknowledgementFrame(id % 0x1_0000, 1);
  }

  // ---------------------------------------------------------------- what an exchange can do to the power

  /** The commanded power, in tenths: import and export registers. */
  function PowerOf(s: Plc): (int, int) {
    (s.importRaw, s.exportRaw)
  }

  predicate PowerIsZero(s: Plc) {
    PowerOf(s) == (0, 0)
  }

  /** The power registers hold this setpoint, to the nearest tenth of a kW. */
  predicate PowerIs(s: Plc, setpointKw: real) {
    PowerOf(s) == (ImportTenths(setpointKw), ExportTenths(setpointKw))
  }

  /** What a command frame leaves behind, up to the heartbeat: the old registers if no attempt arrived,
      those after one request otherwise. */
  predicate LeftBy(cfg: PlcConfig, before: Plc, setpointKw: real, transactionId: U16, safeState: bool, arrived: bool, after: Plc)
    requires EncodeDispatch(setpointKw, transactionId, 1, safeState).Ok?
  {
    Core(after) == if arrived then Core(React(cfg, before, EncodeDispatch(setpointKw, transactionId, 1, safeState).value, true).next)
                   else Core(before)
  }

  /** A command frame, however often it arrives, leaves the power as it was or sets it to the
      encoded setpoint. */
  lemma CorePower(cfg: PlcConfig, before: Plc, setpointKw: real, transactionId: U16, safeState: bool, arrived: bool, after: Plc)
    requires EncodeDispatch(setpointKw, transactionId, 1, safeState).Ok?
    requires LeftBy(cfg, before, setpointKw, transactionId, safeState, arrived, after)
    ensures PowerOf(after) == PowerOf(before) || PowerIs(after, setpointKw)
  {
    hide React, EncodeDispatch, DecodeDispatch;
    var frame := EncodeDispatch(setpointKw, transactionId, 1, safeState).value;
    WriteAcceptance(cfg, before, frame, true);
    DispatchRoundTrip(setpointKw, transactionId, 1, safeState);
    CoreKeepsPower(after, before);
    CoreKeepsPower(after, React(cfg, before, frame, true).next);
  }

  /** A command that the controller acknowledges is held once an attempt has arrived. */
  lemma CoreHolds(cfg: PlcConfig, before: Plc, setpointKw: real, transactionId: U16, safeState: bool, arrived: bool, after: Plc)
    requires EncodeDispatch(setpointKw, transactionId, 1, safeState).Ok?
    requires LeftBy(cfg, before, setpointKw, transactionId, safeState, arrived, after)
    ensures var i, e := ImportTenths(setpointKw), ExportTenths(setpointKw);
            && arrived && i as real * 0.1 <= cfg.siteCapacityKw && e as real * 0.1 <= cfg.siteCapacityKw
            && -32768 <= i - e <= 32767 && (safeState ==> i == 0 && e == 0)
            ==> Holds(after, setpointKw, safeState)
  {
    hide React, EncodeDispatch, Holds, Core, ImportTenths, ExportTenths;
    CommandAnswer(cfg, before, setpointKw, transactionId, safeState);
    var reaction := React(cfg, before, EncodeDispatch(setpointKw, transactionId, 1, safeState).value, true);
    if arrived && reaction.answer == Acknowledged {
      AcknowledgedWriteHolds(cfg, before, setpointKw, transactionId, safeState);
      CoreKeepsHolds(reaction.next, after, setpointKw, safeState);
    }
  }

  lemma CoreKeepsPower(s: Plc, t: Plc)
    ensures Core(s) == Core(t) ==> PowerOf(s) == PowerOf(t)
  {
    assert PowerOf(s) == PowerOf(Core(s)) && PowerOf(t) == PowerOf(Core(t));
  }

  /** `Holds` does not look at the heartbeat. */
  lemma CoreKeepsHolds(s: Plc, t: Plc, setpointKw: real, safeState: bool)
    requires Core(s) == Core(t) && Holds(s, setpointKw, safeState)
    ensures Holds(t, setpointKw, safeState)
  {
    assert t == s.(heartbeat := t.heartbeat);
  }

  lemma ZeroSetpoint()
    ensures ImportTenths(0.0) == 0 && ExportTenths(0.0) == 0
  {
    RoundOfInteger(0);
  }

  // ---------------------------------------------------------------- the gateway

  class DispatchGateway {
    const client: ModbusTcpClient
    const policy: FreshnessPolicy
    const heartbeatStaleSeconds: real
    var seen: seq<CommandId>
    var lastHeartbeat: Option<U16>
    var lastHeartbeatChange: real
    /** Every admission so far, in order. */
    ghost var history: seq<Admission>

    ghost predicate Valid()
      reads this, client.plc
    {
      && client.plc.Valid()
      && seen == Last(Ids(history), policy.cacheSize)
      && Reachable(policy, history)
    }

    /** The clock never runs backwards past an admission. */
    ghost predicate ClockAt(now: real)
      reads this
    {
      history != [] ==> history[|history| - 1].at <= now
    }

    constructor (client: ModbusTcpClient, policy: FreshnessPolicy, heartbeatStaleSeconds: real, startedAt: real)
      requires client.plc.Valid()
      ensures Valid() && history == [] && this.client == client && this.policy == policy
      ensures this.heartbeatStaleSeconds == heartbeatStaleSeconds && lastHeartbeat == None
    {
      this.client := client;
      this.policy := policy;
      this.heartbeatStaleSeconds := heartbeatStaleSeconds;
      seen, history := [], [];
      lastHeartbeat, lastHeartbeatChange := None, startedAt;
    }

    method ValidateWindow(e: Envelope, now: real) returns (refusal: Option<string>)
      ensures refusal == match WindowRefusal(policy, e, now) case Some(f) => Some(WindowCode(f)) case None => None
      ensures refusal == Some("invalid_command_window") <==> e.expiresAt <= e.issuedAt
      ensures refusal == Some("future_command") <==> e.issuedAt < e.expiresAt && now + policy.maxSkew < e.issuedAt
      ensures refusal == Some("stale_command") <==> && e.issuedAt < e.expiresAt && e.issuedAt <= now + policy.maxSkew
                                                    && (now > e.expiresAt || now - e.issuedAt > policy.maxAge)
      ensures refusal == None <==> && e.issuedAt < e.expiresAt && e.issuedAt <= now + policy.maxSkew
                                   && now <= e.expiresAt && now - e.issuedAt <= policy.maxAge
    {
      AdmissionCodes(policy, [], e, now);
      if e.expiresAt <= e.issuedAt {
        return Some("invalid_command_window");
      }
      if e.issuedAt > now + policy.maxSkew {
        return Some("future_command");
      }
      if now > e.expiresAt || now - e.issuedAt > policy.maxAge {
        return Some("stale_command");
      }
      return None;
    }

    /** Remembers the id, forgetting the oldest ones beyond the memory size. */
    method RejectReplay(e: Envelope, now: real) returns (replayed: bool)
      requires Valid() && ClockAt(now) && WindowRefusal(policy, e, now).None?
      modifies this`seen, this`history
      ensures Valid()
      ensures replayed <==> e.id in Last(Ids(old(history)), policy.cacheSize)
      ensures history == if replayed then old(history) else old(history) + [Admission(e, now)]
    {
      hide Last, Ids, Reachable;
      if e.id in seen {
        return true;
      }
      ReachableExtends(policy, history, e, now);
      AppendToMemory(history, Admission(e, now), policy.cacheSize);
      history := history + [Admission(e, now)];
      seen := seen + [e.id];
      while |seen| > policy.cacheSize
        invariant Last(seen, policy.cacheSize) == Last(Ids(history), policy.cacheSize)
        invariant history == old(history) + [Admission(e, now)]
      {
        LastDropsFirst(seen, policy.cacheSize);
        seen := seen[1..];
      }
      LastOfShort(seen, policy.cacheSize);
      return false;
    }

    /** Zero power for the controller. It reports success exactly when the controller's acknowledgement
        comes back; without one, the command may still have been carried out. */
    method BestEffortSafeState(transactionId: U16, conduit: Conduit) returns (applied: bool)
      requires client.plc.Valid()
      modifies client.plc
      ensures client.plc.Valid()
      ensures applied <==> client.plc.siteCapacityKw >= 0.0 && Completes(conduit, client.retries + 1, 12)
      ensures client.plc.siteCapacityKw >= 0.0 && Completes(conduit, client.retries + 1, 0) ==> Holds(client.plc.View(), 0.0, true)
      ensures !Completes(conduit, client.retries + 1, 0) ==> client.plc.View() == old(client.plc.View())
      ensures PowerOf(client.plc.View()) == PowerOf(old(client.plc.View())) || PowerIsZero(client.plc.View())
    {
      hide Holds, EncodeDispatch, React, Completes, Core, ImportTenths, ExportTenths, SimulatedSiteController.Valid, SimulatedSiteController.View;
      var fallbackId := (transactionId + 2) % 0x1_0000;
      ghost var before := client.plc.View();
      EncodeDispatchDomain(0.0, fallbackId, 1, true);
      ZeroSetpoint();
      CommandAnswer(client.plc.Config(), before, 0.0, fallbackId, true);
      var r := client.WriteSetpoint(0.0, fallbackId, true, conduit);
      ghost var arrived := Completes(conduit, client.retries + 1, 0);
      CorePower(client.plc.Config(), before, 0.0, fallbackId, true, arrived, client.plc.View());
      CoreHolds(client.plc.Config(), before, 0.0, fallbackId, true, arrived, client.plc.View());
      applied := r.Ok?;
    }

    /** A command and its readback. It succeeds exactly if the controller takes the command, the
        acknowledgement comes back and the readback comes back. */
    method WriteAndReadBack(kw: real, transactionId: U16, safeState: bool, write: Conduit, read: Conduit)
      returns (r: Option<(WriteReceipt, Snapshot)>)
      requires client.plc.Valid() && EncodeDispatch(kw, transactionId, 1, safeState).Ok?
      modifies client.plc
      ensures client.plc.Valid()
      ensures var i, e := ImportTenths(kw), ExportTenths(kw);
              r.Some? <==> && i as real * 0.1 <= client.plc.siteCapacityKw && e as real * 0.1 <= client.plc.siteCapacityKw
                           && -32768 <= i - e <= 32767 && (safeState ==> i == 0 && e == 0)
                           && Completes(write, client.retries + 1, 12) && Completes(read, client.retries + 1, 71)
      ensures r.Some? ==> && Holds(client.plc.View(), kw, safeState)
                          && EncodeDispatch(kw, transactionId, 1, safeState) == Ok(r.value.0.request)
                          && DecodeWriteResponse(r.value.0.response, transactionId, 1).Ok?
                          && r.value.0.attempts == FirstComplete(write, client.retries + 1, 12)
                          && r.value.1 == SnapshotOf(client.plc.View())
      ensures Core(client.plc.View())
              == if Completes(write, client.retries + 1, 0)
                 then Core(React(client.plc.Config(), old(client.plc.View()), EncodeDispatch(kw, transactionId, 1, safeState).value, true).next)
                 else Core(old(client.plc.View()))
    {
      hide *;
      CommandAnswer(client.plc.Config(), client.plc.View(), kw, transactionId, safeState);
      var written := client.WriteSetpoint(kw, transactionId, safeState, write);
      if written.Err? {
        return None;
      }
      ghost var afterWrite := client.plc.View();
      var snapshot := client.TakeSnapshot((transactionId + 1) % 0x1_0000, read);
      if snapshot.Err? {
        return None;
      }
      CoreKeepsHolds(afterWrite, client.plc.View(), kw, safeState);
      return Some((written.value, snapshot.value));
    }

    /** A refused command never reaches the controller, though its id is remembered once its window
        and replay checks pass. Any other command is answered exactly if the controller takes it, its
        acknowledgement comes back and the readback comes back; the answer is what the controller then
        holds. In every other case zero power is asked for, and success is reported exactly if that is
        acknowledged; the controller is left as the command left it only if the fallback never arrives. */
    method Dispatch(command: GatewayCommand, now: real, conduits: Conduits) returns (r: Result<ControllerResponse, GatewayError>)
      requires Valid() && ClockAt(now)
      modifies this`seen, this`history, client.plc
      ensures Valid()
      ensures history == if Admissible(policy, old(history), command.envelope, now)
                         then old(history) + [Admission(command.envelope, now)] else old(history)
      ensures var refusal := Refusal(policy, old(history), command.envelope, now, command.setpoint, command.siteCapacityKw);
              if refusal.Some?
              then r == Err(Policy(refusal.value)) && client.plc.View() == old(client.plc.View())
              else command.setpoint.Finite? && (r.Err? ==> r.error.Unavailable?)
      ensures r.Ok? ==> && Holds(client.plc.View(), command.setpoint.kw, false)
                        && r.value.commandId == command.envelope.id
                        && r.value.setpointKw == command.setpoint.kw
                        && Exchanged(command.envelope.id, command.setpoint.kw, false, r.value.frame, r.value.responseFrame)
                        && r.value.readback == SnapshotOf(client.plc.View())
                        && r.value.transportAttempts == FirstComplete(conduits.write, client.retries + 1, 12)
      // the times and the identifier
      ensures r == Err(Policy("invalid_command_window")) <==> command.envelope.expiresAt <= command.envelope.issuedAt
      ensures r == Err(Policy("future_command")) <==>
                command.envelope.issuedAt < command.envelope.expiresAt && now + policy.maxSkew < command.envelope.issuedAt
      ensures r == Err(Policy("stale_command")) <==>
                && command.envelope.issuedAt < command.envelope.expiresAt && command.envelope.issuedAt <= now + policy.maxSkew
                && (now > command.envelope.expiresAt || now - command.envelope.issuedAt > policy.maxAge)
      ensures r == Err(Policy("replayed_command")) <==>
                && command.envelope.issuedAt < command.envelope.expiresAt && command.envelope.issuedAt <= now + policy.maxSkew
                && now <= command.envelope.expiresAt && now - command.envelope.issuedAt <= policy.maxAge
                && exists k :: 0 <= k < |old(history)| && |old(history)| - policy.cacheSize <= k && old(history)[k].envelope.id == command.envelope.id
      // the power
      ensures r == Err(Policy("non_finite_setpoint")) <==> history != old(history) && command.setpoint.NonFinite?
      ensures r == Err(Policy("unsafe_setpoint")) <==>
                && history != old(history) && command.setpoint.Finite?
                && (|| command.setpoint.kw > command.siteCapacityKw + 0.0000001 || command.setpoint.kw > 6553.5 + 0.0000001
                    || -command.setpoint.kw > command.siteCapacityKw + 0.0000001 || -command.setpoint.kw > 6553.5 + 0.0000001)
      ensures client.plc.View() != old(client.plc.View()) ==>
                && command.envelope.issuedAt < command.envelope.expiresAt && now <= command.envelope.expiresAt
                && now - command.envelope.issuedAt <= policy.maxAge && command.envelope.issuedAt <= now + policy.maxSkew
                && (forall k :: 0 <= k < |old(history)| && |old(history)| - policy.cacheSize <= k ==> old(history)[k].envelope.id != command.envelope.id)
                && command.setpoint.Finite? && Abs(command.setpoint.kw) <= Min(command.siteCapacityKw, 6553.5) + 0.0000001
      // the network
      ensures r.Err? && r.error.Policy? ==> client.plc.View() == old(client.plc.View())
      ensures r.Ok? || r.error.Unavailable? ==>
                && command.setpoint.Finite? && EncodeDispatch(command.setpoint.kw, command.envelope.id % 0x1_0000, 1, false).Ok?
                && var i, e := ImportTenths(command.setpoint.kw), ExportTenths(command.setpoint.kw);
                   r.Ok? <==> && i as real * 0.1 <= client.plc.siteCapacityKw && e as real * 0.1 <= client.plc.siteCapacityKw
                              && -32768 <= i - e <= 32767
                              && Completes(conduits.write, client.retries + 1, 12) && Completes(conduits.read, client.retries + 1, 71)
      ensures r.Err? && r.error.Unavailable? ==>
                && r.error == Unavailable("controller_unavailable",
                                          client.plc.siteCapacityKw >= 0.0 && Completes(conduits.fallback, client.retries + 1, 12))
                && (client.plc.siteCapacityKw >= 0.0 && Completes(conduits.fallback, client.retries + 1, 0) ==>
                      Holds(client.plc.View(), 0.0, true))
                && (!Completes(conduits.fallback, client.retries + 1, 0) ==>
                      Core(client.plc.View())
                      == if Completes(conduits.write, client.retries + 1, 0)
                         then Core(React(client.plc.Config(), old(client.plc.View()),
                                         EncodeDispatch(command.setpoint.kw, command.envelope.id % 0x1_0000, 1, false).value, true).next)
                         else Core(old(client.plc.View())))
                && (|| PowerOf(client.plc.View()) == PowerOf(old(client.plc.View()))
                    || PowerIs(client.plc.View(), command.setpoint.kw)
                    || PowerIsZero(client.plc.View()))
    {
      hide Holds, EncodeDispatch, DecodeWriteResponse, Reachable, React, Core, Last, Ids, Completes, FirstComplete;
      hide SnapshotOf, ImportTenths, ExportTenths, WindowRefusal, AdmissionRefusal, EnvelopeRefusal;
      hide SimulatedSiteController.Valid, SimulatedSiteController.View;
      AdmissionCodes(policy, history, command.envelope, now);
      EnvelopeCodes(command.setpoint, command.siteCapacityKw);
      RememberedByPosition(policy, history, command.envelope.id);
      var window := ValidateWindow(command.envelope, now);
      if window.Some? {
        return Err(Policy(window.value));
      }
      var replayed := RejectReplay(command.envelope, now);
      if replayed {
        return Err(Policy("replayed_command"));
      }
      if command.setpoint.NonFinite? {
        return Err(Policy("non_finite_setpoint"));
      }
      var kw := command.setpoint.kw;
      if Abs(kw) > Min(command.siteCapacityKw, MAX_UNSIGNED_POWER_KW) + ENVELOPE_TOLERANCE {
        return Err(Policy("unsafe_setpoint"));
      }
      var transactionId := command.envelope.id % 0x1_0000;
      ghost var cfg, before := client.plc.Config(), client.plc.View();
      EncodeDispatchDomain(kw, transactionId, 1, false);
      var exchanged := WriteAndReadBack(kw, transactionId, false, conduits.write, conduits.read);
      CorePower(cfg, before, kw, transactionId, false, Completes(conduits.write, client.retries + 1, 0), client.plc.View());
      if exchanged.Some? {
        var (receipt, readback) := exchanged.value;
        return Ok(ControllerResponse(command.envelope.id, receipt.request, receipt.response, kw, readback, receipt.attempts));
      }
      var applied := BestEffortSafeState(transactionId, conduits.fallback);
      return Err(Unavailable("controller_unavailable", applied));
    }


    /** The emergency request: same window and replay checks, no envelope, no fallback. It succeeds exactly
        if the controller takes zero power, its acknowledgement comes back and the readback comes back;
        it is carried out as soon as one attempt arrives. */
    method SafeState(e: Envelope, now: real, conduits: Conduits) returns (r: Result<ControllerResponse, GatewayError>)
      requires Valid() && ClockAt(now)
      modifies this`seen, this`history, client.plc
      ensures Valid()
      ensures history == if Admissible(policy, old(history), e, now) then old(history) + [Admission(e, now)] else old(history)
      ensures var refusal := AdmissionRefusal(policy, old(history), e, now);
              if refusal.Some? then r == Err(Policy(refusal.value)) && client.plc.View() == old(client.plc.View())
              else && (r.Err? ==> r == Err(Unavailable("safe_state_unavailable", false)))
                   && (r.Ok? <==> && client.plc.siteCapacityKw >= 0.0
                                  && Completes(conduits.write, client.retries + 1, 12) && Completes(conduits.read, client.retries + 1, 71))
                   && (client.plc.siteCapacityKw >= 0.0 && Completes(conduits.write, client.retries + 1, 0) ==>
                         Holds(client.plc.View(), 0.0, true))
                   && (!Completes(conduits.write, client.retries + 1, 0) ==> Core(client.plc.View()) == Core(old(client.plc.View())))
      ensures r.Ok? ==> && Holds(client.plc.View(), 0.0, true)
                        && r.value.readback == SnapshotOf(client.plc.View())
                        && r.value.commandId == e.id && r.value.setpointKw == 0.0
                        && Exchanged(e.id, 0.0, true, r.value.frame, r.value.responseFrame)
                        && r.value.transportAttempts == FirstComplete(conduits.write, client.retries + 1, 12)
      // the times and the identifier
      ensures r == Err(Policy("invalid_command_window")) <==> e.expiresAt <= e.issuedAt
      ensures r == Err(Policy("future_command")) <==> e.issuedAt < e.expiresAt && now + policy.maxSkew < e.issuedAt
      ensures r == Err(Policy("stale_command")) <==>
                && e.issuedAt < e.expiresAt && e.issuedAt <= now + policy.maxSkew
                && (now > e.expiresAt || now - e.issuedAt > policy.maxAge)
      ensures r == Err(Policy("replayed_command")) <==>
                && e.issuedAt < e.expiresAt && e.issuedAt <= now + policy.maxSkew && now <= e.expiresAt && now - e.issuedAt <= policy.maxAge
                && exists k :: 0 <= k < |old(history)| && |old(history)| - policy.cacheSize <= k && old(history)[k].envelope.id == e.id
      ensures PowerOf(client.plc.View()) == PowerOf(old(client.plc.View())) || PowerIsZero(client.plc.View())
    {
      hide Holds, EncodeDispatch, DecodeWriteResponse, Reachable, React, Core, Completes, FirstComplete, SnapshotOf;
      hide WindowRefusal, Last, Ids, AdmissionRefusal;
      AdmissionByParts(policy, history, e, now);
      AdmissionCodes(policy, history, e, now);
      var window := ValidateWindow(e, now);
      if window.Some? {
        return Err(Policy(window.value));
      }
      var replayed := RejectReplay(e, now);
      if replayed {
        return Err(Policy("replayed_command"));
      }
      var transactionId := e.id % 0x1_0000;
      ghost var cfg, before := client.plc.Config(), client.plc.View();
      EncodeDispatchDomain(0.0, transactionId, 1, true);
      ZeroSetpoint();
      ghost var arrived := Completes(conduits.write, client.retries + 1, 0);
      var exchanged := WriteAndReadBack(0.0, transactionId, true, conduits.write, conduits.read);
      CorePower(cfg, before, 0.0, transactionId, true, arrived, client.plc.View());
      CoreHolds(cfg, before, 0.0, transactionId, true, arrived, client.plc.View());
      if exchanged.None? {
        return Err(Unavailable("safe_state_unavailable", false));
      }
      var (receipt, readback) := exchanged.value;
      return Ok(ControllerResponse(e.id, receipt.request, receipt.response, 0.0, readback, receipt.attempts));
    }

    /** Watches the heartbeat. It answers with the controller's registers unless they cannot be read, or the
        same heartbeat has been seen for too long; exactly then, and only then, the safe state is
        commanded. */
    method ControllerStatus(now: real, conduits: Conduits) returns (r: Result<Snapshot, GatewayError>)
      requires Valid()
      modifies this`lastHeartbeat, this`lastHeartbeatChange, client.plc
      ensures Valid()
      ensures var beat := BeatAfterRead(client.plc.Config(), old(client.plc.View()), conduits.read, client.retries + 1);
              if !Completes(conduits.read, client.retries + 1, 71) then
                && r == Err(Unavailable("controller_heartbeat_lost", false))
                && lastHeartbeat == old(lastHeartbeat) && lastHeartbeatChange == old(lastHeartbeatChange)
                && Core(client.plc.View()) == Core(old(client.plc.View()))
              else if old(lastHeartbeat) == Some(beat) && now - old(lastHeartbeatChange) >= heartbeatStaleSeconds then
                && r == Err(Unavailable("controller_heartbeat_lost",
                                        client.plc.siteCapacityKw >= 0.0 && Completes(conduits.fallback, client.retries + 1, 12)))
                && lastHeartbeat == old(lastHeartbeat) && lastHeartbeatChange == old(lastHeartbeatChange)
                && (client.plc.siteCapacityKw >= 0.0 && Completes(conduits.fallback, client.retries + 1, 0) ==>
                      Holds(client.plc.View(), 0.0, true))
                && (!Completes(conduits.fallback, client.retries + 1, 0) ==> Core(client.plc.View()) == Core(old(client.plc.View())))
              else
                && r == Ok(SnapshotOf(client.plc.View())) && client.plc.View().heartbeat == beat
                && Core(client.plc.View()) == Core(old(client.plc.View()))
                && lastHeartbeat == Some(beat)
                && lastHeartbeatChange == if old(lastHeartbeat) == Some(beat) then old(lastHeartbeatChange) else now
      ensures PowerOf(client.plc.View()) == PowerOf(old(client.plc.View())) || PowerIsZero(client.plc.View())
    {
      hide Holds, Completes, FirstComplete, Arrivals, BeatAfterRead, Core, Reachable, Last, Ids;
      hide SimulatedSiteController.Valid, SimulatedSiteController.View;
      var snapshot := client.TakeSnapshot(0xFFFE, conduits.read);
      CoreKeepsPower(client.plc.View(), old(client.plc.View()));
      if snapshot.Err? {
        return Err(Unavailable("controller_heartbeat_lost", false));
      }
      var s := snapshot.value;
      if lastHeartbeat == Some(s.heartbeat) {
        if now - lastHeartbeatChange >= heartbeatStaleSeconds {
          var applied := BestEffortSafeState(0xFFFB, conduits.fallback);
          return Err(Unavailable("controller_heartbeat_lost", applied));
        }
      } else {
        lastHeartbeat, lastHeartbeatChange := Some(s.heartbeat), now;
      }
      return Ok(s);
    }
  }
}
