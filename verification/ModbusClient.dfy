/** The retrying Modbus/TCP client over an unreliable conduit to the PLC. An attempt is lost
    before it arrives, or arrives and has its reply lost, cut short, or delivered; nothing
    arrives late. What the conduit does is an input. */
module ModbusClient {
  import opened Prelude
  import opened Rounding
  import opened ModbusCodec
  import opened ModbusStream
  import opened PlcSpec
  import opened PlcSimulator
  import opened WireFormat
  import opened ControllerRules

  /** One attempt on the conduit: lost on the way, or handled with at most `returned` bytes of the
      reply coming back. */
  datatype Delivery = Lost | Arrived(returned: nat)

  /** Attempt after attempt; what is not listed is lost. */
  type Conduit = seq<Delivery>

  /** One of the first `attempts` attempts arrives and lets `size` bytes of the reply through. */
  predicate Completes(conduit: Conduit, attempts: nat, size: nat): (b: bool)
    ensures b <==> exists k :: 0 <= k < attempts && k < |conduit| && conduit[k].Arrived? && conduit[k].returned >= size
  {
    && attempts > 0
    && (|| Completes(conduit, attempts - 1, size)
        || (attempts <= |conduit| && conduit[attempts - 1].Arrived? && conduit[attempts - 1].returned >= size))
  }

  /** The number of the first attempt that does, or the last one made. */
  function FirstComplete(conduit: Conduit, attempts: nat, size: nat): (k: nat)
    ensures k <= attempts
    ensures Completes(conduit, attempts, size) ==> k >= 1 && Completes(conduit, k, size) && !Completes(conduit, k - 1, size)
    ensures !Completes(conduit, attempts, size) ==> k == attempts
  {
    if attempts > 0 && Completes(conduit, attempts - 1, size) then FirstComplete(conduit, attempts - 1, size) else attempts
  }

  lemma {:induction false} FirstCompleteIsUnique(conduit: Conduit, attempts: nat, size: nat, k: nat)
    requires 1 <= k <= attempts && Completes(conduit, k, size) && !Completes(conduit, k - 1, size)
    ensures FirstComplete(conduit, attempts, size) == k
  {
    if k < attempts {
      assert Completes(conduit, attempts - 1, size);
      FirstCompleteIsUnique(conduit, attempts - 1, size, k);
    }
  }

  /** How many of the first `attempts` attempts arrive. */
  function Arrivals(conduit: Conduit, attempts: nat): (n: nat)
    ensures n <= attempts
    ensures n > 0 <==> Completes(conduit, attempts, 0)
  {
    if attempts == 0 then 0
    else Arrivals(conduit, attempts - 1) + if attempts <= |conduit| && conduit[attempts - 1].Arrived? then 1 else 0
  }

  /** The places of the arriving attempts. */
  lemma {:induction false} ArrivalsAreCounted(conduit: Conduit, attempts: nat)
    ensures Arrivals(conduit, attempts) == |set k | 0 <= k < attempts && k < |conduit| && conduit[k].Arrived?|
  {
    if attempts > 0 {
      ArrivalsAreCounted(conduit, attempts - 1);
      var before := set k | 0 <= k < attempts - 1 && k < |conduit| && conduit[k].Arrived?;
      var now := set k | 0 <= k < attempts && k < |conduit| && conduit[k].Arrived?;
      assert now == if attempts <= |conduit| && conduit[attempts - 1].Arrived? then before + {attempts - 1} else before;
    }
  }

  datatype ClientError = Protocol(reason: ProtocolError) | Transport

  datatype WriteReceipt = WriteReceipt(request: Bytes, response: Bytes, attempts: nat)

  datatype Snapshot = Snapshot(
    importSetpointKw: real, exportSetpointKw: real, measuredSitePowerKw: real, controllerState: U16, alarmState: U16, heartbeat: U16)

  type Retries = n: nat | n <= 3

  /** What a snapshot of these registers reports. */
  function SnapshotOf(s: Plc): Snapshot {
    Snapshot(RegisterKw(s.importRaw), RegisterKw(s.exportRaw), SignedRegisterKw(s.measured), s.controller, s.alarms.Word(), s.heartbeat)
  }

  /** The controller carries out this setpoint: quantised power, matching measurement, and
      nothing left of an earlier state. */
  predicate Holds(s: Plc, setpointKw: real, safeState: bool) {
    && s.importRaw == ImportTenths(setpointKw) && s.exportRaw == ExportTenths(setpointKw)
    && SignedOf(s.measured) == s.importRaw - s.exportRaw
    && s.mode == (if safeState then MODE_SAFE_STATE else MODE_DISPATCH)
    && s.controller == (if safeState then SAFE else ACTIVE)
    && s.alarms == Alarms(safeState, false, false)
  }

  /** A held command in the numbers of the registers: tenths of a kW each way, the mode, the net power as a
      signed word, state 2 or 3, and no alarm but that of the safe state. */
  lemma HeldRegisters(s: Plc, setpointKw: real, safeState: bool)
    requires Holds(s, setpointKw, safeState)
    ensures s.importRaw == RoundHalfEven(Max(setpointKw, 0.0) * 10.0) && s.exportRaw == RoundHalfEven(Max(-setpointKw, 0.0) * 10.0)
    ensures s.mode == (if safeState then 1 else 0) && s.controller == (if safeState then 3 else 2)
    ensures s.measured == RoundHalfEven(setpointKw * 10.0) || s.measured == RoundHalfEven(setpointKw * 10.0) + 65536
    ensures s.measured < 32768 <==> RoundHalfEven(setpointKw * 10.0) >= 0
    ensures s.alarms.safeState == safeState && !s.alarms.invalidWrite && !s.alarms.unauthorizedSource
  {
    hide RoundHalfEven;
    TenthsOfSetpoint(setpointKw);
  }

  // ---------------------------------------------------------------- facts about replies

  /** Every reply is a frame the receiving side can delimit. */
  lemma ReplyIsAFrame(cfg: PlcConfig, s: Plc, frame: Bytes)
    requires ReplyTo(cfg, s, frame, true).Some?
    ensures FrameOf(ReplyTo(cfg, s, frame, true).value) == Ok(ReplyTo(cfg, s, frame, true).value)
  {
    var adu := DecodeRequest(frame).value;
    var answer := ReactToAdu(cfg, s, adu, true).answer;
    var reply := ReplyTo(cfg, s, frame, true).value;
    assert Wire(adu, answer) == Some(reply);
    WireIsFramed(adu, answer);
    FrameIsDelivered(reply, []);
    assert reply + [] == reply;
  }

  lemma WireIsFramed(adu: Adu, answer: Answer)
    requires Wire(adu, answer).Some?
    ensures DecodeRequest(Wire(adu, answer).value).Ok? && |Wire(adu, answer).value| <= 260
  {
    hide DecodeRequest, Mbap;
    var reply := match answer
      case Acknowledged => Adu(adu.transactionId, adu.unitId, WRITE_MULTIPLE_REGISTERS, AddressQuantity(SITE_IMPORT_SETPOINT, 3))
      case Values(values) => Adu(adu.transactionId, adu.unitId, READ_HOLDING_REGISTERS, [2 * |values|] + PackWords(values))
      case Refused(code) => Adu(adu.transactionId, adu.unitId, WithExceptionFlag(adu.function_), [code])
      case _ => adu;
    FramingIsABijection(Mbap(reply), reply);
    assert Wire(adu, answer) == Some(Mbap(reply));
  }

  /** Only an executed write is acknowledged to the client. */
  lemma AcknowledgedMeansExecuted(cfg: PlcConfig, s: Plc, frame: Bytes, reply: Bytes, transactionId: U16)
    requires ReplyTo(cfg, s, frame, true) == Some(reply) && DecodeWriteResponse(reply, transactionId, 1).Ok?
    ensures React(cfg, s, frame, true).answer == Acknowledged
  {
    var adu := DecodeRequest(frame).value;
    var answer := ReactToAdu(cfg, s, adu, true).answer;
    AnswerTypeIsVisible(adu, answer, transactionId);
  }

  lemma AnswerTypeIsVisible(adu: Adu, answer: Answer, transactionId: U16)
    requires Wire(adu, answer).Some?
    ensures DecodeWriteResponse(Wire(adu, answer).value, transactionId, 1).Ok? ==> answer == Acknowledged
    ensures forall q: nat :: DecodeReadResponse(Wire(adu, answer).value, transactionId, q, 1).Ok? ==>
              answer.Values? && DecodeReadResponse(Wire(adu, answer).value, transactionId, q, 1).value == answer.values
  {
    hide DecodeRequest, Mbap;
    var reply := match answer
      case Acknowledged => Adu(adu.transactionId, adu.unitId, WRITE_MULTIPLE_REGISTERS, AddressQuantity(SITE_IMPORT_SETPOINT, 3))
      case Values(values) => Adu(adu.transactionId, adu.unitId, READ_HOLDING_REGISTERS, [2 * |values|] + PackWords(values))
      case Refused(code) => Adu(adu.transactionId, adu.unitId, WithExceptionFlag(adu.function_), [code])
      case _ => adu;
    FramingIsABijection(Mbap(reply), reply);
    assert Wire(adu, answer) == Some(Mbap(reply));
    if answer.Values? {
      assert reply.payload[1..] == PackWords(answer.values);
      UnpackPackWords(answer.values);
    }
  }

  /** The controller's acknowledgement of a command is recognised as one, its refusal as an exception. */
  lemma CommandReplyIsRecognised(cfg: PlcConfig, s: Plc, setpointKw: real, transactionId: U16, safeState: bool)
    requires EncodeDispatch(setpointKw, transactionId, 1, safeState).Ok?
    ensures var frame := EncodeDispatch(setpointKw, transactionId, 1, safeState).value;
            var answer, reply := React(cfg, s, frame, true).answer, ReplyTo(cfg, s, frame, true);
            && (answer == Acknowledged ==> reply.Some? && DecodeWriteResponse(reply.value, transactionId, 1).Ok?)
            && (answer.Refused? ==> reply.Some? && DecodeWriteResponse(reply.value, transactionId, 1) == Err(ControllerException(answer.code)))
  {
    hide DecodeRequest, EncodeDispatch, ReactToAdu, EncodeWriteResponse, EncodeException, DecodeWriteResponse;
    var frame := EncodeDispatch(setpointKw, transactionId, 1, safeState).value;
    CommandFrame(setpointKw, transactionId, 1, safeState);
    AcceptedHeader(frame);
    match React(cfg, s, frame, true).answer
    case Acknowledged => WriteResponseIffAcknowledged(ReplyTo(cfg, s, frame, true).value, transactionId, 1);
    case Refused(code) => ExceptionIsNeverAnAnswer(16, code, transactionId, 1, transactionId, 0);
    case _ =>
  }

  // ---------------------------------------------------------------- which attempt succeeds

  /** Attempt `k` arrives, is answered, and brings the whole answer back. */
  ghost predicate Whole(cfg: PlcConfig, s: Plc, frame: Bytes, conduit: Conduit, k: nat) {
    && 1 <= k <= |conduit| && conduit[k - 1].Arrived?
    && var reply := ReplyTo(cfg, Repeated(cfg, s, frame, Arrivals(conduit, k - 1)), frame, true);
       reply.Some? && |reply.value| <= conduit[k - 1].returned
  }

  /** The answer to a command frame does not depend on the registers; it is an acknowledgement exactly
      when the power fits the site and, as a net value, the signed register, and a safe state asks for
      none. An acknowledgement has 12 bytes, a refusal 9. */
  lemma CommandAnswer(cfg: PlcConfig, s: Plc, setpointKw: real, transactionId: U16, safeState: bool)
    requires EncodeDispatch(setpointKw, transactionId, 1, safeState).Ok?
    ensures var frame := EncodeDispatch(setpointKw, transactionId, 1, safeState).value;
            var answer, reply := React(cfg, s, frame, true).answer, ReplyTo(cfg, s, frame, true);
            var i, e := ImportTenths(setpointKw), ExportTenths(setpointKw);
            var fits := i as real * 0.1 <= cfg.siteCapacityKw && e as real * 0.1 <= cfg.siteCapacityKw && (safeState ==> i == 0 && e == 0);
            if !fits then answer == Refused(3) && reply.Some? && |reply.value| == 9
            else if i - e > 32767 || i - e < -32768 then answer == Raised && reply.None?
            else answer == Acknowledged && reply.Some? && |reply.value| == 12
  {
    hide React, ReplyTo, EncodeDispatch, RegisterKw, Carries;
    var frame := EncodeDispatch(setpointKw, transactionId, 1, safeState).value;
    CommandFrame(setpointKw, transactionId, 1, safeState);
    TenthsOfSetpoint(setpointKw);
    WriteRules(cfg, s, frame);
    ReplyRules(cfg, s, frame, true);
    CarriedSize(cfg, s, frame);
  }

  lemma CarriedSize(cfg: PlcConfig, s: Plc, frame: Bytes)
    ensures var answer, reply := React(cfg, s, frame, true).answer, ReplyTo(cfg, s, frame, true);
            reply.Some? ==> (answer == Acknowledged ==> |reply.value| == 12) && (answer.Refused? ==> |reply.value| == 9)
                            && (answer.Values? ==> |reply.value| == 9 + 2 * |answer.values|)
  {
    hide React, ReplyTo;
    ReplyRules(cfg, s, frame, true);
  }

  /** For a frame that is answered with `size` bytes in every state, an attempt succeeds exactly when it
      lets that many bytes through. */
  lemma WholeBySize(cfg: PlcConfig, s: Plc, frame: Bytes, conduit: Conduit, size: nat, attempts: nat)
    requires forall n: nat :: ReplyTo(cfg, Repeated(cfg, s, frame, n), frame, true).Some?
                              && |ReplyTo(cfg, Repeated(cfg, s, frame, n), frame, true).value| == size
    ensures (exists k :: 1 <= k <= attempts && Whole(cfg, s, frame, conduit, k)) <==> Completes(conduit, attempts, size)
  {
    hide ReplyTo, Repeated;
    if Completes(conduit, attempts, size) {
      var k :| 0 <= k < attempts && k < |conduit| && conduit[k].Arrived? && conduit[k].returned >= size;
      assert Whole(cfg, s, frame, conduit, k + 1);
    }
  }

  // ---------------------------------------------------------------- the client

  class ModbusTcpClient {
    const plc: SimulatedSiteController
    const retries: Retries

    constructor (plc: SimulatedSiteController, retries: Retries)
      ensures this.plc == plc && this.retries == retries
    {
      this.plc := plc;
      this.retries := retries;
    }

    /** Any way of cutting data into pieces. */
    method Fragment(data: Bytes) returns (segments: seq<Bytes>)
      ensures Flatten(segments) == data
      ensures forall k :: 0 <= k < |segments| ==> segments[k] != []
    {
      if data == [] {
        return [];
      }
      var n :| 1 <= n <= |data|;
      var rest := Fragment(data[n..]);
      segments := [data[..n]] + rest;
      assert data == data[..n] + data[n..];
    }

    /** One connection: the frame is lost, or is handled once and so much of the reply comes back, in any
        pieces. */
    method Attempt(frame: Bytes, delivery: Delivery) returns (stream: ByteStream)
      requires plc.Valid()
      modifies plc
      ensures plc.Valid() && fresh(stream) && stream.Valid()
      ensures delivery.Lost? ==> plc.View() == old(plc.View()) && stream.Pending() == []
      ensures delivery.Arrived? ==>
                && plc.View() == React(plc.Config(), old(plc.View()), frame, true).next
                && var data := ReplyTo(plc.Config(), old(plc.View()), frame, true).GetOr([]);
                   stream.Pending() == if delivery.returned < |data| then data[..delivery.returned] else data
    {
      hide React, ReplyTo;
      if delivery.Lost? {
        stream := new ByteStream([]);
        return;
      }
      var reply, raised := plc.HandleRequest(frame, true);
      var data := reply.GetOr([]);
      var segments := Fragment(if delivery.returned < |data| then data[..delivery.returned] else data);
      stream := new ByteStream(segments);
    }

    /** Tries until an attempt brings back a whole reply, at most `retries + 1` times; `deliveries` counts
        how often the frame arrived. It returns exactly if one of those attempts does, with the reply and
        the number of the first one. */
    method Exchange(frame: Bytes, conduit: Conduit) returns (r: Result<(Bytes, nat), ClientError>, ghost deliveries: nat)
      requires plc.Valid()
      modifies plc
      ensures plc.Valid()
      ensures r.Ok? <==> exists k :: 1 <= k <= retries + 1 && Whole(plc.Config(), old(plc.View()), frame, conduit, k)
      ensures r.Ok? ==> && 1 <= r.value.1 <= retries + 1
                        && Whole(plc.Config(), old(plc.View()), frame, conduit, r.value.1)
                        && (forall k :: 1 <= k < r.value.1 ==> !Whole(plc.Config(), old(plc.View()), frame, conduit, k))
                        && deliveries >= 1 && deliveries == Arrivals(conduit, r.value.1)
                        && ReplyTo(plc.Config(), Repeated(plc.Config(), old(plc.View()), frame, deliveries - 1), frame, true) == Some(r.value.0)
      ensures r.Err? ==> r.error == Transport && deliveries == Arrivals(conduit, retries + 1)
      ensures plc.View() == Repeated(plc.Config(), old(plc.View()), frame, deliveries)
    {
      hide React, ReplyTo, FrameOf, Completes;
      deliveries := 0;
      for attempt := 1 to retries + 2
        invariant plc.Valid() && deliveries == Arrivals(conduit, attempt - 1)
        invariant plc.View() == Repeated(plc.Config(), old(plc.View()), frame, deliveries)
        invariant forall k :: 1 <= k < attempt ==> !Whole(plc.Config(), old(plc.View()), frame, conduit, k)
      {
        ghost var before := plc.View();
        var delivery := if attempt <= |conduit| then conduit[attempt - 1] else Lost;
        var stream := Attempt(frame, delivery);
        ghost var data := stream.Pending();
        if delivery.Arrived? {
          deliveries := deliveries + 1;
        }
        var response := ReceiveFrame(stream);
        ghost var reply := ReplyTo(plc.Config(), before, frame, true);
        NothingIsNoFrame();
        if delivery.Arrived? && reply.Some? {
          ReplyIsAFrame(plc.Config(), before, frame);
          TruncationIsNeverAFrame(reply.value, |data|);
          assert data == reply.value[..|data|];
        }
        assert response.Ok? <==> Whole(plc.Config(), old(plc.View()), frame, conduit, attempt);
        if response.Ok? {
          return Ok((response.value, attempt)), deliveries;
        }
      }
      return Err(Transport), deliveries;
    }

    lemma NothingIsNoFrame()
      ensures FrameOf([]).Err?
    {
    }

    /** A write returns exactly if the controller acknowledges this command and one of the attempts lets
        the 12 bytes of the acknowledgement through; the first such attempt is reported, and the controller
        holds the command. A write that does not return has still been carried out if any attempt
        arrived. */
    method WriteSetpoint(setpointKw: real, transactionId: U16, safeState: bool, conduit: Conduit)
      returns (r: Result<WriteReceipt, ClientError>)
      requires plc.Valid()
      modifies plc
      ensures plc.Valid()
      ensures var encoded := EncodeDispatch(setpointKw, transactionId, 1, safeState);
              if encoded.Err? then r == Err(Protocol(encoded.error)) && plc.View() == old(plc.View())
              else && (Completes(conduit, retries + 1, 0) ==>
                         Core(plc.View()) == Core(React(plc.Config(), old(plc.View()), encoded.value, true).next))
                   && (!Completes(conduit, retries + 1, 0) ==> plc.View() == old(plc.View()))
                   && (r.Ok? <==> && React(plc.Config(), old(plc.View()), encoded.value, true).answer == Acknowledged
                                  && Completes(conduit, retries + 1, 12))
                   && (r.Err? ==> r.error == if React(plc.Config(), old(plc.View()), encoded.value, true).answer.Refused?
                                                && Completes(conduit, retries + 1, 9)
                                             then Protocol(ControllerException(3)) else Transport)
                   && (r.Ok? ==> && Holds(plc.View(), setpointKw, safeState) && r.value.request == encoded.value
                                 && DecodeWriteResponse(r.value.response, transactionId, 1).Ok?
                                 && r.value.attempts == FirstComplete(conduit, retries + 1, 12))
    {
      hide React, ReplyTo, EncodeDispatch, DecodeWriteResponse, Holds, Completes, Whole;
      var encoded := EncodeDispatch(setpointKw, transactionId, 1, safeState);
      if encoded.Err? {
        return Err(Protocol(encoded.error));
      }
      var frame := encoded.value;
      ghost var before := plc.View();
      var response, deliveries := Exchange(frame, conduit);
      CommandOutcome(plc.Config(), before, setpointKw, transactionId, safeState, conduit, retries + 1);
      if deliveries > 0 {
        RepeatedIsOnce(plc.Config(), before, frame, deliveries);
      }
      if response.Err? {
        return Err(response.error);
      }
      var (reply, attempts) := response.value;
      CommandOutcome(plc.Config(), before, setpointKw, transactionId, safeState, conduit, attempts);
      CommandOutcome(plc.Config(), before, setpointKw, transactionId, safeState, conduit, attempts - 1);
      ghost var last := Repeated(plc.Config(), before, frame, deliveries - 1);
      CommandAnswer(plc.Config(), before, setpointKw, transactionId, safeState);
      CommandAnswer(plc.Config(), last, setpointKw, transactionId, safeState);
      CommandReplyIsRecognised(plc.Config(), last, setpointKw, transactionId, safeState);
      var checked := DecodeWriteResponse(reply, transactionId, 1);
      if checked.Err? {
        return Err(Protocol(checked.error));
      }
      AcknowledgedMeansExecuted(plc.Config(), last, frame, reply, transactionId);
      AcknowledgedWriteHolds(plc.Config(), last, setpointKw, transactionId, safeState);
      FirstCompleteIsUnique(conduit, retries + 1, 12, attempts);
      return Ok(WriteReceipt(frame, reply, attempts));
    }

    /** Reads the whole register block; whatever happens, no setpoint, state or alarm changes. A snapshot
        comes back exactly if one of the attempts lets the 71 bytes of the answer through. */
    method TakeSnapshot(transactionId: U16, conduit: Conduit) returns (r: Result<Snapshot, ClientError>)
      requires plc.Valid()
      modifies plc
      ensures plc.Valid() && Core(plc.View()) == Core(old(plc.View()))
      ensures r.Ok? <==> Completes(conduit, retries + 1, 71)
      ensures r.Ok? ==> r.value == SnapshotOf(plc.View())
      ensures plc.View().heartbeat == BeatAfterRead(plc.Config(), old(plc.View()), conduit, retries + 1)
    {
      hide React, ReplyTo, DecodeReadResponse, Completes, Whole, Arrivals, EncodeReadRequest, ReadValues, RegisterAt, SnapshotOf;
      hide SimulatedSiteController.Valid, SimulatedSiteController.View;
      ReadRequestFrame(SITE_IMPORT_SETPOINT, HEARTBEAT - SITE_IMPORT_SETPOINT + 1, transactionId, 1);
      var quantity := HEARTBEAT - SITE_IMPORT_SETPOINT + 1;
      var request := EncodeReadRequest(SITE_IMPORT_SETPOINT, quantity, transactionId, 1);
      ghost var before := plc.View();
      var response, deliveries := Exchange(request.value, conduit);
      SnapshotOutcome(plc.Config(), before, transactionId, conduit, retries + 1);
      SnapshotReadsOnly(plc.Config(), before, transactionId);
      if deliveries > 0 {
        RepeatedIsOnce(plc.Config(), before, request.value, deliveries);
      }
      BeatCountsReads(plc.Config(), before, transactionId, deliveries);
      if response.Err? {
        return Err(response.error);
      }
      var (reply, attempts) := response.value;
      SnapshotOutcome(plc.Config(), before, transactionId, conduit, attempts);
      SnapshotOutcome(plc.Config(), before, transactionId, conduit, attempts - 1);
      FirstCompleteIsUnique(conduit, retries + 1, 71, attempts);
      ghost var last := Repeated(plc.Config(), before, request.value, deliveries - 1);
      SnapshotReadsOnly(plc.Config(), last, transactionId);
      SnapshotValues(plc.Config(), last, transactionId, reply);
      match DecodeReadResponse(reply, transactionId, quantity, 1)
      case Err(reason) => return Err(Protocol(reason));
      case Ok(values) =>
        SnapshotFromValues(plc.View(), values);
        return Ok(Snapshot(
          RegisterKw(values[0]), RegisterKw(values[SITE_EXPORT_SETPOINT - SITE_IMPORT_SETPOINT]),
          SignedRegisterKw(values[MEASURED_SITE_POWER - SITE_IMPORT_SETPOINT]),
          values[CONTROLLER_STATE - SITE_IMPORT_SETPOINT],
          values[ALARM_STATE - SITE_IMPORT_SETPOINT],
          values[HEARTBEAT - SITE_IMPORT_SETPOINT]));
    }
  }

  /** Which attempt at a command brings back a reply: none if the controller raises, the first that lets
      through the 12 bytes of an acknowledgement or the 9 bytes of a refusal. */
  lemma CommandOutcome(cfg: PlcConfig, s: Plc, setpointKw: real, transactionId: U16, safeState: bool, conduit: Conduit, attempts: nat)
    requires EncodeDispatch(setpointKw, transactionId, 1, safeState).Ok?
    ensures var frame := EncodeDispatch(setpointKw, transactionId, 1, safeState).value;
            var replied := exists k :: 1 <= k <= attempts && Whole(cfg, s, frame, conduit, k);
            match React(cfg, s, frame, true).answer
            case Acknowledged => replied <==> Completes(conduit, attempts, 12)
            case Refused(_) => replied <==> Completes(conduit, attempts, 9)
            case _ => !replied
  {
    hide React, ReplyTo, EncodeDispatch, Completes, Repeated, Arrivals;
    var frame := EncodeDispatch(setpointKw, transactionId, 1, safeState).value;
    CommandAnswer(cfg, s, setpointKw, transactionId, safeState);
    forall n: nat
      ensures var reply := ReplyTo(cfg, Repeated(cfg, s, frame, n), frame, true);
              match React(cfg, s, frame, true).answer
              case Acknowledged => reply.Some? && |reply.value| == 12
              case Refused(_) => reply.Some? && |reply.value| == 9
              case _ => reply.None?
    {
      CommandAnswer(cfg, Repeated(cfg, s, frame, n), setpointKw, transactionId, safeState);
    }
    match React(cfg, s, frame, true).answer
    case Acknowledged => WholeBySize(cfg, s, frame, conduit, 12, attempts);
    case Refused(_) => WholeBySize(cfg, s, frame, conduit, 9, attempts);
    case _ =>
  }

  lemma SnapshotOutcome(cfg: PlcConfig, s: Plc, transactionId: U16, conduit: Conduit, attempts: nat)
    ensures (exists k :: 1 <= k <= attempts && Whole(cfg, s, SnapshotRequest(transactionId), conduit, k)) <==> Completes(conduit, attempts, 71)
  {
    hide React, ReplyTo, Whole, Completes, Repeated, SnapshotRequest, Carries;
    var frame := SnapshotRequest(transactionId);
    forall n: nat ensures var reply := ReplyTo(cfg, Repeated(cfg, s, frame, n), frame, true); reply.Some? && |reply.value| == 71 {
      var t := Repeated(cfg, s, frame, n);
      SnapshotReadsOnly(cfg, t, transactionId);
      ReplyRules(cfg, t, frame, true);
      CarriedSize(cfg, t, frame);
    }
    WholeBySize(cfg, s, frame, conduit, 71, attempts);
  }

  /** The heartbeat once the snapshot has been asked for over this conduit: one beat for each attempt that
      arrives, up to the one that succeeds. */
  function BeatAfterRead(cfg: PlcConfig, s: Plc, conduit: Conduit, attempts: nat): U16 {
    if cfg.heartbeatEnabled then (s.heartbeat + Arrivals(conduit, FirstComplete(conduit, attempts, 71))) % 0x1_0000 else s.heartbeat
  }

  lemma {:induction false} BeatCountsReads(cfg: PlcConfig, s: Plc, transactionId: U16, n: nat)
    ensures Repeated(cfg, s, SnapshotRequest(transactionId), n).heartbeat
         == if cfg.heartbeatEnabled then (s.heartbeat + n) % 0x1_0000 else s.heartbeat
  {
    hide React, ReadValues, SnapshotRequest;
    if n > 0 {
      BeatCountsReads(cfg, s, transactionId, n - 1);
      SnapshotReadsOnly(cfg, Repeated(cfg, s, SnapshotRequest(transactionId), n - 1), transactionId);
      WrapSuccessor(s.heartbeat + n - 1);
    }
  }

  lemma SnapshotFromValues(s: Plc, values: seq<U16>)
    requires values == ReadValues(s, SITE_IMPORT_SETPOINT, 31)
    ensures SnapshotOf(s) == Snapshot(RegisterKw(values[0]), RegisterKw(values[1]), SignedRegisterKw(values[10]), values[20], values[21], values[30])
  {
    hide ReadValues, RegisterKw, SignedRegisterKw;
  }

  /** A snapshot in the numbers of the registers. */
  lemma SnapshotFields(s: Plc)
    ensures var v := SnapshotOf(s);
            && v.importSetpointKw == s.importRaw as real / 10.0 && v.exportSetpointKw == s.exportRaw as real / 10.0
            && v.measuredSitePowerKw == (if s.measured < 32768 then s.measured as real / 10.0 else (s.measured - 65536) as real / 10.0)
            && v.controllerState == s.controller && v.heartbeat == s.heartbeat
            && v.alarmState == (if s.alarms.safeState then 1 else 0) + (if s.alarms.invalidWrite then 2 else 0)
                               + (if s.alarms.unauthorizedSource then 8 else 0)
  {
    PowerOfRegisters(s.importRaw);
    PowerOfRegisters(s.exportRaw);
    PowerOfRegisters(s.measured);
  }

  /** An acknowledged command frame leaves the controller holding the encoded setpoint. */
  lemma AcknowledgedWriteHolds(cfg: PlcConfig, s: Plc, setpointKw: real, transactionId: U16, safeState: bool)
    requires EncodeDispatch(setpointKw, transactionId, 1, safeState).Ok?
    requires React(cfg, s, EncodeDispatch(setpointKw, transactionId, 1, safeState).value, true).answer == Acknowledged
    ensures Holds(React(cfg, s, EncodeDispatch(setpointKw, transactionId, 1, safeState).value, true).next, setpointKw, safeState)
  {
    hide React, EncodeDispatch, DecodeDispatch;
    var frame := EncodeDispatch(setpointKw, transactionId, 1, safeState).value;
    WriteAcceptance(cfg, s, frame, true);
    DispatchRoundTrip(setpointKw, transactionId, 1, safeState);
  }

  function SnapshotRequest(transactionId: U16): Bytes {
    EncodeReadRequest(SITE_IMPORT_SETPOINT, HEARTBEAT - SITE_IMPORT_SETPOINT + 1, transactionId, 1).value
  }

  lemma SnapshotReadsOnly(cfg: PlcConfig, s: Plc, transactionId: U16)
    ensures React(cfg, s, SnapshotRequest(transactionId), true)
         == Reaction(Tick(cfg, s), Values(ReadValues(Tick(cfg, s), SITE_IMPORT_SETPOINT, 31)))
  {
    hide DecodeRequest, Mbap, ReadValues;
    ReadRequestRoundTrip(SITE_IMPORT_SETPOINT, HEARTBEAT - SITE_IMPORT_SETPOINT + 1, transactionId, 1);
  }

  lemma SnapshotValues(cfg: PlcConfig, s: Plc, transactionId: U16, reply: Bytes)
    requires ReplyTo(cfg, s, SnapshotRequest(transactionId), true) == Some(reply)
    ensures DecodeReadResponse(reply, transactionId, 31, 1) == Ok(ReadValues(Tick(cfg, s), SITE_IMPORT_SETPOINT, 31))
  {
    hide DecodeRequest, Mbap, ReadValues, DecodeReadResponse, ReactToAdu, EncodeReadResponse;
    var values := ReadValues(Tick(cfg, s), SITE_IMPORT_SETPOINT, 31);
    SnapshotReadsOnly(cfg, s, transactionId);
    ReadRequestRoundTrip(SITE_IMPORT_SETPOINT, HEARTBEAT - SITE_IMPORT_SETPOINT + 1, transactionId, 1);
    assert reply == EncodeReadResponse(values, transactionId, 1);
    ReadResponseIffEncoded(reply, transactionId, 1, values);
  }
}
