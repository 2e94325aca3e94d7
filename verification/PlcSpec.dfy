/** What the synthetic site controller does with one request, on a record of its registers.
    A write is described through the command decoder, not through the register checks. */
module PlcSpec {
  import opened Prelude
  import opened ModbusCodec

  const READY: U16 := 1
  const ACTIVE: U16 := 2
  const SAFE: U16 := 3

  const ILLEGAL_FUNCTION: Byte := 0x01
  const ILLEGAL_ADDRESS: Byte := 0x02
  const ILLEGAL_VALUE: Byte := 0x03
  const TARGET_FAILED_TO_RESPOND: Byte := 0x0B

  /** The alarm bits the controller ever sets, and the register word they make. */
  datatype Alarms = Alarms(safeState: bool, invalidWrite: bool, unauthorizedSource: bool) {
    function Word(): U16 {
      (if safeState then 1 else 0) + (if invalidWrite then 2 else 0) + (if unauthorizedSource then 8 else 0)
    }
  }

  const NO_ALARM := Alarms(false, false, false)

  datatype PlcConfig = PlcConfig(siteCapacityKw: real, heartbeatEnabled: bool)

  datatype Plc = Plc(importRaw: U16, exportRaw: U16, mode: U16, measured: U16, controller: U16, alarms: Alarms, heartbeat: U16)

  /** The registers a controller starts with. */
  const INITIAL := Plc(0, 0, MODE_DISPATCH, 0, READY, NO_ALARM, 0)

  /** How a request is answered. `Raised`: an exception escapes the handler, so the
      connection ends without a reply; `Silent`: no reply is produced. */
  datatype Answer = Acknowledged | Values(values: seq<U16>) | Refused(code: Byte) | Silent | Raised

  datatype Reaction = Reaction(next: Plc, answer: Answer)

  function Tick(cfg: PlcConfig, s: Plc): Plc {
    if cfg.heartbeatEnabled then s.(heartbeat := (s.heartbeat + 1) % 0x1_0000) else s
  }

  /** Address map of the holding registers. */
  predicate Defined(address: int) {
    address in {100, 101, 102, 110, 120, 121, 130}
  }

  /** Undefined addresses inside the snapshot range read as 0. */
  function RegisterAt(s: Plc, address: int): (value: U16) {
    if address == 100 then s.importRaw
    else if address == 101 then s.exportRaw
    else if address == 102 then s.mode
    else if address == 110 then s.measured
    else if address == 120 then s.controller
    else if address == 121 then s.alarms.Word()
    else if address == 130 then s.heartbeat
    else 0
  }

  function ReadValues(s: Plc, address: int, quantity: nat): (values: seq<U16>)
    ensures |values| == quantity
    ensures forall i :: 0 <= i < quantity ==> values[i] == RegisterAt(s, address + i)
    decreases quantity
  {
    if quantity == 0 then [] else [RegisterAt(s, address)] + ReadValues(s, address + 1, quantity - 1)
  }

  predicate WithinCapacity(cfg: PlcConfig, c: Command) {
    RegisterKw(c.importRaw) <= cfg.siteCapacityKw && RegisterKw(c.exportRaw) <= cfg.siteCapacityKw
  }

  /** The command a write request carries out, if it carries one out. */
  function AcceptedCommand(cfg: PlcConfig, adu: Adu): Option<Command> {
    match DecodeCommand(adu)
    case Ok(c) => if WithinCapacity(cfg, c) then Some(c) else None
    case Err(_) => None
  }

  predicate Measurable(c: Command) {
    -32768 <= c.importRaw - c.exportRaw <= 32767
  }

  /** Registers 100-102 alone: what is stored before the net power is measured. */
  function StoreSetpoint(s: Plc, c: Command): Plc {
    s.(importRaw := c.importRaw, exportRaw := c.exportRaw, mode := if c.safeState then MODE_SAFE_STATE else MODE_DISPATCH)
  }

  /** A command carried out completely. */
  function Execute(s: Plc, c: Command): Plc
    requires Measurable(c)
  {
    var net := c.importRaw - c.exportRaw;
    StoreSetpoint(s, c).(measured := if net < 0 then net + 0x1_0000 else net,
                 controller := if c.safeState then SAFE else ACTIVE,
                 alarms := Alarms(c.safeState, false, false))
  }

  function ReactToWrite(cfg: PlcConfig, s: Plc, adu: Adu): Reaction {
    match AcceptedCommand(cfg, adu)
    case None =>
      Reaction(s.(alarms := s.alarms.(invalidWrite := true)),
               Refused(if DecodeCommand(adu) == Err(WrongRegisterBlock) then ILLEGAL_ADDRESS else ILLEGAL_VALUE))
    case Some(c) =>
      if Measurable(c) then Reaction(Execute(s, c), Acknowledged) else Reaction(StoreSetpoint(s, c), Raised)
  }

  predicate ReadableRange(address: int, quantity: int) {
    || (address == SITE_IMPORT_SETPOINT && quantity == HEARTBEAT - SITE_IMPORT_SETPOINT + 1)
    || forall k :: address <= k < address + quantity ==> Defined(k)
  }

  function ReactToRead(s: Plc, adu: Adu): Reaction {
    var p := adu.payload;
    if |p| != 4 then Reaction(s, Refused(ILLEGAL_VALUE))
    else
      var address, quantity := Unpack16(p[0], p[1]), Unpack16(p[2], p[3]);
      if quantity < 1 || quantity > 125 || address + quantity > 0x1_0000 then Reaction(s, Refused(ILLEGAL_ADDRESS))
      else if !ReadableRange(address, quantity) then
        Reaction(s.(alarms := s.alarms.(unauthorizedSource := true)), Refused(ILLEGAL_ADDRESS))
      else
        Reaction(s, Values(ReadValues(s, address, quantity)))
  }

  function ReactToAdu(cfg: PlcConfig, s: Plc, adu: Adu, peerAllowed: bool): Reaction {
    if !peerAllowed then Reaction(s.(alarms := s.alarms.(unauthorizedSource := true)), Refused(ILLEGAL_FUNCTION))
    else if adu.unitId != 1 then Reaction(s, Refused(TARGET_FAILED_TO_RESPOND))
    else if adu.function_ == WRITE_MULTIPLE_REGISTERS then ReactToWrite(cfg, Tick(cfg, s), adu)
    else if adu.function_ == READ_HOLDING_REGISTERS then ReactToRead(Tick(cfg, s), adu)
    else Reaction(Tick(cfg, s), Refused(ILLEGAL_FUNCTION))
  }

  /** One request frame from one peer. */
  function React(cfg: PlcConfig, s: Plc, frame: Bytes, peerAllowed: bool): Reaction {
    match DecodeRequest(frame)
    case Err(_) => Reaction(s, Silent)
    case Ok(adu) => ReactToAdu(cfg, s, adu, peerAllowed)
  }

  /** The reply frame that carries an answer, if the answer has one. */
  function Wire(adu: Adu, answer: Answer): Option<Bytes> {
    match answer
    case Acknowledged => Some(EncodeWriteResponse(adu.transactionId, adu.unitId, SITE_IMPORT_SETPOINT, 3))
    case Values(values) => if |values| <= 125 then Some(EncodeReadResponse(values, adu.transactionId, adu.unitId)) else None
    case Refused(code) => Some(EncodeException(adu.function_, code, adu.transactionId, adu.unitId))
    case Silent => None
    case Raised => None
  }

  /** The reply frame a request gets. */
  function ReplyTo(cfg: PlcConfig, s: Plc, frame: Bytes, peerAllowed: bool): Option<Bytes> {
    match DecodeRequest(frame)
    case Err(_) => None
    case Ok(adu) => Wire(adu, ReactToAdu(cfg, s, adu, peerAllowed).answer)
  }

  // ---------------------------------------------------------------- which writes get through

  /** The controller executes a request exactly when it comes from an allowed peer, addresses
      unit 1, is accepted by the command decoder and stays within capacity. */
  function ExecutedCommand(cfg: PlcConfig, frame: Bytes, peerAllowed: bool): Option<Command> {
    match DecodeDispatch(frame)
    case Err(_) => None
    case Ok(c) => if peerAllowed && c.unitId == 1 && WithinCapacity(cfg, c) then Some(c) else None
  }

  /** Everything about one request at once: an executed command is stored (completely unless
      its net power does not fit the signed register, when the handler raises half-way);
      anything else leaves every register but the alarms and the heartbeat alone, and is
      never acknowledged. */
  lemma WriteAcceptance(cfg: PlcConfig, s: Plc, frame: Bytes, peerAllowed: bool)
    ensures var r := React(cfg, s, frame, peerAllowed);
            match ExecutedCommand(cfg, frame, peerAllowed)
            case None => r.next == s.(alarms := r.next.alarms, heartbeat := r.next.heartbeat)
                         && r.next.alarms.safeState == s.alarms.safeState
                         && r.answer != Acknowledged && r.answer != Raised
            case Some(c) => if Measurable(c) then r == Reaction(Execute(Tick(cfg, s), c), Acknowledged)
                            else r == Reaction(StoreSetpoint(Tick(cfg, s), c), Raised)
  {
  }

  /** Safe state is not latched: a request leaves it exactly when it carries out an ordinary dispatch
      command, whatever its power. */
  lemma LeavesSafeStateIff(cfg: PlcConfig, s: Plc, frame: Bytes, peerAllowed: bool)
    requires s.controller == SAFE
    ensures React(cfg, s, frame, peerAllowed).next.controller != SAFE <==>
      && ExecutedCommand(cfg, frame, peerAllowed).Some?
      && Measurable(ExecutedCommand(cfg, frame, peerAllowed).value)
      && !ExecutedCommand(cfg, frame, peerAllowed).value.safeState
  {
    hide React, ExecutedCommand;
    WriteAcceptance(cfg, s, frame, peerAllowed);
  }

  // ---------------------------------------------------------------- the register invariant

  /** Registers of a consistent controller. */
  predicate Consistent(cfg: PlcConfig, s: Plc) {
    && (s.importRaw == 0 || s.exportRaw == 0)
    && RegisterKw(s.importRaw) <= cfg.siteCapacityKw && RegisterKw(s.exportRaw) <= cfg.siteCapacityKw
    && SignedOf(s.measured) == s.importRaw - s.exportRaw
    && (s.mode == MODE_DISPATCH || s.mode == MODE_SAFE_STATE)
    && s.controller in {READY, ACTIVE, SAFE}
    && (s.controller == SAFE <==> s.mode == MODE_SAFE_STATE)
    && (s.controller == SAFE <==> s.alarms.safeState)
    && (s.controller != ACTIVE ==> s.importRaw == 0 && s.exportRaw == 0)
  }

  /** The signed measurement register reaches 3276.7 kW; 3276.8 kW is the first import it cannot hold. */
  const SIGNED_RANGE_KW := 3276.8

  lemma ExecutedIsWellFormed(cfg: PlcConfig, frame: Bytes, peerAllowed: bool)
    requires ExecutedCommand(cfg, frame, peerAllowed).Some?
    ensures WellFormed(ExecutedCommand(cfg, frame, peerAllowed).value)
  {
    DecodeDispatchIffFrame(frame, DecodeDispatch(frame).value);
  }

  lemma RequestKeepsConsistent(cfg: PlcConfig, s: Plc, frame: Bytes, peerAllowed: bool)
    requires cfg.siteCapacityKw < SIGNED_RANGE_KW && Consistent(cfg, s)
    ensures Consistent(cfg, React(cfg, s, frame, peerAllowed).next)
    ensures React(cfg, s, frame, peerAllowed).answer != Raised
  {
    WriteAcceptance(cfg, s, frame, peerAllowed);
    if ExecutedCommand(cfg, frame, peerAllowed).Some? {
      ExecutedIsWellFormed(cfg, frame, peerAllowed);
    }
  }

  datatype Request = Request(frame: Bytes, peerAllowed: bool)

  function Run(cfg: PlcConfig, s: Plc, requests: seq<Request>): Plc {
    if requests == [] then s
    else
      var last := requests[|requests| - 1];
      React(cfg, Run(cfg, s, requests[..|requests| - 1]), last.frame, last.peerAllowed).next
  }

  lemma {:induction false} RunKeepsConsistent(cfg: PlcConfig, s: Plc, requests: seq<Request>)
    requires cfg.siteCapacityKw < SIGNED_RANGE_KW && Consistent(cfg, s)
    ensures Consistent(cfg, Run(cfg, s, requests))
  {
    if requests != [] {
      var last := requests[|requests| - 1];
      RunKeepsConsistent(cfg, s, requests[..|requests| - 1]);
      RequestKeepsConsistent(cfg, Run(cfg, s, requests[..|requests| - 1]), last.frame, last.peerAllowed);
    }
  }

  /** A command that imports 3276.8 kW is accepted, stored, and never measured. */
  lemma OverRangeImportTears(cfg: PlcConfig, s: Plc, frame: Bytes, c: Command)
    requires cfg.siteCapacityKw >= SIGNED_RANGE_KW
    requires DecodeDispatch(frame) == Ok(c) && c.unitId == 1 && c.importRaw == 32768 && c.exportRaw == 0
    ensures var r := React(cfg, s, frame, true);
            r.answer == Raised && !Consistent(cfg, r.next)
  {
    assert ExecutedCommand(cfg, frame, true) == Some(c);
    WriteAcceptance(cfg, s, frame, true);
  }

  predicate AlwaysConsistent(cfg: PlcConfig, requests: seq<Request>) {
    Consistent(cfg, Run(cfg, INITIAL, requests))
  }

  /** The registers stay consistent under every request sequence exactly when the site
      capacity is below what the signed measurement register can express. */
  lemma AlwaysConsistentIffCapacityMeasurable(cfg: PlcConfig)
    requires cfg.siteCapacityKw >= 0.0
    ensures (forall requests :: AlwaysConsistent(cfg, requests)) <==> cfg.siteCapacityKw < SIGNED_RANGE_KW
  {
    if cfg.siteCapacityKw < SIGNED_RANGE_KW {
      forall requests ensures AlwaysConsistent(cfg, requests) {
        RunKeepsConsistent(cfg, INITIAL, requests);
      }
    } else {
      var c := Command(0, 1, 32768, 0, false);
      DecodeDispatchIffFrame(Mbap(CommandAdu(c)), c);
      CapacityAboveRangeBreaks(cfg, Mbap(CommandAdu(c)), c);
    }
  }

  lemma CapacityAboveRangeBreaks(cfg: PlcConfig, frame: Bytes, c: Command)
    requires cfg.siteCapacityKw >= SIGNED_RANGE_KW
    requires DecodeDispatch(frame) == Ok(c) && c.unitId == 1 && c.importRaw == 32768 && c.exportRaw == 0
    ensures exists requests :: !AlwaysConsistent(cfg, requests)
  {
    OverRangeImportTears(cfg, INITIAL, frame, c);
    RunOfOne(cfg, INITIAL, Request(frame, true));
    assert !AlwaysConsistent(cfg, [Request(frame, true)]);
  }

  lemma RunOfOne(cfg: PlcConfig, s: Plc, request: Request)
    ensures Run(cfg, s, [request]) == React(cfg, s, request.frame, request.peerAllowed).next
  {
    assert [request][..0] == [];
  }

  // ---------------------------------------------------------------- repeated delivery

  /** Everything but the heartbeat. */
  function Core(s: Plc): Plc {
    s.(heartbeat := 0)
  }

  /** The controller after the same frame arrived `n` times from the gateway. */
  function Repeated(cfg: PlcConfig, s: Plc, frame: Bytes, n: nat): Plc {
    if n == 0 then s else React(cfg, Repeated(cfg, s, frame, n - 1), frame, true).next
  }

  /** What a frame does to the registers does not depend on the heartbeat. */
  lemma ReactIgnoresHeartbeat(cfg: PlcConfig, s: Plc, t: Plc, frame: Bytes, peerAllowed: bool)
    requires Core(s) == Core(t)
    ensures Core(React(cfg, s, frame, peerAllowed).next) == Core(React(cfg, t, frame, peerAllowed).next)
  {
    assert s == t.(heartbeat := s.heartbeat);
  }

  /** Delivering a frame a second time changes nothing but the heartbeat. */
  lemma ReactTwice(cfg: PlcConfig, s: Plc, frame: Bytes, peerAllowed: bool)
    ensures var once := React(cfg, s, frame, peerAllowed).next;
            Core(React(cfg, once, frame, peerAllowed).next) == Core(once)
  {
  }

  /** Any number of deliveries of one frame is one delivery, up to the heartbeat. */
  lemma {:induction false} RepeatedIsOnce(cfg: PlcConfig, s: Plc, frame: Bytes, n: nat)
    requires n >= 1
    ensures Core(Repeated(cfg, s, frame, n)) == Core(React(cfg, s, frame, true).next)
  {
    if n == 1 {
      assert Repeated(cfg, s, frame, 0) == s;
    } else {
      RepeatedIsOnce(cfg, s, frame, n - 1);
      var once := React(cfg, s, frame, true).next;
      ReactIgnoresHeartbeat(cfg, Repeated(cfg, s, frame, n - 1), once, frame, true);
      ReactTwice(cfg, s, frame, true);
    }
  }

  lemma HeartbeatStep(cfg: PlcConfig, s: Plc, frame: Bytes)
    requires cfg.heartbeatEnabled && DecodeRequest(frame).Ok? && DecodeRequest(frame).value.unitId == 1
    ensures React(cfg, s, frame, true).next.heartbeat == (s.heartbeat + 1) % 0x1_0000
  {
  }

  lemma WrapSuccessor(h: nat)
    ensures (h % 0x1_0000 + 1) % 0x1_0000 == (h + 1) % 0x1_0000
  {
  }

  /** The heartbeat counts the deliveries that reach unit 1, and wraps at 16 bits. */
  lemma {:induction false} HeartbeatCountsDeliveries(cfg: PlcConfig, s: Plc, frame: Bytes, n: nat)
    requires cfg.heartbeatEnabled && DecodeRequest(frame).Ok? && DecodeRequest(frame).value.unitId == 1
    ensures Repeated(cfg, s, frame, n).heartbeat == (s.heartbeat + n) % 0x1_0000
  {
    hide React, DecodeRequest;
    if n > 0 {
      var before := Repeated(cfg, s, frame, n - 1);
      HeartbeatCountsDeliveries(cfg, s, frame, n - 1);
      HeartbeatStep(cfg, before, frame);
      WrapSuccessor(s.heartbeat + n - 1);
    }
  }
}
