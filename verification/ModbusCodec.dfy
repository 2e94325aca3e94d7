/** The byte codec of the Modbus/TCP command path: MBAP header, function 03 and
    function 16 PDUs, exception PDUs, and the kW <-> register conversions.
    Data encoding is big-endian (MODBUS Application Protocol V1.1b3, section 4.2). */
module ModbusCodec {
  import opened Prelude
  import opened Rounding

  type Byte = b: int | 0 <= b < 0x100
  type U16 = w: int | 0 <= w < 0x1_0000
  type Bytes = seq<Byte>

  const READ_HOLDING_REGISTERS: Byte := 0x03
  const WRITE_MULTIPLE_REGISTERS: Byte := 0x10

  const SITE_IMPORT_SETPOINT: U16 := 100
  const SITE_EXPORT_SETPOINT: U16 := 101
  const MEASURED_SITE_POWER: U16 := 110
  const CONTROLLER_STATE: U16 := 120
  const ALARM_STATE: U16 := 121
  const HEARTBEAT: U16 := 130

  const MODE_DISPATCH: U16 := 0
  const MODE_SAFE_STATE: U16 := 1

  datatype ProtocolError =
    | Unrepresentable
    | BadTransactionId
    | BadUnitId
    | BadReadRange
    | ShortFrame
    | BadHeader
    | NotACommandWrite
    | WrongRegisterBlock
    | ImportAndExport
    | UnknownMode
    | SafeStateWithPower
    | ControllerException(code: Byte)
    | ResponseMismatch
    | UnexpectedResponse

  // ---------------------------------------------------------------- words

  function Pack16(n: U16): (b: Bytes)
    ensures |b| == 2 && Unpack16(b[0], b[1]) == n
  {
    [n / 0x100, n % 0x100]
  }

  function Unpack16(hi: Byte, lo: Byte): (n: U16)
  {
    hi * 0x100 + lo
  }

  lemma PackUnpack16(hi: Byte, lo: Byte)
    ensures Pack16(Unpack16(hi, lo)) == [hi, lo]
  {
    assert (hi * 0x100 + lo) / 0x100 == hi;
  }

  function PackWords(values: seq<U16>): (b: Bytes)
    ensures |b| == 2 * |values|
  {
    if values == [] then [] else Pack16(values[0]) + PackWords(values[1..])
  }

  function UnpackWords(b: Bytes): (values: seq<U16>)
    requires |b| % 2 == 0
    ensures 2 * |values| == |b|
  {
    if b == [] then [] else [Unpack16(b[0], b[1])] + UnpackWords(b[2..])
  }

  lemma {:induction false} UnpackPackWords(values: seq<U16>)
    ensures UnpackWords(PackWords(values)) == values
  {
    if values != [] {
      assert PackWords(values)[2..] == PackWords(values[1..]);
      UnpackPackWords(values[1..]);
    }
  }

  lemma {:induction false} PackUnpackWords(b: Bytes)
    requires |b| % 2 == 0
    ensures PackWords(UnpackWords(b)) == b
  {
    if b != [] {
      PackUnpackWords(b[2..]);
      PackUnpack16(b[0], b[1]);
      assert UnpackWords(b)[1..] == UnpackWords(b[2..]);
      assert b == [b[0], b[1]] + b[2..];
    }
  }

  // ---------------------------------------------------------------- registers

  /** A kW value as an unsigned register in tenths of a kW. */
  function UnsignedRegister(valueKw: real): (r: Result<U16, ProtocolError>)
  {
    var scaled := RoundHalfEven(valueKw * 10.0);
    if 0 <= scaled <= 0xFFFF then Ok(scaled) else Err(Unrepresentable)
  }

  /** A kW value as a two's-complement register in tenths of a kW. */
  function SignedRegister(valueKw: real): (r: Result<U16, ProtocolError>)
    ensures r.Ok? ==> Abs(SignedRegisterKw(r.value) - valueKw) <= 0.05
  {
    var scaled := RoundHalfEven(valueKw * 10.0);
    if -32768 <= scaled <= 32767
    then Ok(if scaled < 0 then scaled + 0x1_0000 else scaled)
    else Err(Unrepresentable)
  }

  function SignedOf(raw: U16): int {
    if raw >= 32768 then raw - 0x1_0000 else raw
  }

  function SignedRegisterKw(raw: U16): real {
    SignedOf(raw) as real * 0.1
  }

  function RegisterKw(raw: U16): real {
    raw as real * 0.1
  }

  /** The register of a signed number of tenths: it exists exactly in the 16-bit range,
      and reading it back gives that number. */
  lemma SignedRegisterOfTenths(tenths: int)
    ensures SignedRegister(tenths as real * 0.1).Ok? <==> -32768 <= tenths <= 32767
    ensures -32768 <= tenths <= 32767 ==> SignedOf(SignedRegister(tenths as real * 0.1).value) == tenths
  {
    RoundOfInteger(tenths);
    assert tenths as real * 0.1 * 10.0 == tenths as real;
  }

  // ---------------------------------------------------------------- MBAP framing

  datatype Adu = Adu(transactionId: U16, unitId: Byte, function_: Byte, payload: Bytes)

  /** A whole frame: 7-byte MBAP header, then the function code and its payload. */
  function Mbap(adu: Adu): (frame: Bytes)
    requires |adu.payload| + 2 < 0x1_0000
    ensures |frame| == 8 + |adu.payload|
  {
    Pack16(adu.transactionId) + Pack16(0) + Pack16(|adu.payload| + 2)
    + [adu.unitId, adu.function_] + adu.payload
  }

  function DecodeRequest(frame: Bytes): (r: Result<Adu, ProtocolError>)
  {
    if |frame| < 8 then Err(ShortFrame)
    else if Unpack16(frame[2], frame[3]) != 0 || Unpack16(frame[4], frame[5]) != |frame| - 6 then Err(BadHeader)
    else Ok(Adu(Unpack16(frame[0], frame[1]), frame[6], frame[7], frame[8..]))
  }

  /** Decoding inverts framing, and only framed ADUs decode. */
  lemma FramingIsABijection(frame: Bytes, adu: Adu)
    ensures DecodeRequest(frame) == Ok(adu)
       <==> |adu.payload| + 2 < 0x1_0000 && frame == Mbap(adu)
  {
    if |adu.payload| + 2 < 0x1_0000 && frame == Mbap(adu) {
      assert frame[0..2] == Pack16(adu.transactionId);
      assert frame[2..4] == Pack16(0);
      assert frame[4..6] == Pack16(|adu.payload| + 2);
      assert frame[0] == Pack16(adu.transactionId)[0] && frame[1] == Pack16(adu.transactionId)[1];
      assert frame[2] == Pack16(0)[0] && frame[3] == Pack16(0)[1];
      assert frame[4] == Pack16(|adu.payload| + 2)[0] && frame[5] == Pack16(|adu.payload| + 2)[1];
      assert frame[8..] == adu.payload;
    }
    if DecodeRequest(frame) == Ok(adu) {
      PackUnpack16(frame[0], frame[1]);
      PackUnpack16(frame[2], frame[3]);
      PackUnpack16(frame[4], frame[5]);
      assert frame == frame[..8] + frame[8..];
    }
  }

  // ---------------------------------------------------------------- command writes

  function WritePayload(importRaw: U16, exportRaw: U16, mode: U16): (p: Bytes)
    ensures |p| == 11
  {
    Pack16(SITE_IMPORT_SETPOINT) + Pack16(3) + [6] + Pack16(importRaw) + Pack16(exportRaw) + Pack16(mode)
  }

  function EncodeDispatch(setpointKw: real, transactionId: int, unitId: int, safeState: bool)
    : (r: Result<Bytes, ProtocolError>)
  {
    if !(0 <= transactionId <= 0xFFFF) then Err(BadTransactionId)
    else if !(1 <= unitId <= 247) then Err(BadUnitId)
    else
      match (UnsignedRegister(Max(setpointKw, 0.0)), UnsignedRegister(Max(-setpointKw, 0.0)))
      case (Ok(importRaw), Ok(exportRaw)) =>
        var mode := if safeState then MODE_SAFE_STATE else MODE_DISPATCH;
        Ok(Mbap(Adu(transactionId, unitId, WRITE_MULTIPLE_REGISTERS, WritePayload(importRaw, exportRaw, mode))))
      case _ => Err(Unrepresentable)
  }

  /** A decoded site command, in raw tenths of a kW. */
  datatype Command = Command(transactionId: U16, unitId: Byte, importRaw: U16, exportRaw: U16, safeState: bool) {
    function SetpointKw(): real {
      RegisterKw(importRaw) - RegisterKw(exportRaw)
    }
  }

  function DecodeCommand(adu: Adu): (r: Result<Command, ProtocolError>)
  {
    var p := adu.payload;
    if adu.function_ != WRITE_MULTIPLE_REGISTERS || |p| != 11 then Err(NotACommandWrite)
    else if Unpack16(p[0], p[1]) != SITE_IMPORT_SETPOINT || Unpack16(p[2], p[3]) != 3 || p[4] != 6
    then Err(WrongRegisterBlock)
    else
      var importRaw, exportRaw, mode := Unpack16(p[5], p[6]), Unpack16(p[7], p[8]), Unpack16(p[9], p[10]);
      if importRaw != 0 && exportRaw != 0 then Err(ImportAndExport)
      else if mode != MODE_DISPATCH && mode != MODE_SAFE_STATE then Err(UnknownMode)
      else if mode == MODE_SAFE_STATE && (importRaw != 0 || exportRaw != 0) then Err(SafeStateWithPower)
      else Ok(Command(adu.transactionId, adu.unitId, importRaw, exportRaw, mode == MODE_SAFE_STATE))
  }

  function DecodeDispatch(frame: Bytes): (r: Result<Command, ProtocolError>)
  {
    match DecodeRequest(frame)
    case Err(e) => Err(e)
    case Ok(adu) => DecodeCommand(adu)
  }

  /** The commands that exist on the wire: one power direction, and none in safe state. */
  predicate WellFormed(c: Command) {
    && (c.importRaw == 0 || c.exportRaw == 0)
    && (c.safeState ==> c.importRaw == 0 && c.exportRaw == 0)
  }

  function CommandAdu(c: Command): Adu {
    Adu(c.transactionId, c.unitId, WRITE_MULTIPLE_REGISTERS,
        WritePayload(c.importRaw, c.exportRaw, if c.safeState then MODE_SAFE_STATE else MODE_DISPATCH))
  }

  /** The register pair a setpoint is quantised to; at most one of the two is nonzero. */
  function ImportTenths(setpointKw: real): int {
    RoundHalfEven(Max(setpointKw, 0.0) * 10.0)
  }

  function ExportTenths(setpointKw: real): int {
    RoundHalfEven(Max(-setpointKw, 0.0) * 10.0)
  }

  lemma TenthsOfSetpoint(setpointKw: real)
    ensures ImportTenths(setpointKw) >= 0 && ExportTenths(setpointKw) >= 0
    ensures ImportTenths(setpointKw) == 0 || ExportTenths(setpointKw) == 0
    ensures ImportTenths(setpointKw) - ExportTenths(setpointKw) == RoundHalfEven(setpointKw * 10.0)
    ensures Abs((ImportTenths(setpointKw) - ExportTenths(setpointKw)) as real * 0.1 - setpointKw) <= 0.05
  {
    RoundOfInteger(0);
    RoundIsOdd(setpointKw * 10.0);
    assert -setpointKw * 10.0 == -(setpointKw * 10.0);
    RoundMonotone(0.0, Max(setpointKw, 0.0) * 10.0);
    RoundMonotone(0.0, Max(-setpointKw, 0.0) * 10.0);
  }

  /** The largest representable power: 6553.55 kW is a tie that rounds out of range. */
  lemma UnsignedRegisterDomain(valueKw: real)
    requires valueKw >= 0.0
    ensures UnsignedRegister(valueKw).Ok? <==> valueKw < 6553.55
  {
    RoundOfInteger(0);
    RoundMonotone(0.0, valueKw * 10.0);
    RoundUnique(65535.5, 65536);
    if valueKw >= 6553.55 {
      RoundMonotone(65535.5, valueKw * 10.0);
    }
  }

  /** Encoding succeeds exactly for 16-bit transaction ids, device unit ids, and setpoints
      that round to a 16-bit register. */
  lemma EncodeDispatchDomain(setpointKw: real, transactionId: int, unitId: int, safeState: bool)
    ensures EncodeDispatch(setpointKw, transactionId, unitId, safeState).Ok?
       <==> 0 <= transactionId <= 0xFFFF && 1 <= unitId <= 247 && -6553.55 < setpointKw < 6553.55
  {
    UnsignedRegisterDomain(Max(setpointKw, 0.0));
    UnsignedRegisterDomain(Max(-setpointKw, 0.0));
  }

  /** Six words of payload, read back from their bytes. */
  lemma WritePayloadBytes(importRaw: U16, exportRaw: U16, mode: U16)
    ensures var q := WritePayload(importRaw, exportRaw, mode);
            && Unpack16(q[0], q[1]) == SITE_IMPORT_SETPOINT && Unpack16(q[2], q[3]) == 3 && q[4] == 6
            && Unpack16(q[5], q[6]) == importRaw && Unpack16(q[7], q[8]) == exportRaw && Unpack16(q[9], q[10]) == mode
  {
    var q := WritePayload(importRaw, exportRaw, mode);
    assert [q[0], q[1]] == Pack16(SITE_IMPORT_SETPOINT);
    assert [q[2], q[3]] == Pack16(3);
    assert [q[5], q[6]] == Pack16(importRaw);
    assert [q[7], q[8]] == Pack16(exportRaw);
    assert [q[9], q[10]] == Pack16(mode);
  }

  /** Eleven bytes that read back as these words are the payload of these words. */
  lemma WritePayloadUnique(p: Bytes)
    requires |p| == 11 && Unpack16(p[0], p[1]) == SITE_IMPORT_SETPOINT && Unpack16(p[2], p[3]) == 3 && p[4] == 6
    ensures p == WritePayload(Unpack16(p[5], p[6]), Unpack16(p[7], p[8]), Unpack16(p[9], p[10]))
  {
    PackUnpack16(p[0], p[1]);
    PackUnpack16(p[2], p[3]);
    PackUnpack16(p[5], p[6]);
    PackUnpack16(p[7], p[8]);
    PackUnpack16(p[9], p[10]);
    assert p == [p[0], p[1]] + [p[2], p[3]] + [p[4]] + [p[5], p[6]] + [p[7], p[8]] + [p[9], p[10]];
  }

  lemma DecodeCommandIff(adu: Adu, c: Command)
    ensures DecodeCommand(adu) == Ok(c) <==> WellFormed(c) && adu == CommandAdu(c)
  {
    WritePayloadBytes(c.importRaw, c.exportRaw, if c.safeState then MODE_SAFE_STATE else MODE_DISPATCH);
    if DecodeCommand(adu) == Ok(c) {
      WritePayloadUnique(adu.payload);
    }
  }

  /** A frame is accepted as a command exactly when it is the frame of that well-formed command. */
  lemma DecodeDispatchIffFrame(frame: Bytes, c: Command)
    ensures DecodeDispatch(frame) == Ok(c) <==> WellFormed(c) && frame == Mbap(CommandAdu(c))
  {
    FramingIsABijection(frame, CommandAdu(c));
    match DecodeRequest(frame)
    case Err(_) =>
    case Ok(adu) =>
      FramingIsABijection(frame, adu);
      DecodeCommandIff(adu, c);
  }

  /** Decode inverts encode: exact ids and flag, setpoint within half a register unit.
      A safe-state frame survives only when its power rounds to zero. */
  lemma DispatchRoundTrip(setpointKw: real, transactionId: int, unitId: int, safeState: bool)
    requires EncodeDispatch(setpointKw, transactionId, unitId, safeState).Ok?
    ensures var d := DecodeDispatch(EncodeDispatch(setpointKw, transactionId, unitId, safeState).value);
            if safeState && RoundHalfEven(setpointKw * 10.0) != 0 then d == Err(SafeStateWithPower)
            else d.Ok? && d.value.transactionId == transactionId && d.value.unitId == unitId
                 && d.value.safeState == safeState && Abs(d.value.SetpointKw() - setpointKw) <= 0.05
                 && d.value.importRaw == ImportTenths(setpointKw) && d.value.exportRaw == ExportTenths(setpointKw)
  {
    hide Mbap, DecodeRequest, WritePayload;
    TenthsOfSetpoint(setpointKw);
    var c := Command(transactionId, unitId, ImportTenths(setpointKw), ExportTenths(setpointKw), safeState);
    var frame := EncodeDispatch(setpointKw, transactionId, unitId, safeState).value;
    assert frame == Mbap(CommandAdu(c));
    FramingIsABijection(frame, CommandAdu(c));
    WritePayloadBytes(c.importRaw, c.exportRaw, if c.safeState then MODE_SAFE_STATE else MODE_DISPATCH);
  }

  /** Encode inverts decode: every accepted frame for a device unit is the encoding of what it
      decodes to, so no two different frames carry the same command. */
  lemma DispatchCanonical(frame: Bytes)
    requires DecodeDispatch(frame).Ok? && 1 <= DecodeDispatch(frame).value.unitId <= 247
    ensures var c := DecodeDispatch(frame).value;
            EncodeDispatch(c.SetpointKw(), c.transactionId, c.unitId, c.safeState) == Ok(frame)
  {
    var c := DecodeDispatch(frame).value;
    DecodeDispatchIffFrame(frame, c);
    RoundOfInteger(c.importRaw);
    RoundOfInteger(c.exportRaw);
    assert Max(c.SetpointKw(), 0.0) * 10.0 == c.importRaw as real;
    assert Max(-c.SetpointKw(), 0.0) * 10.0 == c.exportRaw as real;
  }

  // ---------------------------------------------------------------- reads and responses

  function AddressQuantity(address: U16, quantity: U16): (p: Bytes)
    ensures |p| == 4
  {
    Pack16(address) + Pack16(quantity)
  }

  function EncodeReadRequest(address: int, quantity: int, transactionId: U16, unitId: Byte): (r: Result<Bytes, ProtocolError>)
  {
    if !(0 <= address <= 0xFFFF) || !(1 <= quantity <= 125) then Err(BadReadRange)
    else Ok(Mbap(Adu(transactionId, unitId, READ_HOLDING_REGISTERS, AddressQuantity(address, quantity))))
  }

  function EncodeWriteResponse(transactionId: U16, unitId: Byte, address: U16, quantity: U16): (frame: Bytes)
  {
    Mbap(Adu(transactionId, unitId, WRITE_MULTIPLE_REGISTERS, AddressQuantity(address, quantity)))
  }

  function EncodeReadResponse(values: seq<U16>, transactionId: U16, unitId: Byte): (frame: Bytes)
    requires |values| <= 127
  {
    Mbap(Adu(transactionId, unitId, READ_HOLDING_REGISTERS, [2 * |values|] + PackWords(values)))
  }

  function WithExceptionFlag(f: Byte): (r: Byte)
    ensures r >= 0x80 && r % 0x80 == f % 0x80
  {
    if f < 0x80 then f + 0x80 else f
  }

  function EncodeException(function_: Byte, code: Byte, transactionId: U16, unitId: Byte): (frame: Bytes)
  {
    Mbap(Adu(transactionId, unitId, WithExceptionFlag(function_), [code]))
  }

  function DecodeWriteResponse(frame: Bytes, transactionId: U16, unitId: Byte): (r: Result<(), ProtocolError>)
  {
    match DecodeRequest(frame)
    case Err(e) => Err(e)
    case Ok(adu) =>
      if adu.function_ >= 0x80 then Err(ControllerException(if adu.payload == [] then 0 else adu.payload[0]))
      else if adu.transactionId != transactionId || adu.unitId != unitId then Err(ResponseMismatch)
      else if adu.function_ != WRITE_MULTIPLE_REGISTERS || |adu.payload| != 4 then Err(UnexpectedResponse)
      else if Unpack16(adu.payload[0], adu.payload[1]) != SITE_IMPORT_SETPOINT
              || Unpack16(adu.payload[2], adu.payload[3]) != 3 then Err(UnexpectedResponse)
      else Ok(())
  }

  /** A byte count and that many bytes of registers. */
  function CountedWords(payload: Bytes, quantity: nat): (r: Result<seq<U16>, ProtocolError>)
  {
    if payload == [] || payload[0] != 2 * quantity || |payload| - 1 != payload[0] then Err(UnexpectedResponse)
    else Ok(UnpackWords(payload[1..]))
  }

  function DecodeReadResponse(frame: Bytes, transactionId: U16, quantity: nat, unitId: Byte): (r: Result<seq<U16>, ProtocolError>)
  {
    match DecodeRequest(frame)
    case Err(e) => Err(e)
    case Ok(adu) =>
      if adu.function_ >= 0x80 then Err(ControllerException(if adu.payload == [] then 0 else adu.payload[0]))
      else if adu.transactionId != transactionId || adu.unitId != unitId then Err(ResponseMismatch)
      else if adu.function_ != READ_HOLDING_REGISTERS then Err(UnexpectedResponse)
      else CountedWords(adu.payload, quantity)
  }

  lemma AddressQuantityWords(p: Bytes, address: U16, quantity: U16)
    ensures p == AddressQuantity(address, quantity)
       <==> |p| == 4 && Unpack16(p[0], p[1]) == address && Unpack16(p[2], p[3]) == quantity
  {
    var q := AddressQuantity(address, quantity);
    assert q[0] == Pack16(address)[0] && q[1] == Pack16(address)[1];
    assert q[2] == Pack16(quantity)[0] && q[3] == Pack16(quantity)[1];
    if |p| == 4 && Unpack16(p[0], p[1]) == address && Unpack16(p[2], p[3]) == quantity {
      assert p == [p[0], p[1]] + [p[2], p[3]];
    }
  }

  /** The read request decodes to exactly the address and quantity it encodes. */
  lemma ReadRequestRoundTrip(address: int, quantity: int, transactionId: U16, unitId: Byte)
    requires EncodeReadRequest(address, quantity, transactionId, unitId).Ok?
    ensures var d := DecodeRequest(EncodeReadRequest(address, quantity, transactionId, unitId).value);
            d == Ok(Adu(transactionId, unitId, READ_HOLDING_REGISTERS, AddressQuantity(address, quantity)))
            && Unpack16(d.value.payload[0], d.value.payload[1]) == address
            && Unpack16(d.value.payload[2], d.value.payload[3]) == quantity
  {
    hide Mbap, DecodeRequest, Pack16, Unpack16;
    var adu := Adu(transactionId, unitId, READ_HOLDING_REGISTERS, AddressQuantity(address, quantity));
    FramingIsABijection(Mbap(adu), adu);
    AddressQuantityWords(adu.payload, address, quantity);
  }

  /** The only frame taken as a write acknowledgement is the acknowledgement of this command. */
  lemma WriteResponseIffAcknowledged(frame: Bytes, transactionId: U16, unitId: Byte)
    ensures DecodeWriteResponse(frame, transactionId, unitId).Ok?
       <==> frame == EncodeWriteResponse(transactionId, unitId, SITE_IMPORT_SETPOINT, 3)
  {
    hide Mbap, DecodeRequest, Pack16, Unpack16;
    var adu := Adu(transactionId, unitId, WRITE_MULTIPLE_REGISTERS, AddressQuantity(SITE_IMPORT_SETPOINT, 3));
    FramingIsABijection(frame, adu);
    match DecodeRequest(frame)
    case Err(_) =>
    case Ok(a) => AddressQuantityWords(a.payload, SITE_IMPORT_SETPOINT, 3);
  }

  /** The only frame read as `values` is the encoding of `values` for this request. */
  lemma ReadResponseIffEncoded(frame: Bytes, transactionId: U16, unitId: Byte, values: seq<U16>)
    requires |values| <= 127
    ensures DecodeReadResponse(frame, transactionId, |values|, unitId) == Ok(values)
       <==> frame == EncodeReadResponse(values, transactionId, unitId)
  {
    hide Mbap, DecodeRequest, Pack16, Unpack16, PackWords, UnpackWords;
    var payload: Bytes := [2 * |values|] + PackWords(values);
    var adu := Adu(transactionId, unitId, READ_HOLDING_REGISTERS, payload);
    FramingIsABijection(frame, adu);
    assert payload[1..] == PackWords(values);
    UnpackPackWords(values);
    match DecodeRequest(frame)
    case Err(_) =>
    case Ok(a) =>
      if DecodeReadResponse(frame, transactionId, |values|, unitId) == Ok(values) {
        PackUnpackWords(a.payload[1..]);
        assert a.payload == payload;
      }
  }

  /** An exception response is never taken for an acknowledgement or for data. */
  lemma ExceptionIsNeverAnAnswer(function_: Byte, code: Byte, transactionId: U16, unitId: Byte, expectedId: U16, quantity: nat)
    ensures var f := EncodeException(function_, code, transactionId, unitId);
            DecodeWriteResponse(f, expectedId, unitId) == Err(ControllerException(code))
            && DecodeReadResponse(f, expectedId, quantity, unitId) == Err(ControllerException(code))
  {
    hide Mbap, DecodeRequest, Pack16, Unpack16, UnpackWords;
    var adu := Adu(transactionId, unitId, WithExceptionFlag(function_), [code]);
    FramingIsABijection(Mbap(adu), adu);
  }
}
