/** The synthetic PLC: a dictionary of registers updated in place by the request handlers. */
module PlcSimulator {
  import opened Prelude
  import opened ModbusCodec
  import opened PlcSpec

  const ALARM_NONE := 0
  const ALARM_SAFE_STATE := 1
  const ALARM_INVALID_WRITE := 2
  const ALARM_UNAUTHORIZED_SOURCE := 8

  /** Bitwise or of a word with a single-bit mask. */
  function OrBit(word: int, bit: int): int
    requires bit > 0
  {
    if (word / bit) % 2 == 1 then word else word + bit
  }

  function AlarmsOf(word: int): Alarms {
    Alarms(word % 2 == 1, (word / 2) % 2 == 1, (word / 8) % 2 == 1)
  }

  lemma OrBitSetsTheFlag(a: Alarms)
    ensures AlarmsOf(a.Word()) == a
    ensures OrBit(a.Word(), ALARM_INVALID_WRITE) == a.(invalidWrite := true).Word()
    ensures OrBit(a.Word(), ALARM_UNAUTHORIZED_SOURCE) == a.(unauthorizedSource := true).Word()
  {
  }

  /** The addresses of a read. */
  function Requested(address: int, quantity: nat): (r: set<int>)
    ensures forall k :: k in r <==> address <= k < address + quantity
    decreases quantity
  {
    if quantity == 0 then {} else {address} + Requested(address + 1, quantity - 1)
  }

  class SimulatedSiteController {
    const siteCapacityKw: real
    const heartbeatEnabled: bool
    var registers: map<int, int>

    ghost function Config(): (c: PlcConfig)
      ensures c.siteCapacityKw == siteCapacityKw
    {
      PlcConfig(siteCapacityKw, heartbeatEnabled)
    }

    ghost predicate Valid()
      reads this
    {
      && registers.Keys == {100, 101, 102, 110, 120, 121, 130}
      && (forall k :: k in registers ==> 0 <= registers[k] < 0x1_0000)
      && AlarmsOf(registers[121]).Word() == registers[121]
    }

    ghost function View(): Plc
      reads this
      requires Valid()
    {
      Plc(registers[100], registers[101], registers[102], registers[110], registers[120], AlarmsOf(registers[121]), registers[130])
    }

    constructor (siteCapacityKw: real, heartbeatEnabled: bool)
      ensures Valid() && View() == INITIAL
      ensures registers == map[100 := 0, 101 := 0, 102 := 0, 110 := 0, 120 := 1, 121 := 0, 130 := 0]
      ensures Config() == PlcConfig(siteCapacityKw, heartbeatEnabled)
    {
      this.siteCapacityKw := siteCapacityKw;
      this.heartbeatEnabled := heartbeatEnabled;
      this.registers := map[
        100 := 0, 101 := 0, 102 := MODE_DISPATCH, 110 := 0, 120 := READY, 121 := ALARM_NONE, 130 := 0];
    }

    method RaiseAlarm(bit: int)
      requires Valid() && bit in {ALARM_INVALID_WRITE, ALARM_UNAUTHORIZED_SOURCE}
      modifies this
      ensures Valid()
      ensures View() == old(View()).(alarms :=
                if bit == ALARM_INVALID_WRITE then old(View()).alarms.(invalidWrite := true)
                else old(View()).alarms.(unauthorizedSource := true))
    {
      OrBitSetsTheFlag(View().alarms);
      registers := registers[121 := OrBit(registers[121], bit)];
      OrBitSetsTheFlag(old(View()).alarms.(invalidWrite := true));
      OrBitSetsTheFlag(old(View()).alarms.(unauthorizedSource := true));
    }

    method InvalidWrite(adu: Adu, code: Byte) returns (reply: Bytes)
      requires Valid() && adu.function_ == WRITE_MULTIPLE_REGISTERS
      modifies this
      ensures Valid()
      ensures View() == old(View()).(alarms := old(View()).alarms.(invalidWrite := true))
      ensures reply == EncodeException(adu.function_, code, adu.transactionId, adu.unitId)
    {
      RaiseAlarm(ALARM_INVALID_WRITE);
      reply := EncodeException(WRITE_MULTIPLE_REGISTERS, code, adu.transactionId, adu.unitId);
    }

    /** Stores an accepted command; `raised` when the measured power does not fit its register,
        which is found out only after registers 100-102 have been stored. */
    method StoreCommand(importRaw: U16, exportRaw: U16, mode: U16) returns (raised: bool)
      requires Valid() && (mode == MODE_DISPATCH || mode == MODE_SAFE_STATE)
      modifies this
      ensures Valid()
      ensures forall c: Command :: c.importRaw == importRaw && c.exportRaw == exportRaw && c.safeState == (mode == MODE_SAFE_STATE) ==>
                raised == !Measurable(c) && View() == if Measurable(c) then Execute(old(View()), c) else StoreSetpoint(old(View()), c)
    {
      hide SignedRegister;
      var setpointKw := RegisterKw(importRaw) - RegisterKw(exportRaw);
      registers := registers[100 := importRaw][101 := exportRaw][102 := mode];
      SignedRegisterOfTenths(importRaw - exportRaw);
      assert setpointKw == (importRaw - exportRaw) as real * 0.1;
      var measured := SignedRegister(setpointKw);
      if measured.Err? {
        return true;
      }
      registers := registers[110 := measured.value];
      if mode == MODE_SAFE_STATE {
        registers := registers[120 := SAFE][121 := ALARM_SAFE_STATE];
      } else {
        registers := registers[120 := ACTIVE][121 := ALARM_NONE];
      }
      return false;
    }

    method HandleWrite(adu: Adu) returns (reply: Option<Bytes>, raised: bool)
      requires Valid() && adu.function_ == WRITE_MULTIPLE_REGISTERS
      modifies this
      ensures Valid()
      ensures View() == ReactToWrite(Config(), old(View()), adu).next
      ensures match ReactToWrite(Config(), old(View()), adu).answer
              case Refused(code) => reply == Some(EncodeException(adu.function_, code, adu.transactionId, adu.unitId)) && !raised
              case Acknowledged => reply == Some(EncodeWriteResponse(adu.transactionId, adu.unitId, SITE_IMPORT_SETPOINT, 3)) && !raised
              case _ => reply == None && raised
    {
      hide EncodeException, EncodeWriteResponse;
      var payload := adu.payload;
      if |payload| != 11 {
        var r := InvalidWrite(adu, ILLEGAL_VALUE);
        return Some(r), false;
      }
      var address, quantity, byteCount := Unpack16(payload[0], payload[1]), Unpack16(payload[2], payload[3]), payload[4];
      var importRaw, exportRaw, mode := Unpack16(payload[5], payload[6]), Unpack16(payload[7], payload[8]), Unpack16(payload[9], payload[10]);
      if address != SITE_IMPORT_SETPOINT || quantity != 3 || byteCount != 6 {
        var r := InvalidWrite(adu, ILLEGAL_ADDRESS);
        return Some(r), false;
      }
      var importKw, exportKw := RegisterKw(importRaw), RegisterKw(exportRaw);
      if (importRaw != 0 && exportRaw != 0)
         || Max(importKw, exportKw) > siteCapacityKw
         || (mode != MODE_DISPATCH && mode != MODE_SAFE_STATE)
         || (mode == MODE_SAFE_STATE && (importRaw != 0 || exportRaw != 0)) {
        var r := InvalidWrite(adu, ILLEGAL_VALUE);
        return Some(r), false;
      }
      ghost var c := Command(adu.transactionId, adu.unitId, importRaw, exportRaw, mode == MODE_SAFE_STATE);
      assert AcceptedCommand(Config(), adu) == Some(c);
      raised := StoreCommand(importRaw, exportRaw, mode);
      assert raised == !Measurable(c);
      if raised {
        return None, true;
      }
      return Some(EncodeWriteResponse(adu.transactionId, adu.unitId, address, quantity)), false;
    }

    method CollectValues(address: int, quantity: nat) returns (values: seq<U16>)
      requires Valid()
      ensures values == ReadValues(View(), address, quantity)
    {
      OrBitSetsTheFlag(View().alarms);
      values := [];
      for offset := 0 to quantity
        invariant |values| == offset
        invariant forall i :: 0 <= i < offset ==> values[i] == RegisterAt(View(), address + i)
      {
        values := values + [if address + offset in registers then registers[address + offset] else 0];
      }
    }

    lemma DefinedAreKeys(address: int, quantity: nat)
      requires Valid()
      ensures Requested(address, quantity) <= registers.Keys
         <==> forall k :: address <= k < address + quantity ==> Defined(k)
    {
      assert forall k :: Defined(k) <==> k in registers.Keys;
      if Requested(address, quantity) <= registers.Keys {
        assert forall k :: address <= k < address + quantity ==> k in Requested(address, quantity);
      }
    }

    method HandleRead(adu: Adu) returns (reply: Bytes)
      requires Valid() && adu.function_ == READ_HOLDING_REGISTERS
      modifies this
      ensures Valid()
      ensures View() == ReactToRead(old(View()), adu).next
      ensures match ReactToRead(old(View()), adu).answer
              case Refused(code) => reply == EncodeException(adu.function_, code, adu.transactionId, adu.unitId)
              case Values(values) => |values| <= 125 && reply == EncodeReadResponse(values, adu.transactionId, adu.unitId)
              case _ => false
    {
      hide EncodeException, EncodeReadResponse, ReadValues, Defined;
      var payload := adu.payload;
      if |payload| != 4 {
        return EncodeException(READ_HOLDING_REGISTERS, ILLEGAL_VALUE, adu.transactionId, adu.unitId);
      }
      var address: int, quantity: int := Unpack16(payload[0], payload[1]), Unpack16(payload[2], payload[3]);
      if quantity < 1 || quantity > 125 || address + quantity > 0x1_0000 {
        return EncodeException(READ_HOLDING_REGISTERS, ILLEGAL_ADDRESS, adu.transactionId, adu.unitId);
      }
      var requested := Requested(address, quantity);
      var snapshotRange := address == SITE_IMPORT_SETPOINT && quantity == HEARTBEAT - SITE_IMPORT_SETPOINT + 1;
      DefinedAreKeys(address, quantity);
      if !snapshotRange && !(requested <= registers.Keys) {
        RaiseAlarm(ALARM_UNAUTHORIZED_SOURCE);
        return EncodeException(READ_HOLDING_REGISTERS, ILLEGAL_ADDRESS, adu.transactionId, adu.unitId);
      }
      var values := CollectValues(address, quantity);
      return EncodeReadResponse(values, adu.transactionId, adu.unitId);
    }

    method HandleRequest(frame: Bytes, peerAllowed: bool) returns (reply: Option<Bytes>, raised: bool)
      requires Valid()
      modifies this
      ensures Valid()
      ensures View() == React(Config(), old(View()), frame, peerAllowed).next
      ensures reply == ReplyTo(Config(), old(View()), frame, peerAllowed)
      ensures raised <==> React(Config(), old(View()), frame, peerAllowed).answer == Raised
    {
      hide EncodeException, EncodeWriteResponse, EncodeReadResponse;
      var decoded := DecodeRequest(frame);
      if decoded.Err? {
        return None, false;
      }
      var adu := decoded.value;
      if !peerAllowed {
        RaiseAlarm(ALARM_UNAUTHORIZED_SOURCE);
        return Some(EncodeException(adu.function_, ILLEGAL_FUNCTION, adu.transactionId, adu.unitId)), false;
      }
      if adu.unitId != 1 {
        return Some(EncodeException(adu.function_, TARGET_FAILED_TO_RESPOND, adu.transactionId, adu.unitId)), false;
      }
      if heartbeatEnabled {
        registers := registers[130 := (registers[130] + 1) % 0x1_0000];
      }
      if adu.function_ == WRITE_MULTIPLE_REGISTERS {
        reply, raised := HandleWrite(adu);
        return;
      }
      if adu.function_ == READ_HOLDING_REGISTERS {
        var r := HandleRead(adu);
        return Some(r), false;
      }
      return Some(EncodeException(adu.function_, ILLEGAL_FUNCTION, adu.transactionId, adu.unitId)), false;
    }
  }
}
