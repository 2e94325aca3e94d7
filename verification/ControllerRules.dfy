/** The controller's rules in the bytes of the request and the numbers of the registers, without the
    decoder and the named constants that the model of the controller is written with. */
module ControllerRules {
  import opened Prelude
  import opened ModbusCodec
  import opened PlcSpec
  import opened WireFormat

  /** The header the controller reads: eight bytes at least, protocol zero, the right length. */
  predicate HasHeader(f: Bytes): (b: bool)
    ensures b <==> DecodeRequest(f).Ok?
  {
    AcceptedHeader(f);
    |f| >= 8 && f[2] == 0 && f[3] == 0 && f[4] as int * 256 + f[5] as int == |f| - 6
  }

  /** What comes before any register is looked at: a broken header is not answered, a foreign peer raises
      the alarm for unauthorised sources, another unit is not reached and does not even move the
      heartbeat. */
  lemma BeforeTheRegisters(cfg: PlcConfig, s: Plc, f: Bytes, peerAllowed: bool)
    ensures |f| < 8 || f[2] != 0 || f[3] != 0 || f[4] as int * 256 + f[5] as int != |f| - 6 ==>
              React(cfg, s, f, peerAllowed) == Reaction(s, Silent)
    ensures HasHeader(f) && !peerAllowed ==>
              React(cfg, s, f, peerAllowed)
              == Reaction(s.(alarms := Alarms(s.alarms.safeState, s.alarms.invalidWrite, true)), Refused(1))
    ensures HasHeader(f) && peerAllowed && f[6] != 1 ==> React(cfg, s, f, peerAllowed) == Reaction(s, Refused(11))
  {
    hide DecodeRequest, ReactToWrite, ReactToRead;
    AcceptedHeader(f);
  }

  /** A request that reaches unit 1 moves the heartbeat; a function other than 3 and 16 does nothing
      else and is refused. */
  lemma EveryRequestTicks(cfg: PlcConfig, s: Plc, f: Bytes)
    requires HasHeader(f) && f[6] == 1
    ensures React(cfg, s, f, true).next.heartbeat == (if cfg.heartbeatEnabled then (s.heartbeat + 1) % 65536 else s.heartbeat)
    ensures f[7] != 3 && f[7] != 16 ==>
              React(cfg, s, f, true) == Reaction(s.(heartbeat := React(cfg, s, f, true).next.heartbeat), Refused(1))
  {
    hide DecodeRequest, ReadValues, DecodeCommand;
    AcceptedHeader(f);
  }

  /** Function 16. Any length but 19 is an illegal value, any other block than the three registers from
      100 on an illegal address; then both directions at once, power beyond the site capacity, an
      unknown mode, or power in safe state. Each raises the alarm for invalid writes and stores nothing.
      What is left is stored and acknowledged, unless its net power does not fit the signed register. */
  lemma WriteRules(cfg: PlcConfig, s: Plc, f: Bytes)
    requires HasHeader(f) && f[6] == 1 && f[7] == 16
    ensures var r := React(cfg, s, f, true);
            var refused := s.(alarms := Alarms(s.alarms.safeState, true, s.alarms.unauthorizedSource), heartbeat := r.next.heartbeat);
            if |f| != 19 then r == Reaction(refused, Refused(3))
            else if f[8] != 0 || f[9] != 100 || f[10] != 0 || f[11] != 3 || f[12] != 6 then r == Reaction(refused, Refused(2))
            else
              var i, e, m := f[13] as int * 256 + f[14] as int, f[15] as int * 256 + f[16] as int, f[17] as int * 256 + f[18] as int;
              if (i != 0 && e != 0) || i as real * 0.1 > cfg.siteCapacityKw || e as real * 0.1 > cfg.siteCapacityKw
                 || m > 1 || (m == 1 && (i != 0 || e != 0))
              then r == Reaction(refused, Refused(3))
              else && r.next.importRaw == i && r.next.exportRaw == e && r.next.mode == m
                   && if -32768 <= i - e <= 32767
                      then && r.answer == Acknowledged
                           && r.next.measured == (if i >= e then i - e else i - e + 65536)
                           && r.next.controller == (if m == 1 then 3 else 2)
                           && r.next.alarms == Alarms(m == 1, false, false)
                      else && r.answer == Raised
                           && r.next.measured == s.measured && r.next.controller == s.controller && r.next.alarms == s.alarms
  {
    hide DecodeRequest, DecodeCommand, Unpack16;
    AcceptedHeader(f);
    var adu := DecodeRequest(f).value;
    assert React(cfg, s, f, true) == ReactToWrite(cfg, Tick(cfg, s), adu);
    if |f| == 19 {
      PayloadAt(f);
      WriteCases(cfg, Tick(cfg, s), adu);
    } else {
      NoOtherLength(adu);
    }
  }

  /** A payload of eleven bytes, case by case. */
  lemma WriteCases(cfg: PlcConfig, s: Plc, adu: Adu)
    requires |adu.payload| == 11 && adu.function_ == 16
    ensures var p, r := adu.payload, ReactToWrite(cfg, s, adu);
            var refused := s.(alarms := s.alarms.(invalidWrite := true));
            var i, e, m := p[5] as int * 256 + p[6] as int, p[7] as int * 256 + p[8] as int, p[9] as int * 256 + p[10] as int;
            if p[0] != 0 || p[1] != 100 || p[2] != 0 || p[3] != 3 || p[4] != 6 then r == Reaction(refused, Refused(2))
            else if (i != 0 && e != 0) || i as real * 0.1 > cfg.siteCapacityKw || e as real * 0.1 > cfg.siteCapacityKw
                    || m > 1 || (m == 1 && (i != 0 || e != 0))
            then r == Reaction(refused, Refused(3))
            else && r.next.importRaw == i && r.next.exportRaw == e && r.next.mode == m && r.next.heartbeat == s.heartbeat
                 && if -32768 <= i - e <= 32767
                    then r.answer == Acknowledged && r.next.measured == (if i >= e then i - e else i - e + 65536)
                         && r.next.controller == (if m == 1 then 3 else 2) && r.next.alarms == Alarms(m == 1, false, false)
                    else r.answer == Raised && r.next.measured == s.measured && r.next.controller == s.controller && r.next.alarms == s.alarms
  {
    hide Unpack16;
    var p := adu.payload;
    WordOf(p[0], p[1]);
    WordOf(p[2], p[3]);
    WordOf(p[5], p[6]);
    WordOf(p[7], p[8]);
    WordOf(p[9], p[10]);
  }

  /** Function 3. A register outside the map is readable only inside the one snapshot range; a scan
      beyond the map raises the alarm for unauthorised sources. Nothing else is stored. */
  lemma ReadRules(cfg: PlcConfig, s: Plc, f: Bytes)
    requires HasHeader(f) && f[6] == 1 && f[7] == 3
    ensures var r := React(cfg, s, f, true);
            var same := s.(heartbeat := r.next.heartbeat);
            if |f| != 12 then r == Reaction(same, Refused(3))
            else
              var a, q := f[8] as int * 256 + f[9] as int, f[10] as int * 256 + f[11] as int;
              if q < 1 || q > 125 || a + q > 65536 then r == Reaction(same, Refused(2))
              else if !(a == 100 && q == 31) && exists k :: a <= k < a + q && !InTheMap(k)
              then r == Reaction(same.(alarms := Alarms(s.alarms.safeState, s.alarms.invalidWrite, true)), Refused(2))
              else r.next == same && r.answer.Values? && |r.answer.values| == q
                   && forall k :: 0 <= k < q ==> Shows(same, a + k, r.answer.values[k])
  {
    hide DecodeRequest, Unpack16, ReadValues, Defined, RegisterAt, ReadableRange, Shows, InTheMap;
    AcceptedHeader(f);
    var adu := DecodeRequest(f).value;
    assert React(cfg, s, f, true) == ReactToRead(Tick(cfg, s), adu);
    if |f| == 12 {
      var p := f[8..];
      assert p[0] == f[8] && p[1] == f[9] && p[2] == f[10] && p[3] == f[11];
      WordOf(p[0], p[1]);
      WordOf(p[2], p[3]);
      var a: int, q: int := Unpack16(p[0], p[1]), Unpack16(p[2], p[3]);
      RangeIsReadable(a, q);
      var values := ReadValues(Tick(cfg, s), a, q);
      forall k | 0 <= k < q ensures Shows(Tick(cfg, s), a + k, values[k]) {
        RegisterShows(Tick(cfg, s), a + k);
      }
    }
  }

  /** The seven registers of the controller. */
  predicate InTheMap(address: int) {
    || address == 100 || address == 101 || address == 102
    || address == 110
    || address == 120 || address == 121
    || address == 130
  }

  /** What a register shows: setpoints, mode, measured power, state, three alarm bits, heartbeat. */
  predicate Shows(s: Plc, address: int, value: int) {
    && (address == 100 ==> value == s.importRaw) && (address == 101 ==> value == s.exportRaw) && (address == 102 ==> value == s.mode)
    && (address == 110 ==> value == s.measured)
    && (address == 120 ==> value == s.controller)
    && (address == 121 ==> && (value % 2 == 1 <==> s.alarms.safeState)
                           && (value / 2 % 2 == 1 <==> s.alarms.invalidWrite)
                           && (value / 8 == 1 <==> s.alarms.unauthorizedSource)
                           && value / 4 % 2 == 0 && 0 <= value < 16)
    && (address == 130 ==> value == s.heartbeat)
    && (!InTheMap(address) ==> value == 0)
  }

  lemma RangeIsReadable(a: int, q: nat)
    ensures !ReadableRange(a, q) <==> !(a == 100 && q == 31) && exists k :: a <= k < a + q && !InTheMap(k)
  {
    hide Defined, InTheMap;
    forall k ensures Defined(k) <==> InTheMap(k) {
      SameMap(k);
    }
  }

  lemma SameMap(k: int)
    ensures Defined(k) <==> InTheMap(k)
  {
  }

  lemma RegisterShows(s: Plc, address: int)
    ensures Shows(s, address, RegisterAt(s, address))
  {
  }

  /** The reply on the wire: an acknowledgement of registers 100 to 102, the values read, or the
      function with its top bit set and the exception code; and nothing at all for the rest. */
  lemma ReplyRules(cfg: PlcConfig, s: Plc, f: Bytes, peerAllowed: bool)
    ensures var answer, reply := React(cfg, s, f, peerAllowed).answer, ReplyTo(cfg, s, f, peerAllowed);
            && (reply.None? <==> answer == Silent || answer == Raised)
            && (reply.Some? ==> |f| >= 8 && Carries(reply.value, answer, f[0] as int * 256 + f[1] as int, f[6], f[7]))
  {
    hide DecodeRequest, ReactToWrite, ReadValues, Wire, Carries;
    AcceptedHeader(f);
    if DecodeRequest(f).Ok? {
      var adu := DecodeRequest(f).value;
      AnsweredShortly(cfg, s, adu, peerAllowed);
      WireCarries(adu, ReactToAdu(cfg, s, adu, peerAllowed).answer);
    }
  }

  /** The bytes of an answer to request `id` of this unit and function. */
  predicate Carries(b: Bytes, answer: Answer, id: int, unit: Byte, function_: Byte) {
    && |b| >= 9 && b[0] as int * 256 + b[1] as int == id && b[2] == 0 && b[3] == 0 && b[6] == unit
    && b[4] as int * 256 + b[5] as int == |b| - 6
    && match answer
       case Acknowledged => |b| == 12 && b[7] == 16 && b[8] as int * 256 + b[9] as int == 100 && b[10] as int * 256 + b[11] as int == 3
       case Values(values) => && |b| == 9 + 2 * |values| && b[7] == 3 && b[8] == 2 * |values|
                              && forall k :: 0 <= k < |values| ==> b[9 + 2 * k] as int * 256 + b[10 + 2 * k] as int == values[k]
       case Refused(code) => |b| == 9 && b[7] == (if function_ >= 128 then function_ else function_ + 128) && b[8] == code
       case _ => false
  }

  lemma AnsweredShortly(cfg: PlcConfig, s: Plc, adu: Adu, peerAllowed: bool)
    ensures var answer := ReactToAdu(cfg, s, adu, peerAllowed).answer;
            answer != Silent && (answer.Values? ==> |answer.values| <= 125)
  {
    hide DecodeCommand, Unpack16;
  }

  lemma WireCarries(adu: Adu, answer: Answer)
    requires answer.Values? ==> |answer.values| <= 125
    ensures Wire(adu, answer).None? <==> answer == Silent || answer == Raised
    ensures Wire(adu, answer).Some? ==> Carries(Wire(adu, answer).value, answer, adu.transactionId, adu.unitId, adu.function_)
  {
    hide EncodeWriteResponse, EncodeReadResponse, EncodeException;
    match answer
    case Acknowledged => AcknowledgementFrame(adu.transactionId, adu.unitId);
    case Values(values) => ReadResponseFrame(values, adu.transactionId, adu.unitId);
    case Refused(code) => ExceptionFrame(adu.function_, code, adu.transactionId, adu.unitId);
    case _ =>
  }
}
