/** The frames of the command path, byte by byte: what stands at each position, in plain arithmetic
    on the bytes and without the codec's own functions. */
module WireFormat {
  import opened Prelude
  import opened Rounding
  import opened ModbusCodec
  import opened ModbusStream

  lemma WordBytes(n: U16)
    ensures Pack16(n)[0] as int * 256 + Pack16(n)[1] as int == n
    ensures n < 256 ==> Pack16(n) == [0, n]
  {
  }

  /** Every frame: transaction id and length most significant byte first, protocol zero, unit, function,
      payload. */
  lemma FrameBytes(adu: Adu)
    requires |adu.payload| + 2 < 0x1_0000
    ensures var f := Mbap(adu);
            && |f| == 8 + |adu.payload|
            && f[0] as int * 256 + f[1] as int == adu.transactionId && f[2] == 0 && f[3] == 0
            && f[4] as int * 256 + f[5] as int == |adu.payload| + 2
            && f[6] == adu.unitId && f[7] == adu.function_ && f[8..] == adu.payload
  {
    hide Pack16, Unpack16;
    WordBytes(adu.transactionId);
    WordBytes(0);
    WordBytes(|adu.payload| + 2);
    var id, length := Pack16(adu.transactionId), Pack16(|adu.payload| + 2);
    var f := Mbap(adu);
    assert f[0] == id[0] && f[1] == id[1] && f[4] == length[0] && f[5] == length[1];
    assert f == id + Pack16(0) + length + [adu.unitId, adu.function_] + adu.payload;
  }

  lemma CommandPayload(importRaw: U16, exportRaw: U16, mode: U16)
    requires mode < 256
    ensures var p := WritePayload(importRaw, exportRaw, mode);
            && p[..5] == [0, 100, 0, 3, 6]
            && p[5] as int * 256 + p[6] as int == importRaw && p[7] as int * 256 + p[8] as int == exportRaw
            && p[9] == 0 && p[10] == mode
  {
    hide Pack16, Unpack16;
    WordBytes(100);
    WordBytes(3);
    WordBytes(importRaw);
    WordBytes(exportRaw);
    WordBytes(mode);
    var i, e := Pack16(importRaw), Pack16(exportRaw);
    assert WritePayload(importRaw, exportRaw, mode) == [0, 100, 0, 3, 6] + i + e + [0, mode];
  }

  lemma AddressPayload(address: U16, quantity: U16)
    ensures var p := AddressQuantity(address, quantity);
            p[0] as int * 256 + p[1] as int == address && p[2] as int * 256 + p[3] as int == quantity
  {
    hide Pack16, Unpack16;
    WordBytes(address);
    WordBytes(quantity);
    var a, q := Pack16(address), Pack16(quantity);
    assert AddressQuantity(address, quantity) == a + q;
  }

  /** Position `k` of a payload stands at position `8 + k` of the frame. */
  lemma InPayload(f: Bytes, p: Bytes, k: nat)
    requires |f| >= 8 && f[8..] == p && k < |p|
    ensures f[8 + k] == p[k]
  {
    assert f[8..][k] == f[8 + k];
  }

  /** The frame of a command: 19 bytes, function 16, three registers from register 100 on, the power in
      tenths of a kW in one of the first two, and the mode in the third. */
  lemma CommandFrame(setpointKw: real, transactionId: int, unitId: int, safeState: bool)
    requires EncodeDispatch(setpointKw, transactionId, unitId, safeState).Ok?
    ensures var f := EncodeDispatch(setpointKw, transactionId, unitId, safeState).value;
            && |f| == 19
            && f[0] as int * 256 + f[1] as int == transactionId
            && f[2] == 0 && f[3] == 0 && f[4] == 0 && f[5] == 13 && f[6] == unitId && f[7] == 16
            && f[8] == 0 && f[9] == 100 && f[10] == 0 && f[11] == 3 && f[12] == 6
            && f[13] as int * 256 + f[14] as int == RoundHalfEven(Max(setpointKw, 0.0) * 10.0)
            && f[15] as int * 256 + f[16] as int == RoundHalfEven(Max(-setpointKw, 0.0) * 10.0)
            && f[17] == 0 && f[18] == (if safeState then 1 else 0)
  {
    hide Pack16, Unpack16, Mbap, WritePayload, RoundHalfEven;
    var importRaw, exportRaw := RoundHalfEven(Max(setpointKw, 0.0) * 10.0), RoundHalfEven(Max(-setpointKw, 0.0) * 10.0);
    var mode := if safeState then 1 else 0;
    var p := WritePayload(importRaw, exportRaw, mode);
    var f := Mbap(Adu(transactionId, unitId, 16, p));
    assert EncodeDispatch(setpointKw, transactionId, unitId, safeState) == Ok(f);
    CommandPayload(importRaw, exportRaw, mode);
    FrameOfCommandPayload(Adu(transactionId, unitId, 16, p), importRaw, exportRaw, mode);
  }

  lemma FrameOfCommandPayload(adu: Adu, importRaw: U16, exportRaw: U16, mode: U16)
    requires |adu.payload| == 11 && adu.payload[..5] == [0, 100, 0, 3, 6]
    requires adu.payload[5] as int * 256 + adu.payload[6] as int == importRaw
    requires adu.payload[7] as int * 256 + adu.payload[8] as int == exportRaw
    requires adu.payload[9] == 0 && adu.payload[10] == mode
    ensures var f := Mbap(adu);
            && |f| == 19
            && f[0] as int * 256 + f[1] as int == adu.transactionId
            && f[2] == 0 && f[3] == 0 && f[4] == 0 && f[5] == 13 && f[6] == adu.unitId && f[7] == adu.function_
            && f[8] == 0 && f[9] == 100 && f[10] == 0 && f[11] == 3 && f[12] == 6
            && f[13] as int * 256 + f[14] as int == importRaw && f[15] as int * 256 + f[16] as int == exportRaw
            && f[17] == 0 && f[18] == mode
  {
    hide Mbap;
    var f, p := Mbap(adu), adu.payload;
    FrameBytes(adu);
    forall k | 0 <= k < 11 ensures f[8 + k] == p[k] {
      InPayload(f, p, k);
    }
    assert p[0] == p[..5][0] && p[1] == p[..5][1] && p[2] == p[..5][2] && p[3] == p[..5][3] && p[4] == p[..5][4];
    assert f[8] == p[0] && f[8 + 1] == p[1] && f[8 + 2] == p[2] && f[8 + 3] == p[3] && f[8 + 4] == p[4] && f[8 + 5] == p[5];
    assert f[8 + 6] == p[6] && f[8 + 7] == p[7] && f[8 + 8] == p[8] && f[8 + 9] == p[9] && f[8 + 10] == p[10];
  }

  lemma FrameOfAddressPayload(adu: Adu, address: U16, quantity: U16)
    requires adu.payload == AddressQuantity(address, quantity)
    ensures var f := Mbap(adu);
            && |f| == 12
            && f[0] as int * 256 + f[1] as int == adu.transactionId
            && f[2] == 0 && f[3] == 0 && f[4] == 0 && f[5] == 6 && f[6] == adu.unitId && f[7] == adu.function_
            && f[8] as int * 256 + f[9] as int == address && f[10] as int * 256 + f[11] as int == quantity
  {
    hide Mbap, AddressQuantity;
    var f, p := Mbap(adu), adu.payload;
    FrameBytes(adu);
    AddressPayload(address, quantity);
    InPayload(f, p, 0);
    InPayload(f, p, 1);
    InPayload(f, p, 2);
    InPayload(f, p, 3);
  }

  /** A read request is encoded exactly for a 16-bit address and 1 to 125 registers; its frame is 12
      bytes, function 3, first register and count. */
  lemma ReadRequestFrame(address: int, quantity: int, transactionId: U16, unitId: Byte)
    ensures EncodeReadRequest(address, quantity, transactionId, unitId).Ok? <==> 0 <= address <= 65535 && 1 <= quantity <= 125
    ensures EncodeReadRequest(address, quantity, transactionId, unitId).Ok? ==>
              var f := EncodeReadRequest(address, quantity, transactionId, unitId).value;
              && |f| == 12
              && f[0] as int * 256 + f[1] as int == transactionId
              && f[2] == 0 && f[3] == 0 && f[4] == 0 && f[5] == 6 && f[6] == unitId && f[7] == 3
              && f[8] as int * 256 + f[9] as int == address && f[10] as int * 256 + f[11] as int == quantity
  {
    hide Pack16, Unpack16, Mbap, AddressQuantity;
    if 0 <= address <= 65535 && 1 <= quantity <= 125 {
      FrameOfAddressPayload(Adu(transactionId, unitId, 3, AddressQuantity(address, quantity)), address, quantity);
    }
  }

  /** The acknowledgement of a command: 12 bytes, function 16, register 100 and three registers. */
  lemma AcknowledgementFrame(transactionId: U16, unitId: Byte)
    ensures var f := EncodeWriteResponse(transactionId, unitId, SITE_IMPORT_SETPOINT, 3);
            && |f| == 12
            && f[0] as int * 256 + f[1] as int == transactionId
            && f[2] == 0 && f[3] == 0 && f[4] == 0 && f[5] == 6 && f[6] == unitId && f[7] == 16
            && f[8] as int * 256 + f[9] as int == 100 && f[10] as int * 256 + f[11] as int == 3
  {
    hide Pack16, Unpack16, Mbap, AddressQuantity;
    FrameOfAddressPayload(Adu(transactionId, unitId, 16, AddressQuantity(SITE_IMPORT_SETPOINT, 3)), SITE_IMPORT_SETPOINT, 3);
  }

  /** Register `i` of a packed list stands at positions `2 i` and `2 i + 1`. */
  lemma {:induction false} PackedWordAt(values: seq<U16>, i: nat)
    requires i < |values|
    ensures PackWords(values)[2 * i] as int * 256 + PackWords(values)[2 * i + 1] as int == values[i]
  {
    hide Pack16, Unpack16;
    WordBytes(values[0]);
    var first, rest := Pack16(values[0]), PackWords(values[1..]);
    assert PackWords(values) == first + rest;
    if i > 0 {
      PackedWordAt(values[1..], i - 1);
      assert PackWords(values)[2 * i] == rest[2 * (i - 1)] && PackWords(values)[2 * i + 1] == rest[2 * (i - 1) + 1];
    }
  }

  /** The answer to a read: function 3, the number of bytes, and each register most significant byte
      first. */
  lemma ReadResponseFrame(values: seq<U16>, transactionId: U16, unitId: Byte)
    requires |values| <= 127
    ensures var f := EncodeReadResponse(values, transactionId, unitId);
            && |f| == 9 + 2 * |values|
            && f[0] as int * 256 + f[1] as int == transactionId
            && f[2] == 0 && f[3] == 0 && f[4] as int * 256 + f[5] as int == 3 + 2 * |values| && f[6] == unitId && f[7] == 3
            && f[8] == 2 * |values|
            && forall i :: 0 <= i < |values| ==> f[9 + 2 * i] as int * 256 + f[10 + 2 * i] as int == values[i]
  {
    hide Pack16, Unpack16, Mbap, PackWords;
    var words := PackWords(values);
    var p: Bytes := [2 * |values|] + words;
    FrameBytes(Adu(transactionId, unitId, 3, p));
    var f := EncodeReadResponse(values, transactionId, unitId);
    InPayload(f, p, 0);
    forall i | 0 <= i < |values| ensures f[9 + 2 * i] as int * 256 + f[10 + 2 * i] as int == values[i] {
      PackedWordAt(values, i);
      InPayload(f, p, 1 + 2 * i);
      InPayload(f, p, 2 + 2 * i);
    }
  }

  /** An exception: nine bytes, the function with its top bit set, and the code. */
  lemma ExceptionFrame(function_: Byte, code: Byte, transactionId: U16, unitId: Byte)
    ensures var f := EncodeException(function_, code, transactionId, unitId);
            && |f| == 9
            && f[0] as int * 256 + f[1] as int == transactionId
            && f[2] == 0 && f[3] == 0 && f[4] == 0 && f[5] == 3 && f[6] == unitId
            && f[7] == (if function_ >= 128 then function_ else function_ + 128) && f[8] == code
  {
    hide Pack16, Unpack16, Mbap;
    var adu := Adu(transactionId, unitId, WithExceptionFlag(function_), [code]);
    FrameBytes(adu);
    InPayload(Mbap(adu), adu.payload, 0);
  }

  // ---------------------------------------------------------------- what is accepted

  lemma WordOf(hi: Byte, lo: Byte)
    ensures Unpack16(hi, lo) == hi as int * 256 + lo as int
    ensures Unpack16(hi, lo) == 0 <==> hi == 0 && lo == 0
    ensures Unpack16(hi, lo) < 256 <==> hi == 0
  {
  }

  /** A request is taken apart exactly when it has eight bytes, protocol zero and the right length. */
  lemma AcceptedHeader(f: Bytes)
    ensures DecodeRequest(f).Ok? <==> |f| >= 8 && f[2] == 0 && f[3] == 0 && f[4] as int * 256 + f[5] as int == |f| - 6
    ensures DecodeRequest(f).Ok? ==>
              var a := DecodeRequest(f).value;
              a.transactionId == f[0] as int * 256 + f[1] as int && a.unitId == f[6] && a.function_ == f[7] && a.payload == f[8..]
  {
    hide Unpack16;
    if |f| >= 8 {
      WordOf(f[0], f[1]);
      WordOf(f[2], f[3]);
      WordOf(f[4], f[5]);
    }
  }

  /** A receiver takes the first whole frame of a byte stream: at most 260 bytes, delimited by the length
      field alone. */
  lemma ReceivedFrame(data: Bytes)
    ensures FrameOf(data).Ok? <==>
              && |data| >= 7 && data[2] == 0 && data[3] == 0
              && 2 <= data[4] as int * 256 + data[5] as int <= 254
              && |data| >= 6 + data[4] as int * 256 + data[5] as int
    ensures FrameOf(data).Ok? ==> FrameOf(data).value == data[..6 + data[4] as int * 256 + data[5] as int]
  {
    hide Unpack16;
    if |data| >= 7 {
      WordOf(data[2], data[3]);
      WordOf(data[4], data[5]);
    }
  }

  /** The payload of a command frame in positions of the frame. */
  lemma PayloadAt(f: Bytes)
    requires |f| == 19
    ensures var p := f[8..];
            && |p| == 11 && p[0] == f[8] && p[1] == f[9] && p[2] == f[10] && p[3] == f[11] && p[4] == f[12] && p[5] == f[13]
            && p[6] == f[14] && p[7] == f[15] && p[8] == f[16] && p[9] == f[17] && p[10] == f[18]
  {
  }

  /** A payload of eleven bytes is a command exactly under these conditions on its bytes. */
  lemma AcceptedPayload(adu: Adu)
    requires |adu.payload| == 11
    ensures var p := adu.payload;
            && (DecodeCommand(adu).Ok? <==>
                  && adu.function_ == 16 && p[0] == 0 && p[1] == 100 && p[2] == 0 && p[3] == 3 && p[4] == 6
                  && ((p[5] == 0 && p[6] == 0) || (p[7] == 0 && p[8] == 0))
                  && p[9] == 0 && (p[10] == 0 || (p[10] == 1 && p[5] == 0 && p[6] == 0 && p[7] == 0 && p[8] == 0)))
            && (DecodeCommand(adu).Ok? ==>
                  DecodeCommand(adu).value == Command(adu.transactionId, adu.unitId,
                    p[5] as int * 256 + p[6] as int, p[7] as int * 256 + p[8] as int, p[10] == 1))
  {
    hide Unpack16;
    var p := adu.payload;
    WordOf(p[0], p[1]);
    WordOf(p[2], p[3]);
    WordOf(p[5], p[6]);
    WordOf(p[7], p[8]);
    WordOf(p[9], p[10]);
  }

  /** The command frames, whatever produced them: power in one direction at most, none in safe state. */
  lemma AcceptedCommandFrame(f: Bytes)
    ensures DecodeDispatch(f).Ok? <==>
              && |f| == 19 && f[2] == 0 && f[3] == 0 && f[4] == 0 && f[5] == 13 && f[7] == 16
              && f[8] == 0 && f[9] == 100 && f[10] == 0 && f[11] == 3 && f[12] == 6
              && ((f[13] == 0 && f[14] == 0) || (f[15] == 0 && f[16] == 0))
              && f[17] == 0 && (f[18] == 0 || (f[18] == 1 && f[13] == 0 && f[14] == 0 && f[15] == 0 && f[16] == 0))
    ensures DecodeDispatch(f).Ok? ==>
              DecodeDispatch(f).value == Command(f[0] as int * 256 + f[1] as int, f[6],
                f[13] as int * 256 + f[14] as int, f[15] as int * 256 + f[16] as int, f[18] == 1)
  {
    hide DecodeRequest, DecodeCommand;
    AcceptedHeader(f);
    if |f| == 19 && DecodeRequest(f).Ok? {
      PayloadAt(f);
      AcceptedPayload(DecodeRequest(f).value);
      LengthIsThirteen(f[4], f[5]);
    } else if DecodeRequest(f).Ok? {
      NoOtherLength(DecodeRequest(f).value);
    }
  }

  lemma LengthIsThirteen(hi: Byte, lo: Byte)
    ensures hi as int * 256 + lo as int == 13 <==> hi == 0 && lo == 13
  {
  }

  lemma NoOtherLength(adu: Adu)
    requires |adu.payload| != 11
    ensures DecodeCommand(adu) == Err(NotACommandWrite)
  {
  }

  /** A response with the top bit of its function set is the exception whose code is its first byte, or 0. */
  lemma AnyExceptionIsReported(adu: Adu, transactionId: U16, quantity: nat, unitId: Byte)
    requires |adu.payload| + 2 < 0x1_0000 && adu.function_ >= 128
    ensures var code := if |adu.payload| == 0 then 0 else adu.payload[0];
            && DecodeWriteResponse(Mbap(adu), transactionId, unitId) == Err(ControllerException(code))
            && DecodeReadResponse(Mbap(adu), transactionId, quantity, unitId) == Err(ControllerException(code))
  {
    hide Mbap, DecodeRequest, Unpack16, CountedWords;
    FramingIsABijection(Mbap(adu), adu);
  }

  /** A power reading: raw tenths, the upper half of the range negative. */
  lemma PowerOfRegisters(raw: U16)
    ensures RegisterKw(raw) == raw as real / 10.0
    ensures SignedRegisterKw(raw) == (if raw < 32768 then raw as real / 10.0 else (raw - 65536) as real / 10.0)
  {
  }
}
