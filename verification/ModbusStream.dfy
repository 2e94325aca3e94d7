/** Framing over a byte stream that hands out its bytes in arbitrary pieces. */
module ModbusStream {
  import opened Prelude
  import opened ModbusCodec

  datatype StreamError = ConnectionClosed | InvalidHeader

  function Flatten(segments: seq<Bytes>): Bytes {
    if segments == [] then [] else segments[0] + Flatten(segments[1..])
  }

  /** One end of a connection. `recv` returns at most the bytes asked for, never splits
      the order, and returns nothing only once the peer has closed. */
  class ByteStream {
    var segments: seq<Bytes>

    ghost predicate Valid()
      reads this
    {
      forall k :: 0 <= k < |segments| ==> segments[k] != []
    }

    ghost function Pending(): Bytes
      reads this
    {
      Flatten(segments)
    }

    constructor (segments: seq<Bytes>)
      requires forall k :: 0 <= k < |segments| ==> segments[k] != []
      ensures Valid() && Pending() == Flatten(segments)
    {
      this.segments := segments;
    }

    method Recv(size: nat) returns (block: Bytes)
      requires Valid() && size > 0
      modifies this
      ensures Valid() && |block| <= size
      ensures old(Pending()) == block + Pending()
      ensures block == [] ==> old(Pending()) == []
    {
      if segments == [] {
        return [];
      }
      var first := segments[0];
      if |first| <= size {
        block, segments := first, segments[1..];
      } else {
        block, segments := first[..size], [first[size..]] + segments[1..];
        assert segments[1..] == old(segments)[1..];
        assert first == first[..size] + first[size..];
      }
    }
  }

  method ReceiveExact(stream: ByteStream, size: nat) returns (r: Result<Bytes, StreamError>)
    requires stream.Valid()
    modifies stream
    ensures stream.Valid()
    ensures |old(stream.Pending())| >= size ==>
              r == Ok(old(stream.Pending())[..size]) && stream.Pending() == old(stream.Pending())[size..]
    ensures |old(stream.Pending())| < size ==> r == Err(ConnectionClosed) && stream.Pending() == []
  {
    var chunks: Bytes := [];
    while |chunks| < size
      invariant stream.Valid() && |chunks| <= size
      invariant old(stream.Pending()) == chunks + stream.Pending()
    {
      label before:
      var block := stream.Recv(size - |chunks|);
      if block == [] {
        return Err(ConnectionClosed);
      }
      assert chunks + old@before(stream.Pending()) == (chunks + block) + stream.Pending();
      chunks := chunks + block;
    }
    return Ok(chunks);
  }

  /** What `receive_frame` extracts from the bytes of a connection, however they arrive. */
  function FrameOf(data: Bytes): (r: Result<Bytes, StreamError>)
  {
    if |data| < 7 then Err(ConnectionClosed)
    else
      var length := Unpack16(data[4], data[5]);
      if Unpack16(data[2], data[3]) != 0 || !(2 <= length <= 254) then Err(InvalidHeader)
      else if |data| < 6 + length then Err(ConnectionClosed)
      else Ok(data[..6 + length])
  }

  method ReceiveFrame(stream: ByteStream) returns (r: Result<Bytes, StreamError>)
    requires stream.Valid()
    modifies stream
    ensures stream.Valid()
    ensures r == FrameOf(old(stream.Pending()))
    ensures r.Ok? ==> old(stream.Pending()) == r.value + stream.Pending()
  {
    ghost var data := stream.Pending();
    var h := ReceiveExact(stream, 7);
    if h.Err? {
      return h;
    }
    var header := h.value;
    var length := Unpack16(header[4], header[5]);
    if Unpack16(header[2], header[3]) != 0 || !(2 <= length <= 254) {
      return Err(InvalidHeader);
    }
    var body := ReceiveExact(stream, length - 1);
    if body.Err? {
      return body;
    }
    assert header + body.value == data[..6 + length];
    return Ok(header + body.value);
  }

  /** Every frame with a PDU of 1 to 253 bytes (MODBUS Messaging on TCP/IP V1.0b, section 3.1.3)
      is delivered whole, and no byte after it is consumed. */
  lemma FirstFrameIsDelivered(adu: Adu, rest: Bytes)
    requires |adu.payload| <= 252
    ensures FrameOf(Mbap(adu) + rest) == Ok(Mbap(adu))
  {
    var frame := Mbap(adu);
    FramingIsABijection(frame, adu);
    FrameIsDelivered(frame, rest);
  }

  lemma FrameIsDelivered(frame: Bytes, rest: Bytes)
    requires DecodeRequest(frame).Ok? && |frame| <= 260
    ensures FrameOf(frame + rest) == Ok(frame)
  {
    var data := frame + rest;
    assert forall k | 0 <= k < 8 :: data[k] == frame[k];
    assert data[..|frame|] == frame;
  }

  /** A connection that closes early yields the whole frame or nothing. */
  lemma TruncationIsNeverAFrame(frame: Bytes, cut: nat)
    requires FrameOf(frame) == Ok(frame) && cut <= |frame|
    ensures FrameOf(frame[..cut]).Ok? <==> cut == |frame|
    ensures cut == |frame| ==> FrameOf(frame[..cut]) == Ok(frame)
  {
    assert frame[..|frame|] == frame;
  }
}
