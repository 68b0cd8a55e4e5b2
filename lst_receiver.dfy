/**
 * The frame decoding of openlst-driver/src/lst_receiver.rs: `parse_telem`,
 * `parse_local_msg` and the destination dispatch of `receive`, over the bytes that
 * follow the length byte of a frame (hardware id, sequence number, destination,
 * payload). The receiver's ingest buffer is a `SerialRingbuffer` with 64 slots and
 * a 32-slot read window, started from all-zero cursors.
 */
module LstReceiver {
  import opened Common
  import opened Telemetry
  import Ringbuffer

  const HeaderLen := 5
  const DestinationPtr := 4
  const DestinationRelay: Byte := 0x11
  const DestinationLocal: Byte := 0x01
  const UartRxBufSize := 32

  const CmdAck: Byte := 0x10
  const CmdNack: Byte := 0xFF
  const CmdTelem: Byte := 0x18

  /** `ReceiverError<UartError>`. */
  datatype ReceiverError = ParseError(reason: string) | ReadError(read: Ringbuffer.PushErr<IoError>)

  /** `LSTMessage`. */
  datatype Message = Relay(payload: seq<Byte>) | Telem(telemetry: Telemetry) | Ack | Nack | Unknown(code: Byte)

  /** `parse_telem`: a reply of 62 or more bytes is decoded whole, a shorter one is refused. */
  function ParseTelem(msg: seq<Byte>): (r: Result<Telemetry, ReceiverError>)
    ensures r.Err? <==> |msg| < TelemetryLen
    ensures r.Err? ==> r.error == ParseError("telem msg too short")
    ensures r.Ok? ==> r.value == FieldsLe(msg)
  {
    if |msg| < TelemetryLen then Err(ParseError("telem msg too short")) else Ok(FieldsLe(msg))
  }

  /** `parse_local_msg`: the first byte selects the reply kind. */
  function ParseLocalMsg(msg: seq<Byte>): (r: Result<Message, ReceiverError>)
    requires |msg| >= 1
    ensures r.Err? <==> msg[0] == CmdTelem && |msg| < 1 + TelemetryLen
    ensures r.Ok? && r.value.Telem? <==> msg[0] == CmdTelem && |msg| >= 1 + TelemetryLen
    ensures r.Ok? && r.value.Telem? ==> r.value.telemetry == FieldsLe(msg[1..])
    ensures r == Ok(Ack) <==> msg[0] == CmdAck
    ensures r == Ok(Nack) <==> msg[0] == CmdNack
    ensures r.Ok? && r.value.Unknown? <==> msg[0] !in {CmdAck, CmdNack, CmdTelem}
    ensures r.Ok? && r.value.Unknown? ==> r.value.code == msg[0]
  {
    match msg[0]
    case 0x10 => Ok(Ack)
    case 0xFF => Ok(Nack)
    case 0x18 =>
      (match ParseTelem(msg[1..])
       case Ok(t) => Ok(Telem(t))
       case Err(e) => Err(e))
    case _ => Ok(Unknown(msg[0]))
  }

  /** What the dispatch needs of a frame: a destination byte, and a command byte for local ones. */
  predicate Dispatchable(frame: seq<Byte>)
  {
    |frame| > DestinationPtr && (frame[DestinationPtr] == DestinationLocal ==> |frame| > HeaderLen)
  }

  /** The destination dispatch of `receive` on a frame. */
  function Dispatch(frame: seq<Byte>): (r: Result<Message, ReceiverError>)
    requires Dispatchable(frame)
    ensures frame[DestinationPtr] == DestinationRelay ==> r == Ok(Relay(frame[HeaderLen..]))
    ensures frame[DestinationPtr] == DestinationLocal ==> r == ParseLocalMsg(frame[HeaderLen..])
    ensures frame[DestinationPtr] !in {DestinationRelay, DestinationLocal} ==> r == Ok(Unknown(0x00))
  {
    if frame[DestinationPtr] == DestinationLocal then ParseLocalMsg(frame[HeaderLen..])
    else if frame[DestinationPtr] == DestinationRelay then Ok(Relay(frame[HeaderLen..]))
    else Ok(Unknown(0x00))
  }

  /**
   * `receive`, given the outcome of waiting for a frame: a failed `push_from_read`
   * surfaces as `ReadError` and no frame is looked at; otherwise the frame is dispatched.
   */
  function Receive(waited: Result<seq<Byte>, Ringbuffer.PushErr<IoError>>): (r: Result<Message, ReceiverError>)
    requires waited.Ok? ==> Dispatchable(waited.value)
    ensures waited.Err? ==> r == Err(ReadError(waited.error))
    ensures waited.Ok? ==> r == Dispatch(waited.value)
  {
    match waited
    case Err(e) => Err(ReadError(e))
    case Ok(frame) => Dispatch(frame)
  }

  /**
   * The receiver's buffer (`SerialRingbuffer::new(0)` with 64 slots and a 32-slot
   * window) can never read: from its initial state every push is refused with
   * `Overflow` and every pop is `Empty`, whatever the calls.
   */
  lemma ReceiverBufferNeverReads(calls: seq<Ringbuffer.Call<IoError>>)
    requires Ringbuffer.ReadsFit(UartRxBufSize, calls)
    ensures var s := Ringbuffer.Initial(2 * UartRxBufSize, 0);
      && Ringbuffer.Run(2 * UartRxBufSize, UartRxBufSize, s, calls).0 == s
      && (forall i :: 0 <= i < |calls| && calls[i].PushCall? ==>
           Ringbuffer.Run(2 * UartRxBufSize, UartRxBufSize, s, calls).1[i] == Ringbuffer.Pushed(Err(Ringbuffer.Overflow)))
      && (forall i :: 0 <= i < |calls| && calls[i].PopCall? ==>
           Ringbuffer.Run(2 * UartRxBufSize, UartRxBufSize, s, calls).1[i] == Ringbuffer.Popped(Err(Ringbuffer.Empty)))
  {
    Ringbuffer.IdleForever(2 * UartRxBufSize, UartRxBufSize, Ringbuffer.Initial(2 * UartRxBufSize, 0), calls);
  }
}
