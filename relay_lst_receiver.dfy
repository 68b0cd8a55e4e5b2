/**
 * The receiver of uart-can-relay/src/lst_receiver.rs: the 8-byte-header revision with
 * big-endian telemetry words. Unlike the tmtc-air variant it slices the payload to
 * the end of the whole buffer, not to the count `read_until_idle` reported, and its
 * `Unknown` carries no code.
 */
module RelayLstReceiver {
  import opened Common
  import opened Telemetry

  const HeaderLen := 8
  const DestinationOffset := 7
  const DestinationRelay: Byte := 0x11
  const DestinationLocal: Byte := 0x01

  /** `ReceiverError`. */
  datatype ReceiverError = ParseError(reason: string) | UartError(error: IoError)

  /** `LSTMessage`. */
  datatype Message = Relay(payload: seq<Byte>) | Telem(telemetry: Telemetry) | Ack | Nack | Unknown

  /** `parse_telem`: big-endian, whole or refused. */
  function ParseTelem(msg: seq<Byte>): (r: Result<Telemetry, ReceiverError>)
    ensures r.Err? <==> |msg| < TelemetryLen
    ensures r.Err? ==> r.error == ParseError("telem msg too short")
    ensures r.Ok? ==> r.value == FieldsBe(msg)
  {
    if |msg| < TelemetryLen then Err(ParseError("telem msg too short")) else Ok(FieldsBe(msg))
  }

  /** `parse_local_msg`: 0x10 Ack, 0xFF Nack, 0x18 telemetry, anything else `Unknown`. */
  function ParseLocalMsg(msg: seq<Byte>): (r: Result<Message, ReceiverError>)
    requires |msg| >= 1
    ensures r.Err? <==> msg[0] == 0x18 && |msg| < 1 + TelemetryLen
    ensures r.Ok? && r.value.Telem? ==> msg[0] == 0x18 && r.value.telemetry == FieldsBe(msg[1..])
    ensures r == Ok(Ack) <==> msg[0] == 0x10
    ensures r == Ok(Nack) <==> msg[0] == 0xFF
    ensures r == Ok(Unknown) <==> msg[0] !in {0x10, 0xFF, 0x18}
    ensures r.Ok? ==> !r.value.Relay?
  {
    match msg[0]
    case 0x10 => Ok(Ack)
    case 0xFF => Ok(Nack)
    case 0x18 =>
      (match ParseTelem(msg[1..])
       case Ok(t) => Ok(Telem(t))
       case Err(e) => Err(e))
    case _ => Ok(Unknown)
  }

  /** `receive(buffer)`, given the outcome of `read_until_idle`. */
  function Receive(buffer: seq<Byte>, read: Result<nat, IoError>): (r: Result<Message, ReceiverError>)
    requires read.Ok? ==> read.value <= |buffer|
    ensures read.Err? ==> r == Err(UartError(read.error))
    ensures read.Ok? && read.value <= HeaderLen ==> r == Err(ParseError("Message incomplete"))
    ensures read.Ok? && read.value > HeaderLen && buffer[DestinationOffset] == DestinationLocal
            ==> r == ParseLocalMsg(buffer[HeaderLen..])
    ensures read.Ok? && read.value > HeaderLen && buffer[DestinationOffset] == DestinationRelay
            ==> r == Ok(Relay(buffer[HeaderLen..]))
    ensures read.Ok? && read.value > HeaderLen && buffer[DestinationOffset] !in {DestinationLocal, DestinationRelay}
            ==> r == Ok(Unknown)
  {
    match read
    case Err(e) => Err(UartError(e))
    case Ok(len) =>
      if len <= HeaderLen then Err(ParseError("Message incomplete"))
      else if buffer[DestinationOffset] == DestinationLocal then ParseLocalMsg(buffer[HeaderLen..])
      else if buffer[DestinationOffset] == DestinationRelay then Ok(Relay(buffer[HeaderLen..]))
      else Ok(Unknown)
  }

  /**
   * Past the header check, the count that was read plays no part: a relay message is
   * everything after the header, including stale bytes beyond the count.
   */
  lemma ReadCountIgnored(buffer: seq<Byte>, len1: nat, len2: nat)
    requires HeaderLen < len1 <= |buffer| && HeaderLen < len2 <= |buffer|
    ensures Receive(buffer, Ok(len1)) == Receive(buffer, Ok(len2))
    ensures buffer[DestinationOffset] == DestinationRelay ==>
      Receive(buffer, Ok(len1)) == Ok(Relay(buffer[HeaderLen..])) && |buffer[HeaderLen..]| == |buffer| - HeaderLen
  {
  }
}
