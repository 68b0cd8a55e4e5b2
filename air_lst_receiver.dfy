/**
 * The receiver of tmtc-air/src/lst_receiver.rs, an earlier protocol revision with an
 * 8-byte header read from the start of the buffer (magic, length, hardware id,
 * sequence number, destination at offset 7). It reads one burst with
 * `read_until_idle`, which reports how many bytes of `buffer` it filled; a relay
 * message is returned as the index range of its payload, not as bytes.
 */
module AirLstReceiver {
  import opened Common
  import opened Telemetry

  const HeaderLen := 8
  const DestinationOffset := 7
  const DestinationRelay: Byte := 0x11
  const DestinationLocal: Byte := 0x01

  /** `ReceiverError`. */
  datatype ReceiverError = ParseError(reason: string) | UartError(error: IoError)

  /** `LSTMessage`; `Relay(from, until)` is the range `from..until` of the buffer. */
  datatype Message = Relay(from: nat, until: nat) | Telem(telemetry: Telemetry) | Ack | Nack | Unknown(code: Byte)

  /** `parse_telem`: little-endian, whole or refused. */
  function ParseTelem(msg: seq<Byte>): (r: Result<Telemetry, ReceiverError>)
    ensures r.Err? <==> |msg| < TelemetryLen
    ensures r.Err? ==> r.error == ParseError("telem msg too short")
    ensures r.Ok? ==> r.value == FieldsLe(msg)
  {
    if |msg| < TelemetryLen then Err(ParseError("telem msg too short")) else Ok(FieldsLe(msg))
  }

  /** `parse_local_msg`: 0x10 Ack, 0xFF Nack, 0x18 telemetry, any other byte `Unknown` of it. */
  function ParseLocalMsg(msg: seq<Byte>): (r: Result<Message, ReceiverError>)
    requires |msg| >= 1
    ensures r.Err? <==> msg[0] == 0x18 && |msg| < 1 + TelemetryLen
    ensures r.Ok? && r.value.Telem? <==> msg[0] == 0x18 && |msg| >= 1 + TelemetryLen
    ensures r.Ok? && r.value.Telem? ==> r.value.telemetry == FieldsLe(msg[1..])
    ensures r == Ok(Ack) <==> msg[0] == 0x10
    ensures r == Ok(Nack) <==> msg[0] == 0xFF
    ensures r.Ok? && r.value.Unknown? <==> msg[0] !in {0x10, 0xFF, 0x18}
    ensures r.Ok? && r.value.Unknown? ==> r.value.code == msg[0]
    ensures r.Ok? ==> !r.value.Relay?
  {
    match msg[0]
    case 0x10 => Ok(Ack)
    case 0xFF => Ok(Nack)
    case 0x18 =>
      (match ParseTelem(msg[1..])
       case Ok(t) => Ok(Telem(t))
       case Err(e) => Err(e))
    case _ => Ok(Unknown(msg[0]))
  }

  /**
   * `receive(buffer)`, given the outcome of `read_until_idle`: the count of bytes it
   * placed at the start of `buffer`, or the UART error.
   */
  function Receive(buffer: seq<Byte>, read: Result<nat, IoError>): (r: Result<Message, ReceiverError>)
    requires read.Ok? ==> read.value <= |buffer|
    ensures read.Err? ==> r == Err(UartError(read.error))
    ensures read.Ok? && read.value <= HeaderLen ==> r == Err(ParseError("Message incomplete"))
    ensures read.Ok? && read.value > HeaderLen && buffer[DestinationOffset] == DestinationLocal
            ==> r == ParseLocalMsg(buffer[HeaderLen..read.value])
    ensures read.Ok? && read.value > HeaderLen && buffer[DestinationOffset] == DestinationRelay
            ==> r == Ok(Relay(HeaderLen, read.value))
    ensures read.Ok? && read.value > HeaderLen && buffer[DestinationOffset] !in {DestinationLocal, DestinationRelay}
            ==> r == Ok(Unknown(0x00))
    ensures r.Ok? && r.value.Relay? ==> HeaderLen < r.value.until <= |buffer|
  {
    match read
    case Err(e) => Err(UartError(e))
    case Ok(len) =>
      if len <= HeaderLen then Err(ParseError("Message incomplete"))
      else if buffer[DestinationOffset] == DestinationLocal then ParseLocalMsg(buffer[HeaderLen..len])
      else if buffer[DestinationOffset] == DestinationRelay then Ok(Relay(HeaderLen, len))
      else Ok(Unknown(0x00))
  }

  /** Bytes of `buffer` beyond the reported count never affect the result. */
  lemma StaleBytesIgnored(b1: seq<Byte>, b2: seq<Byte>, len: nat)
    requires len <= |b1| && len <= |b2| && b1[..len] == b2[..len]
    ensures Receive(b1, Ok(len)) == Receive(b2, Ok(len))
  {
    if len > HeaderLen {
      assert b1[DestinationOffset] == b1[..len][DestinationOffset];
      assert b2[DestinationOffset] == b2[..len][DestinationOffset];
      assert b1[HeaderLen..len] == b1[..len][HeaderLen..];
      assert b2[HeaderLen..len] == b2[..len][HeaderLen..];
    }
  }
}
