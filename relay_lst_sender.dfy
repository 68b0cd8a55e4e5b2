/**
 * The sender of uart-can-relay/src/lst_sender.rs, the older header layout: length
 * byte `msg_len + 6`, a fixed hardware id 0x0001, and the sequence number high byte
 * first. Each packet goes out in one UART `write` (a DMA transfer of the whole
 * buffer), given here by its outcome; the sink is the `tx` field.
 */
module RelayLstSender {
  import opened Common

  const HeaderLen := 8
  const MaxMsgLen := 256
  const DestinationRelay: Byte := 0x11
  const DestinationLocal: Byte := 0x01

  /** `LSTCmd`. */
  datatype LstCmd = Reboot | GetTelem

  function CmdCode(cmd: LstCmd): Byte
  {
    match cmd
    case Reboot => 0x12
    case GetTelem => 0x17
  }

  /** `SenderError`. */
  datatype SenderError<+E> = MessageTooLong | UartError(error: E)

  /** The header `get_header` builds for sequence number `sq` (the `u8` sum written with its wrap-around). */
  function Header(sq: U16, msgLen: Byte, dest: Byte): (r: seq<Byte>)
    ensures |r| == HeaderLen
  {
    [0x22, 0x69, (msgLen + 6) % 0x100, 0x00, 0x01, HiByte(sq), LoByte(sq), dest]
  }

  function Packet(sq: U16, msg: seq<Byte>): seq<Byte>
    requires |msg| <= MaxMsgLen - HeaderLen
  {
    Header(sq, |msg|, DestinationRelay) + msg
  }

  function CmdPacket(sq: U16, cmd: LstCmd): seq<Byte>
  {
    Header(sq, 1, DestinationLocal) + [CmdCode(cmd)]
  }

  /** The result of the single write. */
  function WriteResult<E>(w: BlockWrite<E>): (r: Result<(), SenderError<E>>)
    ensures r.Ok? <==> w.Completed?
    ensures w.Aborted? ==> r == Err(UartError(w.error))
  {
    if w.Completed? then Ok(()) else Err(UartError(w.error))
  }

  class LstSender<E> {
    var seqNum: U16
    /** The bytes the UART sink has received. */
    var tx: seq<Byte>

    /** `new(uart_tx)`. */
    constructor ()
      ensures seqNum == 0 && tx == []
    {
      seqNum := 0;
      tx := [];
    }

    /** `get_header`. */
    method GetHeader(msgLen: Byte, dest: Byte) returns (header: seq<Byte>)
      modifies this
      ensures header == Header(old(seqNum), msgLen, dest)
      ensures seqNum == WrappingInc16(old(seqNum)) && tx == old(tx)
    {
      header := [0x22, 0x69, (msgLen + 6) % 0x100, 0x00, 0x01, HiByte(seqNum), LoByte(seqNum), dest];
      seqNum := WrappingInc16(seqNum);
    }

    /** `send(msg)`: the length check, then one write of the whole packet. */
    method Send(msg: seq<Byte>, write: BlockWrite<E>) returns (r: Result<(), SenderError<E>>)
      modifies this
      ensures |msg| > MaxMsgLen - HeaderLen ==>
        r == Err(MessageTooLong) && seqNum == old(seqNum) && tx == old(tx)
      ensures |msg| <= MaxMsgLen - HeaderLen ==>
        && seqNum == WrappingInc16(old(seqNum))
        && tx == old(tx) + BlockWritten(Packet(old(seqNum), msg), write)
        && r == WriteResult(write)
    {
      if |msg| > MaxMsgLen - HeaderLen {
        return Err(MessageTooLong);
      }
      var header := GetHeader(|msg|, DestinationRelay);
      var packet := header + msg;
      tx := tx + BlockWritten(packet, write);
      return WriteResult(write);
    }

    /** `send_cmd(cmd)`: one write of the 9-byte command packet. */
    method SendCmd(cmd: LstCmd, write: BlockWrite<E>) returns (r: Result<(), SenderError<E>>)
      modifies this
      ensures seqNum == WrappingInc16(old(seqNum))
      ensures tx == old(tx) + BlockWritten(CmdPacket(old(seqNum), cmd), write)
      ensures r == WriteResult(write)
    {
      var header := GetHeader(1, DestinationLocal);
      var packet := header + [CmdCode(cmd)];
      tx := tx + BlockWritten(packet, write);
      return WriteResult(write);
    }
  }

  /**
   * The header can be read back: the sequence number is big-endian (high byte at
   * offset 5), the hardware id bytes are 0x00 0x01, and an accepted message's length
   * byte is `|msg| + 6 <= 254`, one more than the bytes that follow it.
   */
  lemma PacketShape(sq: U16, msg: seq<Byte>)
    requires |msg| <= MaxMsgLen - HeaderLen
    ensures var p := Packet(sq, msg);
      && |p| == |msg| + HeaderLen && p[..2] == [0x22, 0x69]
      && p[2] == |msg| + 6 <= 254 && p[2] == |p[3..]| + 1
      && p[3..5] == [0x00, 0x01]
      && U16FromBytes(p[6], p[5]) == sq
      && p[7] == DestinationRelay && p[HeaderLen..] == msg
  {
    U16BytesRoundTrip(sq);
  }

  /** A command packet is 9 bytes with length byte 7 and the command code last. */
  lemma CmdPacketShape(sq: U16, cmd: LstCmd)
    ensures var p := CmdPacket(sq, cmd);
      && |p| == HeaderLen + 1 && p[2] == 7 && p[7] == DestinationLocal
      && p[8] == (if cmd == Reboot then 0x12 else 0x17)
  {
  }
}
