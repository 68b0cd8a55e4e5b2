/**
 * `LSTSender` of openlst-driver/src/lst_sender.rs: builds the 8-byte OpenLST UART
 * header (magic, length, hardware id and sequence number little-endian, destination)
 * and writes packets to a UART sink.
 *
 * The sink is the class's `tx` field, the bytes it has received so far. Its replies
 * are inputs: `send` is given one `Attempt` (the result of a `write` and of the
 * `flush` after it) per loop iteration, and `send_cmd` the outcome of its
 * `write_all` and of its `flush`.
 */
module LstSender {
  import opened Common

  const FullHeaderLen := 8
  const HeaderLen := 5
  const MaxLen := 256
  const DestinationRelay: Byte := 0x11
  const DestinationLocal: Byte := 0x01

  /** `LSTCmd`. */
  datatype LstCmd = Reboot | GetTelem

  /** `cmd as u8`. */
  function CmdCode(cmd: LstCmd): Byte
  {
    match cmd
    case Reboot => 0x12
    case GetTelem => 0x17
  }

  /** `SenderError<UartError>`. */
  datatype SenderError<+E> = MessageTooLong | WriteError(error: E)

  /**
   * The header `get_header` builds for sequence number `sq`. The length byte is a
   * `u8` sum, written here with its wrap-around; the callers never reach it.
   */
  function Header(hwid: U16, sq: U16, msgLen: Byte, dest: Byte): (r: seq<Byte>)
    ensures |r| == FullHeaderLen
  {
    [0x22, 0x69, (msgLen + HeaderLen) % 0x100, LoByte(hwid), HiByte(hwid), LoByte(sq), HiByte(sq), dest]
  }

  /** The packet `send` assembles: a relay header followed by the message. */
  function Packet(hwid: U16, sq: U16, msg: seq<Byte>): seq<Byte>
    requires |msg| <= MaxLen - FullHeaderLen
  {
    Header(hwid, sq, |msg|, DestinationRelay) + msg
  }

  /** The packet `send_cmd` assembles: a local header for one byte, then the command. */
  function CmdPacket(hwid: U16, sq: U16, cmd: LstCmd): seq<Byte>
  {
    Header(hwid, sq, 1, DestinationLocal) + [CmdCode(cmd)]
  }

  /** The sink's replies to one iteration of the write loop. */
  datatype Attempt<+E> = Attempt(write: Result<nat, E>, flush: Outcome<E>)

  /**
   * The write loop from offset `idx`: what the sink receives, and how the loop ends.
   * Each write is offered `packet[idx..]` and takes as many bytes as it reports (at
   * most those offered); `idx` advances by the reported count. Once `script` is used
   * up the sink takes the rest in one write and flushes successfully.
   */
  function Transmit<E>(packet: seq<Byte>, idx: nat, script: seq<Attempt<E>>): (seq<Byte>, Outcome<E>)
    decreases |script|
  {
    if idx >= |packet| then ([], Done)
    else if script == [] then (packet[idx..], Done)
    else match script[0].write
      case Err(e) => ([], Fail(e))
      case Ok(n) =>
        var sent := packet[idx..idx + Min(n, |packet| - idx)];
        match script[0].flush
        case Fail(e) => (sent, Fail(e))
        case Done =>
          var rest := Transmit(packet, idx + n, script[1..]);
          (sent + rest.0, rest.1)
  }

  /** The sink receives a prefix of what is offered, and all of it when the loop ends without error. */
  lemma {:induction false} TransmitSendsPrefix<E>(packet: seq<Byte>, idx: nat, script: seq<Attempt<E>>)
    requires idx <= |packet|
    ensures Transmit(packet, idx, script).0 <= packet[idx..]
    ensures Transmit(packet, idx, script).1.Done? ==> Transmit(packet, idx, script).0 == packet[idx..]
    decreases |script|
  {
    if idx == |packet| {
      assert packet[idx..] == [];
    } else if script != [] && script[0].write.Ok? {
      var n := script[0].write.value;
      var sent := packet[idx..idx + Min(n, |packet| - idx)];
      if script[0].flush.Done? {
        var rest := Transmit(packet, idx + n, script[1..]);
        assert Transmit(packet, idx, script) == (sent + rest.0, rest.1);
        if idx + n <= |packet| {
          TransmitSendsPrefix(packet, idx + n, script[1..]);
          assert packet[idx..] == sent + packet[idx + n..];
        } else {
          assert rest == ([], Done);
          assert sent + rest.0 == packet[idx..];
        }
      }
    }
  }

  /**
   * One iteration of the write loop, unfolded after the bytes `sent` so far: the
   * write takes its count of the offered suffix, `idx` advances by the count, and a
   * flush error stops the loop.
   */
  lemma TransmitUnfold<E>(packet: seq<Byte>, idx: nat, replies: seq<Attempt<E>>, sent: seq<Byte>)
    requires idx < |packet| && replies != [] && replies[0].write.Ok?
    ensures var n := replies[0].write.value;
      var chunk := packet[idx..idx + Min(n, |packet| - idx)];
      var t := Transmit(packet, idx, replies);
      var rest := Transmit(packet, idx + n, replies[1..]);
      && (replies[0].flush.Fail? ==> (sent + t.0, t.1) == (sent + chunk, replies[0].flush))
      && (replies[0].flush.Done? ==> (sent + t.0, t.1) == ((sent + chunk) + rest.0, rest.1))
  {
    var n := replies[0].write.value;
    var chunk := packet[idx..idx + Min(n, |packet| - idx)];
    var rest := Transmit(packet, idx + n, replies[1..]);
    assert sent + (chunk + rest.0) == (sent + chunk) + rest.0;
  }

  /** The sink beyond the script behaves as one write taking everything, with a clean flush. */
  lemma ExhaustedSink<E>(packet: seq<Byte>, idx: nat)
    requires idx < |packet|
    ensures Transmit(packet, idx, []) == Transmit<E>(packet, idx, [Attempt(Ok(|packet| - idx), Done)])
    ensures forall s: seq<Attempt<E>> :: Transmit(packet, |packet|, s) == ([], Done)
  {
    var one: seq<Attempt<E>> := [Attempt(Ok(|packet| - idx), Done)];
    assert one[1..] == [];
    assert packet[idx..idx + (|packet| - idx)] + [] == packet[idx..];
  }

  /** Every attempt accepts at least one byte and flushes. */
  predicate Cooperative<E>(script: seq<Attempt<E>>)
  {
    forall i :: 0 <= i < |script| ==> script[i].write.Ok? && script[i].write.value >= 1 && script[i].flush.Done?
  }

  /**
   * The `while idx < packet.len()` loop of `send`: offers `packet[idx..]`, advances
   * `idx` by the count accepted, flushes, and stops at the first error. Returns the
   * bytes the sink received and how the loop ended.
   */
  method WriteLoop<E>(packet: seq<Byte>, script: seq<Attempt<E>>) returns (sent: seq<Byte>, outcome: Outcome<E>)
    ensures (sent, outcome) == Transmit(packet, 0, script)
    ensures sent <= packet && (outcome.Done? ==> sent == packet)
  {
    ghost var whole := Transmit(packet, 0, script);
    TransmitSendsPrefix(packet, 0, script);
    assert packet[0..] == packet;
    sent := [];
    var idx := 0;
    var k := 0;
    assert script[0..] == script && [] + whole.0 == whole.0;
    while idx < |packet|
      invariant 0 <= k <= |script|
      invariant whole == (sent + Transmit(packet, idx, script[k..]).0, Transmit(packet, idx, script[k..]).1)
      decreases |script| - k + (if idx < |packet| then 1 else 0)
    {
      ghost var replies: seq<Attempt<E>>;
      var attempt;
      if k < |script| {
        attempt := script[k];
        replies := script[k..];
        assert replies[0] == attempt;
        k := k + 1;
      } else {
        attempt := Attempt(Ok(|packet| - idx), Done);
        replies := [attempt];
        ExhaustedSink<E>(packet, idx);
      }
      match attempt.write {
        case Err(e) =>
          assert Transmit(packet, idx, replies) == ([], Fail(e)) && sent + [] == sent;
          return sent, Fail(e);
        case Ok(n) =>
          TransmitUnfold(packet, idx, replies, sent);
          assert replies[1..] == script[k..];
          sent := sent + packet[idx..idx + Min(n, |packet| - idx)];
          if attempt.flush.Fail? {
            return sent, attempt.flush;
          }
          idx := idx + n;
      }
    }
    assert Transmit(packet, idx, script[k..]) == ([], Done) && sent + [] == sent;
    return sent, Done;
  }

  class LstSender<E> {
    const hwid: U16
    var seqNum: U16
    /** The bytes the UART sink has received. */
    var tx: seq<Byte>

    /** `new(uart_tx, hwid)`. */
    constructor (hwid: U16)
      ensures this.hwid == hwid && seqNum == 0 && tx == []
    {
      this.hwid := hwid;
      seqNum := 0;
      tx := [];
    }

    /** `get_header`: the header for the current sequence number, which then advances. */
    method GetHeader(msgLen: Byte, dest: Byte) returns (header: seq<Byte>)
      modifies this
      ensures header == Header(hwid, old(seqNum), msgLen, dest)
      ensures seqNum == WrappingInc16(old(seqNum)) && tx == old(tx)
    {
      header := [0x22, 0x69, (msgLen + HeaderLen) % 0x100, LoByte(hwid), HiByte(hwid), LoByte(seqNum), HiByte(seqNum), dest];
      seqNum := WrappingInc16(seqNum);
    }

    /** `send(msg)`: the length check, then the short-write loop over the packet. */
    method Send(msg: seq<Byte>, script: seq<Attempt<E>>) returns (r: Result<(), SenderError<E>>)
      modifies this
      ensures |msg| > MaxLen - FullHeaderLen ==>
        r == Err(MessageTooLong) && seqNum == old(seqNum) && tx == old(tx)
      ensures |msg| <= MaxLen - FullHeaderLen ==>
        var t := Transmit(Packet(hwid, old(seqNum), msg), 0, script);
        && seqNum == WrappingInc16(old(seqNum))
        && tx == old(tx) + t.0
        && r == (if t.1.Done? then Ok(()) else Err(WriteError(t.1.error)))
    {
      if |msg| > MaxLen - FullHeaderLen {
        return Err(MessageTooLong);
      }
      var header := GetHeader(|msg|, DestinationRelay);
      var packet := header + msg;
      var sent, outcome := WriteLoop(packet, script);
      tx := tx + sent;
      if outcome.Fail? {
        return Err(WriteError(outcome.error));
      }
      return Ok(());
    }

    /** `send_cmd(cmd)`: one `write_all` of the 9-byte command packet, then one flush. */
    method SendCmd(cmd: LstCmd, write: BlockWrite<E>, flush: Outcome<E>) returns (r: Result<(), SenderError<E>>)
      modifies this
      ensures seqNum == WrappingInc16(old(seqNum))
      ensures tx == old(tx) + BlockWritten(CmdPacket(hwid, old(seqNum), cmd), write)
      ensures write.Aborted? ==> r == Err(WriteError(write.error))
      ensures write.Completed? && flush.Fail? ==> r == Err(WriteError(flush.error))
      ensures r.Ok? <==> write.Completed? && flush.Done?
    {
      var header := GetHeader(1, DestinationLocal);
      var packet := header + [CmdCode(cmd)];
      tx := tx + BlockWritten(packet, write);
      if write.Aborted? {
        return Err(WriteError(write.error));
      }
      if flush.Fail? {
        return Err(WriteError(flush.error));
      }
      return Ok(());
    }
  }

  /**
   * The header can be read back: the magic, the length byte, the hardware id and the
   * sequence number (both low byte first) and the destination.
   */
  lemma HeaderDecodes(hwid: U16, sq: U16, msgLen: Byte, dest: Byte)
    ensures var h := Header(hwid, sq, msgLen, dest);
      && h[..2] == [0x22, 0x69]
      && (msgLen <= 0xFF - HeaderLen ==> h[2] == msgLen + HeaderLen)
      && U16FromBytes(h[3], h[4]) == hwid
      && U16FromBytes(h[5], h[6]) == sq
      && h[7] == dest
  {
    U16BytesRoundTrip(hwid);
    U16BytesRoundTrip(sq);
  }

  /**
   * An accepted relay packet is at most 256 bytes and its length byte, the number of
   * bytes after it, stays at most 253 without wrapping; the message follows the header.
   */
  lemma PacketShape(hwid: U16, sq: U16, msg: seq<Byte>)
    requires |msg| <= MaxLen - FullHeaderLen
    ensures var p := Packet(hwid, sq, msg);
      && |p| == |msg| + FullHeaderLen <= MaxLen
      && p[2] == |msg| + HeaderLen == |p| - 3 <= 253
      && p[FullHeaderLen..] == msg && p[7] == DestinationRelay
  {
  }

  /** A command packet is 9 bytes, a local header announcing 6 bytes and the command code. */
  lemma CmdPacketShape(hwid: U16, sq: U16, cmd: LstCmd)
    ensures var p := CmdPacket(hwid, sq, cmd);
      && |p| == FullHeaderLen + 1 && p[2] == 6 && p[7] == DestinationLocal
      && p[8] == (if cmd == Reboot then 0x12 else 0x17)
  {
  }

  /** A sink that accepts at least one byte per write and flushes cleanly receives exactly the packet. */
  lemma {:induction false} CooperativeSinkGetsPacket<E>(packet: seq<Byte>, idx: nat, script: seq<Attempt<E>>)
    requires idx <= |packet| && Cooperative(script)
    ensures Transmit(packet, idx, script) == (packet[idx..], Done)
    decreases |script|
  {
    if idx < |packet| && script != [] {
      var n := script[0].write.value;
      assert Cooperative(script[1..]) by {
        forall i | 0 <= i < |script[1..]|
          ensures script[1..][i].write.Ok? && script[1..][i].write.value >= 1 && script[1..][i].flush.Done?
        {
          assert script[1..][i] == script[i + 1];
        }
      }
      if idx + n <= |packet| {
        CooperativeSinkGetsPacket(packet, idx + n, script[1..]);
        assert packet[idx..] == packet[idx..idx + n] + packet[idx + n..];
      } else {
        assert packet[idx..idx + (|packet| - idx)] + [] == packet[idx..];
      }
    } else if idx == |packet| {
      assert packet[idx..] == [];
    }
  }

  /** The first failing write ends the loop: the sink keeps the bytes accepted before it. */
  lemma FailingWriteStops<E>(packet: seq<Byte>, first: Attempt<E>, e: E, script: seq<Attempt<E>>)
    requires 0 < |packet| && first.write.Ok? && 1 <= first.write.value < |packet| && first.flush.Done?
    ensures Transmit(packet, 0, [first, Attempt(Err(e), Done)] + script)
            == (packet[..first.write.value], Fail(e))
  {
    var s := [first, Attempt(Err(e), Done)] + script;
    var n := first.write.value;
    assert s[0] == first && s[1..][0] == Attempt(Err(e), Done);
    assert Transmit(packet, n, s[1..]) == ([], Fail(e));
    assert packet[0..n] + [] == packet[..n];
  }

  /** The sequence number after `k` headers from `sq`. */
  function Bumped(sq: U16, k: nat): U16
  {
    if k == 0 then sq else WrappingInc16(Bumped(sq, k - 1))
  }

  /** Incrementing then reducing modulo 2^16 is the wrapping increment of the reduced value. */
  lemma WrapStep(a: nat)
    ensures (a + 1) % 0x1_0000 == WrappingInc16(a % 0x1_0000)
  {
    var q := a / 0x1_0000;
    var x := a % 0x1_0000;
    assert a + 1 == q * 0x1_0000 + (x + 1);
    if x + 1 == 0x1_0000 {
      assert a + 1 == (q + 1) * 0x1_0000;
    }
  }

  /** One more header, given the count so far. */
  lemma BumpStep(sq: U16, j: nat)
    requires Bumped(sq, j) == (sq + j) % 0x1_0000
    ensures Bumped(sq, j + 1) == (sq + (j + 1)) % 0x1_0000
  {
    var a: nat := sq + j;
    assert Bumped(sq, j + 1) == WrappingInc16(a % 0x1_0000);
    WrapStep(a);
    assert sq + (j + 1) == a + 1;
  }

  /** Sequence numbers count headers modulo 2^16. */
  lemma {:induction false} BumpedCounts(sq: U16, k: nat)
    ensures Bumped(sq, k) == (sq + k) % 0x1_0000
  {
    if k > 0 {
      var j: nat := k - 1;
      BumpedCounts(sq, j);
      BumpStep(sq, j);
      assert j + 1 == k;
    }
  }
}
