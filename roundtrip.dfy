/**
 * How the pieces fit together: packets built by the openlst-driver sender pass
 * through the deframer and the dispatch of its receiver, and what the deframer makes
 * of a packet in the older uart-can-relay layout.
 */
module RoundTrip {
  import opened Common
  import Framer
  import LstSender
  import LstReceiver
  import RelayLstSender

  /** A fresh framer fed a sender's packet synchronises on its first two bytes. */
  lemma PacketSyncs(hwid: U16, sq: U16, msg: seq<Byte>)
    requires |msg| <= LstSender.MaxLen - LstSender.FullHeaderLen
    ensures Framer.Feed(Framer.Fresh, LstSender.Packet(hwid, sq, msg))
            == (Framer.FramerState(Framer.Len, 2), Some(Framer.Synced(0)))
  {
    var p := LstSender.Packet(hwid, sq, msg);
    assert p == Framer.Magic + p[2..];
    Framer.MagicSyncs(0, p[2..]);
  }

  /**
   * After the sync, the rest of the packet (the framer resumes at offset 2) completes
   * a frame that ends exactly at the end of the packet, `|msg| + 8`.
   */
  lemma PacketFrames(hwid: U16, sq: U16, msg: seq<Byte>)
    requires |msg| <= LstSender.MaxLen - LstSender.FullHeaderLen
    ensures var p := LstSender.Packet(hwid, sq, msg);
      Framer.Feed(Framer.FramerState(Framer.Len, 2), p[2..]) == (Framer.Fresh, Some(Framer.Frame(|p|)))
      && |p| == |msg| + 8
  {
    var p := LstSender.Packet(hwid, sq, msg);
    LstSender.PacketShape(hwid, sq, msg);
    assert p[2..] == [p[2]] + p[3..] + [];
    Framer.AfterSyncFrame(p[2], p[3..], []);
  }

  /** The bytes of the frame after its length byte dispatch to a relay message carrying exactly `msg`. */
  lemma PacketDispatchesToRelay(hwid: U16, sq: U16, msg: seq<Byte>)
    requires |msg| <= LstSender.MaxLen - LstSender.FullHeaderLen
    ensures var frame := LstSender.Packet(hwid, sq, msg)[3..];
      LstReceiver.Dispatchable(frame) && LstReceiver.Dispatch(frame) == Ok(LstReceiver.Relay(msg))
  {
    var p := LstSender.Packet(hwid, sq, msg);
    LstSender.PacketShape(hwid, sq, msg);
    assert p[3..][LstReceiver.HeaderLen..] == msg;
  }

  /**
   * A uart-can-relay packet announces one byte more than follows its length byte, so
   * the openlst framer reaches the packet's end one byte short of a frame.
   */
  lemma RelayPacketOneShort(sq: U16, msg: seq<Byte>)
    requires |msg| <= RelayLstSender.MaxMsgLen - RelayLstSender.HeaderLen
    ensures var p := RelayLstSender.Packet(sq, msg);
      Framer.Feed(Framer.FramerState(Framer.Len, 2), p[2..])
        == (Framer.FramerState(Framer.Payload(p[2], p[2] - 1), |p|), None)
  {
    var p := RelayLstSender.Packet(sq, msg);
    RelayLstSender.PacketShape(sq, msg);
    assert p[2..][0] == p[2] && p[2..][1..] == p[3..];
    assert Framer.Step(Framer.FramerState(Framer.Len, 2), p[2]) == (Framer.FramerState(Framer.Payload(p[2], 0), 3), None);
    Framer.PayloadPending(p[2], 0, 3, p[3..]);
  }
}
