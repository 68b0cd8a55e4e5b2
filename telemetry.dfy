/**
 * The radio's telemetry reply (`LSTTelemetry`, declared identically in
 * openlst-driver/src/lst_receiver.rs, tmtc-air/src/lst_receiver.rs and
 * uart-can-relay/src/lst_receiver.rs) and the fixed offsets the parsers read it from.
 * The first two variants read the words little-endian, the uart-can-relay one
 * big-endian.
 */
module Telemetry {
  import opened Common

  /** The number of payload bytes a telemetry reply needs. */
  const TelemetryLen := 62

  datatype Telemetry = Telemetry(
    uptime: U32,
    rssi: I8,
    lqi: Byte,
    packetsSent: U32,
    packetsGood: U32,
    packetsRejectedChecksum: U32,
    packetsRejectedOther: U32)

  /**
   * The fields of a little-endian reply: uptime at 1..5, rssi (signed) at 35, lqi at
   * 36, packets sent at 38..42, good at 46..50, rejected for checksum at 50..54, and
   * the rejected-other figure as the wrapping sum of the words at 58..62 and 54..58.
   */
  function FieldsLe(msg: seq<Byte>): Telemetry
    requires |msg| >= TelemetryLen
  {
    Telemetry(
      U32Le(msg, 1), AsI8(msg[35]), msg[36], U32Le(msg, 38), U32Le(msg, 46), U32Le(msg, 50),
      WrappingAdd32(U32Le(msg, 58), U32Le(msg, 54)))
  }

  /** The same offsets with every word read big-endian. */
  function FieldsBe(msg: seq<Byte>): Telemetry
    requires |msg| >= TelemetryLen
  {
    Telemetry(
      U32Be(msg, 1), AsI8(msg[35]), msg[36], U32Be(msg, 38), U32Be(msg, 46), U32Be(msg, 50),
      WrappingAdd32(U32Be(msg, 58), U32Be(msg, 54)))
  }

  /** The counters the radio reports, before the receiver folds two of them together. */
  datatype Counters = Counters(
    uptime: U32,
    rssiRaw: Byte,
    lqi: Byte,
    packetsSent: U32,
    packetsGood: U32,
    rejectedChecksum: U32,
    rejectedReserved: U32,
    rejectedOther: U32)

  /** What a receiver should make of `c`. */
  function Summary(c: Counters): Telemetry
  {
    Telemetry(c.uptime, AsI8(c.rssiRaw), c.lqi, c.packetsSent, c.packetsGood, c.rejectedChecksum,
      WrappingAdd32(c.rejectedOther, c.rejectedReserved))
  }

  /**
   * A reference layout of a reply, written field after field (unmodelled fields are
   * zero): a leading byte, uptime, 30 bytes of other counters, rssi, lqi, one byte,
   * packets sent, one word, packets good, and the three rejection counters.
   */
  function Layout(c: Counters, le: bool): (r: seq<Byte>)
    ensures |r| == TelemetryLen
  {
    var word := (x: U32) => if le then U32ToLe(x) else U32ToBe(x);
    [0] + word(c.uptime) + Zeros(30) + [c.rssiRaw, c.lqi, 0] + word(c.packetsSent) + Zeros(4)
      + word(c.packetsGood) + word(c.rejectedChecksum) + word(c.rejectedReserved) + word(c.rejectedOther)
  }

  /** The little-endian field offsets agree with the reference layout. */
  lemma LayoutLeDecodes(c: Counters)
    ensures FieldsLe(Layout(c, true)) == Summary(c)
  {
    var s := Layout(c, true);
    U32LeRoundTrip(s, 1, c.uptime);
    U32LeRoundTrip(s, 38, c.packetsSent);
    U32LeRoundTrip(s, 46, c.packetsGood);
    U32LeRoundTrip(s, 50, c.rejectedChecksum);
    U32LeRoundTrip(s, 54, c.rejectedReserved);
    U32LeRoundTrip(s, 58, c.rejectedOther);
  }

  /** The big-endian field offsets agree with the reference layout. */
  lemma LayoutBeDecodes(c: Counters)
    ensures FieldsBe(Layout(c, false)) == Summary(c)
  {
    var s := Layout(c, false);
    U32BeRoundTrip(s, 1, c.uptime);
    U32BeRoundTrip(s, 38, c.packetsSent);
    U32BeRoundTrip(s, 46, c.packetsGood);
    U32BeRoundTrip(s, 50, c.rejectedChecksum);
    U32BeRoundTrip(s, 54, c.rejectedReserved);
    U32BeRoundTrip(s, 58, c.rejectedOther);
  }

  /** A reply with reserved 2 and other 3 reports 5 packets rejected for other reasons. */
  lemma RejectedOtherExample()
    ensures FieldsLe(Layout(Counters(16, 0xD8, 200, 1000, 990, 5, 2, 3), true))
            == Telemetry(16, -40, 200, 1000, 990, 5, 5)
  {
    LayoutLeDecodes(Counters(16, 0xD8, 200, 1000, 990, 5, 2, 3));
  }
}
