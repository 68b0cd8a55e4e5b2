# rocketlst-software protocol core in Dafny

A verified model of the byte-level protocol code of the rocketlst software: the code between an OpenLST radio modem on a UART and a CAN bus. The model covers six parts:

- **Serial ingest buffer** (`Ringbuffer`). This is `SerialRingbuffer`: a fixed array with `head`, `tail` and `len` cursors. `pop` rewinds virtually to index 0. `push_from_read` fills a window of `SN` slots with one read.
- **Deframer** (`Framer`). A Sync/Len/Payload state machine over the magic bytes 0x22 0x69. It reports where it synchronised and where a frame ended.
- **Frame decoding**, in three variants:
  - `LstReceiver`: openlst-driver, 5-byte inner header, little-endian telemetry.
  - `AirLstReceiver`: tmtc-air, 8-byte header, relay payload as an index range.
  - `RelayLstReceiver`: uart-can-relay, 8-byte header, big-endian telemetry, payload sliced to the end of the buffer.
- **Supporting modules for decoding and encoding**:
  - `Telemetry`: the shared telemetry record.
  - `Common`: byte and word helpers.
- **Frame encoding**, two senders:
  - `LstSender`: openlst-driver, with a short-write loop.
  - `RelayLstSender`: uart-can-relay, older header layout, one write per packet.
- **RODOS CAN reassembly**:
  - `RodosCanReceiver`: fragment decoding and per-id reassembly into a bounded table.
  - `RodosCanRelay`: the extended-id filters built for topics.
  - `CanConfig`: the eight-slot standard-id filter list of tmtc-air.
- **CRC-16** (`Crc16`). The ground station's bitwise CRC-16/CCITT-FALSE over `bv16`.

`RoundTrip` connects the modules. A packet from the openlst-driver sender synchronises the deframer at offset 0 and completes a frame at its own length, and its inner bytes dispatch to a relay message carrying the original bytes.

Stateful source objects are classes whose methods change their fields. Each method is proved to follow a function over the object's abstract value (`PopSpec`, `PushSpec`, `Feed`, `Process`, `Transmit`, `Push`). The lemmas are proved about those functions. Bytes are `int` subsets in protocol code and `bv8`/`bv16` in the CRC.

Reading the code closely shows several facts that the model keeps as they are:

- **The receive buffer never reads.** The openlst-driver receiver's ring buffer starts with all cursors at zero. From that state every push is refused with `Overflow` and `pop` cannot leave it, so the buffer never reads (`Ringbuffer.IdleForever`, `LstReceiver.ReceiverBufferNeverReads`).
- **The deframer skips a real sync.** After a mismatch it does not test the byte again, so `22 22 69` is not a sync (`Framer.FalseStartHidesSync`).
- **The CAN buffer can overflow.** The reassembler checks `seq_len * 5` against the capacity, but completion needs `seq_len + 1` fragments. The last fragment can therefore overrun the buffer; heapless `extend` panics there (`RodosCanReceiver.CapacityGap`, `RelayCapacityGap`).
- **Completed messages stay in the table.** A completed message is not cleared, so a later fragment can be appended to the stale bytes (`StaleBufferAbsorbsNextMessage`). Ids are never removed, so once the table is full a new source stays locked out (`NewSourceLockedOut`).
- **The uart-can-relay length byte is one high.** That sender's length byte counts one byte more than follows it (`RelayLstSender.PacketShape`, `RoundTrip.RelayPacketOneShort`).

In three places the CAN reassembler's own comments (uart-can-relay/src/rodos_can_relay/receiver.rs) say more than its code does. The model follows the code:

- **Clearing.** The comment at lines 136-137 says the completed frame is returned and the buffer cleared; the code at lines 138-145 returns a view of the buffer and leaves it in the table (`CompletionKeepsBuffer`).
- **Fragment count.** The comment at line 135 speaks of the buffer length reaching the sequence length; the code at line 138 compares the fragment number, `seq_num >= seq_len`, so a message takes `seq_len + 1` fragments, and `InOrderReassembly` is stated that way.
- **Overflow.** The guard at line 109 bounds `seq_len * 5` only; the `extend` at line 124 can then exceed the capacity, which the model reports as `Overrun`.

## Model

| member | source | states |
|---|---|---|
| Ringbuffer.PopSpec | openlst-driver/src/lst_receiver/ringbuffer.rs:26-38 | rewinds (`len := head`, `tail := 0`) once `tail >= len`. Then it fails with `Empty` exactly when `head == tail`. Otherwise it returns the byte at the rewound `tail` and advances `tail` by one. `storage` and `head` never change |
| Ringbuffer.PushSpec | openlst-driver/src/lst_receiver/ringbuffer.rs:39-56 | `Overflow` exactly when the reader has not drained the window (`tail < SN` in the upper branch, `tail < head + SN` in the lower), and then state unchanged. A read failure gives `Serial`, state unchanged. On success: the upper branch sets `head` to the count read, the lower adds it; `len = max(len, head)`; `tail` unchanged; storage overwritten at the window; cursors stay within `N` |
| Ringbuffer.SerialRingbuffer.constructor | openlst-driver/src/lst_receiver/ringbuffer.rs:22-25 | storage filled with `val`, all cursors 0 |
| Ringbuffer.SerialRingbuffer.Pop | openlst-driver/src/lst_receiver/ringbuffer.rs:26-38 | the new cursors and the result are those of `PopSpec` |
| Ringbuffer.SerialRingbuffer.PushFromRead | openlst-driver/src/lst_receiver/ringbuffer.rs:39-56 | the new array contents, the new cursors and the result are those of `PushSpec`; the read fills the window slot by slot |
| Ringbuffer.Run | openlst-driver/src/lst_receiver/ringbuffer.rs:26-56 | any sequence of pops and pushes keeps the cursor bounds and yields one reply per call |
| Ringbuffer.IdleForever | openlst-driver/src/lst_receiver/ringbuffer.rs:24-52 | from all-zero cursors and `SN > 0`, every push is `Overflow` and every pop is `Empty`, and the state never changes |
| Ringbuffer.OverflowIgnoresRead | openlst-driver/src/lst_receiver/ringbuffer.rs:41-50 | on `Overflow` the read is never performed: any read outcome gives the same unchanged state |
| Ringbuffer.LowerWindowInBounds | openlst-driver/src/lst_receiver/ringbuffer.rs:47-51 | the lower window `head..head+SN` lies inside the storage |
| LstReceiver.ReceiverBufferNeverReads | openlst-driver/src/lst_receiver.rs:19-53 | the receiver's 64/32 buffer built with `new(0)` answers every push with `Overflow` and every pop with `Empty`, whatever the calls |
| Framer.Step | openlst-driver/src/lst_receiver/framer.rs:30-64 | one byte keeps the framer invariant: the magic index stays below 2, `ptr` covers the matched magic bytes, and a payload in progress has bytes left |
| Framer.Feed | openlst-driver/src/lst_receiver/framer.rs:28-68 | feeding stops at the first response; with no response `ptr` has advanced by exactly the number of bytes fed |
| Framer.Framer.constructor | openlst-driver/src/lst_receiver/framer.rs:21-26 | starts in `Sync(0)` with `ptr = 0` |
| Framer.Framer.Push | openlst-driver/src/lst_receiver/framer.rs:28-68 | consumes `buf[ptr..ptr+len]` (requiring it to exist); the new state, `ptr` and the response are those of `Feed` |
| Framer.FeedConcat | openlst-driver/src/lst_receiver/framer.rs:29-67 | with no response, feeding `a + b` is feeding `a` then `b` |
| Framer.FedPrefixResponds | openlst-driver/src/lst_receiver/framer.rs:29-67 | once a prefix produces a response, later bytes are never looked at |
| Framer.SkipsNonMagic | openlst-driver/src/lst_receiver/framer.rs:32-44 | bytes other than 0x22 in `Sync(0)` produce nothing and only advance `ptr` |
| Framer.MagicSyncs | openlst-driver/src/lst_receiver/framer.rs:33-39 | the magic pair reports `Synced` at its own offset, enters Len and sets `ptr = 2` |
| Framer.GarbageThenSync | openlst-driver/src/lst_receiver/framer.rs:29-44 | garbage free of 0x22 followed by the magic syncs at the length of the garbage |
| Framer.FalseStartHidesSync | openlst-driver/src/lst_receiver/framer.rs:33-43 | `22 22 69` from a fresh framer is not a sync: it ends in `Sync(0)` with `ptr = 3` |
| Framer.ZeroLengthResyncs | openlst-driver/src/lst_receiver/framer.rs:46-50 | a zero length byte returns to `Sync(0)` without resetting `ptr` |
| Framer.PayloadCompletes | openlst-driver/src/lst_receiver/framer.rs:56-64 | the remaining `len - pos` payload bytes end the frame at `ptr + len - pos` and reset to `Sync(0)`, `ptr = 0` |
| Framer.PayloadPending | openlst-driver/src/lst_receiver/framer.rs:56-64 | fewer payload bytes than remain are absorbed with no response |
| Framer.AfterSyncFrame | openlst-driver/src/lst_receiver/framer.rs:46-64 | after `Synced` (`ptr = 2`), a length byte L ≥ 1 and L bytes give `Frame(3 + L)`, with no other bound on L |
| Crc16.ShiftOut | tmtc-ground/src/main.rs:136-142 | the inner loop applies eight rounds of shift left and conditional XOR with 0x1021 |
| Crc16.CrcCcitt | tmtc-ground/src/main.rs:132-145 | the outer loop computes the left fold `Crc` of the input from 0xFFFF; the empty input gives 0xFFFF |
| Crc16.CrcAppend | tmtc-ground/src/main.rs:134-143 | appending a byte XORs it into the high byte of the previous CRC and applies eight rounds of shift and conditional XOR with 0x1021 |
| Crc16.Step | tmtc-ground/src/main.rs:135-142 | one pass of the outer loop: the byte XORed into the high byte of the register, then eight rounds of shift left with conditional XOR of 0x1021 on a carry out of bit 15 |
| Crc16.Crc | tmtc-ground/src/main.rs:132-145 | the value `crc_ccitt` returns: 0xFFFF for no bytes, otherwise `Step` of the CRC of all but the last byte and the last byte |
| Crc16.CrcConcat | tmtc-ground/src/main.rs:134-143 | the CRC of `xs + ys` is obtained by absorbing the bytes of `ys`, in order, into the CRC of `xs` |
| Crc16.StepAllPair | tmtc-ground/src/main.rs:134-143 | absorbing two bytes is two steps, first byte first |
| Crc16.CheckSteps | tmtc-ground/src/main.rs:134-143 | the register after each byte of ASCII "123456789" |
| Crc16.CheckValue | tmtc-ground/src/main.rs:132-145 | the CRC of ASCII "123456789" is 0x29B1, the CRC-16/CCITT-FALSE check value |
| Crc16.StepResidue | tmtc-ground/src/main.rs:135-142 | absorbing a register's own high then low byte clears it |
| Crc16.AppendedCrcChecksToZero | tmtc-ground/src/main.rs:132-145 | appending the CRC high byte first and recomputing gives 0 |
| Common.WrappingInc16 | openlst-driver/src/lst_sender.rs:49 | `wrapping_add(1)` on a `u16`: plus one below 0xFFFF, 0 from 0xFFFF |
| Common.WrappingAdd32 | openlst-driver/src/lst_receiver.rs:67-68 | the `u32` sum of two words taken modulo 2^32 |
| Common.AsI8 | openlst-driver/src/lst_receiver.rs:62 | `as i8`: negative exactly for bytes ≥ 0x80, and the same bit pattern |
| Common.U32LeRoundTrip | openlst-driver/src/lst_receiver.rs:61 | `u32::from_le_bytes` reads back a word written low byte first |
| Common.U32BeRoundTrip | uart-can-relay/src/lst_receiver.rs:45 | `u32::from_be_bytes` reads back a word written high byte first |
| Common.U16BytesRoundTrip | openlst-driver/src/lst_sender.rs:43-46 | a `u16` split into `as u8` and `>> 8` bytes is recovered from them |
| Common.BlockWritten | openlst-driver/src/lst_sender.rs:84-87 | a block write hands the sink the whole buffer, or the prefix it accepted before failing |
| Telemetry.FieldsLe | openlst-driver/src/lst_receiver.rs:60-69 | the telemetry fields at their offsets, words little-endian: uptime 1..5, rssi byte 35 as `i8`, lqi byte 36, sent 38..42, good 46..50, rejected-checksum 50..54, rejected-other the wrapping sum of 58..62 and 54..58 |
| Telemetry.FieldsBe | uart-can-relay/src/lst_receiver.rs:44-53 | the same offsets with every word big-endian |
| Telemetry.LayoutLeDecodes | openlst-driver/src/lst_receiver.rs:60-69 | the little-endian offsets read back every field of a reply laid out field by field. Rejected-other is the wrapping sum of the words at 58..62 and 54..58 |
| Telemetry.LayoutBeDecodes | uart-can-relay/src/lst_receiver.rs:44-53 | the same with every word big-endian |
| Telemetry.RejectedOtherExample | openlst-driver/src/lst_receiver.rs:67-68 | reserved 2 and other 3 report 5, rssi byte 0xD8 reports -40 |
| LstReceiver.ParseTelem | openlst-driver/src/lst_receiver.rs:55-71 | `ParseError("telem msg too short")` exactly when the reply is under 62 bytes, otherwise every field read little-endian |
| LstReceiver.ParseLocalMsg | openlst-driver/src/lst_receiver.rs:72-80 | 0x10 is Ack and 0xFF Nack, each if and only if. 0x18 is telemetry, and an error exactly when that reply is short. Any other byte b gives `Unknown(b)` |
| LstReceiver.Dispatch | openlst-driver/src/lst_receiver.rs:95-101 | destination `frame[4]`: 0x01 parses `frame[5..]` locally, 0x11 relays `frame[5..]`, anything else is `Unknown(0)` |
| LstReceiver.Receive | openlst-driver/src/lst_receiver.rs:92-101 | a buffer error surfaces as `ReadError` before any frame is looked at |
| AirLstReceiver.ParseTelem | tmtc-air/src/lst_receiver.rs:42-58 | as in openlst-driver: refused under 62 bytes, little-endian fields otherwise |
| AirLstReceiver.ParseLocalMsg | tmtc-air/src/lst_receiver.rs:59-67 | 0x10 Ack, 0xFF Nack, 0x18 telemetry, other b `Unknown(b)`; never a relay |
| AirLstReceiver.Receive | tmtc-air/src/lst_receiver.rs:68-87 | UART failure gives `UartError`, and `len ≤ 8` gives `ParseError("Message incomplete")`. Otherwise `buffer[7]` decides: 0x01 parses `buffer[8..len]`, 0x11 gives `Relay(8..len)` inside the buffer, and any other value gives `Unknown(0)` |
| AirLstReceiver.StaleBytesIgnored | tmtc-air/src/lst_receiver.rs:77-80 | bytes beyond the reported count never affect the result |
| RelayLstReceiver.ParseTelem | uart-can-relay/src/lst_receiver.rs:39-55 | refused under 62 bytes, big-endian fields otherwise |
| RelayLstReceiver.ParseLocalMsg | uart-can-relay/src/lst_receiver.rs:56-64 | 0x10 Ack, 0xFF Nack, 0x18 telemetry, and payload-less `Unknown` exactly for the other bytes |
| RelayLstReceiver.Receive | uart-can-relay/src/lst_receiver.rs:65-84 | `len ≤ 8` is incomplete. Local parses `buffer[8..]`, relay is `buffer[8..]`, both to the end of the whole buffer. Anything else is `Unknown` |
| RelayLstReceiver.ReadCountIgnored | uart-can-relay/src/lst_receiver.rs:74-77 | past the header check the count read plays no part, so a relay payload includes stale bytes beyond it |
| LstSender.Header | openlst-driver/src/lst_sender.rs:38-48 | the header is 8 bytes |
| LstSender.HeaderDecodes | openlst-driver/src/lst_sender.rs:38-48 | the header is the magic, then `m + 5` (no wrap for m ≤ 250), then hardware id and sequence number both low byte first, then the destination |
| LstSender.LstSender.constructor | openlst-driver/src/lst_sender.rs:31-37 | sequence number 0, nothing sent |
| LstSender.LstSender.GetHeader | openlst-driver/src/lst_sender.rs:38-51 | returns the header for the sequence number before the call, which then advances by one mod 2^16; nothing is sent |
| LstSender.Transmit | openlst-driver/src/lst_sender.rs:63-74 | the short-write loop as a function of the sink's replies: each write is offered the unsent suffix, `idx` advances by the count it reports, a flush follows, and the first write or flush error ends the send with the bytes delivered so far |
| LstSender.TransmitSendsPrefix | openlst-driver/src/lst_sender.rs:63-74 | the sink receives a prefix of the packet, and the whole packet when the loop ends without error |
| LstSender.TransmitUnfold | openlst-driver/src/lst_sender.rs:63-74 | one iteration: the write takes its count of the offered suffix, `idx` advances by the count, and a flush error stops the loop |
| LstSender.WriteLoop | openlst-driver/src/lst_sender.rs:63-74 | the `while idx < packet.len()` loop produces exactly what `Transmit` describes |
| LstSender.LstSender.Send | openlst-driver/src/lst_sender.rs:52-76 | a message over 248 bytes is `MessageTooLong` with the sequence number and sink untouched. Otherwise the sequence number advances first. The sink then receives what the write loop sends of `header(|msg|, 0x11) ++ msg`, and the first write or flush error is returned as `WriteError` |
| LstSender.LstSender.SendCmd | openlst-driver/src/lst_sender.rs:77-95 | advances the sequence number and does one `write_all` of `header(1, 0x01) ++ [cmd]`. A write error, or else a flush error, gives `WriteError` |
| LstSender.PacketShape | openlst-driver/src/lst_sender.rs:53-61 | an accepted packet is `|msg| + 8 ≤ 256` bytes, its length byte `|msg| + 5 ≤ 253` counts the bytes after it, and the message follows the header |
| LstSender.CmdPacketShape | openlst-driver/src/lst_sender.rs:77-82 | a command packet is 9 bytes, length byte 6, destination local, code 0x12 for Reboot and 0x17 for GetTelem |
| LstSender.CooperativeSinkGetsPacket | openlst-driver/src/lst_sender.rs:63-74 | if every write accepts at least one byte and every flush succeeds, the sink receives exactly the packet |
| LstSender.FailingWriteStops | openlst-driver/src/lst_sender.rs:65-69 | a write error after a short write leaves the sink with the accepted prefix and returns the error |
| LstSender.BumpedCounts | openlst-driver/src/lst_sender.rs:49 | after k headers the sequence number is the start plus k modulo 2^16 |
| RelayLstSender.Header | uart-can-relay/src/lst_sender.rs:32-42 | the header is 8 bytes |
| RelayLstSender.WriteResult | uart-can-relay/src/lst_sender.rs:53 | a write error maps to `UartError`, a complete write to `Ok` |
| RelayLstSender.LstSender.constructor | uart-can-relay/src/lst_sender.rs:29-31 | sequence number 0 |
| RelayLstSender.LstSender.GetHeader | uart-can-relay/src/lst_sender.rs:32-42 | header for the current sequence number, which advances by one mod 2^16 |
| RelayLstSender.LstSender.Send | uart-can-relay/src/lst_sender.rs:43-54 | over 248 bytes is `MessageTooLong` with nothing changed. Otherwise one write of `header(|msg|, 0x11) ++ msg`, and its error is `UartError` |
| RelayLstSender.LstSender.SendCmd | uart-can-relay/src/lst_sender.rs:55-61 | one write of `header(1, 0x01) ++ [cmd]` |
| RelayLstSender.PacketShape | uart-can-relay/src/lst_sender.rs:33-39 | the packet is the magic, the length byte `|msg| + 6 ≤ 254`, hardware id bytes 00 01, the sequence number high byte first, the destination and the message. The length byte is one more than the bytes after it |
| RelayLstSender.CmdPacketShape | uart-can-relay/src/lst_sender.rs:55-58 | a command packet is 9 bytes with length byte 7 |
| RodosCanReceiver.DecodeId | uart-can-relay/src/rodos_can_relay/receiver.rs:73-77 | the topic is bits 8..24 and the device bits 0..8; with the bits above, they rebuild the id |
| RodosCanReceiver.Decode | uart-can-relay/src/rodos_can_relay/receiver.rs:79-99 | a standard id is `WrongIdType`, and 3 or fewer data bytes are `NoData`. Otherwise `seq_num = data[0]`, `seq_len = data[2]` and the payload is `data[3..]`, 1 to 5 bytes |
| RodosCanReceiver.DecodeFragment | uart-can-relay/src/rodos_can_relay/receiver.rs:79-99 | decoding inverts fragment construction whatever the reserved byte `data[1]` holds |
| RodosCanReceiver.Process | uart-can-relay/src/rodos_can_relay/receiver.rs:101-150 | one pass over one bus reply keeps the table within `NUMBER_OF_SOURCES` ids and every non-overrun buffer within `MAX_PACKET_LENGTH`; no id is removed, at most the fragment's id is added, and a reply that does not decode leaves the table as it was |
| RodosCanReceiver.Absorb | uart-can-relay/src/rodos_can_relay/receiver.rs:109-146 | the capacity checks and the buffer update after decoding keep the bounds and add at most the fragment's id |
| RodosCanReceiver.Run | uart-can-relay/src/rodos_can_relay/receiver.rs:101-151 | the loop stops at the first pass that does not continue, keeping the bounds |
| RodosCanReceiver.RodosCanReceiver.constructor | uart-can-relay/src/rodos_can_relay/receiver.rs:66-71 | an empty table |
| RodosCanReceiver.RodosCanReceiver.Step | uart-can-relay/src/rodos_can_relay/receiver.rs:103-147 | the new table and the result are those of `Process` |
| RodosCanReceiver.RodosCanReceiver.Receive | uart-can-relay/src/rodos_can_relay/receiver.rs:101-151 | the new table and the result are those of `Run` |
| RodosCanReceiver.OthersUntouched | uart-can-relay/src/rodos_can_relay/receiver.rs:113-135 | a pass leaves the entries of every other id unchanged |
| RodosCanReceiver.EarlyErrorsLeaveTable | uart-can-relay/src/rodos_can_relay/receiver.rs:106-117 | bus, decode, `MessageBufferFull` (`seq_len * 5 > MAX`) and `SourceBufferFull` (new id, full table) errors leave the table unchanged |
| RodosCanReceiver.GapDropsMessage | uart-can-relay/src/rodos_can_relay/receiver.rs:132-135 | a fragment beyond the expected one empties that id's buffer, keeps the id, and returns `FrameDropped` |
| RodosCanReceiver.DuplicateIgnored | uart-can-relay/src/rodos_can_relay/receiver.rs:128-130 | a fragment before the expected one changes nothing and the loop continues |
| RodosCanReceiver.FirstFragmentRestarts | uart-can-relay/src/rodos_can_relay/receiver.rs:113-126 | fragment 0 inserts or clears its id's buffer and appends its payload, completing at once when `seq_len = 0` |
| RodosCanReceiver.CompletionKeepsBuffer | uart-can-relay/src/rodos_can_relay/receiver.rs:138-146 | completion returns the decoded topic and device with the whole buffer, and leaves the buffer in the table |
| RodosCanReceiver.NextFragment | uart-can-relay/src/rodos_can_relay/receiver.rs:122-146 | with fragments `0..i` in the buffer, fragment `i` is appended and completes the message exactly when it is the last |
| RodosCanReceiver.Reassemble | uart-can-relay/src/rodos_can_relay/receiver.rs:122-146 | with fragments `0..i` in the buffer, the in-order fragments `i..seq_len` complete the message with the concatenation of all payloads |
| RodosCanReceiver.InOrderReassembly | uart-can-relay/src/rodos_can_relay/receiver.rs:113-146 | fragments `0..seq_len` in order, for an id with a slot and a message that fits, yield `Complete` with the concatenated payloads |
| RodosCanReceiver.CapacityGap | uart-can-relay/src/rodos_can_relay/receiver.rs:109-126 | the `seq_len * 5` guard passes, yet the last of the `seq_len + 1` fragments overruns a buffer holding `5 * seq_len` bytes whenever capacity < `5 * seq_len + payload` |
| RodosCanReceiver.RelayCapacityGap | uart-can-relay/src/rodos_can_relay/receiver.rs:109-125 | in the 2-source, 246-byte instance, a 50th full fragment on a 245-byte buffer overruns |
| RodosCanReceiver.StaleBufferAbsorbsNextMessage | uart-can-relay/src/rodos_can_relay/receiver.rs:122-146 | after a completed 2-fragment message, a lone fragment 2 of the next message is appended to the stale bytes and completes with both |
| RodosCanReceiver.NewSourceLockedOut | uart-can-relay/src/rodos_can_relay/receiver.rs:113-117 | once the table is full, a new id never obtains a slot and the set of ids stays the same |
| RodosCanRelay.NewExtendedId | uart-can-relay/src/rodos_can_relay.rs:59-65 | `ExtendedId::new` accepts exactly the ids up to 0x1FFF_FFFF |
| RodosCanRelay.FilterFor | uart-can-relay/src/rodos_can_relay.rs:54-72 | `(t, Some(d))` gives `DedicatedSingle(base + d)` and `(t, None)` gives `Range { to: base, from: base + 0xFF }`, with `base = 0x1C << 24 + t << 8`. The `unwrap` never panics: every id is at most 0x1CFF_FFFF |
| RodosCanRelay.BuildFilters | uart-can-relay/src/rodos_can_relay.rs:52-78 | exactly 8 filters: those of the first 8 pairs in input order, then disabled ones; extra pairs are dropped |
| RodosCanRelay.DecodeIdRoundTrip | uart-can-relay/src/rodos_can_relay.rs:55-59 | `decode_id(base + d) = (t, d)` |
| RodosCanRelay.RangeSpansTopic | uart-can-relay/src/rodos_can_relay.rs:61-66 | every id between a topic's range bounds decodes to that topic |
| CanConfig.Push | tmtc-air/src/can_config.rs:55 | the bounded push appends below 8 filters, and otherwise returns `FiltersFullError` with the list unchanged |
| CanConfig.CanPeriphConfig.constructor | tmtc-air/src/can_config.rs:31-45 | an empty filter list |
| CanConfig.CanPeriphConfig.AddReceiveTopic | tmtc-air/src/can_config.rs:47-57 | appends one `DedicatedSingle(topic)`, or is refused with 8 filters present |
| CanConfig.CanPeriphConfig.AddReceiveTopicRange | tmtc-air/src/can_config.rs:59-70 | appends `Range { from: range.0, to: range.1 }` with no ordering check, or is refused |
| CanConfig.CanPeriphConfig.Activate | tmtc-air/src/can_config.rs:88-93 | the list is padded with disabled filters to exactly 8 slots, user filters first |
| CanConfig.PushAllKeepsFirstEight | tmtc-air/src/can_config.rs:47-70 | a chain of adds keeps the first eight filters in order and refuses the rest |
| CanConfig.ActivatedSlots | tmtc-air/src/can_config.rs:88-93 | after adds and activation, slot i holds the i-th added filter for i < min(n, 8) and a disabled filter beyond |
| RoundTrip.PacketSyncs | openlst-driver/src/lst_receiver/framer.rs:33-39 | a fresh framer fed an openlst-driver packet syncs at offset 0 and resumes at 2 |
| RoundTrip.PacketFrames | openlst-driver/src/lst_receiver/framer.rs:46-64 | the rest of the packet completes a frame ending at the packet length `|msg| + 8` |
| RoundTrip.PacketDispatchesToRelay | openlst-driver/src/lst_receiver.rs:95-99 | the bytes after the length byte dispatch to `Relay(msg)` |
| RoundTrip.RelayPacketOneShort | uart-can-relay/src/lst_sender.rs:32-39 | the openlst deframer reaches the end of a uart-can-relay packet one byte short of a frame |

## Left out

- I/O becomes input or is left out. UART reads and writes, `read_until_idle`, the CAN bus receiver, DMA and the async executor are replaced by their outcomes, passed as parameters: a read result, a script of write counts and flush outcomes, a block-write outcome, a sequence of bus replies.
  - Timers, `Instant` timestamps and defmt logging are not modelled.
- `wait_for_msg` (openlst-driver/src/lst_receiver.rs:81-91) is not modelled: it drives a `Framer` API (`push(byte)`, `get`, `reset`) that framer.rs does not have. `LstReceiver.Receive` takes its outcome instead.
- Peripheral configuration is not modelled. This covers `set_config`, `set_bitrate`, the filter installation, `into_normal_mode`, the buffered interfaces, `RodosCanRelay::split` and the CAN sender.
- The rest of the repository is not part of this model. That is everything in tmtc-ground/src/main.rs except `crc_ccitt`, plus the NATS client, the beacon macros, the tmtc-air I/O threads, the two `main.rs` bring-up files, rodos_can_relay/common.rs, the C firmware configuration and the build script.
- Ringbuffer.SerialRingbuffer.PushFromRead: a failing read is modelled as writing nothing into the window. A real callback may have written some slots before failing; the cursors are unchanged either way.
- LstReceiver.Dispatch: a frame of 4 bytes or fewer (index `frame[4]`, openlst-driver/src/lst_receiver.rs:95), or a local frame of exactly 5 bytes (`msg[0]` of an empty slice, line 74), panics in the source; the deframer accepts any nonzero length byte, so nothing upstream excludes them. Here they are excluded by the precondition `Dispatchable` rather than modelled as a panic.
- LstReceiver.Receive: the same frames are excluded by its precondition on the waited-for frame.
- LstReceiver.ParseLocalMsg: an empty message panics at `msg[0]` in the source (line 74); here `|msg| >= 1` is a precondition. The tmtc-air and uart-can-relay variants are only ever called with a nonempty slice, because their `receive` requires more than 8 bytes first.
- Framer.Framer.Push: a slice `buf[ptr..ptr+len]` that runs past the end of `buf` panics in the source (openlst-driver/src/lst_receiver/framer.rs:29); here `ptr + len <= |buf|` is a precondition.
- LstSender.Transmit: once the scripted replies run out, the sink takes the rest of the packet in one write. The source loops forever on a sink that keeps accepting 0 bytes; that run is not represented.
- LstSender.Transmit: a reported count larger than the bytes offered (a broken `Write` implementation) advances `idx` as in the source. Only the offered bytes are recorded as received.
- LstSender.Header: the `u8` sum `msg_len + 5` is written with release-build wrap-around. A debug build panics instead; `send` and `send_cmd` never reach it. The same applies to `RelayLstSender.Header` and to the `u32` sum in the telemetry parsers (`Common.WrappingAdd32`).
- RodosCanReceiver.Process: the panic of heapless `extend` on a full buffer is the result `Overrun`, and nothing after it is modelled.
  - Frames are classic CAN (at most 8 data bytes), so the `try_into` of the payload cannot fail.
- CanConfig.CanPeriphConfig.AddReceiveTopic: a topic above 0x7FF panics at `StandardId::new(..).unwrap()`. This is a precondition of the method, as it is for `AddReceiveTopicRange`.
- RodosCanRelay: the ids are built with `|` over disjoint bit ranges; the model uses sums, which are equal for these operands.
