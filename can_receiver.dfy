/**
 * `RodosCanReceiver` of uart-can-relay/src/rodos_can_relay/receiver.rs: decodes RODOS
 * CAN fragments (extended id = topic and device, data = sequence number, a reserved
 * byte, sequence length, up to five payload bytes) and reassembles them per id in a
 * table of at most `sources` buffers of at most `maxPacketLength` bytes.
 *
 * `Process` is one pass of the `loop` in `receive` over one reply of the bus;
 * `RodosCanReceiver.Step` performs it on the class's table and `Receive` is the loop.
 * `Overrun` stands for the panic of heapless `Vec::extend` when a buffer is full.
 */
module RodosCanReceiver {
  import opened Common

  /** A CAN identifier: an 11-bit standard one or a 29-bit extended one. */
  datatype CanId = Standard(sid: nat) | Extended(eid: U32)

  /** A classic CAN data field: at most 8 bytes. */
  type CanData = s: seq<Byte> | |s| <= 8

  /** A received CAN frame. */
  datatype Frame = Frame(id: CanId, data: CanData)

  /** The error value of the CAN bus; its contents are irrelevant to the model. */
  datatype BusFault = BusFault(code: nat)

  /** `RodosCanDecodeError`. */
  datatype DecodeError = WrongIdType | NoData

  /** `RodosCanReceiveError`. */
  datatype ReceiveError = BusError(fault: BusFault) | CouldNotDecode(decode: DecodeError)
                        | FrameDropped | SourceBufferFull | MessageBufferFull

  /** `RodosCanFramePart`. */
  datatype FramePart = FramePart(id: U32, data: seq<Byte>, seqNum: nat, seqLen: nat)

  /** The table `partial_frames`: id to the bytes reassembled so far. */
  type Table = map<U32, seq<Byte>>

  /** The const parameters `NUMBER_OF_SOURCES` and `MAX_PACKET_LENGTH`. */
  datatype Config = Config(sources: nat, maxPacketLength: nat)

  /** The instance uart-can-relay builds with `split::<2, 246>()`. */
  const Relay := Config(2, 246)

  /** The outcome of one pass of the loop. */
  datatype StepResult = Continue | Complete(topic: U16, device: Byte, data: seq<Byte>)
                      | Failed(error: ReceiveError) | Overrun

  /** `decode_id`: bits 8..24 are the topic, bits 0..8 the device. */
  function DecodeId(id: U32): (r: (U16, Byte))
    ensures id == (id / 0x100_0000) * 0x100_0000 + r.0 * 0x100 + r.1
  {
    ((id / 0x100) % 0x1_0000, id % 0x100)
  }

  /** `decode`. */
  function Decode(frame: Frame): (r: Result<FramePart, DecodeError>)
    ensures frame.id.Standard? ==> r == Err(WrongIdType)
    ensures frame.id.Extended? && |frame.data| <= 3 ==> r == Err(NoData)
    ensures r.Ok? <==> frame.id.Extended? && |frame.data| > 3
    ensures r.Ok? ==> && r.value.id == frame.id.eid && r.value.seqNum == frame.data[0]
                      && r.value.seqLen == frame.data[2] && r.value.data == frame.data[3..]
                      && 1 <= |r.value.data| <= 5
  {
    match frame.id
    case Standard(_) => Err(WrongIdType)
    case Extended(id) =>
      if |frame.data| <= 3 then Err(NoData)
      else Ok(FramePart(id, frame.data[3..], frame.data[0], frame.data[2]))
  }

  /** A fragment as a sender puts it on the bus, with `reserved` in the unused header byte. */
  function Fragment(id: U32, seqNum: Byte, reserved: Byte, seqLen: Byte, payload: seq<Byte>): Frame
    requires |payload| <= 5
  {
    Frame(Extended(id), [seqNum, reserved, seqLen] + payload)
  }

  /** Decoding takes a fragment apart again, whatever its reserved byte. */
  lemma DecodeFragment(id: U32, seqNum: Byte, reserved: Byte, seqLen: Byte, payload: seq<Byte>)
    requires 1 <= |payload| <= 5
    ensures Decode(Fragment(id, seqNum, reserved, seqLen, payload)) == Ok(FramePart(id, payload, seqNum, seqLen))
  {
    assert ([seqNum, reserved, seqLen] + payload)[3..] == payload;
  }

  /** What the receiver keeps: at most `sources` ids, each buffer within capacity. */
  predicate Bounded(cfg: Config, t: Table)
  {
    |t| <= cfg.sources && forall k :: k in t ==> |t[k]| <= cfg.maxPacketLength
  }

  /** The id a reply is about, when it decodes. */
  function PartOf(reply: Result<Frame, BusFault>): Option<FramePart>
  {
    if reply.Ok? && Decode(reply.value).Ok? then Some(Decode(reply.value).value) else None
  }

  /**
   * One pass of the `receive` loop: the table afterwards and what the pass yields. No
   * pass removes an id, at most the fragment's own id is added, and a reply that does
   * not decode leaves the table as it was.
   */
  function Process(cfg: Config, t: Table, reply: Result<Frame, BusFault>): (r: (Table, StepResult))
    requires Bounded(cfg, t)
    ensures Bounded(cfg, r.0)
    ensures PartOf(reply).None? ==> r.0 == t
    ensures PartOf(reply).Some? ==> t.Keys <= r.0.Keys <= t.Keys + {PartOf(reply).value.id}
  {
    match reply
    case Err(e) => (t, Failed(BusError(e)))
    case Ok(frame) =>
      match Decode(frame)
      case Err(e) => (t, Failed(CouldNotDecode(e)))
      case Ok(part) => Absorb(cfg, t, part)
  }

  /** The part of a pass after decoding: the capacity checks, then the fragment against its id's buffer. */
  function Absorb(cfg: Config, t: Table, part: FramePart): (r: (Table, StepResult))
    requires Bounded(cfg, t)
    ensures Bounded(cfg, r.0)
    ensures t.Keys <= r.0.Keys <= t.Keys + {part.id}
  {
    if part.seqLen * 5 > cfg.maxPacketLength then (t, Failed(MessageBufferFull))
    else if part.id !in t && |t| >= cfg.sources then (t, Failed(SourceBufferFull))
    else
      var t1: Table := if part.id !in t || part.seqNum == 0 then t[part.id := []] else t;
      StoreBounded(cfg, t, part.id, []);
      var buf := t1[part.id];
      var current := |buf| / 5;
      if part.seqNum == current then
        if |buf| + |part.data| > cfg.maxPacketLength then (t1, Overrun)
        else
          var t2: Table := t1[part.id := buf + part.data];
          StoreBounded(cfg, t1, part.id, buf + part.data);
          if part.seqNum >= part.seqLen then
            var (topic, device) := DecodeId(part.id);
            (t2, Complete(topic, device, buf + part.data))
          else (t2, Continue)
      else if part.seqNum < current then (t1, Continue)
      else
        StoreBounded(cfg, t1, part.id, []);
        var t3: Table := t1[part.id := []];
        (t3, Failed(FrameDropped))
  }

  /** Storing a buffer within capacity under a known id, or under a new one while there is room, keeps the table bounded. */
  lemma StoreBounded(cfg: Config, t: Table, id: U32, v: seq<Byte>)
    requires Bounded(cfg, t) && (id in t || |t| < cfg.sources) && |v| <= cfg.maxPacketLength
    ensures Bounded(cfg, t[id := v]) && t[id := v].Keys == t.Keys + {id}
  {
    if id !in t {
      assert |t[id := v].Keys| == |t.Keys| + 1;
    } else {
      assert t[id := v].Keys == t.Keys;
    }
  }

  /** The loop of `receive` over the replies of the bus: it stops at the first pass that does not continue. */
  function Run(cfg: Config, t: Table, replies: seq<Result<Frame, BusFault>>): (r: (Table, Option<StepResult>))
    requires Bounded(cfg, t)
    ensures Bounded(cfg, r.0)
    ensures r.1 != Some(Continue)
    decreases |replies|
  {
    if replies == [] then (t, None)
    else
      var (t1, res) := Process(cfg, t, replies[0]);
      if res == Continue then Run(cfg, t1, replies[1..]) else (t1, Some(res))
  }

  class RodosCanReceiver {
    const cfg: Config
    var partialFrames: Table

    ghost predicate Valid()
      reads this
    {
      Bounded(cfg, partialFrames)
    }

    /** `new(receiver)`: an empty table. */
    constructor (cfg: Config)
      ensures Valid() && this.cfg == cfg && partialFrames == map[]
    {
      this.cfg := cfg;
      partialFrames := map[];
    }

    /** One pass of the loop in `receive`, on one reply of the bus. */
    method Step(reply: Result<Frame, BusFault>) returns (r: StepResult)
      requires Valid()
      modifies this
      ensures Valid()
      ensures (partialFrames, r) == Process(cfg, old(partialFrames), reply)
    {
      if reply.Err? {
        return Failed(BusError(reply.error));
      }
      var decoded := Decode(reply.value);
      if decoded.Err? {
        return Failed(CouldNotDecode(decoded.error));
      }
      var part := decoded.value;
      if part.seqLen * 5 > cfg.maxPacketLength {
        return Failed(MessageBufferFull);
      }
      if part.id !in partialFrames {
        if |partialFrames| >= cfg.sources {
          return Failed(SourceBufferFull);
        }
        partialFrames := partialFrames[part.id := []];
      } else if part.seqNum == 0 {
        partialFrames := partialFrames[part.id := []];
      }
      var current := |partialFrames[part.id]| / 5;
      if part.seqNum == current {
        if |partialFrames[part.id]| + |part.data| > cfg.maxPacketLength {
          return Overrun;
        }
        partialFrames := partialFrames[part.id := partialFrames[part.id] + part.data];
      } else if part.seqNum < current {
        return Continue;
      } else {
        partialFrames := partialFrames[part.id := []];
        return Failed(FrameDropped);
      }
      if part.seqNum >= part.seqLen {
        var (topic, device) := DecodeId(part.id);
        return Complete(topic, device, partialFrames[part.id]);
      }
      return Continue;
    }

    /**
     * `receive`: passes over the bus replies until one does not continue; `None` when
     * the replies run out first.
     */
    method Receive(replies: seq<Result<Frame, BusFault>>) returns (r: Option<StepResult>)
      requires Valid()
      modifies this
      ensures Valid()
      ensures (partialFrames, r) == Run(cfg, old(partialFrames), replies)
    {
      var i := 0;
      while i < |replies|
        invariant 0 <= i <= |replies| && Valid()
        invariant Run(cfg, old(partialFrames), replies) == Run(cfg, partialFrames, replies[i..])
      {
        assert replies[i..][0] == replies[i] && replies[i..][1..] == replies[i + 1..];
        var res := Step(replies[i]);
        if res != Continue {
          return Some(res);
        }
        i := i + 1;
      }
      return None;
    }
  }

  // ---------------------------------------------------------------------------
  // What one pass does to the table.

  /** A pass touches only the entry of the fragment's own id. */
  lemma OthersUntouched(cfg: Config, t: Table, reply: Result<Frame, BusFault>, k: U32)
    requires Bounded(cfg, t) && k in t
    requires PartOf(reply).Some? ==> PartOf(reply).value.id != k
    ensures k in Process(cfg, t, reply).0 && Process(cfg, t, reply).0[k] == t[k]
  {
  }

  /**
   * Bus errors, undecodable frames, over-long announced messages and a full table are
   * reported before the table is touched.
   */
  lemma EarlyErrorsLeaveTable(cfg: Config, t: Table, reply: Result<Frame, BusFault>)
    requires Bounded(cfg, t)
    requires Process(cfg, t, reply).1.Failed? && Process(cfg, t, reply).1.error != FrameDropped
    ensures Process(cfg, t, reply).0 == t
    ensures Process(cfg, t, reply).1.error.MessageBufferFull? ==> PartOf(reply).value.seqLen * 5 > cfg.maxPacketLength
    ensures Process(cfg, t, reply).1.error.SourceBufferFull? ==>
      PartOf(reply).value.id !in t && |t| == cfg.sources
  {
  }

  /** A fragment from beyond the expected position empties its id's buffer, keeping the id. */
  lemma GapDropsMessage(cfg: Config, t: Table, id: U32, seqNum: Byte, seqLen: Byte, payload: seq<Byte>)
    requires Bounded(cfg, t) && 1 <= |payload| <= 5 && seqLen * 5 <= cfg.maxPacketLength
    requires id in t && seqNum != 0 && seqNum > |t[id]| / 5
    ensures Process(cfg, t, Ok(Fragment(id, seqNum, 0, seqLen, payload))) == (t[id := []], Failed(FrameDropped))
  {
    DecodeFragment(id, seqNum, 0, seqLen, payload);
  }

  /** A fragment from before the expected position is a duplicate: nothing changes and the loop goes on. */
  lemma DuplicateIgnored(cfg: Config, t: Table, id: U32, seqNum: Byte, seqLen: Byte, payload: seq<Byte>)
    requires Bounded(cfg, t) && 1 <= |payload| <= 5 && seqLen * 5 <= cfg.maxPacketLength
    requires id in t && 0 < seqNum < |t[id]| / 5
    ensures Process(cfg, t, Ok(Fragment(id, seqNum, 0, seqLen, payload))) == (t, Continue)
  {
    DecodeFragment(id, seqNum, 0, seqLen, payload);
  }

  /** A fragment 0 restarts its id's message, whatever the buffer held, and is appended. */
  lemma FirstFragmentRestarts(cfg: Config, t: Table, id: U32, seqLen: Byte, payload: seq<Byte>)
    requires Bounded(cfg, t) && 1 <= |payload| <= 5 && seqLen * 5 <= cfg.maxPacketLength
    requires |payload| <= cfg.maxPacketLength
    requires id in t || |t| < cfg.sources
    ensures Process(cfg, t, Ok(Fragment(id, 0, 0, seqLen, payload))).0 == t[id := payload]
    ensures Process(cfg, t, Ok(Fragment(id, 0, 0, seqLen, payload))).1
            == if seqLen == 0 then Complete(DecodeId(id).0, DecodeId(id).1, payload) else Continue
  {
    DecodeFragment(id, 0, 0, seqLen, payload);
    assert [] + payload == payload;
  }

  /** After completion the buffer is left in place: the table still holds the whole message. */
  lemma CompletionKeepsBuffer(cfg: Config, t: Table, reply: Result<Frame, BusFault>)
    requires Bounded(cfg, t) && Process(cfg, t, reply).1.Complete?
    ensures var (t1, res) := Process(cfg, t, reply);
      var id := PartOf(reply).value.id;
      && id in t1 && t1[id] == res.data && (res.topic, res.device) == DecodeId(id)
      && PartOf(reply).value.seqNum >= PartOf(reply).value.seqLen
  {
  }

  // ---------------------------------------------------------------------------
  // Reassembly of a whole message.

  /** The fragments of one message split into `chunks`, numbered from `from`, announcing `seqLen`. */
  function Frags(id: U32, seqLen: Byte, chunks: seq<seq<Byte>>, from: nat): (r: seq<Result<Frame, BusFault>>)
    requires from + |chunks| <= 0x100 && forall i :: 0 <= i < |chunks| ==> |chunks[i]| <= 5
    ensures |r| == |chunks|
    decreases |chunks|
  {
    if chunks == [] then []
    else [Ok(Fragment(id, from, 0, seqLen, chunks[0]))] + Frags(id, seqLen, chunks[1..], from + 1)
  }

  function Flatten(chunks: seq<seq<Byte>>): seq<Byte>
    decreases |chunks|
  {
    if chunks == [] then [] else chunks[0] + Flatten(chunks[1..])
  }

  /** Chunks as a sender cuts a message: five bytes each except the last, which has one to five. */
  predicate WellCut(chunks: seq<seq<Byte>>)
  {
    && |chunks| >= 1
    && (forall i :: 0 <= i < |chunks| - 1 ==> |chunks[i]| == 5)
    && 1 <= |chunks[|chunks| - 1]| <= 5
  }

  lemma {:induction false} FlattenLength(chunks: seq<seq<Byte>>)
    requires forall i :: 0 <= i < |chunks| ==> |chunks[i]| == 5
    ensures |Flatten(chunks)| == 5 * |chunks|
    decreases |chunks|
  {
    if chunks != [] {
      FlattenLength(chunks[1..]);
    }
  }

  lemma {:induction false} FlattenSnoc(chunks: seq<seq<Byte>>, c: seq<Byte>)
    ensures Flatten(chunks + [c]) == Flatten(chunks) + c
    decreases |chunks|
  {
    if chunks == [] {
      assert [] + [c] == [c] && Flatten([c][1..]) == [] && c + [] == c;
    } else {
      assert (chunks + [c])[0] == chunks[0] && (chunks + [c])[1..] == chunks[1..] + [c];
      FlattenSnoc(chunks[1..], c);
    }
  }

  /** With fragments `0..i` in the buffer, fragment `i` is appended, and completes the message when it is the last. */
  lemma NextFragment(cfg: Config, t: Table, id: U32, chunks: seq<seq<Byte>>, i: nat)
    requires Bounded(cfg, t) && WellCut(chunks) && |chunks| <= 0x100 && 1 <= i < |chunks|
    requires 5 * (|chunks| - 1) + |chunks[|chunks| - 1]| <= cfg.maxPacketLength
    requires id in t && t[id] == Flatten(chunks[..i])
    ensures Process(cfg, t, Ok(Fragment(id, i, 0, |chunks| - 1, chunks[i])))
            == (t[id := Flatten(chunks[..i + 1])],
                if i + 1 == |chunks| then Complete(DecodeId(id).0, DecodeId(id).1, Flatten(chunks[..i + 1])) else Continue)
  {
    DecodeFragment(id, i, 0, |chunks| - 1, chunks[i]);
    assert chunks[..i + 1] == chunks[..i] + [chunks[i]];
    FlattenSnoc(chunks[..i], chunks[i]);
    FlattenLength(chunks[..i]);
    assert |t[id]| / 5 == i;
  }

  /**
   * The later fragments of a message: with fragments `0..i` already in the buffer,
   * fragments `i..` continue until the last one, which completes the message with the
   * concatenation of all chunks.
   */
  lemma {:induction false} Reassemble(cfg: Config, t: Table, id: U32, chunks: seq<seq<Byte>>, i: nat)
    requires Bounded(cfg, t) && WellCut(chunks) && |chunks| <= 0x100 && 1 <= i < |chunks|
    requires 5 * (|chunks| - 1) + |chunks[|chunks| - 1]| <= cfg.maxPacketLength
    requires id in t && t[id] == Flatten(chunks[..i])
    ensures Run(cfg, t, Frags(id, |chunks| - 1, chunks[i..], i))
            == (t[id := Flatten(chunks)], Some(Complete(DecodeId(id).0, DecodeId(id).1, Flatten(chunks))))
    decreases |chunks| - i
  {
    var seqLen := |chunks| - 1;
    var frags := Frags(id, seqLen, chunks[i..], i);
    assert chunks[i..][0] == chunks[i] && chunks[i..][1..] == chunks[i + 1..];
    assert frags[0] == Ok(Fragment(id, i, 0, seqLen, chunks[i]));
    assert frags[1..] == Frags(id, seqLen, chunks[i + 1..], i + 1);
    NextFragment(cfg, t, id, chunks, i);
    var t1 := t[id := Flatten(chunks[..i + 1])];
    if i + 1 == |chunks| {
      assert chunks[..i + 1] == chunks;
    } else {
      FlattenLength(chunks[..i + 1]);
      StoreBounded(cfg, t, id, Flatten(chunks[..i + 1]));
      Reassemble(cfg, t1, id, chunks, i + 1);
      Overwritten(t, id, Flatten(chunks[..i + 1]), Flatten(chunks));
    }
  }

  /** A second store under the same id replaces the first. */
  lemma Overwritten(t: Table, id: U32, a: seq<Byte>, b: seq<Byte>)
    ensures t[id := a][id := b] == t[id := b]
  {
  }

  /**
   * In-order delivery reassembles: the fragments `0..seqLen` of a message (one more
   * than `seqLen`, since completion needs `seq_num >= seq_len`) yield the concatenation
   * of their payloads, provided the id has a slot and the message fits the buffer.
   */
  lemma InOrderReassembly(cfg: Config, t: Table, id: U32, chunks: seq<seq<Byte>>)
    requires Bounded(cfg, t) && WellCut(chunks) && |chunks| <= 0x100
    requires 5 * (|chunks| - 1) + |chunks[|chunks| - 1]| <= cfg.maxPacketLength
    requires id in t || |t| < cfg.sources
    ensures Run(cfg, t, Frags(id, |chunks| - 1, chunks, 0)).1
            == Some(Complete(DecodeId(id).0, DecodeId(id).1, Flatten(chunks)))
  {
    var seqLen := |chunks| - 1;
    var frags := Frags(id, seqLen, chunks, 0);
    if |chunks| > 1 {
      assert |chunks[0]| == 5;
    }
    FirstFragmentRestarts(cfg, t, id, seqLen, chunks[0]);
    assert Flatten(chunks[..1]) == chunks[0] by {
      assert chunks[..1] == [chunks[0]] && Flatten([chunks[0]][1..]) == [];
    }
    if |chunks| == 1 {
      assert Flatten(chunks) == chunks[0] by { assert chunks[1..] == []; }
    } else {
      assert frags[1..] == Frags(id, seqLen, chunks[1..], 1);
      assert chunks[1..] == chunks[1..][0..];
      Reassemble(cfg, t[id := chunks[0]], id, chunks, 1);
    }
  }

  /**
   * The capacity gap: the guard bounds `seq_len * 5`, but `seq_len + 1` fragments are
   * appended. With a buffer of `5 * seqLen` bytes, the guard passes and the last
   * fragment does not fit whenever the capacity is below `5 * seqLen + |payload|`.
   */
  lemma CapacityGap(cfg: Config, t: Table, id: U32, seqLen: Byte, payload: seq<Byte>)
    requires Bounded(cfg, t) && 1 <= |payload| <= 5
    requires id in t && |t[id]| == 5 * seqLen && seqLen != 0
    requires 5 * seqLen <= cfg.maxPacketLength < 5 * seqLen + |payload|
    ensures Process(cfg, t, Ok(Fragment(id, seqLen, 0, seqLen, payload))).1 == Overrun
  {
    DecodeFragment(id, seqLen, 0, seqLen, payload);
  }

  /** The gap in the uart-can-relay instance: a 49-fragment buffer (245 bytes) and a 50th full fragment. */
  lemma RelayCapacityGap(t: Table, id: U32, payload: seq<Byte>)
    requires Bounded(Relay, t) && |payload| == 5 && id in t && |t[id]| == 245
    ensures Process(Relay, t, Ok(Fragment(id, 49, 0, 49, payload))).1 == Overrun
  {
    CapacityGap(Relay, t, id, 49, payload);
  }

  /**
   * No clearing on completion: a completed two-fragment message stays in the buffer,
   * so when the next message's first two fragments are lost, its third fragment is
   * appended to the old bytes and completes a message made of both.
   */
  lemma StaleBufferAbsorbsNextMessage(cfg: Config, t: Table, id: U32, old10: seq<Byte>, payload: seq<Byte>)
    requires Bounded(cfg, t) && id in t && |old10| == 10 && t[id] == old10
    requires 1 <= |payload| <= 5 && 10 + |payload| <= cfg.maxPacketLength
    ensures Process(cfg, t, Ok(Fragment(id, 2, 0, 2, payload)))
            == (t[id := old10 + payload], Complete(DecodeId(id).0, DecodeId(id).1, old10 + payload))
  {
    DecodeFragment(id, 2, 0, 2, payload);
  }

  /** Once the table is full, a new id is refused on every pass and never gets a slot. */
  lemma {:induction false} NewSourceLockedOut(cfg: Config, t: Table, replies: seq<Result<Frame, BusFault>>, id: U32)
    requires Bounded(cfg, t) && |t| == cfg.sources && id !in t
    ensures id !in Run(cfg, t, replies).0 && Run(cfg, t, replies).0.Keys == t.Keys
    decreases |replies|
  {
    if replies != [] {
      var (t1, res) := Process(cfg, t, replies[0]);
      assert t1.Keys == t.Keys;
      if res == Continue {
        NewSourceLockedOut(cfg, t1, replies[1..], id);
      }
    }
  }
}
