/**
 * `Framer` of openlst-driver/src/lst_receiver/framer.rs: a Sync/Len/Payload state
 * machine over the magic bytes 0x22 0x69 that consumes `buf[ptr..ptr+len]` and reports
 * where it synchronised or where a frame ended. As in the source, the length byte is
 * not compared with a header length or a capacity, and a mismatching byte in Sync
 * state is not re-tested against the first magic byte.
 *
 * `Step` and `Feed` give the behaviour over an abstract value; `Framer.Push` is the
 * source's `for` loop, proved to follow `Feed`.
 */
module Framer {
  import opened Common

  const Magic: seq<Byte> := [0x22, 0x69]

  /** `State`. */
  datatype State = Sync(magicPos: nat) | Len | Payload(len: nat, pos: nat)

  /** `Resp`: `Synced(at)` gives the offset of the magic, `Frame(end)` the offset after the frame. */
  datatype Resp = Synced(at: nat) | Frame(end: nat)

  /** The framer's abstract value: its state and `ptr`. */
  datatype FramerState = FramerState(state: State, ptr: nat)

  const Fresh := FramerState(Sync(0), 0)

  /**
   * What the framer keeps between bytes: the magic index stays below 2 and `ptr` has
   * counted every magic byte matched so far (so `ptr - 2` never underflows), and a
   * payload in progress has bytes left.
   */
  predicate Inv(f: FramerState)
  {
    match f.state
    case Sync(p) => p < |Magic| && p <= f.ptr
    case Len => true
    case Payload(len, pos) => pos < len
  }

  /** One iteration of the `for` loop of `push`. */
  function Step(f: FramerState, b: Byte): (r: (FramerState, Option<Resp>))
    requires Inv(f)
    ensures Inv(r.0)
  {
    var ptr := f.ptr + 1;
    match f.state
    case Sync(p) =>
      if b == Magic[p] then
        if p + 1 == |Magic| then (FramerState(Len, p + 1), Some(Synced(ptr - |Magic|)))
        else (FramerState(Sync(p + 1), ptr), None)
      else (FramerState(Sync(0), ptr), None)
    case Len =>
      if b == 0 then (FramerState(Sync(0), ptr), None)
      else (FramerState(Payload(b, 0), ptr), None)
    case Payload(len, pos) =>
      if pos + 1 >= len then (FramerState(Sync(0), 0), Some(Frame(ptr)))
      else (FramerState(Payload(len, pos + 1), ptr), None)
  }

  /** `push` over the bytes it is given: step until the first response. */
  function Feed(f: FramerState, bytes: seq<Byte>): (r: (FramerState, Option<Resp>))
    requires Inv(f)
    ensures Inv(r.0)
    ensures r.1.None? ==> r.0.ptr == f.ptr + |bytes|
    decreases |bytes|
  {
    if bytes == [] then
      (f, None)
    else
      var (f1, resp) := Step(f, bytes[0]);
      if resp.Some? then (f1, resp) else Feed(f1, bytes[1..])
  }

  class Framer {
    var state: State
    var ptr: nat

    ghost predicate Valid()
      reads this
    {
      Inv(FramerState(state, ptr))
    }

    /** `new`. */
    constructor ()
      ensures Valid() && state == Sync(0) && ptr == 0
    {
      state := Sync(0);
      ptr := 0;
    }

    /** `push(buf, len)`: consumes `buf[ptr..ptr+len]` one byte at a time. */
    method Push(buf: seq<Byte>, len: nat) returns (r: Option<Resp>)
      requires Valid() && ptr + len <= |buf|
      modifies this
      ensures Valid()
      ensures (FramerState(state, ptr), r) == Feed(old(FramerState(state, ptr)), buf[old(ptr)..old(ptr) + len])
    {
      var bytes := buf[ptr..ptr + len];
      ghost var start := FramerState(state, ptr);
      for i := 0 to |bytes|
        invariant Inv(FramerState(state, ptr))
        invariant Feed(start, bytes) == Feed(FramerState(state, ptr), bytes[i..])
      {
        var byte := bytes[i];
        ghost var here := FramerState(state, ptr);
        assert bytes[i..][0] == byte && bytes[i..][1..] == bytes[i + 1..];
        ptr := ptr + 1;
        match state {
          case Sync(magicPos) =>
            if byte == Magic[magicPos] {
              var newPos := magicPos + 1;
              state := Sync(newPos);
              if newPos == |Magic| {
                var syncedPtr := ptr - |Magic|;
                ptr := newPos;
                state := Len;
                return Some(Synced(syncedPtr));
              }
            } else {
              state := Sync(0);
            }
          case Len =>
            var frameLen := byte;
            if frameLen == 0 {
              state := Sync(0);
            } else {
              state := Payload(frameLen, 0);
            }
          case Payload(frameLen, pos) =>
            var newPos := pos + 1;
            state := Payload(frameLen, newPos);
            if newPos >= frameLen {
              var framePtr := ptr;
              ptr := 0;
              state := Sync(0);
              return Some(Frame(framePtr));
            }
        }
        assert (FramerState(state, ptr), None) == Step(here, byte);
      }
      return None;
    }
  }

  /** Bytes that never equal the first magic byte. */
  predicate NoMagicStart(g: seq<Byte>)
  {
    forall i :: 0 <= i < |g| ==> g[i] != Magic[0]
  }

  /** Feeding stops at the first response; without one, feeding `a + b` is feeding `a` then `b`. */
  lemma {:induction false} FeedConcat(f: FramerState, a: seq<Byte>, b: seq<Byte>)
    requires Inv(f) && Feed(f, a).1.None?
    ensures Feed(f, a + b) == Feed(Feed(f, a).0, b)
    decreases |a|
  {
    if a != [] {
      assert (a + b)[0] == a[0] && (a + b)[1..] == a[1..] + b;
      FeedConcat(Step(f, a[0]).0, a[1..], b);
    } else {
      assert a + b == b;
    }
  }

  /** In Sync state, bytes other than 0x22 are skipped with no response and no sync progress. */
  lemma {:induction false} SkipsNonMagic(ptr: nat, g: seq<Byte>)
    requires NoMagicStart(g)
    ensures Feed(FramerState(Sync(0), ptr), g) == (FramerState(Sync(0), ptr + |g|), None)
    decreases |g|
  {
    if g != [] {
      assert NoMagicStart(g[1..]) by {
        forall i | 0 <= i < |g[1..]| ensures g[1..][i] != Magic[0] { assert g[1..][i] == g[i + 1]; }
      }
      SkipsNonMagic(ptr + 1, g[1..]);
    }
  }

  /** The magic pair from `Sync(0)` reports `Synced` at its own offset and moves to Len with `ptr = 2`. */
  lemma MagicSyncs(ptr: nat, rest: seq<Byte>)
    ensures Feed(FramerState(Sync(0), ptr), Magic + rest) == (FramerState(Len, 2), Some(Synced(ptr)))
  {
    var s := Magic + rest;
    assert s[0] == 0x22 && s[1..][0] == 0x69;
    assert Step(FramerState(Sync(0), ptr), 0x22) == (FramerState(Sync(1), ptr + 1), None);
  }

  /**
   * Garbage that never contains 0x22 before a frame does not disturb synchronisation:
   * the framer syncs at the offset where the magic starts.
   */
  lemma GarbageThenSync(g: seq<Byte>, rest: seq<Byte>)
    requires NoMagicStart(g)
    ensures Feed(Fresh, g + Magic + rest) == (FramerState(Len, 2), Some(Synced(|g|)))
  {
    SkipsNonMagic(0, g);
    assert g + Magic + rest == g + (Magic + rest);
    FeedConcat(Fresh, g, Magic + rest);
    MagicSyncs(|g|, rest);
  }

  /**
   * The mismatch policy in action: after a false start 0x22, the following 0x22 resets
   * the match instead of starting a new one, so `22 22 69` is not a sync.
   */
  lemma FalseStartHidesSync()
    ensures Feed(Fresh, [0x22, 0x22, 0x69]) == (FramerState(Sync(0), 3), None)
  {
    var s: seq<Byte> := [0x22, 0x22, 0x69];
    assert s[1..] == [0x22, 0x69] && s[1..][1..] == [0x69] && s[1..][1..][1..] == [];
  }

  /** A zero length byte abandons the frame and resumes searching without resetting `ptr`. */
  lemma ZeroLengthResyncs(ptr: nat, rest: seq<Byte>)
    ensures Feed(FramerState(Len, ptr), [0] + rest) == Feed(FramerState(Sync(0), ptr + 1), rest)
  {
    assert ([0] + rest)[1..] == rest;
  }

  /** In Payload state, the remaining `len - pos` bytes end the frame at `ptr + len - pos` and reset the framer. */
  lemma {:induction false} PayloadCompletes(len: nat, pos: nat, ptr: nat, bs: seq<Byte>)
    requires pos < len && |bs| == len - pos
    ensures Feed(FramerState(Payload(len, pos), ptr), bs) == (Fresh, Some(Frame(ptr + len - pos)))
    decreases len - pos
  {
    if pos + 1 < len {
      PayloadCompletes(len, pos + 1, ptr + 1, bs[1..]);
    }
  }

  /** Fewer than the remaining `len - pos` payload bytes are absorbed without a response. */
  lemma {:induction false} PayloadPending(len: nat, pos: nat, ptr: nat, bs: seq<Byte>)
    requires pos + |bs| < len
    ensures Feed(FramerState(Payload(len, pos), ptr), bs) == (FramerState(Payload(len, pos + |bs|), ptr + |bs|), None)
    decreases |bs|
  {
    if bs != [] {
      PayloadPending(len, pos + 1, ptr + 1, bs[1..]);
    }
  }

  /** After `Synced` (`ptr = 2`), a length byte `L >= 1` and `L` more bytes give `Frame(3 + L)`. */
  lemma AfterSyncFrame(l: Byte, payload: seq<Byte>, rest: seq<Byte>)
    requires 1 <= l && |payload| == l
    ensures Feed(FramerState(Len, 2), [l] + payload + rest) == (Fresh, Some(Frame(3 + l)))
  {
    var s := [l] + payload + rest;
    assert s[1..] == payload + rest;
    assert Step(FramerState(Len, 2), l) == (FramerState(Payload(l, 0), 3), None);
    PayloadCompletes(l, 0, 3, payload);
    FedPrefixResponds(FramerState(Payload(l, 0), 3), payload, rest);
  }

  /** Once a prefix produces a response, the bytes after it are never looked at. */
  lemma {:induction false} FedPrefixResponds(f: FramerState, a: seq<Byte>, b: seq<Byte>)
    requires Inv(f) && Feed(f, a).1.Some?
    ensures Feed(f, a + b) == Feed(f, a)
    decreases |a|
  {
    assert a != [];
    assert (a + b)[0] == a[0] && (a + b)[1..] == a[1..] + b;
    if Step(f, a[0]).1.None? {
      FedPrefixResponds(Step(f, a[0]).0, a[1..], b);
    }
  }
}
