/**
 * `SerialRingbuffer` of openlst-driver/src/lst_receiver/ringbuffer.rs: a fixed array of
 * `N` bytes with `head` (end of the last read), `tail` (next byte to pop) and `len`
 * (end of the readable region). Reads go into a window of `SN` slots that
 * `push_from_read` chooses from `head`.
 *
 * The behaviour is given by two functions over the buffer's abstract value
 * (`PopSpec` and `PushSpec`); the class's methods are proved to follow them, and the lemmas
 * at the end are about the functions.
 */
module Ringbuffer {
  import opened Common

  /** `Empty`: nothing to pop. */
  datatype Empty = Empty

  /** `PushErr<SerialErr>`. */
  datatype PushErr<+E> = Overflow | Serial(error: E)

  /**
   * What the single read callback does with the window it is given: it fills the
   * window's first `|data|` slots and returns that count, or it fails.
   */
  datatype ReadResult<+E> = ReadOk(data: seq<Byte>) | ReadFailed(error: E)

  /** The buffer's abstract value: the storage and the three cursors. */
  datatype RingState = RingState(storage: seq<Byte>, head: nat, tail: nat, len: nat)

  /** What the source's cursors keep: every cursor within the storage, `tail <= len`. */
  predicate Wellformed(n: nat, sn: nat, s: RingState)
  {
    |s.storage| == n && sn <= n && s.head <= n && s.len <= n && s.tail <= s.len
  }

  /** A read result the callback can produce for a window of `sn` slots. */
  predicate FitsWindow<E>(sn: nat, read: ReadResult<E>)
  {
    read.ReadOk? ==> |read.data| <= sn
  }

  /** `s` with `data` written over the slots starting at `at`. */
  function Overwrite(s: seq<Byte>, at: nat, data: seq<Byte>): (r: seq<Byte>)
    requires at + |data| <= |s|
    ensures |r| == |s|
    ensures forall i :: 0 <= i < |s| ==> r[i] == if at <= i < at + |data| then data[i - at] else s[i]
  {
    s[..at] + data + s[at + |data|..]
  }

  /** The virtual rewind `pop` performs first: once `tail` has reached `len`, restart at 0. */
  function Rewound(s: RingState): RingState
  {
    if s.tail >= s.len then s.(len := s.head, tail := 0) else s
  }

  /** `pop`: the new state and the result. */
  function PopSpec(s: RingState): (r: (RingState, Result<Byte, Empty>))
    requires s.head <= |s.storage| && s.len <= |s.storage|
    ensures r.0.storage == s.storage && r.0.head == s.head
    ensures r.1.Err? <==> Rewound(s).head == Rewound(s).tail
    ensures r.1.Err? ==> r.0 == Rewound(s)
    ensures r.1.Ok? ==> r.0.tail == Rewound(s).tail + 1 && r.0.len == Rewound(s).len
                        && r.1.value == s.storage[Rewound(s).tail]
  {
    var s1 := Rewound(s);
    if s1.head == s1.tail then
      (s1, Err(Empty))
    else
      (s1.(tail := s1.tail + 1), Ok(s1.storage[s1.tail]))
  }

  /** The slot at which `push_from_read` places its window. */
  function WindowStart(n: nat, sn: nat, s: RingState): nat
  {
    if n - sn < s.head then 0 else s.head
  }

  /** Whether the consumer has drained far enough for the window to be reused. */
  predicate Drained(n: nat, sn: nat, s: RingState)
  {
    if n - sn < s.head then s.tail >= sn else s.tail >= s.head + sn
  }

  /** `push_from_read`: the new state and the result. */
  function PushSpec<E>(n: nat, sn: nat, s: RingState, read: ReadResult<E>): (r: (RingState, Result<(), PushErr<E>>))
    requires Wellformed(n, sn, s) && FitsWindow(sn, read)
    ensures Wellformed(n, sn, r.0)
    ensures r.0.tail == s.tail
    ensures r.1 == Err(Overflow) <==> !Drained(n, sn, s)
    ensures r.1.Err? ==> r.0 == s
    ensures r.1.Err? && read.ReadFailed? && Drained(n, sn, s) ==> r.1 == Err(Serial(read.error))
    ensures r.1.Ok? <==> Drained(n, sn, s) && read.ReadOk?
    ensures r.1.Ok? ==> r.0.len == Max(s.len, r.0.head)
    ensures r.1.Ok? && n - sn < s.head ==> r.0.head == |read.data|
    ensures r.1.Ok? && s.head <= n - sn ==> r.0.head == s.head + |read.data|
    ensures r.1.Ok? ==> r.0.storage == Overwrite(s.storage, WindowStart(n, sn, s), read.data)
  {
    if n - sn < s.head then
      if s.tail < sn then
        (s, Err(Overflow))
      else
        match read
        case ReadFailed(e) => (s, Err(Serial(e)))
        case ReadOk(data) =>
          var head := |data|;
          (RingState(Overwrite(s.storage, 0, data), head, s.tail, Max(s.len, head)), Ok(()))
    else
      if s.tail < s.head + sn then
        (s, Err(Overflow))
      else
        match read
        case ReadFailed(e) => (s, Err(Serial(e)))
        case ReadOk(data) =>
          var head := s.head + |data|;
          (RingState(Overwrite(s.storage, s.head, data), head, s.tail, Max(s.len, head)), Ok(()))
  }

  /** The state `new(val)` builds: storage filled with `val`, all cursors 0. */
  function Initial(n: nat, val: Byte): RingState
  {
    RingState(seq(n, _ => val), 0, 0, 0)
  }

  class SerialRingbuffer {
    const N: nat
    const SN: nat
    const storage: array<Byte>
    var head: nat
    var tail: nat
    var len: nat

    ghost predicate Valid()
      reads this, storage
    {
      storage.Length == N && Wellformed(N, SN, Model())
    }

    /** The buffer's abstract value. */
    function Model(): RingState
      reads this, storage
    {
      RingState(storage[..], head, tail, len)
    }

    /** `new(val)`. */
    constructor (n: nat, sn: nat, val: Byte)
      requires sn <= n
      ensures Valid() && fresh(storage)
      ensures N == n && SN == sn && Model() == Initial(n, val)
    {
      N, SN := n, sn;
      storage := new Byte[n](_ => val);
      head, tail, len := 0, 0, 0;
    }

    /** `pop`. */
    method Pop() returns (r: Result<Byte, Empty>)
      requires Valid()
      modifies this
      ensures Valid()
      ensures (Model(), r) == PopSpec(old(Model()))
    {
      if tail >= len {
        len := head;
        tail := 0;
      }
      if head == tail {
        return Err(Empty);
      }
      var v := storage[tail];
      tail := tail + 1;
      return Ok(v);
    }

    /**
     * `push_from_read`. The callback `read` is represented by its outcome, and the
     * loop that stores `read.data` is the callback writing into the window.
     */
    method PushFromRead<E>(read: ReadResult<E>) returns (r: Result<(), PushErr<E>>)
      requires Valid() && FitsWindow(SN, read)
      modifies this, storage
      ensures Valid()
      ensures (Model(), r) == PushSpec(N, SN, old(Model()), read)
    {
      var start: nat;
      if N - SN < head {
        if tail < SN {
          return Err(Overflow);
        }
        start := 0;
      } else {
        if tail < head + SN {
          return Err(Overflow);
        }
        start := head;
      }
      if read.ReadFailed? {
        return Err(Serial(read.error));
      }
      var data := read.data;
      ghost var before := storage[..];
      for i := 0 to |data|
        invariant head == old(head) && tail == old(tail) && len == old(len)
        invariant forall k :: 0 <= k < N ==>
          storage[k] == if start <= k < start + i then data[k - start] else before[k]
      {
        storage[start + i] := data[i];
      }
      assert storage[..] == Overwrite(before, start, data);
      head := start + |data|;
      len := Max(len, head);
      return Ok(());
    }
  }

  /** One call on the buffer, as the receiver issues them. */
  datatype Call<+E> = PopCall | PushCall(read: ReadResult<E>)

  /** The answer to one call. */
  datatype Reply<+E> = Popped(popped: Result<Byte, Empty>) | Pushed(pushed: Result<(), PushErr<E>>)

  predicate ReadsFit<E>(sn: nat, calls: seq<Call<E>>)
  {
    forall i :: 0 <= i < |calls| ==> calls[i].PushCall? ==> FitsWindow(sn, calls[i].read)
  }

  /** The state and the answers after a sequence of calls. */
  function Run<E>(n: nat, sn: nat, s: RingState, calls: seq<Call<E>>): (r: (RingState, seq<Reply<E>>))
    requires Wellformed(n, sn, s) && ReadsFit(sn, calls)
    ensures Wellformed(n, sn, r.0) && |r.1| == |calls|
    decreases |calls|
  {
    if calls == [] then
      (s, [])
    else
      var (s1, reply) := match calls[0]
        case PopCall => var p := PopSpec(s); (p.0, Popped(p.1))
        case PushCall(read) => var p := PushSpec(n, sn, s, read); (p.0, Pushed(p.1));
      var rest := Run(n, sn, s1, calls[1..]);
      (rest.0, [reply] + rest.1)
  }

  /** The cursors of `s` are all zero. */
  predicate Idle(s: RingState)
  {
    s.head == 0 && s.tail == 0 && s.len == 0
  }

  /**
   * From the all-zero cursors, every push fails with `Overflow` (the lower branch
   * needs `tail >= head + SN`, i.e. `0 >= SN`) and every pop fails with `Empty`
   * without moving a cursor, so the buffer stays idle forever and never reads.
   */
  lemma {:induction false} IdleForever<E>(n: nat, sn: nat, s: RingState, calls: seq<Call<E>>)
    requires 0 < sn <= n && |s.storage| == n && Idle(s) && ReadsFit(sn, calls)
    ensures Run(n, sn, s, calls).0 == s
    ensures forall i :: 0 <= i < |calls| ==>
      Run(n, sn, s, calls).1[i] == if calls[i].PopCall? then Popped(Err(Empty)) else Pushed(Err(Overflow))
  {
    if calls != [] {
      assert ReadsFit(sn, calls[1..]) by {
        forall i | 0 <= i < |calls[1..]| ensures calls[1..][i].PushCall? ==> FitsWindow(sn, calls[1..][i].read) {
          assert calls[1..][i] == calls[i + 1];
        }
      }
      IdleForever(n, sn, s, calls[1..]);
      var r := Run(n, sn, s, calls);
      var rest := Run(n, sn, s, calls[1..]);
      match calls[0]
      case PopCall =>
        assert PopSpec(s) == (s, Err(Empty));
        assert r == (rest.0, [Popped(Err(Empty))] + rest.1);
      case PushCall(read) =>
        assert PushSpec(n, sn, s, read) == (s, Err(Overflow));
        assert r == (rest.0, [Pushed(Err(Overflow))] + rest.1);
      forall i | 0 <= i < |calls|
        ensures r.1[i] == if calls[i].PopCall? then Popped(Err(Empty)) else Pushed(Err(Overflow))
      {
        if i > 0 {
          assert r.1[i] == rest.1[i - 1];
          assert calls[i] == calls[1..][i - 1];
        }
      }
    }
  }

  /** On `Overflow` the read is not performed: its outcome has no effect on the result. */
  lemma OverflowIgnoresRead<E>(n: nat, sn: nat, s: RingState, read1: ReadResult<E>, read2: ReadResult<E>)
    requires Wellformed(n, sn, s) && FitsWindow(sn, read1) && FitsWindow(sn, read2)
    requires PushSpec(n, sn, s, read1).1 == Err(Overflow)
    ensures PushSpec(n, sn, s, read2) == (s, Err(Overflow))
  {
  }

  /** The lower window always lies inside the storage: `head <= N - SN` gives `head + SN <= N`. */
  lemma LowerWindowInBounds(n: nat, sn: nat, s: RingState)
    requires Wellformed(n, sn, s) && s.head <= n - sn
    ensures WindowStart(n, sn, s) + sn <= |s.storage|
  {
  }
}
