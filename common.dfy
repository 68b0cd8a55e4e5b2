/** Machine integers, results and byte-order helpers shared by the protocol modules. */
module Common {

  /** Rust `u8`, `u16`, `u32` and `i8`, as bounded mathematical integers. */
  type Byte = b: int | 0 <= b < 0x100
  type U16 = x: int | 0 <= x < 0x1_0000
  type U32 = x: int | 0 <= x < 0x1_0000_0000
  type I8 = x: int | -0x80 <= x < 0x80

  datatype Option<+T> = None | Some(value: T)

  /** Rust's `Result<T, E>`. */
  datatype Result<+T, +E> = Ok(value: T) | Err(error: E)

  /** A `Result<(), E>`. */
  datatype Outcome<+E> = Done | Fail(error: E)

  function Min(a: int, b: int): int { if a < b then a else b }

  function Max(a: int, b: int): int { if a < b then b else a }

  /** The error value of a UART read or write; its contents are irrelevant to the model. */
  datatype IoError = IoError(code: nat)

  /**
   * The outcome of a write that either takes the whole buffer or stops with an error
   * after accepting `accepted` bytes (`write_all`, or a DMA write of the whole buffer).
   */
  datatype BlockWrite<+E> = Completed | Aborted(accepted: nat, error: E)

  /** What a block write of `buf` hands to the sink: all of it, or the accepted prefix. */
  function BlockWritten<E>(buf: seq<Byte>, w: BlockWrite<E>): (r: seq<Byte>)
    ensures r <= buf
    ensures w.Completed? ==> r == buf
    ensures w.Aborted? ==> |r| == Min(w.accepted, |buf|)
  {
    if w.Completed? then buf else buf[..Min(w.accepted, |buf|)]
  }

  /** `xs` padded with `fill` up to `n` elements. */
  function PadTo<T>(xs: seq<T>, n: nat, fill: T): (r: seq<T>)
    requires |xs| <= n
    ensures |r| == n && r[..|xs|] == xs
    ensures forall i :: |xs| <= i < n ==> r[i] == fill
  {
    xs + seq(n - |xs|, _ => fill)
  }

  /** `x as u8` for a `u16`: the low byte. */
  function LoByte(x: U16): Byte { x % 0x100 }

  /** `(x >> 8) as u8` for a `u16`: the high byte. */
  function HiByte(x: U16): Byte { x / 0x100 }

  /** `u16::from_le_bytes([lo, hi])`. */
  function U16FromBytes(lo: Byte, hi: Byte): U16 { lo as int + 0x100 * hi as int }

  /** `x.wrapping_add(1)` on a `u16`. */
  function WrappingInc16(x: U16): (r: U16)
    ensures x < 0xFFFF ==> r == x + 1
    ensures x == 0xFFFF ==> r == 0
  {
    (x + 1) % 0x1_0000
  }

  /** `a.wrapping_add(b)` on `u32`. */
  function WrappingAdd32(a: U32, b: U32): (r: U32)
    ensures a + b < 0x1_0000_0000 ==> r == a + b
    ensures a + b >= 0x1_0000_0000 ==> r == a + b - 0x1_0000_0000
  {
    (a + b) % 0x1_0000_0000
  }

  /** `b as i8`: two's-complement reinterpretation of a byte. */
  function AsI8(b: Byte): (r: I8)
    ensures r < 0 <==> b >= 0x80
    ensures (r + 0x100) % 0x100 == b
  {
    if b < 0x80 then b else b - 0x100
  }

  /** `u32::from_le_bytes(s[at..at+4])`. */
  function U32Le(s: seq<Byte>, at: nat): U32
    requires at + 4 <= |s|
  {
    s[at] as int + 0x100 * s[at + 1] as int + 0x1_0000 * s[at + 2] as int + 0x100_0000 * s[at + 3] as int
  }

  /** `u32::from_be_bytes(s[at..at+4])`. */
  function U32Be(s: seq<Byte>, at: nat): U32
    requires at + 4 <= |s|
  {
    0x100_0000 * s[at] as int + 0x1_0000 * s[at + 1] as int + 0x100 * s[at + 2] as int + s[at + 3] as int
  }

  /** `x.to_le_bytes()`: the reference encoding that `U32Le` inverts. */
  function U32ToLe(x: U32): (r: seq<Byte>)
    ensures |r| == 4
  {
    [x % 0x100, (x / 0x100) % 0x100, (x / 0x1_0000) % 0x100, x / 0x100_0000]
  }

  /** `x.to_be_bytes()`: the reference encoding that `U32Be` inverts. */
  function U32ToBe(x: U32): (r: seq<Byte>)
    ensures |r| == 4
  {
    [x / 0x100_0000, (x / 0x1_0000) % 0x100, (x / 0x100) % 0x100, x % 0x100]
  }

  function Zeros(n: nat): (r: seq<Byte>)
    ensures |r| == n && forall i :: 0 <= i < n ==> r[i] == 0
  {
    seq(n, _ => 0)
  }

  lemma U16BytesRoundTrip(x: U16)
    ensures U16FromBytes(LoByte(x), HiByte(x)) == x
  {
  }

  /** `U32Le` reads back what `U32ToLe` wrote at the same offset. */
  lemma U32LeRoundTrip(s: seq<Byte>, at: nat, x: U32)
    requires at + 4 <= |s| && s[at..at + 4] == U32ToLe(x)
    ensures U32Le(s, at) == x
  {
    assert s[at] == s[at..at + 4][0] && s[at + 1] == s[at..at + 4][1];
    assert s[at + 2] == s[at..at + 4][2] && s[at + 3] == s[at..at + 4][3];
    DigitsLe(x);
  }

  /** `U32Be` reads back what `U32ToBe` wrote at the same offset. */
  lemma U32BeRoundTrip(s: seq<Byte>, at: nat, x: U32)
    requires at + 4 <= |s| && s[at..at + 4] == U32ToBe(x)
    ensures U32Be(s, at) == x
  {
    assert s[at] == s[at..at + 4][0] && s[at + 1] == s[at..at + 4][1];
    assert s[at + 2] == s[at..at + 4][2] && s[at + 3] == s[at..at + 4][3];
    DigitsLe(x);
  }

  /** Base-256 digit expansion of a `u32`. */
  lemma DigitsLe(x: U32)
    ensures x % 0x100 + 0x100 * ((x / 0x100) % 0x100) + 0x1_0000 * ((x / 0x1_0000) % 0x100)
            + 0x100_0000 * (x / 0x100_0000) == x
  {
    var q1 := x / 0x100;
    var q2 := q1 / 0x100;
    var q3 := q2 / 0x100;
    assert x == q1 * 0x100 + x % 0x100;
    assert q1 == q2 * 0x100 + q1 % 0x100;
    assert q2 == q3 * 0x100 + q2 % 0x100;
    assert x / 0x1_0000 == q2;
    assert x / 0x100_0000 == q3;
  }
}
