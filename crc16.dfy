/**
 * The ground station's bitwise CRC-16 (`crc_ccitt` in tmtc-ground/src/main.rs):
 * polynomial 0x1021, initial register 0xFFFF, no input or output reflection and
 * no final XOR, i.e. the CRC-16/CCITT-FALSE parameter set. The air side configures
 * its hardware CRC unit with the same polynomial, initial value and reflection
 * (tmtc-air/src/main.rs:138-147). The register is a `u16`, so it is a `bv16` here
 * and a left shift drops bit 15.
 */
module Crc16 {

  const Poly: bv16 := 0x1021
  const Init: bv16 := 0xFFFF

  /** One inner round: shift left by one; XOR the polynomial in if bit 15 was set. */
  function Round(crc: bv16): bv16
  {
    if crc & 0x8000 != 0 then (crc << 1) ^ Poly else crc << 1
  }

  /** `k` rounds in a row. */
  function Rounds(crc: bv16, k: nat): bv16
    decreases k
  {
    if k == 0 then crc else Rounds(Round(crc), k - 1)
  }

  /** Absorbing one byte: XOR it into the high byte, then eight rounds. */
  function Step(crc: bv16, b: bv8): bv16
  {
    Rounds(crc ^ ((b as bv16) << 8), 8)
  }

  /** The CRC of a byte string, as a left fold of `Step` from `Init`. */
  function Crc(bytes: seq<bv8>): bv16
    decreases |bytes|
  {
    if |bytes| == 0 then Init else Step(Crc(bytes[..|bytes| - 1]), bytes[|bytes| - 1])
  }

  /** The inner loop of `crc_ccitt`: the eight rounds that follow the XOR of a byte. */
  method ShiftOut(x: bv16) returns (crc: bv16)
    ensures crc == Rounds(x, 8)
  {
    crc := x;
    for j := 0 to 8
      invariant Rounds(crc, 8 - j) == Rounds(x, 8)
    {
      RoundsUnfold(crc, 8 - j);
      if crc & 0x8000 != 0 {
        crc := (crc << 1) ^ 0x1021;
      } else {
        crc := crc << 1;
      }
    }
  }

  /** `crc_ccitt`: the outer loop over the bytes, proved to compute `Crc`. */
  method CrcCcitt(bytes: seq<bv8>) returns (crc: bv16)
    ensures crc == Crc(bytes)
    ensures bytes == [] ==> crc == 0xFFFF
  {
    crc := 0xFFFF;
    for i := 0 to |bytes|
      invariant crc == Crc(bytes[..i])
    {
      crc := crc ^ ((bytes[i] as bv16) << 8);
      crc := ShiftOut(crc);
      assert bytes[..i + 1] == bytes[..i] + [bytes[i]];
      CrcAppend(bytes[..i], bytes[i]);
    }
    assert bytes[..|bytes|] == bytes;
  }

  /** One round taken off the front of `k > 0` rounds. */
  lemma RoundsUnfold(crc: bv16, k: nat)
    requires k > 0
    ensures Rounds(crc, k) == Rounds(Round(crc), k - 1)
  {
  }

  /** The fold law: appending a byte applies one `Step` to the previous CRC. */
  lemma {:induction false} CrcAppend(xs: seq<bv8>, b: bv8)
    ensures Crc(xs + [b]) == Step(Crc(xs), b)
  {
    assert (xs + [b])[..|xs|] == xs;
  }

  /** Absorbing the bytes of `ys` one after another, starting from register `c`. */
  function StepAll(c: bv16, ys: seq<bv8>): bv16
    decreases |ys|
  {
    if ys == [] then c else StepAll(Step(c, ys[0]), ys[1..])
  }

  /** The fold law over a whole suffix: the CRC of `xs + ys` continues from the CRC of `xs`. */
  lemma {:induction false} CrcConcat(xs: seq<bv8>, ys: seq<bv8>)
    ensures Crc(xs + ys) == StepAll(Crc(xs), ys)
    decreases |ys|
  {
    if ys == [] {
      assert xs + ys == xs;
    } else {
      CrcAppend(xs, ys[0]);
      assert xs + ys == (xs + [ys[0]]) + ys[1..];
      CrcConcat(xs + [ys[0]], ys[1..]);
    }
  }

  /** Two bytes are two steps. */
  lemma StepAllPair(c: bv16, a: bv8, b: bv8)
    ensures StepAll(c, [a, b]) == Step(Step(c, a), b)
  {
    var ys: seq<bv8> := [a, b];
    assert ys[1..] == [b] && [b][1..] == [];
    var c1 := Step(c, a);
    assert StepAll(c, ys) == StepAll(c1, [b]);
    assert StepAll(c1, [b]) == StepAll(Step(c1, b), []);
  }

  /** The register after each byte of "123456789", one `Step` at a time. */
  lemma CheckSteps()
    ensures Step(0xFFFF, 0x31) == 0xC782
    ensures Step(0xC782, 0x32) == 0x3DBA
    ensures Step(0x3DBA, 0x33) == 0x5BCE
    ensures Step(0x5BCE, 0x34) == 0x5349
    ensures Step(0x5349, 0x35) == 0x4560
    ensures Step(0x4560, 0x36) == 0x2EF4
    ensures Step(0x2EF4, 0x37) == 0x7718
    ensures Step(0x7718, 0x38) == 0xA12B
    ensures Step(0xA12B, 0x39) == 0x29B1
  {
    assert Step(0xFFFF, 0x31) == 0xC782;
    assert Step(0xC782, 0x32) == 0x3DBA;
    assert Step(0x3DBA, 0x33) == 0x5BCE;
    assert Step(0x5BCE, 0x34) == 0x5349;
    assert Step(0x5349, 0x35) == 0x4560;
    assert Step(0x4560, 0x36) == 0x2EF4;
    assert Step(0x2EF4, 0x37) == 0x7718;
    assert Step(0x7718, 0x38) == 0xA12B;
    assert Step(0xA12B, 0x39) == 0x29B1;
  }

  /** The catalogued check value of CRC-16/CCITT-FALSE: CRC("123456789") = 0x29B1. */
  lemma CheckValue()
    ensures Crc([0x31, 0x32, 0x33, 0x34, 0x35, 0x36, 0x37, 0x38, 0x39]) == 0x29B1
  {
    CheckSteps();
    var m: seq<bv8> := [];
    CrcAppend(m, 0x31);
    m := m + [0x31];
    assert Crc(m) == 0xC782;
    CrcAppend(m, 0x32);
    m := m + [0x32];
    assert Crc(m) == 0x3DBA;
    CrcAppend(m, 0x33);
    m := m + [0x33];
    assert Crc(m) == 0x5BCE;
    CrcAppend(m, 0x34);
    m := m + [0x34];
    assert Crc(m) == 0x5349;
    CrcAppend(m, 0x35);
    m := m + [0x35];
    assert Crc(m) == 0x4560;
    CrcAppend(m, 0x36);
    m := m + [0x36];
    assert Crc(m) == 0x2EF4;
    CrcAppend(m, 0x37);
    m := m + [0x37];
    assert Crc(m) == 0x7718;
    CrcAppend(m, 0x38);
    m := m + [0x38];
    assert Crc(m) == 0xA12B;
    CrcAppend(m, 0x39);
    m := m + [0x39];
    assert Crc(m) == 0x29B1;
    assert m == [0x31, 0x32, 0x33, 0x34, 0x35, 0x36, 0x37, 0x38, 0x39];
  }

  /** Absorbing a register's own high and then low byte clears it. */
  lemma StepResidue(c: bv16)
    ensures Step(Step(c, (c >> 8) as bv8), (c & 0xFF) as bv8) == 0
  {
  }

  /** Appending the CRC, high byte first, makes the CRC of the extended message 0. */
  lemma {:induction false} AppendedCrcChecksToZero(m: seq<bv8>)
    ensures Crc(m + [(Crc(m) >> 8) as bv8, (Crc(m) & 0xFF) as bv8]) == 0
  {
    var c := Crc(m);
    var tail: seq<bv8> := [(c >> 8) as bv8, (c & 0xFF) as bv8];
    CrcConcat(m, tail);
    StepAllPair(c, tail[0], tail[1]);
    StepResidue(c);
  }
}
