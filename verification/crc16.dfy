/** The Modbus CRC-16 of section 6.2.2 of the Modbus over Serial Line
    specification V1.02, as `crc16` in models/gauge_reader.py computes it on
    Python integers: seed 0xFFFF, each byte XORed in, then eight right shifts
    that XOR the reflected polynomial 0xA001 whenever the bit shifted out was
    set. There is no final XOR. */
module Crc {
  import opened Bytes

  const Seed: nat := 0xFFFF
  const Poly: nat := 0xA001

  function Pow2(n: nat): (p: nat)
    ensures p >= 1
  {
    if n == 0 then 1 else 2 * Pow2(n - 1)
  }

  /** Python's `a ^ b` on non-negative integers, defined bit by bit from the
      least significant end. */
  function Xor(a: nat, b: nat): nat
    decreases a + b
  {
    if a == 0 then b
    else if b == 0 then a
    else 2 * Xor(a / 2, b / 2) + (a + b) % 2
  }

  /** XOR never sets a bit above the widest operand. */
  lemma {:induction false} XorBound(a: nat, b: nat, n: nat)
    requires a < Pow2(n) && b < Pow2(n)
    ensures Xor(a, b) < Pow2(n)
    decreases n
  {
    if a != 0 && b != 0 {
      assert n > 0;
      XorBound(a / 2, b / 2, n - 1);
    }
  }

  lemma Pow2Of16()
    ensures Pow2(16) == 0x1_0000
  {
    calc {
      Pow2(16);
      == 256 * Pow2(8);
      == 256 * 256 * Pow2(0);
    }
  }

  /** One pass of the inner loop: `(crc >> 1) ^ 0xA001` if the low bit was set,
      `crc >> 1` otherwise. */
  function ShiftStep(crc: nat): (r: nat)
    requires crc < 0x1_0000
    ensures r < 0x1_0000
  {
    if crc % 2 == 1 then
      Pow2Of16();
      XorBound(crc / 2, Poly, 16);
      Xor(crc / 2, Poly)
    else crc / 2
  }

  /** `k` passes of the inner loop. */
  function ShiftSteps(crc: nat, k: nat): (r: nat)
    requires crc < 0x1_0000
    ensures r < 0x1_0000
  {
    if k == 0 then crc else ShiftStep(ShiftSteps(crc, k - 1))
  }

  /** The whole per-byte update: XOR the byte in, then eight shift passes. */
  function ByteStep(crc: nat, b: Byte): (r: nat)
    requires crc < 0x1_0000
    ensures r < 0x1_0000
  {
    Pow2Of16();
    XorBound(crc, b, 16);
    ShiftSteps(Xor(crc, b), 8)
  }

  /** The register after feeding `data` in order, starting from `crc`. */
  function CrcFrom(crc: nat, data: seq<Byte>): (r: nat)
    requires crc < 0x1_0000
    ensures r < 0x1_0000
    decreases |data|
  {
    if |data| == 0 then crc else CrcFrom(ByteStep(crc, data[0]), data[1..])
  }

  function Crc16(data: seq<Byte>): (r: nat)
    ensures r < 0x1_0000
  {
    CrcFrom(Seed, data)
  }

  /** The CRC is a plain left-to-right accumulation: the register after `a + b`
      is the register after `a`, then fed `b`. */
  lemma {:induction false} CrcFromAppend(crc: nat, a: seq<Byte>, b: seq<Byte>)
    requires crc < 0x1_0000
    ensures CrcFrom(crc, a + b) == CrcFrom(CrcFrom(crc, a), b)
    decreases |a|
  {
    if |a| != 0 {
      assert (a + b)[0] == a[0];
      assert (a + b)[1..] == a[1..] + b;
      CrcFromAppend(ByteStep(crc, a[0]), a[1..], b);
    } else {
      assert a + b == b;
    }
  }

  /** The nested loop of `crc16`, statement for statement, on unbounded
      integers: `crc & 1` is `crc % 2` and `crc >> 1` is `crc / 2`. */
  method ComputeCrc16(data: seq<Byte>) returns (crc: nat)
    ensures crc < 0x1_0000
    ensures crc == Crc16(data)
  {
    crc := Seed;
    var i := 0;
    while i < |data|
      invariant 0 <= i <= |data|
      invariant crc == CrcFrom(Seed, data[..i])
    {
      var start := Xor(crc, data[i]);
      Pow2Of16();
      XorBound(crc, data[i], 16);
      crc := start;
      var j := 0;
      while j < 8
        invariant 0 <= j <= 8
        invariant crc == ShiftSteps(start, j)
      {
        if crc % 2 == 1 {
          crc := Xor(crc / 2, Poly);
        } else {
          crc := crc / 2;
        }
        j := j + 1;
      }
      assert data[..i + 1] == data[..i] + [data[i]];
      CrcFromAppend(Seed, data[..i], [data[i]]);
      i := i + 1;
    }
    assert data[..i] == data;
  }
}
