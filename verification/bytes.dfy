/** Byte-level values shared by the frame codec: bytes and 16-bit words as
    bounded integers, and the big-endian signed 32-bit integer carried in a
    read response. */
module Bytes {

  /** One byte on the wire, as the Python code handles it: an int in [0, 256). */
  type Byte = b: int | 0 <= b < 0x100

  /** A 16-bit register value. */
  type Word = w: int | 0 <= w < 0x1_0000

  const TwoTo31: int := 0x8000_0000
  const TwoTo32: int := 0x1_0000_0000

  predicate IsInt32(v: int) {
    -TwoTo31 <= v < TwoTo31
  }

  /** The unsigned value of four bytes, most significant first. */
  function Unsigned32(b: seq<Byte>): (u: int)
    requires |b| == 4
    ensures 0 <= u < TwoTo32
  {
    var b0: int, b1: int, b2: int, b3: int := b[0], b[1], b[2], b[3];
    ((b0 * 0x100 + b1) * 0x100 + b2) * 0x100 + b3
  }

  /** `struct.unpack('>i', b)`: four bytes read as a big-endian two's-complement
      integer. */
  function Int32BE(b: seq<Byte>): (v: int)
    requires |b| == 4
    ensures IsInt32(v)
    ensures v < 0 <==> b[0] >= 0x80
    ensures v % TwoTo32 == Unsigned32(b)
  {
    var u := Unsigned32(b);
    if u >= TwoTo31 then u - TwoTo32 else u
  }

  /** The inverse encoding: the four big-endian bytes of a signed 32-bit value,
      as a device puts a reading on the wire. */
  function Int32ToBE(v: int): (b: seq<Byte>)
    requires IsInt32(v)
    ensures |b| == 4
    ensures Unsigned32(b) == v % TwoTo32
  {
    var u := v % TwoTo32;
    [u / 0x100_0000, u / 0x1_0000 % 0x100, u / 0x100 % 0x100, u % 0x100]
  }

  lemma Int32RoundTrip(v: int)
    requires IsInt32(v)
    ensures Int32BE(Int32ToBE(v)) == v
  {
  }

  lemma BytesRoundTrip(b: seq<Byte>)
    requires |b| == 4
    ensures Int32ToBE(Int32BE(b)) == b
  {
    var u := Unsigned32(b);
    assert Int32BE(b) % TwoTo32 == u;
    var r := Int32ToBE(Int32BE(b));
    assert r[0] == b[0] && r[1] == b[1] && r[2] == b[2] && r[3] == b[3];
  }
}
