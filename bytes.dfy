/** Byte-level vocabulary shared by the ring buffer, the framer, the encoders
    and the decoders: bytes, the big-endian readers and writers the protocol
    uses, and the packet checksum. */
module Bytes {

  /** An unsigned 8-bit value, the element type of every buffer. */
  type uint8 = x: int | 0 <= x < 0x100

  datatype Option<T> = None | Some(value: T)

  /** The protocol's packet start and end markers. */
  const SHORT_START: uint8 := 2
  const LONG_START: uint8 := 3
  const END_MARKER: uint8 := 3

  predicate IsStart(b: uint8) {
    b == SHORT_START || b == LONG_START
  }

  // ---------------------------------------------------------------------------
  // Big-endian readers (the buffer_get_* helpers of the firmware's buffer.h,
  // which is not part of this model: their widths and byte order are assumed)
  // ---------------------------------------------------------------------------

  /** Two's-complement reading of an unsigned quantity `u` below `2 * half`. */
  function Signed(u: nat, half: nat): (r: int)
    requires 0 < half && u < 2 * half
    ensures -(half as int) <= r < half
  {
    if u >= half then u - 2 * half else u
  }

  /** buffer_get_int8: one signed byte. */
  function Int8At(d: seq<uint8>, i: nat): (r: int)
    requires i < |d|
    ensures -0x80 <= r < 0x80
  {
    Signed(d[i], 0x80)
  }

  /** buffer_get_int16: two bytes, big-endian, signed. */
  function Int16At(d: seq<uint8>, i: nat): (r: int)
    requires i + 2 <= |d|
    ensures -0x8000 <= r < 0x8000
  {
    Signed(d[i] as int * 0x100 + d[i + 1], 0x8000)
  }

  /** buffer_get_uint32: four bytes, big-endian, unsigned. */
  function U32At(d: seq<uint8>, i: nat): (r: nat)
    requires i + 4 <= |d|
    ensures r < 0x1_0000_0000
  {
    ((d[i] as int * 0x100 + d[i + 1]) * 0x100 + d[i + 2]) * 0x100 + d[i + 3]
  }

  /** buffer_get_int32: four bytes, big-endian, signed. */
  function Int32At(d: seq<uint8>, i: nat): (r: int)
    requires i + 4 <= |d|
    ensures -0x8000_0000 <= r < 0x8000_0000
  {
    Signed(U32At(d, i), 0x8000_0000)
  }

  predicate IsInt32(v: int) {
    -0x8000_0000 <= v < 0x8000_0000
  }

  /** buffer_append_int32: the four big-endian bytes of a 32-bit signed value. */
  function Int32Bytes(v: int): (r: seq<uint8>)
    requires IsInt32(v)
    ensures |r| == 4 && Int32At(r, 0) == v
  {
    var u := v % 0x1_0000_0000;
    var q1, b3 := u / 0x100, u % 0x100;
    var q2, b2 := q1 / 0x100, q1 % 0x100;
    var b0, b1 := q2 / 0x100, q2 % 0x100;
    assert U32At([b0, b1, b2, b3], 0) == u;
    [b0, b1, b2, b3]
  }

  // ---------------------------------------------------------------------------
  // Packet checksum. The firmware's crc.h is not part of this model; its crc16
  // is taken to be CRC-16/XMODEM (polynomial 0x1021, initial value 0), written
  // here bit by bit on numbers below 2^16 instead of through the firmware's
  // lookup table.
  // ---------------------------------------------------------------------------

  function Pow2(n: nat): (r: nat)
    ensures r >= 1
  {
    if n == 0 then 1 else 2 * Pow2(n - 1)
  }

  lemma Pow2Sixteen()
    ensures Pow2(16) == 0x1_0000
  {
    assert Pow2(4) == 16;
    assert Pow2(8) == 256;
    assert Pow2(12) == 4096;
  }

  /** The bitwise exclusive or of the low n bits of a and b. */
  function Xor(a: nat, b: nat, n: nat): (r: nat)
    ensures r < Pow2(n)
  {
    if n == 0 then 0 else (if a % 2 == b % 2 then 0 else 1) + 2 * Xor(a / 2, b / 2, n - 1)
  }

  /** n steps of the checksum register: shift left by one, and fold in the
      polynomial 0x1021 when a one is shifted out. */
  function CrcShift(c: nat, n: nat): (r: nat)
    requires c < 0x1_0000
    ensures r < 0x1_0000
    decreases n
  {
    if n == 0 then c
    else
      var shifted := c * 2 % 0x1_0000;
      Pow2Sixteen();
      CrcShift(if c >= 0x8000 then Xor(shifted, 0x1021, 16) else shifted, n - 1)
  }

  /** One byte into the register, high bit first. */
  function CrcUpdate(c: nat, b: uint8): (r: nat)
    requires c < 0x1_0000
    ensures r < 0x1_0000
  {
    Pow2Sixteen();
    CrcShift(Xor(c, b * 0x100, 16), 8)
  }

  function CrcOf(s: seq<uint8>): (r: nat)
    ensures r < 0x1_0000
    decreases |s|
  {
    if s == [] then 0 else CrcUpdate(CrcOf(s[..|s| - 1]), s[|s| - 1])
  }

  /** crc16 over a payload, as a 16-bit unsigned number. */
  function Crc16(s: seq<uint8>): (r: nat)
    ensures r < 0x1_0000
  {
    CrcOf(s)
  }
}
