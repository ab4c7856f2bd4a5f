/** Fixed-width unsigned integers and little-endian fields over byte buffers. */
module Bytes {

  type Byte = b: int | 0 <= b < 0x100
  type U16 = x: int | 0 <= x < 0x1_0000
  type U32 = x: int | 0 <= x < 0x1_0000_0000

  /** C++ `uint32_t` arithmetic: the mathematical value reduced modulo 2^32. */
  function Wrap32(x: int): (r: U32)
    ensures 0 <= x < 0x1_0000_0000 ==> r == x
    ensures 0x1_0000_0000 <= x < 0x2_0000_0000 ==> r == x - 0x1_0000_0000
    ensures -0x1_0000_0000 <= x < 0 ==> r == x + 0x1_0000_0000
  {
    x % 0x1_0000_0000
  }

  /** Conversion of a `uint32_t` to `int32_t` (two's complement). */
  function AsInt32(x: U32): (r: int)
    ensures -0x8000_0000 <= r < 0x8000_0000
    ensures r >= 0 <==> x < 0x8000_0000
    ensures r == x || r == x - 0x1_0000_0000
  {
    if x < 0x8000_0000 then x else x - 0x1_0000_0000
  }

  /** The byte a read at position `i` stores: a read outside the buffer fails
      and leaves the zero-initialised destination as it was. */
  function ByteAt(s: seq<Byte>, i: int): Byte
  {
    if 0 <= i < |s| then s[i] else 0
  }

  /** `n` consecutive bytes read from position `i`. */
  function BytesAt(s: seq<Byte>, i: int, n: nat): (r: seq<Byte>)
    ensures |r| == n
    ensures forall k :: 0 <= k < n ==> r[k] == ByteAt(s, i + k)
    ensures 0 <= i && i + n <= |s| ==> r == s[i..i + n]
    decreases n
  {
    if n == 0 then [] else [ByteAt(s, i)] + BytesAt(s, i + 1, n - 1)
  }

  /** A 2-byte little-endian unsigned field at position `i`. */
  function LeU16At(s: seq<Byte>, i: int): U16
  {
    ByteAt(s, i) + 0x100 * ByteAt(s, i + 1)
  }

  /** A 4-byte little-endian unsigned field at position `i`. */
  function LeU32At(s: seq<Byte>, i: int): U32
  {
    ByteAt(s, i) + 0x100 * ByteAt(s, i + 1) + 0x1_0000 * ByteAt(s, i + 2) + 0x100_0000 * ByteAt(s, i + 3)
  }

  /** The on-disk encoding of a 16-bit value: low byte first. */
  function LeU16(v: U16): (r: seq<Byte>)
    ensures |r| == 2
  {
    [v % 0x100, v / 0x100]
  }

  /** The on-disk encoding of a 32-bit value: low byte first. */
  function LeU32(v: U32): (r: seq<Byte>)
    ensures |r| == 4
  {
    [v % 0x100, (v / 0x100) % 0x100, (v / 0x1_0000) % 0x100, v / 0x100_0000]
  }

  /** Reading back a 16-bit field that was written decodes the written value. */
  lemma LeU16RoundTrip(s: seq<Byte>, i: int, v: U16)
    requires 0 <= i && i + 2 <= |s| && s[i..i + 2] == LeU16(v)
    ensures LeU16At(s, i) == v
  {
    assert s[i] == v % 0x100 && s[i + 1] == v / 0x100 by {
      assert s[i..i + 2][0] == s[i] && s[i..i + 2][1] == s[i + 1];
    }
  }

  /** Reading back a 32-bit field that was written decodes the written value. */
  lemma LeU32RoundTrip(s: seq<Byte>, i: int, v: U32)
    requires 0 <= i && i + 4 <= |s| && s[i..i + 4] == LeU32(v)
    ensures LeU32At(s, i) == v
  {
    var w := s[i..i + 4];
    assert s[i] == w[0] && s[i + 1] == w[1] && s[i + 2] == w[2] && s[i + 3] == w[3];
    var b0, q0 := v % 0x100, v / 0x100;
    var b1, q1 := q0 % 0x100, q0 / 0x100;
    var b2, b3 := q1 % 0x100, q1 / 0x100;
    assert v == b0 + 0x100 * q0;
    assert q0 == b1 + 0x100 * q1;
    assert q1 == b2 + 0x100 * b3;
    assert q1 == v / 0x1_0000;
    assert b3 == v / 0x100_0000;
  }
}
