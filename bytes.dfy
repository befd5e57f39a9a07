/**
  The 32-bit C `int` as `memcpy` copies it into and out of a byte stream on a
  little-endian machine: two's complement, least significant byte first.
*/
module Bytes {
  /** An `unsigned char`: one byte of a stream or of a text buffer. */
  newtype byte = b: int | 0 <= b < 0x100

  const INT32_MIN: int := -0x8000_0000
  const INT32_MAX: int := 0x7FFF_FFFF

  predicate IsInt32(v: int) {
    INT32_MIN <= v <= INT32_MAX
  }

  /** The four bytes that hold the C `int` `v` (reduced modulo 2^32, as the machine stores it). */
  function EncodeI32(v: int): (b: seq<byte>)
    ensures |b| == 4
  {
    var u := v % 0x1_0000_0000;
    var q1 := u / 0x100;
    var q2 := q1 / 0x100;
    var q3 := q2 / 0x100;
    [(u % 0x100) as byte, (q1 % 0x100) as byte, (q2 % 0x100) as byte, q3 as byte]
  }

  /** The C `int` whose four bytes start at `s[at]`. */
  function DecodeI32(s: seq<byte>, at: nat): (v: int)
    requires at + 4 <= |s|
    ensures IsInt32(v)
    ensures (v < 0) == (s[at + 3] >= 0x80)
  {
    var u := s[at] as int + 0x100 * (s[at + 1] as int + 0x100 * (s[at + 2] as int + 0x100 * s[at + 3] as int));
    if u <= INT32_MAX then u else u - 0x1_0000_0000
  }

  /** The base-256 digits of an unsigned 32-bit value put back together give the value. */
  lemma Base256Digits(u: int)
    requires 0 <= u < 0x1_0000_0000
    ensures var q1 := u / 0x100; var q2 := q1 / 0x100; var q3 := q2 / 0x100;
      q3 < 0x100 && u == u % 0x100 + 0x100 * (q1 % 0x100 + 0x100 * (q2 % 0x100 + 0x100 * q3))
  {
  }

  /** Reading back the four bytes written for an `int` gives that `int`. */
  lemma I32RoundTrip(v: int, s: seq<byte>, at: nat)
    requires IsInt32(v)
    requires at + 4 <= |s| && s[at..at + 4] == EncodeI32(v)
    ensures DecodeI32(s, at) == v
  {
    var u := v % 0x1_0000_0000;
    var q1 := u / 0x100;
    var q2 := q1 / 0x100;
    var q3 := q2 / 0x100;
    var b := EncodeI32(v);
    assert s[at] == b[0] && s[at + 1] == b[1] && s[at + 2] == b[2] && s[at + 3] == b[3];
    Base256Digits(u);
    assert u == if v >= 0 then v else v + 0x1_0000_0000;
  }
}
