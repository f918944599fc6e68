/** Byte strings and the big-endian integers of `struct.pack`. */
module Bytes {
  type byte = x: int | 0 <= x < 256
  type Bytes = seq<byte>

  const MAX_U16 := 0x1_0000
  const MAX_U32 := 0x1_0000_0000

  function PackU16(n: nat): (b: Bytes)
    requires n < MAX_U16
    ensures |b| == 2
  {
    [n / 256, n % 256]
  }

  function UnpackU16(b: Bytes): (n: nat)
    requires |b| == 2
    ensures n < MAX_U16
  {
    (b[0] as int) * 256 + b[1]
  }

  function PackU32(n: nat): (b: Bytes)
    requires n < MAX_U32
    ensures |b| == 4
  {
    PackU16(n / MAX_U16) + PackU16(n % MAX_U16)
  }

  function UnpackU32(b: Bytes): (n: nat)
    requires |b| == 4
    ensures n < MAX_U32
  {
    UnpackU16(b[..2]) * MAX_U16 + UnpackU16(b[2..])
  }

  /** The most significant byte comes first. */
  lemma BigEndian(b: Bytes)
    requires |b| == 4
    ensures UnpackU16(b[..2]) == 256 * b[0] as int + b[1] as int
    ensures UnpackU32(b) == 16777216 * b[0] as int + 65536 * b[1] as int + 256 * b[2] as int + b[3] as int
  {
  }

  lemma U16RoundTrip(n: nat, b: Bytes)
    requires n < MAX_U16 && |b| == 2
    ensures UnpackU16(PackU16(n)) == n
    ensures PackU16(UnpackU16(b)) == b
  {
  }

  lemma U32RoundTrip(n: nat)
    requires n < MAX_U32
    ensures UnpackU32(PackU32(n)) == n
  {
    var b := PackU32(n);
    assert b[..2] == PackU16(n / MAX_U16) && b[2..] == PackU16(n % MAX_U16);
    U16RoundTrip(n / MAX_U16, [0, 0]);
    U16RoundTrip(n % MAX_U16, [0, 0]);
  }

  lemma U32Inverse(b: Bytes)
    requires |b| == 4
    ensures PackU32(UnpackU32(b)) == b
  {
    var n := UnpackU32(b);
    var high, low := UnpackU16(b[..2]), UnpackU16(b[2..]);
    assert n / MAX_U16 == high && n % MAX_U16 == low;
    U16RoundTrip(0, b[..2]);
    U16RoundTrip(0, b[2..]);
  }
}
