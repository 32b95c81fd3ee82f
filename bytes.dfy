/** Bytes as Python's `bytes` holds them, and the unsigned 32-bit
    little-endian field that `struct.pack("<I", n)` writes. */
module Bytes {

  /** One element of a Python `bytes` object: an integer in 0..255. */
  type byte = x: int | 0 <= x < 256

  /** `struct.pack("<I", n)` accepts exactly the n below this bound. */
  const U32_LIMIT: nat := 0x1_0000_0000

  /** The four bytes `struct.pack("<I", n)` produces, lowest byte first. */
  function U32LE(n: nat): (r: seq<byte>)
    requires n < U32_LIMIT
    ensures |r| == 4
  {
    var q1 := n / 256;
    var q2 := q1 / 256;
    var q3 := q2 / 256;
    [n % 256, q1 % 256, q2 % 256, q3]
  }

  /** The reader's side of the field: four bytes, lowest first. */
  function DecodeU32(b: seq<byte>): (n: nat)
    requires |b| == 4
    ensures n < U32_LIMIT
  {
    b[0] as int + 256 * (b[1] as int + 256 * (b[2] as int + 256 * b[3] as int))
  }

  /** Reading the field back gives the number written. */
  lemma DecodeEncodeU32(n: nat)
    requires n < U32_LIMIT
    ensures DecodeU32(U32LE(n)) == n
  {
    var q1 := n / 256;
    var q2 := q1 / 256;
    assert n == n % 256 + 256 * q1;
    assert q1 == q1 % 256 + 256 * q2;
    assert q2 == q2 % 256 + 256 * (q2 / 256);
  }

  /** Every four-byte field is the encoding of the number it decodes to,
      so the field has no spare representations. */
  lemma EncodeDecodeU32(b: seq<byte>)
    requires |b| == 4
    ensures U32LE(DecodeU32(b)) == b
  {
    var n := DecodeU32(b);
    var t := b[1] as int + 256 * (b[2] as int + 256 * b[3] as int);
    assert n == b[0] as int + 256 * t;
    assert n % 256 == b[0] && n / 256 == t;
    var u := b[2] as int + 256 * b[3] as int;
    assert t == b[1] as int + 256 * u;
    assert t % 256 == b[1] && t / 256 == u;
    assert u % 256 == b[2] && u / 256 == b[3];
  }
}
