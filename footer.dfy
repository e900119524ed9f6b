/** The 4-byte frame-size footer that ends every allocation frame.
    The allocator stores a uint32_t through a pointer and reads it back the
    same way, so any fixed byte order is faithful; this model uses
    little-endian order. */
module Footer {

  /** One byte of the backing buffer (uint8_t). */
  type byte = x: int | 0 <= x < 256

  /** sizeof(uint32_t): the width of the footer. */
  const FOOTER_SIZE: nat := 4

  /** Values a uint32_t can hold are those below this bound. */
  const UINT32_LIMIT: nat := 0x1_0000_0000

  /** The four bytes that hold `x`, least significant first. */
  function Encode(x: nat): (b: seq<byte>)
    requires x < UINT32_LIMIT
    ensures |b| == FOOTER_SIZE
  {
    var q1 := x / 256;
    var q2 := q1 / 256;
    var q3 := q2 / 256;
    [x % 256, q1 % 256, q2 % 256, q3]
  }

  /** The uint32_t value that four bytes hold. */
  function Decode(b: seq<byte>): (x: nat)
    requires |b| == FOOTER_SIZE
    ensures x < UINT32_LIMIT
  {
    var b0, b1, b2, b3: int := b[0], b[1], b[2], b[3];
    b0 + 256 * (b1 + 256 * (b2 + 256 * b3))
  }

  /** Splitting off the lowest byte of `x` is division by 256. */
  lemma LowByte(x: nat, high: nat, low: nat)
    requires low < 256 && x == 256 * high + low
    ensures x % 256 == low && x / 256 == high
  {
  }

  /** Reading the footer back yields the size that was stored. */
  lemma DecodeEncode(x: nat)
    requires x < UINT32_LIMIT
    ensures Decode(Encode(x)) == x
  {
    var q1 := x / 256;
    var q2 := q1 / 256;
    var q3 := q2 / 256;
    assert q3 < 256;
    assert Decode(Encode(x)) == x % 256 + 256 * (q1 % 256 + 256 * (q2 % 256 + 256 * q3));
  }

  /** Every four-byte pattern is the encoding of the value it decodes to. */
  lemma EncodeDecode(b: seq<byte>)
    requires |b| == FOOTER_SIZE
    ensures Encode(Decode(b)) == b
  {
    var b0, b1, b2, b3: int := b[0], b[1], b[2], b[3];
    var q2 := b2 + 256 * b3;
    var q1 := b1 + 256 * q2;
    var x := b0 + 256 * q1;
    assert Decode(b) == x;
    LowByte(x, q1, b0);
    LowByte(q1, q2, b1);
    LowByte(q2, b3, b2);
  }
}
