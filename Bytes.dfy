/** Byte-level vocabulary shared by the block and chain models. */
module Bytes {

  /** A Go `byte`. */
  type byte = x: int | 0 <= x < 0x100

  /** A Go `uint32`. */
  type uint32 = x: int | 0 <= x < 0x1_0000_0000

  /** `binary.LittleEndian.Uint32`: the first byte is the least significant one.
      The contract says that the four bytes can be read back as the base-256
      digits of the result, so no two inputs decode to the same code. */
  function LittleEndian32(b: seq<byte>): (r: uint32)
    requires |b| == 4
    ensures r % 0x100 == b[0]
    ensures r / 0x100 % 0x100 == b[1]
    ensures r / 0x1_0000 % 0x100 == b[2]
    ensures r / 0x100_0000 == b[3]
  {
    var hi: int := b[2] as int + 0x100 * (b[3] as int);
    var mid: int := b[1] as int + 0x100 * hi;
    Digit(b[0], mid);
    Digit(b[1], hi);
    Digit(b[2], b[3]);
    ShiftTwice(b[0] + 0x100 * mid);
    ShiftTwice(mid);
    b[0] + 0x100 * mid
  }

  /** Below a base-256 digit `d` sit the other digits `x`. */
  lemma Digit(d: int, x: int)
    requires 0 <= d < 0x100
    ensures (d + 0x100 * x) % 0x100 == d && (d + 0x100 * x) / 0x100 == x
  {
  }

  lemma ShiftTwice(r: int)
    requires r >= 0
    ensures r / 0x100 / 0x100 == r / 0x1_0000 && r / 0x1_0000 / 0x100 == r / 0x100_0000
  {
  }
}
