/** Integers of a fixed width, as their values. */
module Bytes {
  type Byte = x: int | 0 <= x < 0x100
  type UInt16 = x: int | 0 <= x < 0x1_0000
  type UInt32 = x: int | 0 <= x < 0x1_0000_0000

  /** The bytes of a word make up the word. */
  lemma FourBytes(n: UInt32)
    ensures n == n % 0x100 + n / 0x100 % 0x100 * 0x100 + n / 0x1_0000 % 0x100 * 0x1_0000
                 + n / 0x100_0000 % 0x100 * 0x100_0000
  {
    var a := n / 0x100;
    var b := a / 0x100;
    var c := b / 0x100;
    assert b == n / 0x1_0000 && c == n / 0x100_0000;
    assert n == a * 0x100 + n % 0x100 && a == b * 0x100 + a % 0x100 && b == c * 0x100 + b % 0x100;
  }

  lemma TwoBytes(n: UInt16)
    ensures n == n % 0x100 + n / 0x100 % 0x100 * 0x100
  {}
}
