/**
  The C code packs and unpacks bits of 32-bit words.  The other modules write those operations as
  quotients, remainders, products and sums of integers; the lemmas here say that on 32-bit words
  the two are the same.  No proof uses them: the step from a 32-bit word to the integer of the same
  value is not formalised.
 */
module BitIdioms {

  /** Shifting by six bits and masking six bits, as the UTF-8 code does. */
  lemma SixBitGroups(x: bv32)
    ensures x << 6 == x * 64
    ensures x >> 6 == x / 64
    ensures x & 0x3F == x % 64
    ensures (x | 0x80) & 0xBF & 0xFF == 0x80 + x % 64
    ensures x < 0x400_0000 ==> (x << 6) | (x & 0x3F) == x * 64 + x % 64
  {}

  /** OR-ing the mark of a first byte onto the payload bits that are left for it. */
  lemma FirstByteMarks(x: bv32)
    ensures (x % 0x80) | 0x00 == x % 0x80
    ensures (x % 0x20) | 0xC0 == 0xC0 + x % 0x20
    ensures (x % 0x10) | 0xE0 == 0xE0 + x % 0x10
    ensures (x % 0x08) | 0xF0 == 0xF0 + x % 0x08
  {}

  /** Clearing with `~mask` the length mark that the stream reader found. */
  lemma ClearedMarks(x: bv32)
    requires x < 0x100
    ensures 0x80 <= x ==> x & !0x80 == x - 0x80
    ensures 0xC0 <= x ==> x & !0xC0 == x - 0xC0
    ensures 0xE0 <= x ==> x & !0xE0 == x - 0xE0
    ensures 0xF0 <= x ==> x & !0xF0 == x - 0xF0
    ensures 0xF8 <= x ==> x & !0xF8 == x - 0xF8
    ensures 0xFC <= x ==> x & !0xFC == x - 0xFC
  {}

  /** Halving and joining surrogates, and splitting a 16-bit unit into bytes. */
  lemma TenBitGroups(x: bv32, y: bv32)
    ensures x >> 10 == x / 0x400
    ensures x & 0x3FF == x % 0x400
    ensures x < 0x400 ==> x << 10 == x * 0x400
    ensures x < 0x400 ==> (x << 10) | (y & 0x3FF) == x * 0x400 + y % 0x400
    ensures x < 0x100 && y < 0x100 ==> (x << 8) | y == x * 0x100 + y
  {}

  /** Fields of the RTP header and of the SBC frame header, and the bytes of a longer word. */
  lemma HeaderFields(x: bv32)
    ensures (x & 0x30) >> 4 == x / 16 % 4
    ensures (x & 0x0C) >> 2 == x / 4 % 4
    ensures x & 0x01 == x % 2
    ensures (x >> 4) & 0x01 == x / 16 % 2
    ensures x & 0x0F == x % 16
    ensures x & 0xFF == x % 0x100
    ensures (x >> 8) & 0xFF == x / 0x100 % 0x100
    ensures (x >> 16) & 0xFF == x / 0x1_0000 % 0x100
    ensures (x >> 24) & 0xFF == x / 0x100_0000 % 0x100
  {}
}
