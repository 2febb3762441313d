/**
  The encoding forms that ConvertUTF.c converts between, as the standards define them: UTF-16 by
  section 2 of RFC 2781, UTF-8 by section 3 of RFC 3629 and Table 3-7 of The Unicode Standard.
  Machine integers are integers in range; `BitIdioms` relates the quotients and remainders used
  here to the shifts and masks of the C code.
 */
module Encodings {
  import opened Sequences

  type UTF8 = x: int | 0 <= x < 0x100
  type UTF16 = x: int | 0 <= x < 0x1_0000
  type UTF32 = x: int | 0 <= x < 0x1_0000_0000

  const UNI_SUR_HIGH_START: UTF32 := 0xD800
  const UNI_SUR_HIGH_END: UTF32 := 0xDBFF
  const UNI_SUR_LOW_START: UTF32 := 0xDC00
  const UNI_SUR_LOW_END: UTF32 := 0xDFFF
  const UNI_REPLACEMENT_CHAR: UTF32 := 0xFFFD
  const UNI_MAX_BMP: UTF32 := 0xFFFF
  const UNI_MAX_UTF16: UTF32 := 0x10_FFFF
  const UNI_MAX_LEGAL_UTF32: UTF32 := 0x10_FFFF

  predicate IsHigh(ch: int) { UNI_SUR_HIGH_START <= ch <= UNI_SUR_HIGH_END }

  predicate IsLow(ch: int) { UNI_SUR_LOW_START <= ch <= UNI_SUR_LOW_END }

  predicate IsSurrogate(ch: int) { UNI_SUR_HIGH_START <= ch <= UNI_SUR_LOW_END }

  /** A Unicode scalar value. */
  predicate IsScalar(ch: int) { 0 <= ch <= UNI_MAX_LEGAL_UTF32 && !IsSurrogate(ch) }

  ghost predicate Scalars(cs: seq<UTF32>) {
    forall i :: 0 <= i < |cs| ==> IsScalar(cs[i])
  }

  // ------------------------------------------------------------------------------------------
  // One character

  /** UTF-16 of one value; a surrogate is a single unit, too large a value the replacement. */
  function Utf16(ch: UTF32): (s: seq<UTF16>)
    ensures 1 <= |s| <= 2
  {
    if ch <= UNI_MAX_BMP then [ch]
    else if ch <= UNI_MAX_UTF16 then
      [UNI_SUR_HIGH_START + (ch - 0x1_0000) / 0x400, UNI_SUR_LOW_START + (ch - 0x1_0000) % 0x400]
    else [UNI_REPLACEMENT_CHAR]
  }

  /** The value of a surrogate pair. */
  function Pair(high: UTF16, low: UTF16): (ch: UTF32)
    requires IsHigh(high) && IsLow(low)
    ensures 0x1_0000 <= ch <= UNI_MAX_UTF16
  {
    (high - UNI_SUR_HIGH_START) * 0x400 + (low - UNI_SUR_LOW_START) + 0x1_0000
  }

  /** The number of UTF-8 bytes of one value (too large a value is replaced). */
  function Utf8Length(ch: UTF32): (n: nat)
    ensures 1 <= n <= 4
  {
    if ch < 0x80 then 1
    else if ch < 0x800 then 2
    else if ch < 0x1_0000 then 3
    else if ch <= UNI_MAX_LEGAL_UTF32 then 4
    else 3
  }

  /**
    UTF-8 of one value, six payload bits to a trailing byte.  A surrogate is written like any
    other three-byte value, too large a value is replaced.
   */
  function Utf8(ch: UTF32): (s: seq<UTF8>)
    ensures |s| == Utf8Length(ch)
  {
    if ch < 0x80 then [ch]
    else if ch < 0x800 then [0xC0 + ch / 64, 0x80 + ch % 64]
    else if ch < 0x1_0000 then [0xE0 + ch / 64 / 64, 0x80 + ch / 64 % 64, 0x80 + ch % 64]
    else if ch <= UNI_MAX_LEGAL_UTF32 then
      [0xF0 + ch / 64 / 64 / 64, 0x80 + ch / 64 / 64 % 64, 0x80 + ch / 64 % 64, 0x80 + ch % 64]
    else [0xEF, 0xBF, 0xBD]
  }

  predicate Trailing(b: UTF8) { 0x80 <= b <= 0xBF }

  /** Table 3-7 of The Unicode Standard: the well-formed UTF-8 of one character. */
  predicate Table37(s: seq<UTF8>) {
    || (|s| == 1 && s[0] <= 0x7F)
    || (|s| == 2 && 0xC2 <= s[0] <= 0xDF && Trailing(s[1]))
    || (|s| == 3 && Trailing(s[2])
        && (|| (s[0] == 0xE0 && 0xA0 <= s[1] <= 0xBF)
            || (0xE1 <= s[0] <= 0xEC && Trailing(s[1]))
            || (s[0] == 0xED && 0x80 <= s[1] <= 0x9F)
            || (0xEE <= s[0] <= 0xEF && Trailing(s[1]))))
    || (|s| == 4 && Trailing(s[2]) && Trailing(s[3])
        && (|| (s[0] == 0xF0 && 0x90 <= s[1] <= 0xBF)
            || (0xF1 <= s[0] <= 0xF3 && Trailing(s[1]))
            || (s[0] == 0xF4 && 0x80 <= s[1] <= 0x8F)))
  }

  // ------------------------------------------------------------------------------------------
  // Texts

  /** The concatenated encodings of `cs`. */
  function Text<T>(encode: UTF32 -> seq<T>, cs: seq<UTF32>): seq<T> {
    if cs == [] then [] else encode(cs[0]) + Text(encode, cs[1..])
  }

  function Utf16Text(cs: seq<UTF32>): seq<UTF16> { Text(Utf16, cs) }

  function Utf8Text(cs: seq<UTF32>): seq<UTF8> { Text(Utf8, cs) }

  /** A text that some sequence of scalar values is encoded as. */
  ghost predicate WellFormedUtf16(s: seq<UTF16>) {
    exists cs: seq<UTF32> :: Scalars(cs) && Utf16Text(cs) == s
  }

  ghost predicate WellFormedUtf8(s: seq<UTF8>) {
    exists cs: seq<UTF32> :: Scalars(cs) && Utf8Text(cs) == s
  }

  lemma {:induction false} TextConcat<T>(encode: UTF32 -> seq<T>, a: seq<UTF32>, b: seq<UTF32>)
    ensures Text(encode, a + b) == Text(encode, a) + Text(encode, b)
    decreases |a|
  {
    if a == [] {
      assert a + b == b;
    } else {
      assert (a + b)[1..] == a[1..] + b;
      TextConcat(encode, a[1..], b);
    }
  }

  lemma TextSplits<T>(encode: UTF32 -> seq<T>, cs: seq<UTF32>, k: nat)
    requires k < |cs|
    ensures Text(encode, cs) == Text(encode, cs[..k]) + encode(cs[k]) + Text(encode, cs[k + 1..])
    ensures Text(encode, cs[..k + 1]) == Text(encode, cs[..k]) + encode(cs[k])
  {
    assert Text(encode, [cs[k]]) == encode(cs[k]) by {
      assert [cs[k]][1..] == [];
    }
    hide Text;
    AroundIndex(cs, k);
    TextConcat(encode, cs[..k + 1], cs[k + 1..]);
    TextConcat(encode, cs[..k], [cs[k]]);
  }

  // ------------------------------------------------------------------------------------------
  // Arithmetic of six-bit digits

  lemma Digit(q: int, r: int)
    requires 0 <= r < 64
    ensures (q * 64 + r) / 64 == q && (q * 64 + r) % 64 == r
  {}

  lemma PairOfUtf16(ch: UTF32)
    requires 0x1_0000 <= ch <= UNI_MAX_UTF16
    ensures IsHigh(Utf16(ch)[0]) && IsLow(Utf16(ch)[1]) && Pair(Utf16(ch)[0], Utf16(ch)[1]) == ch
  {}

  lemma Utf16OfPair(high: UTF16, low: UTF16)
    requires IsHigh(high) && IsLow(low)
    ensures Utf16(Pair(high, low)) == [high, low]
  {
    var h, l := high - UNI_SUR_HIGH_START, low - UNI_SUR_LOW_START;
    assert (h * 0x400 + l) / 0x400 == h && (h * 0x400 + l) % 0x400 == l;
  }

  /** The examples of section 5 of RFC 2781 and section 7 of RFC 3629. */
  lemma EncodingExamples()
    ensures Utf16(0x1_2345) == [0xD808, 0xDF45]
    ensures Utf8(0x41) == [0x41] && Utf8(0x391) == [0xCE, 0x91] && Utf8(0x2262) == [0xE2, 0x89, 0xA2]
    ensures Utf8(0x2_33B4) == [0xF0, 0xA3, 0x8E, 0xB4]
  {}

  /** Too large a value is written as U+FFFD, in both forms. */
  lemma TooLargeIsReplaced(ch: UTF32)
    requires 0x10_FFFF < ch
    ensures Utf16(ch) == [0xFFFD] && Utf8(ch) == [0xEF, 0xBF, 0xBD] == Utf8(0xFFFD)
  {}

  /** The UTF-8 of a scalar value is well-formed. */
  lemma Utf8IsTable37(ch: UTF32)
    requires IsScalar(ch)
    ensures Table37(Utf8(ch))
  {
    var q := ch / 64;
    assert ch == q * 64 + ch % 64;
    if 0x800 <= ch < 0x1_0000 {
      assert q == q / 64 * 64 + q % 64;
    } else if 0x1_0000 <= ch {
      var p := q / 64;
      assert q == p * 64 + q % 64 && p == p / 64 * 64 + p % 64;
    }
  }
}
