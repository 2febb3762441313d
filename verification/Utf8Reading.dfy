/**
  How ConvertUTF.c recognises and decodes one UTF-8 sequence: the length table, the legality
  test, the accumulated value and the offset subtracted from it.
 */
module Utf8Reading {
  import opened Encodings

  /** `trailingBytesForUTF8`: the number of bytes that are to follow a first byte. */
  function TrailingBytes(lead: UTF8): (n: nat)
    ensures n <= 5
  {
    if lead < 0xC0 then 0
    else if lead < 0xE0 then 1
    else if lead < 0xF0 then 2
    else if lead < 0xF8 then 3
    else if lead < 0xFC then 4
    else 5
  }

  /** One trailing byte for every leading one of the first byte but the first of them. */
  lemma TrailingBytesAre(lead: UTF8)
    ensures TrailingBytes(lead) >= 1 <==> lead >= 0x100 - 0x40
    ensures TrailingBytes(lead) >= 2 <==> lead >= 0x100 - 0x20
    ensures TrailingBytes(lead) >= 3 <==> lead >= 0x100 - 0x10
    ensures TrailingBytes(lead) >= 4 <==> lead >= 0x100 - 0x08
    ensures TrailingBytes(lead) == 5 <==> lead >= 0x100 - 0x04
  {}

  /** `offsetsFromUTF8` */
  function Offset(extra: nat): UTF32
    requires extra <= 5
  {
    match extra
    case 0 => 0x0000_0000
    case 1 => 0x0000_3080
    case 2 => 0x000E_2080
    case 3 => 0x03C8_2080
    case 4 => 0xFA08_2080
    case 5 => 0x8208_2080
  }

  /** The loop of Note A: shift left by six bits and add the next byte, in 32 bits. */
  function Accumulate(s: seq<UTF8>): UTF32 {
    if s == [] then 0 else (Accumulate(s[..|s|-1]) * 64 + s[|s|-1]) % 0x1_0000_0000
  }

  /** The value of the sequence `s`: what was accumulated less the offset, in 32 bits. */
  function Decoded(s: seq<UTF8>): UTF32
    requires 1 <= |s| <= 6
  {
    (Accumulate(s) - Offset(|s| - 1)) % 0x1_0000_0000
  }

  /** The payload bits of a first byte that `extra` bytes are to follow. */
  function LeadPayload(lead: UTF8, extra: nat): nat
    requires extra <= 5
  {
    match extra
    case 0 => lead % 128
    case 1 => lead % 32
    case 2 => lead % 16
    case 3 => lead % 8
    case 4 => lead % 4
    case 5 => lead % 2
  }

  /** Section 3 of RFC 3629: six payload bits of every trailing byte after those of the first. */
  function Payload(s: seq<UTF8>): nat
    requires 1 <= |s| <= 6
  {
    if |s| == 1 then LeadPayload(s[0], 0)
    else PayloadFrom(LeadPayload(s[0], |s| - 1), s[1..])
  }

  function PayloadFrom(high: nat, s: seq<UTF8>): nat
    decreases |s|
  {
    if s == [] then high else PayloadFrom(high * 64 + s[0] % 64, s[1..])
  }

  /** The sequences that `isLegalUTF8` accepts although they are not in Table 3-7. */
  predicate Overlooked(s: seq<UTF8>) {
    || (|s| == 3 && s[0] == 0xED && s[1] < 0x80 && Trailing(s[2]))
    || (|s| == 4 && s[0] == 0xF4 && s[1] < 0x80 && Trailing(s[2]) && Trailing(s[3]))
  }

  predicate Legal(s: seq<UTF8>) { Table37(s) || Overlooked(s) }

  lemma AccumulatePair(a: UTF8, b: UTF8)
    ensures Accumulate([a]) == a
    ensures Accumulate([a, b]) == a * 64 + b
  {
    assert [a][..0] == [] && [a, b][..1] == [a];
  }

  lemma AccumulateQuad(a: UTF8, b: UTF8, c: UTF8, d: UTF8)
    ensures Accumulate([a, b, c]) == (a * 64 + b) * 64 + c
    ensures Accumulate([a, b, c, d]) == ((a * 64 + b) * 64 + c) * 64 + d
  {
    AccumulatePair(a, b);
    assert [a, b, c][..2] == [a, b] && [a, b, c, d][..3] == [a, b, c];
  }

  lemma AccumulateFive(a: UTF8, b: UTF8, c: UTF8, d: UTF8, e: UTF8)
    ensures Accumulate([a, b, c, d, e])
         == ((((a * 64 + b) * 64 + c) * 64 + d) * 64 + e) % 0x1_0000_0000
  {
    AccumulateQuad(a, b, c, d);
    assert [a, b, c, d, e][..4] == [a, b, c, d];
  }

  lemma AccumulateSix(a: UTF8, b: UTF8, c: UTF8, d: UTF8, e: UTF8, f: UTF8)
    ensures Accumulate([a, b, c, d, e, f])
         == (((((a * 64 + b) * 64 + c) * 64 + d) * 64 + e) * 64 + f) % 0x1_0000_0000
  {
    AccumulateFive(a, b, c, d, e);
    assert [a, b, c, d, e, f][..5] == [a, b, c, d, e];
    var five := (((a * 64 + b) * 64 + c) * 64 + d) * 64 + e;
    WrapThenShift(five, f);
  }

  lemma ShiftThenAdd(x: int, y: int)
    ensures (x % 0x1_0000_0000 + y) % 0x1_0000_0000 == (x + y) % 0x1_0000_0000
  {}

  lemma WrapThenShift(x: int, y: int)
    ensures (x % 0x1_0000_0000 * 64 + y) % 0x1_0000_0000 == (x * 64 + y) % 0x1_0000_0000
  {}

  lemma DecodedOne(x: int)
    requires 0 <= x < 0x80
    ensures Decoded([x]) == x
  {
    AccumulatePair(x, 0);
  }

  lemma DecodedTwo(x: int, y: int)
    requires 0 <= x < 32 && 0 <= y < 64
    ensures Decoded([0xC0 + x, 0x80 + y]) == x * 64 + y
  {
    AccumulatePair(0xC0 + x, 0x80 + y);
  }

  /** The second byte may be smaller than a trailing byte. */
  lemma DecodedThree(x: int, y: int, z: int)
    requires 0 <= x < 16 && -0x80 <= y < 64 && 0 <= z < 64 && 0 <= x * 64 + y
    ensures Decoded([0xE0 + x, 0x80 + y, 0x80 + z]) == (x * 64 + y) * 64 + z
  {
    AccumulateQuad(0xE0 + x, 0x80 + y, 0x80 + z, 0);
  }

  lemma DecodedFour(w: int, x: int, y: int, z: int)
    requires 0 <= w < 8 && -0x80 <= x < 64 && 0 <= y < 64 && 0 <= z < 64 && 0 <= w * 64 + x
    ensures Decoded([0xF0 + w, 0x80 + x, 0x80 + y, 0x80 + z]) == ((w * 64 + x) * 64 + y) * 64 + z
  {
    AccumulateQuad(0xF0 + w, 0x80 + x, 0x80 + y, 0x80 + z);
  }

  /** Subtracting the offset undoes adding it, however often the sum wrapped around. */
  lemma WrapOffset(value: int, offset: int, turns: int)
    requires 0 <= value < 0x1_0000_0000
    ensures ((value + offset + turns * 0x1_0000_0000) % 0x1_0000_0000 - offset) % 0x1_0000_0000
         == value
  {}

  lemma DecodedFive(v: int, w: int, x: int, y: int, z: int)
    requires 0 <= v < 4 && 0 <= w < 64 && 0 <= x < 64 && 0 <= y < 64 && 0 <= z < 64
    ensures Decoded([0xF8 + v, 0x80 + w, 0x80 + x, 0x80 + y, 0x80 + z])
         == (((v * 64 + w) * 64 + x) * 64 + y) * 64 + z
  {
    AccumulateFive(0xF8 + v, 0x80 + w, 0x80 + x, 0x80 + y, 0x80 + z);
    WrapOffset((((v * 64 + w) * 64 + x) * 64 + y) * 64 + z, 0xFA08_2080, 0);
  }

  lemma DecodedSix(u: int, v: int, w: int, x: int, y: int, z: int)
    requires 0 <= u < 2 && 0 <= v < 64 && 0 <= w < 64 && 0 <= x < 64 && 0 <= y < 64 && 0 <= z < 64
    ensures Decoded([0xFC + u, 0x80 + v, 0x80 + w, 0x80 + x, 0x80 + y, 0x80 + z])
         == ((((u * 64 + v) * 64 + w) * 64 + x) * 64 + y) * 64 + z
  {
    AccumulateSix(0xFC + u, 0x80 + v, 0x80 + w, 0x80 + x, 0x80 + y, 0x80 + z);
    WrapOffset(((((u * 64 + v) * 64 + w) * 64 + x) * 64 + y) * 64 + z, 0x8208_2080, 63);
  }

  lemma PayloadFromPair(high: nat, s: seq<UTF8>)
    ensures |s| == 0 ==> PayloadFrom(high, s) == high
    ensures |s| == 1 ==> PayloadFrom(high, s) == high * 64 + s[0] % 64
    ensures |s| >= 2 ==>
              PayloadFrom(high, s) == PayloadFrom((high * 64 + s[0] % 64) * 64 + s[1] % 64, s[2..])
  {
    if |s| >= 2 {
      assert s[1..][1..] == s[2..];
      assert PayloadFrom(high, s) == PayloadFrom(high * 64 + s[0] % 64, s[1..]);
    }
  }

  /** A first byte followed by as many trailing bytes as it announces. */
  predicate Proper(s: seq<UTF8>) {
    && s != [] && |s| == TrailingBytes(s[0]) + 1
    && (|s| == 1 ==> s[0] < 0x80) && s[0] < 0xFE
    && forall i :: 1 <= i < |s| ==> Trailing(s[i])
  }

  /**
    A proper sequence of any length decodes to its payload bits: the offset subtracted is what
    the marks of the bytes add up to.
   */
  lemma DecodedIsPayload(s: seq<UTF8>)
    requires Proper(s)
    ensures Decoded(s) == Payload(s)
  {
    var lead: int := LeadPayload(s[0], |s| - 1);
    match |s|
    case 1 =>
      assert s == [s[0]];
      DecodedOne(lead);
    case 2 =>
      assert s == [s[0], s[1]];
      DecodedTwo(lead, Six(s[1]));
      PayloadFromPair(lead, s[1..]);
    case 3 =>
      DecodedIsPayloadThree(s);
    case 4 =>
      DecodedIsPayloadFour(s);
    case 5 =>
      DecodedIsPayloadFive(s);
    case 6 =>
      DecodedIsPayloadSix(s);
  }

  /** The payload of a trailing byte. */
  function Six(b: UTF8): (x: int)
    requires Trailing(b)
    ensures 0 <= x < 64 && x == b % 64
  {
    (b as int) - 0x80
  }

  lemma DecodedIsPayloadThree(s: seq<UTF8>)
    requires Proper(s) && |s| == 3
    ensures Decoded(s) == Payload(s)
  {
    var lead: int := LeadPayload(s[0], 2);
    assert s == [s[0], s[1], s[2]];
    DecodedThree(lead, Six(s[1]), Six(s[2]));
    PayloadFromPair(lead, s[1..]);
  }

  lemma DecodedIsPayloadFour(s: seq<UTF8>)
    requires Proper(s) && |s| == 4
    ensures Decoded(s) == Payload(s)
  {
    var lead: int := LeadPayload(s[0], 3);
    assert s == [s[0], s[1], s[2], s[3]];
    DecodedFour(lead, Six(s[1]), Six(s[2]), Six(s[3]));
    PayloadFromPair(lead, s[1..]);
    PayloadFromPair((lead * 64 + Six(s[1])) * 64 + Six(s[2]), s[1..][2..]);
  }

  lemma DecodedIsPayloadFive(s: seq<UTF8>)
    requires Proper(s) && |s| == 5
    ensures Decoded(s) == Payload(s)
  {
    var lead: int := LeadPayload(s[0], 4);
    assert s == [s[0], s[1], s[2], s[3], s[4]];
    DecodedFive(lead, Six(s[1]), Six(s[2]), Six(s[3]), Six(s[4]));
    PayloadFromPair(lead, s[1..]);
    PayloadFromPair((lead * 64 + Six(s[1])) * 64 + Six(s[2]), s[1..][2..]);
    assert s[1..][2..][2..] == [];
  }

  lemma PayloadFromFive(high: nat, s: seq<UTF8>)
    requires |s| == 5
    ensures PayloadFrom(high, s)
         == ((((high * 64 + s[0] % 64) * 64 + s[1] % 64) * 64 + s[2] % 64) * 64 + s[3] % 64) * 64 + s[4] % 64
  {
    hide PayloadFrom;
    var three := (high * 64 + s[0] % 64) * 64 + s[1] % 64;
    PayloadFromPair(high, s);
    PayloadFromPair(three, s[2..]);
    PayloadFromPair((three * 64 + s[2] % 64) * 64 + s[3] % 64, s[2..][2..]);
  }

  lemma DecodedIsPayloadSix(s: seq<UTF8>)
    requires Proper(s) && |s| == 6
    ensures Decoded(s) == Payload(s)
  {
    var lead: int := LeadPayload(s[0], 5);
    assert s == [s[0], s[1], s[2], s[3], s[4], s[5]] && s[0] == 0xFC + lead && 0 <= lead < 2;
    hide Decoded, PayloadFrom, TrailingBytes;
    DecodedSix(lead, Six(s[1]), Six(s[2]), Six(s[3]), Six(s[4]), Six(s[5]));
    PayloadFromFive(lead, s[1..]);
  }

  /** The decoder recovers every value up to 10FFFF from its UTF-8, also a surrogate. */
  lemma DecodedOfUtf8(ch: UTF32)
    requires ch <= UNI_MAX_LEGAL_UTF32
    ensures Decoded(Utf8(ch)) == ch
  {
    var q := ch / 64;
    var p := q / 64;
    match Utf8Length(ch)
    case 1 => DecodedOne(ch);
    case 2 => DecodedTwo(q, ch % 64);
    case 3 => DecodedThree(p, q % 64, ch % 64);
    case 4 => DecodedFour(p / 64, p % 64, q % 64, ch % 64);
  }

  /** On Table 3-7 the decoder yields the scalar value whose UTF-8 the sequence is. */
  lemma Utf8OfDecoded(s: seq<UTF8>)
    requires Table37(s)
    ensures IsScalar(Decoded(s)) && Utf8(Decoded(s)) == s
  {
    if |s| == 1 {
      assert s == [s[0]];
      DecodedOne(s[0]);
    } else if |s| == 2 {
      assert s == [s[0], s[1]];
      DecodedTwo(s[0] - 0xC0, (s[1] as int) - 0x80);
      Digit(s[0] - 0xC0, (s[1] as int) - 0x80);
    } else if |s| == 3 {
      Utf8OfDecodedThree(s);
    } else {
      Utf8OfDecodedFour(s);
    }
  }

  lemma Utf8OfDecodedThree(s: seq<UTF8>)
    requires Table37(s) && |s| == 3
    ensures IsScalar(Decoded(s)) && Utf8(Decoded(s)) == s
  {
    var x: int, y: int, z: int := (s[0] as int) - 0xE0, (s[1] as int) - 0x80, (s[2] as int) - 0x80;
    assert s == [0xE0 + x, 0x80 + y, 0x80 + z];
    DecodedThree(x, y, z);
    Digit(x * 64 + y, z);
    Digit(x, y);
  }

  lemma Utf8OfDecodedFour(s: seq<UTF8>)
    requires Table37(s) && |s| == 4
    ensures IsScalar(Decoded(s)) && Utf8(Decoded(s)) == s
  {
    var w: int, x: int, y: int, z: int :=
      (s[0] as int) - 0xF0, (s[1] as int) - 0x80, (s[2] as int) - 0x80, (s[3] as int) - 0x80;
    assert s == [0xF0 + w, 0x80 + x, 0x80 + y, 0x80 + z];
    DecodedFour(w, x, y, z);
    Digit((w * 64 + x) * 64 + y, z);
    Digit(w * 64 + x, y);
    Digit(w, x);
  }

  /** What the overlooked sequences decode to: scalar values whose UTF-8 is another sequence. */
  lemma DecodedOfOverlooked(s: seq<UTF8>)
    requires Overlooked(s)
    ensures IsScalar(Decoded(s)) && Utf8(Decoded(s)) != s
    ensures |s| == 3 ==> 0xB000 <= Decoded(s) < 0xD000
    ensures |s| == 4 ==> 0x8_0000 <= Decoded(s) < 0x10_0000
  {
    if |s| == 3 {
      var y: int, z: int := (s[1] as int) - 0x80, (s[2] as int) - 0x80;
      assert s == [0xE0 + 0x0D, 0x80 + y, 0x80 + z];
      DecodedThree(0x0D, y, z);
    } else {
      var x: int, y: int, z: int := (s[1] as int) - 0x80, (s[2] as int) - 0x80, (s[3] as int) - 0x80;
      assert s == [0xF0 + 0x04, 0x80 + x, 0x80 + y, 0x80 + z];
      DecodedFour(0x04, x, y, z);
    }
    Utf8IsTable37(Decoded(s));
  }

  /** No accepted sequence is a surrogate or too large; exactly those of Table 3-7 are canonical. */
  lemma LegalDecodesToScalar(s: seq<UTF8>)
    requires Legal(s)
    ensures IsScalar(Decoded(s))
    ensures Utf8(Decoded(s)) == s <==> Table37(s)
  {
    if Table37(s) {
      Utf8OfDecoded(s);
    } else {
      DecodedOfOverlooked(s);
    }
  }

  /** Table 3-7 lists exactly the encodings of scalar values. */
  lemma Table37IsUtf8(s: seq<UTF8>)
    ensures Table37(s) <==> exists ch: UTF32 :: IsScalar(ch) && Utf8(ch) == s
  {
    if Table37(s) {
      Utf8OfDecoded(s);
    }
    forall ch: UTF32 | IsScalar(ch) && Utf8(ch) == s
      ensures Table37(s)
    {
      Utf8IsTable37(ch);
    }
  }

  /**
    What the legality test accepts apart from Table 3-7: after ED and F4 every second byte below 80,
    and nothing else.
   */
  lemma AcceptedOtherwise(s: seq<UTF8>)
    ensures Legal(s) && !Table37(s) ==> 3 <= |s| <= 4 && s[0] == (if |s| == 3 then 0xED else 0xF4) && s[1] < 0x80
    ensures 3 <= |s| <= 4 && s[0] == (if |s| == 3 then 0xED else 0xF4) && s[1] < 0x80 ==>
              (Legal(s) <==> forall i :: 2 <= i < |s| ==> 0x80 <= s[i] < 0xC0)
  {}

  /** The legality test is wrong about this sequence: its second byte is no trailing byte. */
  lemma OverlookedExample()
    ensures Legal([0xED, 0x41, 0x80]) && !WellFormedUtf8([0xED, 0x41, 0x80])
  {
    forall cs: seq<UTF32> | Scalars(cs)
      ensures Utf8Text(cs) != [0xED, 0x41, 0x80]
    {
      if cs != [] {
        var first := Utf8(cs[0]);
        Utf8IsTable37(cs[0]);
        assert Utf8Text(cs)[0] == first[0];
        if |first| > 1 {
          assert Utf8Text(cs)[1] == first[1];
        }
      }
    }
  }
}
