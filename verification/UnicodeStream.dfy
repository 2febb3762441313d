/**
  The checked readers of oi_unicodestream.h, a second decoder for UTF-8 and UTF-16, compared with
  the encoders of ConvertUTF.c.
 */
module UnicodeStream {
  import opened Encodings
  import opened Sequences

  const WORD: int := 0x1_0000_0000

  datatype Encoding = Unknown | EncodedUtf8 | EncodedUtf16BE | EncodedUtf16LE

  /** One read: the value obtained, the position after it, and whether the error flag was set. */
  datatype Got = Got(ch: UTF32, pos: nat, failed: bool)

  // ------------------------------------------------------------------------------------------
  // What one read does

  /**
    The number of bytes that the mask loop expects after a first byte, and the mask it ends
    with.  It compares with `<=`, so C0, E0, F0, F8 and FC count as the shorter form.
   */
  function Announced(lead: UTF8): (count: nat)
    requires 0xC0 <= lead
    ensures count <= 5
  {
    if lead <= 0xC0 then 0
    else if lead <= 0xE0 then 1
    else if lead <= 0xF0 then 2
    else if lead <= 0xF8 then 3
    else if lead <= 0xFC then 4
    else 5
  }

  function MaskFor(count: nat): (mask: UTF8)
    requires count <= 5
  {
    match count
    case 0 => 0x80
    case 1 => 0xC0
    case 2 => 0xE0
    case 3 => 0xF0
    case 4 => 0xF8
    case 5 => 0xFC
  }

  /** `ch = (ch << 6) | (byte & 0x3f)`, for every byte of `s`. */
  function Continue(ch: UTF32, s: seq<UTF8>): UTF32
    decreases |s|
  {
    if s == [] then ch else Continue(More(ch, s[0]), s[1..])
  }

  function More(ch: UTF32, b: UTF8): UTF32 { (ch * 64 % WORD + b % 64) % WORD }

  function GetUtf8(data: seq<UTF8>, pos: nat, kept: UTF32): (got: Got)
    requires pos <= |data|
    ensures pos <= got.pos <= |data|
  {
    if pos == |data| then Got(kept, pos, true)
    else if data[pos] < 0xC0 then Got(data[pos], pos + 1, false)
    else
      var count := Announced(data[pos]);
      if pos + 1 + count > |data| then Got(data[pos], pos + 1, true)
      else
        Got(Continue(data[pos] - MaskFor(count), data[pos + 1..pos + 1 + count]), pos + 1 + count, false)
  }

  /** Two bytes as a 16-bit unit. */
  function Unit(data: seq<UTF8>, pos: nat, big: bool): UTF16
    requires pos + 2 <= |data|
  {
    if big then Join(data[pos], data[pos + 1]) else Join(data[pos + 1], data[pos])
  }

  /** `(high << 8) | low` */
  function Join(high: UTF8, low: UTF8): UTF16 { (high as int) * 0x100 + low }

  /** `(ch & 0x3ff) << 10` */
  function TopTen(unit: UTF16): (x: UTF32)
    ensures x < 0x10_0000
  {
    unit % 0x400 * 0x400
  }

  function GetUtf16(data: seq<UTF8>, pos: nat, kept: UTF32, big: bool): (got: Got)
    requires pos <= |data|
    ensures pos <= got.pos <= |data|
  {
    if pos + 2 > |data| then Got(kept, pos, true)
    else
      var unit := Unit(data, pos, big);
      if !IsHigh(unit) then Got(unit, pos + 2, false)
      else if pos + 4 > |data| then Got(TopTen(unit), pos + 2, true)
      else Got(TopTen(unit) + Unit(data, pos + 2, big) % 0x400 + 0x1_0000, pos + 4, false)
  }

  function GetChar(encoding: Encoding, data: seq<UTF8>, pos: nat, kept: UTF32): (got: Got)
    requires pos <= |data|
    ensures pos <= got.pos <= |data|
  {
    match encoding
    case EncodedUtf8 => GetUtf8(data, pos, kept)
    case EncodedUtf16BE => GetUtf16(data, pos, kept, true)
    case EncodedUtf16LE => GetUtf16(data, pos, kept, false)
    case Unknown => Got(kept, pos, true)
  }

  /** The state after `n` reads in a row from index `start` on, and the values they obtained. */
  function Reads(encoding: Encoding, data: seq<UTF8>, start: nat, n: nat, kept: UTF32): (r: (seq<UTF32>, Got))
    requires start <= |data|
    ensures |r.0| == n && r.1.pos <= |data|
    decreases n
  {
    if n == 0 then ([], Got(kept, start, false))
    else
      var (before, at) := Reads(encoding, data, start, n - 1, kept);
      var got := GetChar(encoding, data, at.pos, at.ch);
      (before + [got.ch], Got(got.ch, got.pos, at.failed || got.failed))
  }

  // ------------------------------------------------------------------------------------------
  // Errors, and bytes that no encoder writes

  /** The number of bytes announced is the number of leading ones, less one, of the largest mask below. */
  lemma AnnouncedIs(lead: UTF8)
    requires 0xC0 <= lead
    ensures var count := Announced(lead);
            MaskFor(count) < lead && (count < 5 ==> lead <= MaskFor(count + 1))
    ensures MaskFor(0) == 0x80 && forall count :: 0 <= count < 5 ==> MaskFor(count + 1) == 0x80 + MaskFor(count) / 2
  {}

  lemma MoreIs(ch: UTF32, b: UTF8)
    ensures More(ch, b) == (ch * 64 + b % 64) % WORD
  {}

  /** Every byte adds six bits, in 32 bits. */
  lemma {:induction false} ContinueNext(ch: UTF32, s: seq<UTF8>, b: UTF8)
    ensures Continue(ch, s + [b]) == (Continue(ch, s) * 64 + b % 64) % WORD
    decreases |s|
  {
    MoreIs(ch, b);
    hide More;
    if s == [] {
      assert [b][1..] == [] && [] + [b] == [b];
    } else {
      assert (s + [b])[1..] == s[1..] + [b];
      ContinueNext(More(ch, s[0]), s[1..], b);
    }
  }

  /**
    A UTF-8 read fails exactly at the end of the data, where it changes nothing, and where fewer bytes
    follow than are announced, where it takes the first one as it is.
   */
  lemma Utf8ReadFails(data: seq<UTF8>, pos: nat, kept: UTF32)
    requires pos <= |data|
    ensures var got := GetUtf8(data, pos, kept);
            && (pos == |data| ==> got == Got(kept, pos, true))
            && (pos < |data| && data[pos] < 0xC0 ==> got == Got(data[pos], pos + 1, false))
            && (pos < |data| && 0xC0 <= data[pos] ==>
                  var rest := data[pos + 1..];
                  if |rest| < Announced(data[pos]) then got == Got(data[pos], pos + 1, true)
                  else
                    var count := Announced(data[pos]);
                    got == Got(Continue(data[pos] - MaskFor(count), rest[..count]), pos + 1 + count, false))
  {
    if pos < |data| && 0xC0 <= data[pos] && pos + 1 + Announced(data[pos]) <= |data| {
      assert data[pos + 1..][..Announced(data[pos])] == data[pos + 1..pos + 1 + Announced(data[pos])];
    }
  }

  /**
    A UTF-16 read fails exactly where fewer than two bytes are left, where it changes nothing, and at a
    high surrogate that fewer than two bytes follow, where it takes the upper half of a value.
   */
  lemma Utf16ReadFails(data: seq<UTF8>, pos: nat, kept: UTF32, big: bool)
    requires pos <= |data|
    ensures var got := GetUtf16(data, pos, kept, big);
            && (|data| < pos + 2 ==> got == Got(kept, pos, true))
            && (pos + 2 <= |data| ==>
                  var first: int, second: int := data[pos], data[pos + 1];
                  var unit := if big then first * 0x100 + second else second * 0x100 + first;
                  if !(0xD800 <= unit < 0xDC00) then got == Got(unit, pos + 2, false)
                  else if |data| < pos + 4 then got == Got((unit - 0xD800) * 0x400, pos + 2, true)
                  else !got.failed && got.pos == pos + 4)
  {}

  /** A high surrogate makes a pair with whatever follows it. */
  lemma Utf16ReadPair(data: seq<UTF8>, pos: nat, kept: UTF32, big: bool)
    requires pos + 4 <= |data| && 0xD800 <= Unit(data, pos, big) < 0xDC00
    ensures GetUtf16(data, pos, kept, big)
         == Got(0x1_0000 + (Unit(data, pos, big) - 0xD800) * 0x400 + Unit(data, pos + 2, big) % 0x400, pos + 4, false)
  {
    hide Unit;
  }

  /** Of an unknown encoding every read fails, and changes nothing. */
  lemma UnknownReadFails(data: seq<UTF8>, pos: nat, kept: UTF32)
    requires pos <= |data|
    ensures GetChar(Unknown, data, pos, kept) == Got(kept, pos, true)
  {}

  // ------------------------------------------------------------------------------------------
  // The stream

  class Stream {
    const encoding: Encoding
    const data: seq<UTF8>
    var pos: nat
    var error: bool

    ghost predicate Valid()
      reads this
    {
      pos <= |data| < 0x1_0000
    }

    constructor (data: seq<UTF8>, encoding: Encoding)
      requires 0 < |data| < 0x1_0000
      ensures Valid() && pos == 0 && !error && this.data == data && this.encoding == encoding
    {
      this.data, this.encoding := data, encoding;
      pos, error := 0, false;
    }

    /** What a read did to the stream. */
    twostate predicate Did(got: Got, ch: UTF32)
      reads this
    {
      ch == got.ch && pos == got.pos && error == (old(error) || got.failed)
    }

    method GetUtf8Checked(kept: UTF32) returns (ch: UTF32)
      requires Valid()
      modifies this
      ensures Valid() && Did(GetUtf8(data, old(pos), kept), ch)
    {
      ch := kept;
      if pos + 1 <= |data| {
        ch := data[pos];
        ghost var lead: UTF8 := data[pos];
        pos := pos + 1;
        if ch >= 0xC0 {
          var count, mask: UTF8 := 5, 0xFC;
          while ch <= mask
            invariant 0 <= count <= 5 && mask == MaskFor(count)
            invariant count == 5 || lead <= MaskFor(count + 1)
            decreases count
          {
            count, mask := count - 1, mask * 2 % 0x100;
          }
          if pos + count <= |data| {
            ch := ch - mask;
            ghost var start, first := pos, ch;
            while count > 0
              invariant 0 <= count && pos + count == start + Announced(lead)
              invariant start <= pos <= |data| && pos + count <= |data|
              invariant Continue(first, data[start..start + Announced(lead)])
                     == Continue(ch, data[pos..pos + count])
              invariant error == old(error)
            {
              ghost var s := data[pos..pos + count];
              assert s[1..] == data[pos + 1..pos + count];
              ch := More(ch, data[pos]);
              pos, count := pos + 1, count - 1;
            }
          } else {
            error := true;
          }
        }
      } else {
        error := true;
      }
    }

    method GetUtf16Checked(kept: UTF32, big: bool) returns (ch: UTF32)
      requires Valid()
      modifies this
      ensures Valid() && Did(GetUtf16(data, old(pos), kept, big), ch)
    {
      hide Join;
      ch := kept;
      if pos + 2 <= |data| {
        var unit := if big then Join(data[pos], data[pos + 1]) else Join(data[pos + 1], data[pos]);
        ch := unit;
        pos := pos + 2;
        if 0xD800 <= ch && ch <= 0xDBFF {
          ch := TopTen(unit);
          if pos + 2 <= |data| {
            var low := if big then Join(data[pos], data[pos + 1]) else Join(data[pos + 1], data[pos]);
            ch := ch + low % 0x400;
            ch := ch + 0x1_0000;
            pos := pos + 2;
          } else {
            error := true;
          }
        }
      } else {
        error := true;
      }
    }

    method GetCharChecked(kept: UTF32) returns (ch: UTF32)
      requires Valid()
      modifies this
      ensures Valid() && Did(GetChar(encoding, data, old(pos), kept), ch)
    {
      match encoding {
        case EncodedUtf8 => ch := GetUtf8Checked(kept);
        case EncodedUtf16BE => ch := GetUtf16Checked(kept, true);
        case EncodedUtf16LE => ch := GetUtf16Checked(kept, false);
        case Unknown =>
          ch := kept;
          error := true;
      }
    }

    /** Reads a character and moves back; only the error flag may change. */
    method PeekCharChecked(kept: UTF32) returns (ch: UTF32)
      requires Valid()
      modifies this
      ensures Valid() && pos == old(pos)
      ensures ch == GetChar(encoding, data, pos, kept).ch
      ensures error == (old(error) || GetChar(encoding, data, pos, kept).failed)
    {
      var saved := pos;
      ch := GetCharChecked(kept);
      pos := saved;
    }

    /** Skips `count` characters by reading them, also beyond an error. */
    method SkipCharChecked(count: nat, kept: UTF32)
      requires Valid()
      modifies this
      ensures Valid() && pos == Reads(encoding, data, old(pos), count, kept).1.pos
      ensures error == (old(error) || Reads(encoding, data, old(pos), count, kept).1.failed)
    {
      var ch, n := kept, 0;
      ghost var start := pos;
      while n < count
        invariant n <= count && Valid() && Reads(encoding, data, start, n, kept).1.pos == pos
        invariant ch == Reads(encoding, data, start, n, kept).1.ch
        invariant error == (old(error) || Reads(encoding, data, start, n, kept).1.failed)
      {
        ch := GetCharChecked(ch);
        n := n + 1;
      }
    }
  }

  // ------------------------------------------------------------------------------------------
  // Agreement with the UTF-8 encoder

  /** The scalar values whose UTF-8 starts with the byte E0 or F0. */
  predicate Misread(ch: UTF32) { 0x800 <= ch < 0x1000 || 0x1_0000 <= ch < 0x4_0000 }

  lemma MisreadIsLeadE0OrF0(ch: UTF32)
    requires IsScalar(ch)
    ensures Misread(ch) <==> Utf8(ch)[0] == 0xE0 || Utf8(ch)[0] == 0xF0
  {}

  lemma MoreDigit(ch: int, x: int)
    requires 0 <= ch < 0x10_0000 && 0 <= x < 64
    ensures More(ch, 0x80 + x) == ch * 64 + x
  {}

  /** Continuing with a byte that carries the digit `x`. */
  lemma ContinueDigit(ch: int, x: int, rest: seq<UTF8>)
    requires 0 <= ch < 0x10_0000 && 0 <= x < 64
    ensures Continue(ch, [0x80 + x] + rest) == Continue(ch * 64 + x, rest)
  {
    MoreDigit(ch, x);
    assert ([0x80 + x] + rest)[1..] == rest;
  }

  /** Continuing with the bytes of one, two or three digits. */
  lemma ContinueOne(ch: int, x: int)
    requires 0 <= ch < 0x10_0000 && 0 <= x < 64
    ensures Continue(ch, [0x80 + x]) == ch * 64 + x
  {
    ContinueDigit(ch, x, []);
    assert [0x80 + x] + [] == [0x80 + x];
  }

  lemma ContinueTwo(ch: int, x: int, y: int)
    requires 0 <= ch < 0x4000 && 0 <= x < 64 && 0 <= y < 64
    ensures Continue(ch, [0x80 + x, 0x80 + y]) == (ch * 64 + x) * 64 + y
  {
    hide Continue;
    ContinueDigit(ch, x, [0x80 + y]);
    ContinueOne(ch * 64 + x, y);
    assert [0x80 + x, 0x80 + y] == [0x80 + x] + [0x80 + y];
  }

  lemma ContinueThree(ch: int, x: int, y: int, z: int)
    requires 0 <= ch < 0x100 && 0 <= x < 64 && 0 <= y < 64 && 0 <= z < 64
    ensures Continue(ch, [0x80 + x, 0x80 + y, 0x80 + z]) == ((ch * 64 + x) * 64 + y) * 64 + z
  {
    hide Continue;
    ContinueDigit(ch, x, [0x80 + y, 0x80 + z]);
    ContinueTwo(ch * 64 + x, y, z);
    assert [0x80 + x, 0x80 + y, 0x80 + z] == [0x80 + x] + [0x80 + y, 0x80 + z];
  }

  /** Continuing from the payload of the first byte gives the value back. */
  lemma ContinueUtf8(ch: UTF32)
    requires IsScalar(ch) && 0x80 <= ch && !Misread(ch)
    ensures var s := Utf8(ch);
            && Announced(s[0]) == |s| - 1
            && Continue(s[0] - MaskFor(|s| - 1), s[1..]) == ch
  {
    hide Continue;
    var s := Utf8(ch);
    var q: int := ch / 64;
    var p: int := q / 64;
    if |s| == 2 {
      assert s[1..] == [0x80 + ch % 64];
      ContinueOne(q, ch % 64);
    } else if |s| == 3 {
      assert s[1..] == [0x80 + q % 64, 0x80 + ch % 64];
      ContinueTwo(p, q % 64, ch % 64);
    } else {
      assert s[1..] == [0x80 + p % 64, 0x80 + q % 64, 0x80 + ch % 64];
      ContinueThree(p / 64, p % 64, q % 64, ch % 64);
    }
  }

  /**
    Reading the UTF-8 of a scalar value from any place of a stream returns the value and moves to
    its end, if and only if its first byte is neither E0 nor F0; then one byte too few is read.
   */
  lemma Utf8ReadAgrees(before: seq<UTF8>, ch: UTF32, rest: seq<UTF8>, kept: UTF32)
    requires IsScalar(ch)
    ensures var got := GetUtf8(before + Utf8(ch) + rest, |before|, kept);
            && (got == Got(ch, |before| + |Utf8(ch)|, false) <==> !Misread(ch))
            && (Misread(ch) ==> got.pos == |before| + |Utf8(ch)| - 1 && !got.failed)
  {
    var data, p, s := before + Utf8(ch) + rest, |before|, Utf8(ch);
    assert data[p] == s[0];
    if |s| > 1 && !Misread(ch) {
      ContinueUtf8(ch);
      assert data[p + 1..p + |s|] == s[1..];
    }
  }

  /** U+0800, E0 A0 80: the value is taken from two bytes, and the last one is read as a character. */
  lemma LeadE0Example()
    ensures Utf8(0x800) == [0xE0, 0xA0, 0x80]
    ensures GetUtf8([0xE0, 0xA0, 0x80], 0, 0) == Got(0x820, 2, false)
    ensures GetUtf8([0xE0, 0xA0, 0x80], 2, 0) == Got(0x80, 3, false)
  {
    assert [0xE0, 0xA0, 0x80][1..2] == [0xA0];
    ContinueOne(0x20, 0x20);
  }

  /** U+10000, F0 90 80 80: the value is taken from three bytes. */
  lemma LeadF0Example()
    ensures Utf8(0x1_0000) == [0xF0, 0x90, 0x80, 0x80]
    ensures GetUtf8([0xF0, 0x90, 0x80, 0x80], 0, 0) == Got(0x1_0400, 3, false)
    ensures GetUtf8([0xF0, 0x90, 0x80, 0x80], 3, 0) == Got(0x80, 4, false)
  {
    assert [0xF0, 0x90, 0x80, 0x80][1..3] == [0x90, 0x80];
    ContinueTwo(0x10, 0x10, 0);
  }

  // ------------------------------------------------------------------------------------------
  // Whole texts

  /** The last of the values `cs`, or what the variable held before the first read. */
  function Last(cs: seq<UTF32>, kept: UTF32): UTF32 {
    if cs == [] then kept else cs[|cs| - 1]
  }

  /** From any place of a stream, reading the bytes that encode `ch` returns `ch`. */
  ghost predicate ReadsBack(encoding: Encoding, encode: UTF32 -> seq<UTF8>, ch: UTF32) {
    forall before, rest, kept {:trigger GetChar(encoding, before + encode(ch) + rest, |before|, kept)} ::
      GetChar(encoding, before + encode(ch) + rest, |before|, kept)
      == Got(ch, |before| + |encode(ch)|, false)
  }

  /** After `k` reads from the text of `cs` the reader has returned `cs[..k]` and is at its end. */
  ghost predicate InStep(
    encoding: Encoding, encode: UTF32 -> seq<UTF8>, cs: seq<UTF32>, k: nat, kept: UTF32)
    requires k <= |cs|
  {
    Reads(encoding, Text(encode, cs), 0, k, kept)
    == (cs[..k], Got(Last(cs[..k], kept), |Text(encode, cs[..k])|, false))
  }

  lemma {:induction false} StaysInStep(
    encoding: Encoding, encode: UTF32 -> seq<UTF8>, cs: seq<UTF32>, k: nat, kept: UTF32)
    requires k <= |cs|
    requires forall i :: 0 <= i < |cs| ==> ReadsBack(encoding, encode, cs[i])
    ensures InStep(encoding, encode, cs, k, kept)
  {
    hide Text, GetChar, ReadsBack;
    if k == 0 {
      NothingRead(encoding, encode, cs, kept);
    } else {
      var i := k - 1;
      StaysInStep(encoding, encode, cs, i, kept);
      TextSplits(encode, cs, i);
      AroundIndex(cs, i);
      var before, rest := Text(encode, cs[..i]), Text(encode, cs[i + 1..]);
      ReadsNext(encoding, encode, cs[i], before, rest, Last(cs[..i], kept));
    }
  }

  lemma NothingRead(encoding: Encoding, encode: UTF32 -> seq<UTF8>, cs: seq<UTF32>, kept: UTF32)
    ensures InStep(encoding, encode, cs, 0, kept)
  {}

  lemma ReadsNext(
    encoding: Encoding, encode: UTF32 -> seq<UTF8>, ch: UTF32, before: seq<UTF8>, rest: seq<UTF8>, kept: UTF32)
    requires ReadsBack(encoding, encode, ch)
    ensures GetChar(encoding, before + encode(ch) + rest, |before|, kept) == Got(ch, |before| + |encode(ch)|, false)
  {}

  lemma Utf8ReadsBack(ch: UTF32)
    requires IsScalar(ch) && !Misread(ch)
    ensures ReadsBack(EncodedUtf8, Utf8, ch)
  {
    forall before: seq<UTF8>, rest: seq<UTF8>, kept: UTF32
      ensures GetUtf8(before + Utf8(ch) + rest, |before|, kept) == Got(ch, |before| + |Utf8(ch)|, false)
    {
      Utf8ReadAgrees(before, ch, rest, kept);
    }
  }

  /**
    The reader stays in step with the encoder throughout a text if and only if no value in it
    starts with E0 or F0.
   */
  lemma Utf8TextAgrees(cs: seq<UTF32>, kept: UTF32)
    requires Scalars(cs)
    ensures (forall k :: 0 <= k <= |cs| ==> InStep(EncodedUtf8, Utf8, cs, k, kept))
       <==> (forall i :: 0 <= i < |cs| ==> !Misread(cs[i]))
  {
    if i :| 0 <= i < |cs| && Misread(cs[i]) {
      if InStep(EncodedUtf8, Utf8, cs, i, kept) {
        FallsOutOfStep(cs, i, kept);
      }
    } else {
      forall i | 0 <= i < |cs|
        ensures ReadsBack(EncodedUtf8, Utf8, cs[i])
      {
        Utf8ReadsBack(cs[i]);
      }
      forall k | 0 <= k <= |cs|
        ensures InStep(EncodedUtf8, Utf8, cs, k, kept)
      {
        StaysInStep(EncodedUtf8, Utf8, cs, k, kept);
      }
    }
  }

  lemma FallsOutOfStep(cs: seq<UTF32>, i: nat, kept: UTF32)
    requires Scalars(cs) && i < |cs| && Misread(cs[i])
    requires InStep(EncodedUtf8, Utf8, cs, i, kept)
    ensures !InStep(EncodedUtf8, Utf8, cs, i + 1, kept)
  {
    TextSplits(Utf8, cs, i);
    var before, rest := Text(Utf8, cs[..i]), Text(Utf8, cs[i + 1..]);
    Utf8ReadAgrees(before, cs[i], rest, Last(cs[..i], kept));
    assert Reads(EncodedUtf8, Text(Utf8, cs), 0, i + 1, kept).1.pos == |before| + |Utf8(cs[i])| - 1;
  }

  /** The bytes of one unit, and of a text, in either byte order. */
  function UnitBytes(unit: UTF16, big: bool): (s: seq<UTF8>)
    ensures |s| == 2
  {
    if big then [unit / 0x100, unit % 0x100] else [unit % 0x100, unit / 0x100]
  }

  function Bytes(units: seq<UTF16>, big: bool): (s: seq<UTF8>)
    ensures |s| == 2 * |units|
  {
    if units == [] then [] else UnitBytes(units[0], big) + Bytes(units[1..], big)
  }

  function Utf16Encoding(big: bool): Encoding { if big then EncodedUtf16BE else EncodedUtf16LE }

  function Utf16Bytes(big: bool): UTF32 -> seq<UTF8> {
    (ch: UTF32) => Bytes(Utf16(ch), big)
  }

  lemma UnitOfBytes(data: seq<UTF8>, pos: nat, unit: UTF16, big: bool)
    requires pos + 2 <= |data| && data[pos..pos + 2] == UnitBytes(unit, big)
    ensures Unit(data, pos, big) == unit
  {
    assert data[pos] == UnitBytes(unit, big)[0] && data[pos + 1] == UnitBytes(unit, big)[1];
  }

  /** One or two units: their bytes as they lie in a stream. */
  lemma BytesInside(before: seq<UTF8>, s: seq<UTF16>, rest: seq<UTF8>, big: bool)
    requires 1 <= |s| <= 2
    ensures var data, p := before + Bytes(s, big) + rest, |before|;
            && p + 2 * |s| <= |data| && data[p..p + 2] == UnitBytes(s[0], big)
            && (|s| == 2 ==> data[p + 2..p + 4] == UnitBytes(s[1], big))
  {
    hide UnitBytes;
    assert s[1..] != [] ==> s[1..][1..] == [];
    InTheMiddle(before, Bytes(s, big), rest);
  }

  /** Reading the UTF-16 of a scalar value from any place of a stream, in either byte order. */
  lemma Utf16ReadAgrees(before: seq<UTF8>, ch: UTF32, rest: seq<UTF8>, kept: UTF32, big: bool)
    requires IsScalar(ch)
    ensures GetUtf16(before + Bytes(Utf16(ch), big) + rest, |before|, kept, big)
         == Got(ch, |before| + |Bytes(Utf16(ch), big)|, false)
  {
    var s, p := Utf16(ch), |before|;
    var data := before + Bytes(s, big) + rest;
    hide Bytes, UnitBytes, Unit;
    BytesInside(before, s, rest, big);
    UnitOfBytes(data, p, s[0], big);
    if |s| == 2 {
      PairOfUtf16(ch);
      UnitOfBytes(data, p + 2, s[1], big);
    }
  }

  lemma {:induction false} BytesOfConcat(a: seq<UTF16>, b: seq<UTF16>, big: bool)
    ensures Bytes(a + b, big) == Bytes(a, big) + Bytes(b, big)
    decreases |a|
  {
    if a == [] {
      assert a + b == b;
    } else {
      assert (a + b)[1..] == a[1..] + b;
      BytesOfConcat(a[1..], b, big);
    }
  }

  /** The bytes of a UTF-16 text are those of its characters one after the other. */
  lemma {:induction false} BytesOfText(cs: seq<UTF32>, big: bool)
    ensures Bytes(Utf16Text(cs), big) == Text(Utf16Bytes(big), cs)
    decreases |cs|
  {
    if cs != [] {
      BytesOfText(cs[1..], big);
      BytesOfConcat(Utf16(cs[0]), Utf16Text(cs[1..]), big);
    }
  }

  lemma Utf16ReadsBack(ch: UTF32, big: bool)
    requires IsScalar(ch)
    ensures ReadsBack(Utf16Encoding(big), Utf16Bytes(big), ch)
  {
    forall before: seq<UTF8>, rest: seq<UTF8>, kept: UTF32
      ensures GetUtf16(before + Bytes(Utf16(ch), big) + rest, |before|, kept, big)
           == Got(ch, |before| + |Bytes(Utf16(ch), big)|, false)
    {
      Utf16ReadAgrees(before, ch, rest, kept, big);
    }
  }

  /** The reader returns every UTF-16 text, in either byte order, without an error. */
  lemma Utf16TextAgrees(cs: seq<UTF32>, kept: UTF32, big: bool)
    requires Scalars(cs)
    ensures var data := Bytes(Utf16Text(cs), big);
            Reads(Utf16Encoding(big), data, 0, |cs|, kept) == (cs, Got(Last(cs, kept), |data|, false))
  {
    BytesOfText(cs, big);
    forall i | 0 <= i < |cs|
      ensures ReadsBack(Utf16Encoding(big), Utf16Bytes(big), cs[i])
    {
      Utf16ReadsBack(cs[i], big);
    }
    StaysInStep(Utf16Encoding(big), Utf16Bytes(big), cs, |cs|, kept);
    assert cs[..|cs|] == cs;
  }
}
