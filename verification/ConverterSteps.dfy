/**
  What each of the six converters does at one place of its source, and that these steps meet the
  conditions of the theorems in `Conversion`.
 */
module ConverterSteps {
  import opened Conversion
  import opened Encodings
  import opened Utf8Reading

  /** One character read from a source: the units it takes and its value, or why there is none. */
  datatype Reading = Character(used: nat, ch: UTF32) | Fault(code: ConversionResult)

  /**
    Reading UTF-16.  A surrogate that is not half of a pair is a fault in strict mode and a
    character in lenient mode, but a high surrogate at the very end asks for more source in both.
   */
  function ReadUtf16(s: seq<UTF16>, flags: ConversionFlags): Reading
    requires s != []
  {
    if IsHigh(s[0]) then
      if |s| == 1 then Fault(SourceExhausted)
      else if IsLow(s[1]) then Character(2, Pair(s[0], s[1]))
      else if flags.StrictConversion? then Fault(SourceIllegal)
      else Character(1, s[0])
    else if IsLow(s[0]) && flags.StrictConversion? then Fault(SourceIllegal)
    else Character(1, s[0])
  }

  /** Reading UTF-8: the same in both modes. */
  function ReadUtf8(s: seq<UTF8>): Reading
    requires s != []
  {
    var extra := TrailingBytes(s[0]);
    if extra >= |s| then Fault(SourceExhausted)
    else if !Legal(s[..extra + 1]) then Fault(SourceIllegal)
    else Character(extra + 1, Decoded(s[..extra + 1]))
  }

  function UTF32toUTF16(s: seq<UTF32>, flags: ConversionFlags): Step<UTF16>
    requires s != []
  {
    if IsSurrogate(s[0]) then
      if flags.StrictConversion? then Stop(1, SourceIllegal)
      else Emit(1, 1, [UNI_REPLACEMENT_CHAR], false)
    else if s[0] > UNI_MAX_LEGAL_UTF32 then
      if flags.StrictConversion? then Emit(1, 1, [], true)
      else Emit(1, 1, [UNI_REPLACEMENT_CHAR], false)
    else Emit(|Utf16(s[0])|, 1, Utf16(s[0]), false)
  }

  function UTF32toUTF8(s: seq<UTF32>, flags: ConversionFlags): Step<UTF8>
    requires s != []
  {
    if IsSurrogate(s[0]) && flags.StrictConversion? then Stop(0, SourceIllegal)
    else Emit(|Utf8(s[0])|, 1, Utf8(s[0]), s[0] > UNI_MAX_LEGAL_UTF32)
  }

  function UTF16toUTF32(s: seq<UTF16>, flags: ConversionFlags): Step<UTF32>
    requires s != []
  {
    match ReadUtf16(s, flags)
    case Fault(code) => Stop(0, code)
    case Character(used, ch) => Emit(1, used, [ch], false)
  }

  function UTF16toUTF8(s: seq<UTF16>, flags: ConversionFlags): Step<UTF8>
    requires s != []
  {
    match ReadUtf16(s, flags)
    case Fault(code) => Stop(0, code)
    case Character(used, ch) => Emit(|Utf8(ch)|, used, Utf8(ch), false)
  }

  function UTF8toUTF32(s: seq<UTF8>, flags: ConversionFlags): Step<UTF32>
    requires s != []
  {
    match ReadUtf8(s)
    case Fault(code) => Stop(0, code)
    case Character(used, ch) =>
      if IsSurrogate(ch) then
        if flags.StrictConversion? then Stop(1, SourceIllegal)
        else Emit(1, used, [UNI_REPLACEMENT_CHAR], false)
      else if ch > UNI_MAX_LEGAL_UTF32 then Emit(1, used, [UNI_REPLACEMENT_CHAR], true)
      else Emit(1, used, [ch], false)
  }

  function UTF8toUTF16(s: seq<UTF8>, flags: ConversionFlags): Step<UTF16>
    requires s != []
  {
    match ReadUtf8(s)
    case Fault(code) => Stop(0, code)
    case Character(used, ch) =>
      if IsSurrogate(ch) || ch > UNI_MAX_UTF16 then
        if flags.StrictConversion? then Stop(1, SourceIllegal)
        else Emit(1, used, [UNI_REPLACEMENT_CHAR], false)
      else Emit(|Utf16(ch)|, used, Utf16(ch), false)
  }

  // The steps as function values.  Nothing is ever done at the end of the source.

  function Utf32ToUtf16(flags: ConversionFlags): seq<UTF32> -> Step<UTF16> {
    (s: seq<UTF32>) => if s == [] then Stop(0, SourceExhausted) else UTF32toUTF16(s, flags)
  }

  function Utf32ToUtf8(flags: ConversionFlags): seq<UTF32> -> Step<UTF8> {
    (s: seq<UTF32>) => if s == [] then Stop(0, SourceExhausted) else UTF32toUTF8(s, flags)
  }

  function Utf16ToUtf32(flags: ConversionFlags): seq<UTF16> -> Step<UTF32> {
    (s: seq<UTF16>) => if s == [] then Stop(0, SourceExhausted) else UTF16toUTF32(s, flags)
  }

  function Utf16ToUtf8(flags: ConversionFlags): seq<UTF16> -> Step<UTF8> {
    (s: seq<UTF16>) => if s == [] then Stop(0, SourceExhausted) else UTF16toUTF8(s, flags)
  }

  function Utf8ToUtf32(flags: ConversionFlags): seq<UTF8> -> Step<UTF32> {
    (s: seq<UTF8>) => if s == [] then Stop(0, SourceExhausted) else UTF8toUTF32(s, flags)
  }

  function Utf8ToUtf16(flags: ConversionFlags): seq<UTF8> -> Step<UTF16> {
    (s: seq<UTF8>) => if s == [] then Stop(0, SourceExhausted) else UTF8toUTF16(s, flags)
  }

  // ------------------------------------------------------------------------------------------
  // The conditions of the general theorems

  lemma Utf32ToUtf16Valid(flags: ConversionFlags)
    ensures Valid(Utf32ToUtf16(flags), 2) && Rate(Utf32ToUtf16(flags), 2)
  {}

  lemma Utf32ToUtf8Valid(flags: ConversionFlags)
    ensures Valid(Utf32ToUtf8(flags), 4) && Rate(Utf32ToUtf8(flags), 4)
  {}

  lemma Utf16ToUtf32Valid(flags: ConversionFlags)
    ensures Valid(Utf16ToUtf32(flags), 1) && Rate(Utf16ToUtf32(flags), 1)
  {}

  /** A pair takes two units and four bytes; every other unit takes at most three. */
  lemma Utf16ToUtf8Valid(flags: ConversionFlags)
    ensures Valid(Utf16ToUtf8(flags), 4) && Rate(Utf16ToUtf8(flags), 3)
  {}

  lemma Utf8ToUtf32Valid(flags: ConversionFlags)
    ensures Valid(Utf8ToUtf32(flags), 1) && Rate(Utf8ToUtf32(flags), 1)
  {}

  /** Two UTF-16 units come from four bytes, one from at least one. */
  lemma Utf8ToUtf16Valid(flags: ConversionFlags)
    ensures Valid(Utf8ToUtf16(flags), 2) && Rate(Utf8ToUtf16(flags), 1)
  {
    forall s: seq<UTF8> | s != [] && ReadUtf8(s).Character?
      ensures |Utf16(ReadUtf8(s).ch)| <= ReadUtf8(s).used
    {
      if ReadUtf8(s).used == 1 {
        OneByteIsAscii(s);
      }
    }
  }

  lemma OneByteIsAscii(s: seq<UTF8>)
    requires s != [] && ReadUtf8(s).Character? && ReadUtf8(s).used == 1
    ensures ReadUtf8(s).ch < 0x80
  {
    assert s[..1] == [s[0]];
    DecodedOne(s[0]);
  }

  /** Until it asks for more source, reading UTF-16 does not depend on what follows. */
  lemma ReadUtf16Stable(a: seq<UTF16>, b: seq<UTF16>, flags: ConversionFlags)
    requires a != [] && ReadUtf16(a, flags) != Fault(SourceExhausted)
    ensures ReadUtf16(a + b, flags) == ReadUtf16(a, flags)
  {}

  lemma ReadUtf8Stable(a: seq<UTF8>, b: seq<UTF8>)
    requires a != [] && ReadUtf8(a) != Fault(SourceExhausted)
    ensures ReadUtf8(a + b) == ReadUtf8(a)
  {
    var n := TrailingBytes(a[0]) + 1;
    assert (a + b)[..n] == a[..n];
  }
}
