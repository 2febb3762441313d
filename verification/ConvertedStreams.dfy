/**
  The stream reader on what the converters write: the two decoders of the repository agree on it,
  but for the bytes that the stream reader loses.
 */
module ConvertedStreams {
  import opened Conversion
  import opened ConverterSteps
  import opened Encodings
  import ConvertUTFTheorems
  import UnicodeStream

  /** UTF-16 that was made from scalar values is read back, in either byte order. */
  lemma Utf16OutputReadsBack(cs: seq<UTF32>, flags: ConversionFlags, kept: UTF32, big: bool)
    requires Scalars(cs)
    ensures Valid(Utf32ToUtf16(flags), 2)
    ensures var data := UnicodeStream.Bytes(Whole(Utf32ToUtf16(flags), 2, cs).out, big);
            UnicodeStream.Reads(UnicodeStream.Utf16Encoding(big), data, 0, |cs|, kept)
            == (cs, UnicodeStream.Got(UnicodeStream.Last(cs, kept), |data|, false))
  {
    ConvertUTFTheorems.Utf32Utf16Utf32(cs, flags, flags);
    UnicodeStream.Utf16TextAgrees(cs, kept, big);
  }

  /**
    On UTF-8 that was made from scalar values the reader keeps in step if and only if no character
    starts with E0 or F0; then the values are read back.
   */
  lemma Utf8OutputReadsBack(cs: seq<UTF32>, flags: ConversionFlags, kept: UTF32)
    requires Scalars(cs)
    ensures Valid(Utf32ToUtf8(flags), 4)
    ensures var data := Whole(Utf32ToUtf8(flags), 4, cs).out;
            && data == Text(Utf8, cs)
            && ((forall k :: 0 <= k <= |cs| ==> UnicodeStream.InStep(UnicodeStream.EncodedUtf8, Utf8, cs, k, kept))
                <==> forall i :: 0 <= i < |cs| ==> Utf8(cs[i])[0] !in {0xE0, 0xF0})
            && ((forall i :: 0 <= i < |cs| ==> Utf8(cs[i])[0] !in {0xE0, 0xF0}) ==>
                  UnicodeStream.Reads(UnicodeStream.EncodedUtf8, data, 0, |cs|, kept)
                  == (cs, UnicodeStream.Got(UnicodeStream.Last(cs, kept), |data|, false)))
  {
    ConvertUTFTheorems.Utf32Utf8Utf32(cs, flags, flags);
    hide Utf8, UnicodeStream.Misread, UnicodeStream.Reads;
    forall i | 0 <= i < |cs| ensures UnicodeStream.Misread(cs[i]) <==> Utf8(cs[i])[0] in {0xE0, 0xF0} {
      UnicodeStream.MisreadIsLeadE0OrF0(cs[i]);
    }
    UnicodeStream.Utf8TextAgrees(cs, kept);
    assert cs[..|cs|] == cs;
    assert UnicodeStream.InStep(UnicodeStream.EncodedUtf8, Utf8, cs, |cs|, kept)
       ==> UnicodeStream.Reads(UnicodeStream.EncodedUtf8, Text(Utf8, cs), 0, |cs|, kept)
           == (cs, UnicodeStream.Got(UnicodeStream.Last(cs, kept), |Text(Utf8, cs)|, false));
  }
}
