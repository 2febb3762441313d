/**
  What the converters of ConvertUTF.c promise together: resuming in chunks, splitting the source,
  sufficient target sizes, round trips, and conversion through UTF-32.  `ConvertUTF` proves that
  each converter computes `Run` of its step; the statements here are about `Run` and `Whole`,
  which is `Run` with enough target room.
 */
module ConvertUTFTheorems {
  import opened Conversion
  import opened Encodings
  import opened Utf8Reading
  import opened ConverterSteps
  import opened Sequences

  // ------------------------------------------------------------------------------------------
  // Strict and lenient UTF-8

  lemma Utf8StepIgnoresMode(s: seq<UTF8>, f: ConversionFlags, g: ConversionFlags)
    requires s != []
    ensures UTF8toUTF32(s, f) == UTF8toUTF32(s, g)
    ensures UTF8toUTF16(s, f) == UTF8toUTF16(s, g)
    ensures ReadUtf8(s).Character? ==> IsScalar(ReadUtf8(s).ch)
  {
    if ReadUtf8(s).Character? {
      LegalDecodesToScalar(s[..ReadUtf8(s).used]);
    }
  }

  /** On every input, whatever the target room, the mode makes no difference to reading UTF-8. */
  lemma Utf8IgnoresMode(s: seq<UTF8>, room: nat)
    ensures Valid(Utf8ToUtf32(StrictConversion), 1) && Valid(Utf8ToUtf32(LenientConversion), 1)
    ensures Valid(Utf8ToUtf16(StrictConversion), 2) && Valid(Utf8ToUtf16(LenientConversion), 2)
    ensures Run(Utf8ToUtf32(StrictConversion), 1, s, room) == Run(Utf8ToUtf32(LenientConversion), 1, s, room)
    ensures Run(Utf8ToUtf16(StrictConversion), 2, s, room) == Run(Utf8ToUtf16(LenientConversion), 2, s, room)
  {
    var strict, lenient := StrictConversion, LenientConversion;
    Utf8ToUtf32Valid(strict);
    Utf8ToUtf32Valid(lenient);
    Utf8ToUtf16Valid(strict);
    Utf8ToUtf16Valid(lenient);
    forall x: seq<UTF8> | x != []
      ensures Utf8ToUtf32(strict)(x) == Utf8ToUtf32(lenient)(x)
      ensures Utf8ToUtf16(strict)(x) == Utf8ToUtf16(lenient)(x)
    {
      Utf8StepIgnoresMode(x, strict, lenient);
    }
    SameStepsSameRun(Utf8ToUtf32(strict), Utf8ToUtf32(lenient), 1, s, room);
    SameStepsSameRun(Utf8ToUtf16(strict), Utf8ToUtf16(lenient), 2, s, room);
  }

  // ------------------------------------------------------------------------------------------
  // Target sizes that always suffice: one call does the whole conversion

  /** One UTF-16 or UTF-32 unit for every byte. */
  lemma RoomForUtf8(s: seq<UTF8>, room: nat, flags: ConversionFlags)
    requires |s| <= room
    ensures Valid(Utf8ToUtf16(flags), 2) && Valid(Utf8ToUtf32(flags), 1)
    ensures Run(Utf8ToUtf16(flags), 2, s, room) == Whole(Utf8ToUtf16(flags), 2, s)
    ensures !Whole(Utf8ToUtf16(flags), 2, s).stop.TargetExhausted?
    ensures Run(Utf8ToUtf32(flags), 1, s, room) == Whole(Utf8ToUtf32(flags), 1, s)
    ensures !Whole(Utf8ToUtf32(flags), 1, s).stop.TargetExhausted?
  {
    Utf8ToUtf16Valid(flags);
    Utf8ToUtf32Valid(flags);
    RoomSuffices(Utf8ToUtf16(flags), 2, 1, s, room);
    RoomSuffices(Utf8ToUtf32(flags), 1, 1, s, room);
    WholeBounds(Utf8ToUtf16(flags), 2, s);
    WholeBounds(Utf8ToUtf32(flags), 1, s);
  }

  /** Three bytes, or one UTF-32 unit, for every UTF-16 unit. */
  lemma RoomForUtf16(s: seq<UTF16>, room8: nat, room32: nat, flags: ConversionFlags)
    requires 3 * |s| <= room8 && |s| <= room32
    ensures Valid(Utf16ToUtf8(flags), 4) && Valid(Utf16ToUtf32(flags), 1)
    ensures Run(Utf16ToUtf8(flags), 4, s, room8) == Whole(Utf16ToUtf8(flags), 4, s)
    ensures !Whole(Utf16ToUtf8(flags), 4, s).stop.TargetExhausted?
    ensures Run(Utf16ToUtf32(flags), 1, s, room32) == Whole(Utf16ToUtf32(flags), 1, s)
    ensures !Whole(Utf16ToUtf32(flags), 1, s).stop.TargetExhausted?
  {
    Utf16ToUtf8Valid(flags);
    Utf16ToUtf32Valid(flags);
    RoomSuffices(Utf16ToUtf8(flags), 4, 3, s, room8);
    RoomSuffices(Utf16ToUtf32(flags), 1, 1, s, room32);
    WholeBounds(Utf16ToUtf8(flags), 4, s);
    WholeBounds(Utf16ToUtf32(flags), 1, s);
  }

  /** Four bytes, or two UTF-16 units, for every UTF-32 unit. */
  lemma RoomForUtf32(s: seq<UTF32>, room8: nat, room16: nat, flags: ConversionFlags)
    requires 4 * |s| <= room8 && 2 * |s| <= room16
    ensures Valid(Utf32ToUtf8(flags), 4) && Valid(Utf32ToUtf16(flags), 2)
    ensures Run(Utf32ToUtf8(flags), 4, s, room8) == Whole(Utf32ToUtf8(flags), 4, s)
    ensures !Whole(Utf32ToUtf8(flags), 4, s).stop.TargetExhausted?
    ensures Run(Utf32ToUtf16(flags), 2, s, room16) == Whole(Utf32ToUtf16(flags), 2, s)
    ensures !Whole(Utf32ToUtf16(flags), 2, s).stop.TargetExhausted?
  {
    Utf32ToUtf8Valid(flags);
    Utf32ToUtf16Valid(flags);
    RoomSuffices(Utf32ToUtf8(flags), 4, 4, s, room8);
    RoomSuffices(Utf32ToUtf16(flags), 2, 2, s, room16);
    WholeBounds(Utf32ToUtf8(flags), 4, s);
    WholeBounds(Utf32ToUtf16(flags), 2, s);
  }

  // ------------------------------------------------------------------------------------------
  // Target sizes that just suffice

  lemma TightSteps(flags: ConversionFlags)
    ensures Tight(Utf8ToUtf32(flags)) && Tight(Utf8ToUtf16(flags))
    ensures Tight(Utf16ToUtf32(flags)) && Tight(Utf16ToUtf8(flags)) && Tight(Utf32ToUtf8(flags))
    ensures Tight(Utf32ToUtf16(LenientConversion))
  {
    forall s: seq<UTF8> | s != [] && ReadUtf8(s).Character?
      ensures IsScalar(ReadUtf8(s).ch)
    {
      Utf8StepIgnoresMode(s, flags, flags);
    }
  }

  /** From UTF-8: exactly the room for the output suffices, and with less the target runs out. */
  lemma ExactRoomForUtf8(s: seq<UTF8>, room: nat, flags: ConversionFlags)
    ensures Valid(Utf8ToUtf16(flags), 2) && Valid(Utf8ToUtf32(flags), 1)
    ensures var whole := Whole(Utf8ToUtf16(flags), 2, s);
            if |whole.out| <= room then Run(Utf8ToUtf16(flags), 2, s, room) == whole
            else Run(Utf8ToUtf16(flags), 2, s, room).stop == TargetExhausted
    ensures var whole := Whole(Utf8ToUtf32(flags), 1, s);
            if |whole.out| <= room then Run(Utf8ToUtf32(flags), 1, s, room) == whole
            else Run(Utf8ToUtf32(flags), 1, s, room).stop == TargetExhausted
  {
    Utf8ToUtf16Valid(flags);
    Utf8ToUtf32Valid(flags);
    TightSteps(flags);
    ExactRoom(Utf8ToUtf16(flags), 2, s, room);
    ExactRoom(Utf8ToUtf32(flags), 1, s, room);
  }

  lemma ExactRoomForUtf16(s: seq<UTF16>, room: nat, flags: ConversionFlags)
    ensures Valid(Utf16ToUtf8(flags), 4) && Valid(Utf16ToUtf32(flags), 1)
    ensures var whole := Whole(Utf16ToUtf8(flags), 4, s);
            if |whole.out| <= room then Run(Utf16ToUtf8(flags), 4, s, room) == whole
            else Run(Utf16ToUtf8(flags), 4, s, room).stop == TargetExhausted
    ensures var whole := Whole(Utf16ToUtf32(flags), 1, s);
            if |whole.out| <= room then Run(Utf16ToUtf32(flags), 1, s, room) == whole
            else Run(Utf16ToUtf32(flags), 1, s, room).stop == TargetExhausted
  {
    Utf16ToUtf8Valid(flags);
    Utf16ToUtf32Valid(flags);
    TightSteps(flags);
    ExactRoom(Utf16ToUtf8(flags), 4, s, room);
    ExactRoom(Utf16ToUtf32(flags), 1, s, room);
  }

  /** From UTF-32 so it is to UTF-8, and in lenient mode to UTF-16. */
  lemma ExactRoomForUtf32(s: seq<UTF32>, room: nat, flags: ConversionFlags)
    ensures Valid(Utf32ToUtf8(flags), 4) && Valid(Utf32ToUtf16(LenientConversion), 2)
    ensures var whole := Whole(Utf32ToUtf8(flags), 4, s);
            if |whole.out| <= room then Run(Utf32ToUtf8(flags), 4, s, room) == whole
            else Run(Utf32ToUtf8(flags), 4, s, room).stop == TargetExhausted
    ensures var whole := Whole(Utf32ToUtf16(LenientConversion), 2, s);
            if |whole.out| <= room then Run(Utf32ToUtf16(LenientConversion), 2, s, room) == whole
            else Run(Utf32ToUtf16(LenientConversion), 2, s, room).stop == TargetExhausted
  {
    Utf32ToUtf8Valid(flags);
    Utf32ToUtf16Valid(LenientConversion);
    TightSteps(flags);
    ExactRoom(Utf32ToUtf8(flags), 4, s, room);
    ExactRoom(Utf32ToUtf16(LenientConversion), 2, s, room);
  }

  /** A surrogate stops the conversion, or the last value is dropped. */
  predicate EndsWithoutOutput(s: seq<UTF32>) {
    FirstSurrogate(s) < |s| || (s != [] && s[|s| - 1] > UNI_MAX_LEGAL_UTF32)
  }

  /**
    In strict mode a value that is dropped or stops the conversion needs one free unit.  So one unit
    more than the output is needed if and only if the conversion ends at such a value.
   */
  lemma {:induction false} ExactRoomStrictly(s: seq<UTF32>, room: nat)
    ensures Valid(Utf32ToUtf16(StrictConversion), 2)
    ensures var whole := Whole(Utf32ToUtf16(StrictConversion), 2, s);
            var least := |whole.out| + if EndsWithoutOutput(s) then 1 else 0;
            && (if least <= room then Run(Utf32ToUtf16(StrictConversion), 2, s, room) == whole
                else Run(Utf32ToUtf16(StrictConversion), 2, s, room).stop == TargetExhausted)
            && (s != [] ==> 0 < least)
    decreases |s|
  {
    Utf32ToUtf16Valid(StrictConversion);
    hide Run, Whole, Valid, Utf32ToUtf16, Utf16, EndsWithoutOutput;
    var step := Utf32ToUtf16(StrictConversion);
    if s == [] {
      EndsNext(s);
      NothingToDo(step, 2, s, room);
    } else {
      StrictStep(s);
      EndsNext(s);
      if IsSurrogate(s[0]) {
        StopFirst(step, 2, s, room);
      } else {
        var n := |step(s).out|;
        var left := if n <= room then room - n else 0;
        ExactRoomStrictly(s[1..], left);
        if |s| == 1 {
          EndsNext(s[1..]);
          NothingToDo(step, 2, s[1..], left);
        }
        EmitFirst(step, 2, s, if step(s).need <= room then room else 2);
        if room < step(s).need {
          NoRoomForFirst(step, 2, s, room);
        }
      }
    }
  }

  lemma StrictStep(s: seq<UTF32>)
    requires s != []
    ensures Utf32ToUtf16(StrictConversion)(s)
         == if IsSurrogate(s[0]) then Stop(1, SourceIllegal)
            else if s[0] > UNI_MAX_LEGAL_UTF32 then Emit(1, 1, [], true)
            else Emit(|Utf16(s[0])|, 1, Utf16(s[0]), false)
  {}

  lemma EndsNext(s: seq<UTF32>)
    ensures EndsWithoutOutput(s) <==>
              s != [] && (|| IsSurrogate(s[0])
                          || (if |s| == 1 then s[0] > UNI_MAX_LEGAL_UTF32 else EndsWithoutOutput(s[1..])))
  {
    if |s| > 1 {
      assert s[1..][|s| - 2] == s[|s| - 1];
    }
  }

  /** Where the target runs out, the next character's encoding is longer than the room left. */
  lemma EndsBeforeUtf8(s: seq<UTF8>, room: nat, flags: ConversionFlags)
    ensures Valid(Utf8ToUtf16(flags), 2) && Valid(Utf8ToUtf32(flags), 1)
    ensures var r := Run(Utf8ToUtf16(flags), 2, s, room);
            r.stop == TargetExhausted ==>
              && r.consumed < |s| && |r.out| <= room && ReadUtf8(s[r.consumed..]).Character?
              && |Utf16(ReadUtf8(s[r.consumed..]).ch)| > room - |r.out|
    ensures var r := Run(Utf8ToUtf32(flags), 1, s, room);
            r.stop == TargetExhausted ==> r.consumed < |s| && |r.out| == room && ReadUtf8(s[r.consumed..]).Character?
  {
    Utf8ToUtf16Valid(flags);
    Utf8ToUtf32Valid(flags);
    hide Run, Valid, TrailingBytes, Legal;
    WhereTheTargetEnds(Utf8ToUtf16(flags), 2, s, room);
    WhereTheTargetEnds(Utf8ToUtf32(flags), 1, s, room);
    forall x: seq<UTF8> | x != [] && ReadUtf8(x).Character? ensures IsScalar(ReadUtf8(x).ch) {
      Utf8StepIgnoresMode(x, flags, flags);
    }
  }

  lemma EndsBeforeUtf16(s: seq<UTF16>, room: nat, flags: ConversionFlags)
    ensures Valid(Utf16ToUtf8(flags), 4) && Valid(Utf16ToUtf32(flags), 1)
    ensures var r := Run(Utf16ToUtf8(flags), 4, s, room);
            r.stop == TargetExhausted ==>
              && r.consumed < |s| && |r.out| <= room && ReadUtf16(s[r.consumed..], flags).Character?
              && |Utf8(ReadUtf16(s[r.consumed..], flags).ch)| > room - |r.out|
    ensures var r := Run(Utf16ToUtf32(flags), 1, s, room);
            r.stop == TargetExhausted ==>
              r.consumed < |s| && |r.out| == room && ReadUtf16(s[r.consumed..], flags).Character?
  {
    Utf16ToUtf8Valid(flags);
    Utf16ToUtf32Valid(flags);
    hide Run, Valid, ReadUtf16, Utf8;
    WhereTheTargetEnds(Utf16ToUtf8(flags), 4, s, room);
    WhereTheTargetEnds(Utf16ToUtf32(flags), 1, s, room);
  }

  lemma EndsBeforeUtf32(s: seq<UTF32>, room: nat, flags: ConversionFlags)
    ensures Valid(Utf32ToUtf8(flags), 4) && Valid(Utf32ToUtf16(flags), 2)
    ensures var r := Run(Utf32ToUtf8(flags), 4, s, room);
            r.stop == TargetExhausted ==>
              r.consumed < |s| && |r.out| <= room && |Utf8(s[r.consumed])| > room - |r.out|
    ensures var r := Run(Utf32ToUtf16(flags), 2, s, room);
            r.stop == TargetExhausted ==>
              r.consumed < |s| && |r.out| <= room && |Utf16(s[r.consumed])| > room - |r.out|
  {
    Utf32ToUtf8Valid(flags);
    Utf32ToUtf16Valid(flags);
    hide Run, Valid, Utf8;
    WhereTheTargetEnds(Utf32ToUtf8(flags), 4, s, room);
    WhereTheTargetEnds(Utf32ToUtf16(flags), 2, s, room);
  }

  // ------------------------------------------------------------------------------------------
  // Conversion through UTF-32

  lemma Utf8StepFactors(s: seq<UTF8>, f: ConversionFlags, g: ConversionFlags, h: ConversionFlags)
    requires s != []
    ensures Factors(Utf8ToUtf16(f), Utf8ToUtf32(g), Utf32ToUtf16(h), s)
  {
    Utf8StepIgnoresMode(s, f, g);
    if ReadUtf8(s).Character? {
      forall rest
        ensures Writes(Utf32ToUtf16(h), ReadUtf8(s).ch, rest, Utf16(ReadUtf8(s).ch))
      {
        assert ([ReadUtf8(s).ch] + rest)[0] == ReadUtf8(s).ch;
      }
    }
  }

  /**
    UTF-8 to UTF-16 is UTF-8 to UTF-32 to UTF-16, on every input and in any combination of modes:
    the same output, stopping at the same byte for the same reason.
   */
  lemma {:induction false} Utf8Triangle(s: seq<UTF8>, f: ConversionFlags, g: ConversionFlags, h: ConversionFlags)
    ensures Valid(Utf8ToUtf16(f), 2) && Valid(Utf8ToUtf32(g), 1) && Valid(Utf32ToUtf16(h), 2)
    ensures var direct, first := Whole(Utf8ToUtf16(f), 2, s), Whole(Utf8ToUtf32(g), 1, s);
            var second := Whole(Utf32ToUtf16(h), 2, first.out);
            && direct == Trace(first.consumed, second.out, first.stop, false)
            && !first.marked
            && second == Trace(|first.out|, direct.out, ConversionOK, false)
  {
    Utf8ToUtf16Valid(f);
    Utf8ToUtf32Valid(g);
    Utf32ToUtf16Valid(h);
    forall x: seq<UTF8> | x != []
      ensures Factors(Utf8ToUtf16(f), Utf8ToUtf32(g), Utf32ToUtf16(h), x)
    {
      Utf8StepFactors(x, f, g, h);
    }
    TriangleCommutes(Utf8ToUtf16(f), Utf8ToUtf32(g), Utf32ToUtf16(h), 2, 1, 2, s);
  }

  lemma Utf16StepFactors(s: seq<UTF16>, flags: ConversionFlags)
    requires s != []
    ensures Factors(Utf16ToUtf8(flags), Utf16ToUtf32(flags), Utf32ToUtf8(flags), s)
  {
    var reading := ReadUtf16(s, flags);
    if reading.Character? {
      forall rest
        ensures Writes(Utf32ToUtf8(flags), reading.ch, rest, Utf8(reading.ch))
      {
        assert ([reading.ch] + rest)[0] == reading.ch;
      }
    }
  }

  /** UTF-16 to UTF-8 is UTF-16 to UTF-32 to UTF-8, on every input in either mode. */
  lemma {:induction false} Utf16Triangle(s: seq<UTF16>, flags: ConversionFlags)
    ensures Valid(Utf16ToUtf8(flags), 4) && Valid(Utf16ToUtf32(flags), 1) && Valid(Utf32ToUtf8(flags), 4)
    ensures var direct, first := Whole(Utf16ToUtf8(flags), 4, s), Whole(Utf16ToUtf32(flags), 1, s);
            var second := Whole(Utf32ToUtf8(flags), 4, first.out);
            && direct == Trace(first.consumed, second.out, first.stop, false)
            && !first.marked
            && second == Trace(|first.out|, direct.out, ConversionOK, false)
  {
    Utf16ToUtf8Valid(flags);
    Utf16ToUtf32Valid(flags);
    Utf32ToUtf8Valid(flags);
    forall x: seq<UTF16> | x != []
      ensures Factors(Utf16ToUtf8(flags), Utf16ToUtf32(flags), Utf32ToUtf8(flags), x)
    {
      Utf16StepFactors(x, flags);
    }
    TriangleCommutes(Utf16ToUtf8(flags), Utf16ToUtf32(flags), Utf32ToUtf8(flags), 4, 1, 4, s);
  }

  // ------------------------------------------------------------------------------------------
  // Encoding UTF-32

  /** The first surrogate of `s`, or its length. */
  function FirstSurrogate(s: seq<UTF32>): (k: nat)
    ensures k <= |s| && (k < |s| ==> IsSurrogate(s[k]))
    ensures forall i :: 0 <= i < k ==> !IsSurrogate(s[i])
  {
    if s == [] || IsSurrogate(s[0]) then 0 else 1 + FirstSurrogate(s[1..])
  }

  ghost predicate HasTooLarge(s: seq<UTF32>) {
    exists i :: 0 <= i < |s| && s[i] > UNI_MAX_LEGAL_UTF32
  }

  /** The values of `s` that are not too large. */
  function Legals(s: seq<UTF32>): seq<UTF32> {
    if s == [] then []
    else (if s[0] <= UNI_MAX_LEGAL_UTF32 then [s[0]] else []) + Legals(s[1..])
  }

  /** `s` with every value that is not scalar replaced. */
  function Replaced(s: seq<UTF32>): seq<UTF32> {
    if s == [] then []
    else [if IsScalar(s[0]) then s[0] else UNI_REPLACEMENT_CHAR] + Replaced(s[1..])
  }

  /**
    Strict UTF-32 to UTF-16 stops at the first surrogate, pointing at it; but values that are too
    large are dropped and only noted in the result.  So `SourceIllegal` does not always mean that
    the source points at the illegal value.
   */
  lemma {:induction false} StrictUtf32ToUtf16(s: seq<UTF32>)
    ensures Valid(Utf32ToUtf16(StrictConversion), 2)
    ensures var k := FirstSurrogate(s);
            Whole(Utf32ToUtf16(StrictConversion), 2, s)
            == Trace(k, Utf16Text(Legals(s[..k])), if k < |s| then SourceIllegal else ConversionOK,
                     HasTooLarge(s[..k]))
    decreases |s|
  {
    Utf32ToUtf16Valid(StrictConversion);
    if s != [] && !IsSurrogate(s[0]) {
      StrictUtf32ToUtf16(s[1..]);
      var k := FirstSurrogate(s);
      HasTooLargeNext(s[..k]);
      assert s[..k][1..] == s[1..][..k - 1];
      assert Legals(s[..k])[..0] == [];
      TextOfLegals(s[..k]);
    }
  }

  lemma TextOfLegals(s: seq<UTF32>)
    requires s != []
    ensures Utf16Text(Legals(s))
         == (if s[0] <= UNI_MAX_LEGAL_UTF32 then Utf16(s[0]) else []) + Utf16Text(Legals(s[1..]))
  {
    var rest := Legals(s[1..]);
    if s[0] <= UNI_MAX_LEGAL_UTF32 {
      assert ([s[0]] + rest)[1..] == rest;
    } else {
      assert [] + rest == rest;
    }
  }

  lemma HasTooLargeNext(s: seq<UTF32>)
    ensures HasTooLarge(s) <==> s != [] && (s[0] > UNI_MAX_LEGAL_UTF32 || HasTooLarge(s[1..]))
  {
    if i :| 0 <= i < |s| && s[i] > UNI_MAX_LEGAL_UTF32 {
      assert i > 0 ==> s[1..][i - 1] == s[i];
    }
    if s != [] && HasTooLarge(s[1..]) {
      var i :| 0 <= i < |s[1..]| && s[1..][i] > UNI_MAX_LEGAL_UTF32;
      assert s[i + 1] == s[1..][i];
    }
  }

  /** Dropping is done value by value. */
  lemma {:induction false} LegalsConcat(a: seq<UTF32>, b: seq<UTF32>)
    ensures Legals(a + b) == Legals(a) + Legals(b)
    decreases |a|
  {
    hide Legals;
    if a == [] {
      NoLegals(a);
      assert a + b == b;
    } else {
      assert (a + b)[1..] == a[1..] + b;
      LegalsConcat(a[1..], b);
      LegalsNext(a);
      LegalsNext(a + b);
      JoinRest(if a[0] <= UNI_MAX_LEGAL_UTF32 then [a[0]] else [], Legals(a[1..]), Legals(b));
    }
  }

  lemma NoLegals(s: seq<UTF32>)
    requires s == []
    ensures Legals(s) == []
  {}

  lemma LegalsNext(s: seq<UTF32>)
    requires s != []
    ensures Legals(s) == (if s[0] <= UNI_MAX_LEGAL_UTF32 then [s[0]] else []) + Legals(s[1..])
  {}

  lemma LegalsOfOne(ch: UTF32)
    ensures Legals([ch]) == if ch <= 0x10_FFFF then [ch] else []
  {
    assert Legals([ch]) == (if ch <= UNI_MAX_LEGAL_UTF32 then [ch] else []) + Legals([]);
  }

  /** And so is replacing: surrogates and too large values give U+FFFD, the others themselves. */
  lemma {:induction false} ReplacedOneByOne(s: seq<UTF32>)
    ensures |Replaced(s)| == |s|
    ensures forall i :: 0 <= i < |s| ==>
              Replaced(s)[i] == if 0xD800 <= s[i] < 0xE000 || s[i] > 0x10_FFFF then 0xFFFD else s[i]
    decreases |s|
  {
    if s != [] {
      ReplacedOneByOne(s[1..]);
    }
  }

  /** Lenient UTF-32 to UTF-16 converts everything, replacing what is not a scalar value. */
  lemma {:induction false} LenientUtf32ToUtf16(s: seq<UTF32>)
    ensures Valid(Utf32ToUtf16(LenientConversion), 2)
    ensures Whole(Utf32ToUtf16(LenientConversion), 2, s)
         == Trace(|s|, Utf16Text(Replaced(s)), ConversionOK, false)
    decreases |s|
  {
    Utf32ToUtf16Valid(LenientConversion);
    if s != [] {
      LenientUtf32ToUtf16(s[1..]);
      var ch := if IsScalar(s[0]) then s[0] else UNI_REPLACEMENT_CHAR;
      assert ([ch] + Replaced(s[1..]))[1..] == Replaced(s[1..]);
    }
  }

  /**
    UTF-32 to UTF-8 replaces values that are too large in both modes, and notes them in the
    result; only strict mode stops, at the first surrogate.
   */
  lemma {:induction false} Utf32ToUtf8Whole(s: seq<UTF32>, flags: ConversionFlags)
    ensures Valid(Utf32ToUtf8(flags), 4)
    ensures var k := if flags.StrictConversion? then FirstSurrogate(s) else |s|;
            Whole(Utf32ToUtf8(flags), 4, s)
            == Trace(k, Utf8Text(s[..k]), if k < |s| then SourceIllegal else ConversionOK,
                     HasTooLarge(s[..k]))
    decreases |s|
  {
    Utf32ToUtf8Valid(flags);
    if s != [] && !(flags.StrictConversion? && IsSurrogate(s[0])) {
      Utf32ToUtf8Whole(s[1..], flags);
      var k := if flags.StrictConversion? then FirstSurrogate(s) else |s|;
      HasTooLargeNext(s[..k]);
      assert s[..k][1..] == s[1..][..k - 1];
    }
  }

  // ------------------------------------------------------------------------------------------
  // Decoding encoded text

  lemma ReadEncodedUtf8(ch: UTF32, rest: seq<UTF8>)
    requires IsScalar(ch)
    ensures ReadUtf8(Utf8(ch) + rest) == Character(|Utf8(ch)|, ch)
  {
    var s := Utf8(ch) + rest;
    Utf8IsTable37(ch);
    DecodedOfUtf8(ch);
    assert s[0] == Utf8(ch)[0];
    assert s[..|Utf8(ch)|] == Utf8(ch);
  }

  lemma ReadEncodedUtf16(ch: UTF32, rest: seq<UTF16>, flags: ConversionFlags)
    requires IsScalar(ch)
    ensures ReadUtf16(Utf16(ch) + rest, flags) == Character(|Utf16(ch)|, ch)
  {
    var s := Utf16(ch) + rest;
    assert s[0] == Utf16(ch)[0];
    if ch > UNI_MAX_BMP {
      PairOfUtf16(ch);
      assert s[1] == Utf16(ch)[1];
    }
  }

  /** A source that starts with the UTF-8 of scalar values starts by converting to them. */
  lemma {:induction false} DecodeUtf8Text(cs: seq<UTF32>, rest: seq<UTF8>, flags: ConversionFlags)
    requires Scalars(cs)
    ensures Valid(Utf8ToUtf32(flags), 1)
    ensures Precedes(Utf8ToUtf32(flags), 1, Utf8Text(cs), cs, rest)
    decreases |cs|
  {
    Utf8ToUtf32Valid(flags);
    var step := Utf8ToUtf32(flags);
    if cs == [] {
      NothingPrecedes(step, 1, rest);
    } else {
      DecodeUtf8Text(cs[1..], rest, flags);
      ReadsUtf8(cs[0], flags);
      ReadsThenPrecedes(step, 1, Utf8(cs[0]), cs[0], Utf8Text(cs[1..]), cs[1..], rest);
      assert [cs[0]] + cs[1..] == cs;
    }
  }

  lemma ReadsUtf8(ch: UTF32, flags: ConversionFlags)
    requires IsScalar(ch)
    ensures Reads(Utf8ToUtf32(flags), Utf8(ch), ch)
  {
    forall tail: seq<UTF8>
      ensures ReadUtf8(Utf8(ch) + tail) == Character(|Utf8(ch)|, ch)
    {
      ReadEncodedUtf8(ch, tail);
    }
  }

  lemma {:induction false} DecodeUtf16Text(cs: seq<UTF32>, rest: seq<UTF16>, flags: ConversionFlags)
    requires Scalars(cs)
    ensures Valid(Utf16ToUtf32(flags), 1)
    ensures Precedes(Utf16ToUtf32(flags), 1, Utf16Text(cs), cs, rest)
    decreases |cs|
  {
    Utf16ToUtf32Valid(flags);
    var step := Utf16ToUtf32(flags);
    if cs == [] {
      NothingPrecedes(step, 1, rest);
    } else {
      DecodeUtf16Text(cs[1..], rest, flags);
      ReadsUtf16(cs[0], flags);
      ReadsThenPrecedes(step, 1, Utf16(cs[0]), cs[0], Utf16Text(cs[1..]), cs[1..], rest);
      assert [cs[0]] + cs[1..] == cs;
    }
  }

  lemma ReadsUtf16(ch: UTF32, flags: ConversionFlags)
    requires IsScalar(ch)
    ensures Reads(Utf16ToUtf32(flags), Utf16(ch), ch)
  {
    forall tail: seq<UTF16>
      ensures ReadUtf16(Utf16(ch) + tail, flags) == Character(|Utf16(ch)|, ch)
    {
      ReadEncodedUtf16(ch, tail, flags);
    }
  }

  // ------------------------------------------------------------------------------------------
  // Round trips that start from UTF-32

  lemma ScalarsHaveNoOthers(cs: seq<UTF32>)
    requires Scalars(cs)
    ensures FirstSurrogate(cs) == |cs| && !HasTooLarge(cs) && Legals(cs) == cs && Replaced(cs) == cs
    decreases |cs|
  {
    if cs != [] {
      assert forall i :: 0 <= i < |cs[1..]| ==> cs[1..][i] == cs[i + 1];
      ScalarsHaveNoOthers(cs[1..]);
    }
  }

  /** UTF-32 to UTF-8 and back is the identity on scalar values, in any modes. */
  lemma {:induction false} Utf32Utf8Utf32(cs: seq<UTF32>, f: ConversionFlags, g: ConversionFlags)
    requires Scalars(cs)
    ensures Valid(Utf32ToUtf8(f), 4) && Valid(Utf8ToUtf32(g), 1)
    ensures var there := Whole(Utf32ToUtf8(f), 4, cs);
            && there == Trace(|cs|, Utf8Text(cs), ConversionOK, false)
            && Whole(Utf8ToUtf32(g), 1, there.out) == Trace(|there.out|, cs, ConversionOK, false)
  {
    ScalarsHaveNoOthers(cs);
    Utf32ToUtf8Whole(cs, f);
    assert cs[..|cs|] == cs;
    DecodeUtf8Text(cs, [], g);
    assert Utf8Text(cs) + [] == Utf8Text(cs) && cs + [] == cs;
  }

  /** UTF-32 to UTF-16 and back is the identity on scalar values, in any modes. */
  lemma {:induction false} Utf32Utf16Utf32(cs: seq<UTF32>, f: ConversionFlags, g: ConversionFlags)
    requires Scalars(cs)
    ensures Valid(Utf32ToUtf16(f), 2) && Valid(Utf16ToUtf32(g), 1)
    ensures var there := Whole(Utf32ToUtf16(f), 2, cs);
            && there == Trace(|cs|, Utf16Text(cs), ConversionOK, false)
            && Whole(Utf16ToUtf32(g), 1, there.out) == Trace(|there.out|, cs, ConversionOK, false)
  {
    ScalarsHaveNoOthers(cs);
    StrictUtf32ToUtf16(cs);
    LenientUtf32ToUtf16(cs);
    assert cs[..|cs|] == cs;
    DecodeUtf16Text(cs, [], g);
    assert Utf16Text(cs) + [] == Utf16Text(cs) && cs + [] == cs;
  }

  // ------------------------------------------------------------------------------------------
  // Round trips that start from UTF-8 or UTF-16

  lemma {:induction false} Utf8DecodesToScalars(s: seq<UTF8>, flags: ConversionFlags)
    ensures Valid(Utf8ToUtf32(flags), 1)
    ensures Scalars(Whole(Utf8ToUtf32(flags), 1, s).out)
    decreases |s|
  {
    Utf8ToUtf32Valid(flags);
    if s != [] {
      Utf8StepIgnoresMode(s, flags, flags);
      if ReadUtf8(s).Character? {
        Utf8DecodesToScalars(s[ReadUtf8(s).used..], flags);
      }
    }
  }

  /**
    UTF-8 to UTF-32 and back restores what was consumed if and only if that was well-formed; the
    decoder also accepts the overlooked sequences, which come back as other bytes.
   */
  lemma {:induction false} Utf8Utf32Utf8(s: seq<UTF8>, f: ConversionFlags, g: ConversionFlags)
    ensures Valid(Utf8ToUtf32(f), 1) && Valid(Utf32ToUtf8(g), 4)
    ensures var there := Whole(Utf8ToUtf32(f), 1, s);
            var back := Whole(Utf32ToUtf8(g), 4, there.out);
            && there.consumed <= |s|
            && back == Trace(|there.out|, Utf8Text(there.out), ConversionOK, false)
            && (back.out == s[..there.consumed] <==> WellFormedUtf8(s[..there.consumed]))
  {
    Utf8ToUtf32Valid(f);
    Utf32ToUtf8Valid(g);
    hide Whole, Valid, Utf8ToUtf32, Utf32ToUtf8;
    var there := Whole(Utf8ToUtf32(f), 1, s);
    WholeBounds(Utf8ToUtf32(f), 1, s);
    Utf8DecodesToScalars(s, f);
    ScalarsHaveNoOthers(there.out);
    Utf32ToUtf8Whole(there.out, g);
    assert there.out[..|there.out|] == there.out;
    var p := s[..there.consumed];
    if cs: seq<UTF32> :| Scalars(cs) && Utf8Text(cs) == p {
      var rest := s[there.consumed..];
      assert s == p + rest;
      DecodeUtf8Text(cs, rest, f);
      StopsWhereTheStepDoes(Utf8ToUtf32(f), 1, rest);
      assert cs + [] == cs;
    }
  }

  /** Well-formed UTF-8 is converted completely, and comes back as it was. */
  lemma WellFormedUtf8RoundTrip(s: seq<UTF8>, f: ConversionFlags, g: ConversionFlags)
    requires WellFormedUtf8(s)
    ensures Valid(Utf8ToUtf32(f), 1) && Valid(Utf32ToUtf8(g), 4)
    ensures var there := Whole(Utf8ToUtf32(f), 1, s);
            && there == Trace(|s|, there.out, ConversionOK, false)
            && Whole(Utf32ToUtf8(g), 4, there.out) == Trace(|there.out|, s, ConversionOK, false)
  {
    var cs: seq<UTF32> :| Scalars(cs) && Utf8Text(cs) == s;
    Utf32Utf8Utf32(cs, g, f);
  }

  lemma {:induction false} StrictUtf16DecodesToScalars(s: seq<UTF16>)
    ensures Valid(Utf16ToUtf32(StrictConversion), 1)
    ensures Scalars(Whole(Utf16ToUtf32(StrictConversion), 1, s).out)
    decreases |s|
  {
    Utf16ToUtf32Valid(StrictConversion);
    if s != [] && ReadUtf16(s, StrictConversion).Character? {
      StrictUtf16DecodesToScalars(s[ReadUtf16(s, StrictConversion).used..]);
    }
  }

  lemma {:induction false} StrictUtf16Restores(s: seq<UTF16>, g: ConversionFlags)
    ensures Valid(Utf16ToUtf32(StrictConversion), 1)
    ensures RestoresAll(Utf16ToUtf32(StrictConversion), Utf32ToUtf16(g), 1, s)
    decreases |s|
  {
    Utf16ToUtf32Valid(StrictConversion);
    if s != [] {
      var reading := ReadUtf16(s, StrictConversion);
      if reading.Character? {
        StrictUtf16Restores(s[reading.used..], g);
        forall rest
          ensures Writes(Utf32ToUtf16(g), reading.ch, rest, s[..reading.used])
        {
          assert ([reading.ch] + rest)[0] == reading.ch;
          if reading.used == 2 {
            Utf16OfPair(s[0], s[1]);
            assert s[..2] == [s[0], s[1]];
          }
        }
      }
    }
  }

  /** Strict UTF-16 to UTF-32 and back restores what was consumed, whatever the input. */
  lemma StrictUtf16Utf32Utf16(s: seq<UTF16>, g: ConversionFlags)
    ensures Valid(Utf16ToUtf32(StrictConversion), 1) && Valid(Utf32ToUtf16(g), 2)
    ensures var there := Whole(Utf16ToUtf32(StrictConversion), 1, s);
            && there.consumed <= |s|
            && Whole(Utf32ToUtf16(g), 2, there.out)
               == Trace(|there.out|, s[..there.consumed], ConversionOK, false)
            && WellFormedUtf16(s[..there.consumed])
  {
    Utf16ToUtf32Valid(StrictConversion);
    Utf32ToUtf16Valid(g);
    StrictUtf16Restores(s, g);
    ThereAndBack(Utf16ToUtf32(StrictConversion), Utf32ToUtf16(g), 1, 2, s);
    StrictUtf16DecodesToScalars(s);
    var there := Whole(Utf16ToUtf32(StrictConversion), 1, s);
    Utf32Utf16Utf32(there.out, g, StrictConversion);
    assert Utf16Text(there.out) == s[..there.consumed];
  }

  /** No longer beginning of the source is well-formed than the one strict mode consumes. */
  lemma StrictUtf16ConsumesLongest(s: seq<UTF16>, cs: seq<UTF32>)
    requires Scalars(cs) && Utf16Text(cs) <= s
    ensures Valid(Utf16ToUtf32(StrictConversion), 1)
    ensures var there := Whole(Utf16ToUtf32(StrictConversion), 1, s);
            |Utf16Text(cs)| <= there.consumed && cs <= there.out
  {
    assert s == Utf16Text(cs) + s[|Utf16Text(cs)|..];
    DecodeUtf16Text(cs, s[|Utf16Text(cs)|..], StrictConversion);
  }

  /**
    The unit where strict mode stops shows why: half of a pair that could still be completed, or
    an unpaired surrogate.
   */
  lemma {:induction false} StrictUtf16Stops(s: seq<UTF16>)
    ensures Valid(Utf16ToUtf32(StrictConversion), 1)
    ensures var there := Whole(Utf16ToUtf32(StrictConversion), 1, s);
            var n := there.consumed;
            && n <= |s|
            && (there.stop == ConversionOK <==> n == |s|)
            && (there.stop == SourceExhausted <==> n == |s| - 1 && IsHigh(s[n]))
            && (there.stop == SourceIllegal <==>
                  n < |s| && (IsLow(s[n]) || (IsHigh(s[n]) && n + 1 < |s| && !IsLow(s[n + 1]))))
  {
    Utf16ToUtf32Valid(StrictConversion);
    StopsWhereTheStepDoes(Utf16ToUtf32(StrictConversion), 1, s);
    WholeBounds(Utf16ToUtf32(StrictConversion), 1, s);
  }

  /** Strict UTF-16 conversion succeeds on exactly the well-formed texts. */
  lemma StrictUtf16Accepts(s: seq<UTF16>)
    ensures Valid(Utf16ToUtf32(StrictConversion), 1)
    ensures Whole(Utf16ToUtf32(StrictConversion), 1, s).Code() == ConversionOK <==> WellFormedUtf16(s)
  {
    StrictUtf16Utf32Utf16(s, StrictConversion);
    StrictUtf16Stops(s);
    Utf16Triangle(s, StrictConversion);
    assert s[..|s|] == s;
    if cs: seq<UTF32> :| Scalars(cs) && Utf16Text(cs) == s {
      StrictUtf16ConsumesLongest(s, cs);
    }
  }

  // ------------------------------------------------------------------------------------------
  // Round trips between UTF-8 and UTF-16, and from lenient UTF-16

  /** UTF-8 to UTF-16 and back restores what was consumed if and only if that was well-formed. */
  lemma Utf8Utf16Utf8(s: seq<UTF8>, f: ConversionFlags, g: ConversionFlags)
    ensures Valid(Utf8ToUtf16(f), 2) && Valid(Utf16ToUtf8(g), 4)
    ensures var there := Whole(Utf8ToUtf16(f), 2, s);
            var back := Whole(Utf16ToUtf8(g), 4, there.out);
            && there.consumed <= |s|
            && back == Trace(|there.out|, back.out, ConversionOK, false)
            && (back.out == s[..there.consumed] <==> WellFormedUtf8(s[..there.consumed]))
  {
    hide Whole, Valid, Utf8ToUtf16, Utf16ToUtf8, Utf8ToUtf32, Utf32ToUtf8, Utf32ToUtf16, Utf16ToUtf32, WellFormedUtf8;
    Utf8Utf32Utf8(s, f, g);
    Utf8DecodesToScalars(s, f);
    Utf8Triangle(s, f, f, g);
    var cs := Whole(Utf8ToUtf32(f), 1, s).out;
    Utf32Utf16Utf32(cs, g, g);
    Utf16Triangle(Utf16Text(cs), g);
  }

  /** The characters of a well-formed part that was consumed are what was written. */
  lemma ConsumedIsDecoded(s: seq<UTF16>, flags: ConversionFlags, cs: seq<UTF32>)
    requires Valid(Utf16ToUtf32(flags), 1) && Scalars(cs)
    requires Whole(Utf16ToUtf32(flags), 1, s).consumed <= |s|
    requires Utf16Text(cs) == s[..Whole(Utf16ToUtf32(flags), 1, s).consumed]
    ensures Whole(Utf16ToUtf32(flags), 1, s).out == cs
  {
    hide Whole, Valid, Utf16ToUtf32;
    var n := Whole(Utf16ToUtf32(flags), 1, s).consumed;
    assert s == Utf16Text(cs) + s[n..];
    DecodeUtf16Text(cs, s[n..], flags);
    StopsWhereTheStepDoes(Utf16ToUtf32(flags), 1, s[n..]);
    assert cs + [] == cs;
  }

  /**
    UTF-16 to UTF-8 and back restores what was consumed if and only if that was well-formed; in
    strict mode it always is.
   */
  lemma Utf16Utf8Utf16(s: seq<UTF16>, f: ConversionFlags, g: ConversionFlags)
    ensures Valid(Utf16ToUtf8(f), 4) && Valid(Utf8ToUtf16(g), 2)
    ensures var there := Whole(Utf16ToUtf8(f), 4, s);
            var back := Whole(Utf8ToUtf16(g), 2, there.out);
            && there.consumed <= |s|
            && (back.out == s[..there.consumed] <==> WellFormedUtf16(s[..there.consumed]))
            && (WellFormedUtf16(s[..there.consumed]) ==> back.consumed == |there.out| && back.Code() == ConversionOK)
            && (f.StrictConversion? ==> WellFormedUtf16(s[..there.consumed]))
  {
    hide Whole, Valid, Utf8ToUtf16, Utf16ToUtf8, Utf8ToUtf32, Utf32ToUtf8, Utf32ToUtf16, Utf16ToUtf32, Text;
    Utf16Triangle(s, f);
    Utf16ToUtf32Valid(f);
    WholeBounds(Utf16ToUtf32(f), 1, s);
    StrictUtf16Utf32Utf16(s, g);
    var there := Whole(Utf16ToUtf8(f), 4, s);
    Utf8DecodesToScalars(there.out, g);
    Utf8Triangle(there.out, g, g, g);
    var ds := Whole(Utf8ToUtf32(g), 1, there.out).out;
    Utf32Utf16Utf32(ds, g, g);
    if cs: seq<UTF32> :| Scalars(cs) && Utf16Text(cs) == s[..there.consumed] {
      ConsumedIsDecoded(s, f, cs);
      Utf32Utf8Utf32(cs, f, g);
    }
  }

  lemma {:induction false} LegalsAreScalars(s: seq<UTF32>)
    requires FirstSurrogate(s) == |s|
    ensures Scalars(Legals(s))
    decreases |s|
  {
    if s != [] {
      LegalsAreScalars(s[1..]);
    }
  }

  lemma {:induction false} ReplacedAreScalars(s: seq<UTF32>)
    ensures Scalars(Replaced(s))
    decreases |s|
  {
    if s != [] {
      ReplacedAreScalars(s[1..]);
    }
  }

  lemma Utf32ToUtf16IsWellFormed(s: seq<UTF32>, flags: ConversionFlags)
    ensures Valid(Utf32ToUtf16(flags), 2) && WellFormedUtf16(Whole(Utf32ToUtf16(flags), 2, s).out)
  {
    StrictUtf32ToUtf16(s);
    LenientUtf32ToUtf16(s);
    ReplacedAreScalars(s);
    LegalsAreScalars(s[..FirstSurrogate(s)]);
  }

  /** UTF-16 to UTF-32 and back, in any modes, restores what was consumed exactly if it is well-formed. */
  lemma Utf16Utf32Utf16(s: seq<UTF16>, f: ConversionFlags, g: ConversionFlags)
    ensures Valid(Utf16ToUtf32(f), 1) && Valid(Utf32ToUtf16(g), 2)
    ensures var there := Whole(Utf16ToUtf32(f), 1, s);
            && there.consumed <= |s|
            && (Whole(Utf32ToUtf16(g), 2, there.out).out == s[..there.consumed]
                <==> WellFormedUtf16(s[..there.consumed]))
  {
    hide Whole, Valid, Utf32ToUtf16, Utf16ToUtf32, Text;
    Utf16ToUtf32Valid(f);
    WholeBounds(Utf16ToUtf32(f), 1, s);
    var there := Whole(Utf16ToUtf32(f), 1, s);
    Utf32ToUtf16IsWellFormed(there.out, g);
    if cs: seq<UTF32> :| Scalars(cs) && Utf16Text(cs) == s[..there.consumed] {
      ConsumedIsDecoded(s, f, cs);
      Utf32Utf16Utf32(cs, g, g);
    }
  }

  /** Two halves of a pair that have not been joined. */
  ghost predicate HasUnjoined(cs: seq<UTF32>) {
    exists i :: 0 <= i < |cs| - 1 && IsHigh(cs[i]) && IsLow(cs[i + 1])
  }

  /**
    Lenient UTF-16 conversion keeps every surrogate that is not half of a pair: what it writes is
    what it consumed, with all pairs joined; only a high surrogate at the end is not consumed.
   */
  lemma {:induction false} LenientUtf16Keeps(s: seq<UTF16>)
    ensures Valid(Utf16ToUtf32(LenientConversion), 1)
    ensures var there := Whole(Utf16ToUtf32(LenientConversion), 1, s);
            && there.consumed == (if s != [] && IsHigh(s[|s| - 1]) then |s| - 1 else |s|)
            && Utf16Text(there.out) == s[..there.consumed] && !HasUnjoined(there.out)
            && (there.out != [] ==> s != [] && (IsLow(there.out[0]) ==> IsLow(s[0])))
    decreases |s|
  {
    Utf16Steps(LenientConversion);
    LenientConsumes(Utf16ToUtf32(LenientConversion), 1, AsUtf32, s);
    if s != [] && ReadUtf16(s, LenientConversion).Character? {
      var Character(used, ch) := ReadUtf16(s, LenientConversion);
      LenientUtf16Keeps(s[used..]);
      var rest := Whole(Utf16ToUtf32(LenientConversion), 1, s[used..]);
      var there := Whole(Utf16ToUtf32(LenientConversion), 1, s);
      assert there.out == [ch] + rest.out && there.consumed == used + rest.consumed;
      KeepsFirst(s, used, ch);
      hide Whole, Valid, ReadUtf16, FromUtf16;
      JoinedInFront(ch, rest.out);
      DropTwice(s, used, rest.consumed);
    }
  }

  lemma KeepsFirst(s: seq<UTF16>, used: nat, ch: UTF32)
    requires s != [] && ReadUtf16(s, LenientConversion) == Character(used, ch)
    ensures used <= |s| && Utf16(ch) == s[..used]
    ensures IsHigh(ch) ==> used == 1 && |s| > 1 && !IsLow(s[1])
    ensures IsLow(ch) ==> IsLow(s[0])
  {
    if used == 2 {
      Utf16OfPair(s[0], s[1]);
    }
  }

  lemma JoinedInFront(ch: UTF32, cs: seq<UTF32>)
    requires !HasUnjoined(cs) && !(IsHigh(ch) && cs != [] && IsLow(cs[0]))
    ensures !HasUnjoined([ch] + cs) && Utf16Text([ch] + cs) == Utf16(ch) + Utf16Text(cs)
  {
    var all := [ch] + cs;
    assert all[1..] == cs;
    forall i | 0 <= i < |all| - 1 ensures !(IsHigh(all[i]) && IsLow(all[i + 1])) {
      assert i > 0 ==> all[i] == cs[i - 1] && all[i + 1] == cs[i];
    }
  }

  // ------------------------------------------------------------------------------------------
  // Where UTF-8 conversion stops

  /** To both targets: where the announced bytes are not all there, or are not a legal sequence. */
  lemma Utf8Stops(s: seq<UTF8>, flags: ConversionFlags)
    ensures Valid(Utf8ToUtf32(flags), 1) && Valid(Utf8ToUtf16(flags), 2)
    ensures var there := Whole(Utf8ToUtf32(flags), 1, s);
            var n := there.consumed;
            && n <= |s|
            && (there.stop == ConversionOK <==> n == |s|)
            && (there.stop == SourceExhausted <==> n < |s| && |s| <= n + TrailingBytes(s[n]))
            && (there.stop == SourceIllegal <==>
                  n < |s| && n + TrailingBytes(s[n]) < |s| && !Legal(s[n..n + TrailingBytes(s[n]) + 1]))
            && !there.marked
            && var other := Whole(Utf8ToUtf16(flags), 2, s);
               other.consumed == n && other.stop == there.stop && !other.marked
  {
    hide Whole, Valid, Utf8ToUtf32, Utf8ToUtf16, Legal, TrailingBytes;
    Utf8Triangle(s, flags, flags, flags);
    StopsWhereTheStepDoes(Utf8ToUtf32(flags), 1, s);
    WholeBounds(Utf8ToUtf32(flags), 1, s);
    var n := Whole(Utf8ToUtf32(flags), 1, s).consumed;
    if n < |s| {
      StepStops(s[n..], flags);
      var extra := TrailingBytes(s[n]);
      assert n + extra < |s| ==> s[n..][..extra + 1] == s[n..n + extra + 1];
    }
  }

  lemma StepStops(s: seq<UTF8>, flags: ConversionFlags)
    requires s != [] && Utf8ToUtf32(flags)(s).Stop?
    ensures var code, extra := Utf8ToUtf32(flags)(s).code, TrailingBytes(s[0]);
            && (code == SourceExhausted || code == SourceIllegal)
            && (code == SourceExhausted <==> |s| <= extra)
            && (code == SourceIllegal <==> extra < |s| && !Legal(s[..extra + 1]))
  {
    hide Legal, TrailingBytes;
    Utf8StepIgnoresMode(s, flags, flags);
  }

  /** The first bytes that no legal sequence of more than one byte starts with. */
  predicate Hopeless(lead: UTF8) { lead < 0xC2 || 0xF4 < lead }

  function Completion(lead: UTF8): seq<UTF8>
  {
    if lead < 0xE0 then [0x80]
    else if lead == 0xE0 then [0xA0, 0x80]
    else if lead < 0xF0 then [0x80, 0x80]
    else if lead == 0xF0 then [0x90, 0x80, 0x80]
    else [0x80, 0x80, 0x80]
  }

  /**
    A first byte from C0 on asks for more source, but more source can help only if it is between C2
    and F4.
   */
  lemma AsksInVain(lead: UTF8, flags: ConversionFlags)
    requires 0xC0 <= lead
    ensures Valid(Utf8ToUtf32(flags), 1)
    ensures Whole(Utf8ToUtf32(flags), 1, [lead]) == Trace(0, [], SourceExhausted, false)
    ensures (forall rest :: Whole(Utf8ToUtf32(flags), 1, [lead] + rest).consumed == 0) <==> Hopeless(lead)
  {
    Utf8ToUtf32Valid(flags);
    var step := Utf8ToUtf32(flags);
    if Hopeless(lead) {
      forall rest: seq<UTF8> ensures Whole(step, 1, [lead] + rest).consumed == 0 {
        assert ([lead] + rest)[0] == lead;
        assert ReadUtf8([lead] + rest).Fault?;
      }
    } else {
      var s := [lead] + Completion(lead);
      assert s[..|s|] == s && Legal(s);
      Utf8StepIgnoresMode(s, flags, flags);
      EmitFirst(step, 1, s, 1);
      assert Whole(step, 1, [lead] + Completion(lead)).consumed > 0;
    }
  }

  // ------------------------------------------------------------------------------------------
  // Calls that resume

  /** From UTF-8, to targets of at least `most` units: chunked calls end with the code of one call. */
  lemma ChunksFromUtf8(s: seq<UTF8>, rooms16: nat -> nat, rooms32: nat -> nat, flags: ConversionFlags)
    requires Rooms(rooms16, 2) && Rooms(rooms32, 1)
    ensures Valid(Utf8ToUtf16(flags), 2) && Valid(Utf8ToUtf32(flags), 1)
    ensures var (all, last) := Chunked(Utf8ToUtf16(flags), 2, s, rooms16, 0);
            all == Whole(Utf8ToUtf16(flags), 2, s) && last.Code() == all.Code()
    ensures var (all, last) := Chunked(Utf8ToUtf32(flags), 1, s, rooms32, 0);
            all == Whole(Utf8ToUtf32(flags), 1, s) && last.Code() == all.Code()
  {
    Utf8ToUtf16Valid(flags);
    Utf8ToUtf32Valid(flags);
    ChunkedIsWhole(Utf8ToUtf16(flags), 2, s, rooms16, 0);
    ChunkedIsWhole(Utf8ToUtf32(flags), 1, s, rooms32, 0);
    Utf8Triangle(s, flags, flags, flags);
  }

  lemma ChunksFromUtf16(s: seq<UTF16>, rooms8: nat -> nat, rooms32: nat -> nat, flags: ConversionFlags)
    requires Rooms(rooms8, 4) && Rooms(rooms32, 1)
    ensures Valid(Utf16ToUtf8(flags), 4) && Valid(Utf16ToUtf32(flags), 1)
    ensures var (all, last) := Chunked(Utf16ToUtf8(flags), 4, s, rooms8, 0);
            all == Whole(Utf16ToUtf8(flags), 4, s) && last.Code() == all.Code()
    ensures var (all, last) := Chunked(Utf16ToUtf32(flags), 1, s, rooms32, 0);
            all == Whole(Utf16ToUtf32(flags), 1, s) && last.Code() == all.Code()
  {
    Utf16ToUtf8Valid(flags);
    Utf16ToUtf32Valid(flags);
    ChunkedIsWhole(Utf16ToUtf8(flags), 4, s, rooms8, 0);
    ChunkedIsWhole(Utf16ToUtf32(flags), 1, s, rooms32, 0);
    Utf16Triangle(s, flags);
  }

  lemma Utf32ToUtf8Marks(s: seq<UTF32>, flags: ConversionFlags)
    ensures Valid(Utf32ToUtf8(flags), 4)
    ensures var all := Whole(Utf32ToUtf8(flags), 4, s);
            && (all.stop.ConversionOK? <==> (flags.StrictConversion? ==> FirstSurrogate(s) == |s|))
            && (all.stop.ConversionOK? ==> (all.marked <==> HasTooLarge(s)))
  {
    Utf32ToUtf8Whole(s, flags);
    assert s[..|s|] == s;
  }

  lemma Utf32ToUtf16Marks(s: seq<UTF32>, flags: ConversionFlags)
    ensures Valid(Utf32ToUtf16(flags), 2)
    ensures var all := Whole(Utf32ToUtf16(flags), 2, s);
            && (all.stop.ConversionOK? <==> (flags.StrictConversion? ==> FirstSurrogate(s) == |s|))
            && (all.stop.ConversionOK? ==> (all.marked <==> flags.StrictConversion? && HasTooLarge(s)))
  {
    StrictUtf32ToUtf16(s);
    LenientUtf32ToUtf16(s);
    assert s[..|s|] == s;
  }

  /**
    From UTF-32 the chunked calls also write what one call writes, but they end with another code
    exactly when no surrogate stops them, a value in the source is too large, and none is in the
    part that was left for the last call.
   */
  lemma ChunksFromUtf32ToUtf8(s: seq<UTF32>, rooms: nat -> nat, flags: ConversionFlags)
    requires Rooms(rooms, 4)
    ensures Valid(Utf32ToUtf8(flags), 4)
    ensures var (all, last) := Chunked(Utf32ToUtf8(flags), 4, s, rooms, 0);
            && all == Whole(Utf32ToUtf8(flags), 4, s) && last.consumed <= |s|
            && (last.Code() != all.Code() <==>
                  && (flags.StrictConversion? ==> FirstSurrogate(s) == |s|)
                  && HasTooLarge(s) && !HasTooLarge(s[|s| - last.consumed..]))
  {
    Utf32ToUtf8Valid(flags);
    hide Whole, Chunked, Valid, Utf32ToUtf8, HasTooLarge, FirstSurrogate;
    ChunkedIsWhole(Utf32ToUtf8(flags), 4, s, rooms, 0);
    LastCallIsWhole(Utf32ToUtf8(flags), 4, s, rooms, 0);
    Utf32ToUtf8Marks(s, flags);
    Utf32ToUtf8Marks(s[|s| - Chunked(Utf32ToUtf8(flags), 4, s, rooms, 0).1.consumed..], flags);
  }

  /** To UTF-16 that can only happen in strict mode. */
  lemma ChunksFromUtf32ToUtf16(s: seq<UTF32>, rooms: nat -> nat, flags: ConversionFlags)
    requires Rooms(rooms, 2)
    ensures Valid(Utf32ToUtf16(flags), 2)
    ensures var (all, last) := Chunked(Utf32ToUtf16(flags), 2, s, rooms, 0);
            && all == Whole(Utf32ToUtf16(flags), 2, s) && last.consumed <= |s|
            && (last.Code() != all.Code() <==>
                  && flags.StrictConversion? && FirstSurrogate(s) == |s|
                  && HasTooLarge(s) && !HasTooLarge(s[|s| - last.consumed..]))
  {
    Utf32ToUtf16Valid(flags);
    hide Whole, Chunked, Valid, Utf32ToUtf16, HasTooLarge, FirstSurrogate;
    ChunkedIsWhole(Utf32ToUtf16(flags), 2, s, rooms, 0);
    LastCallIsWhole(Utf32ToUtf16(flags), 2, s, rooms, 0);
    Utf32ToUtf16Marks(s, flags);
    Utf32ToUtf16Marks(s[|s| - Chunked(Utf32ToUtf16(flags), 2, s, rooms, 0).1.consumed..], flags);
  }

  /** A too large value, and a value of four bytes: two calls with four bytes of room forget the first. */
  lemma ChunksForget(flags: ConversionFlags)
    ensures Valid(Utf32ToUtf8(flags), 4)
    ensures var (all, last) := Chunked(Utf32ToUtf8(flags), 4, [0x11_0000, 0x1_0000], (i: nat) => 4, 0);
            all.Code() == SourceIllegal && last.Code() == ConversionOK
  {
    Utf32ToUtf8Valid(flags);
    var step, s, rooms := Utf32ToUtf8(flags), [0x11_0000, 0x1_0000], (i: nat) => 4;
    assert s[1..] == [0x1_0000] && [0x1_0000][1..] == [];
    assert |Utf8(0x11_0000)| == 3 && |Utf8(0x1_0000)| == 4;
    assert Run(step, 4, s[1..], 1) == Trace(0, [], TargetExhausted, false);
    assert Run(step, 4, s, 4) == Trace(1, Utf8(0x11_0000), TargetExhausted, true);
    assert Run(step, 4, s[1..], 4) == Trace(1, Utf8(0x1_0000), ConversionOK, false);
    assert Chunked(step, 4, s[1..], rooms, 1).1 == Run(step, 4, s[1..], 4);
  }

  /** Strict UTF-32 to UTF-16 drops a value that is too large, goes on, and points behind the last one. */
  lemma TooLargeIsDropped()
    ensures Valid(Utf32ToUtf16(StrictConversion), 2)
    ensures var all := Whole(Utf32ToUtf16(StrictConversion), 2, [0x11_0000, 0x41]);
            all.consumed == 2 && all.out == [0x41] && all.Code() == SourceIllegal
  {
    Utf32ToUtf16Valid(StrictConversion);
    assert [0x11_0000, 0x41][1..] == [0x41] && [0x41][1..] == [];
  }

  // ------------------------------------------------------------------------------------------
  // Which UTF-32 sources can lose the code

  /** Nothing but too large values in the source is illegal. */
  ghost predicate NothingStops(s: seq<UTF32>, flags: ConversionFlags) {
    flags.StrictConversion? ==> FirstSurrogate(s) == |s|
  }

  lemma BehindNoSurrogate(s: seq<UTF32>, k: nat)
    requires k <= |s|
    ensures FirstSurrogate(s) == |s| ==> FirstSurrogate(s[k..]) == |s[k..]|
  {
    if FirstSurrogate(s) == |s| {
      assert forall i :: 0 <= i < |s[k..]| ==> s[k..][i] == s[k + i];
    }
  }

  lemma NoTooLargeBehind(s: seq<UTF32>, k: nat)
    requires k < |s| && !HasTooLarge(s[k..])
    ensures s[|s| - 1] <= UNI_MAX_LEGAL_UTF32 && s[k] <= UNI_MAX_LEGAL_UTF32
  {
    assert s[k..][|s| - 1 - k] == s[|s| - 1] && s[k..][0] == s[k];
  }

  lemma HasTooLargeAt(s: seq<UTF32>, k: nat, i: nat)
    requires k <= |s| && i < |s| && s[i] > UNI_MAX_LEGAL_UTF32
    ensures k <= i ==> HasTooLarge(s[k..])
  {
    assert k <= i ==> s[k..][i - k] == s[i];
  }

  lemma TextNext<T>(encode: UTF32 -> seq<T>, s: seq<UTF32>)
    requires s != []
    ensures Text(encode, s) == encode(s[0]) + Text(encode, s[1..])
  {}

  lemma StepToUtf8(s: seq<UTF32>, flags: ConversionFlags)
    requires s != [] && NothingStops(s, flags)
    ensures Utf32ToUtf8(flags)(s) == Emit(|Utf8(s[0])|, 1, Utf8(s[0]), s[0] > UNI_MAX_LEGAL_UTF32)
    ensures NothingStops(s[1..], flags)
  {}

  /** A target that lacks one byte for the whole conversion: all but the last value is converted. */
  lemma {:induction false} AllButLastToUtf8(s: seq<UTF32>, flags: ConversionFlags)
    requires s != [] && NothingStops(s, flags)
    ensures Valid(Utf32ToUtf8(flags), 4) && |Utf8Text(s)| > 0
    ensures var r := Run(Utf32ToUtf8(flags), 4, s, |Utf8Text(s)| - 1);
            r.consumed == |s| - 1 && r.stop.TargetExhausted?
    decreases |s|
  {
    Utf32ToUtf8Valid(flags);
    var step, room := Utf32ToUtf8(flags), |Utf8Text(s)| - 1;
    StepToUtf8(s, flags);
    TextNext(Utf8, s);
    assert ValidStep(step(s), |s|, 4);
    if |s| == 1 {
      assert Utf8Text(s[1..]) == [];
      NoRoomForFirst(step, 4, s, room);
    } else {
      hide Run, Whole, Valid, Utf32ToUtf8, Utf8, Text, NothingStops;
      AllButLastToUtf8(s[1..], flags);
      EmitFirst(step, 4, s, room);
    }
  }

  /**
    Targets of at least four bytes can lose the code of a UTF-32 source if and only if no surrogate
    stops it, it has a too large value, its last value is not too large, and its UTF-8 has more
    than four bytes.
   */
  lemma ChunkCodesToUtf8(s: seq<UTF32>, flags: ConversionFlags)
    ensures Valid(Utf32ToUtf8(flags), 4)
    ensures !ChunkCodesAgree(Utf32ToUtf8(flags), 4, s) <==>
              && NothingStops(s, flags)
              && HasTooLarge(s) && s[|s| - 1] <= UNI_MAX_LEGAL_UTF32 && |Utf8Text(s)| > 4
  {
    Utf32ToUtf8Valid(flags);
    forall rooms: nat -> nat | Rooms(rooms, 4)
      ensures Chunked(Utf32ToUtf8(flags), 4, s, rooms, 0).1.Code() != Whole(Utf32ToUtf8(flags), 4, s).Code() ==>
                && NothingStops(s, flags)
                && HasTooLarge(s) && s[|s| - 1] <= UNI_MAX_LEGAL_UTF32 && |Utf8Text(s)| > 4
    {
      if Chunked(Utf32ToUtf8(flags), 4, s, rooms, 0).1.Code() != Whole(Utf32ToUtf8(flags), 4, s).Code() {
        LosesCodeToUtf8(s, rooms, flags);
      }
    }
    if NothingStops(s, flags) && HasTooLarge(s) && s[|s| - 1] <= UNI_MAX_LEGAL_UTF32 && |Utf8Text(s)| > 4 {
      CanLoseCodeToUtf8(s, flags);
    }
  }

  lemma CanLoseCodeToUtf8(s: seq<UTF32>, flags: ConversionFlags)
    requires NothingStops(s, flags)
    requires HasTooLarge(s) && s[|s| - 1] <= UNI_MAX_LEGAL_UTF32 && |Utf8Text(s)| > 4
    ensures Valid(Utf32ToUtf8(flags), 4) && !ChunkCodesAgree(Utf32ToUtf8(flags), 4, s)
  {
    Utf32ToUtf8Valid(flags);
    hide Run, Whole, Chunked, Valid, Utf32ToUtf8, FirstSurrogate, HasTooLarge, Text;
    var step, room := Utf32ToUtf8(flags), |Utf8Text(s)| - 1;
    var rooms := (i: nat) => if i == 0 then room else 4;
    EmptyHasNone(s);
    AllButLastToUtf8(s, flags);
    BehindNoSurrogate(s, |s| - 1);
    LastAloneToUtf8(s[|s| - 1..], flags);
    TwoCalls(step, 4, s, rooms);
    ChunksFromUtf32ToUtf8(s, rooms, flags);
    assert !(Chunked(step, 4, s, rooms, 0).1.Code() == Whole(step, 4, s).Code());
  }

  lemma LastAloneToUtf8(s: seq<UTF32>, flags: ConversionFlags)
    requires |s| == 1 && NothingStops(s, flags) && s[0] <= UNI_MAX_LEGAL_UTF32
    ensures Valid(Utf32ToUtf8(flags), 4) && !HasTooLarge(s)
    ensures var r := Run(Utf32ToUtf8(flags), 4, s, 4);
            r.consumed == 1 && r.stop.ConversionOK? && !r.marked
  {
    Utf32ToUtf8Valid(flags);
    StepToUtf8(s, flags);
    EmitFirst(Utf32ToUtf8(flags), 4, s, 4);
  }

  lemma LosesCodeToUtf8(s: seq<UTF32>, rooms: nat -> nat, flags: ConversionFlags)
    requires Rooms(rooms, 4) && Valid(Utf32ToUtf8(flags), 4)
    requires Chunked(Utf32ToUtf8(flags), 4, s, rooms, 0).1.Code() != Whole(Utf32ToUtf8(flags), 4, s).Code()
    ensures NothingStops(s, flags)
    ensures HasTooLarge(s) && s[|s| - 1] <= UNI_MAX_LEGAL_UTF32 && |Utf8Text(s)| > 4
  {
    var step := Utf32ToUtf8(flags);
    hide Run, Whole, Valid, Chunked, Utf32ToUtf8, FirstSurrogate, HasTooLarge;
    ChunksFromUtf32ToUtf8(s, rooms, flags);
    ChunkedIsWhole(step, 4, s, rooms, 0);
    Utf32ToUtf8Marks(s, flags);
    EmptyHasNone(s);
    LastCallIsNotEmpty(step, 4, s, rooms, 0);
    NoTooLargeBehind(s, |s| - Chunked(step, 4, s, rooms, 0).1.consumed);
    TargetTooShortForUtf8(s, rooms, flags);
  }

  lemma EmptyHasNone(s: seq<UTF32>)
    ensures s == [] ==> !HasTooLarge(s)
  {}

  lemma Utf32ToUtf8All(s: seq<UTF32>, flags: ConversionFlags)
    ensures Valid(Utf32ToUtf8(flags), 4)
    ensures Whole(Utf32ToUtf8(flags), 4, s).stop.ConversionOK? ==> Whole(Utf32ToUtf8(flags), 4, s).out == Utf8Text(s)
  {
    Utf32ToUtf8Whole(s, flags);
    assert s[..|s|] == s;
  }

  lemma TargetTooShortForUtf8(s: seq<UTF32>, rooms: nat -> nat, flags: ConversionFlags)
    requires Rooms(rooms, 4) && Valid(Utf32ToUtf8(flags), 4) && NothingStops(s, flags)
    requires Whole(Utf32ToUtf8(flags), 4, s).stop.ConversionOK?
    requires Chunked(Utf32ToUtf8(flags), 4, s, rooms, 0).1.Code() != Whole(Utf32ToUtf8(flags), 4, s).Code()
    ensures |Utf8Text(s)| > 4
  {
    var step := Utf32ToUtf8(flags);
    hide Run, Whole, Valid, Chunked, Utf8, Text;
    CodesDiffer(step, 4, s, rooms);
    var rest := s[Run(step, 4, s, rooms(0)).consumed..];
    assert step(rest).need > 0 ==> step(rest).need == |Utf8(rest[0])|;
    hide Utf32ToUtf8;
    Utf32ToUtf8All(s, flags);
    Utf32ToUtf8All(rest, flags);
    TextNext(Utf8, rest);
  }

  /** What follows the last value that is too large. */
  ghost function AfterTooLarge(s: seq<UTF32>): (r: seq<UTF32>)
    ensures |r| <= |s| && r == s[|s| - |r|..] && !HasTooLarge(r)
    ensures HasTooLarge(s) ==> |r| < |s| && s[|s| - |r| - 1] > UNI_MAX_LEGAL_UTF32
  {
    if HasTooLarge(s) then
      HasTooLargeNext(s);
      AfterTooLarge(s[1..])
    else
      s
  }

  function LegalText(s: seq<UTF32>): seq<UTF16> { Utf16Text(Legals(s)) }

  lemma StepToUtf16(s: seq<UTF32>)
    requires s != [] && FirstSurrogate(s) == |s|
    ensures Utf32ToUtf16(StrictConversion)(s)
         == if s[0] > UNI_MAX_LEGAL_UTF32 then Emit(1, 1, [], true)
            else Emit(|Utf16(s[0])|, 1, Utf16(s[0]), false)
    ensures FirstSurrogate(s[1..]) == |s[1..]|
  {}

  lemma {:induction false} LegalTextBehind(s: seq<UTF32>, k: nat)
    requires k <= |s|
    ensures |LegalText(s[k..])| <= |LegalText(s)|
  {
    if k == 0 {
      assert s[0..] == s;
    } else {
      LegalTextBehind(s[1..], k - 1);
      TextOfLegals(s);
      assert s[1..][k - 1..] == s[k..];
    }
  }

  lemma {:induction false} AllLegal(s: seq<UTF32>)
    requires !HasTooLarge(s)
    ensures Legals(s) == s
    decreases |s|
  {
    if s != [] {
      HasTooLargeNext(s);
      AllLegal(s[1..]);
    }
  }

  lemma AfterIsShorter(s: seq<UTF32>)
    ensures |Utf16Text(AfterTooLarge(s))| <= |LegalText(s)|
  {
    hide AfterTooLarge, HasTooLarge, Legals, Text;
    var tail := AfterTooLarge(s);
    AllLegal(tail);
    LegalTextBehind(s, |s| - |tail|);
  }

  lemma {:induction false} AllButLastToUtf16(s: seq<UTF32>)
    requires s != [] && FirstSurrogate(s) == |s| && s[|s| - 1] <= UNI_MAX_LEGAL_UTF32
    requires HasTooLarge(s) ==> |Utf16Text(AfterTooLarge(s))| >= 2
    ensures Valid(Utf32ToUtf16(StrictConversion), 2) && |LegalText(s)| > 0
    ensures var r := Run(Utf32ToUtf16(StrictConversion), 2, s, |LegalText(s)| - 1);
            r.consumed == |s| - 1 && r.stop.TargetExhausted?
    decreases |s|
  {
    Utf32ToUtf16Valid(StrictConversion);
    hide Run, Whole, Valid, Utf32ToUtf16, Utf16, Text, Legals, FirstSurrogate, HasTooLarge, AfterTooLarge;
    var step, room := Utf32ToUtf16(StrictConversion), |LegalText(s)| - 1;
    StepToUtf16(s);
    TextOfLegals(s);
    if |s| == 1 {
      NoLegalText(s[1..]);
      NoRoomForFirst(step, 2, s, room);
    } else {
      HasTooLargeNext(s);
      AfterIsShorter(s);
      AfterNext(s);
      AllButLastToUtf16(s[1..]);
      assert step(s).need <= room;
      hide LegalText;
      EmitFirst(step, 2, s, room);
    }
  }

  lemma NoLegalText(s: seq<UTF32>)
    requires s == []
    ensures LegalText(s) == []
  {}

  lemma AfterNext(s: seq<UTF32>)
    requires s != []
    ensures HasTooLarge(s[1..]) ==> AfterTooLarge(s) == AfterTooLarge(s[1..])
  {
    HasTooLargeNext(s);
  }

  /** A legal value by itself. */
  lemma LastAlone(s: seq<UTF32>)
    requires |s| == 1 && FirstSurrogate(s) == 1 && s[0] <= UNI_MAX_LEGAL_UTF32
    ensures Valid(Utf32ToUtf16(StrictConversion), 2) && !HasTooLarge(s)
    ensures var r := Run(Utf32ToUtf16(StrictConversion), 2, s, 2);
            r.consumed == 1 && r.stop.ConversionOK? && !r.marked
  {
    Utf32ToUtf16Valid(StrictConversion);
    StepToUtf16(s);
    EmitFirst(Utf32ToUtf16(StrictConversion), 2, s, 2);
  }

  lemma CanLoseCodeToUtf16(s: seq<UTF32>)
    requires FirstSurrogate(s) == |s| && HasTooLarge(s)
    requires |Utf16Text(AfterTooLarge(s))| >= 2 && |LegalText(s)| >= 3
    ensures Valid(Utf32ToUtf16(StrictConversion), 2) && !ChunkCodesAgree(Utf32ToUtf16(StrictConversion), 2, s)
  {
    Utf32ToUtf16Valid(StrictConversion);
    hide Run, Whole, Chunked, Valid, FirstSurrogate, HasTooLarge, Utf32ToUtf16, Text, Legals, AfterTooLarge;
    var step, room, tail := Utf32ToUtf16(StrictConversion), |LegalText(s)| - 1, AfterTooLarge(s);
    var rooms := (i: nat) => if i == 0 then room else 2;
    NoText(tail);
    NoTooLargeBehind(s, |s| - |tail|);
    AllButLastToUtf16(s);
    BehindNoSurrogate(s, |s| - 1);
    LastAlone(s[|s| - 1..]);
    TwoCalls(step, 2, s, rooms);
    ChunksFromUtf32ToUtf16(s, rooms, StrictConversion);
    assert !(Chunked(step, 2, s, rooms, 0).1.Code() == Whole(step, 2, s).Code());
  }

  lemma NoText(s: seq<UTF32>)
    ensures s == [] ==> Utf16Text(s) == []
  {}

  /** A too large value takes room for one unit, and leaves it. */
  lemma {:induction false} TooLargeLeavesRoom(s: seq<UTF32>, room: nat)
    requires FirstSurrogate(s) == |s|
    ensures Valid(Utf32ToUtf16(StrictConversion), 2)
    ensures var r := Run(Utf32ToUtf16(StrictConversion), 2, s, room);
            && (r.consumed == 0 ==> r.out == [])
            && (0 < r.consumed <= |s| && s[r.consumed - 1] > UNI_MAX_LEGAL_UTF32 ==> |r.out| < room)
    decreases |s|
  {
    Utf32ToUtf16Valid(StrictConversion);
    var step := Utf32ToUtf16(StrictConversion);
    hide Run, Valid, Utf32ToUtf16, Utf16, FirstSurrogate;
    if s == [] {
      NothingConsumed(s, room);
    } else {
      StepToUtf16(s);
      if step(s).need <= room {
        EmitFirst(step, 2, s, room);
        TooLargeLeavesRoom(s[1..], room - |step(s).out|);
        var n := Run(step, 2, s[1..], room - |step(s).out|).consumed;
        assert 0 < n < |s| ==> s[1..][n - 1] == s[n];
      } else {
        NoRoomForFirst(step, 2, s, room);
      }
    }
  }

  lemma NothingConsumed(s: seq<UTF32>, room: nat)
    requires s == []
    ensures Valid(Utf32ToUtf16(StrictConversion), 2)
    ensures var r := Run(Utf32ToUtf16(StrictConversion), 2, s, room);
            r.consumed == 0 && r.out == []
  {
    Utf32ToUtf16Valid(StrictConversion);
  }

  /** A call whose target ends behind the last too large value. */
  ghost predicate EndsAfterTooLarge(s: seq<UTF32>, room: nat)
    requires Valid(Utf32ToUtf16(StrictConversion), 2)
  {
    var r := Run(Utf32ToUtf16(StrictConversion), 2, s, room);
    r.stop.TargetExhausted? && r.consumed < |s| && !HasTooLarge(s[r.consumed..])
  }

  /** The unit after which it ends needs more room than is left. */
  lemma EndsBeforeLegal(s: seq<UTF32>, room: nat)
    requires Valid(Utf32ToUtf16(StrictConversion), 2)
    requires FirstSurrogate(s) == |s| && EndsAfterTooLarge(s, room)
    ensures var r := Run(Utf32ToUtf16(StrictConversion), 2, s, room);
            |r.out| <= room && |Utf16(s[r.consumed])| > room - |r.out|
  {
    hide Run, Valid, Utf32ToUtf16, Utf16, FirstSurrogate, HasTooLarge;
    var step := Utf32ToUtf16(StrictConversion);
    var k := Run(step, 2, s, room).consumed;
    BehindNoSurrogate(s, k);
    StepToUtf16(s[k..]);
    NoTooLargeBehind(s, k);
    WhereTheTargetEnds(step, 2, s, room);
  }

  lemma TextHasThree(s: seq<UTF32>, room: nat)
    requires Valid(Utf32ToUtf16(StrictConversion), 2)
    requires FirstSurrogate(s) == |s| && EndsAfterTooLarge(s, room) && room >= 2
    ensures |LegalText(s)| >= 3
  {
    EndsBeforeLegal(s, room);
    hide Run, Whole, Valid, Utf32ToUtf16, Utf16, FirstSurrogate, HasTooLarge, Legals, Text;
    var step := Utf32ToUtf16(StrictConversion);
    var r := Run(step, 2, s, room);
    var rest := s[r.consumed..];
    NoTooLargeBehind(s, r.consumed);
    BehindNoSurrogate(s, r.consumed);
    RunIsPrefixOfWhole(step, 2, s, room);
    StrictUtf32ToUtf16All(s);
    StrictUtf32ToUtf16All(rest);
    TextOfLegals(rest);
  }

  lemma TwoUnits(s: seq<UTF32>)
    requires |s| >= 2 || (|s| == 1 && |Utf16(s[0])| == 2)
    ensures |Utf16Text(s)| >= 2
  {
    hide Utf16;
    TextHasAllUnits(s);
    TextNext(Utf16, s);
  }

  lemma AfterHasTwo(s: seq<UTF32>, room: nat)
    requires Valid(Utf32ToUtf16(StrictConversion), 2)
    requires FirstSurrogate(s) == |s| && HasTooLarge(s) && EndsAfterTooLarge(s, room)
    ensures |Utf16Text(AfterTooLarge(s))| >= 2
  {
    EndsBeforeLegal(s, room);
    hide Run, Valid, Utf32ToUtf16, Utf16, Text, FirstSurrogate, AfterTooLarge, HasTooLarge;
    var k, tail := Run(Utf32ToUtf16(StrictConversion), 2, s, room).consumed, AfterTooLarge(s);
    var j := |s| - |tail|;
    TooLargeLeavesRoom(s, room);
    HasTooLargeAt(s, k, j - 1);
    TwoUnits(tail);
  }

  lemma StrictUtf32ToUtf16All(s: seq<UTF32>)
    requires FirstSurrogate(s) == |s|
    ensures Valid(Utf32ToUtf16(StrictConversion), 2)
    ensures Whole(Utf32ToUtf16(StrictConversion), 2, s).out == LegalText(s)
  {
    StrictUtf32ToUtf16(s);
    assert s[..|s|] == s;
  }

  lemma {:induction false} TextHasAllUnits(s: seq<UTF32>)
    ensures |Utf16Text(s)| >= |s|
    decreases |s|
  {
    if s != [] {
      TextHasAllUnits(s[1..]);
    }
  }

  lemma {:induction false} AfterBehind(s: seq<UTF32>, k: nat)
    requires k <= |s| && HasTooLarge(s[k..])
    ensures HasTooLarge(s) && AfterTooLarge(s) == AfterTooLarge(s[k..])
  {
    if k == 0 {
      assert s[0..] == s;
    } else {
      assert s[1..][k - 1..] == s[k..];
      AfterBehind(s[1..], k - 1);
      HasTooLargeNext(s);
    }
  }

  lemma {:induction false} LosesCodeToUtf16(s: seq<UTF32>, rooms: nat -> nat, i: nat)
    requires Rooms(rooms, 2) && Valid(Utf32ToUtf16(StrictConversion), 2)
    requires FirstSurrogate(s) == |s| && HasTooLarge(s)
    requires var last := Chunked(Utf32ToUtf16(StrictConversion), 2, s, rooms, i).1;
             last.stop.ConversionOK? && last.consumed <= |s| && !HasTooLarge(s[|s| - last.consumed..])
    ensures |Utf16Text(AfterTooLarge(s))| >= 2 && |LegalText(s)| >= 3
    decreases |s|
  {
    hide Run, Chunked, Valid, Utf32ToUtf16, FirstSurrogate, HasTooLarge, AfterTooLarge, LegalText, Text;
    var step := Utf32ToUtf16(StrictConversion);
    var r := Run(step, 2, s, rooms(i));
    RunBounds(step, 2, s, rooms(i));
    ChunkedNext(step, 2, s, rooms, i);
    if r.stop.TargetExhausted? {
      var rest := s[r.consumed..];
      if HasTooLarge(rest) {
        LastCallIsWhole(step, 2, rest, rooms, i + 1);
        var last := Chunked(step, 2, rest, rooms, i + 1).1;
        DropTwice(s, r.consumed, |rest| - last.consumed);
        BehindNoSurrogate(s, r.consumed);
        LosesCodeToUtf16(rest, rooms, i + 1);
        AfterBehind(s, r.consumed);
        LegalTextBehind(s, r.consumed);
      } else {
        AfterHasTwo(s, rooms(i));
        TextHasThree(s, rooms(i));
      }
    }
  }

  /**
    Targets of at least two units can lose the code of a UTF-32 source if and only if the mode is
    strict, no surrogate stops it, it has a too large value, and the UTF-16 of what follows the last
    one has two units at least, and that of the whole source three.
   */
  lemma ChunkCodesToUtf16(s: seq<UTF32>, flags: ConversionFlags)
    ensures Valid(Utf32ToUtf16(flags), 2)
    ensures !ChunkCodesAgree(Utf32ToUtf16(flags), 2, s) <==>
              && flags.StrictConversion? && FirstSurrogate(s) == |s| && HasTooLarge(s)
              && |Utf16Text(AfterTooLarge(s))| >= 2 && |Utf16Text(Legals(s))| >= 3
  {
    Utf32ToUtf16Valid(flags);
    hide Run, Whole, Valid, Chunked, Utf32ToUtf16, FirstSurrogate, HasTooLarge, AfterTooLarge, Legals, Text;
    forall rooms: nat -> nat | Rooms(rooms, 2)
      ensures Chunked(Utf32ToUtf16(flags), 2, s, rooms, 0).1.Code() != Whole(Utf32ToUtf16(flags), 2, s).Code() ==>
                && flags.StrictConversion? && FirstSurrogate(s) == |s| && HasTooLarge(s)
                && |Utf16Text(AfterTooLarge(s))| >= 2 && |LegalText(s)| >= 3
    {
      ChunksFromUtf32ToUtf16(s, rooms, flags);
      if Chunked(Utf32ToUtf16(flags), 2, s, rooms, 0).1.Code() != Whole(Utf32ToUtf16(flags), 2, s).Code() {
        ChunkedIsWhole(Utf32ToUtf16(flags), 2, s, rooms, 0);
        Utf32ToUtf16Marks(s, flags);
        LosesCodeToUtf16(s, rooms, 0);
      }
    }
    if && flags.StrictConversion? && FirstSurrogate(s) == |s| && HasTooLarge(s)
       && |Utf16Text(AfterTooLarge(s))| >= 2 && |LegalText(s)| >= 3
    {
      CanLoseCodeToUtf16(s);
    }
  }

  // ------------------------------------------------------------------------------------------
  // Split sources

  lemma Utf8StepsStable(flags: ConversionFlags)
    ensures Stable(Utf8ToUtf32(flags)) && ExhaustsFirst(Utf8ToUtf32(flags))
    ensures Stable(Utf8ToUtf16(flags)) && ExhaustsFirst(Utf8ToUtf16(flags))
  {
    forall a: seq<UTF8>, b: seq<UTF8> | a != [] && ReadUtf8(a) != Fault(SourceExhausted)
      ensures ReadUtf8(a + b) == ReadUtf8(a)
    {
      ReadUtf8Stable(a, b);
    }
  }

  lemma Utf8StepsUnmarked(flags: ConversionFlags)
    ensures Unmarked(Utf8ToUtf32(flags)) && Unmarked(Utf8ToUtf16(flags))
  {
    forall s: seq<UTF8> | s != [] && ReadUtf8(s).Character?
      ensures IsScalar(ReadUtf8(s).ch)
    {
      Utf8StepIgnoresMode(s, flags, flags);
    }
  }

  /** Split UTF-8 sources: any split point, any target room, either mode. */
  lemma SplitUtf8(a: seq<UTF8>, b: seq<UTF8>, room: nat, flags: ConversionFlags)
    ensures Valid(Utf8ToUtf32(flags), 1) && SplitsAt(Utf8ToUtf32(flags), 1, a, b, room)
    ensures SplitCodesAgree(Utf8ToUtf32(flags), 1, a, b, room)
    ensures Valid(Utf8ToUtf16(flags), 2) && SplitsAt(Utf8ToUtf16(flags), 2, a, b, room)
    ensures SplitCodesAgree(Utf8ToUtf16(flags), 2, a, b, room)
  {
    Utf8ToUtf32Valid(flags);
    Utf8ToUtf16Valid(flags);
    Utf8StepsStable(flags);
    Utf8StepsUnmarked(flags);
    SplitIsWhole(Utf8ToUtf32(flags), 1, a, b, room);
    SplitCodes(Utf8ToUtf32(flags), 1, a, b, room);
    SplitIsWhole(Utf8ToUtf16(flags), 2, a, b, room);
    SplitCodes(Utf8ToUtf16(flags), 2, a, b, room);
  }

  lemma Utf16StepsStable(flags: ConversionFlags)
    ensures Stable(Utf16ToUtf32(flags)) && ExhaustsFirst(Utf16ToUtf32(flags))
    ensures Stable(Utf16ToUtf8(flags)) && ExhaustsFirst(Utf16ToUtf8(flags))
  {
    forall a: seq<UTF16>, b: seq<UTF16> | a != [] && ReadUtf16(a, flags) != Fault(SourceExhausted)
      ensures ReadUtf16(a + b, flags) == ReadUtf16(a, flags)
    {
      ReadUtf16Stable(a, b, flags);
    }
  }

  lemma Utf16StepsUnmarked(flags: ConversionFlags)
    ensures Unmarked(Utf16ToUtf32(flags)) && Unmarked(Utf16ToUtf8(flags))
  {}

  /** Split UTF-16 sources: any split point, also between the halves of a pair. */
  lemma SplitUtf16(a: seq<UTF16>, b: seq<UTF16>, room: nat, flags: ConversionFlags)
    ensures Valid(Utf16ToUtf32(flags), 1) && SplitsAt(Utf16ToUtf32(flags), 1, a, b, room)
    ensures SplitCodesAgree(Utf16ToUtf32(flags), 1, a, b, room)
    ensures Valid(Utf16ToUtf8(flags), 4) && SplitsAt(Utf16ToUtf8(flags), 4, a, b, room)
    ensures SplitCodesAgree(Utf16ToUtf8(flags), 4, a, b, room)
  {
    Utf16ToUtf32Valid(flags);
    Utf16ToUtf8Valid(flags);
    Utf16StepsStable(flags);
    Utf16StepsUnmarked(flags);
    SplitIsWhole(Utf16ToUtf32(flags), 1, a, b, room);
    SplitCodes(Utf16ToUtf32(flags), 1, a, b, room);
    SplitIsWhole(Utf16ToUtf8(flags), 4, a, b, room);
    SplitCodes(Utf16ToUtf8(flags), 4, a, b, room);
  }

  lemma Utf32StepsStable(flags: ConversionFlags)
    ensures Stable(Utf32ToUtf8(flags)) && ExhaustsFirst(Utf32ToUtf8(flags))
    ensures Stable(Utf32ToUtf16(flags)) && ExhaustsFirst(Utf32ToUtf16(flags))
  {}

  /** Split UTF-32 sources: any split point, any target room, either mode. */
  lemma SplitUtf32(a: seq<UTF32>, b: seq<UTF32>, room: nat, flags: ConversionFlags)
    ensures Valid(Utf32ToUtf8(flags), 4) && SplitsAt(Utf32ToUtf8(flags), 4, a, b, room)
    ensures Valid(Utf32ToUtf16(flags), 2) && SplitsAt(Utf32ToUtf16(flags), 2, a, b, room)
  {
    Utf32ToUtf8Valid(flags);
    Utf32ToUtf16Valid(flags);
    Utf32StepsStable(flags);
    SplitIsWhole(Utf32ToUtf8(flags), 4, a, b, room);
    SplitIsWhole(Utf32ToUtf16(flags), 2, a, b, room);
  }

  /**
    With room for everything the second call ends with another code than one call exactly if no
    surrogate stops them and of the two pieces only the first has a value that is too large.
   */
  lemma SplitUtf32Codes(a: seq<UTF32>, b: seq<UTF32>, room8: nat, room16: nat, flags: ConversionFlags)
    requires 4 * |a + b| <= room8 && 2 * |a + b| <= room16
    ensures Valid(Utf32ToUtf8(flags), 4) && SplitsAt(Utf32ToUtf8(flags), 4, a, b, room8)
    ensures Valid(Utf32ToUtf16(flags), 2) && SplitsAt(Utf32ToUtf16(flags), 2, a, b, room16)
    ensures !SplitCodesAgree(Utf32ToUtf8(flags), 4, a, b, room8) <==>
              && (flags.StrictConversion? ==> FirstSurrogate(a + b) == |a + b|)
              && HasTooLarge(a) && !HasTooLarge(b)
    ensures !SplitCodesAgree(Utf32ToUtf16(flags), 2, a, b, room16) <==>
              && flags.StrictConversion? && FirstSurrogate(a + b) == |a + b|
              && HasTooLarge(a) && !HasTooLarge(b)
  {
    hide Run, Whole, Valid, Utf32ToUtf8, Utf32ToUtf16, SplitsAt, SplitCodesAgree, FirstSurrogate, HasTooLarge;
    SplitUtf32(a, b, room8, flags);
    SplitUtf32(a, b, room16, flags);
    RoomForUtf32(a, room8, room16, flags);
    RoomForUtf32(a + b, room8, room16, flags);
    Utf32NeverAsks(a, flags);
    SplitCodesOfWhole(Utf32ToUtf8(flags), 4, a, b, room8);
    SplitCodesOfWhole(Utf32ToUtf16(flags), 2, a, b, room16);
    Utf32ToUtf8Marks(a, flags);
    Utf32ToUtf8Marks(b, flags);
    Utf32ToUtf8Marks(a + b, flags);
    Utf32ToUtf16Marks(a, flags);
    Utf32ToUtf16Marks(b, flags);
    Utf32ToUtf16Marks(a + b, flags);
  }

  lemma Utf32NeverAsks(s: seq<UTF32>, flags: ConversionFlags)
    ensures Valid(Utf32ToUtf8(flags), 4) && !Whole(Utf32ToUtf8(flags), 4, s).stop.SourceExhausted?
    ensures Valid(Utf32ToUtf16(flags), 2) && !Whole(Utf32ToUtf16(flags), 2, s).stop.SourceExhausted?
  {
    Utf32ToUtf8Whole(s, flags);
    StrictUtf32ToUtf16(s);
    LenientUtf32ToUtf16(s);
  }

  lemma ReadUtf8Local(s: seq<UTF8>)
    requires s != [] && ReadUtf8(s).Character?
    ensures ReadUtf8(s[..ReadUtf8(s).used]) == ReadUtf8(s)
  {
    var n := ReadUtf8(s).used;
    assert s[..n][..n] == s[..n];
  }

  /** What any call consumed of a UTF-8 source converts, by itself, to what the call wrote. */
  lemma ConsumedUtf8ConvertsAlone(s: seq<UTF8>, room: nat, flags: ConversionFlags)
    ensures Valid(Utf8ToUtf32(flags), 1) && ConvertsAlone(Utf8ToUtf32(flags), 1, s, room)
    ensures Valid(Utf8ToUtf16(flags), 2) && ConvertsAlone(Utf8ToUtf16(flags), 2, s, room)
  {
    Utf8ToUtf32Valid(flags);
    Utf8ToUtf16Valid(flags);
    Utf8StepsStable(flags);
    forall x: seq<UTF8>
      ensures LocalAt(Utf8ToUtf32(flags), x) && LocalAt(Utf8ToUtf16(flags), x)
    {
      if x != [] && ReadUtf8(x).Character? {
        ReadUtf8Local(x);
      }
    }
    ConsumedConvertsAlone(Utf8ToUtf32(flags), 1, s, room);
    ConsumedConvertsAlone(Utf8ToUtf16(flags), 2, s, room);
  }

  // ------------------------------------------------------------------------------------------
  // The consumed part of a UTF-16 source

  /** The step of a converter that reads UTF-16 and writes `write(ch)` for the character `ch`. */
  function Utf16Step<T>(write: UTF32 -> seq<T>, s: seq<UTF16>, flags: ConversionFlags): Step<T>
    requires s != []
  {
    match ReadUtf16(s, flags)
    case Fault(code) => Stop(0, code)
    case Character(used, ch) => Emit(|write(ch)|, used, write(ch), false)
  }

  ghost predicate FromUtf16<T>(step: seq<UTF16> -> Step<T>, write: UTF32 -> seq<T>, flags: ConversionFlags) {
    && (forall ch {:trigger write(ch)} :: write(ch) != [])
    && (forall s: seq<UTF16> {:trigger step(s)} :: s != [] ==> step(s) == Utf16Step(write, s, flags))
  }

  lemma StepFromUtf16<T>(
    step: seq<UTF16> -> Step<T>, write: UTF32 -> seq<T>, s: seq<UTF16>, flags: ConversionFlags)
    requires FromUtf16(step, write, flags) && s != []
    ensures step(s) == Utf16Step(write, s, flags)
  {}

  /** A high surrogate that is followed by something else than a low one. */
  predicate LoneHighAt(s: seq<UTF16>, i: nat) {
    i + 1 < |s| && IsHigh(s[i]) && !IsLow(s[i + 1])
  }

  lemma HighBehind(s: seq<UTF16>, k: nat, n: nat)
    requires k <= |s| && 0 < n <= |s[k..]|
    ensures IsHigh(s[k + n - 1]) <==> IsHigh(s[k..][n - 1])
    ensures LoneHighAt(s, k + n - 1) <==> LoneHighAt(s[k..], n - 1)
  {}

  lemma ReadUtf16Local(s: seq<UTF16>, n: nat, flags: ConversionFlags)
    requires s != [] && ReadUtf16(s, flags).Character? && ReadUtf16(s, flags).used <= n <= |s|
    ensures if n == 1 && IsHigh(s[0]) then ReadUtf16(s[..n], flags) == Fault(SourceExhausted)
            else ReadUtf16(s[..n], flags) == ReadUtf16(s, flags)
  {}

  predicate EndsInNoHighButLone(s: seq<UTF16>, n: int, flags: ConversionFlags) {
    n > 0 && n <= |s| && IsHigh(s[n - 1]) ==> flags.LenientConversion? && LoneHighAt(s, n - 1)
  }

  lemma FirstEndsInNoHighButLone(s: seq<UTF16>, n: nat, flags: ConversionFlags)
    requires s != [] && ReadUtf16(s, flags).Character? && ReadUtf16(s, flags).used <= |s|
    requires EndsInNoHighButLone(s[ReadUtf16(s, flags).used..], n, flags)
    ensures EndsInNoHighButLone(s, ReadUtf16(s, flags).used + n, flags)
  {
    var used := ReadUtf16(s, flags).used;
    if 0 < n <= |s[used..]| {
      hide ReadUtf16, LoneHighAt, IsHigh;
      HighBehind(s, used, n);
    }
  }

  lemma NothingEndsInNoHigh(s: seq<UTF16>, flags: ConversionFlags)
    ensures EndsInNoHighButLone(s, 0, flags)
  {}

  /** A call consumes a high surrogate last only if it is a lone one, and only in lenient mode. */
  lemma {:induction false} ConsumedHighIsLone<T>(
    step: seq<UTF16> -> Step<T>, most: nat, write: UTF32 -> seq<T>, s: seq<UTF16>, room: nat, flags: ConversionFlags)
    requires Valid(step, most) && FromUtf16(step, write, flags)
    ensures EndsInNoHighButLone(s, Run(step, most, s, room).consumed, flags)
    decreases |s|
  {
    hide FromUtf16, EndsInNoHighButLone;
    if s != [] && step(s).need <= room && step(s).Emit? {
      var used, left := step(s).used, room - |step(s).out|;
      assert used <= |s| && left >= 0;
      ConsumedHighIsLone(step, most, write, s[used..], left, flags);
      EmitFirst(step, most, s, room);
      hide Run, Valid;
      StepFromUtf16(step, write, s, flags);
      FirstEndsInNoHighButLone(s, Run(step, most, s[used..], left).consumed, flags);
    } else {
      assert Run(step, most, s, room).consumed == 0;
      NothingEndsInNoHigh(s, flags);
    }
  }

  /** What a call consumed converts alone if and only if it does not end in a high surrogate. */
  lemma {:induction false} AloneUnlessHigh<T>(
    step: seq<UTF16> -> Step<T>, most: nat, write: UTF32 -> seq<T>, s: seq<UTF16>, room: nat, flags: ConversionFlags)
    requires Valid(step, most) && FromUtf16(step, write, flags)
    ensures var n := Run(step, most, s, room).consumed;
            n <= |s| && (ConvertsAlone(step, most, s, room) <==> n == 0 || !IsHigh(s[n - 1]))
    decreases |s|
  {
    hide FromUtf16, ConvertsAlone;
    RunBounds(step, most, s, room);
    if s == [] || step(s).need > room || step(s).Stop? {
      NothingConvertsAlone(step, most, s, room);
    } else {
      var used, left := step(s).used, room - |step(s).out|;
      AloneUnlessHigh(step, most, write, s[used..], left, flags);
      AloneAfterFirst(step, most, write, s, room, flags);
    }
  }

  /** The same, given that it is so behind the first character. */
  lemma AloneAfterFirst<T>(
    step: seq<UTF16> -> Step<T>, most: nat, write: UTF32 -> seq<T>, s: seq<UTF16>, room: nat, flags: ConversionFlags)
    requires Valid(step, most) && FromUtf16(step, write, flags)
    requires s != [] && step(s).Emit? && step(s).need <= room && step(s).used <= |s| && |step(s).out| <= room
    requires var rest, left := s[step(s).used..], room - |step(s).out|;
             var n := Run(step, most, rest, left).consumed;
             n <= |rest| && (ConvertsAlone(step, most, rest, left) <==> n == 0 || !IsHigh(rest[n - 1]))
    requires Run(step, most, s, room).consumed <= |s|
    ensures var n := Run(step, most, s, room).consumed;
            ConvertsAlone(step, most, s, room) <==> n == 0 || !IsHigh(s[n - 1])
  {
    hide FromUtf16;
    EmitFirst(step, most, s, room);
    StepFromUtf16(step, write, s, flags);
    var n := Run(step, most, s, room).consumed;
    StepFromUtf16(step, write, s[..n], flags);
    ReadUtf16Local(s, n, flags);
    if n == 1 && IsHigh(s[0]) {
      assert step(s[..1]) == Stop(0, SourceExhausted);
      assert Whole(step, most, s[..1]).consumed == 0;
    } else {
      assert step(s[..n]) == step(s);
      hide Run, Whole, ReadUtf16, Utf16Step, ConvertsAlone, Valid;
      ConvertsAloneAfter(step, most, s, room);
    }
  }

  /** In lenient mode only a high surrogate at the very end is left. */
  lemma {:induction false} LenientConsumes<T>(
    step: seq<UTF16> -> Step<T>, most: nat, write: UTF32 -> seq<T>, s: seq<UTF16>)
    requires Valid(step, most) && FromUtf16(step, write, LenientConversion)
    ensures Whole(step, most, s).consumed == if s != [] && IsHigh(s[|s| - 1]) then |s| - 1 else |s|
    decreases |s|
  {
    if s != [] && step(s).Emit? {
      LenientConsumes(step, most, write, s[step(s).used..]);
    }
  }

  /** The target room with which a call consumes the source up to unit `i`. */
  ghost function RoomUpTo<T>(write: UTF32 -> seq<T>, s: seq<UTF16>, i: nat): nat
    requires LoneHighAt(s, i)
    decreases i
  {
    var reading := ReadUtf16(s, LenientConversion);
    |write(reading.ch)| + if i == 0 then 0 else RoomUpTo(write, s[reading.used..], i - reading.used)
  }

  lemma NoRoomNothingConsumed<T>(
    step: seq<UTF16> -> Step<T>, most: nat, write: UTF32 -> seq<T>, s: seq<UTF16>)
    requires Valid(step, most) && FromUtf16(step, write, LenientConversion)
    ensures Run(step, most, s, 0).consumed == 0
  {}

  lemma {:induction false} RoomUpToSuffices<T>(
    step: seq<UTF16> -> Step<T>, most: nat, write: UTF32 -> seq<T>, s: seq<UTF16>, i: nat)
    requires Valid(step, most) && FromUtf16(step, write, LenientConversion) && LoneHighAt(s, i)
    ensures Run(step, most, s, RoomUpTo(write, s, i)).consumed == i + 1
    decreases i
  {
    RoomUpToNext(write, s, i);
    assert ValidStep(step(s), |s|, most);
    hide Run, Whole, FromUtf16, Valid, ReadUtf16, LoneHighAt, RoomUpTo;
    StepFromUtf16(step, write, s, LenientConversion);
    var used := ReadUtf16(s, LenientConversion).used;
    if i == 0 {
      NoRoomNothingConsumed(step, most, write, s[1..]);
    } else {
      RoomUpToSuffices(step, most, write, s[used..], i - used);
    }
    EmitFirst(step, most, s, RoomUpTo(write, s, i));
  }

  lemma RoomUpToNext<T>(write: UTF32 -> seq<T>, s: seq<UTF16>, i: nat)
    requires LoneHighAt(s, i)
    ensures s != [] && ReadUtf16(s, LenientConversion).Character?
    ensures var Character(used, ch) := ReadUtf16(s, LenientConversion);
            && used <= |s| && (i == 0 ==> used == 1 && RoomUpTo(write, s, i) == |write(ch)|)
            && (i > 0 ==>
                  && 0 < used <= i && LoneHighAt(s[used..], i - used)
                  && RoomUpTo(write, s, i) == |write(ch)| + RoomUpTo(write, s[used..], i - used))
  {}

  /**
    Every call's consumed part converts alone if and only if the mode is strict or no high surrogate
    in the source is followed by something else than a low one.
   */
  lemma AloneInEveryRoom<T>(
    step: seq<UTF16> -> Step<T>, most: nat, write: UTF32 -> seq<T>, s: seq<UTF16>, flags: ConversionFlags)
    requires Valid(step, most) && FromUtf16(step, write, flags)
    ensures (forall room: nat :: ConvertsAlone(step, most, s, room))
       <==> flags.StrictConversion? || forall i: nat :: !LoneHighAt(s, i)
  {
    forall room: nat
      ensures !ConvertsAlone(step, most, s, room) ==> flags.LenientConversion? && exists i: nat :: LoneHighAt(s, i)
    {
      AloneUnlessHigh(step, most, write, s, room, flags);
      ConsumedHighIsLone(step, most, write, s, room, flags);
    }
    if i: nat :| flags.LenientConversion? && LoneHighAt(s, i) {
      RoomUpToSuffices(step, most, write, s, i);
      AloneUnlessHigh(step, most, write, s, RoomUpTo(write, s, i), flags);
      assert !ConvertsAlone(step, most, s, RoomUpTo(write, s, i));
    }
  }

  function AsUtf32(ch: UTF32): seq<UTF32> { [ch] }

  lemma Utf16Steps(flags: ConversionFlags)
    ensures Valid(Utf16ToUtf32(flags), 1) && FromUtf16(Utf16ToUtf32(flags), AsUtf32, flags)
    ensures Valid(Utf16ToUtf8(flags), 4) && FromUtf16(Utf16ToUtf8(flags), Utf8, flags)
  {}

  predicate EndsInTwoHighs(s: seq<UTF16>) {
    |s| >= 2 && IsHigh(s[|s| - 1]) && IsHigh(s[|s| - 2])
  }

  /**
    The consumed part of a UTF-16 source.  In strict mode it converts alone after every call; in
    lenient mode exactly if it does not end in a high surrogate.
   */
  lemma ConsumedUtf16ConvertsAlone(s: seq<UTF16>, room: nat, flags: ConversionFlags)
    ensures Valid(Utf16ToUtf32(flags), 1) && Valid(Utf16ToUtf8(flags), 4)
    ensures flags.StrictConversion? ==>
              ConvertsAlone(Utf16ToUtf32(flags), 1, s, room) && ConvertsAlone(Utf16ToUtf8(flags), 4, s, room)
    ensures var n := Run(Utf16ToUtf32(flags), 1, s, room).consumed;
            n <= |s| && (ConvertsAlone(Utf16ToUtf32(flags), 1, s, room) <==> n == 0 || !IsHigh(s[n - 1]))
    ensures var n := Run(Utf16ToUtf8(flags), 4, s, room).consumed;
            n <= |s| && (ConvertsAlone(Utf16ToUtf8(flags), 4, s, room) <==> n == 0 || !IsHigh(s[n - 1]))
  {
    hide Run, Valid, ConvertsAlone, Utf16ToUtf32, Utf16ToUtf8, FromUtf16;
    Utf16Steps(flags);
    AloneUnlessHigh(Utf16ToUtf32(flags), 1, AsUtf32, s, room, flags);
    AloneUnlessHigh(Utf16ToUtf8(flags), 4, Utf8, s, room, flags);
    ConsumedHighIsLone(Utf16ToUtf32(flags), 1, AsUtf32, s, room, flags);
    ConsumedHighIsLone(Utf16ToUtf8(flags), 4, Utf8, s, room, flags);
  }

  /** Whatever the room: exactly if the mode is strict or no high surrogate is lone, the last unit apart. */
  lemma ConsumedUtf16AloneInEveryRoom(s: seq<UTF16>, flags: ConversionFlags)
    ensures Valid(Utf16ToUtf32(flags), 1) && Valid(Utf16ToUtf8(flags), 4)
    ensures (forall room: nat :: ConvertsAlone(Utf16ToUtf32(flags), 1, s, room))
       <==> flags.StrictConversion? || forall i: nat :: !LoneHighAt(s, i)
    ensures (forall room: nat :: ConvertsAlone(Utf16ToUtf8(flags), 4, s, room))
       <==> flags.StrictConversion? || forall i: nat :: !LoneHighAt(s, i)
  {
    hide Run, Valid, ConvertsAlone, Utf16ToUtf32, Utf16ToUtf8, FromUtf16;
    Utf16Steps(flags);
    AloneInEveryRoom(Utf16ToUtf32(flags), 1, AsUtf32, s, flags);
    AloneInEveryRoom(Utf16ToUtf8(flags), 4, Utf8, s, flags);
  }

  /** With room for the whole conversion: exactly if the mode is strict or the source does not end in two highs. */
  lemma ConsumedUtf16AloneWithRoom(s: seq<UTF16>, room8: nat, room32: nat, flags: ConversionFlags)
    requires 3 * |s| <= room8 && |s| <= room32
    ensures Valid(Utf16ToUtf32(flags), 1) && Valid(Utf16ToUtf8(flags), 4)
    ensures ConvertsAlone(Utf16ToUtf32(flags), 1, s, room32) <==> flags.StrictConversion? || !EndsInTwoHighs(s)
    ensures ConvertsAlone(Utf16ToUtf8(flags), 4, s, room8) <==> flags.StrictConversion? || !EndsInTwoHighs(s)
  {
    hide Run, Whole, Valid, ConvertsAlone, Utf16ToUtf32, Utf16ToUtf8, FromUtf16;
    Utf16Steps(flags);
    RoomForUtf16(s, room8, room32, flags);
    ConsumedUtf16ConvertsAlone(s, room32, flags);
    ConsumedUtf16ConvertsAlone(s, room8, flags);
    if flags.LenientConversion? {
      LenientConsumes(Utf16ToUtf32(flags), 1, AsUtf32, s);
      LenientConsumes(Utf16ToUtf8(flags), 4, Utf8, s);
    }
  }

  /** Two high surrogates, in lenient mode: the first is converted, but not when it is alone. */
  lemma LoneHighConvertsOnlyInCompany()
    ensures var step := Utf16ToUtf32(LenientConversion);
            && Valid(step, 1)
            && Run(step, 1, [0xD800, 0xD800], 2) == Trace(1, [0xD800], SourceExhausted, false)
            && Whole(step, 1, [0xD800]) == Trace(0, [], SourceExhausted, false)
            && !ConvertsAlone(step, 1, [0xD800, 0xD800], 2)
  {
    Utf16Steps(LenientConversion);
    var s: seq<UTF16> := [0xD800, 0xD800];
    assert s[1..] == [0xD800] && s[..1] == [0xD800];
    assert Run(Utf16ToUtf32(LenientConversion), 1, [0xD800], 1) == Trace(0, [], SourceExhausted, false);
  }
}
