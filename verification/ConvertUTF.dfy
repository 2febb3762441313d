/**
  The six buffer converters, the legality test and the UTF-8 bit packing of ConvertUTF.c.  A
  source buffer is only read: it is a sequence whose end is `sourceEnd`.  A target buffer is an
  array written in place.  Pointers are indices.  The body of each converter's loop is a method of
  its own, `Turn...`, whose result `more` is false where the C code breaks out of the loop.
 */
module ConvertUTF {
  import opened Conversion
  import opened Encodings
  import opened Utf8Reading
  import opened ConverterSteps

  const WORD: int := 0x1_0000_0000

  /** Buffer `before` after the units `out` have been written from index `start` on. */
  function Written<T>(before: seq<T>, start: nat, out: seq<T>): (after: seq<T>)
    requires start + |out| <= |before|
    ensures |after| == |before|
  {
    before[..start] + out + before[start + |out|..]
  }

  lemma WrittenNext<T>(before: seq<T>, start: nat, out: seq<T>, next: seq<T>)
    requires start + |out| + |next| <= |before|
    ensures Written(Written(before, start, out), start + |out|, next)
         == Written(before, start, out + next)
  {}

  /** The variables of a converter: the two moving pointers and the result so far. */
  datatype Cursor = Cursor(src: nat, tgt: nat, result: ConversionResult)

  /**
    One turn of a converter's loop, from cursor `c` and buffer `before` to `c'` and `after`, did
    what `step` says with `room` free target units; `more` unless it left the loop.
   */
  ghost predicate Turned<T>(step: Step<T>, room: nat, c: Cursor, before: seq<T>,
                            more: bool, c': Cursor, after: seq<T>)
  {
    if step.need > room then
      !more && c' == c.(result := TargetExhausted) && after == before
    else
      match step
      case Stop(_, code) => !more && c' == c.(result := code) && after == before
      case Emit(_, used, out, illegal) =>
        && more
        && c' == Cursor(c.src + used, c.tgt + |out|, if illegal then SourceIllegal else c.result)
        && c.tgt + |out| <= |before|
        && after == Written(before, c.tgt, out)
  }

  // ------------------------------------------------------------------------------------------
  // The loop that the converters share

  /** The loop's invariant: of the call `all`, a part is done and the rest is a call from `c`. */
  ghost predicate Going<S(!new), T>(
    step: seq<S> -> Step<T>, most: nat, all: Trace<T>, start: Cursor, before: seq<T>,
    source: seq<S>, limit: nat, c: Cursor, now: seq<T>)
  {
    && Valid(step, most)
    && start.src <= c.src <= |source| && start.tgt <= c.tgt <= limit <= |before| == |now|
    && now == Written(before, start.tgt, now[start.tgt..c.tgt])
    && (c.result == ConversionOK || c.result == SourceIllegal)
    && var rest := Run(step, most, source[c.src..], limit - c.tgt);
       && all.consumed == c.src - start.src + rest.consumed
       && all.out == now[start.tgt..c.tgt] + rest.out
       && all.stop == rest.stop
       && all.marked == (c.result == SourceIllegal || rest.marked)
  }

  /** A call that started at `start` with buffer `before` and has done all of `all`. */
  ghost predicate Finished<T>(
    all: Trace<T>, start: Cursor, before: seq<T>, c: Cursor, after: seq<T>)
  {
    && c == Cursor(start.src + all.consumed, start.tgt + |all.out|, all.Code())
    && start.tgt + |all.out| <= |before|
    && after == Written(before, start.tgt, all.out)
  }

  lemma StartsGoing<S(!new), T>(
    step: seq<S> -> Step<T>, most: nat, start: Cursor, before: seq<T>, source: seq<S>, limit: nat)
    requires Valid(step, most) && start.result == ConversionOK
    requires start.src <= |source| && start.tgt <= limit <= |before|
    ensures Going(step, most, Run(step, most, source[start.src..], limit - start.tgt),
                  start, before, source, limit, start, before)
  {
    var rest := Run(step, most, source[start.src..], limit - start.tgt);
    assert [] + rest.out == rest.out;
  }

  lemma EndsFinished<S(!new), T>(
    step: seq<S> -> Step<T>, most: nat, all: Trace<T>, start: Cursor, before: seq<T>,
    source: seq<S>, limit: nat, c: Cursor, now: seq<T>)
    requires Going(step, most, all, start, before, source, limit, c, now) && c.src == |source|
    ensures Finished(all, start, before, c, now)
  {
    assert source[c.src..] == [];
  }

  lemma TurnKeepsGoing<S(!new), T>(
    step: seq<S> -> Step<T>, most: nat, all: Trace<T>, start: Cursor, before: seq<T>,
    source: seq<S>, limit: nat, c: Cursor, now: seq<T>, more: bool, c': Cursor, next: seq<T>)
    requires Going(step, most, all, start, before, source, limit, c, now) && c.src < |source|
    requires Turned(step(source[c.src..]), limit - c.tgt, c, now, more, c', next)
    ensures if more
            then Going(step, most, all, start, before, source, limit, c', next) && c.src < c'.src
            else Finished(all, start, before, c', next)
  {
    var s, out := source[c.src..], now[start.tgt..c.tgt];
    assert ValidStep(step(s), |s|, most);
    if more {
      var at := step(s);
      var rest := Run(step, most, s[at.used..], limit - c.tgt - |at.out|);
      assert source[c'.src..] == s[at.used..];
      WrittenNext(before, start.tgt, out, at.out);
      assert next[start.tgt..c'.tgt] == out + at.out;
      assert (out + at.out) + rest.out == out + (at.out + rest.out);
    } else {
      assert out + [] == out;
    }
  }

  // ------------------------------------------------------------------------------------------
  // Writing

  /** `*target++ = x` */
  method Put<T>(target: array<T>, tgt: nat, x: T) returns (next: nat)
    requires tgt < target.Length
    modifies target
    ensures next == tgt + 1 && target[..] == Written(old(target[..]), tgt, [x])
  {
    target[tgt] := x;
    next := tgt + 1;
  }

  /** Writing a value beyond the BMP as two surrogates. */
  method PutPair(target: array<UTF16>, tgt: nat, value: UTF32) returns (next: nat)
    requires UNI_MAX_BMP < value <= UNI_MAX_UTF16 && tgt + 1 < target.Length
    modifies target
    ensures next == tgt + 2 && target[..] == Written(old(target[..]), tgt, Utf16(value))
  {
    ghost var before := target[..];
    var ch := value - 0x1_0000;
    next := Put(target, tgt, ch / 0x400 + UNI_SUR_HIGH_START);
    next := Put(target, next, ch % 0x400 + UNI_SUR_LOW_START);
    WrittenNext(before, tgt, [ch / 0x400 + UNI_SUR_HIGH_START], [ch % 0x400 + UNI_SUR_LOW_START]);
  }

  /** `*--target = x`, in front of the units `out` that are already written into `before`. */
  method PutInFront<T>(target: array<T>, tgt: nat, x: T, ghost before: seq<T>, ghost out: seq<T>)
    returns (next: nat)
    requires 0 < tgt && tgt + |out| <= target.Length == |before|
    requires target[..] == Written(before, tgt, out)
    modifies target
    ensures next == tgt - 1 && target[..] == Written(before, next, [x] + out)
  {
    next := tgt - 1;
    target[next] := x;
  }

  /** `firstByteMark` */
  function FirstByteMark(bytes: nat): UTF8
    requires 1 <= bytes <= 4
  {
    match bytes
    case 1 => 0x00
    case 2 => 0xC0
    case 3 => 0xE0
    case 4 => 0xF0
  }

  /** The last `n` bytes of the UTF-8 of `ch`, for `n` less than its length. */
  function LastBytes(ch: UTF32, n: nat): (s: seq<UTF8>)
    ensures |s| == n
  {
    if n == 0 then [] else LastBytes(ch / 64, n - 1) + [0x80 + ch % 64]
  }

  /** What is left of `ch` after `n` shifts by six bits. */
  function Shifted(ch: UTF32, n: nat): UTF32 {
    if n == 0 then ch else Shifted(ch / 64, n - 1)
  }

  lemma {:induction false} LastBytesInFront(ch: UTF32, n: nat)
    ensures LastBytes(ch, n + 1) == [0x80 + Shifted(ch, n) % 64] + LastBytes(ch, n)
    ensures Shifted(ch, n + 1) == Shifted(ch, n) / 64
  {
    if n > 0 {
      LastBytesInFront(ch / 64, n - 1);
    }
  }

  lemma Utf8IsLastBytes(ch: UTF32)
    requires ch <= UNI_MAX_LEGAL_UTF32
    ensures var n := Utf8Length(ch) - 1;
            Utf8(ch) == [(Shifted(ch, n) + FirstByteMark(n + 1)) % 0x100] + LastBytes(ch, n)
  {
    var n := Utf8Length(ch) - 1;
    LastBytesInFront(ch, 0);
    LastBytesInFront(ch, 1);
    LastBytesInFront(ch, 2);
  }

  /** The last `n` bytes of the UTF-8 of `value` have been written from index `tgt` on. */
  ghost predicate HasTrailing(now: seq<UTF8>, before: seq<UTF8>, value: UTF32, n: nat, tgt: int, ch: UTF32) {
    0 <= tgt && tgt + n <= |before| && now == Written(before, tgt, LastBytes(value, n)) && ch == Shifted(value, n)
  }

  function Beyond(bytes: nat, number: int): nat { if bytes <= number then 0 else bytes - number }

  /**
    The writing switch, in which every case falls through to the next: it fills the `bytes` units
    before `end` from the last one back to the first.
   */
  method WriteSwitch(value: UTF32, bytes: nat, target: array<UTF8>, end: nat)
    requires value <= UNI_MAX_LEGAL_UTF32 && bytes == Utf8Length(value)
    requires bytes <= end <= target.Length
    modifies target
    ensures target[..] == Written(old(target[..]), end - bytes, Utf8(value))
  {
    ghost var before := target[..];
    var ch, tgt := value, end;
    assert HasTrailing(target[..], before, value, 0, tgt, ch);
    hide HasTrailing, Written, LastBytes, Utf8, Shifted, Utf8Length;
    tgt, ch := PutCase(4, bytes, target, tgt, ch, before, value);
    tgt, ch := PutCase(3, bytes, target, tgt, ch, before, value);
    tgt, ch := PutCase(2, bytes, target, tgt, ch, before, value);
    PutFirst(target, tgt, ch, before, value, bytes);
  }

  /** The last case of the writing switch. */
  method PutFirst(target: array<UTF8>, tgt: nat, ch: UTF32,
                  ghost before: seq<UTF8>, ghost value: UTF32, bytes: nat)
    requires value <= UNI_MAX_LEGAL_UTF32 && bytes == Utf8Length(value)
    requires 0 < tgt && tgt + bytes - 1 <= target.Length == |before|
    requires HasTrailing(target[..], before, value, bytes - 1, tgt, ch)
    modifies target
    ensures target[..] == Written(before, tgt - 1, Utf8(value))
  {
    Utf8IsLastBytes(value);
    var first := PutInFront(target, tgt, (ch + FirstByteMark(bytes)) % 0x100, before,
                            LastBytes(value, bytes - 1));
  }

  /** One case of the writing switch but the last; it is entered for `number` bytes or more. */
  method PutCase(number: nat, bytes: nat, target: array<UTF8>, tgt: nat, ch: UTF32,
                 ghost before: seq<UTF8>, ghost value: UTF32)
    returns (next: nat, ch': UTF32)
    requires 2 <= number && (number <= bytes ==> 0 < tgt)
    requires target.Length == |before| && HasTrailing(target[..], before, value, Beyond(bytes, number), tgt, ch)
    modifies target
    ensures next == if number <= bytes then tgt - 1 else tgt
    ensures HasTrailing(target[..], before, value, Beyond(bytes, number - 1), next, ch')
  {
    if bytes >= number {
      next, ch' := PutTrailing(target, tgt, ch, before, value, bytes - number);
    } else {
      next, ch' := tgt, ch;
    }
  }

  /** One case of the writing switch but the last: `*--target = (ch | mark) & mask; ch >>= 6;` */
  method PutTrailing(target: array<UTF8>, tgt: nat, ch: UTF32,
                     ghost before: seq<UTF8>, ghost value: UTF32, ghost n: nat)
    returns (next: nat, ch': UTF32)
    requires 0 < tgt && tgt + n <= target.Length == |before|
    requires HasTrailing(target[..], before, value, n, tgt, ch)
    modifies target
    ensures next == tgt - 1 && HasTrailing(target[..], before, value, n + 1, next, ch')
  {
    LastBytesInFront(value, n);
    next := PutInFront(target, tgt, 0x80 + ch % 64, before, LastBytes(value, n));
    ch' := ch / 64;
  }

  /** The loop that the writing switch is unrolled from: it has the same effect. */
  method WriteLoop(value: UTF32, bytes: nat, target: array<UTF8>, end: nat)
    requires value <= UNI_MAX_LEGAL_UTF32 && bytes == Utf8Length(value)
    requires bytes <= end <= target.Length
    modifies target
    ensures target[..] == Written(old(target[..]), end - bytes, Utf8(value))
  {
    ghost var before := target[..];
    var ch, tgt, left := value, end, bytes;
    assert target[..] == Written(before, end, []);
    while left > 1
      invariant 1 <= left <= bytes && tgt == end - (bytes - left)
      invariant HasTrailing(target[..], before, value, bytes - left, tgt, ch)
    {
      tgt, ch := PutTrailing(target, tgt, ch, before, value, bytes - left);
      left := left - 1;
    }
    PutFirst(target, tgt, ch, before, value, bytes);
  }

  // ------------------------------------------------------------------------------------------
  // Reading

  lemma AccumulateNext(source: seq<UTF8>, start: nat, src: nat)
    requires start <= src < |source|
    ensures Accumulate(source[start..src + 1])
         == (Accumulate(source[start..src]) * 64 % WORD + source[src]) % WORD
  {
    var s := source[start..src + 1];
    assert s[..|s| - 1] == source[start..src];
    ShiftThenAdd(Accumulate(source[start..src]) * 64, source[src]);
  }

  /** One case of the reading switch but the last: `ch += *source++; ch <<= 6;` */
  method ReadAndShift(source: seq<UTF8>, ghost start: nat, src: nat, ch: UTF32)
    returns (next: nat, ch': UTF32)
    requires start <= src < |source| && ch == Accumulate(source[start..src]) * 64 % WORD
    ensures next == src + 1 && ch' == Accumulate(source[start..next]) * 64 % WORD
  {
    AccumulateNext(source, start, src);
    ch' := (ch + source[src]) % WORD;
    next := src + 1;
    ch' := ch' * 64 % WORD;
  }

  /** The reading switch, in which every case falls through to the next. */
  method ReadSwitch(source: seq<UTF8>, start: nat, extra: nat) returns (src: nat, ch: UTF32)
    requires extra <= 5 && start + extra < |source|
    ensures src == start + extra + 1 && ch == Accumulate(source[start..src])
  {
    src, ch := start, 0;
    if extra >= 5 { src, ch := ReadAndShift(source, start, src, ch); }
    if extra >= 4 { src, ch := ReadAndShift(source, start, src, ch); }
    if extra >= 3 { src, ch := ReadAndShift(source, start, src, ch); }
    if extra >= 2 { src, ch := ReadAndShift(source, start, src, ch); }
    if extra >= 1 { src, ch := ReadAndShift(source, start, src, ch); }
    AccumulateNext(source, start, src);
    ch := (ch + source[src]) % WORD;
    src := src + 1;
  }

  /** The loop of Note A, which the switch is unrolled from: it has the same result. */
  method ReadLoop(source: seq<UTF8>, start: nat, extra: nat) returns (src: nat, ch: UTF32)
    requires extra <= 5 && start + extra < |source|
    ensures src == start + extra + 1 && ch == Accumulate(source[start..src])
  {
    src, ch := start, 0;
    var tmpBytesToRead := extra + 1;
    while tmpBytesToRead > 0
      invariant 0 <= tmpBytesToRead <= extra + 1 && src == start + (extra + 1 - tmpBytesToRead)
      invariant ch == if tmpBytesToRead > 0 then Accumulate(source[start..src]) * 64 % WORD
                      else Accumulate(source[start..src])
    {
      AccumulateNext(source, start, src);
      ch := (ch + source[src]) % WORD;
      src := src + 1;
      tmpBytesToRead := tmpBytesToRead - 1;
      if tmpBytesToRead > 0 {
        ch := ch * 64 % WORD;
      }
    }
  }

  /** The legality test; as its comment demands, `length` is the one that the first byte announces. */
  method IsLegalUTF8(source: seq<UTF8>, at: nat, length: nat) returns (legal: bool)
    requires at + length <= |source| && 0 < length && length == TrailingBytes(source[at]) + 1
    ensures legal <==> Legal(source[at..at + length])
  {
    if length > 4 {
      return false;
    }
    var srcptr := at + length;
    var a: UTF8;
    if length >= 4 {
      srcptr := srcptr - 1;
      a := source[srcptr];
      if a < 0x80 || a > 0xBF { return false; }
    }
    if length >= 3 {
      srcptr := srcptr - 1;
      a := source[srcptr];
      if a < 0x80 || a > 0xBF { return false; }
    }
    if length >= 2 {
      srcptr := srcptr - 1;
      a := source[srcptr];
      if a > 0xBF { return false; }
      if source[at] == 0xE0 {
        if a < 0xA0 { return false; }
      } else if source[at] == 0xED {
        if a > 0x9F { return false; }
      } else if source[at] == 0xF0 {
        if a < 0x90 { return false; }
      } else if source[at] == 0xF4 {
        if a > 0x8F { return false; }
      } else {
        if a < 0x80 { return false; }
      }
    }
    if source[at] >= 0x80 && source[at] < 0xC2 {
      return false;
    }
    if source[at] > 0xF4 {
      return false;
    }
    return true;
  }

  /** Whether the bytes from `at` to the end of the source start with a legal sequence. */
  method IsLegalUTF8Sequence(source: seq<UTF8>, at: nat) returns (legal: bool)
    requires at < |source|
    ensures legal <==> ReadUtf8(source[at..]).Character?
  {
    var length := TrailingBytes(source[at]) + 1;
    if at + length > |source| {
      return false;
    }
    legal := IsLegalUTF8(source, at, length);
    assert source[at..][..length] == source[at..at + length];
  }

  // ------------------------------------------------------------------------------------------
  // One turn of each converter

  method TurnUTF32toUTF16(source: seq<UTF32>, target: array<UTF16>, targetEnd: nat,
                          flags: ConversionFlags, c: Cursor)
    returns (more: bool, c': Cursor)
    requires c.src < |source| && c.tgt <= targetEnd <= target.Length
    modifies target
    ensures Turned(UTF32toUTF16(source[c.src..], flags), targetEnd - c.tgt,
                   c, old(target[..]), more, c', target[..])
  {
    var src, tgt := c.src, c.tgt;
    if tgt >= targetEnd {
      return false, Cursor(src, tgt, TargetExhausted);
    }
    var ch: UTF32 := source[src];
    src := src + 1;
    if ch <= UNI_MAX_BMP {
      if ch >= UNI_SUR_HIGH_START && ch <= UNI_SUR_LOW_END {
        if flags == StrictConversion {
          src := src - 1;
          return false, Cursor(src, tgt, SourceIllegal);
        } else {
          tgt := Put(target, tgt, UNI_REPLACEMENT_CHAR);
        }
      } else {
        tgt := Put(target, tgt, ch);
      }
    } else if ch > UNI_MAX_LEGAL_UTF32 {
      if flags == StrictConversion {
        assert target[..] == Written(target[..], c.tgt, []);
        return true, Cursor(src, tgt, SourceIllegal);
      } else {
        tgt := Put(target, tgt, UNI_REPLACEMENT_CHAR);
      }
    } else {
      if tgt + 1 >= targetEnd {
        src := src - 1;
        return false, Cursor(src, tgt, TargetExhausted);
      }
      tgt := PutPair(target, tgt, ch);
    }
    return true, Cursor(src, tgt, c.result);
  }

  /** The part of a turn that reads UTF-16: one unit, or a pair of surrogates. */
  method ReadSurrogatesUTF16(source: seq<UTF16>, at: nat, flags: ConversionFlags)
    returns (src: nat, ch: UTF32, code: ConversionResult)
    requires at < |source|
    ensures match ReadUtf16(source[at..], flags)
            case Fault(why) => code == why && src == at
            case Character(used, value) => code == ConversionOK && src == at + used && ch == value
  {
    src := at;
    ch := source[src];
    src := src + 1;
    if ch >= UNI_SUR_HIGH_START && ch <= UNI_SUR_HIGH_END {
      if src < |source| {
        var ch2: UTF32 := source[src];
        if ch2 >= UNI_SUR_LOW_START && ch2 <= UNI_SUR_LOW_END {
          ch := (ch - UNI_SUR_HIGH_START) * 0x400 + (ch2 - UNI_SUR_LOW_START) + 0x1_0000;
          src := src + 1;
        } else if flags == StrictConversion {
          src := src - 1;
          return src, ch, SourceIllegal;
        }
      } else {
        src := src - 1;
        return src, ch, SourceExhausted;
      }
    } else if flags == StrictConversion {
      if ch >= UNI_SUR_LOW_START && ch <= UNI_SUR_LOW_END {
        src := src - 1;
        return src, ch, SourceIllegal;
      }
    }
    code := ConversionOK;
  }

  method TurnUTF16toUTF32(source: seq<UTF16>, target: array<UTF32>, targetEnd: nat,
                          flags: ConversionFlags, c: Cursor)
    returns (more: bool, c': Cursor)
    requires c.src < |source| && c.tgt <= targetEnd <= target.Length
    modifies target
    ensures Turned(UTF16toUTF32(source[c.src..], flags), targetEnd - c.tgt,
                   c, old(target[..]), more, c', target[..])
  {
    var src, ch, code := ReadSurrogatesUTF16(source, c.src, flags);
    if !code.ConversionOK? {
      return false, Cursor(src, c.tgt, code);
    }
    if c.tgt >= targetEnd {
      src := c.src;
      return false, Cursor(src, c.tgt, TargetExhausted);
    }
    var tgt := Put(target, c.tgt, ch);
    return true, Cursor(src, tgt, c.result);
  }

  method TurnUTF16toUTF8(source: seq<UTF16>, target: array<UTF8>, targetEnd: nat,
                          flags: ConversionFlags, c: Cursor)
    returns (more: bool, c': Cursor)
    requires c.src < |source| && c.tgt <= targetEnd <= target.Length
    modifies target
    ensures Turned(UTF16toUTF8(source[c.src..], flags), targetEnd - c.tgt,
                   c, old(target[..]), more, c', target[..])
  {
    var src, ch, code := ReadSurrogatesUTF16(source, c.src, flags);
    if !code.ConversionOK? {
      return false, Cursor(src, c.tgt, code);
    }
    var bytesToWrite: nat;
    if ch < 0x80 { bytesToWrite := 1; }
    else if ch < 0x800 { bytesToWrite := 2; }
    else if ch < 0x1_0000 { bytesToWrite := 3; }
    else if ch < 0x11_0000 { bytesToWrite := 4; }
    else {
      bytesToWrite := 3;
      ch := UNI_REPLACEMENT_CHAR;
    }
    var tgt := c.tgt + bytesToWrite;
    if tgt > targetEnd {
      src := c.src;
      tgt := tgt - bytesToWrite;
      return false, Cursor(src, tgt, TargetExhausted);
    }
    WriteSwitch(ch, bytesToWrite, target, tgt);
    return true, Cursor(src, tgt, c.result);
  }

  method TurnUTF32toUTF8(source: seq<UTF32>, target: array<UTF8>, targetEnd: nat,
                          flags: ConversionFlags, c: Cursor)
    returns (more: bool, c': Cursor)
    requires c.src < |source| && c.tgt <= targetEnd <= target.Length
    modifies target
    ensures Turned(UTF32toUTF8(source[c.src..], flags), targetEnd - c.tgt,
                   c, old(target[..]), more, c', target[..])
  {
    var src, result := c.src, c.result;
    var ch: UTF32 := source[src];
    assert ch > UNI_MAX_LEGAL_UTF32 ==> Utf8(ch) == Utf8(UNI_REPLACEMENT_CHAR);
    hide Written, Utf8;
    src := src + 1;
    if flags == StrictConversion {
      if ch >= UNI_SUR_HIGH_START && ch <= UNI_SUR_LOW_END {
        src := src - 1;
        return false, Cursor(src, c.tgt, SourceIllegal);
      }
    }
    var bytesToWrite: nat;
    if ch < 0x80 { bytesToWrite := 1; }
    else if ch < 0x800 { bytesToWrite := 2; }
    else if ch < 0x1_0000 { bytesToWrite := 3; }
    else if ch <= UNI_MAX_LEGAL_UTF32 { bytesToWrite := 4; }
    else {
      bytesToWrite := 3;
      ch := UNI_REPLACEMENT_CHAR;
      result := SourceIllegal;
    }
    var tgt := c.tgt + bytesToWrite;
    if tgt > targetEnd {
      src := src - 1;
      tgt := tgt - bytesToWrite;
      return false, Cursor(src, tgt, TargetExhausted);
    }
    WriteSwitch(ch, bytesToWrite, target, tgt);
    return true, Cursor(src, tgt, result);
  }

  /** The part of a turn that reads UTF-8: length, bounds, legality, value. */
  method ReadLegalUTF8(source: seq<UTF8>, at: nat)
    returns (src: nat, ch: UTF32, code: ConversionResult)
    requires at < |source|
    ensures match ReadUtf8(source[at..])
            case Fault(why) => code == why && src == at
            case Character(used, value) => code == ConversionOK && src == at + used && ch == value
  {
    src, ch := at, 0;
    var extraBytesToRead := TrailingBytes(source[src]);
    if src + extraBytesToRead >= |source| {
      return src, ch, SourceExhausted;
    }
    assert source[at..][..extraBytesToRead + 1] == source[at..at + extraBytesToRead + 1];
    var legal := IsLegalUTF8(source, src, extraBytesToRead + 1);
    if !legal {
      return src, ch, SourceIllegal;
    }
    src, ch := ReadSwitch(source, src, extraBytesToRead);
    ch := (ch - Offset(extraBytesToRead)) % WORD;
    code := ConversionOK;
  }

  method TurnUTF8toUTF32(source: seq<UTF8>, target: array<UTF32>, targetEnd: nat,
                          flags: ConversionFlags, c: Cursor)
    returns (more: bool, c': Cursor)
    requires c.src < |source| && c.tgt <= targetEnd <= target.Length
    modifies target
    ensures Turned(UTF8toUTF32(source[c.src..], flags), targetEnd - c.tgt,
                   c, old(target[..]), more, c', target[..])
  {
    var src, ch, code := ReadLegalUTF8(source, c.src);
    if !code.ConversionOK? {
      return false, Cursor(src, c.tgt, code);
    }
    if c.tgt >= targetEnd {
      src := c.src;
      return false, Cursor(src, c.tgt, TargetExhausted);
    }
    var tgt, result := c.tgt, c.result;
    if ch <= UNI_MAX_LEGAL_UTF32 {
      if ch >= UNI_SUR_HIGH_START && ch <= UNI_SUR_LOW_END {
        if flags == StrictConversion {
          src := c.src;
          return false, Cursor(src, tgt, SourceIllegal);
        } else {
          tgt := Put(target, tgt, UNI_REPLACEMENT_CHAR);
        }
      } else {
        tgt := Put(target, tgt, ch);
      }
    } else {
      result := SourceIllegal;
      tgt := Put(target, tgt, UNI_REPLACEMENT_CHAR);
    }
    return true, Cursor(src, tgt, result);
  }

  method TurnUTF8toUTF16(source: seq<UTF8>, target: array<UTF16>, targetEnd: nat,
                          flags: ConversionFlags, c: Cursor)
    returns (more: bool, c': Cursor)
    requires c.src < |source| && c.tgt <= targetEnd <= target.Length
    modifies target
    ensures Turned(UTF8toUTF16(source[c.src..], flags), targetEnd - c.tgt,
                   c, old(target[..]), more, c', target[..])
  {
    var src, ch, code := ReadLegalUTF8(source, c.src);
    if !code.ConversionOK? {
      return false, Cursor(src, c.tgt, code);
    }
    if c.tgt >= targetEnd {
      src := c.src;
      return false, Cursor(src, c.tgt, TargetExhausted);
    }
    var tgt := c.tgt;
    if ch <= UNI_MAX_BMP {
      if ch >= UNI_SUR_HIGH_START && ch <= UNI_SUR_LOW_END {
        if flags == StrictConversion {
          src := c.src;
          return false, Cursor(src, tgt, SourceIllegal);
        } else {
          tgt := Put(target, tgt, UNI_REPLACEMENT_CHAR);
        }
      } else {
        tgt := Put(target, tgt, ch);
      }
    } else if ch > UNI_MAX_UTF16 {
      if flags == StrictConversion {
        src := c.src;
        return false, Cursor(src, tgt, SourceIllegal);
      } else {
        tgt := Put(target, tgt, UNI_REPLACEMENT_CHAR);
      }
    } else {
      if tgt + 1 >= targetEnd {
        src := c.src;
        return false, Cursor(src, tgt, TargetExhausted);
      }
      tgt := PutPair(target, tgt, ch);
    }
    return true, Cursor(src, tgt, c.result);
  }

  // ------------------------------------------------------------------------------------------
  // The converters

  method ConvertUTF32toUTF16(source: seq<UTF32>, sourceStart: nat,
                             target: array<UTF16>, targetStart: nat, targetEnd: nat,
                             flags: ConversionFlags)
    returns (c: Cursor)
    requires sourceStart <= |source| && targetStart <= targetEnd <= target.Length
    modifies target
    ensures Valid(Utf32ToUtf16(flags), 2)
    ensures Finished(Run(Utf32ToUtf16(flags), 2, source[sourceStart..], targetEnd - targetStart),
                     Cursor(sourceStart, targetStart, ConversionOK), old(target[..]), c, target[..])
  {
    Utf32ToUtf16Valid(flags);
    ghost var step, before := Utf32ToUtf16(flags), target[..];
    ghost var all := Run(step, 2, source[sourceStart..], targetEnd - targetStart);
    c := Cursor(sourceStart, targetStart, ConversionOK);
    ghost var start := c;
    StartsGoing(step, 2, start, before, source, targetEnd);
    var more := true;
    while c.src < |source|
      invariant Going(step, 2, all, start, before, source, targetEnd, c, target[..])
      decreases |source| - c.src
    {
      ghost var c0, now := c, target[..];
      more, c := TurnUTF32toUTF16(source, target, targetEnd, flags, c);
      TurnKeepsGoing(step, 2, all, start, before, source, targetEnd,
                     c0, now, more, c, target[..]);
      if !more {
        return;
      }
    }
    EndsFinished(step, 2, all, start, before, source, targetEnd, c, target[..]);
  }

  method ConvertUTF16toUTF32(source: seq<UTF16>, sourceStart: nat,
                             target: array<UTF32>, targetStart: nat, targetEnd: nat,
                             flags: ConversionFlags)
    returns (c: Cursor)
    requires sourceStart <= |source| && targetStart <= targetEnd <= target.Length
    modifies target
    ensures Valid(Utf16ToUtf32(flags), 1)
    ensures Finished(Run(Utf16ToUtf32(flags), 1, source[sourceStart..], targetEnd - targetStart),
                     Cursor(sourceStart, targetStart, ConversionOK), old(target[..]), c, target[..])
  {
    Utf16ToUtf32Valid(flags);
    ghost var step, before := Utf16ToUtf32(flags), target[..];
    ghost var all := Run(step, 1, source[sourceStart..], targetEnd - targetStart);
    c := Cursor(sourceStart, targetStart, ConversionOK);
    ghost var start := c;
    StartsGoing(step, 1, start, before, source, targetEnd);
    var more := true;
    while c.src < |source|
      invariant Going(step, 1, all, start, before, source, targetEnd, c, target[..])
      decreases |source| - c.src
    {
      ghost var c0, now := c, target[..];
      more, c := TurnUTF16toUTF32(source, target, targetEnd, flags, c);
      TurnKeepsGoing(step, 1, all, start, before, source, targetEnd,
                     c0, now, more, c, target[..]);
      if !more {
        return;
      }
    }
    EndsFinished(step, 1, all, start, before, source, targetEnd, c, target[..]);
  }

  method ConvertUTF16toUTF8(source: seq<UTF16>, sourceStart: nat,
                            target: array<UTF8>, targetStart: nat, targetEnd: nat,
                            flags: ConversionFlags)
    returns (c: Cursor)
    requires sourceStart <= |source| && targetStart <= targetEnd <= target.Length
    modifies target
    ensures Valid(Utf16ToUtf8(flags), 4)
    ensures Finished(Run(Utf16ToUtf8(flags), 4, source[sourceStart..], targetEnd - targetStart),
                     Cursor(sourceStart, targetStart, ConversionOK), old(target[..]), c, target[..])
  {
    Utf16ToUtf8Valid(flags);
    ghost var step, before := Utf16ToUtf8(flags), target[..];
    ghost var all := Run(step, 4, source[sourceStart..], targetEnd - targetStart);
    c := Cursor(sourceStart, targetStart, ConversionOK);
    ghost var start := c;
    StartsGoing(step, 4, start, before, source, targetEnd);
    var more := true;
    while c.src < |source|
      invariant Going(step, 4, all, start, before, source, targetEnd, c, target[..])
      decreases |source| - c.src
    {
      ghost var c0, now := c, target[..];
      more, c := TurnUTF16toUTF8(source, target, targetEnd, flags, c);
      TurnKeepsGoing(step, 4, all, start, before, source, targetEnd,
                     c0, now, more, c, target[..]);
      if !more {
        return;
      }
    }
    EndsFinished(step, 4, all, start, before, source, targetEnd, c, target[..]);
  }

  method ConvertUTF8toUTF16(source: seq<UTF8>, sourceStart: nat,
                            target: array<UTF16>, targetStart: nat, targetEnd: nat,
                            flags: ConversionFlags)
    returns (c: Cursor)
    requires sourceStart <= |source| && targetStart <= targetEnd <= target.Length
    modifies target
    ensures Valid(Utf8ToUtf16(flags), 2)
    ensures Finished(Run(Utf8ToUtf16(flags), 2, source[sourceStart..], targetEnd - targetStart),
                     Cursor(sourceStart, targetStart, ConversionOK), old(target[..]), c, target[..])
  {
    Utf8ToUtf16Valid(flags);
    ghost var step, before := Utf8ToUtf16(flags), target[..];
    ghost var all := Run(step, 2, source[sourceStart..], targetEnd - targetStart);
    c := Cursor(sourceStart, targetStart, ConversionOK);
    ghost var start := c;
    StartsGoing(step, 2, start, before, source, targetEnd);
    var more := true;
    while c.src < |source|
      invariant Going(step, 2, all, start, before, source, targetEnd, c, target[..])
      decreases |source| - c.src
    {
      ghost var c0, now := c, target[..];
      more, c := TurnUTF8toUTF16(source, target, targetEnd, flags, c);
      TurnKeepsGoing(step, 2, all, start, before, source, targetEnd,
                     c0, now, more, c, target[..]);
      if !more {
        return;
      }
    }
    EndsFinished(step, 2, all, start, before, source, targetEnd, c, target[..]);
  }

  method ConvertUTF32toUTF8(source: seq<UTF32>, sourceStart: nat,
                            target: array<UTF8>, targetStart: nat, targetEnd: nat,
                            flags: ConversionFlags)
    returns (c: Cursor)
    requires sourceStart <= |source| && targetStart <= targetEnd <= target.Length
    modifies target
    ensures Valid(Utf32ToUtf8(flags), 4)
    ensures Finished(Run(Utf32ToUtf8(flags), 4, source[sourceStart..], targetEnd - targetStart),
                     Cursor(sourceStart, targetStart, ConversionOK), old(target[..]), c, target[..])
  {
    Utf32ToUtf8Valid(flags);
    ghost var step, before := Utf32ToUtf8(flags), target[..];
    ghost var all := Run(step, 4, source[sourceStart..], targetEnd - targetStart);
    c := Cursor(sourceStart, targetStart, ConversionOK);
    ghost var start := c;
    StartsGoing(step, 4, start, before, source, targetEnd);
    var more := true;
    while c.src < |source|
      invariant Going(step, 4, all, start, before, source, targetEnd, c, target[..])
      decreases |source| - c.src
    {
      ghost var c0, now := c, target[..];
      more, c := TurnUTF32toUTF8(source, target, targetEnd, flags, c);
      TurnKeepsGoing(step, 4, all, start, before, source, targetEnd,
                     c0, now, more, c, target[..]);
      if !more {
        return;
      }
    }
    EndsFinished(step, 4, all, start, before, source, targetEnd, c, target[..]);
  }

  method ConvertUTF8toUTF32(source: seq<UTF8>, sourceStart: nat,
                            target: array<UTF32>, targetStart: nat, targetEnd: nat,
                            flags: ConversionFlags)
    returns (c: Cursor)
    requires sourceStart <= |source| && targetStart <= targetEnd <= target.Length
    modifies target
    ensures Valid(Utf8ToUtf32(flags), 1)
    ensures Finished(Run(Utf8ToUtf32(flags), 1, source[sourceStart..], targetEnd - targetStart),
                     Cursor(sourceStart, targetStart, ConversionOK), old(target[..]), c, target[..])
  {
    Utf8ToUtf32Valid(flags);
    ghost var step, before := Utf8ToUtf32(flags), target[..];
    ghost var all := Run(step, 1, source[sourceStart..], targetEnd - targetStart);
    c := Cursor(sourceStart, targetStart, ConversionOK);
    ghost var start := c;
    StartsGoing(step, 1, start, before, source, targetEnd);
    var more := true;
    while c.src < |source|
      invariant Going(step, 1, all, start, before, source, targetEnd, c, target[..])
      decreases |source| - c.src
    {
      ghost var c0, now := c, target[..];
      more, c := TurnUTF8toUTF32(source, target, targetEnd, flags, c);
      TurnKeepsGoing(step, 1, all, start, before, source, targetEnd,
                     c0, now, more, c, target[..]);
      if !more {
        return;
      }
    }
    EndsFinished(step, 1, all, start, before, source, targetEnd, c, target[..]);
  }
}
