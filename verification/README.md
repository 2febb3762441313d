# Verified model of the Bluetooth application layer

This project models the parts of the Bluetooth application whose correctness is least obvious and
proves what they promise.

- **Unicode conversion.** The six buffer converters between UTF-8, UTF-16 and UTF-32 and the
  legality test are methods over source sequences and target arrays (`ConvertUTF`).  Each one is
  proved to compute the repetition of a step function (`Conversion`, `ConverterSteps`).  What the
  converters promise together is proved about the repetition, for any step that meets a few
  conditions, and then for the six (`ConvertUTFTheorems`): resuming in chunks, splitting the
  source, target sizes that suffice, round trips, conversion through UTF-32, strict and lenient
  mode.  `Encodings` defines the three forms and Table 3-7 of the Unicode Standard independently,
  and `Utf8Reading` the value that one sequence decodes to.
- **Unicode streams.** The checked readers of the OBEX code are a second decoder
  (`UnicodeStream`), compared with the first in `ConvertedStreams`.
- **Audio relay.** The queue between the A2DP sink and source (`RelayQueue`), the RTP and SBC
  headers (`SbcFrames`), and the repacketiser: `FramePacking` says which frames are packed,
  `Repacketiser` proves that the loop over the heap of queued packets does so, and `RelayRuns`
  follows frames, sequence numbers and timestamps over whole runs.
- **Browsing.** Players, folders and media items are written into one flat buffer and read back
  (`AvrcpItems`).
- **Property store.** A linked list that is searched by prefix (`PropertyList`), the order of its
  entries that makes it work as a map (`PropertyEntries`), and the file it is saved to and loaded
  from (`Persist`).
- **State machines.** The audio focus stack (`AudioFocus`), the connections of the A2DP sink
  (`A2dpSink`), and the start and stop barriers of the access profile (`GapBarriers`).

Classes and arrays stand for objects and buffers that the application updates in place.  Where a
method does so, its contract gives the whole new state by a function or relation on values, and the
theorems are about that.  Messages to other threads and calls of the stack are entries of a log, in
the order in which they are made.  Strings of the property store are without their terminator.
Words are integers within their range; wrap-around and truncation are written out.  The C code's
shifts and masks appear as quotients, remainders and sums; `BitIdioms` shows that the two agree on
32-bit words, and the step from words to integers of the same value is left informal.

`dafny verify dfyconfig.toml` checks everything.

## Where the code departs from its documentation

- Strict UTF-32 conversion does not stop at values above 10FFFF, and "points to the illegal value"
  holds of surrogates only (`ConvertUTFTheorems.StrictUtf32ToUtf16`,
  `ConvertUTFTheorems.Utf32ToUtf8Whole`, `ConvertUTFTheorems.TooLargeIsDropped`).
- The legality test accepts first bytes ED and F4 with a second byte below 80
  (`Utf8Reading.OverlookedExample`).
- "Partial character in source" is also the answer to a first byte that no legal sequence starts
  with, such as FF (`ConvertUTFTheorems.AsksInVain`).
- Calls that resume can lose the note that a value was too large
  (`ConvertUTFTheorems.ChunkCodesToUtf8`, `ConvertUTFTheorems.ChunkCodesToUtf16`,
  `ConvertUTFTheorems.ChunksForget`).
- In lenient mode a high surrogate is passed on when it is followed by another unit, but asked to
  be continued when it is last, so the consumed part need not convert alone
  (`ConvertUTFTheorems.ConsumedUtf16AloneInEveryRoom`,
  `ConvertUTFTheorems.LoneHighConvertsOnlyInCompany`).
- The stream reader takes one continuation byte too few after E0 and F0
  (`UnicodeStream.Utf8TextAgrees`, `UnicodeStream.LeadE0Example`, `UnicodeStream.LeadF0Example`).
- The RTP timestamp counts every frame of a packet like the one looked at last
  (`RelayRuns.SendCountsRight`, `RelayRuns.MixedFramesMiscount`).
- `get_pcm_data` returns what is missing, not what it moved, on a short read
  (`RelayQueue.Queue.GetPcmData`).
- `__search_and_add_property_val` reports failure also when it has loaded entries
  (`Persist.SearchAndAddPropertyVal`).

## Model

| member | source | states |
|---|---|---|
| `ConvertUTF.ConvertUTF32toUTF16` | obex_profiles/unicode/ConvertUTF.c:61-106 | for every source, target array, start and end index and mode: the pointers, the code and the whole target array after the call are those of the abstract run of this converter with the free room; nothing outside the written units changes |
| `ConvertUTF.ConvertUTF16toUTF32` | obex_profiles/unicode/ConvertUTF.c:110-163 | for every source, target array, start and end index and mode: the pointers, the code and the whole target array after the call are those of the abstract run of this converter with the free room; nothing outside the written units changes |
| `ConvertUTF.ConvertUTF16toUTF8` | obex_profiles/unicode/ConvertUTF.c:214-280 | for every source, target array, start and end index and mode: the pointers, the code and the whole target array after the call are those of the abstract run of this converter with the free room; nothing outside the written units changes |
| `ConvertUTF.ConvertUTF8toUTF16` | obex_profiles/unicode/ConvertUTF.c:336-405 | for every source, target array, start and end index and mode: the pointers, the code and the whole target array after the call are those of the abstract run of this converter with the free room; nothing outside the written units changes |
| `ConvertUTF.ConvertUTF32toUTF8` | obex_profiles/unicode/ConvertUTF.c:409-458 | for every source, target array, start and end index and mode: the pointers, the code and the whole target array after the call are those of the abstract run of this converter with the free room; nothing outside the written units changes |
| `ConvertUTF.ConvertUTF8toUTF32` | obex_profiles/unicode/ConvertUTF.c:462-520 | for every source, target array, start and end index and mode: the pointers, the code and the whole target array after the call are those of the abstract run of this converter with the free room; nothing outside the written units changes |
| `ConvertUTF.IsLegalUTF8` | obex_profiles/unicode/ConvertUTF.c:295-318 | with the length of the table, accepts exactly the sequences of Table 3-7 of the Unicode Standard and those with first byte ED or F4 and a second byte below 80 before proper trailing bytes |
| `ConvertUTF.IsLegalUTF8Sequence` | obex_profiles/unicode/ConvertUTF.c:326-332 | true exactly if the bytes start with a complete legal sequence |
| `ConvertUTF.ReadSwitch` | obex_profiles/unicode/ConvertUTF.c:356-364 | the fall-through reading switch leaves what the loop of Note A accumulates, in 32 bits with wrap-around, for all six lengths |
| `ConvertUTF.ReadLoop` | obex_profiles/unicode/ConvertUTF.c:525-534 | the loop of Note A accumulates the sequence, six bits for each byte, in 32 bits with wrap-around |
| `ConvertUTF.WriteSwitch` | obex_profiles/unicode/ConvertUTF.c:269-274 | the fall-through writing switch fills the units before the end with the UTF-8 of the value and changes nothing else |
| `ConvertUTF.WriteLoop` | obex_profiles/unicode/ConvertUTF.c:535-536 | the loop that the writing switch is unrolled from fills the same units |
| `ConvertUTF.TurnKeepsGoing` | obex_profiles/unicode/ConvertUTF.c:61-106 | one turn of any converter keeps the state of a resumable call, and a turn that leaves the loop has done the whole call |
| `Utf8Reading.DecodedIsPayload` | obex_profiles/unicode/ConvertUTF.c:190-192 | subtracting the offset gives the payload bits of section 3 of RFC 3629, for proper first and trailing bytes of all lengths from 1 to 6 |
| `Utf8Reading.TrailingBytesAre` | obex_profiles/unicode/ConvertUTF.c:174-183 | the length table counts the leading ones of the first byte |
| `Utf8Reading.LegalDecodesToScalar` | obex_profiles/unicode/ConvertUTF.c:295-318 | an accepted sequence never decodes to a surrogate or beyond 10FFFF, and is the UTF-8 of its value if and only if it is in Table 3-7 |
| `Utf8Reading.DecodedOfOverlooked` | obex_profiles/unicode/ConvertUTF.c:303-310 | what the sequences that the second-byte test overlooks decode to: scalar values whose UTF-8 is another sequence |
| `Utf8Reading.Table37IsUtf8` | obex_profiles/unicode/ConvertUTF.c:295-318 | Table 3-7 holds exactly the encodings of the scalar values |
| `Utf8Reading.Utf8OfDecoded` | obex_profiles/unicode/ConvertUTF.c:356-364 | decoding and encoding a sequence of Table 3-7 gives it back |
| `Utf8Reading.DecodedOfUtf8` | obex_profiles/unicode/ConvertUTF.c:356-364 | encoding and decoding gives every value up to 10FFFF back, also a surrogate |
| `Utf8Reading.OverlookedExample` | obex_profiles/unicode/ConvertUTF.c:303-310 | ED 41 80 is accepted although it is not well-formed |
| `Utf8Reading.AcceptedOtherwise` | obex_profiles/unicode/ConvertUTF.c:299-312 | what is accepted besides Table 3-7: ED with two and F4 with three further bytes, the second below 80 and the others proper |
| `Conversion.ChunkedIsWhole` | obex_profiles/unicode/ConvertUTF.c:61-106 | any converter, resumed with fresh targets as long as it is short of room, terminates and consumes and writes what one call does; the codes agree unless the only too large values were in chunks before the last |
| `Conversion.SplitIsWhole` | obex_profiles/unicode/ConvertUTF.c:135-139 | if more source does not change a step that did not ask for it, converting a piece, then its unconsumed tail in front of the rest, consumes and writes what converting both together does, and stops there for the same reason, for every split point and room |
| `Conversion.SplitCodes` | obex_profiles/unicode/ConvertUTF.c:430-441 | then the second call ends with the code of one call if and only if it is not so that only the first met a value that marks the result illegal; so always, if no step marks it |
| `Conversion.ConsumedConvertsAlone` | obex_profiles/unicode/ConvertUTF.c:344-352 | if a step reads no more than it consumes, what any call consumed, also one that stopped for lack of room, converts by itself, completely, to what the call wrote |
| `Conversion.LastCallIsWhole` | obex_profiles/unicode/ConvertUTF.c:409-458 | when the calls get to the end of the source, the last one has converted the whole of what was left for it |
| `Conversion.RoomSuffices` | obex_profiles/unicode/ConvertUTF.c:214-280 | with enough room for each source unit one call does the whole conversion |
| `Conversion.ExactRoom` | obex_profiles/unicode/ConvertUTF.c:214-280 | if every step needs the room of what it writes, the target runs out exactly when it is smaller than the whole output |
| `Conversion.WhereTheTargetEnds` | obex_profiles/unicode/ConvertUTF.c:214-280 | a call ends for lack of room only where the next step needs more than is left |
| `Conversion.TriangleCommutes` | obex_profiles/unicode/ConvertUTF.c:214-280 | if every step factors through an intermediate form, so does every call |
| `Conversion.ThereAndBack` | obex_profiles/unicode/ConvertUTF.c:462-520 | if every step is restored, a call back restores what was consumed |
| `Conversion.RunBounds` | obex_profiles/unicode/ConvertUTF.c:61-106 | a call stays within source and target, and a full target was preceded by progress if it had room for one character |
| `ConverterSteps.Utf32ToUtf16Valid` | obex_profiles/unicode/ConvertUTF.c:66-101 | every step of this converter makes progress and needs no more room than its rate and the largest character allow |
| `ConverterSteps.Utf32ToUtf8Valid` | obex_profiles/unicode/ConvertUTF.c:416-454 | every step of this converter makes progress and needs no more room than its rate and the largest character allow |
| `ConverterSteps.Utf16ToUtf32Valid` | obex_profiles/unicode/ConvertUTF.c:117-158 | every step of this converter makes progress and needs no more room than its rate and the largest character allow |
| `ConverterSteps.Utf16ToUtf8Valid` | obex_profiles/unicode/ConvertUTF.c:219-276 | every step of this converter makes progress and needs no more room than its rate and the largest character allow |
| `ConverterSteps.Utf8ToUtf32Valid` | obex_profiles/unicode/ConvertUTF.c:467-516 | every step of this converter makes progress and needs no more room than its rate and the largest character allow |
| `ConverterSteps.Utf8ToUtf16Valid` | obex_profiles/unicode/ConvertUTF.c:341-400 | every step of this converter makes progress and needs no more room than its rate and the largest character allow |
| `ConverterSteps.ReadUtf16Stable` | obex_profiles/unicode/ConvertUTF.c:120-139 | more source does not change how a character is read, unless it was asked for |
| `ConverterSteps.ReadUtf8Stable` | obex_profiles/unicode/ConvertUTF.c:344-352 | more source does not change how a UTF-8 character is read, unless it was asked for |
| `ConvertUTFTheorems.ChunksFromUtf8` | obex_profiles/unicode/ConvertUTF.c:336-405 | chunked UTF-8 conversion, to UTF-16 with at least 2 units and to UTF-32 with at least 1 unit in each target, equals one call in output and code |
| `ConvertUTFTheorems.ChunksFromUtf16` | obex_profiles/unicode/ConvertUTF.c:214-280 | chunked UTF-16 conversion, to UTF-8 with at least 4 bytes and to UTF-32 with at least 1 unit in each target, equals one call in output and code |
| `ConvertUTFTheorems.ChunksFromUtf32ToUtf8` | obex_profiles/unicode/ConvertUTF.c:409-458 | chunked UTF-32 conversion to UTF-8, with at least 4 bytes in each target, equals one call in output; the code differs if and only if no surrogate stops the mode, some value exceeds 10FFFF, and none does in what was left for the last call |
| `ConvertUTFTheorems.ChunksFromUtf32ToUtf16` | obex_profiles/unicode/ConvertUTF.c:61-106 | the same to UTF-16 with at least 2 units in each target, where the code can differ in strict mode only |
| `ConvertUTFTheorems.ChunkCodesToUtf8` | obex_profiles/unicode/ConvertUTF.c:409-458 | for some targets of at least 4 bytes the code differs if and only if no surrogate stops the mode, the source has a value above 10FFFF but does not end in one, and its UTF-8 is longer than 4 bytes |
| `ConvertUTFTheorems.ChunkCodesToUtf16` | obex_profiles/unicode/ConvertUTF.c:61-106 | for some targets of at least 2 units the code differs if and only if the mode is strict, the source has a value above 10FFFF and no surrogate, the UTF-16 of what follows the last such value has at least 2 units, and that of all legal values at least 3 |
| `ConvertUTFTheorems.ChunksForget` | obex_profiles/unicode/ConvertUTF.c:436-441 | 110000 and 10000 with targets of four bytes: one call reports an illegal source, two calls report success |
| `ConvertUTFTheorems.TooLargeIsDropped` | obex_profiles/unicode/ConvertUTF.c:86-91 | strict mode on 110000 and 41: the first is dropped, the second written, and everything is consumed although the source is reported as illegal |
| `ConvertUTFTheorems.SplitUtf8` | obex_profiles/unicode/ConvertUTF.c:344-352 | split UTF-8 sources convert like whole ones to both targets, at every split point and in every room, in output, stop and code |
| `ConvertUTFTheorems.SplitUtf16` | obex_profiles/unicode/ConvertUTF.c:135-139 | split UTF-16 sources convert like whole ones to both targets, also between the halves of a pair, in output, stop and code |
| `ConvertUTFTheorems.SplitUtf32` | obex_profiles/unicode/ConvertUTF.c:409-458 | split UTF-32 sources convert like whole ones to both targets, in output and stop |
| `ConvertUTFTheorems.SplitUtf32Codes` | obex_profiles/unicode/ConvertUTF.c:409-458 | with room for everything the code is another one if and only if no surrogate stops the mode and of the two pieces only the first has a value above 10FFFF, to UTF-16 in strict mode only |
| `ConvertUTFTheorems.ConsumedUtf8ConvertsAlone` | obex_profiles/unicode/ConvertUTF.c:470-478 | what any call, with any room, consumed of UTF-8 converts by itself to what was written, for both targets |
| `ConvertUTFTheorems.ConsumedUtf16ConvertsAlone` | obex_profiles/unicode/ConvertUTF.c:117-153 | what any call, with any room, consumed of UTF-16 converts by itself to what was written, for both targets: always in strict mode, and in lenient mode if and only if it does not end in a high surrogate |
| `ConvertUTFTheorems.ConsumedUtf16AloneInEveryRoom` | obex_profiles/unicode/ConvertUTF.c:117-153 | so it does whatever the room if and only if the mode is strict or no high surrogate of the source is followed by something else than a low one |
| `ConvertUTFTheorems.ConsumedUtf16AloneWithRoom` | obex_profiles/unicode/ConvertUTF.c:219-276 | and with room for the whole conversion if and only if the mode is strict or the source does not end in two high surrogates |
| `ConvertUTFTheorems.LoneHighConvertsOnlyInCompany` | obex_profiles/unicode/ConvertUTF.c:120-139 | lenient mode on D800 D800: the first is converted, and alone it is not |
| `ConvertUTFTheorems.RoomForUtf8` | obex_profiles/unicode/ConvertUTF.c:336-405 | one unit for every byte suffices for a complete call |
| `ConvertUTFTheorems.RoomForUtf16` | obex_profiles/unicode/ConvertUTF.c:214-280 | three bytes, or one UTF-32 unit, for every UTF-16 unit suffice |
| `ConvertUTFTheorems.RoomForUtf32` | obex_profiles/unicode/ConvertUTF.c:409-458 | four bytes, or two UTF-16 units, for every UTF-32 unit suffice |
| `ConvertUTFTheorems.ExactRoomForUtf8` | obex_profiles/unicode/ConvertUTF.c:336-405 | from UTF-8 to both targets, exactly the room of the output suffices, and with any less the target is exhausted |
| `ConvertUTFTheorems.ExactRoomForUtf16` | obex_profiles/unicode/ConvertUTF.c:110-280 | from UTF-16 to both targets, exactly the room of the output suffices |
| `ConvertUTFTheorems.ExactRoomForUtf32` | obex_profiles/unicode/ConvertUTF.c:409-458 | from UTF-32 to UTF-8, and to UTF-16 in lenient mode, exactly the room of the output suffices |
| `ConvertUTFTheorems.ExactRoomStrictly` | obex_profiles/unicode/ConvertUTF.c:66-101 | from UTF-32 to UTF-16 in strict mode one unit more than the output is needed if and only if a surrogate stops the conversion or the last value is dropped |
| `ConvertUTFTheorems.EndsBeforeUtf8` | obex_profiles/unicode/ConvertUTF.c:366-395 | the target is exhausted only before a character whose encoding is longer than the room left |
| `ConvertUTFTheorems.EndsBeforeUtf16` | obex_profiles/unicode/ConvertUTF.c:155-276 | the target is exhausted only before a character whose encoding is longer than the room left |
| `ConvertUTFTheorems.EndsBeforeUtf32` | obex_profiles/unicode/ConvertUTF.c:66-454 | the target is exhausted only before a value whose encoding is longer than the room left |
| `ConvertUTFTheorems.Utf8Triangle` | obex_profiles/unicode/ConvertUTF.c:370-400 | UTF-8 to UTF-16 is UTF-8 to UTF-32 to UTF-16, in any mix of modes, on every input, including where and why it stops |
| `ConvertUTFTheorems.Utf16Triangle` | obex_profiles/unicode/ConvertUTF.c:219-276 | UTF-16 to UTF-8 is UTF-16 to UTF-32 to UTF-8, in either mode, on every input |
| `ConvertUTFTheorems.Utf8IgnoresMode` | obex_profiles/unicode/ConvertUTF.c:370-391 | strict and lenient mode agree on every UTF-8 input, for both targets and every room |
| `ConvertUTFTheorems.StrictUtf32ToUtf16` | obex_profiles/unicode/ConvertUTF.c:66-101 | strict mode stops at the first surrogate, pointing at it, drops values above 10FFFF and reports them without stopping |
| `ConvertUTFTheorems.LenientUtf32ToUtf16` | obex_profiles/unicode/ConvertUTF.c:66-101 | lenient mode converts everything, with replacement characters for what is not a scalar value |
| `ConvertUTFTheorems.ReplacedOneByOne` | obex_profiles/unicode/ConvertUTF.c:75-91 | that is, surrogates and values above 10FFFF become FFFD, and every other value stays |
| `ConvertUTFTheorems.LegalsConcat` | obex_profiles/unicode/ConvertUTF.c:86-91 | strict mode drops value by value |
| `ConvertUTFTheorems.LegalsOfOne` | obex_profiles/unicode/ConvertUTF.c:86-91 | and drops exactly the values above 10FFFF |
| `ConvertUTFTheorems.Utf32ToUtf8Whole` | obex_profiles/unicode/ConvertUTF.c:416-442 | both modes replace and report values above 10FFFF and go on; only strict mode stops, at the first surrogate |
| `ConvertUTFTheorems.Utf32Utf8Utf32` | obex_profiles/unicode/ConvertUTF.c:409-458 | UTF-32 to UTF-8 and back is the identity on all sequences of scalar values |
| `ConvertUTFTheorems.Utf32Utf16Utf32` | obex_profiles/unicode/ConvertUTF.c:61-163 | UTF-32 to UTF-16 and back is the identity on all sequences of scalar values |
| `ConvertUTFTheorems.Utf8Utf32Utf8` | obex_profiles/unicode/ConvertUTF.c:462-520 | UTF-8 to UTF-32 and back restores what was consumed if and only if that is well-formed |
| `ConvertUTFTheorems.WellFormedUtf8RoundTrip` | obex_profiles/unicode/ConvertUTF.c:462-520 | well-formed UTF-8 is consumed completely and comes back |
| `ConvertUTFTheorems.StrictUtf16Utf32Utf16` | obex_profiles/unicode/ConvertUTF.c:117-153 | strict UTF-16 to UTF-32 and back restores what was consumed, and that is well-formed, whatever the input |
| `ConvertUTFTheorems.Utf16Utf32Utf16` | obex_profiles/unicode/ConvertUTF.c:61-163 | in any modes UTF-16 to UTF-32 and back restores what was consumed if and only if that is well-formed |
| `ConvertUTFTheorems.Utf8Utf16Utf8` | obex_profiles/unicode/ConvertUTF.c:214-405 | in any modes UTF-8 to UTF-16 and back restores what was consumed if and only if that is well-formed |
| `ConvertUTFTheorems.Utf16Utf8Utf16` | obex_profiles/unicode/ConvertUTF.c:214-405 | in any modes UTF-16 to UTF-8 and back restores what was consumed if and only if that is well-formed, which it always is in strict mode |
| `ConvertUTFTheorems.StrictUtf16ConsumesLongest` | obex_profiles/unicode/ConvertUTF.c:117-153 | strict mode consumes every well-formed beginning |
| `ConvertUTFTheorems.StrictUtf16Stops` | obex_profiles/unicode/ConvertUTF.c:135-152 | strict mode stops exactly at an unpaired surrogate: as illegal if it is low or followed by something else, as exhausted if it is a high one at the end |
| `ConvertUTFTheorems.StrictUtf16Accepts` | obex_profiles/unicode/ConvertUTF.c:110-163 | strict mode succeeds on exactly the well-formed texts |
| `ConvertUTFTheorems.LenientUtf16Keeps` | obex_profiles/unicode/ConvertUTF.c:117-153 | lenient mode keeps every surrogate that is not half of a pair and joins all pairs; only a high one at the end is left |
| `ConvertUTFTheorems.Utf8Stops` | obex_profiles/unicode/ConvertUTF.c:344-352 | to both targets, UTF-8 conversion stops as exhausted exactly where fewer bytes are left than the first one announces, and as illegal exactly where they are all there but not a legal sequence |
| `ConvertUTFTheorems.AsksInVain` | obex_profiles/unicode/ConvertUTF.c:344-352 | every first byte from C0 on asks for more source, and no more source helps if and only if it is not between C2 and F4 |
| `Encodings.Utf16OfPair` | obex_profiles/unicode/ConvertUTF.c:122-127 | splitting the value of a surrogate pair gives the pair back |
| `Encodings.PairOfUtf16` | obex_profiles/unicode/ConvertUTF.c:94-101 | joining the two units of a supplementary value gives the value back |
| `Encodings.Utf8IsTable37` | obex_profiles/unicode/ConvertUTF.c:269-274 | what is written for a scalar value is in Table 3-7 |
| `Encodings.EncodingExamples` | obex_profiles/unicode/ConvertUTF.c:94-101 | the examples of section 5 of RFC 2781 and section 7 of RFC 3629 |
| `Encodings.TooLargeIsReplaced` | obex_profiles/unicode/ConvertUTF.c:436-441 | values above 10FFFF are written as U+FFFD |
| `UnicodeStream.Stream.GetUtf8Checked` | obex_profiles/include/oi_unicodestream.h:194-216 | value, position and error flag of one checked UTF-8 read, with the mask loop |
| `UnicodeStream.Stream.GetUtf16Checked` | obex_profiles/include/oi_unicodestream.h:265-293 | value, position and error flag of one checked UTF-16 read, in either byte order |
| `UnicodeStream.Stream.GetCharChecked` | obex_profiles/include/oi_unicodestream.h:331-350 | the read that the encoding of the stream selects |
| `UnicodeStream.Stream.PeekCharChecked` | obex_profiles/include/oi_unicodestream.h:376-390 | a peek returns what a read would and leaves the position |
| `UnicodeStream.Stream.SkipCharChecked` | obex_profiles/include/oi_unicodestream.h:142-158 | a skip moves as that many reads do, also beyond an error |
| `UnicodeStream.AnnouncedIs` | obex_profiles/include/oi_unicodestream.h:202-203 | the mask loop finds the largest mask below the first byte, masks growing by one leading one |
| `UnicodeStream.ContinueNext` | obex_profiles/include/oi_unicodestream.h:209-211 | every further byte adds six bits, with wrap-around |
| `UnicodeStream.Utf8ReadFails` | obex_profiles/include/oi_unicodestream.h:194-216 | a UTF-8 read fails exactly at the end, changing nothing, and where fewer bytes follow than announced, taking the first byte as it is; what else it moves over |
| `UnicodeStream.Utf16ReadFails` | obex_profiles/include/oi_unicodestream.h:265-293 | a UTF-16 read fails exactly where two bytes are not left, changing nothing, and at a high surrogate that two bytes do not follow; every other unit is returned as it is |
| `UnicodeStream.Utf16ReadPair` | obex_profiles/include/oi_unicodestream.h:265-293 | a high surrogate makes a pair with whatever unit follows it |
| `UnicodeStream.UnknownReadFails` | obex_profiles/include/oi_unicodestream.h:331-350 | a stream of unknown encoding gives errors only |
| `UnicodeStream.Utf8ReadAgrees` | obex_profiles/include/oi_unicodestream.h:194-216 | wherever it starts, the reader returns an encoded scalar value and moves behind it if and only if its first byte is not E0 or F0; else it stops one byte short |
| `UnicodeStream.MisreadIsLeadE0OrF0` | obex_profiles/include/oi_unicodestream.h:202-208 | the misread values are exactly those whose UTF-8 starts with E0 or F0 |
| `UnicodeStream.Utf8TextAgrees` | obex_profiles/include/oi_unicodestream.h:194-216 | the reader stays in step with the encoder throughout a text if and only if no character of it starts with E0 or F0 |
| `UnicodeStream.LeadE0Example` | obex_profiles/include/oi_unicodestream.h:202-208 | U+0800: the value is taken from the first two bytes, and the third is read as a character of its own |
| `UnicodeStream.LeadF0Example` | obex_profiles/include/oi_unicodestream.h:202-208 | U+10000: the value is taken from the first three bytes, and the fourth is read as a character of its own |
| `UnicodeStream.Utf16ReadAgrees` | obex_profiles/include/oi_unicodestream.h:265-293 | the reader returns every encoded scalar value, in either byte order |
| `UnicodeStream.Utf16TextAgrees` | obex_profiles/include/oi_unicodestream.h:265-293 | the reader returns every UTF-16 text without an error, in either byte order |
| `ConvertedStreams.Utf16OutputReadsBack` | obex_profiles/include/oi_unicodestream.h:265-293 | the checked reader returns every scalar value that was written by the UTF-32 to UTF-16 converter, in either byte order |
| `ConvertedStreams.Utf8OutputReadsBack` | obex_profiles/include/oi_unicodestream.h:194-216 | the checked reader keeps in step with what the UTF-32 to UTF-8 converter wrote of scalar values if and only if no first byte is E0 or F0, and then returns every value |
| `BitIdioms.SixBitGroups` | obex_profiles/unicode/ConvertUTF.c:271-273 | the shifts and masks of the UTF-8 code are the quotients and remainders of the model |
| `BitIdioms.FirstByteMarks` | obex_profiles/unicode/ConvertUTF.c:273 | OR-ing the first-byte mark is adding it |
| `BitIdioms.ClearedMarks` | obex_profiles/include/oi_unicodestream.h:208 | clearing the mask found is subtracting it |
| `BitIdioms.TenBitGroups` | obex_profiles/unicode/ConvertUTF.c:94-101 | the shifts and masks of surrogate halves and of two-byte units are quotients, remainders and sums |
| `BitIdioms.HeaderFields` | bt-app/a2dp_src/src/A2dp_Src.cpp:741-748 | masking out header fields and the bytes of a word is taking quotients and remainders |
| `RelayQueue.Queue.Enqueue` | bt-app/a2dp_src/src/A2dp_Src.cpp:1153-1192 | a packet with the buffer, of which a length of 16 bits is kept, is appended, or dropped when 25 are queued; the queue never holds more |
| `RelayQueue.KeptLosesMultiples` | bt-app/a2dp_src/src/A2dp_Src.cpp:151-156 | what is kept of a buffer is its beginning, and what is lost a multiple of 65536 bytes |
| `RelayQueue.Queue.GetPcmData` | bt-app/a2dp_src/src/A2dp_Src.cpp:1243-1290 | moves exactly min(size, pending) bytes: buffer followed by what stays queued is the old byte stream; the result is the shortfall on a short read; a packet of another codec is thrown away |
| `RelayQueue.Queue.GetSbcData` | bt-app/a2dp_src/src/A2dp_Src.cpp:1194-1241 | moves the longest run of whole packets that fit, in order, and returns their length |
| `RelayQueue.WholeFitIsLongest` | bt-app/a2dp_src/src/A2dp_Src.cpp:1209-1234 | that run fits, and unless it fills the buffer one more packet does not |
| `SbcFrames.GetRtpOffset` | bt-app/a2dp_sink/src/A2dp_Sink_Streaming.cpp:493-521 | the length of the RTP header of section 5.1 of RFC 3550, with CSRC list and extension, modulo 256; 0 for the codec without a header |
| `SbcFrames.RtpHeaderOfParts` | bt-app/a2dp_sink/src/A2dp_Sink_Streaming.cpp:493-521 | a header put together from twelve bytes, its list of sources and its extension is as long as these together |
| `SbcFrames.CalculateFrameLength` | bt-app/a2dp_src/src/A2dp_Src.cpp:714-760 | the frame length of section 12.9 of the A2DP specification, computed in 16 bits without overflow; 0 and no change without the sync word |
| `SbcFrames.FrameHolds` | bt-app/a2dp_src/src/A2dp_Src.cpp:749-762 | in each of the four modes the frame has room for its scale factors, join bits and samples, and less than a byte more |
| `SbcFrames.HeaderOfFields` | bt-app/a2dp_src/src/A2dp_Src.cpp:719-747 | the header fields of every combination of frequency, blocks, mode, allocation and subbands |
| `SbcFrames.HighQualityFrame` | bt-app/a2dp_src/src/A2dp_Src.cpp:714-762 | 9C BD 35 starts a frame of 119 bytes |
| `FramePacking.FitsIsLongestBeginning` | bt-app/a2dp_src/src/A2dp_Src.cpp:3642-3656 | greedy packing takes the longest beginning of the pending frames, at most seven, that fits; the rest are the other frames |
| `FramePacking.FitsIsLongest` | bt-app/a2dp_src/src/A2dp_Src.cpp:3642-3656 | the greedy number of frames fits, and no larger number does |
| `FramePacking.LastLookedIsUniform` | bt-app/a2dp_src/src/A2dp_Src.cpp:3651-3685 | for frames that carry the same number of samples, the header looked at last counts them rightly |
| `FramePacking.LastLookedIs` | bt-app/a2dp_src/src/A2dp_Src.cpp:3642-3670 | the header looked at last is that of the frame behind those packed, if there is one and the packet is neither full nor has all frames allowed, and else of the last one packed |
| `Repacketiser.Source.SendEncodedData` | bt-app/a2dp_src/src/A2dp_Src.cpp:3614-3691 | one packet of the front headers, the incremented sequence number and the old timestamp in network order, the frame count, and the longest beginning of the pending frames that fits the MTU; exactly the others stay queued |
| `Repacketiser.Source.PackFrames` | bt-app/a2dp_src/src/A2dp_Src.cpp:3642-3670 | the packing loop moves exactly the greedy beginning, across packet boundaries |
| `Repacketiser.Source.Stamp` | bt-app/a2dp_src/src/A2dp_Src.cpp:3672-3684 | the bytes of sequence number, timestamp and frame count, and no others, are set |
| `Repacketiser.Source.Arrive` | bt-app/a2dp_src/src/A2dp_Src.cpp:1153-1192 | the frames of an accepted media packet, as far as 16 bits count its length, are pending behind the others |
| `Repacketiser.Stamped` | bt-app/a2dp_src/src/A2dp_Src.cpp:3672-3684 | the stamped packet, field by field and frame by frame |
| `RelayRuns.Run` | bt-app/a2dp_src/src/A2dp_Src.cpp:3614-3691 | in every run of arrivals and sends, sent frames followed by pending ones are the accepted ones; the sequence number is the number of packets modulo 2^16, and the timestamp the samples sent plus those that the sends counted too much, modulo 2^32 |
| `RelayRuns.SendCountsRight` | bt-app/a2dp_src/src/A2dp_Src.cpp:3651-3685 | one send advances the timestamp by the samples it sends if and only if the number of its frames times the samples of the one looked at last, which is named as a frame of the queue, is the sum of their samples |
| `RelayRuns.TimestampOfRun` | bt-app/a2dp_src/src/A2dp_Src.cpp:3614-3691 | after any run the timestamp is the number of samples sent, modulo 2^32, if and only if the sends together counted as many too many as too few, modulo 2^32; so it is if all frames carry the same number |
| `RelayRuns.MixedFramesMiscount` | bt-app/a2dp_src/src/A2dp_Src.cpp:3651-3685 | two frames of different size for which the timestamp advances by more samples than were sent |
| `RelayRuns.SentAgrees` | bt-app/a2dp_src/src/A2dp_Src.cpp:3672-3685 | one send keeps frames, sequence number, timestamp and miscounted samples in agreement with what was sent |
| `AvrcpItems.RetrievePlayerItemEntry` | bt-app/a2dp_src/src/A2dp_Src.cpp:4007-4052 | the entry of a player, byte by byte, as long as declared |
| `AvrcpItems.RetrieveFolderItemEntry` | bt-app/a2dp_src/src/A2dp_Src.cpp:4075-4100 | the entry of a folder, byte by byte, as long as declared |
| `AvrcpItems.RetrieveMediaItemEntry` | bt-app/a2dp_src/src/A2dp_Src.cpp:4125-4147 | the entry of a media item, byte by byte, as long as declared |
| `AvrcpItems.ParsePlayer` | bt-app/a2dp_src/src/A2dp_Src.cpp:2243-2279 | reading the entry of a player back recovers every field and moves behind it |
| `AvrcpItems.ParseFolder` | bt-app/a2dp_src/src/A2dp_Src.cpp:2343-2367 | reading the entry of a folder back recovers every field and moves behind it |
| `AvrcpItems.ParseMedia` | bt-app/a2dp_src/src/A2dp_Src.cpp:2429-2451 | reading the entry of a media item back recovers every field but the attribute count, which is replaced, and moves behind it |
| `AvrcpItems.GetFolderItems` | bt-app/a2dp_src/src/A2dp_Src.cpp:2209-2469 | for every list and range: all players if it starts at 0; of folders and media items those from the start, 0 or 1, to the end or the last one; else none, which is an invalid range; every item with all its fields, and after each the bytes read are the declared lengths so far |
| `AvrcpItems.Respond` | bt-app/a2dp_src/src/A2dp_Src.cpp:2304-2373 | writing and reading back any list of items of one kind |
| `AvrcpItems.EntryHasLength` | bt-app/a2dp_src/src/A2dp_Src.cpp:3995-3996 | an entry is as long as the length declared for it |
| `AvrcpItems.PlayerLayout` | bt-app/a2dp_src/src/A2dp_Src.cpp:4007-4052 | where each field of a player is in its entry, least significant byte first |
| `AvrcpItems.FolderLayout` | bt-app/a2dp_src/src/A2dp_Src.cpp:4075-4100 | where each field of a folder is in its entry |
| `AvrcpItems.MediaLayout` | bt-app/a2dp_src/src/A2dp_Src.cpp:4125-4147 | where each field of a media item is in its entry |
| `AvrcpItems.EntriesInjective` | bt-app/a2dp_src/src/A2dp_Src.cpp:2214-2227 | two lists of items of a kind that are written alike are the same |
| `AvrcpItems.EntriesDoNotOverlap` | bt-app/a2dp_src/src/A2dp_Src.cpp:2214-2227 | no entry of a kind begins another one |
| `PropertyEntries.OrderedMeansReachable` | property-ops/src/ll.c:46-64 | that no earlier name starts with a later one is exactly what lets every stored name find its own entry |
| `PropertyEntries.MatchesIs` | property-ops/src/ll.c:46-64 | a search matches the names that start with it |
| `PropertyEntries.AddedIs` | property-ops/src/ll.c:107-125 | adding appends the entry, or does nothing if its name starts a name in the list |
| `PropertyEntries.UpdatedIs` | property-ops/src/ll.c:83-105 | setting changes the value of the first match and nothing else, or appends an entry without callback |
| `PropertyEntries.RemovedIs` | property-ops/src/ll.c:127-163 | removing takes out the first match and nothing else |
| `PropertyEntries.RemovedIsGone` | property-ops/src/ll.c:127-163 | in an ordered list a removed name is found no more, unless a later name starts with it |
| `PropertyEntries.OrderedAdded` | property-ops/src/ll.c:107-125 | adding keeps the order |
| `PropertyEntries.OrderedUpdated` | property-ops/src/ll.c:83-105 | setting keeps the order |
| `PropertyEntries.OrderedRemoved` | property-ops/src/ll.c:127-163 | removing keeps the order |
| `PropertyEntries.GetAfterSet` | property-ops/src/property_ops.c:46-66 | get after set returns the value set, for every name, list and value |
| `PropertyEntries.SetKeepsOthers` | property-ops/src/ll.c:83-105 | setting changes no search that finds another entry |
| `PropertyEntries.SetAnswersSearches` | property-ops/src/ll.c:83-105 | a search that found nothing finds something afterwards exactly if a new entry was made and its name starts so |
| `PropertyEntries.RemoveKeepsOthers` | property-ops/src/ll.c:127-163 | removing leaves every other entry reachable |
| `PropertyEntries.AddAllKeepsAll` | property-ops/src/ll.c:107-125 | adding entries one by one keeps all of them if and only if the result is ordered |
| `PropertyList.List.Find` | property-ops/src/ll.c:46-64 | returns the first node that matches, or null |
| `PropertyList.List.GetValue` | property-ops/src/property_ops.c:51-66 | finds the value of the first match |
| `PropertyList.List.Add` | property-ops/src/ll.c:107-125 | appends the node, or silently drops it when its name starts a stored one; the list stays linked, acyclic and ordered |
| `PropertyList.List.SetValue` | property-ops/src/ll.c:83-105 | changes the value in place or appends a node, and always reports success |
| `PropertyList.List.Remove` | property-ops/src/ll.c:127-163 | unlinks exactly the first match; the result is anything when nothing matches |
| `Persist.SaveDsToPersist` | property-ops/src/property_ops.c:77-118 | a file that does not open stays as it was; else the file is the lines of the entries in order, up to a write that fails; success means that there was an entry and that nothing failed |
| `Persist.LineIs` | property-ops/src/property_ops.c:92-95 | name, value and third field with commas and a newline, cut off behind 79 characters |
| `Persist.FirstLineIs` | property-ops/src/property_ops.c:220 | a line ends behind the first newline, after 79 characters or with the file |
| `Persist.PullOneLineData` | property-ops/src/property_ops.c:141-208 | name up to the first comma and value up to the second, if there are two |
| `Persist.SearchAndAddPropertyVal` | property-ops/src/property_ops.c:210-249 | adds what every line holds, in order, and reports failure whatever it has done |
| `Persist.PullLine` | property-ops/src/property_ops.c:92-95 | a line of at most 79 characters gives name and value back if and only if both commas are within it or nothing but an empty value is cut off |
| `Persist.FirstLineOf` | property-ops/src/property_ops.c:220 | lines are read back as written, also those that were cut off |
| `Persist.RoundTrip` | property-ops/src/property_ops.c:77-249 | saving a list and loading it again gives the same names and values in the same order if and only if no name or value has a comma or newline and every entry fits its line |
| `Persist.PulledAreClean` | property-ops/src/property_ops.c:141-208 | whatever the file, no name or value that is loaded has a comma or newline |
| `AudioFocus.RunsKeepFocus` | bt-app/audio_manager/src/Audio_Manager.cpp:276-351 | in every run of requests and releases the stack is empty, one entry, or a permanent one below a transient one of another profile; and exactly the profile on top was granted the path last and has not released it |
| `AudioFocus.HandledKeepsTop` | bt-app/audio_manager/src/Audio_Manager.cpp:276-351 | one request or release keeps exactly the top of the stack in possession |
| `AudioFocus.HandledKeepsShape` | bt-app/audio_manager/src/Audio_Manager.cpp:276-351 | one request or release keeps the shape of the stack |
| `AudioFocus.ReleaseLetsGo` | bt-app/audio_manager/src/Audio_Manager.cpp:335-349 | a release takes exactly that profile out of the stack; REGAINED goes to the permanent entry below exactly if a transient top was released |
| `AudioFocus.RequestIsAnswered` | bt-app/audio_manager/src/Audio_Manager.cpp:279-334 | every permanent or transient request is answered, with a grant exactly if its profile is on top then; a displaced holder is told first, LOSS if it is gone and LOSS_TRANSIENT if it waits below; a denied request changes nothing |
| `AudioFocus.RequestIsGranted` | bt-app/audio_manager/src/Audio_Manager.cpp:279-300 | the first request is granted with GAIN or GAIN_TRANSIENT, as asked, and a holder that asks again is granted what it has |
| `AudioFocus.TransientGoesOnTop` | bt-app/audio_manager/src/Audio_Manager.cpp:307-323 | a transient request goes on top of a permanent holder, who stays and is told LOSS_TRANSIENT; with a full array it is denied with LOSS |
| `AudioFocus.PermanentTakesOver` | bt-app/audio_manager/src/Audio_Manager.cpp:324-331 | a permanent request takes the place of a permanent holder, who is told LOSS |
| `AudioFocus.RequestIsDenied` | bt-app/audio_manager/src/Audio_Manager.cpp:302-306 | a transient holder is displaced by nobody else, who is told LOSS_TRANSIENT; requests of neither kind change nothing |
| `AudioFocus.TransientComesAndGoes` | bt-app/audio_manager/src/Audio_Manager.cpp:307-349 | after any run, a transient request over a permanent holder and its release restore the stack and end with REGAINED to that holder |
| `AudioFocus.AudioManager.GetTopIndex` | bt-app/audio_manager/src/Audio_Manager.cpp:123-137 | the index of the top, or -1 |
| `AudioFocus.AudioManager.GetIndex` | bt-app/audio_manager/src/Audio_Manager.cpp:248-258 | the last index of the profile, or -1 |
| `AudioFocus.AudioManager.AddNewNode` | bt-app/audio_manager/src/Audio_Manager.cpp:218-229 | pushes an entry if one is free |
| `AudioFocus.AudioManager.RemoveNode` | bt-app/audio_manager/src/Audio_Manager.cpp:232-244 | takes an entry out and closes the gap |
| `AudioFocus.AudioManager.RequestControl` | bt-app/audio_manager/src/Audio_Manager.cpp:279-334 | on a request the array and the messages follow the list machine, for any array size |
| `AudioFocus.AudioManager.ReleaseControl` | bt-app/audio_manager/src/Audio_Manager.cpp:335-349 | the array and the messages follow the list machine also on a release |
| `A2dpSink.Sink.EventManager` | bt-app/a2dp_sink/src/A2dp_Sink.cpp:892-917 | for every event of every device: the list stays within its maximum with unique addresses, no listed device is disconnected, a connected one knows its own address, a streaming device is listed; after the disconnected callback the device is not listed, after the connected one it is connected if it was listed or there was room, a request or the connecting callback makes an unlisted one pending, what ends a connection makes a connected one pending, and nothing else moves it; its addresses and codec follow, and no other device changes; streaming device and posted messages are determined; a sink that is not started ignores the event |
| `A2dpSink.Sink.HandleEnableSink` | bt-app/a2dp_sink/src/A2dp_Sink.cpp:678-745 | the sink is started exactly if the stack offers it, and the access profile is told |
| `A2dpSink.Sink.HandleDisableSink` | bt-app/a2dp_sink/src/A2dp_Sink.cpp:747-757 | no event is handled any more, and the streaming thread is told to stop |
| `A2dpSink.Sink.HandleDisableSinkStreaming` | bt-app/a2dp_sink/src/A2dp_Sink_Streaming.cpp:808-829 | the streaming thread forgets the streaming device |
| `A2dpSink.Sink.HandleSinkStreamingDisableDone` | bt-app/a2dp_sink/src/A2dp_Sink.cpp:759-778 | all devices are dropped; the list stays consistent if and only if the streaming thread is not to ask for the audio path any more |
| `A2dpSink.Sink.ConnectionManager` | bt-app/a2dp_sink/src/A2dp_Sink.cpp:794-890 | a connection event lists a new device, handles a listed one or is ignored, as room and list demand; the device that is handled is always a listed one; list, streaming device and posts are as for every event |
| `A2dpSink.Sink.ProcessEvent` | bt-app/a2dp_sink/src/A2dp_Sink.cpp:780-792 | dispatch by state; a connect request only ever reaches a disconnected device |
| `A2dpSink.Sink.StateDisconnectedHandler` | bt-app/a2dp_sink/src/A2dp_Sink.cpp:967-1003 | what the event for which a device is listed does to it, the streaming device and the posts |
| `A2dpSink.Sink.StatePendingHandler` | bt-app/a2dp_sink/src/A2dp_Sink.cpp:1004-1096 | what an event does to a pending device, the streaming device and the posts |
| `A2dpSink.Sink.StateConnectedHandler` | bt-app/a2dp_sink/src/A2dp_Sink.cpp:1098-1303 | what an event does to a connected device, the streaming device and the posts |
| `A2dpSink.Sink.ChangeState` | bt-app/a2dp_sink/src/A2dp_Sink.cpp:1305-1329 | a disconnected device is erased and no longer streams |
| `A2dpSink.Sink.FindDeviceByAddr` | bt-app/a2dp_sink/src/A2dp_Sink.cpp:231-240 | the first device with the address, or the end |
| `A2dpSink.FocusFollowsStreaming` | bt-app/a2dp_sink/src/A2dp_Sink.cpp:1211-1298 | an event keeps that there is a streaming device exactly while the streaming thread was last told to ask for the audio path, if and only if it does not start a device whose address is all zeros |
| `A2dpSink.FocusMeansStreaming` | bt-app/a2dp_sink/src/A2dp_Sink.cpp:1211-1298 | in every consistent state in which no device of that address is listed there is a streaming device exactly while the thread is to ask |
| `A2dpSink.PostsFollowStates` | bt-app/a2dp_sink/src/A2dp_Sink.cpp:967-1303 | an input stream is opened exactly for a new connection, audio is closed whenever the streaming device stops being connected, another streaming device is paused exactly when one starts, and the stack is asked to connect and disconnect exactly as requested |
| `A2dpSink.StateAfterRun` | bt-app/a2dp_sink/src/A2dp_Sink.cpp:794-1329 | after any run a listed device was last listed and not dropped since, and a connected one was last connected; with room all the time the last such events decide |
| `A2dpSink.StreamingAfter` | bt-app/a2dp_sink/src/A2dp_Sink.cpp:1211-1298 | a connected device becomes the streaming one when it starts or asks for the path, ceases to be when it stops or is disconnected, and nothing else changes it |
| `A2dpSink.PostsBeforeConnection` | bt-app/a2dp_sink/src/A2dp_Sink.cpp:967-1096 | all that is posted for a device that is not connected, event by event |
| `A2dpSink.PostsOfConnection` | bt-app/a2dp_sink/src/A2dp_Sink.cpp:1098-1303 | all that is posted for a connected device, in order, event by event |
| `A2dpSink.FlushedBeforeDisconnection` | bt-app/a2dp_sink/src/A2dp_Sink.cpp:870-886 | the relay is flushed exactly if it is in use and a listed device is to disconnect, or has |
| `A2dpSink.FoundMoves` | bt-app/a2dp_sink/src/A2dp_Sink.cpp:780-792 | the handler of a listed device moves that device alone and keeps the list consistent |
| `A2dpSink.EnlistedMoves` | bt-app/a2dp_sink/src/A2dp_Sink.cpp:816-820 | the handler of a device that has just been listed moves that device alone and keeps the list consistent |
| `A2dpSink.HandledMovesOne` | bt-app/a2dp_sink/src/A2dp_Sink.cpp:1305-1329 | of all listed devices only the handled one changes its state, also when it is erased from the middle of the list |
| `GapBarriers.StopCycle` | bt-app/gap/src/Gap.cpp:716-753 | when the profiles told to stop answer once and successfully, in any order, the audio manager step is posted once, at the last answer, and never before all enabled profiles but the audio manager have stopped; not at all if one of them never started |
| `GapBarriers.StartCycle` | bt-app/gap/src/Gap.cpp:661-707 | when enabled profiles answer a start once and successfully, in any order, Bluetooth is reported enabled once, at the last answer, if all have answered, and else never |
| `GapBarriers.OpensOnce` | bt-app/gap/src/Gap.cpp:731-740 | a barrier to which profiles that are needed answer once and successfully opens once, at the last answer, if all have answered, and else never |
| `GapBarriers.LastAnswerCounts` | bt-app/gap/src/Gap.cpp:719-729 | a profile counts as stopped exactly if its last answer was a success |
| `GapBarriers.OthersKeepTheirStatus` | bt-app/gap/src/Gap.cpp:719-729 | an answer counts for no other profile, and for none that is not enabled |
| `GapBarriers.OrdersAre` | bt-app/gap/src/Gap.cpp:811-838 | one order for each profile, in ascending order, and nothing else |
| `GapBarriers.AmStepIs` | bt-app/gap/src/Gap.cpp:742-753 | the audio manager is asked to disable itself exactly if it is enabled |
| `GapBarriers.WhoIsIn` | bt-app/gap/src/Gap.cpp:811-838 | who is enabled, has started or stopped, has to stop, and is told to |
| `GapBarriers.Gap.StopDone` | bt-app/gap/src/Gap.cpp:716-753 | records one answer and posts the step exactly if all have stopped |
| `GapBarriers.Gap.StopAnswered` | bt-app/gap/src/Gap.cpp:716-753 | a whole cycle of answers posts the step as often as the barrier opens |
| `GapBarriers.Gap.StopAllAnswered` | bt-app/gap/src/Gap.cpp:716-838 | a whole stop posts one order for each started profile but the audio manager and, after successful single answers, the step exactly if all that have to stop have answered |
| `GapBarriers.Gap.StartAllAnswered` | bt-app/gap/src/Gap.cpp:636-707 | a whole start posts one order for each enabled profile and, after successful single answers, Bluetooth enabled exactly if all have answered |
| `GapBarriers.Gap.StopAll` | bt-app/gap/src/Gap.cpp:811-838 | resets the stop status and tells exactly the started profiles but the audio manager to stop |
| `GapBarriers.Gap.StartDone` | bt-app/gap/src/Gap.cpp:661-707 | records one answer and reports Bluetooth enabled exactly if all enabled profiles have started |
| `GapBarriers.Gap.StartAll` | bt-app/gap/src/Gap.cpp:636-658 | resets the start status and tells exactly the enabled profiles to start |
| `GapBarriers.Gap.StartAnswered` | bt-app/gap/src/Gap.cpp:661-707 | a whole cycle of answers reports Bluetooth enabled as often as the barrier opens |

## Left out

- ConvertUTF: source buffers are values that end at `sourceEnd`, since the converters only read
  them; the body of each loop is a method of its own; overlapping source and target are not
  modelled.
- ConvertUTF.IsLegalUTF8: only with the length that the table gives, as all its callers pass it.
- UnicodeStream: the unchecked macros, which read without looking at the end of the data.
- UnicodeStream.Stream.GetUtf8Checked: the value that the variable held before is a parameter, as
  the macro leaves it there at the end of the data.
- Repacketiser.Source.SendEncodedData: packets are media packets with whole frames of at most 255
  bytes behind a header that fits the MTU; the loop that looks for a sync word in misaligned data
  is not modelled, nor is a failed allocation.
- SbcFrames.GetRtpOffset: the fields that are only printed.
- RelayQueue: `flush_relay_data`, the mutex, and the message that asks to enable the source.
- AvrcpItems.GetFolderItems: which of the lists a scope and folder depth select, the texts of the
  attributes, the search scope, and the copying of a display name through its pointer; at most 32
  items, and a buffer that is large enough, as the C arrays need.
- PropertyList: `__free_list`, which leaves the head pointing at freed memory, and failed
  allocations.
- PropertyList.List.SetValue: names and values fit their arrays of 80 characters, which the
  unbounded copies of the code overrun otherwise.
- Persist.RoundTrip: the third field, a truth value printed as a string, is any text without a
  newline, and is not read back.
- Persist.SaveDsToPersist: what a write that fails leaves behind of its own line.
- AudioFocus: disabling, which clears the stack without a message, and the threads behind the
  messages: a release that is still queued can follow a new grant, so the claim is about the order
  in which messages are sent.
- A2dpSink.Sink.EventManager: the maximum of devices does not change; printing.
- A2dpSink.Sink.ConnectionManager: the list of devices that are connected for remote control only.
- A2dpSink.Sink.StateConnectedHandler: the timers, the flushing of the stack's buffers and the
  codec parameters that the streaming thread takes over.
- A2dpSink.Sink.HandleEnableSink: the parameters that are read from the configuration, and the calls
  that initialise the interfaces of the stack.
- A2dpSink.Sink.HandleSinkStreamingDisableDone: the clean-up calls of the stack's interfaces.
- A2dpSink.Sink.HandleDisableSinkStreaming: closing the audio stream and freeing the timers.
- GapBarriers.Gap.StopDone: the access profile's array reaches at least to the audio manager; the
  adapter, the timers and the processes that the barriers start or kill.
- A2dp_Sink_Split.cpp, a near copy of the sink whose disable path differs.
- Codec list parsing, sampling-rate tables, volume, the AVRCP controller, HFP, GATT, and the
  interfaces of the stack and the audio HAL: little logic, or none that is visible.
