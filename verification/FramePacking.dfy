/**
  SBC payloads as sequences of frames, and what `SendEncodedData` packs of them: the longest
  beginning of at most seven frames that fits.
 */
module FramePacking {
  import opened Bytes
  import opened SbcFrames
  import opened Sequences

  const MAX_FRAMES := 7

  // ------------------------------------------------------------------------------------------
  // Frames

  /** A frame at the start of `bytes`: a sync word, and as many bytes as the header says. */
  predicate StartsWithFrame(bytes: seq<Byte>) {
    && 3 <= |bytes| && bytes[0] == SBC_SYNCWORD
    && FrameLength(HeaderOf(bytes)) <= 0xFF && FrameLength(HeaderOf(bytes)) <= |bytes|
  }

  /** The length of the frame that `bytes` starts with. */
  function FirstLength(bytes: seq<Byte>): (n: nat)
    requires StartsWithFrame(bytes)
    ensures 3 < n <= 0xFF && n <= |bytes|
  {
    FrameLength(HeaderOf(bytes))
  }

  /** A sequence of whole frames, none of them longer than 255 bytes. */
  predicate Aligned(bytes: seq<Byte>)
    decreases |bytes|
  {
    bytes != [] ==> StartsWithFrame(bytes) && Aligned(bytes[FirstLength(bytes)..])
  }

  function FramesOf(bytes: seq<Byte>): seq<seq<Byte>>
    requires Aligned(bytes)
    decreases |bytes|
  {
    if bytes == [] then []
    else [bytes[..FirstLength(bytes)]] + FramesOf(bytes[FirstLength(bytes)..])
  }

  /** What follows a frame does not change how it is recognised. */
  lemma FirstLengthStable(a: seq<Byte>, b: seq<Byte>)
    requires StartsWithFrame(a)
    ensures StartsWithFrame(a + b) && FirstLength(a + b) == FirstLength(a)
    ensures HeaderOf(a + b) == HeaderOf(a) && (a + b)[..FirstLength(a)] == a[..FirstLength(a)]
  {}

  lemma {:induction false} AlignedConcat(a: seq<Byte>, b: seq<Byte>)
    requires Aligned(a) && Aligned(b)
    ensures Aligned(a + b)
    decreases |a|
  {
    if a == [] {
      assert a + b == b;
    } else {
      FirstLengthStable(a, b);
      assert (a + b)[FirstLength(a)..] == a[FirstLength(a)..] + b;
      AlignedConcat(a[FirstLength(a)..], b);
    }
  }

  lemma FramesNext(bytes: seq<Byte>)
    requires Aligned(bytes) && bytes != []
    ensures StartsWithFrame(bytes) && Aligned(bytes[FirstLength(bytes)..])
    ensures FramesOf(bytes) == [bytes[..FirstLength(bytes)]] + FramesOf(bytes[FirstLength(bytes)..])
  {}

  lemma {:induction false} FramesConcat(a: seq<Byte>, b: seq<Byte>)
    requires Aligned(a) && Aligned(b) && Aligned(a + b)
    ensures FramesOf(a + b) == FramesOf(a) + FramesOf(b)
    decreases |a|
  {
    if a == [] {
      assert a + b == b;
    } else {
      hide FramesOf, Aligned, FirstLength, StartsWithFrame;
      FramesNext(a);
      FramesNext(a + b);
      FirstLengthStable(a, b);
      DropFromFirst(a, b, FirstLength(a));
      FramesConcat(a[FirstLength(a)..], b);
      PrependFirst(a[..FirstLength(a)], FramesOf(a[FirstLength(a)..]), FramesOf(b));
    }
  }

  // ------------------------------------------------------------------------------------------
  // Greedy packing

  /** The number of frames that go into `room` bytes, `left` at most. */
  function Fits(bytes: seq<Byte>, room: int, left: nat): (n: nat)
    requires Aligned(bytes)
    ensures n <= left
    decreases |bytes|
  {
    if bytes == [] || left == 0 || FirstLength(bytes) > room then 0
    else 1 + Fits(bytes[FirstLength(bytes)..], room - FirstLength(bytes), left - 1)
  }

  /** The length of the first `n` frames. */
  function Length(bytes: seq<Byte>, n: nat): (k: nat)
    requires Aligned(bytes)
    ensures k <= |bytes|
    decreases |bytes|
  {
    if bytes == [] || n == 0 then 0
    else FirstLength(bytes) + Length(bytes[FirstLength(bytes)..], n - 1)
  }

  /** What is left behind the first `n` frames. */
  function Behind(bytes: seq<Byte>, n: nat): seq<Byte>
    requires Aligned(bytes)
  {
    bytes[Length(bytes, n)..]
  }

  /** Behind the first `n` frames come the others. */
  lemma {:induction false} LengthDropsFrames(bytes: seq<Byte>, n: nat)
    requires Aligned(bytes) && n <= |FramesOf(bytes)|
    ensures Aligned(Behind(bytes, n)) && FramesOf(Behind(bytes, n)) == FramesOf(bytes)[n..]
    decreases |bytes|
  {
    hide StartsWithFrame, FirstLength;
    if n > 0 {
      var m := FirstLength(bytes);
      var tail := bytes[m..];
      FramesNext(bytes);
      LengthDropsFrames(tail, n - 1);
      var k := Length(tail, n - 1);
      assert Length(bytes, n) == m + k;
      hide FirstLength, Aligned, FramesOf, Length;
      DropTwice(bytes, m, k);
      DropBehindFirst(bytes[..m], FramesOf(tail), n);
    } else {
      assert bytes[0..] == bytes && FramesOf(bytes)[0..] == FramesOf(bytes);
    }
  }

  /** The first `n` frames are the first `Length(n)` bytes. */
  lemma {:induction false} LengthTakesFrames(bytes: seq<Byte>, n: nat)
    requires Aligned(bytes) && n <= |FramesOf(bytes)|
    ensures bytes[..Length(bytes, n)] == Flat(FramesOf(bytes)[..n])
    decreases |bytes|
  {
    hide StartsWithFrame, FirstLength;
    if n > 0 {
      var m, frames := FirstLength(bytes), FramesOf(bytes);
      var k := Length(bytes[m..], n - 1);
      LengthTakesFrames(bytes[m..], n - 1);
      assert bytes[..m + k] == bytes[..m] + bytes[m..][..k];
      assert frames[..n][1..] == FramesOf(bytes[m..])[..n - 1];
    }
  }

  /** It is the longest beginning that fits: no larger number of frames does. */
  lemma {:induction false} FitsIsLongest(bytes: seq<Byte>, room: nat, left: nat)
    requires Aligned(bytes)
    ensures var n := Fits(bytes, room, left);
            && n <= |FramesOf(bytes)| && Length(bytes, n) <= room
            && forall m :: 0 <= m <= |FramesOf(bytes)| && m <= left && Length(bytes, m) <= room ==> m <= n
    decreases |bytes|
  {
    if bytes != [] && left > 0 && FirstLength(bytes) <= room {
      FitsIsLongest(bytes[FirstLength(bytes)..], room - FirstLength(bytes), left - 1);
    }
  }

  /** What is packed, behind `packet`, and what stays queued. */
  function Result(packet: seq<Byte>, bytes: seq<Byte>, room: int, left: nat): (seq<Byte>, seq<Byte>)
    requires Aligned(bytes)
  {
    var n := Length(bytes, Fits(bytes, room, left));
    (packet + bytes[..n], Behind(bytes, Fits(bytes, room, left)))
  }

  /** The next frame has been moved into the packet, or does not fit into `room`. */
  predicate PackedNext(bytes: seq<Byte>, bytes': seq<Byte>, packet: seq<Byte>, packet': seq<Byte>, room: nat)
    requires StartsWithFrame(bytes)
  {
    var n := FirstLength(bytes);
    if n > room then bytes' == bytes && packet' == packet
    else bytes' == bytes[n..] && packet' == packet + bytes[..n]
  }

  lemma PackedOneMore(
    packet: seq<Byte>, bytes: seq<Byte>, room: nat, left: nat, header: Header, packet': seq<Byte>, bytes': seq<Byte>)
    requires Aligned(bytes) && bytes != [] && left > 0 && FirstLength(bytes) <= room
    requires PackedNext(bytes, bytes', packet, packet', room)
    ensures |packet'| == |packet| + FirstLength(bytes) && Aligned(bytes')
    ensures Fits(bytes, room, left) == 1 + Fits(bytes', room - FirstLength(bytes), left - 1)
    ensures Result(packet, bytes, room, left) == Result(packet', bytes', room - FirstLength(bytes), left - 1)
    ensures LastLooked(bytes, room, left, header)
         == LastLooked(bytes', room - FirstLength(bytes), left - 1, HeaderOf(bytes))
  {
    hide FirstLength, StartsWithFrame;
    var m := FirstLength(bytes);
    var k := Length(bytes', Fits(bytes', room - m, left - 1));
    assert bytes[m + k..] == bytes'[k..];
    assert bytes[..m + k] == bytes[..m] + bytes'[..k];
    assert packet + (bytes[..m] + bytes'[..k]) == (packet + bytes[..m]) + bytes'[..k];
  }

  lemma PackedAll(packet: seq<Byte>, bytes: seq<Byte>, room: int, left: nat, header: Header)
    requires Aligned(bytes) && (bytes == [] || left == 0 || room == 0 || FirstLength(bytes) > room)
    ensures Fits(bytes, room, left) == 0 && Result(packet, bytes, room, left) == (packet, bytes)
    ensures LastLooked(bytes, room, left, header)
         == if bytes == [] || left == 0 || room <= 0 then header else HeaderOf(bytes)
  {
    assert packet + bytes[..0] == packet && bytes[0..] == bytes;
  }

  // ------------------------------------------------------------------------------------------
  // What is sent, frame by frame

  /** `n` frames, at most seven, fit into `room` bytes; one more does not, or is not there, or not allowed. */
  ghost predicate LongestBeginning(frames: seq<seq<Byte>>, n: nat, room: nat) {
    && n <= |frames| && n <= 7 && |Flat(frames[..n])| <= room
    && forall m {:trigger frames[..m]} :: n < m <= |frames| && m <= 7 ==> |Flat(frames[..m])| > room
  }

  lemma FitsIsLongestBeginning(bytes: seq<Byte>, room: nat)
    requires Aligned(bytes)
    ensures var n, frames := Fits(bytes, room, MAX_FRAMES), FramesOf(bytes);
            && LongestBeginning(frames, n, room) && n <= |frames| && n <= MAX_FRAMES
            && bytes[..Length(bytes, n)] == Flat(frames[..n])
            && Aligned(Behind(bytes, n)) && FramesOf(Behind(bytes, n)) == frames[n..]
  {
    hide Aligned, Fits, Length, FramesOf, Flat;
    var n, frames := Fits(bytes, room, MAX_FRAMES), FramesOf(bytes);
    FitsIsLongest(bytes, room, MAX_FRAMES);
    LengthTakesFrames(bytes, n);
    LengthDropsFrames(bytes, n);
    forall m | n < m <= |frames| && m <= MAX_FRAMES ensures |Flat(frames[..m])| > room {
      LengthTakesFrames(bytes, m);
    }
  }

  /** The header that was looked at last: of the frame that does not fit, or of the last one packed. */
  function LastLooked(bytes: seq<Byte>, room: int, left: nat, header: Header): Header
    requires Aligned(bytes)
    decreases |bytes|
  {
    if bytes == [] || left == 0 || room <= 0 then header
    else if FirstLength(bytes) > room then HeaderOf(bytes)
    else LastLooked(bytes[FirstLength(bytes)..], room - FirstLength(bytes), left - 1, HeaderOf(bytes))
  }

  /** The samples that one channel of a frame carries. */
  function Samples(frame: seq<Byte>): nat {
    if |frame| < 3 then 0 else HeaderOf(frame).Samples()
  }

  /** The samples of the frame looked at last, given that `n` have been packed, `k` bytes long. */
  function LookedSamples(frames: seq<seq<Byte>>, n: nat, k: nat, room: int, left: nat, otherwise: nat): nat
    requires n <= |frames|
  {
    if n < |frames| && n < left && k < room then Samples(frames[n])
    else if n > 0 then Samples(frames[n - 1])
    else otherwise
  }

  lemma LookedNext(
    frame: seq<Byte>, frames: seq<seq<Byte>>, n: nat, k: nat, room: int, left: nat, otherwise: nat)
    requires n <= |frames| && left > 0
    ensures LookedSamples([frame] + frames, 1 + n, |frame| + k, room, left, otherwise)
         == LookedSamples(frames, n, k, room - |frame|, left - 1, Samples(frame))
  {}

  /**
    The one looked at last is the frame behind those that are packed, if there is one and the packet
    is neither full nor has all the frames allowed, and else the last one packed.
   */
  lemma {:induction false} LastLookedIs(bytes: seq<Byte>, room: int, left: nat, header: Header)
    requires Aligned(bytes)
    ensures var n, frames := Fits(bytes, room, left), FramesOf(bytes);
            && n <= |frames|
            && LastLooked(bytes, room, left, header).Samples()
               == LookedSamples(frames, n, Length(bytes, n), room, left, header.Samples())
    decreases |bytes|
  {
    hide HeaderOf, FirstLength, StartsWithFrame, Samples, FramesOf, Aligned, LookedSamples;
    if bytes == [] || left == 0 || room <= 0 {
      LooksAtNothing(bytes, room, left, header);
    } else {
      FramesNext(bytes);
      FirstHeader(bytes);
      var m := FirstLength(bytes);
      if m <= room {
        LastLookedIs(bytes[m..], room - m, left - 1, HeaderOf(bytes));
        var n := Fits(bytes[m..], room - m, left - 1);
        LookedNext(bytes[..m], FramesOf(bytes[m..]), n, Length(bytes[m..], n), room, left, header.Samples());
      } else {
        LooksAtFirst(bytes, room, left, header);
      }
    }
  }

  lemma LooksAtNothing(bytes: seq<Byte>, room: int, left: nat, header: Header)
    requires Aligned(bytes) && (bytes == [] || left == 0 || room <= 0)
    ensures Fits(bytes, room, left) == 0 && LastLooked(bytes, room, left, header) == header
    ensures LookedSamples(FramesOf(bytes), 0, Length(bytes, 0), room, left, header.Samples()) == header.Samples()
  {}

  lemma LooksAtFirst(bytes: seq<Byte>, room: int, left: nat, header: Header)
    requires Aligned(bytes) && bytes != [] && left > 0 && 0 < room < FirstLength(bytes)
    ensures Fits(bytes, room, left) == 0 && LastLooked(bytes, room, left, header) == HeaderOf(bytes)
    ensures LookedSamples(FramesOf(bytes), 0, Length(bytes, 0), room, left, header.Samples())
         == HeaderOf(bytes).Samples()
  {
    FirstHeader(bytes);
  }

  lemma FirstHeader(bytes: seq<Byte>)
    requires StartsWithFrame(bytes)
    ensures Samples(bytes[..FirstLength(bytes)]) == HeaderOf(bytes).Samples()
  {}

  ghost predicate Uniform(frames: seq<seq<Byte>>, samples: nat) {
    forall f :: f in frames ==> Samples(f) == samples
  }

  lemma {:induction false} LastLookedIsUniform(bytes: seq<Byte>, room: int, left: nat, header: Header, samples: nat)
    requires Aligned(bytes) && Uniform(FramesOf(bytes), samples)
    requires header.Samples() == samples || (bytes != [] && left > 0 && room > 0)
    ensures LastLooked(bytes, room, left, header).Samples() == samples
    decreases |bytes|
  {
    if bytes != [] && left > 0 && room > 0 {
      var m := FirstLength(bytes);
      assert FramesOf(bytes) == [bytes[..m]] + FramesOf(bytes[m..]);
      assert Samples(bytes[..m]) == samples by {
        assert bytes[..m] in FramesOf(bytes);
      }
      assert HeaderOf(bytes) == HeaderOf(bytes[..m]);
      hide HeaderOf, FirstLength;
      if m <= room {
        LastLookedIsUniform(bytes[m..], room - m, left - 1, HeaderOf(bytes), samples);
      }
    }
  }

  function Big16(s: seq<Byte>, at: nat): int
    requires at + 2 <= |s|
  {
    (s[at] as int) * 0x100 + s[at + 1]
  }

  function Big32(s: seq<Byte>, at: nat): int
    requires at + 4 <= |s|
  {
    Big16(s, at) * 0x1_0000 + Big16(s, at + 2)
  }

  /**
    `packet` carries the RTP header of the front packet, with a sequence number and a timestamp of
    its own, then the number of frames, and then the longest beginning of the pending frames.
   */
  ghost predicate Emits(
    front: seq<Byte>, frames: seq<seq<Byte>>, mtu: nat, sequenceNumber: int, timestamp: int,
    packet: seq<Byte>, rest: seq<seq<Byte>>)
  {
    && HasRtpHeader(front)
    && var h := RtpHeaderLength(front);
    && 12 <= h < |packet| <= mtu && h < |front|
    && packet[..2] == front[..2] && Big16(packet, 2) == sequenceNumber && Big32(packet, 4) == timestamp
    && packet[8..h] == front[8..h]
    && var n: int := packet[h];
       LongestBeginning(frames, n, mtu - h - 1) && packet[h + 1..] == Flat(frames[..n]) && rest == frames[n..]
  }
}
