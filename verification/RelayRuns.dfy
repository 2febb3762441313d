/**
  The relay of the A2DP source over whole runs: packets arrive and are repacketised, in any order.
 */
module RelayRuns {
  import opened Bytes
  import opened SbcFrames
  import opened FramePacking
  import opened Sequences

  const NO_HEADER := Header(0, 0, 0, 0)

  /** What the header holds before the first frame is looked at does not matter. */
  lemma LastLookedAfter(bytes: seq<Byte>, room: int, header: Header)
    requires Aligned(bytes)
    ensures LastLooked(bytes, room, MAX_FRAMES, header) == LastLooked(bytes, room, MAX_FRAMES, NO_HEADER)
         || Fits(bytes, room, MAX_FRAMES) == 0
  {}

  lemma UniformParts(a: seq<seq<Byte>>, b: seq<seq<Byte>>, samples: nat)
    requires Uniform(a + b, samples)
    ensures Uniform(a, samples) && Uniform(b, samples)
  {
    forall f | f in a || f in b ensures Samples(f) == samples {
      assert f in a + b;
    }
  }

  lemma CountedIsUniform(all: seq<Byte>, room: nat, samples: nat)
    requires Aligned(all) && Uniform(FramesOf(all), samples) && Fits(all, room, MAX_FRAMES) > 0
    ensures LastLooked(all, room, MAX_FRAMES, NO_HEADER).Samples() == samples
  {
    LastLookedIsUniform(all, room, MAX_FRAMES, NO_HEADER, samples);
  }

  /** The samples that one channel of all the frames carries. */
  function TotalSamples(frames: seq<seq<Byte>>): nat {
    if frames == [] then 0 else Samples(frames[0]) + TotalSamples(frames[1..])
  }

  lemma {:induction false} TotalConcat(a: seq<seq<Byte>>, b: seq<seq<Byte>>)
    ensures TotalSamples(a + b) == TotalSamples(a) + TotalSamples(b)
    decreases |a|
  {
    if a == [] {
      assert a + b == b;
    } else {
      assert (a + b)[1..] == a[1..] + b;
      TotalConcat(a[1..], b);
    }
  }

  lemma {:induction false} TotalOfUniform(frames: seq<seq<Byte>>, samples: nat)
    requires Uniform(frames, samples)
    ensures TotalSamples(frames) == |frames| * samples
    decreases |frames|
  {
    if frames != [] {
      TotalOfUniform(frames[1..], samples);
      assert |frames| * samples == samples + (|frames| - 1) * samples;
    }
  }

  lemma SamplesBound(h: Header)
    requires h.blocks <= 16 && h.subbands <= 8
    ensures h.Samples() <= 128
  {}

  lemma {:induction false} TotalBound(frames: seq<seq<Byte>>)
    ensures TotalSamples(frames) <= 128 * |frames|
    decreases |frames|
  {
    if frames != [] {
      if |frames[0]| >= 3 {
        SamplesBound(HeaderOf(frames[0]));
      }
      TotalBound(frames[1..]);
    }
  }

  lemma {:induction false} LastLookedBound(bytes: seq<Byte>, room: int, left: nat, header: Header)
    requires Aligned(bytes) && header.Samples() <= 128
    ensures LastLooked(bytes, room, left, header).Samples() <= 128
    decreases |bytes|
  {
    if bytes != [] && left > 0 && room > 0 {
      SamplesBound(HeaderOf(bytes));
      if FirstLength(bytes) <= room {
        LastLookedBound(bytes[FirstLength(bytes)..], room - FirstLength(bytes), left - 1, HeaderOf(bytes));
      }
    }
  }

  /** The timestamp after `count` frames, counted as if all were like the one with header `h`. */
  function Advance(timestamp: UInt32, count: nat, h: Header): UInt32 {
    (timestamp + count * h.subbands * h.blocks) % 0x1_0000_0000
  }

  lemma AdvanceByNone(timestamp: UInt32, h: Header, h': Header)
    ensures Advance(timestamp, 0, h) == Advance(timestamp, 0, h')
  {}

  lemma AdvanceBySamples(timestamp: UInt32, count: nat, h: Header)
    ensures Advance(timestamp, count, h) == (timestamp + count * h.Samples()) % 0x1_0000_0000
  {
    assert count * h.subbands * h.blocks == count * (h.blocks * h.subbands);
  }

  /** The bytes of the frames that are queued, and the counters of the RTP headers. */
  datatype State = State(pending: seq<Byte>, sequenceNumber: UInt16, timestamp: UInt32)

  /** The state after a packet of `room` bytes for frames has been sent. */
  function AfterSending(s: State, room: int): State
    requires Aligned(s.pending)
  {
    var n := Fits(s.pending, room, MAX_FRAMES);
    State(Behind(s.pending, n), (s.sequenceNumber + 1) % 0x1_0000,
          Advance(s.timestamp, n, LastLooked(s.pending, room, MAX_FRAMES, NO_HEADER)))
  }

  /** What has happened so far: frames queued and sent, packets sent, and samples counted too much. */
  datatype Log = Log(accepted: seq<seq<Byte>>, sent: seq<seq<Byte>>, packets: nat, miscounted: int) {
    function Queues(frames: seq<seq<Byte>>): Log { this.(accepted := accepted + frames) }

    function Sends(frames: seq<seq<Byte>>, wrong: int): Log {
      Log(accepted, sent + frames, packets + 1, miscounted + wrong)
    }
  }

  /**
    By how many samples the next send counts too much (or, if negative, too little): every frame
    that is sent counts like the one that is looked at last.
   */
  function Miscount(pending: seq<Byte>, room: nat): int
    requires Aligned(pending)
  {
    FitsIsLongest(pending, room, MAX_FRAMES);
    var n := Fits(pending, room, MAX_FRAMES);
    n * LastLooked(pending, room, MAX_FRAMES, NO_HEADER).Samples() - TotalSamples(FramesOf(pending)[..n])
  }

  lemma SendAdvances(s: State, room: nat)
    requires Aligned(s.pending)
    ensures var n := Fits(s.pending, room, MAX_FRAMES);
            && n <= |FramesOf(s.pending)|
            && AfterSending(s, room).timestamp
               == (s.timestamp + TotalSamples(FramesOf(s.pending)[..n]) + Miscount(s.pending, room)) % 0x1_0000_0000
  {
    hide Aligned, FramesOf, Fits, LastLooked, Advance, TotalSamples;
    FitsIsLongest(s.pending, room, MAX_FRAMES);
    AdvanceBySamples(s.timestamp, Fits(s.pending, room, MAX_FRAMES),
                     LastLooked(s.pending, room, MAX_FRAMES, NO_HEADER));
  }

  lemma SameAdvance(t: int, a: int, wrong: int)
    requires 0 <= a <= 1000 && 0 <= a + wrong <= 1000
    ensures (t + a + wrong) % 0x1_0000_0000 == (t + a) % 0x1_0000_0000 <==> wrong == 0
  {}

  lemma CountedBound(n: nat, counted: nat)
    requires n <= MAX_FRAMES && counted <= 128
    ensures 0 <= n * counted <= 896
  {}

  /**
    A send advances the timestamp by the samples that it sends if and only if the header that it
    looks at last, times the number of its frames, gives their samples.  That is the header of the
    frame behind them, if there is one and the packet could take more, and else of the last of them.
   */
  lemma SendCountsRight(s: State, room: nat)
    requires Aligned(s.pending)
    ensures var n := Fits(s.pending, room, MAX_FRAMES);
            && n <= |FramesOf(s.pending)|
            && var sent := TotalSamples(FramesOf(s.pending)[..n]);
               AfterSending(s, room).timestamp == (s.timestamp + sent) % 0x1_0000_0000
               <==> n * LastLooked(s.pending, room, MAX_FRAMES, NO_HEADER).Samples() == sent
    ensures var n, frames := Fits(s.pending, room, MAX_FRAMES), FramesOf(s.pending);
            && n <= |frames|
            && LastLooked(s.pending, room, MAX_FRAMES, NO_HEADER).Samples()
               == LookedSamples(frames, n, Length(s.pending, n), room, MAX_FRAMES, 0)
  {
    LastLookedIs(s.pending, room, MAX_FRAMES, NO_HEADER);
    hide Aligned, FramesOf, Fits, LastLooked, TotalSamples, AfterSending;
    SendAdvances(s, room);
    LastLookedBound(s.pending, room, MAX_FRAMES, NO_HEADER);
    var n, counted := Fits(s.pending, room, MAX_FRAMES), LastLooked(s.pending, room, MAX_FRAMES, NO_HEADER).Samples();
    TotalBound(FramesOf(s.pending)[..n]);
    CountedBound(n, counted);
    SameAdvance(s.timestamp, TotalSamples(FramesOf(s.pending)[..n]), Miscount(s.pending, room));
  }

  /** Frames that all carry the same number of samples are counted right. */
  lemma UniformCountsRight(pending: seq<Byte>, room: nat, samples: nat)
    requires Aligned(pending) && Uniform(FramesOf(pending), samples)
    ensures Miscount(pending, room) == 0
  {
    hide Aligned, FramesOf, Fits, LastLooked, Uniform, TotalSamples;
    FitsIsLongest(pending, room, MAX_FRAMES);
    var n, frames := Fits(pending, room, MAX_FRAMES), FramesOf(pending);
    assert frames[..n] + frames[n..] == frames;
    UniformParts(frames[..n], frames[n..], samples);
    TotalOfUniform(frames[..n], samples);
    if n > 0 {
      CountedIsUniform(pending, room, samples);
    }
  }

  /**
    Every frame that was queued has been sent or is still pending, in order; the sequence number is
    the number of packets, and the timestamp the number of samples sent and those counted too much,
    modulo their widths.  None are if all frames carry the same number of samples.
   */
  ghost predicate Agrees(log: Log, s: State) {
    && Aligned(s.pending) && log.accepted == log.sent + FramesOf(s.pending)
    && s.sequenceNumber == log.packets % 0x1_0000
    && s.timestamp == (TotalSamples(log.sent) + log.miscounted) % 0x1_0000_0000
    && (forall samples: nat {:trigger Uniform(log.accepted, samples)} ::
          Uniform(log.accepted, samples) ==> log.miscounted == 0)
  }

  lemma QueuedAgrees(log: Log, s: State, more: seq<Byte>)
    requires Agrees(log, s) && Aligned(more)
    ensures Agrees(log.Queues(FramesOf(more)), s.(pending := s.pending + more))
  {
    hide Aligned, FramesOf, TotalSamples, Uniform;
    AlignedConcat(s.pending, more);
    FramesConcat(s.pending, more);
    JoinRest(log.sent, FramesOf(s.pending), FramesOf(more));
    forall samples: nat | Uniform(log.accepted + FramesOf(more), samples)
      ensures log.miscounted == 0
    {
      UniformParts(log.accepted, FramesOf(more), samples);
    }
  }

  lemma AddModulo(t: int, a: int)
    ensures (t % 0x1_0000_0000 + a) % 0x1_0000_0000 == (t + a) % 0x1_0000_0000
  {}

  lemma RestIsBehind(all: seq<Byte>, room: nat)
    requires Aligned(all)
    ensures var n := Fits(all, room, MAX_FRAMES);
            n <= |FramesOf(all)| && Aligned(Behind(all, n)) && FramesOf(Behind(all, n)) == FramesOf(all)[n..]
  {
    FitsIsLongest(all, room, MAX_FRAMES);
    LengthDropsFrames(all, Fits(all, room, MAX_FRAMES));
  }

  /** What is noted of a send. */
  function Noted(log: Log, s: State, room: nat): Log
    requires Aligned(s.pending)
  {
    FitsIsLongest(s.pending, room, MAX_FRAMES);
    log.Sends(FramesOf(s.pending)[..Fits(s.pending, room, MAX_FRAMES)], Miscount(s.pending, room))
  }

  lemma SentAgrees(log: Log, s: State, room: nat)
    requires Agrees(log, s)
    ensures Agrees(Noted(log, s, room), AfterSending(s, room))
  {
    hide Aligned, FramesOf, Fits, Behind, LastLooked, LongestBeginning, Uniform, Advance, TotalSamples, Miscount;
    var n, frames := Fits(s.pending, room, MAX_FRAMES), FramesOf(s.pending);
    RestIsBehind(s.pending, room);
    SplitRest(log.sent, frames, n);
    SendAdvances(s, room);
    TotalConcat(log.sent, frames[..n]);
    AddModulo(TotalSamples(log.sent) + log.miscounted, TotalSamples(frames[..n]) + Miscount(s.pending, room));
    forall samples: nat | Uniform(log.accepted, samples)
      ensures log.miscounted + Miscount(s.pending, room) == 0
    {
      UniformParts(log.sent, frames, samples);
      UniformCountsRight(s.pending, room, samples);
    }
  }

  /** The frames of an accepted packet are queued, or a packet with `room` bytes for frames is sent. */
  datatype Event = Arrives(frames: seq<Byte>) | Sends(room: nat)

  ghost predicate AllAligned(events: seq<Event>) {
    forall e :: e in events && e.Arrives? ==> Aligned(e.frames)
  }

  /**
    What has happened after a run of events, and the state then.  In every run, every accepted frame
    is sent once and in order, or still pending; the sequence number counts the packets and the
    timestamp the samples and the miscounted ones, modulo their widths.
   */
  ghost function Run(events: seq<Event>): (r: (Log, State))
    requires AllAligned(events)
    ensures Agrees(r.0, r.1)
    decreases |events|
  {
    if events == [] then
      NothingAgrees();
      (Log([], [], 0, 0), State([], 0, 0))
    else
      var e := events[|events| - 1];
      var (log, s) := Run(events[..|events| - 1]);
      match e
      case Arrives(frames) =>
        QueuedAgrees(log, s, frames);
        (log.Queues(FramesOf(frames)), s.(pending := s.pending + frames))
      case Sends(room) =>
        SentAgrees(log, s, room);
        (Noted(log, s, room), AfterSending(s, room))
  }

  /**
    In a run the timestamp is right if and only if the sends have together counted as many samples
    as they sent; so it is if all frames carry the same number.
   */
  lemma TimestampOfRun(events: seq<Event>)
    requires AllAligned(events)
    ensures var (log, s) := Run(events);
            && (s.timestamp == TotalSamples(log.sent) % 0x1_0000_0000 <==> log.miscounted % 0x1_0000_0000 == 0)
            && (forall samples: nat {:trigger Uniform(log.accepted, samples)} :: Uniform(log.accepted, samples)
                  ==> s.timestamp == |log.sent| * samples % 0x1_0000_0000)
  {
    hide Run, Uniform, TotalSamples;
    var (log, s) := Run(events);
    AddModulo(log.miscounted, TotalSamples(log.sent));
    forall samples: nat | Uniform(log.accepted, samples)
      ensures s.timestamp == |log.sent| * samples % 0x1_0000_0000
    {
      UniformParts(log.sent, FramesOf(s.pending), samples);
      TotalOfUniform(log.sent, samples);
    }
  }

  const FOUR_BY_FOUR: seq<Byte> := [0x9C, 0, 0, 0, 0, 0]
  const EIGHT_BY_FOUR: seq<Byte> := [0x9C, 0x10, 0, 0, 0, 0]

  lemma SecondFrame()
    ensures HeaderOf(EIGHT_BY_FOUR) == Header(8, 0, 4, 0)
    ensures StartsWithFrame(EIGHT_BY_FOUR) && FirstLength(EIGHT_BY_FOUR) == 6 && Aligned(EIGHT_BY_FOUR)
  {
    assert EIGHT_BY_FOUR[6..] == [];
  }

  lemma FirstFrame()
    ensures HeaderOf(FOUR_BY_FOUR) == Header(4, 0, 4, 0)
    ensures StartsWithFrame(FOUR_BY_FOUR) && FirstLength(FOUR_BY_FOUR) == 6
  {}

  /**
    With frames of different size the timestamp goes wrong: one frame of 16 samples is sent, and 32
    are counted, because the next one, which does not fit, has been looked at.
   */
  lemma MixedFramesMiscount()
    ensures var bytes := FOUR_BY_FOUR + EIGHT_BY_FOUR;
            && Aligned(bytes) && Fits(bytes, 7, MAX_FRAMES) == 1
            && HeaderOf(bytes).Samples() == 16
            && AfterSending(State(bytes, 0, 0), 7).timestamp == 32
  {
    var bytes := FOUR_BY_FOUR + EIGHT_BY_FOUR;
    SecondFrame();
    FirstFrame();
    FirstLengthStable(FOUR_BY_FOUR, EIGHT_BY_FOUR);
    assert bytes[6..] == EIGHT_BY_FOUR && bytes != [] && EIGHT_BY_FOUR != [];
    hide StartsWithFrame, FirstLength, HeaderOf, FOUR_BY_FOUR, EIGHT_BY_FOUR;
    assert LastLooked(EIGHT_BY_FOUR, 1, 6, HeaderOf(bytes)) == HeaderOf(EIGHT_BY_FOUR);
    assert Fits(EIGHT_BY_FOUR, 1, 6) == 0;
  }

  lemma NothingAgrees()
    ensures Agrees(Log([], [], 0, 0), State([], 0, 0))
  {}
}
