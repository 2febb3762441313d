/**
  `SendEncodedData`: SBC frames are taken out of the queued media packets and packed into new
  packets of at most the MTU and at most seven frames.
 */
module Repacketiser {
  import opened Bytes
  import opened SbcFrames
  import opened RelayQueue
  import opened FramePacking
  import opened RelayRuns
  import opened Sequences

  // ------------------------------------------------------------------------------------------
  // The queue

  /** Where the next frame of a packet starts: at its offset, but not before the headers' end. */
  function Start(data: seq<Byte>, offset: nat): nat
    requires HasRtpHeader(data)
  {
    if offset < RtpHeaderLength(data) + 1 then RtpHeaderLength(data) + 1 else offset
  }

  /**
    An RTP header shorter than `limit`, the media packet header of one byte, and then whole frames,
    of which at least one is left.
   */
  ghost predicate IsMediaPacket(data: seq<Byte>, offset: nat, limit: nat) {
    && HasRtpHeader(data) && RtpHeaderLength(data) < limit
    && Start(data, offset) < |data| && Aligned(data[Start(data, offset)..])
  }

  /** Media packets, of which only the first may have been started on. */
  ghost predicate Ready(ps: seq<Packet>, limit: nat, started: bool)
    reads ps
  {
    ps != [] ==>
      && IsMediaPacket(ps[0].data, ps[0].offset, limit) && (started || ps[0].offset == 0)
      && Ready(ps[1..], limit, false)
  }

  /** The bytes of the frames that are still queued. */
  ghost function Payload(ps: seq<Packet>, limit: nat): seq<Byte>
    requires Ready(ps, limit, true)
    reads ps
  {
    if ps == [] then []
    else ps[0].data[Start(ps[0].data, ps[0].offset)..] + (ReadyAnyway(ps[1..], limit); Payload(ps[1..], limit))
  }

  lemma ReadyAnyway(ps: seq<Packet>, limit: nat)
    requires Ready(ps, limit, false)
    ensures Ready(ps, limit, true)
  {}

  lemma {:induction false} PayloadIsAligned(ps: seq<Packet>, limit: nat)
    requires Ready(ps, limit, true)
    ensures Aligned(Payload(ps, limit))
    decreases |ps|
  {
    if ps != [] {
      ReadyAnyway(ps[1..], limit);
      PayloadIsAligned(ps[1..], limit);
      AlignedConcat(ps[0].data[Start(ps[0].data, ps[0].offset)..], Payload(ps[1..], limit));
    }
  }

  lemma {:induction false} ReadyAppend(ps: seq<Packet>, p: Packet, limit: nat, started: bool)
    requires Ready(ps, limit, started) && IsMediaPacket(p.data, p.offset, limit) && p.offset == 0
    ensures Ready(ps + [p], limit, started) && Ready(ps + [p], limit, true)
    decreases |ps|
  {
    hide IsMediaPacket;
    if ps == [] {
      assert [] + [p] == [p] && [p][1..] == [];
    } else {
      assert (ps + [p])[1..] == ps[1..] + [p];
      ReadyAppend(ps[1..], p, limit, false);
    }
  }

  lemma {:induction false} PayloadAppend(ps: seq<Packet>, p: Packet, limit: nat)
    requires Ready(ps, limit, true) && Ready(ps + [p], limit, true)
    requires IsMediaPacket(p.data, p.offset, limit) && p.offset == 0
    ensures Payload(ps + [p], limit) == Payload(ps, limit) + p.data[Start(p.data, 0)..]
    decreases |ps|
  {
    hide HasRtpHeader, Start, RtpHeaderLength, Aligned;
    if ps == [] {
      assert [] + [p] == [p] && [p][1..] == [];
    } else {
      assert (ps + [p])[1..] == ps[1..] + [p];
      ReadyAnyway(ps[1..], limit);
      ReadyAnyway((ps + [p])[1..], limit);
      PayloadAppend(ps[1..], p, limit);
    }
  }

  /** The stamped packet, frame by frame. */
  lemma Stamped(
    front: seq<Byte>, h: nat, all: seq<Byte>, mtu: nat, sequenceNumber: int, timestamp: int,
    filled: seq<Byte>, packet: seq<Byte>)
    requires HasRtpHeader(front) && h == RtpHeaderLength(front) && 12 <= h < |front| && h < mtu && Aligned(all)
    requires filled == Result(front[..h + 1], all, mtu - h - 1, MAX_FRAMES).0
    requires |packet| == |filled| && packet[h] == Fits(all, mtu - h - 1, MAX_FRAMES)
    requires forall i :: 0 <= i < |packet| && i !in {2, 3, 4, 5, 6, 7, h} ==> packet[i] == filled[i]
    requires Big16(packet, 2) == sequenceNumber && Big32(packet, 4) == timestamp
    ensures Aligned(Result(front[..h + 1], all, mtu - h - 1, MAX_FRAMES).1)
    ensures Emits(front, FramesOf(all), mtu, sequenceNumber, timestamp, packet,
                  FramesOf(Result(front[..h + 1], all, mtu - h - 1, MAX_FRAMES).1))
  {
    hide HasRtpHeader, RtpHeaderLength, Aligned, Fits, Length, FramesOf, Flat, Big16, Big32;
    FitsIsLongestBeginning(all, mtu - h - 1);
    var k := Length(all, Fits(all, mtu - h - 1, MAX_FRAMES));
    assert filled == front[..h + 1] + all[..k];
    assert packet[..2] == front[..2] && packet[8..h] == front[8..h];
    assert packet[h + 1..] == all[..k];
  }

  /** A packet of `count` frames has been made; the timestamp has not been advanced yet. */
  ghost predicate Made(
    front: seq<Byte>, mtu: nat, s: State, s': State, packet: seq<Byte>, count: nat, header: Header)
  {
    && HasRtpHeader(front) && RtpHeaderLength(front) < mtu && Aligned(s.pending) && Aligned(s'.pending)
    && Emits(front, FramesOf(s.pending), mtu, s'.sequenceNumber, s.timestamp, packet, FramesOf(s'.pending))
    && var room := mtu - RtpHeaderLength(front) - 1;
    && count == Fits(s.pending, room, MAX_FRAMES)
    && s' == State(Behind(s.pending, count), (s.sequenceNumber + 1) % 0x1_0000, s.timestamp)
    && (count == 0 || header == LastLooked(s.pending, room, MAX_FRAMES, NO_HEADER))
  }

  /** `packet` is what is to be sent in state `s`, and `s'` the state afterwards. */
  ghost predicate Transmits(front: seq<Byte>, mtu: nat, s: State, s': State, packet: seq<Byte>) {
    && HasRtpHeader(front) && RtpHeaderLength(front) < mtu && Aligned(s.pending) && Aligned(s'.pending)
    && s' == AfterSending(s, mtu - RtpHeaderLength(front) - 1)
    && Emits(front, FramesOf(s.pending), mtu, s'.sequenceNumber, s.timestamp, packet, FramesOf(s'.pending))
  }

  lemma MadeTransmits(
    front: seq<Byte>, mtu: nat, s: State, s': State, packet: seq<Byte>, count: nat, header: Header)
    requires Made(front, mtu, s, s', packet, count, header)
    ensures Transmits(front, mtu, s, s'.(timestamp := Advance(s.timestamp, count, header)), packet)
  {
    hide HasRtpHeader, RtpHeaderLength, Aligned, Fits, Behind, LastLooked, Advance, Emits, FramesOf;
    if count == 0 {
      var room := mtu - RtpHeaderLength(front) - 1;
      AdvanceByNone(s.timestamp, header, LastLooked(s.pending, room, MAX_FRAMES, NO_HEADER));
    }
  }

  lemma FrontIsMedia(ps: seq<Packet>, limit: nat)
    requires Ready(ps, limit, true) && ps != []
    ensures var data := ps[0].data;
            HasRtpHeader(data) && 12 <= RtpHeaderLength(data) < limit && RtpHeaderLength(data) + 1 < |data|
  {}

  lemma QueueGrows(ps: seq<Packet>, p: Packet, limit: nat)
    requires Ready(ps, limit, true) && p.offset == 0 && IsMediaPacket(p.data, 0, limit)
    ensures Ready(ps + [p], limit, true) && HasRtpHeader(p.data) && RtpHeaderLength(p.data) < |p.data|
    ensures Aligned(p.data[RtpHeaderLength(p.data) + 1..])
    ensures Payload(ps + [p], limit) == Payload(ps, limit) + p.data[RtpHeaderLength(p.data) + 1..]
  {
    hide Ready, Payload, HasRtpHeader, RtpHeaderLength, Aligned;
    ReadyAppend(ps, p, limit, true);
    PayloadAppend(ps, p, limit);
  }

  class Source {
    const relay: Queue
    const mtu: UInt16
    /** What the source needs of an RTP header: that its length fits into eight bits and into the MTU. */
    const limit := Min(0x100, mtu)
    var sequenceNumber: UInt16
    var timestamp: UInt32

    /** The queue holds media packets. */
    ghost predicate Valid()
      reads relay, relay.Repr
    {
      relay.Valid() && Ready(relay.list, limit, true)
    }

    /** The bytes of the frames that are still queued. */
    ghost function Pending(): seq<Byte>
      requires Valid()
      reads relay, relay.Repr
    {
      Payload(relay.list, limit)
    }

    /** The state of the run that this source is in. */
    ghost function Now(): State
      requires Valid()
      reads this, relay, relay.Repr
    {
      State(Pending(), sequenceNumber, timestamp)
    }

    constructor (relay: Queue, mtu: UInt16)
      requires relay.Valid() && relay.list == []
      ensures Valid() && this.relay == relay && this.mtu == mtu && Now() == State([], 0, 0)
    {
      this.relay, this.mtu := relay, mtu;
      sequenceNumber, timestamp := 0, 0;
    }

    /** The sink queues a packet; it is lost when the queue is full. */
    method Arrive(buffer: seq<Byte>)
      requires Valid() && IsMediaPacket(Kept(buffer), 0, limit)
      modifies relay
      ensures Valid() && fresh(relay.Repr - old(relay.Repr))
      ensures old(|relay.list|) >= 25 ==> relay.list == old(relay.list) && Now() == old(Now())
      ensures old(|relay.list|) < 25 ==>
                var data := Kept(buffer);
                && Aligned(data[RtpHeaderLength(data) + 1..])
                && Now() == old(Now()).(pending := old(Now()).pending + data[RtpHeaderLength(data) + 1..])
    {
      hide IsMediaPacket, Aligned, Ready, Payload, Sound;
      ghost var list := relay.list;
      relay.Enqueue(buffer, Sbc);
      if relay.list != list {
        QueueGrows(list, relay.list[|list|], limit);
      }
    }

    /** The queue holds media packets, and the next frame starts at the first one's offset. */
    ghost predicate AtFrame()
      reads relay, relay.Repr
    {
      && relay.Valid() && Ready(relay.list, limit, true)
      && (relay.list != [] ==> relay.list[0].offset > RtpHeaderLength(relay.list[0].data))
    }

    /** Puts the offset of the front packet behind its headers. */
    method SkipHeaders()
      requires relay.Valid() && Ready(relay.list, limit, true) && relay.list != []
      modifies relay.Repr
      ensures AtFrame() && relay.list == old(relay.list)
      ensures Payload(relay.list, limit) == old(Payload(relay.list, limit))
    {
      hide HasRtpHeader, RtpHeaderLength, Aligned;
      var ptr := relay.list[0];
      var rtpHeader: int := GetRtpOffset(ptr.data, Sbc);
      if ptr.offset < rtpHeader + 1 {
        ptr.offset := rtpHeader + 1;
      }
    }

    /** Moves behind the next frame of the queue; a packet without further frames is removed. */
    method PassFrame(size: Byte)
      requires AtFrame() && relay.list != []
      requires size == FirstLength(relay.list[0].data[relay.list[0].offset..])
      modifies relay, relay.Repr
      ensures AtFrame() && relay.Repr == old(relay.Repr)
      ensures Payload(relay.list, limit) == old(Payload(relay.list, limit))[size..]
    {
      hide HasRtpHeader, RtpHeaderLength, StartsWithFrame, FirstLength;
      var ptr := relay.list[0];
      ghost var rest := ptr.data[ptr.offset..];
      assert rest[size..] == ptr.data[ptr.offset + size..];
      ptr.offset := ptr.offset + size;
      if ptr.offset >= |ptr.data| {
        relay.list := relay.list[1..];
        ReadyAnyway(relay.list, limit);
        if relay.list != [] {
          SkipHeaders();
        }
      }
    }

    /** Reads the header of the next frame. */
    method LookAtFrame(header: Header) returns (size: Byte, sbcFrame: Header)
      requires AtFrame() && relay.list != []
      ensures Aligned(Payload(relay.list, limit)) && Payload(relay.list, limit) != []
      ensures size == FirstLength(Payload(relay.list, limit)) && sbcFrame == HeaderOf(Payload(relay.list, limit))
      ensures var ptr := relay.list[0];
              && StartsWithFrame(ptr.data[ptr.offset..]) && size == FirstLength(ptr.data[ptr.offset..])
              && ptr.data[ptr.offset..ptr.offset + size] == Payload(relay.list, limit)[..size]
    {
      hide HasRtpHeader, RtpHeaderLength, FrameLength, HeaderOf, Blocks, Subbands, Sound;
      var ptr := relay.list[0];
      ghost var rest := ptr.data[ptr.offset..];
      ReadyAnyway(relay.list[1..], limit);
      PayloadIsAligned(relay.list, limit);
      assert Payload(relay.list, limit) == rest + Payload(relay.list[1..], limit);
      FirstLengthStable(rest, Payload(relay.list[1..], limit));
      sbcFrame, size := CalculateFrameLength(header, ptr.data[ptr.offset..]);
      assert rest[..size] == ptr.data[ptr.offset..ptr.offset + size];
    }

    /** Copies the next frame into the packet and moves behind it. */
    method MoveFrame(buf: array<Byte>, pos: nat, size: Byte)
      requires AtFrame() && relay.list != [] && pos + size <= buf.Length
      requires var ptr := relay.list[0];
               && StartsWithFrame(ptr.data[ptr.offset..]) && size == FirstLength(ptr.data[ptr.offset..])
      modifies relay, relay.Repr, buf
      ensures AtFrame() && relay.Repr == old(relay.Repr)
      ensures buf[..pos + size]
           == old(buf[..pos] + relay.list[0].data[relay.list[0].offset..relay.list[0].offset + size])
      ensures size <= old(|Payload(relay.list, limit)|)
      ensures Payload(relay.list, limit) == old(Payload(relay.list, limit))[size..]
    {
      hide HasRtpHeader, RtpHeaderLength, FrameLength, HeaderOf, Blocks, Subbands, Aligned;
      var ptr := relay.list[0];
      MemCpy(buf, pos, ptr.data[ptr.offset..ptr.offset + size]);
      PassFrame(size);
    }

    /** One turn of the packing loop: the next frame is copied into the packet if it fits. */
    method PackNext(buf: array<Byte>, pos: nat, header: Header) returns (next: nat, sbcFrame: Header)
      requires AtFrame() && relay.list != [] && pos <= buf.Length
      modifies relay, relay.Repr, buf
      ensures AtFrame() && relay.Repr == old(relay.Repr) && pos <= next <= buf.Length
      ensures next == pos ==> relay.list == old(relay.list)
      ensures relay.list == [] ==> Payload(relay.list, limit) == []
      ensures Aligned(old(Payload(relay.list, limit))) && old(Payload(relay.list, limit)) != []
      ensures next == pos <==> FirstLength(old(Payload(relay.list, limit))) > buf.Length - pos
      ensures sbcFrame == HeaderOf(old(Payload(relay.list, limit)))
      ensures PackedNext(old(Payload(relay.list, limit)), Payload(relay.list, limit), old(buf[..pos]), buf[..next],
                         buf.Length - pos)
    {
      var size: Byte;
      ghost var all, packet := Payload(relay.list, limit), buf[..pos];
      size, sbcFrame := LookAtFrame(header);
      if pos + size > buf.Length {
        next := pos;
      } else {
        MoveFrame(buf, pos, size);
        next := pos + size;
      }
    }

    /** The loop that fills the packet from index `pos` on. */
    method PackFrames(buf: array<Byte>, pos: nat, header: Header)
      returns (end: nat, count: nat, sbcFrame: Header)
      requires AtFrame() && relay.list != [] && pos <= mtu == buf.Length
      modifies relay, relay.Repr, buf
      ensures AtFrame() && relay.Repr == old(relay.Repr) && Aligned(old(Payload(relay.list, limit)))
      ensures count == Fits(old(Payload(relay.list, limit)), mtu - pos, MAX_FRAMES) && end <= mtu
      ensures (buf[..end], Payload(relay.list, limit))
           == Result(old(buf[..pos]), old(Payload(relay.list, limit)), mtu - pos, MAX_FRAMES)
      ensures sbcFrame == LastLooked(old(Payload(relay.list, limit)), mtu - pos, MAX_FRAMES, header)
    {
      hide FirstLength, StartsWithFrame, Aligned, HeaderOf, LastLooked, Fits, Length, Result, PackedNext;
      hide Sound, Ready, Payload;
      PayloadIsAligned(relay.list, limit);
      end, count, sbcFrame := pos, 0, header;
      ghost var last := LastLooked(Payload(relay.list, limit), mtu - pos, MAX_FRAMES, header);
      ghost var fits := Fits(Payload(relay.list, limit), mtu - pos, MAX_FRAMES);
      ghost var result := Result(buf[..pos], Payload(relay.list, limit), mtu - pos, MAX_FRAMES);
      while end < mtu && count < MAX_FRAMES
        invariant AtFrame() && relay.Repr == old(relay.Repr) && relay.list != []
        invariant end <= mtu && count <= MAX_FRAMES && Aligned(Payload(relay.list, limit))
        invariant fits == count + Fits(Payload(relay.list, limit), mtu - end, MAX_FRAMES - count)
        invariant result == Result(buf[..end], Payload(relay.list, limit), mtu - end, MAX_FRAMES - count)
        invariant last == LastLooked(Payload(relay.list, limit), mtu - end, MAX_FRAMES - count, sbcFrame)
        decreases MAX_FRAMES - count
      {
        ghost var packet, bytes := buf[..end], Payload(relay.list, limit);
        ghost var looked := sbcFrame;
        var next: nat;
        next, sbcFrame := PackNext(buf, end, sbcFrame);
        if next == end {
          PackedAll(packet, bytes, mtu - end, MAX_FRAMES - count, looked);
          break;
        }
        PackedOneMore(
          packet, bytes, mtu - end, MAX_FRAMES - count, looked, buf[..next], Payload(relay.list, limit));
        end, count := next, count + 1;
        if relay.list == [] {
          break;
        }
      }
      PackedAll(buf[..end], Payload(relay.list, limit), mtu - end, MAX_FRAMES - count, sbcFrame);
    }

    /** Copies the headers of the front packet, and packs frames behind them. */
    method FillPacket(buf: array<Byte>) returns (rtpHeader: int, end: nat, count: nat, sbcFrame: Header)
      requires relay.Valid() && Ready(relay.list, limit, true) && relay.list != [] && buf.Length == mtu
      modifies relay, relay.Repr, buf
      ensures relay.Valid() && Ready(relay.list, limit, true) && relay.Repr == old(relay.Repr)
      ensures var front, all, room := old(relay.list[0].data), old(Payload(relay.list, limit)), mtu - rtpHeader - 1;
              && HasRtpHeader(front) && rtpHeader == RtpHeaderLength(front) < limit && rtpHeader < |front|
              && Aligned(all) && count == Fits(all, room, MAX_FRAMES) && end <= mtu
              && (buf[..end], Payload(relay.list, limit)) == Result(front[..rtpHeader + 1], all, room, MAX_FRAMES)
              && (count == 0 || sbcFrame == LastLooked(all, room, MAX_FRAMES, NO_HEADER))
    {
      hide IsMediaPacket, HasRtpHeader, RtpHeaderLength, Aligned, Fits, Length, Result, LastLooked;
      hide Sound, Ready, Payload;
      FrontIsMedia(relay.list, limit);
      PayloadIsAligned(relay.list, limit);
      var ptr := relay.list[0];
      rtpHeader := GetRtpOffset(ptr.data, Sbc);
      MemCpy(buf, 0, ptr.data[..rtpHeader + 1]);
      assert buf[..rtpHeader + 1] == ptr.data[..rtpHeader + 1];
      SkipHeaders();
      var anything: Header := *;
      LastLookedAfter(Payload(relay.list, limit), mtu - rtpHeader - 1, anything);
      end, count, sbcFrame := PackFrames(buf, rtpHeader + 1, anything);
    }

    /** Writes the sequence number, the timestamp and the number of frames into the packet. */
    method Stamp(buf: array<Byte>, rtpHeader: int, count: nat)
      requires 12 <= rtpHeader < buf.Length && count < 0x100
      modifies buf
      ensures forall i :: 0 <= i < buf.Length && i !in {2, 3, 4, 5, 6, 7, rtpHeader} ==> buf[i] == old(buf[i])
      ensures Big16(buf[..], 2) == sequenceNumber && Big32(buf[..], 4) == timestamp && buf[rtpHeader] == count
    {
      buf[3] := sequenceNumber % 0x100;
      buf[2] := sequenceNumber / 0x100 % 0x100;
      buf[7] := timestamp % 0x100;
      buf[6] := timestamp / 0x100 % 0x100;
      buf[5] := timestamp / 0x1_0000 % 0x100;
      buf[4] := timestamp / 0x100_0000 % 0x100;
      buf[rtpHeader] := count;
      TwoBytes(sequenceNumber);
      FourBytes(timestamp);
    }

    /** Makes the next packet: everything but the timestamp's advance. */
    method MakePacket() returns (packet: seq<Byte>, count: nat, sbcFrame: Header)
      requires Valid() && relay.list != []
      modifies this`sequenceNumber, relay, relay.Repr
      ensures Valid() && relay.Repr == old(relay.Repr)
      ensures Made(old(relay.list[0].data), mtu, old(Now()), Now(), packet, count, sbcFrame)
    {
      hide IsMediaPacket, HasRtpHeader, RtpHeaderLength, Ready, Payload, Aligned, Fits, Length, LastLooked, Sound;
      hide FramesOf;
      PayloadIsAligned(relay.list, limit);
      FrontIsMedia(relay.list, limit);
      var buf := new Byte[mtu];
      ghost var front, all := relay.list[0].data, Payload(relay.list, limit);
      var rtpHeader, end;
      rtpHeader, end, count, sbcFrame := FillPacket(buf);
      ghost var filled := buf[..end];
      sequenceNumber := (sequenceNumber + 1) % 0x1_0000;
      Stamp(buf, rtpHeader, count);
      packet := buf[..end];
      Stamped(front, rtpHeader, all, mtu, sequenceNumber, timestamp, filled, packet);
    }

    /** Sends a packet of a queue that is not empty. */
    method SendPacket() returns (packet: seq<Byte>)
      requires Valid() && relay.list != []
      modifies this`sequenceNumber, this`timestamp, relay, relay.Repr
      ensures Valid() && relay.Repr == old(relay.Repr)
      ensures Transmits(old(relay.list[0].data), mtu, old(Now()), Now(), packet)
    {
      hide Made, Transmits, Advance, Valid, Pending;
      ghost var was, front := Now(), relay.list[0].data;
      var count, sbcFrame;
      packet, count, sbcFrame := MakePacket();
      MadeTransmits(front, mtu, was, Now(), packet, count, sbcFrame);
      timestamp := Advance(timestamp, count, sbcFrame);
    }

    /**
      Takes the longest beginning of the pending frames that fits and hands it to the stack as one
      packet.
     */
    method SendEncodedData() returns (packet: seq<Byte>)
      requires Valid()
      modifies this`sequenceNumber, this`timestamp, relay, relay.Repr
      ensures Valid() && relay.Repr == old(relay.Repr)
      ensures old(relay.list) == [] ==> packet == [] && relay.list == [] && Now() == old(Now())
      ensures old(relay.list) != [] ==> Transmits(old(relay.list[0].data), mtu, old(Now()), Now(), packet)
    {
      hide Transmits, Valid, Pending;
      if relay.list == [] {
        packet := [];
      } else {
        packet := SendPacket();
      }
    }
  }
}
