/**
  The queue through which the A2DP sink relays audio to the A2DP source: packets are appended by
  the sink and drained, in whole or in part, by `get_pcm_data` and `get_sbc_data`.
 */
module RelayQueue {
  import opened Bytes
  import opened Sequences
  import opened SbcFrames

  const RELAY_QUEUE_SIZE := 24

  /** A queued packet: bytes before `offset` have been taken out already. */
  class Packet {
    const codecType: Codec
    const data: seq<Byte>
    var offset: nat

    constructor (data: seq<Byte>, codecType: Codec)
      ensures this.data == data && this.codecType == codecType && offset == 0
    {
      this.data, this.codecType := data, codecType;
      offset := 0;
    }
  }

  /** The packets are different objects, and no offset is beyond the end of its packet. */
  ghost predicate Sound(ps: seq<Packet>)
    reads ps
  {
    ps != [] ==> ps[0].offset <= |ps[0].data| && ps[0] !in ps[1..] && Sound(ps[1..])
  }

  /** What is left of each packet. */
  ghost function Chunks(ps: seq<Packet>): (chunks: seq<seq<Byte>>)
    requires Sound(ps)
    reads ps
    ensures |chunks| == |ps|
  {
    if ps == [] then [] else [ps[0].data[ps[0].offset..]] + Chunks(ps[1..])
  }

  lemma {:induction false} Append(ps: seq<Packet>, p: Packet)
    requires Sound(ps) && p !in ps && p.offset <= |p.data|
    ensures Sound(ps + [p]) && Chunks(ps + [p]) == Chunks(ps) + [p.data[p.offset..]]
    decreases |ps|
  {
    if ps == [] {
      assert [] + [p] == [p] && [p][1..] == [];
    } else {
      assert (ps + [p])[1..] == ps[1..] + [p];
      Append(ps[1..], p);
    }
  }

  /** The bytes that are still queued, in order. */
  ghost function Pending(ps: seq<Packet>): seq<Byte>
    requires Sound(ps)
    reads ps
  {
    Flat(Chunks(ps))
  }

  lemma FlatFirst<T>(chunks: seq<seq<T>>)
    requires chunks != []
    ensures Flat(chunks) == chunks[0] + Flat(chunks[1..])
  {}

  lemma FrontTaken<T>(chunks: seq<seq<T>>, gap: nat)
    requires chunks != [] && gap <= |chunks[0]|
    ensures Flat(chunks) == chunks[0][..gap] + Flat([chunks[0][gap..]] + chunks[1..])
  {
    var a, b := chunks[0][..gap], chunks[0][gap..];
    assert Flat([b] + chunks[1..]) == b + Flat(chunks[1..]) by {
      assert ([b] + chunks[1..])[1..] == chunks[1..];
    }
    hide Flat;
    assert chunks[0] == a + b;
    assert (a + b) + Flat(chunks[1..]) == a + (b + Flat(chunks[1..]));
  }

  /** How many of the chunks are moved whole into a buffer of `size` bytes. */
  function WholeFit(chunks: seq<seq<Byte>>, size: nat): (m: nat)
    ensures m <= |chunks|
  {
    if chunks == [] || size == 0 || |chunks[0]| > size then 0
    else 1 + WholeFit(chunks[1..], size - |chunks[0]|)
  }

  /** After `m` packets have been moved, `rest` is still queued and `out` is in the buffer. */
  ghost predicate Moved(
    chunks: seq<seq<Byte>>, size: nat, m: nat, rest: seq<seq<Byte>>, n: nat, out: seq<Byte>)
  {
    && m <= |chunks| && rest == chunks[m..] && n <= size
    && WholeFit(chunks, size) == m + WholeFit(rest, size - n)
    && out + Flat(rest[..WholeFit(rest, size - n)]) == Flat(chunks[..WholeFit(chunks, size)])
  }

  lemma MovedNothing(chunks: seq<seq<Byte>>, size: nat)
    ensures Moved(chunks, size, 0, chunks, 0, [])
  {
    assert [] + Flat(chunks[..WholeFit(chunks, size)]) == Flat(chunks[..WholeFit(chunks, size)]);
  }

  lemma MovedFully(chunks: seq<seq<Byte>>, size: nat, m: nat, rest: seq<seq<Byte>>, n: nat, out: seq<Byte>)
    requires Moved(chunks, size, m, rest, n, out)
    requires n >= size || rest == [] || |rest[0]| > size - n
    ensures m == WholeFit(chunks, size) && m <= |chunks| && rest == chunks[m..] && out == Flat(chunks[..m])
  {
    assert rest[..0] == [] && out + [] == out;
  }

  lemma MovedOneMore(
    chunks: seq<seq<Byte>>, size: nat, m: nat, rest: seq<seq<Byte>>, n: nat, out: seq<Byte>)
    requires Moved(chunks, size, m, rest, n, out)
    requires rest != [] && n < size && |rest[0]| <= size - n
    ensures Moved(chunks, size, m + 1, rest[1..], n + |rest[0]|, out + rest[0])
  {
    var k := WholeFit(rest, size - n);
    assert rest[..k][1..] == rest[1..][..k - 1];
    assert Flat(rest[..k]) == rest[0] + Flat(rest[1..][..k - 1]);
  }

  /** They fit; and unless they fill the buffer, one more does not. */
  lemma {:induction false} WholeFitIsLongest(chunks: seq<seq<Byte>>, size: nat)
    ensures var m := WholeFit(chunks, size);
            && |Flat(chunks[..m])| <= size
            && (m < |chunks| && |Flat(chunks[..m])| < size ==> |Flat(chunks[..m + 1])| > size)
    decreases |chunks|
  {
    var m := WholeFit(chunks, size);
    if m > 0 {
      WholeFitIsLongest(chunks[1..], size - |chunks[0]|);
      assert chunks[..m][1..] == chunks[1..][..m - 1];
      assert m < |chunks| ==> chunks[..m + 1][1..] == chunks[1..][..m];
    } else if chunks != [] {
      assert chunks[..1][1..] == [];
    }
  }

  /** `memcpy` into a buffer. */
  method MemCpy(dst: array<Byte>, at: nat, bytes: seq<Byte>)
    requires at + |bytes| <= dst.Length
    modifies dst
    ensures dst[..at] == old(dst[..at]) && dst[at + |bytes|..] == old(dst[at + |bytes|..])
    ensures dst[at..at + |bytes|] == bytes
  {
    forall i | 0 <= i < |bytes| {
      dst[at + i] := bytes[i];
    }
  }

  /** What is queued of a buffer: the length of a packet is held in 16 bits. */
  function Kept(buffer: seq<Byte>): seq<Byte> { buffer[..|buffer| % 0x1_0000] }

  /** It is a beginning, and what is lost is a multiple of 65536 bytes. */
  lemma KeptLosesMultiples(buffer: seq<Byte>)
    ensures Kept(buffer) <= buffer && |Kept(buffer)| < 65536 && (|buffer| - |Kept(buffer)|) % 65536 == 0
  {}

  function Min(a: nat, b: nat): nat { if a <= b then a else b }

  class Queue {
    var list: seq<Packet>
    ghost var Repr: set<Packet>

    ghost predicate Valid()
      reads this, Repr
    {
      (forall p :: p in list ==> p in Repr) && Sound(list) && |list| <= RELAY_QUEUE_SIZE + 1
    }

    constructor ()
      ensures Valid() && list == [] && Repr == {}
    {
      list, Repr := [], {};
    }

    /** Appends a packet, or drops it when the queue is full.  Of a longer buffer only a part is kept. */
    method Enqueue(buffer: seq<Byte>, codecType: Codec)
      requires Valid()
      modifies this
      ensures Valid() && fresh(Repr - old(Repr))
      ensures old(|list|) >= 25 ==> list == old(list) && Repr == old(Repr)
      ensures old(|list|) < 25 ==>
                && |list| == old(|list|) + 1
                && list == old(list) + [list[old(|list|)]] && fresh(list[old(|list|)])
                && list[old(|list|)].data == Kept(buffer) && list[old(|list|)].offset == 0
                && list[old(|list|)].codecType == codecType
                && Chunks(list) == old(Chunks(list)) + [Kept(buffer)]
                && Pending(list) == old(Pending(list)) + Kept(buffer)
                && (|buffer| < 0x1_0000 ==> Kept(buffer) == buffer)
    {
      if |list| > RELAY_QUEUE_SIZE {
        return;
      }
      hide Flat, Chunks, Sound;
      var len := |buffer| % 0x1_0000;
      FlatConcat(Chunks(list), [buffer[..len]]);
      var ptr := new Packet(buffer[..len], codecType);
      Append(list, ptr);
      list, Repr := list + [ptr], Repr + {ptr};
    }

    /** Moves all that is left of the front packet into the buffer and removes the packet. */
    method TakeFront(buffer: array<Byte>, pos: nat) returns (next: nat)
      requires Valid() && list != [] && pos + |Chunks(list)[0]| <= buffer.Length
      modifies this, Repr, buffer
      ensures Valid() && Repr == old(Repr) && list == old(list[1..]) && Chunks(list) == old(Chunks(list)[1..])
      ensures next == pos + old(|Chunks(list)[0]|)
      ensures buffer[..next] == old(buffer[..pos] + Chunks(list)[0])
      ensures buffer[next..] == old(buffer[next..])
    {
      var ptr := list[0];
      MemCpy(buffer, pos, ptr.data[ptr.offset..]);
      next := pos + (|ptr.data| - ptr.offset);
      ptr.offset := |ptr.data|;
      list := list[1..];
    }

    /** Moves the first `gap` bytes of the front packet into the buffer; the packet stays. */
    method SplitFront(buffer: array<Byte>, pos: nat, gap: nat)
      requires Valid() && list != [] && gap <= |Chunks(list)[0]| && pos + gap <= buffer.Length
      modifies Repr, buffer
      ensures Valid()
      ensures Chunks(list) == old([Chunks(list)[0][gap..]] + Chunks(list)[1..])
      ensures buffer[..pos + gap] == old(buffer[..pos] + Chunks(list)[0][..gap])
      ensures buffer[pos + gap..] == old(buffer[pos + gap..])
    {
      var ptr := list[0];
      MemCpy(buffer, pos, ptr.data[ptr.offset..ptr.offset + gap]);
      assert ptr.data[ptr.offset..][gap..] == ptr.data[ptr.offset + gap..];
      assert ptr.data[ptr.offset..][..gap] == ptr.data[ptr.offset..ptr.offset + gap];
      ptr.offset := ptr.offset + gap;
    }

    /** One turn of the loop of `get_pcm_data`: a part of the front packet, or all of it. */
    method MoveSome(buffer: array<Byte>, pos: nat, size: nat) returns (next: nat)
      requires Valid() && list != [] && pos < size <= buffer.Length
      modifies this, Repr, buffer
      ensures Valid() && Repr == old(Repr) && pos <= next <= size
      ensures buffer[..next] + Pending(list) == old(buffer[..pos] + Pending(list))
      ensures buffer[next..] == old(buffer[next..])
      ensures list == old(list[1..]) || (list == old(list) && next == size)
    {
      hide Flat;
      if |list[0].data| - list[0].offset > size - pos {
        MovePart(buffer, pos, size - pos);
        next := pos + (size - pos);
      } else {
        next := MoveFront(buffer, pos);
      }
    }

    method MovePart(buffer: array<Byte>, pos: nat, gap: nat)
      requires Valid() && list != [] && gap <= |Chunks(list)[0]| && pos + gap <= buffer.Length
      modifies Repr, buffer
      ensures Valid()
      ensures buffer[..pos + gap] + Pending(list) == old(buffer[..pos] + Pending(list))
      ensures buffer[pos + gap..] == old(buffer[pos + gap..])
    {
      hide Flat, Sound;
      ghost var chunks, moved := Chunks(list), buffer[..pos];
      FrontTaken(chunks, gap);
      SplitFront(buffer, pos, gap);
      JoinRest(moved, chunks[0][..gap], Flat(Chunks(list)));
    }

    method MoveFront(buffer: array<Byte>, pos: nat) returns (next: nat)
      requires Valid() && list != [] && pos + |Chunks(list)[0]| <= buffer.Length
      modifies this, Repr, buffer
      ensures Valid() && Repr == old(Repr) && list == old(list[1..]) && next == pos + old(|Chunks(list)[0]|)
      ensures buffer[..next] + Pending(list) == old(buffer[..pos] + Pending(list))
      ensures buffer[next..] == old(buffer[next..])
    {
      hide Flat, Sound;
      ghost var chunks, moved := Chunks(list), buffer[..pos];
      FlatFirst(chunks);
      next := TakeFront(buffer, pos);
      JoinRest(moved, chunks[0], Flat(Chunks(list)));
    }

    /**
      Moves bytes from the front of the queue into the buffer, splitting the last packet.  The
      result is not what was moved: on a short read it is the number of bytes that are missing.
      A packet at the front that is not PCM is thrown away instead.
     */
    method GetPcmData(buffer: array<Byte>, size: nat) returns (n: nat)
      requires Valid() && size <= buffer.Length
      modifies this, Repr, buffer
      ensures Valid() && Repr == old(Repr)
      ensures old(list) == [] ==> n == 0 && list == [] && buffer[..] == old(buffer[..])
      ensures old(list) != [] && old(list[0].codecType) != Pcm ==>
                n == 0 && Chunks(list) == old(Chunks(list))[1..] && buffer[..] == old(buffer[..])
      ensures old(list) != [] && old(list[0].codecType) == Pcm ==>
                var k := Min(size, old(|Pending(list)|));
                && buffer[..k] + Pending(list) == old(Pending(list))
                && buffer[k..] == old(buffer[k..])
                && n == if k == size then size else size - k
    {
      if list == [] {
        return 0;
      }
      if list[0].codecType != Pcm {
        list := list[1..];
        return 0;
      }
      var pos := 0;
      ghost var all := Pending(list);
      while pos < size && list != []
        invariant Valid() && Repr == old(Repr) && 0 <= pos <= size
        invariant buffer[..pos] + Pending(list) == all
        invariant buffer[pos..] == old(buffer[pos..])
        decreases |list|, size - pos
      {
        pos := MoveSome(buffer, pos, size);
      }
      n := if pos == size then size else size - pos;
    }

    /**
      Moves whole packets into the buffer as long as it is not full and the next one fits.
      Returns the number of bytes moved.
     */
    method GetSbcData(buffer: array<Byte>, size: nat) returns (n: nat)
      requires Valid() && size <= buffer.Length
      modifies this, Repr, buffer
      ensures Valid() && Repr == old(Repr) && n <= size
      ensures var m := WholeFit(old(Chunks(list)), size);
              && Chunks(list) == old(Chunks(list))[m..]
              && buffer[..n] == Flat(old(Chunks(list))[..m])
      ensures buffer[n..] == old(buffer[n..])
    {
      n := 0;
      if list == [] {
        return 0;
      }
      hide Moved, WholeFit, Flat;
      ghost var chunks, m := Chunks(list), 0;
      MovedNothing(chunks, size);
      assert buffer[..n] == [];
      while n < size && list != []
        invariant Valid() && Repr == old(Repr) && 0 <= n <= size && buffer[n..] == old(buffer[n..])
        invariant Moved(chunks, size, m, Chunks(list), n, buffer[..n])
        decreases |list|
      {
        if |list[0].data| - list[0].offset > size - n {
          break;
        }
        MovedOneMore(chunks, size, m, Chunks(list), n, buffer[..n]);
        n := TakeFront(buffer, n);
        m := m + 1;
      }
      MovedFully(chunks, size, m, Chunks(list), n, buffer[..n]);
    }
  }
}
