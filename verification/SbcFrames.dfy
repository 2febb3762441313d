/**
  SBC frames and RTP headers as the relay of the A2DP source sees them: `get_rtp_offset` and
  `A2DP_SBC_Calculate_FrameLength`.
 */
module SbcFrames {

  import opened Bytes

  const SBC_SYNCWORD: Byte := 0x9C
  const SBC_HEADER_LEN := 4
  const SBC_MONO := 0
  const SBC_DUAL_CHANNEL := 1
  const SBC_STEREO := 2
  const SBC_JOINT_STEREO := 3

  /** The codec of relayed audio; the numbers behind the names are the vendor stack's. */
  datatype Codec = Sbc | Pcm | Aptx | Other(code: nat)

  // ------------------------------------------------------------------------------------------
  // RTP header

  /** Enough bytes for the fields that `get_rtp_offset` reads. */
  predicate HasRtpHeader(data: seq<Byte>) {
    && 12 <= |data|
    && (data[0] / 16 % 2 == 1 ==> 16 + data[0] % 16 * 4 <= |data|)
  }

  /** The length of the RTP header with its extension, by section 5.1 of RFC 3550. */
  function RtpHeaderLength(data: seq<Byte>): nat
    requires HasRtpHeader(data)
  {
    var fixed: int := 12 + 4 * (data[0] % 16);
    if data[0] / 16 % 2 == 0 then fixed
    else fixed + 4 + 4 * ((data[fixed + 2] as int) * 0x100 + data[fixed + 3])
  }

  /**
    A header put together from its parts: twelve bytes, the list of contributing sources, and, if
    announced, an extension of four bytes and as many words as these say.
   */
  lemma RtpHeaderOfParts(fixed: seq<Byte>, sources: seq<Byte>, extension: seq<Byte>, payload: seq<Byte>)
    requires |fixed| == 12 && |sources| == 4 * (fixed[0] % 0x10)
    requires if fixed[0] / 0x10 % 2 == 0 then extension == []
             else |extension| >= 4 && |extension| - 4 == 4 * (0x100 * (extension[2] as int) + extension[3])
    ensures var data := fixed + sources + extension + payload;
            HasRtpHeader(data) && RtpHeaderLength(data) == |fixed| + |sources| + |extension|
  {
    var data := fixed + sources + extension + payload;
    assert data[0] == fixed[0];
    if extension != [] {
      var k := |fixed| + |sources|;
      assert data[k + 2] == extension[2] && data[k + 3] == extension[3];
    }
  }

  /** The offset is held in eight bits, and so is the extension length it is computed from. */
  method GetRtpOffset(data: seq<Byte>, codecType: Codec) returns (offset: Byte)
    requires codecType != Aptx ==> HasRtpHeader(data)
    ensures codecType == Aptx ==> offset == 0
    ensures codecType != Aptx ==>
              && offset == RtpHeaderLength(data) % 0x100
              && (RtpHeaderLength(data) < 0x100 ==> offset == RtpHeaderLength(data))
  {
    if codecType == Aptx {
      return 0;
    }
    var extension: Byte, csrcCount: Byte := data[0] / 16 % 2, data[0] % 16;
    offset := (12 + csrcCount * 4) % 0x100;
    if extension != 0 {
      var ptr: int := offset + 2;
      var extensionLen: Byte := ((data[ptr] as int) * 0x100 + data[ptr + 1]) % 0x100;
      ghost var high: int, least: int := data[ptr], offset + 4 + 4 * (data[ptr + 1] as int);
      assert RtpHeaderLength(data) == least + 0x100 * (4 * high);
      hide RtpHeaderLength, HasRtpHeader;
      LowByte(high, data[ptr + 1]);
      AddMultiple(least, 4 * high);
      offset := (offset + 4 + extensionLen * 4) % 0x100;
    }
  }

  lemma LowByte(high: int, low: Byte)
    ensures (high * 0x100 + low) % 0x100 == low
  {}

  lemma AddMultiple(x: int, k: int)
    ensures (x + 0x100 * k) % 0x100 == x % 0x100
  {}

  // ------------------------------------------------------------------------------------------
  // SBC frame header

  /** The fields of a frame header that the length depends on. */
  datatype Header = Header(blocks: nat, mode: nat, subbands: nat, bitpool: nat) {
    /** Samples that one channel of the frame carries. */
    function Samples(): nat { blocks * subbands }
  }

  function Blocks(code: int): nat { if code == 0 then 4 else if code == 1 then 8 else if code == 2 then 12 else 16 }

  function Subbands(code: int): nat { if code == 0 then 4 else 8 }

  function HeaderOf(data: seq<Byte>): Header
    requires 3 <= |data|
  {
    Header(Blocks(data[1] / 16 % 4), data[1] / 4 % 4, Subbands(data[1] % 2), data[2])
  }

  function CeilDiv8(n: nat): nat { (n + 7) / 8 }

  /**
    Section 12.9 of the A2DP specification: the header, the scale factors of all channels, and the
    sample bits (with one join bit for each subband in joint stereo).
   */
  function FrameLength(h: Header): nat {
    var channels := if h.mode == SBC_MONO then 1 else 2;
    4 + 4 * h.subbands * channels / 8
    + (if h.mode == SBC_MONO || h.mode == SBC_DUAL_CHANNEL then CeilDiv8(h.blocks * channels * h.bitpool)
       else CeilDiv8((if h.mode == SBC_JOINT_STEREO then h.subbands else 0) + h.blocks * h.bitpool))
  }

  lemma Digit2(q: int, r: int)
    requires 0 <= r < 2
    ensures (q * 2 + r) % 2 == r
  {}

  lemma Digit4(q: int, r: int)
    requires 0 <= r < 4
    ensures (q * 4 + r) / 4 == q && (q * 4 + r) % 4 == r
  {}

  lemma Digit16(q: int, r: int)
    requires 0 <= r < 16
    ensures (q * 16 + r) / 16 == q
  {}

  /** The second byte of a frame: sampling frequency, blocks, mode, allocation and subbands. */
  lemma HeaderOfFields(
    data: seq<Byte>, frequency: nat, blocks: nat, mode: nat, allocation: nat, subbands: nat)
    requires frequency < 4 && blocks < 4 && mode < 4 && allocation < 2 && subbands < 2 && 3 <= |data|
    requires data[1] == frequency * 64 + blocks * 16 + mode * 4 + allocation * 2 + subbands
    ensures HeaderOf(data) == Header(4 * (blocks + 1), mode, 4 * (subbands + 1), data[2])
  {
    var high := frequency * 4 + blocks;
    Digit16(high, mode * 4 + allocation * 2 + subbands);
    Digit4(frequency, blocks);
    Digit4(high * 4 + mode, allocation * 2 + subbands);
    Digit4(high, mode);
    Digit2((high * 4 + mode) * 2 + allocation, subbands);
  }

  lemma CeilDiv8Bounds(n: nat)
    ensures n <= 8 * CeilDiv8(n) <= n + 7
  {}

  /**
    Behind the four bytes of the header come four bits for each scale factor, the samples' bits and,
    in joint stereo, one bit for each subband, and less than a byte of padding.
   */
  lemma FrameHolds(h: Header)
    requires h.subbands in {4, 8} && h.mode < 4
    ensures var bits, pool := 8 * (FrameLength(h) - 4), h.blocks * h.bitpool;
            && (h.mode == 0 ==> 0 <= bits - (4 * h.subbands + pool) < 8)
            && (h.mode == 1 ==> 0 <= bits - (8 * h.subbands + 2 * pool) < 8)
            && (h.mode == 2 ==> 0 <= bits - (8 * h.subbands + pool) < 8)
            && (h.mode == 3 ==> 0 <= bits - (9 * h.subbands + pool) < 8)
  {
    var pool := h.blocks * h.bitpool;
    assert h.blocks * 1 * h.bitpool == pool && h.blocks * 2 * h.bitpool == 2 * pool;
    hide CeilDiv8;
    CeilDiv8Bounds(pool);
    CeilDiv8Bounds(2 * pool);
    CeilDiv8Bounds(h.subbands + pool);
  }

  /** The usual frame of high quality: 16 blocks, joint stereo, 8 subbands, a bitpool of 53. */
  lemma HighQualityFrame()
    ensures HeaderOf([0x9C, 0xBD, 53]) == Header(16, 3, 8, 53) && FrameLength(HeaderOf([0x9C, 0xBD, 53])) == 119
  {}

  /**
    `A2DP_SBC_Calculate_FrameLength`: 0, leaving `frame` as it was, when the sync word is missing;
    else the length of the specification, computed in 16 bits without overflow.
   */
  method CalculateFrameLength(frame: Header, data: seq<Byte>) returns (frame': Header, length: UInt16)
    requires 3 <= |data|
    ensures data[0] != SBC_SYNCWORD ==> length == 0 && frame' == frame
    ensures data[0] == SBC_SYNCWORD ==> frame' == HeaderOf(data) && length == FrameLength(frame')
  {
    if data[0] != SBC_SYNCWORD {
      return frame, 0;
    }
    var d1: int := data[1];
    frame' := Header(Blocks(d1 / 16 % 4), d1 / 4 % 4, Subbands(d1 % 2), data[2]);
    BitsBound(frame');
    var nbits: UInt16 := frame'.blocks * frame'.bitpool;
    var nrofSubbands: UInt16 := frame'.subbands;
    var result: UInt16 := nbits;
    if frame'.mode == SBC_JOINT_STEREO {
      result := result + (nrofSubbands + 8 * nrofSubbands);
    } else {
      if frame'.mode == SBC_DUAL_CHANNEL {
        result := result + nbits;
      }
      if frame'.mode == SBC_MONO {
        result := result + 4 * nrofSubbands;
      } else {
        result := result + 8 * nrofSubbands;
      }
    }
    length := SBC_HEADER_LEN + (result + 7) / 8;
  }

  lemma BitsBound(h: Header)
    requires h.blocks in {4, 8, 12, 16} && h.bitpool < 0x100
    ensures h.blocks * h.bitpool <= 4080
    ensures h.blocks * 1 * h.bitpool == h.blocks * h.bitpool
    ensures h.blocks * 2 * h.bitpool == 2 * (h.blocks * h.bitpool)
  {}
}
