/** The header of a video frame: 22 bytes of metadata in front of the access unit. */
module VideoHeader {
  import opened Common
  import opened Timestamps
  import FrameReassembly
  import RawFraming

  const HEADER_SIZE := 22
  /** A signed frame of at least this declared length carries an encrypted key. */
  const KEY_BYTES := 128

  datatype FrameMetadata = FrameMetadata(videoDataLength: uint32, isKeyFrame: bool, streamType: byte,
        videoSeqNo: uint16,
                                         videoFPS: uint16, videoWidth: uint16, videoHeight: uint16, videoTimestamp: uint64)

  datatype Parsed = TooShort | Encrypted | Clear(metadata: FrameMetadata, data: bytes)

  function DecodeU48(b: bytes): (v: uint64)
    requires |b| == 6
    ensures v < RAW_LIMIT
  {
    DecodeU32(b[..4]) as int + 0x1_0000_0000 * DecodeU16(b[4..]) as int
  }

  function EncodeU48(v: uint64): (b: bytes)
    requires v < RAW_LIMIT
    ensures |b| == 6
  {
    EncodeU32(v % 0x1_0000_0000) + EncodeU16(v / 0x1_0000_0000)
  }

  lemma {:induction false} U48RoundTrip(v: uint64)
    requires v < RAW_LIMIT
    ensures DecodeU48(EncodeU48(v)) == v
  {
    var b := EncodeU48(v);
    U32RoundTrip(v % 0x1_0000_0000);
    U16RoundTrip(v / 0x1_0000_0000);
    assert b[..4] == EncodeU32(v % 0x1_0000_0000) && b[4..] == EncodeU16(v / 0x1_0000_0000);
  }

  function DecodeMetadata(data: bytes): (m: FrameMetadata)
    requires |data| >= HEADER_SIZE
    ensures m.videoTimestamp < RAW_LIMIT
  {
    FrameMetadata(DecodeU32(data[..4]), data[4] == 1, data[5], DecodeU16(data[6..8]), DecodeU16(data[8..10]),
                  DecodeU16(data[10..12]), DecodeU16(data[12..14]), DecodeU48(data[14..20]))
  }

  predicate IsEncrypted(m: FrameMetadata, signCode: byte, hasKey: bool) {
    signCode > 0 && m.videoDataLength >= KEY_BYTES && hasKey
  }

  /** A frame without encryption: its declared length is cut down to the bytes there are. */
  function ParseVideoFrame(data: bytes, signCode: byte, hasKey: bool): Parsed {
    if |data| < HEADER_SIZE then TooShort
    else
      var m := DecodeMetadata(data);
      if IsEncrypted(m, signCode, hasKey) then Encrypted
      else
        var declared: int := m.videoDataLength;
        var videoLen := if HEADER_SIZE + declared > |data| then |data| - HEADER_SIZE else declared;
        Clear(m, data[HEADER_SIZE..HEADER_SIZE + videoLen])
  }

  /** The header in bytes, numbers in little-endian order. */
  lemma {:induction false} HeaderInBytes(data: bytes)
    requires |data| >= 22
    ensures var m := DecodeMetadata(data);
            && m.videoDataLength == data[0] as int + 0x100 * data[1] as int + 0x1_0000 * data[2] as int + 0x100_0000 * data[3] as int
            && (m.isKeyFrame <==> data[4] == 1) && m.streamType == data[5]
            && m.videoSeqNo == data[6] as int + 0x100 * data[7] as int
            && m.videoFPS == data[8] as int + 0x100 * data[9] as int
            && m.videoWidth == data[10] as int + 0x100 * data[11] as int
            && m.videoHeight == data[12] as int + 0x100 * data[13] as int
            && m.videoTimestamp == data[14] as int + 0x100 * data[15] as int + 0x1_0000 * data[16] as int
                                   + 0x100_0000 * data[17] as int + 0x1_0000_0000 * data[18] as int
                                   + 0x100_0000_0000 * data[19] as int
  {
    var stamp := data[14..20];
    assert stamp[..4] == [data[14], data[15], data[16], data[17]] && stamp[4..] == [data[18], data[19]];
    assert data[..4] == [data[0], data[1], data[2], data[3]];
  }

  /** What parsing yields, in bytes: an error below 22 bytes, and else the bytes behind the header, at most as
      many as declared. */
  lemma {:induction false} ParseInBytes(data: bytes, signCode: byte, hasKey: bool)
    ensures ParseVideoFrame(data, signCode, hasKey) == TooShort <==> |data| < 22
    ensures |data| >= 22 ==>
              var m := DecodeMetadata(data);
              && (ParseVideoFrame(data, signCode, hasKey) == Encrypted <==> signCode > 0 && m.videoDataLength >= 128 && hasKey)
              && (ParseVideoFrame(data, signCode, hasKey) != Encrypted ==>
                    ParseVideoFrame(data, signCode, hasKey)
                    == Clear(m, if m.videoDataLength <= |data| - 22 then data[22..22 + m.videoDataLength] else data[22..]))
  {
    hide DecodeMetadata;
  }

  /** The camera's side; key frames carry 1, and the last two header bytes are not read. */
  function FrameBytes(m: FrameMetadata, otherFlag: byte, reserved: bytes, payload: bytes): bytes
    requires |reserved| == 2 && m.videoTimestamp < RAW_LIMIT
  {
    EncodeU32(m.videoDataLength) + [if m.isKeyFrame then 1 else otherFlag, m.streamType] + EncodeU16(m.videoSeqNo)
    + EncodeU16(m.videoFPS) + EncodeU16(m.videoWidth) + EncodeU16(m.videoHeight) + EncodeU48(m.videoTimestamp)
    + reserved + payload
  }

  lemma {:induction false} MetadataRoundTrip(m: FrameMetadata, otherFlag: byte, reserved: bytes, payload: bytes)
    requires |reserved| == 2 && m.videoTimestamp < RAW_LIMIT && otherFlag != 1
    ensures var b := FrameBytes(m, otherFlag, reserved, payload);
            |b| == HEADER_SIZE + |payload| && DecodeMetadata(b) == m && b[HEADER_SIZE..] == payload
  {
    hide DecodeU48, EncodeU48, DecodeU32, EncodeU32, DecodeU16, EncodeU16;
    var b := FrameBytes(m, otherFlag, reserved, payload);
    U32RoundTrip(m.videoDataLength);
    U16RoundTrip(m.videoSeqNo);
    U16RoundTrip(m.videoFPS);
    U16RoundTrip(m.videoWidth);
    U16RoundTrip(m.videoHeight);
    U48RoundTrip(m.videoTimestamp);
    assert b[..4] == EncodeU32(m.videoDataLength);
    assert b[6..8] == EncodeU16(m.videoSeqNo);
    assert b[8..10] == EncodeU16(m.videoFPS);
    assert b[10..12] == EncodeU16(m.videoWidth);
    assert b[12..14] == EncodeU16(m.videoHeight);
    assert b[14..20] == EncodeU48(m.videoTimestamp);
  }

  /** Round trip: a frame is read back as it was sent if and only if it is not taken for an encrypted one and
      declares at least the length of its payload. */
  lemma {:induction false} FrameRoundTrip(m: FrameMetadata, otherFlag: byte, reserved: bytes, payload: bytes,
                                          signCode: byte, hasKey: bool)
    requires |reserved| == 2 && m.videoTimestamp < RAW_LIMIT && otherFlag != 1
    ensures ParseVideoFrame(FrameBytes(m, otherFlag, reserved, payload), signCode, hasKey) == Clear(m, payload)
            <==> !IsEncrypted(m, signCode, hasKey) && |payload| <= m.videoDataLength
  {
    hide FrameBytes, DecodeMetadata;
    MetadataRoundTrip(m, otherFlag, reserved, payload);
    var b := FrameBytes(m, otherFlag, reserved, payload);
    if |payload| <= m.videoDataLength {
      assert b[HEADER_SIZE..HEADER_SIZE + |payload|] == payload;
    }
  }

  /** The access unit and metadata of some frame the reassembler has emitted. */
  ghost predicate IsCameraFrame(data: bytes, m: FrameMetadata) {
    exists a, k: nat, signCode, hasKey :: IsEmitted(a, k, signCode, hasKey, data, m)
  }

  ghost predicate IsEmitted(a: FrameReassembly.Assembler, k: nat, signCode: byte, hasKey: bool, data: bytes, m: FrameMetadata) {
    && FrameReassembly.Consistent(a) && k < |a.emitted|
    && ParseVideoFrame(a.emitted[k].data, signCode, hasKey) == Clear(m, data)
  }

  /** Whatever frames come out of the reassembler, their timestamps are below 2^48 and their non-empty access
      units fit the raw endpoint's framing. */
  lemma {:induction false} CameraFramesAreFrameable(data: bytes, m: FrameMetadata)
    requires IsCameraFrame(data, m)
    ensures m.videoTimestamp < RAW_LIMIT && (data != [] ==> RawFraming.Frameable(data))
  {
    hide DecodeMetadata;
    var a, k: nat, signCode, hasKey :| IsEmitted(a, k, signCode, hasKey, data, m);
    assert a.emitted[k] in a.emitted;
  }
}
