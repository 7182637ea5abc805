/** Per-channel reassembly of video frames: what one packet in sequence does to the reassembly state,
    and the invariant that every packet keeps. */
module FrameReassembly {
  import opened Common

  const MAGIC_WORD: bytes := [0x58, 0x5A, 0x59, 0x48]  // "XZYH"
  const HEADER_BYTES := 16
  const MAX_VIDEO_FRAME_BYTES := 8 * 1024 * 1024

  datatype Header = Header(commandID: uint16, bytesToRead: uint32, channel: byte, signCode: byte, dataType: byte)

  const ZERO_HEADER := Header(0, 0, 0, 0, 0)

  datatype FrameState = FrameState(frameBuf: bytes, bytesToRead: int, bytesRead: int, header: Header) {
    predicate Idle() {
      bytesToRead == 0 && bytesRead == 0 && frameBuf == []
    }

    predicate Open() {
      && bytesRead == |frameBuf| < bytesToRead == header.bytesToRead
      && bytesToRead <= MAX_VIDEO_FRAME_BYTES
    }

    function Closed(): FrameState {
      FrameState([], 0, 0, header)
    }
  }

  const ZERO_STATE := FrameState([], 0, 0, ZERO_HEADER)

  /** One call of the frame handler: the number of the completing packet, the frame's header and its bytes. */
  datatype Frame = Frame(seqNo: uint16, header: Header, data: bytes)

  datatype Assembler = Assembler(states: map<byte, FrameState>, lastChannel: byte, emitted: seq<Frame>) {
    function At(channel: byte): FrameState {
      if channel in states then states[channel] else ZERO_STATE
    }

    function Put(channel: byte, vs: FrameState): Assembler {
      this.(states := states[channel := vs])
    }
  }

  const NEW_ASSEMBLER := Assembler(map[], 0, [])

  predicate HasMagic(data: bytes) {
    |data| >= 4 && data[..4] == MAGIC_WORD
  }

  predicate HasHeader(data: bytes) {
    |data| >= HEADER_BYTES && HasMagic(data)
  }

  function ParseHeader(data: bytes): Header
    requires |data| >= HEADER_BYTES
  {
    Header(DecodeU16(data[4..6]), DecodeU32(data[6..10]), data[12], data[13], data[14])
  }

  /** The sender's side of ParseHeader; bytes 10, 11 and 15 are not read by the receiver. */
  function HeaderBytes(h: Header, reserved: bytes): (b: bytes)
    requires |reserved| == 3
    ensures |b| == HEADER_BYTES
  {
    MAGIC_WORD + EncodeU16(h.commandID) + EncodeU32(h.bytesToRead) + reserved[..2]
    + [h.channel, h.signCode, h.dataType, reserved[2]]
  }

  lemma {:induction false} HeaderRoundTrip(h: Header, reserved: bytes, rest: bytes)
    requires |reserved| == 3
    ensures HasHeader(HeaderBytes(h, reserved) + rest)
    ensures ParseHeader(HeaderBytes(h, reserved) + rest) == h
    ensures (HeaderBytes(h, reserved) + rest)[HEADER_BYTES..] == rest
  {
    var b := HeaderBytes(h, reserved) + rest;
    U16RoundTrip(h.commandID);
    U32RoundTrip(h.bytesToRead);
    assert b[..4] == MAGIC_WORD;
    assert b[4..6] == EncodeU16(h.commandID);
    assert b[6..10] == EncodeU32(h.bytesToRead);
  }

  predicate ValidSize(h: Header) {
    0 < h.bytesToRead <= MAX_VIDEO_FRAME_BYTES
  }

  /** Emits the channel's frame when all its declared bytes have been read. */
  function EmitIfComplete(a: Assembler, seqNo: uint16, channel: byte, vs: FrameState): Assembler
    requires 0 <= vs.bytesToRead
  {
    if vs.bytesToRead > 0 && vs.bytesRead >= vs.bytesToRead then
      var emitLen := if vs.bytesToRead > |vs.frameBuf| then |vs.frameBuf| else vs.bytesToRead;
      a.Put(channel, vs.Closed()).(emitted := a.emitted + [Frame(seqNo, vs.header, vs.frameBuf[..emitLen])])
    else
      a.Put(channel, vs)
  }

  /** The effect of one packet handed to the reassembler. */
  function Process(a: Assembler, seqNo: uint16, data: bytes): Assembler {
    if HasHeader(data) then
      var h := ParseHeader(data);
      var a1 := a.(lastChannel := h.channel);
      if !ValidSize(h) then
        a1.Put(h.channel, a.At(h.channel))
      else
        var body := data[HEADER_BYTES..];
        EmitIfComplete(a1, seqNo, h.channel, FrameState(body, h.bytesToRead, |body|, h))
    else
      var vs := a.At(a.lastChannel);
      if vs.bytesToRead <= 0 then
        a.Put(a.lastChannel, vs)
      else if vs.bytesRead + |data| > vs.bytesToRead then
        a.Put(a.lastChannel, vs.Closed())
      else
        EmitIfComplete(a, seqNo, a.lastChannel,
                       vs.(frameBuf := vs.frameBuf + data, bytesRead := vs.bytesRead + |data|))
  }

  /** Loss recovery abandons every frame under reassembly; the channel last seen is kept. */
  function ResetStates(a: Assembler): Assembler {
    a.(states := map ch | ch in a.states :: ZERO_STATE)
  }

  // ----- The reassembly invariant -----

  predicate Consistent(a: Assembler) {
    && (forall ch <- a.states :: a.states[ch].Idle() || a.states[ch].Open())
    && (forall f <- a.emitted :: |f.data| == f.header.bytesToRead && ValidSize(f.header))
  }

  /** Whatever packet arrives, each channel stays idle or strictly short of its declared size, and every
      frame ever emitted has exactly the size its header declares. */
  lemma {:induction false} ProcessKeepsConsistent(a: Assembler, seqNo: uint16, data: bytes)
    requires Consistent(a)
    ensures Consistent(Process(a, seqNo, data))
    ensures a.emitted <= Process(a, seqNo, data).emitted
  {
  }

  lemma {:induction false} ResetKeepsConsistent(a: Assembler)
    requires Consistent(a)
    ensures Consistent(ResetStates(a))
    ensures AllIdle(ResetStates(a)) && ResetStates(a).emitted == a.emitted
  {
  }

  predicate AllIdle(a: Assembler) {
    forall ch <- a.states :: a.states[ch].Idle()
  }
}
