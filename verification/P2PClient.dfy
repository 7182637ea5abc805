/** The receive side of the camera client: the methods update the client's fields in place, and each is
    proved against the functions whose properties the other modules establish. */
module P2PClient {
  import opened Common
  import opened SequenceNumbers
  import opened FrameReassembly
  import opened ReorderQueue
  import opened CommandParser
  import opened PartOrder
  import FrameIntegrity
  import CommandDelivery

  /** The receive state of one data type: its expected number, queue, leftover bytes and message builder. */
  class MessageState {
    var expectedSeqNo: uint16
    var seqInitialized: bool
    var queuedData: map<uint16, Message>
    var leftoverData: bytes
    var header: Header
    var bytesRead: int
    var messages: map<uint16, bytes>
    /** Set where the source would slice out of range and crash. */
    var panicked: bool

    /** The packets delivered in sequence so far. */
    ghost var trace: seq<Op>
    /** The messages reported with their parts, and the bodies passed on with them. */
    ghost var completed: seq<Completed>
    ghost var bodies: seq<bytes>

    ghost function AsReceiver(): Receiver
      reads this
    {
      Receiver(seqInitialized, expectedSeqNo, queuedData, trace)
    }

    ghost function AsParser(): Parser
      reads this
    {
      Parser(leftoverData, header, bytesRead, messages, completed, panicked)
    }

    ghost predicate BodiesMatch()
      reads this
    {
      && |bodies| == |completed|
      && (forall j :: 0 <= j < |completed| ==> SortedConcat(completed[j].parts, bodies[j]))
    }

    /** The parser has seen exactly what the queue delivered. */
    ghost predicate ParsedInStep()
      reads this
    {
      BodiesMatch() && AsParser() == CommandDelivery.ParseOps(trace)
    }

    constructor ()
      ensures AsReceiver() == NEW_RECEIVER && AsParser() == NEW_PARSER && ParsedInStep()
    {
      expectedSeqNo, seqInitialized, queuedData, leftoverData := 0, false, map[], [];
      header, bytesRead, messages, panicked := ZERO_HEADER, 0, map[], false;
      trace, completed, bodies := [], [], [];
    }

    /** The running minimum over the queue's keys, in whatever order the map yields them. */
    method LowestQueued() returns (lowest: uint16, ghost order: seq<uint16>)
      requires queuedData != map[]
      ensures Enumerates(order, queuedData.Keys) && order != []
      ensures lowest == Lowest(order)
    {
      hide IsSeqBefore;
      var keys := queuedData.Keys;
      assert keys != {} by { var k :| k in queuedData; }
      lowest, order := 0, [];
      var first := true;
      while keys != {}
        invariant keys <= queuedData.Keys
        invariant Enumerates(order, queuedData.Keys - keys)
        invariant first <==> order == []
        invariant first ==> keys == queuedData.Keys
        invariant !first ==> lowest == Lowest(order)
        decreases keys
      {
        var s :| s in keys;
        assert (order + [s])[..|order|] == order;
        if first || IsSeqBefore(s, lowest) {
          lowest := s;
          first := false;
        }
        order := order + [s];
        keys := keys - {s};
      }
    }

    /** Drops every queued packet before the limit, visiting the keys in whatever order. */
    method PurgeBefore(limit: uint16)
      modifies this`queuedData
      ensures queuedData == Purge(old(queuedData), limit)
    {
      hide IsSeqBefore;
      var keys := queuedData.Keys;
      while keys != {}
        invariant keys <= old(queuedData).Keys
        invariant forall k :: k in queuedData <==> k in old(queuedData) && (k in keys || !IsSeqBefore(k, limit))
        invariant forall k <- queuedData :: queuedData[k] == old(queuedData)[k]
        decreases keys
      {
        var k :| k in keys;
        if IsSeqBefore(k, limit) {
          queuedData := queuedData - {k};
        }
        keys := keys - {k};
      }
      assert queuedData == Purge(old(queuedData), limit);
    }

    /** Reports the message under construction if all its bytes have been read. */
    method ReportIfComplete(seqNo: uint16)
      requires BodiesMatch() && !panicked
      modifies this`header, this`bytesRead, this`messages, this`completed, this`bodies
      ensures BodiesMatch() && AsParser() == Report(old(AsParser()), seqNo)
    {
      if bytesRead == header.bytesToRead && header.bytesToRead > 0 {
        var completeData := SortMessageParts(messages);
        completed := completed + [Completed(header, seqNo, messages)];
        bodies := bodies + [completeData];
        header, bytesRead, messages := ZERO_HEADER, 0, map[];
      }
    }

    /** Splits one packet, with what the last one left over, into messages. */
    method ParseDataMessage(seqNo: uint16, message: bytes)
      requires BodiesMatch()
      modifies this`leftoverData, this`header, this`bytesRead, this`messages, this`panicked, this`completed, this`bodies
      ensures BodiesMatch() && AsParser() == Parse(old(AsParser()), seqNo, message)
    {
      hide ParseHeader;
      if panicked {
        return;
      }
      var data := leftoverData + message;
      leftoverData := [];
      while |data| > 0
        invariant BodiesMatch() && !panicked
        invariant Loop(AsParser(), seqNo, data) == Parse(old(AsParser()), seqNo, message)
        decreases |data|
      {
        if HasMagic(data) {
          if |data| < HEADER_BYTES {
            leftoverData := data;
            return;
          }
          data := TakeFirstPart(seqNo, data);
        } else {
          var remaining := header.bytesToRead - bytesRead;
          if remaining == 0 && |data| > HEADER_BYTES {
            return;
          } else if remaining < 0 {
            panicked := true;
            return;
          }
          data := TakeNextPart(seqNo, data);
        }
        ReportIfComplete(seqNo);
      }
    }

    method TakeFirstPart(seqNo: uint16, packet: bytes) returns (data: bytes)
      requires HasHeader(packet)
      modifies this`leftoverData, this`header, this`bytesRead, this`messages
      ensures (AsParser(), data) == TakeFirst(old(AsParser()), seqNo, packet)
    {
      header := ParseHeader(packet);
      data := packet[HEADER_BYTES..];
      if |data| >= header.bytesToRead {
        var payload := data[..header.bytesToRead];
        messages := messages[seqNo := payload];
        bytesRead := |payload|;
        data := data[header.bytesToRead..];
        if 0 < |data| <= HEADER_BYTES {
          leftoverData := data;
          data := [];
        }
      } else {
        if |data| <= HEADER_BYTES {
          leftoverData := data;
        } else {
          messages := messages[seqNo := data];
          bytesRead := |data|;
        }
        data := [];
      }
    }

    method TakeNextPart(seqNo: uint16, packet: bytes) returns (data: bytes)
      requires packet != [] && bytesRead <= header.bytesToRead
      requires !(header.bytesToRead == bytesRead && |packet| > HEADER_BYTES)
      modifies this`leftoverData, this`bytesRead, this`messages
      ensures (AsParser(), data) == TakeNext(old(AsParser()), seqNo, packet)
    {
      var remaining := header.bytesToRead - bytesRead;
      data := packet;
      if remaining <= |data| {
        var payload := data[..remaining];
        messages := messages[seqNo := payload];
        bytesRead := bytesRead + |payload|;
        data := data[remaining..];
        if 0 < |data| <= HEADER_BYTES {
          leftoverData := data;
          data := [];
        }
      } else {
        if |data| <= HEADER_BYTES {
          leftoverData := data;
        } else {
          messages := messages[seqNo := data];
          bytesRead := bytesRead + |data|;
        }
        data := [];
      }
    }

    /** Hands one packet to the parser and advances the expected number past the given one. */
    method DeliverCommand(seqNo: uint16, message: bytes, number: uint16)
      requires ParsedInStep()
      modifies this`expectedSeqNo, this`trace, this`leftoverData, this`header, this`bytesRead, this`messages,
               this`panicked, this`completed, this`bodies
      ensures ParsedInStep()
      ensures AsReceiver() == DeliverNext(old(AsReceiver()), Message(seqNo, message), number)
    {
      hide Parse, CommandDelivery.ParseOps, SortedConcat;
      expectedSeqNo := IncrementSequence(number);
      ParseDataMessage(seqNo, message);
      CommandDelivery.ParseOneMore(trace, Message(seqNo, message));
      trace := trace + [Deliver(Message(seqNo, message))];
    }

    /** Delivers every queued packet that continues the contiguous run. */
    method DrainCommands()
      requires ParsedInStep()
      modifies this`expectedSeqNo, this`trace, this`leftoverData, this`header, this`bytesRead, this`messages,
               this`panicked, this`completed, this`bodies, this`queuedData
      ensures ParsedInStep()
      ensures AsReceiver() == Drain(old(AsReceiver()))
    {
      hide CommandDelivery.ParseOps, SortedConcat;
      while expectedSeqNo in queuedData
        invariant ParsedInStep()
        invariant Drain(AsReceiver()) == Drain(old(AsReceiver()))
        decreases |queuedData|
      {
        var nextSeq := expectedSeqNo;
        var queued := queuedData[nextSeq];
        ghost var before := queuedData.Keys;
        queuedData := queuedData - {nextSeq};
        assert queuedData.Keys == before - {nextSeq};
        DeliverCommand(queued.seqNo, queued.data, nextSeq);
      }
    }

    /** A packet of a data type other than video. */
    method HandleCommandMessage(seqNo: uint16, data: bytes)
      requires ParsedInStep()
      modifies this
      ensures ParsedInStep()
      ensures AsReceiver() == HandleCommand(old(AsReceiver()), Message(seqNo, data))
    {
      hide IsSeqBefore, CommandDelivery.ParseOps, SortedConcat;
      var expectedSeq := if seqInitialized then expectedSeqNo else seqNo;
      if seqNo == expectedSeq {
        seqInitialized := true;
        DeliverCommand(seqNo, data, seqNo);
        DrainCommands();
      } else {
        queuedData := queuedData[seqNo := Message(seqNo, data)];
        PurgeBefore(expectedSeq);
      }
    }
  }

  // ----- Sorting the parts of a message -----

  predicate Ordered(keys: seq<uint16>) {
    forall i, j :: 0 <= i < j < |keys| ==> Less(keys[i], keys[j])
  }

  /** The position of k among keys already in order. */
  method FindPlace(keys: seq<uint16>, k: uint16) returns (p: nat)
    ensures p <= |keys|
    ensures forall i :: 0 <= i < p ==> Less(keys[i], k)
    ensures p < |keys| ==> !Less(keys[p], k)
  {
    p := 0;
    while p < |keys| && Less(keys[p], k)
      invariant p <= |keys|
      invariant forall i :: 0 <= i < p ==> Less(keys[i], k)
    {
      p := p + 1;
    }
  }

  lemma {:induction false} InsertKeepsOrder(keys: seq<uint16>, k: uint16, p: nat, all: set<uint16>)
    requires StrictTotal(all) && Ordered(keys) && k in all && k !in keys && forall x <- keys :: x in all
    requires p <= |keys| && (forall i :: 0 <= i < p ==> Less(keys[i], k)) && (p < |keys| ==> !Less(keys[p], k))
    ensures Ordered(keys[..p] + [k] + keys[p..])
  {
    hide Less;
    forall i | p <= i < |keys| ensures Less(k, keys[i]) {
      assert keys[p] in keys && keys[i] in keys;
      assert Less(k, keys[p]);
      assert p < i ==> Less(keys[p], keys[i]);
    }
  }

  /** Stands for the library sort: some permutation, in order when the comparator is a strict total order. */
  method SortSlice(keys: seq<uint16>, ghost all: set<uint16>) returns (sorted: seq<uint16>)
    requires Enumerates(keys, all)
    ensures SortResult(sorted, all)
  {
    hide Less;
    sorted := [];
    for n := 0 to |keys|
      invariant forall x <- sorted :: x in keys[..n]
      invariant forall x <- keys[..n] :: x in sorted
      invariant forall i, j :: 0 <= i < j < |sorted| ==> sorted[i] != sorted[j]
      invariant StrictTotal(all) ==> Ordered(sorted)
    {
      var k := keys[n];
      assert k !in keys[..n];
      assert keys[..n + 1] == keys[..n] + [k];
      var p := FindPlace(sorted, k);
      if StrictTotal(all) { InsertKeepsOrder(sorted, k, p, all); }
      sorted := sorted[..p] + [k] + sorted[p..];
    }
    assert keys[..|keys|] == keys;
  }

  /** Joins the parts in the order of the sort; the keys come out of the map in an unknown order. */
  method SortMessageParts(messages: map<uint16, bytes>) returns (result: bytes)
    ensures SortedConcat(messages, result)
  {
    hide Less;
    var keys: seq<uint16> := [];
    var rest := messages.Keys;
    while rest != {}
      invariant rest <= messages.Keys && Enumerates(keys, messages.Keys - rest)
      decreases rest
    {
      var k :| k in rest;
      keys, rest := keys + [k], rest - {k};
    }
    var sorted := SortSlice(keys, messages.Keys);
    result := [];
    for n := 0 to |sorted|
      invariant result == ConcatParts(messages, sorted[..n])
    {
      assert sorted[..n + 1][..n] == sorted[..n];
      result := result + messages[sorted[n]];
    }
    assert sorted[..|sorted|] == sorted;
  }

  class Client {
    const data: MessageState
    const video: MessageState
    const control: MessageState
    const binary: MessageState
    var videoStates: map<byte, FrameState>
    var lastVideoChannel: byte
    /** The frames passed to the video handler. */
    ghost var frames: seq<Frame>

    ghost function Reassembly(): Assembler
      reads this
    {
      Assembler(videoStates, lastVideoChannel, frames)
    }

    /** The reassembler has seen exactly what the video queue delivered. */
    ghost predicate VideoInStep()
      reads this, video
    {
      Reassembly() == FrameIntegrity.Apply(NEW_ASSEMBLER, video.trace)
    }

    ghost predicate Valid()
      reads this, data, video, control, binary
    {
      && data != video && data != control && data != binary && video != control && video != binary && control != binary
      && VideoInStep()
      && data.ParsedInStep() && control.ParsedInStep() && binary.ParsedInStep()
    }

    constructor ()
      ensures Valid()
      ensures Reassembly() == NEW_ASSEMBLER
      ensures data.AsReceiver() == video.AsReceiver() == control.AsReceiver() == binary.AsReceiver() == NEW_RECEIVER
      ensures fresh(data) && fresh(video) && fresh(control) && fresh(binary)
    {
      data := new MessageState();
      video := new MessageState();
      control := new MessageState();
      binary := new MessageState();
      videoStates, lastVideoChannel, frames := map[], 0, [];
    }

    // ----- Video -----

    method ProcessVideoPacket(seqNo: uint16, data: bytes)
      modifies this
      ensures Reassembly() == Process(old(Reassembly()), seqNo, data)
    {
      var hasHeader := |data| >= HEADER_BYTES && data[..4] == MAGIC_WORD;
      var ch: byte;
      if hasHeader {
        ch := data[12];
        lastVideoChannel := ch;
      } else {
        ch := lastVideoChannel;
      }
      if ch !in videoStates {
        videoStates := videoStates[ch := ZERO_STATE];
      }
      var vs := videoStates[ch];
      if hasHeader {
        var header := Header(DecodeU16(data[4..6]), DecodeU32(data[6..10]), data[12], data[13], data[14]);
        if header.bytesToRead <= 0 || header.bytesToRead > MAX_VIDEO_FRAME_BYTES {
          assert videoStates == old(videoStates)[ch := vs];
          return;
        }
        var videoData := data[HEADER_BYTES..];
        vs := FrameState(videoData, header.bytesToRead, |videoData|, header);
      } else if vs.bytesToRead > 0 {
        if vs.bytesRead + |data| > vs.bytesToRead {
          vs := vs.(frameBuf := [], bytesToRead := 0, bytesRead := 0);
          videoStates := videoStates[ch := vs];
          return;
        }
        vs := vs.(frameBuf := vs.frameBuf + data, bytesRead := vs.bytesRead + |data|);
      } else {
        assert videoStates == old(videoStates)[ch := vs];
        return;
      }
      if vs.bytesToRead > 0 && vs.bytesRead >= vs.bytesToRead {
        var emitLen := vs.bytesToRead;
        if emitLen > |vs.frameBuf| {
          emitLen := |vs.frameBuf|;
        }
        frames := frames + [Frame(seqNo, vs.header, vs.frameBuf[..emitLen])];
        vs := vs.(frameBuf := [], bytesToRead := 0, bytesRead := 0);
      }
      videoStates := videoStates[ch := vs];
    }

    /** Hands one packet to the reassembler and advances the expected number past the given one. */
    method DeliverVideo(seqNo: uint16, data: bytes, number: uint16)
      requires VideoInStep()
      modifies this, video`expectedSeqNo, video`trace
      ensures VideoInStep()
      ensures video.AsReceiver() == DeliverNext(old(video.AsReceiver()), Message(seqNo, data), number)
    {
      hide Process;
      ProcessVideoPacket(seqNo, data);
      video.expectedSeqNo := IncrementSequence(number);
      video.trace := video.trace + [Deliver(Message(seqNo, data))];
      assert video.trace[..|video.trace| - 1] == old(video.trace);
    }

    /** Processes a packet, then every queued packet that now forms a contiguous run. */
    method ProcessVideoInOrder(seqNo: uint16, data: bytes)
      requires VideoInStep()
      modifies this, video`expectedSeqNo, video`trace, video`queuedData
      ensures VideoInStep()
      ensures video.AsReceiver() == InOrder(old(video.AsReceiver()), Message(seqNo, data))
    {
      hide Process, FrameIntegrity.Apply;
      DeliverVideo(seqNo, data, seqNo);
      while video.expectedSeqNo in video.queuedData
        invariant VideoInStep() && video.seqInitialized == old(video.seqInitialized)
        invariant Drain(video.AsReceiver()) == InOrder(old(video.AsReceiver()), Message(seqNo, data))
        decreases |video.queuedData|
      {
        var next := video.expectedSeqNo;
        var queued := video.queuedData[next];
        ghost var before := video.queuedData.Keys;
        video.queuedData := video.queuedData - {next};
        assert video.queuedData.Keys == before - {next};
        DeliverVideo(queued.seqNo, queued.data, next);
      }
    }

    method ResetVideoStates()
      modifies this`videoStates
      ensures Reassembly() == ResetStates(old(Reassembly()))
    {
      var channels := videoStates.Keys;
      while channels != {}
        invariant channels <= videoStates.Keys == old(videoStates).Keys
        invariant forall ch <- videoStates ::
                    videoStates[ch] == if ch in channels then old(videoStates)[ch] else ZERO_STATE
        decreases channels
      {
        var ch :| ch in channels;
        videoStates := videoStates[ch := ZERO_STATE];
        channels := channels - {ch};
      }
    }

    /** Skips to the packet the scan finds; the iteration order of the scan is unknown. */
    method ResyncVideoQueue() returns (ghost order: seq<uint16>)
      requires VideoInStep()
      modifies this, video`expectedSeqNo, video`trace, video`queuedData
      ensures VideoInStep()
      ensures Enumerates(order, old(video.queuedData).Keys)
      ensures video.AsReceiver() == Resync(old(video.AsReceiver()), order)
    {
      hide Process, ResetStates, IsSeqBefore, Drain, Lowest;
      if video.queuedData == map[] {
        order := [];
        return;
      }
      var lowest;
      lowest, order := video.LowestQueued();
      video.expectedSeqNo := lowest;
      ResetVideoStates();
      video.trace := video.trace + [Reset];
      assert video.trace[..|video.trace| - 1] == old(video.trace);
      video.PurgeBefore(lowest);
      if lowest in video.queuedData {
        var queued := video.queuedData[lowest];
        video.queuedData := video.queuedData - {lowest};
        ProcessVideoInOrder(lowest, queued.data);
      }
    }

    /** elapsed: more than the resync threshold has passed since the last packet delivered in sequence. */
    method HandleVideoMessage(seqNo: uint16, data: bytes, elapsed: bool) returns (ghost order: seq<uint16>)
      requires VideoInStep()
      modifies this, video`expectedSeqNo, video`trace, video`queuedData, video`seqInitialized
      ensures VideoInStep()
      ensures old(IsAhead(video.AsReceiver(), seqNo)) ==> Enumerates(order, old(video.queuedData).Keys + {seqNo})
      ensures video.AsReceiver() == HandleVideo(old(video.AsReceiver()), Message(seqNo, data), elapsed, order)
    {
      hide Process, IsSeqBefore, FrameIntegrity.Apply, Drain, Resync;
      order := SomeOrder(video.queuedData.Keys + {seqNo});
      if !video.seqInitialized {
        video.seqInitialized := true;
        video.expectedSeqNo := seqNo;
      }
      var expected := video.expectedSeqNo;
      if seqNo == expected {
        ProcessVideoInOrder(seqNo, data);
        return;
      }
      if IsSeqBefore(seqNo, expected) {
        return;
      }
      video.queuedData := video.queuedData[seqNo := Message(seqNo, data)];
      assert video.queuedData.Keys == old(video.queuedData).Keys + {seqNo};
      if elapsed || |video.queuedData| > MAX_QUEUED_VIDEO_PACKETS {
        order := ResyncVideoQueue();
      }
    }

    ghost method SomeOrder(keys: set<uint16>) returns (order: seq<uint16>)
      ensures Enumerates(order, keys)
    {
      order := [];
      var rest := keys;
      while rest != {}
        invariant rest <= keys && Enumerates(order, keys - rest)
      {
        var k :| k in rest;
        order, rest := order + [k], rest - {k};
      }
    }

    // ----- Dispatch -----

    /** The receive state a payload with this tag goes to. */
    function StateFor(tag: byte): MessageState {
      if tag == VIDEO then video else if tag == CONTROL then control else if tag == BINARY then binary else data
    }

    /** The payload of one DATA packet: two type bytes, a big-endian packet number, then the data. */
    method HandleDataMessage(payload: bytes, elapsed: bool) returns (ghost order: seq<uint16>)
      requires Valid()
      modifies this, data, video, control, binary
      ensures Valid()
      ensures |payload| < 4 ==>
                data.AsReceiver() == old(data.AsReceiver()) && video.AsReceiver() == old(video.AsReceiver())
                && control.AsReceiver() == old(control.AsReceiver()) && binary.AsReceiver() == old(binary.AsReceiver())
      ensures |payload| >= 4 ==>
                var m := Message(payload[2] as int * 0x100 + payload[3] as int, payload[4..]);
                && (payload[1] == 1 ==>
                      && (old(IsAhead(video.AsReceiver(), m.seqNo)) ==> Enumerates(order, old(video.queuedData).Keys + {m.seqNo}))
                      && video.AsReceiver() == HandleVideo(old(video.AsReceiver()), m, elapsed, order))
                && (payload[1] != 1 ==> video.AsReceiver() == old(video.AsReceiver()))
                && control.AsReceiver() == (if payload[1] == 2 then HandleCommand(old(control.AsReceiver()), m)
                                            else old(control.AsReceiver()))
                && binary.AsReceiver() == (if payload[1] == 3 then HandleCommand(old(binary.AsReceiver()), m)
                                           else old(binary.AsReceiver()))
                && data.AsReceiver() == (if payload[1] !in {1, 2, 3} then HandleCommand(old(data.AsReceiver()), m)
                                         else old(data.AsReceiver()))
    {
      hide HandleVideo, HandleCommand, FrameIntegrity.Apply, CommandDelivery.ParseOps, IsAhead, Enumerates;
      order := [];
      if |payload| < 4 {
        return;
      }
      var seqNo := payload[2] as int * 0x100 + payload[3] as int;
      var body := payload[4..];
      if payload[1] == VIDEO {
        order := HandleVideoMessage(seqNo, body, elapsed);
      } else if payload[1] == CONTROL {
        control.HandleCommandMessage(seqNo, body);
      } else if payload[1] == BINARY {
        binary.HandleCommandMessage(seqNo, body);
      } else {
        data.HandleCommandMessage(seqNo, body);
      }
    }
  }

  /** The payload tags of the data types; every other tag counts as command data. */
  const VIDEO: byte := 1
  const CONTROL: byte := 2
  const BINARY: byte := 3
}
