/** Camera, session, raw endpoint and page as objects: the page decodes what the camera sent. */
module RawBroadcast {
  import opened Common
  import opened FrameWindow
  import opened KeyframeScan
  import opened RawFraming
  import opened Serving
  import opened StreamServer
  import opened StreamSessions
  import opened Timestamps
  import opened Broadcast
  import VideoHeader

  /** What the session is told of a frame. */
  function SessionMetadata(m: VideoHeader.FrameMetadata): Metadata {
    Metadata(m.isKeyFrame, m.streamType, m.videoFPS, m.videoTimestamp)
  }

  ghost predicate ComesFromCamera(input: Input) {
    input.Camera? ==> exists m :: VideoHeader.IsCameraFrame(input.data, m) && input.metadata == SessionMetadata(m)
  }

  /** Every frame is one the reassembler has emitted, parsed. */
  ghost predicate FromCamera(inputs: seq<Input>) {
    forall k :: 0 <= k < |inputs| ==> ComesFromCamera(inputs[k])
  }

  lemma {:induction false} CameraInput(input: Input)
    requires ComesFromCamera(input) && input.Camera?
    ensures input.metadata.videoTimestamp < RAW_LIMIT && (input.data != [] ==> Frameable(input.data))
  {
    hide VideoHeader.IsCameraFrame;
    var m :| VideoHeader.IsCameraFrame(input.data, m) && input.metadata == SessionMetadata(m);
    VideoHeader.CameraFramesAreFrameable(input.data, m);
  }

  predicate AppendsFrameable(events: seq<Event>) {
    forall k :: 0 <= k < |events| && events[k].Append? ==> Frameable(events[k].frame.data)
  }

  lemma {:induction false} EventsFrameable(inputs: seq<Input>, codec: int)
    requires FromCamera(inputs)
    ensures AppendsFrameable(EventsOf(inputs, codec))
  {
    hide ComesFromCamera, HoldsStartCode, HoldsKeyframe, Rebase, DetectCodec;
    if inputs == [] {
    } else {
      var n := |inputs| - 1;
      EventsFrameable(inputs[..n], codec);
      if inputs[n].Camera? { CameraInput(inputs[n]); }
    }
  }

  predicate HistoriesFrameable(s: Source) {
    forall h, i :: 0 <= h < |s.histories| && 0 <= i < |s.histories[h]| ==> Frameable(s.histories[h][i].data)
  }

  lemma {:induction false} RunFrameable(events: seq<Event>)
    requires AppendsFrameable(events)
    ensures HistoriesFrameable(Run(events).source)
  {
    hide Frameable, Window, Tick;
    if events == [] {
    } else {
      RunFrameable(events[..|events| - 1]);
    }
  }

  lemma {:induction false} LogFrameable(events: seq<Event>)
    requires AppendsFrameable(events)
    ensures AllFrameable(Payloads(Run(events).viewer.log))
  {
    RunFrameable(events);
    RunIsGood(events);
    hide Run, Frameable, GoodSource;
    var log := Run(events).viewer.log;
    forall i | 0 <= i < |log| ensures Frameable(Payloads(log)[i]) {
      assert Authentic(Run(events).source, log[i]);
    }
  }

  /** The raw endpoint binds, polls and serves as the muxed one does. */
  ghost predicate Follows(viewer: RawConnection, c: Connection)
    reads viewer
  {
    viewer.streamID == c.streamID && viewer.lastFrameID == c.lastFrameID && viewer.log == c.log
  }

  lemma {:induction false} TickIgnoresTimeline(a: Connection, b: Connection, s: Source)
    requires a.streamID == b.streamID && a.lastFrameID == b.lastFrameID && a.log == b.log
    ensures var a', b' := Tick(a, s), Tick(b, s);
            a'.streamID == b'.streamID && a'.lastFrameID == b'.lastFrameID && a'.log == b'.log
  {
    hide View.FramesSince, RemapFrames;
  }

  method OnRawTick(session: StreamSession, viewer: RawConnection, ghost events: seq<Event>)
    requires Mirrors(session, Run(events).source) && viewer.Valid() && Follows(viewer, Run(events).viewer)
    modifies viewer
    ensures viewer.Valid() && old(viewer.wire) <= viewer.wire && Follows(viewer, Run(events + [Poll]).viewer)
  {
    hide Run, Tick, Chronicle, StreamSession.Valid;
    ghost var s := Run(events).source;
    TickIgnoresTimeline(viewer.AsConnection(), Run(events).viewer, s);
    var serving := viewer.Tick(session, s);
    RunNext(events, Poll);
  }

  /** Up to count more bytes of what the server wrote reach the page. */
  method OnNetwork(count: nat, viewer: RawConnection, page: Player, sent: nat) returns (sent': nat)
    requires page.Valid() && sent <= |viewer.wire| && Concat(page.received) == viewer.wire[..sent]
    modifies page
    ensures page.Valid() && sent' <= |viewer.wire| && Concat(page.received) == viewer.wire[..sent']
  {
    sent' := if sent + count <= |viewer.wire| then sent + count else |viewer.wire|;
    ghost var before := page.received;
    page.Receive(viewer.wire[sent..sent']);
    assert page.received[..|before|] == before;
    assert viewer.wire[..sent] + viewer.wire[sent..sent'] == viewer.wire[..sent'];
  }

  /** Frames parsed from what the reassembler emits, in any interleaving with restarts, session replacements,
      polls and network deliveries of any size: the page holds at every end a prefix of the frames served,
      each whole, in order and byte-identical, and never resynchronises; all of them when every byte has
      arrived. The frames served are decodable. */
  method ServeRawViewer(inputs: seq<Input>, codec: int) returns (viewer: RawConnection, page: Player, sent: nat)
    requires FromCamera(inputs) && |inputs| <= 1_000_000_000_000_000
    ensures viewer.Valid() && viewer.log == Run(EventsOf(inputs, codec)).viewer.log
    ensures forall p: nat | p < |viewer.log| :: Decodable(Run(EventsOf(inputs, codec)).source, viewer.log, p)
    ensures page.Valid() && sent <= |viewer.wire| && Concat(page.received) == viewer.wire[..sent]
    ensures page.dropped == 0 && page.units <= Payloads(viewer.log)
    ensures sent == |viewer.wire| ==> page.units == Payloads(viewer.log) && page.acc == []
  {
    hide Tick, Run, GoodSource, GoodLog, Fits, Chronicle, Rebased, Decodable, Payloads, StreamSession.Valid, Change,
         IntakeAfter, IntakeOf, EventsOf, Records, Feed, ComesFromCamera, Frameable;
    var session := new StreamSession(0, codec);
    viewer := new RawConnection(session);
    page := new Player();
    sent := 0;
    ghost var events: seq<Event>, ledger: seq<seq<Stamp>> := [], [[]];
    Beginning(session);
    NoInput(inputs[..0], codec);
    for k := 0 to |inputs|
      invariant fresh(session) && fresh(viewer) && fresh(page)
      invariant events == EventsOf(inputs[..k], codec) && Configured(session, IntakeOf(inputs[..k], codec))
      invariant viewer.Valid() && Follows(viewer, Run(events).viewer)
      invariant Mirrors(session, Run(events).source) && Accounts(ledger, Run(events).source, session, k)
      invariant page.Valid() && sent <= |viewer.wire| && Concat(page.received) == viewer.wire[..sent]
    {
      NextInput(inputs, codec, k);
      match inputs[k] {
        case Camera(_, _, _) => CameraInput(inputs[k]);
        case Ticker => OnRawTick(session, viewer, events);
        case Network(count) => sent := OnNetwork(count, viewer, page, sent);
        case _ =>
      }
      session, ledger := OnSession(inputs[k], codec, session, IntakeOf(inputs[..k], codec), events, ledger, k);
      events := EventsAfter(IntakeOf(inputs[..k], codec), inputs[k], events);
    }
    assert inputs[..|inputs|] == inputs;
    AllDecodable(events);
    EventsFrameable(inputs, codec);
    LogFrameable(events);
    RawDelivery(viewer.log, page.received);
  }
}
