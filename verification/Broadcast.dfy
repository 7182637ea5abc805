/** Session and viewer as objects, driven by whatever happens to them: the viewer is always sent a decodable
    stream with increasing timestamps. */
module Broadcast {
  import opened Common
  import opened FrameWindow
  import opened KeyframeScan
  import opened Serving
  import opened StreamServer
  import opened StreamSessions
  import opened Timestamps
  import opened ViewerTimeline

  /** A frame from the camera, a restart of the feed that clears the buffer, the replacement of the session
      (gap other channels having taken IDs in between), a tick of the viewer's poll loop, or the arrival of up
      to count more bytes at the viewer's page. */
  datatype Input =
    | Camera(data: bytes, metadata: Metadata, sniffed: int)
    | Restart
    | NewSession(gap: nat)
    | Ticker
    | Network(count: nat)

  predicate CameraClocksIn48Bits(inputs: seq<Input>) {
    forall k :: 0 <= k < |inputs| && inputs[k].Camera? ==> inputs[k].metadata.videoTimestamp < RAW_LIMIT
  }

  // ----- What the inputs amount to -----

  /** The part of a session that decides what becomes of the next frame. */
  datatype Intake = Intake(seen: bool, codec: int, clock: Clock)

  /** An empty frame is dropped, and one without a start code once the camera has sent any. */
  ghost predicate Drops(k: Intake, data: bytes) {
    data == [] || (k.seen && !HoldsStartCode(data))
  }

  /** The frame as it is buffered: with the session's rebased timestamp, and a keyframe if its header says so
      or its bits do for the session's codec. */
  ghost function Buffered(k: Intake, data: bytes, metadata: Metadata, sniffed: int): TimedFrame {
    var codec := DetectCodec(k.codec, metadata.streamType, sniffed);
    TimedFrame(data, Rebase(k.clock, metadata.videoTimestamp, metadata.videoFPS).1,
               metadata.isKeyFrame || HoldsKeyframe(data, codec))
  }

  ghost function IntakeAfter(k: Intake, input: Input, codec: int): Intake {
    match input
    case Camera(data, metadata, sniffed) =>
      if Drops(k, data) then k
      else Intake(k.seen || HoldsStartCode(data), DetectCodec(k.codec, metadata.streamType, sniffed),
                  Rebase(k.clock, metadata.videoTimestamp, metadata.videoFPS).0)
    case NewSession(_) => Intake(false, codec, NEW_CLOCK)
    case _ => k
  }

  ghost function EventsAfter(k: Intake, input: Input, events: seq<Event>): seq<Event> {
    match input
    case Camera(data, metadata, sniffed) =>
      if Drops(k, data) then events else events + [Append(Buffered(k, data, metadata, sniffed))]
    case Restart => events + [Clear]
    case NewSession(gap) => events + [Replace(gap)]
    case Ticker => events + [Poll]
    case Network(_) => events
  }

  /** The current session's intake after the inputs; codec is the one each session starts with. */
  ghost function IntakeOf(inputs: seq<Input>, codec: int): Intake {
    if inputs == [] then Intake(false, codec, NEW_CLOCK)
    else
      var n := |inputs| - 1;
      IntakeAfter(IntakeOf(inputs[..n], codec), inputs[n], codec)
  }

  /** The events the inputs amount to. */
  ghost function EventsOf(inputs: seq<Input>, codec: int): seq<Event> {
    if inputs == [] then []
    else
      var n := |inputs| - 1;
      EventsAfter(IntakeOf(inputs[..n], codec), inputs[n], EventsOf(inputs[..n], codec))
  }

  lemma {:induction false} NextInput(inputs: seq<Input>, codec: int, n: nat)
    requires n < |inputs|
    ensures IntakeOf(inputs[..n + 1], codec) == IntakeAfter(IntakeOf(inputs[..n], codec), inputs[n], codec)
    ensures EventsOf(inputs[..n + 1], codec)
         == EventsAfter(IntakeOf(inputs[..n], codec), inputs[n], EventsOf(inputs[..n], codec))
  {
    assert inputs[..n + 1][..n] == inputs[..n];
  }

  lemma {:induction false} NoInput(inputs: seq<Input>, codec: int)
    requires inputs == []
    ensures IntakeOf(inputs, codec) == Intake(false, codec, NEW_CLOCK) && EventsOf(inputs, codec) == []
  {
  }

  // ----- Keyframes of a camera that names its codec -----

  /** Every frame names the stream type; sessions start with the codec unknown. */
  predicate AlwaysOfType(inputs: seq<Input>, streamType: byte) {
    forall k :: 0 <= k < |inputs| && inputs[k].Camera? ==> inputs[k].metadata.streamType == streamType
  }

  lemma {:induction false} CodecFollowsType(inputs: seq<Input>, streamType: byte)
    requires AlwaysOfType(inputs, streamType) && streamType <= 1
    ensures IntakeOf(inputs, 0).codec in {0, streamType as int + 1}
  {
    hide Rebase, HoldsStartCode;
    if inputs == [] {
    } else {
      CodecFollowsType(inputs[..|inputs| - 1], streamType);
    }
  }

  /** A camera that always sends stream type 1, on sessions that start with the codec unknown: a frame is
      buffered as a keyframe if and only if its header says so or it holds a NAL unit of type 19 to 21 behind a
      start code; with stream type 0, one of type 5. */
  lemma {:induction false} KeyframesOfNamedCodec(inputs: seq<Input>, streamType: byte)
    requires AlwaysOfType(inputs, streamType) && streamType <= 1
    requires inputs != [] && inputs[|inputs| - 1].Camera?
    ensures var n, input := |inputs| - 1, inputs[|inputs| - 1];
            var before, after := EventsOf(inputs[..n], 0), EventsOf(inputs, 0);
            || after == before
            || (&& |after| == |before| + 1 && after[..|before|] == before && after[|before|].Append?
                && var frame := after[|before|].frame;
                && frame.data == input.data
                && (frame.isKeyFrame <==>
                      || input.metadata.isKeyFrame
                      || (streamType == 1 && exists p: nat :: H265KeyAt(input.data, p))
                      || (streamType == 0 && exists p: nat :: H264KeyAt(input.data, p))))
  {
    hide Rebase, HoldsStartCode, HoldsKeyframe, H265KeyAt, H264KeyAt, IntakeOf;
    var n, input := |inputs| - 1, inputs[|inputs| - 1];
    CodecFollowsType(inputs[..n], streamType);
    KeyframeMeans(input.data, streamType as int + 1);
    assert inputs[..n + 1] == inputs;
    NextInput(inputs, 0, n);
    assert DetectCodec(IntakeOf(inputs[..n], 0).codec, streamType, input.sniffed) == streamType as int + 1;
  }

  // ----- The session -----

  ghost predicate Configured(session: StreamSession, k: Intake)
    reads session
  {
    session.seenValidFrame == k.seen && session.codec == k.codec && session.AsClock() == k.clock
  }

  /** The session shows the world's source, and its history is the source's. */
  ghost predicate Mirrors(session: StreamSession, s: Source)
    reads session
  {
    && session.Valid() && session.Recorded() && IsCurrent(s, session)
    && |s.histories| == s.session + 1 && s.histories[s.session] == session.history
  }

  /** The camera timestamps behind every session's frames. */
  ghost predicate Accounts(ledger: seq<seq<Stamp>>, s: Source, session: StreamSession, count: nat)
    reads session
    requires s.session < |s.histories|
  {
    && count <= MAX_RUN + 1 && Rebased(s.histories, ledger, count)
    && ledger[s.session] == session.stamps
  }

  lemma {:induction false} RunNext(events: seq<Event>, ev: Event)
    ensures Run(events + [ev]) == Step(Run(events), ev)
  {
    assert (events + [ev])[..|events|] == events;
  }

  lemma {:induction false} SameSize(histories: seq<seq<TimedFrame>>, ledger: seq<seq<Stamp>>, count: nat)
    requires Rebased(histories, ledger, count)
    ensures |ledger| == |histories|
  {
  }

  lemma {:induction false} RebasedLonger(histories: seq<seq<TimedFrame>>, ledger: seq<seq<Stamp>>, a: nat, b: nat)
    requires Rebased(histories, ledger, a) && a <= b <= MAX_RUN + 1
    ensures Rebased(histories, ledger, b)
  {
  }

  lemma {:induction false} RebasedAppend(histories: seq<seq<TimedFrame>>, ledger: seq<seq<Stamp>>, count: nat, h: nat,
                                         history: seq<TimedFrame>, stamps: seq<Stamp>)
    requires Rebased(histories, ledger, count) && h < |histories| && count <= MAX_RUN
    requires IsRebased(history, stamps) && Plausible(stamps) && |history| <= count + 1
    ensures Rebased(histories[h := history], ledger[h := stamps], count + 1)
  {
    hide IsRebased, Plausible;
  }

  lemma {:induction false} RebasedReplace(histories: seq<seq<TimedFrame>>, ledger: seq<seq<Stamp>>, count: nat,
                                          empty: seq<seq<TimedFrame>>, none: seq<seq<Stamp>>)
    requires Rebased(histories, ledger, count) && |empty| == |none|
    requires forall i :: 0 <= i < |empty| ==> empty[i] == [] && none[i] == []
    ensures Rebased(histories + empty, ledger + none, count)
  {
  }

  /** One poll writes no more than a full buffer. */
  lemma {:induction false} TickWrites(c: Connection, s: Source)
    requires s.view.Sane() && Fits(s.view.buffer) && GoodLog(s, c) && GoodSource(s)
    ensures |Tick(c, s).out| <= |c.out| + MAX_FRAMES
  {
    hide View.FramesSince, RemapFrames, Linked, Authentic;
    var c1 := Rebind(c, s.session);
    assert c1.lastFrameID <= s.view.nextFrameID by {
      if c1.log != [] { assert Authentic(s, c1.log[|c1.log| - 1]); NotAhead(s, c1.log[|c1.log| - 1]); }
    }
    ServedStretch(s.view, c1.lastFrameID);
  }

  lemma {:induction false} Beginning(session: StreamSession)
    requires session.id == 0 && session.Valid() && session.Recorded() && session.AsView() == NEW_VIEW
    requires session.history == [] && session.stamps == []
    ensures Run([]) == INITIAL && Mirrors(session, INITIAL.source) && Accounts([[]], INITIAL.source, session, 0)
  {
    hide Chronicle, Fits, LastKeyIndex, ClockAfter, OutputAt;
    assert Rebased([[]], [[]], 0);
  }

  /** One frame from the camera; the session drops some. */
  method OnCamera(input: Input, codec: int, session: StreamSession, ghost k: Intake,
                  ghost events: seq<Event>, ghost ledger: seq<seq<Stamp>>, ghost count: nat)
    returns (ghost ledger': seq<seq<Stamp>>)
    requires Mirrors(session, Run(events).source) && Accounts(ledger, Run(events).source, session, count)
    requires input.Camera? && input.metadata.videoTimestamp < RAW_LIMIT && count <= MAX_RUN && Configured(session, k)
    modifies session
    ensures Configured(session, IntakeAfter(k, input, codec))
    ensures var events' := EventsAfter(k, input, events);
            && Run(events').viewer == Run(events).viewer
            && Mirrors(session, Run(events').source) && Accounts(ledger', Run(events').source, session, count + 1)
  {
    hide Run, Chronicle, Rebased, StreamSession.Valid, Rebase, View.Append, HoldsKeyframe, HoldsStartCode;
    ghost var s := Run(events).source;
    var metadata := input.metadata;
    ghost var stamp := Stamp(metadata.videoTimestamp, metadata.videoFPS);
    EmptyHoldsNothing(input.data);
    session.AppendFrame(input.data, metadata, input.sniffed);
    ledger' := ledger;
    RebasedLonger(s.histories, ledger, count, count + 1);
    if !Drops(k, input.data) {
      ghost var frame := Buffered(k, input.data, metadata, input.sniffed);
      assert session.history == old(session.history) + [frame];
      RunNext(events, Append(frame));
      ledger' := ledger[s.session := session.stamps];
      Bookkeeping(s, ledger, count, old(session.stamps), stamp, session);
      RebasedAppend(s.histories, ledger, count, s.session, session.history, session.stamps);
    }
  }

  lemma {:induction false} EmptyHoldsNothing(data: bytes)
    ensures data == [] ==> !HoldsStartCode(data)
  {
  }

  lemma {:induction false} Bookkeeping(s: Source, ledger: seq<seq<Stamp>>, count: nat, stamps: seq<Stamp>, stamp: Stamp,
                                       session: StreamSession)
    requires Rebased(s.histories, ledger, count) && s.session < |s.histories| && ledger[s.session] == stamps
    requires session.Recorded() && session.stamps == stamps + [stamp] && stamp.raw < RAW_LIMIT
    ensures IsRebased(session.history, session.stamps) && Plausible(session.stamps) && |session.history| <= count + 1
  {
    hide ClockAfter;
    assert Plausible(stamps);
  }

  method OnRestart(session: StreamSession, ghost events: seq<Event>, ghost ledger: seq<seq<Stamp>>, ghost count: nat)
    requires Mirrors(session, Run(events).source) && Accounts(ledger, Run(events).source, session, count)
    requires count <= MAX_RUN
    modifies session`frameBuffer, session`frameIDs, session`lastKeyFrameIdx, session`awaitKeyframe
    ensures Run(events + [Clear]).viewer == Run(events).viewer
    ensures Mirrors(session, Run(events + [Clear]).source)
    ensures Accounts(ledger, Run(events + [Clear]).source, session, count + 1)
  {
    hide Run, Chronicle, Rebased, StreamSession.Valid;
    session.ClearBuffer();
    RunNext(events, Clear);
    RebasedLonger(Run(events).source.histories, ledger, count, count + 1);
  }

  method OnNewSession(gap: nat, codec: int, session: StreamSession,
                      ghost events: seq<Event>, ghost ledger: seq<seq<Stamp>>, ghost count: nat)
    returns (next: StreamSession, ghost ledger': seq<seq<Stamp>>)
    requires Mirrors(session, Run(events).source) && Accounts(ledger, Run(events).source, session, count)
    requires count <= MAX_RUN
    ensures fresh(next) && Configured(next, Intake(false, codec, NEW_CLOCK))
    ensures var events' := events + [Replace(gap)];
            && Run(events').viewer == Run(events).viewer
            && Mirrors(next, Run(events').source) && Accounts(ledger', Run(events').source, next, count + 1)
  {
    hide Run, Chronicle, Rebased, StreamSession.Valid;
    ghost var s := Run(events).source;
    next := new StreamSession(session.id + 1 + gap, codec);
    RunNext(events, Replace(gap));
    ghost var none: seq<seq<Stamp>> := seq(gap + 1, i requires 0 <= i <= gap => []);
    ledger' := ledger + none;
    SameSize(s.histories, ledger, count);
    ghost var after := Run(events + [Replace(gap)]).source.histories;
    assert after == s.histories + after[|s.histories|..];
    RebasedReplace(s.histories, ledger, count, after[|s.histories|..], none);
    RebasedLonger(after, ledger', count, count + 1);
  }

  /** One input as far as it concerns the session. */
  method OnSession(input: Input, codec: int, session: StreamSession, ghost k: Intake,
                   ghost events: seq<Event>, ghost ledger: seq<seq<Stamp>>, ghost count: nat)
    returns (next: StreamSession, ghost ledger': seq<seq<Stamp>>)
    requires Mirrors(session, Run(events).source) && Accounts(ledger, Run(events).source, session, count)
    requires (input.Camera? ==> input.metadata.videoTimestamp < RAW_LIMIT) && count <= MAX_RUN && Configured(session, k)
    modifies session
    ensures (next == session || fresh(next)) && Configured(next, IntakeAfter(k, input, codec))
    ensures var events' := EventsAfter(k, input, events);
            && (!input.Ticker? ==> Run(events').viewer == Run(events).viewer)
            && Mirrors(next, Run(events').source) && Accounts(ledger', Run(events').source, next, count + 1)
  {
    hide Run, Chronicle, Rebased, StreamSession.Valid, Rebase, HoldsStartCode, HoldsKeyframe, DetectCodec;
    next, ledger' := session, ledger;
    match input {
      case Camera(_, _, _) => ledger' := OnCamera(input, codec, session, k, events, ledger, count);
      case Restart => OnRestart(session, events, ledger, count);
      case NewSession(gap) => next, ledger' := OnNewSession(gap, codec, session, events, ledger, count);
      case Ticker =>
        RunNext(events, Poll);
        RebasedLonger(Run(events).source.histories, ledger, count, count + 1);
      case Network(_) => RebasedLonger(Run(events).source.histories, ledger, count, count + 1);
    }
  }

  // ----- A viewer of the muxed endpoint -----

  /** One tick of the viewer's poll loop. */
  method OnTick(session: StreamSession, viewer: MuxedConnection, ghost events: seq<Event>)
    requires Mirrors(session, Run(events).source)
    requires viewer.Valid() && viewer.AsConnection() == Run(events).viewer
    modifies viewer, viewer.remapper
    ensures viewer.Valid() && viewer.AsConnection() == Run(events + [Poll]).viewer
    ensures |viewer.muxedPTS| <= |old(viewer.muxedPTS)| + MAX_FRAMES
  {
    hide Run, Chronicle, Serving.Tick, Fits, GoodSource, GoodLog, LastKeyIndex;
    ghost var s := Run(events).source;
    RunIsGood(events);
    TickWrites(viewer.AsConnection(), s);
    var serving := viewer.Tick(session, s);
    RunNext(events, Poll);
  }

  /** What a viewer can rely on about frame p of what was written to it. */
  ghost predicate Decodable(s: Source, log: seq<Item>, p: nat)
    requires p < |log|
  {
    && Authentic(s, log[p])
    && (exists q: nat :: q <= p && FromKeyframe(log, q, p))
    && (p > 0 ==> Later(log[p - 1], log[p]))
  }

  lemma {:induction false} AllDecodable(events: seq<Event>)
    ensures forall p: nat | p < |Run(events).viewer.log| :: Decodable(Run(events).source, Run(events).viewer.log, p)
  {
    hide Run, Authentic, FromKeyframe, Later;
    forall p: nat | p < |Run(events).viewer.log| ensures Decodable(Run(events).source, Run(events).viewer.log, p) {
      DecodableServing(events, p);
    }
  }

  lemma {:induction false} MuxedTimeline(viewer: MuxedConnection, events: seq<Event>, ledger: seq<seq<Stamp>>, count: nat)
    requires viewer.streamID >= 0 && viewer.AsConnection() == Run(events).viewer
    requires Rebased(Run(events).source.histories, ledger, count) && count <= 1_000_000_000_000_000
    requires |viewer.muxedPTS| <= MAX_FRAMES * count
    ensures |viewer.muxedPTS| == |viewer.log| && StrictlyUp(viewer.muxedPTS)
    ensures forall p: nat | p < |viewer.log| :: OnTimeline(viewer.log, viewer.muxedPTS, p)
  {
    hide Run, Rebased, StrictlyUp, TimedWell, OnTimeline;
    MuxerTimelineRises(events, ledger, count);
    RebasedIsTimedWell(Run(events).source.histories, ledger, count);
    forall p: nat | p < |viewer.log| ensures OnTimeline(viewer.log, viewer.muxedPTS, p) {
      TimelineInClosedForm(events, FIRST_PTS + MAX_PTS_JUMP_MS * count, p);
    }
  }

  /** Whatever happens to a session and its replacements while a viewer is connected, every frame handed to
      the viewer's muxer is one the camera sent, later than the one before, and preceded since the last
      restart by a keyframe and every frame after it; and the timestamps handed over strictly increase, each
      in closed form. */
  method ServeViewer(inputs: seq<Input>, codec: int) returns (viewer: MuxedConnection)
    requires CameraClocksIn48Bits(inputs) && |inputs| <= 1_000_000_000_000_000
    ensures viewer.Valid() && viewer.AsConnection() == Run(EventsOf(inputs, codec)).viewer
    ensures forall p: nat | p < |viewer.log| :: Decodable(Run(EventsOf(inputs, codec)).source, viewer.log, p)
    ensures viewer.muxedData == Payloads(viewer.log) && |viewer.muxedPTS| == |viewer.log| && StrictlyUp(viewer.muxedPTS)
    ensures forall p: nat | p < |viewer.log| :: OnTimeline(viewer.log, viewer.muxedPTS, p)
  {
    hide Tick, Run, GoodSource, GoodLog, Fits, Chronicle, Rebased, Decodable, Payloads, StrictlyUp, StreamSession.Valid,
         Change, IntakeAfter, IntakeOf, EventsOf, OnTimeline;
    var session := new StreamSession(0, codec);
    viewer := new MuxedConnection(session);
    ghost var events: seq<Event>, ledger: seq<seq<Stamp>> := [], [[]];
    Beginning(session);
    NoInput(inputs[..0], codec);
    for k := 0 to |inputs|
      invariant fresh(session) && fresh(viewer) && fresh(viewer.remapper)
      invariant events == EventsOf(inputs[..k], codec) && Configured(session, IntakeOf(inputs[..k], codec))
      invariant viewer.Valid() && viewer.AsConnection() == Run(events).viewer
      invariant Mirrors(session, Run(events).source) && Accounts(ledger, Run(events).source, session, k)
      invariant |viewer.muxedPTS| <= MAX_FRAMES * k
    {
      NextInput(inputs, codec, k);
      if inputs[k].Ticker? {
        OnTick(session, viewer, events);
      }
      session, ledger := OnSession(inputs[k], codec, session, IntakeOf(inputs[..k], codec), events, ledger, k);
      events := EventsAfter(IntakeOf(inputs[..k], codec), inputs[k], events);
    }
    assert inputs[..|inputs|] == inputs;
    AllDecodable(events);
    MuxedTimeline(viewer, events, ledger, |inputs|);
  }
}
