/** The client as an object, fed what a network makes of a camera's stream or of a list of messages: what
    its handlers have seen in the end. */
module Reception {
  import opened Common
  import opened SequenceNumbers
  import opened FrameReassembly
  import opened ReorderQueue
  import opened VideoRefinement
  import opened FrameIntegrity
  import opened Reordering
  import opened P2PClient
  import C = CommandRoundTrip
  import D = CommandDelivery
  import opened PartOrder

  /** A packet of the stream reaching the client, in time or past the resync threshold. */
  datatype Datagram = Datagram(index: nat, elapsed: bool)

  function Indexed(datagrams: seq<Datagram>): (indices: seq<nat>)
    ensures |indices| == |datagrams|
  {
    seq(|datagrams|, k requires 0 <= k < |datagrams| => datagrams[k].index)
  }

  /** Up to 32767 packets numbered below 65535, and anything may happen to them. */
  predicate ShortStream(start: uint16, packets: seq<bytes>, datagrams: seq<Datagram>) {
    Short(start, packets) && forall k :: 0 <= k < |datagrams| ==> datagrams[k].index < |packets|
  }

  /** Any number of packets, each in time and none overtaking more than 1024 others. */
  predicate OrderlyStream(start: uint16, packets: seq<bytes>, datagrams: seq<Datagram>) {
    && Reordered(start, Indexed(datagrams), |packets|, VIDEO_REACH)
    && forall k :: 0 <= k < |datagrams| ==> !datagrams[k].elapsed
  }

  /** The history of arrivals with the iteration orders the client met. */
  ghost predicate Resolves(events: seq<Event>, datagrams: seq<Datagram>) {
    && |events| == |datagrams|
    && (forall k :: 0 <= k < |events| ==> events[k].index == datagrams[k].index && events[k].elapsed == datagrams[k].elapsed)
  }

  lemma {:induction false} OrderlySoFar(start: uint16, packets: seq<bytes>, datagrams: seq<Datagram>,
        events: seq<Event>, n: nat)
    requires OrderlyStream(start, packets, datagrams) && n <= |datagrams| && Resolves(events, datagrams[..n])
    ensures InTime(events) && Indices(events) == Indexed(datagrams)[..n]
    ensures Reordered(start, Indices(events), |packets|, VIDEO_REACH)
    ensures n < |datagrams| ==> Reordered(start, Indices(events) + [datagrams[n].index], |packets|, VIDEO_REACH)
  {
    hide Reordered;
    var all := Indexed(datagrams);
    assert Indices(events) == all[..n];
    ReorderedBefore(start, all, |packets|, VIDEO_REACH, n);
    if n < |datagrams| {
      assert all[..n + 1] == all[..n] + [datagrams[n].index];
      ReorderedBefore(start, all, |packets|, VIDEO_REACH, n + 1);
    }
  }

  lemma {:induction false} NextAcceptable(start: uint16, packets: seq<bytes>, datagrams: seq<Datagram>,
        events: seq<Event>,
                                          n: nat, order: seq<uint16>)
    requires ShortStream(start, packets, datagrams) || OrderlyStream(start, packets, datagrams)
    requires n < |datagrams| && datagrams[n].index < |packets|
    requires Resolves(events, datagrams[..n]) && Accepted(start, packets, events)
    requires var r, m := Play(start, packets, events).0, MessageAt(start, packets, datagrams[n].index);
             IsAhead(r, m.seqNo) ==> Enumerates(order, r.queue.Keys + {m.seqNo})
    ensures var (r, s) := Play(start, packets, events);
            Acceptable(start, packets, r, s, Event(datagrams[n].index, datagrams[n].elapsed, order))
  {
    hide Play, Accepted, Refines, IsAhead, Enumerates, Resyncs, Admissible, Ambiguous, Reordered, Orderly;
    var (r, s) := Play(start, packets, events);
    PlayRefines(start, packets, events);
    if ShortStream(start, packets, datagrams) {
      ShortIsAcceptable(start, packets, r, s, Event(datagrams[n].index, datagrams[n].elapsed, order));
    } else {
      OrderlySoFar(start, packets, datagrams, events, n);
      ReorderedVideo(start, packets, events);
      NextInReach(start, packets, r, s, Indices(events), datagrams[n].index);
    }
  }

  lemma {:induction false} PlayNext(start: uint16, packets: seq<bytes>, events: seq<Event>, ev: Event)
    requires Accepted(start, packets, events)
    requires var (r, s) := Play(start, packets, events); Acceptable(start, packets, r, s, ev)
    ensures Accepted(start, packets, events + [ev])
    ensures Play(start, packets, events + [ev]).0
         == HandleVideo(Play(start, packets, events).0, MessageAt(start, packets, ev.index), ev.elapsed, ev.order)
  {
    hide HandleVideo, IdealStep, Enumerates, IsAhead;
    assert (events + [ev])[..|events|] == events;
  }

  lemma {:induction false} NothingPlayed(start: uint16, packets: seq<bytes>)
    ensures Accepted(start, packets, []) && Play(start, packets, []).0 == NEW_RECEIVER
  {
  }

  lemma {:induction false} InRange(start: uint16, packets: seq<bytes>, datagrams: seq<Datagram>, k: nat)
    requires ShortStream(start, packets, datagrams) || OrderlyStream(start, packets, datagrams)
    requires k < |datagrams|
    ensures datagrams[k].index < |packets|
  {
    assert OrderlyStream(start, packets, datagrams) ==> Indexed(datagrams)[k] < |packets|;
  }

  /** A DATA payload as the station sends it: two type bytes, the packet number in big-endian order, the data. */
  function Payload(kind: byte, tag: byte, seqNo: uint16, data: bytes): bytes {
    [kind, tag, seqNo / 0x100, seqNo % 0x100] + data
  }

  lemma {:induction false} PayloadDecodes(kind: byte, tag: byte, seqNo: uint16, data: bytes)
    ensures var p := Payload(kind, tag, seqNo, data);
            && |p| >= 4 && p[1] == tag && p[4..] == data
            && p[2] as int * 0x100 + p[3] as int == seqNo
  {
  }

  /** A new client fed the DATA payloads of a short or an orderly stream: its video handler is called with
      exactly the sent frames that lie wholly inside one run of delivered packets, byte-identical and in
      sending order; and with every frame sent if the stream is orderly and all its packets arrive. */
  method ReceiveStream(start: uint16, frames: seq<SentFrame>, datagrams: seq<Datagram>, kind: byte)
    returns (client: Client, ghost events: seq<Event>)
    requires FrameIntegrity.AllWellFormed(frames)
    requires ShortStream(start, Stream(frames), datagrams) || OrderlyStream(start, Stream(frames), datagrams)
    ensures Resolves(events, datagrams) && Accepted(start, Stream(frames), events)
    ensures client.frames == WholeInRuns(start, frames, Play(start, Stream(frames), events).1.runs)
    ensures OrderlyStream(start, Stream(frames), datagrams)
            && (forall i: nat | i < |Stream(frames)| :: i in Indexed(datagrams)) ==>
              client.frames == AllSent(start, frames, |frames|)
  {
    hide Stream, HandleVideo, Play, Accepted, Acceptable, ShortStream, OrderlyStream, IsAhead, Enumerates, Apply, AllSent,
         D.ParseOps, SortedConcat, Payload;
    var packets := Stream(frames);
    client := new Client();
    events := [];
    NothingPlayed(start, packets);
    for k := 0 to |datagrams|
      invariant client.Valid() && Resolves(events, datagrams[..k])
      invariant Accepted(start, packets, events) && client.video.AsReceiver() == Play(start, packets, events).0
      invariant fresh(client) && fresh({client.video, client.data, client.control, client.binary})
    {
      var d := datagrams[k];
      InRange(start, packets, datagrams, k);
      PayloadDecodes(kind, 1, Wrap(start, d.index), packets[d.index]);
      ghost var order := client.HandleDataMessage(Payload(kind, 1, Wrap(start, d.index), packets[d.index]), d.elapsed);
      NextAcceptable(start, packets, datagrams, events, k, order);
      PlayNext(start, packets, events, Event(d.index, d.elapsed, order));
      events := events + [Event(d.index, d.elapsed, order)];
    }
    assert datagrams[..|datagrams|] == datagrams;
    FrameIntegrity.FrameIntegrity(start, frames, events);
    if OrderlyStream(start, packets, datagrams) && (forall i: nat | i < |packets| :: i in Indexed(datagrams)) {
      AllDelivered(start, frames, datagrams, events);
    }
  }

  lemma {:induction false} AllDelivered(start: uint16, frames: seq<SentFrame>, datagrams: seq<Datagram>,
        events: seq<Event>)
    requires FrameIntegrity.AllWellFormed(frames) && OrderlyStream(start, Stream(frames), datagrams)
    requires forall i: nat | i < |Stream(frames)| :: i in Indexed(datagrams)
    requires Resolves(events, datagrams) && Accepted(start, Stream(frames), events)
    ensures Received(start, Stream(frames), events) == AllSent(start, frames, |frames|)
  {
    hide Stream, Play, Accepted, AllSent, Arrives, Reordered, Received;
    var p := Stream(frames);
    if frames == [] {
      NoneReceived(start, events);
    } else {
      StreamNotEmpty(frames);
      assert 0 in Indexed(datagrams);
      assert datagrams[..|datagrams|] == datagrams && Indexed(datagrams)[..|datagrams|] == Indexed(datagrams);
      OrderlySoFar(start, p, datagrams, events, |datagrams|);
      ReorderedVideo(start, p, events);
      FirstIsZero(start, Indices(events), |p|, VIDEO_REACH);
      forall i: nat | i < |p| ensures Arrives(events, i) { ArrivesAt(events, i); }
      PlayRefines(start, p, events);
      OneRunNoReset(start, p, Play(start, p, events).1.runs);
      LosslessDelivery(start, frames, events);
    }
  }

  lemma {:induction false} ArrivesAt(events: seq<Event>, i: nat)
    requires i in Indices(events)
    ensures Arrives(events, i)
  {
    var k :| 0 <= k < |events| && Indices(events)[k] == i;
    assert events[k].index == i;
  }

  lemma {:induction false} OneRunNoReset(start: uint16, packets: seq<bytes>, runs: seq<Run>)
    requires |runs| == 1 && Within(runs, |packets|)
    ensures Reset !in TraceOf(start, packets, runs)
  {
    assert runs[..0] == [];
    NoResetIn(start, packets, runs[0].lo, runs[0].hi);
  }

  lemma {:induction false} NoResetIn(start: uint16, packets: seq<bytes>, lo: nat, hi: nat)
    requires lo <= hi <= |packets|
    ensures Reset !in Deliveries(start, packets, lo, hi)
    decreases hi
  {
    if lo == hi {
    } else {
      NoResetIn(start, packets, lo, hi - 1);
    }
  }

  lemma {:induction false} StreamNotEmpty(frames: seq<SentFrame>)
    requires FrameIntegrity.AllWellFormed(frames) && frames != []
    ensures |Stream(frames)| > 0
  {
    StreamLength(frames);
    BaseIncreases(frames, 0, |frames|);
  }

  lemma {:induction false} NoneReceived(start: uint16, events: seq<Event>)
    requires Accepted(start, Stream([]), events)
    ensures Received(start, Stream([]), events) == AllSent(start, [], 0)
  {
    assert Stream([]) == [] && events == [];
  }

  // ----- Commands -----

  lemma {:induction false} CommandsNext(start: uint16, packets: seq<bytes>, arrivals: seq<nat>, n: nat)
    requires Reordered(start, arrivals, |packets|, HALF) && n < |arrivals|
    ensures arrivals[n] < |packets|
    ensures D.CommandsAccepted(start, packets, arrivals[..n]) && D.CommandsAccepted(start, packets, arrivals[..n + 1])
    ensures D.PlayCommands(start, packets, arrivals[..n + 1]).0
         == HandleCommand(D.PlayCommands(start, packets, arrivals[..n]).0, MessageAt(start, packets, arrivals[n]))
  {
    hide HandleCommand, IdealStep, Admissible;
    ReorderedBefore(start, arrivals, |packets|, HALF, n);
    ReorderedBefore(start, arrivals, |packets|, HALF, n + 1);
    ReorderedCommands(start, packets, arrivals[..n]);
    ReorderedCommands(start, packets, arrivals[..n + 1]);
    assert arrivals[..n + 1][..n] == arrivals[..n];
  }

  lemma {:induction false} NothingCommanded(start: uint16, packets: seq<bytes>)
    ensures D.CommandsAccepted(start, packets, []) && D.PlayCommands(start, packets, []).0 == NEW_RECEIVER
  {
  }

  lemma {:induction false} NoMessages(packets: seq<bytes>, ms: seq<C.SentMessage>)
    requires C.AllWellFormed(ms) && packets == [] && C.BytesFrom(packets, 0) == C.WireFrom(ms, 0)
    ensures ms == []
  {
  }

  /** A new client fed the DATA payloads of messages cut into packets anywhere, behind any number of packets that
      belong to none, all of them reordered within half the number space and repeated, none lost: the command
      handler is called with exactly the messages. */
  method ReceiveCommands(start: uint16, junk: seq<bytes>, packets: seq<bytes>, arrivals: seq<nat>,
                         ghost ms: seq<C.SentMessage>, kind: byte, tag: byte)
    returns (client: Client)
    requires C.AllJunk(junk)
    requires C.AllWellFormed(ms) && C.SpansFit(packets, ms) && C.BytesFrom(packets, 0) == C.WireFrom(ms, 0)
    requires forall i :: 0 <= i < |packets| ==> packets[i] != []
    requires Reordered(start, arrivals, |junk + packets|, HALF) && forall i: nat | i < |junk + packets| :: i in arrivals
    requires tag != 1 && tag != 3
    ensures |client.StateFor(tag).completed| == |client.StateFor(tag).bodies| == |ms|
    ensures forall j :: 0 <= j < |ms| ==>
              client.StateFor(tag).completed[j].header == ms[j].header && client.StateFor(tag).bodies[j] == ms[j].body
  {
    hide C.SpansFit, C.BytesFrom, C.WireFrom, C.AllWellFormed, C.AllJunk, D.PlayCommands, D.CommandsAccepted, D.ParseOps,
         HandleCommand, HandleVideo, Reordered, SortedConcat, Enumerates, Apply, Payload;
    var all := junk + packets;
    client := new Client();
    assert arrivals[..0] == [];
    NothingCommanded(start, all);
    for k := 0 to |arrivals|
      invariant client.Valid() && fresh(client) && fresh({client.video, client.data, client.control, client.binary})
      invariant D.CommandsAccepted(start, all, arrivals[..k])
      invariant client.StateFor(tag).AsReceiver() == D.PlayCommands(start, all, arrivals[..k]).0
    {
      CommandsNext(start, all, arrivals, k);
      PayloadDecodes(kind, tag, Wrap(start, arrivals[k]), all[arrivals[k]]);
      ghost var order := client.HandleDataMessage(Payload(kind, tag, Wrap(start, arrivals[k]), all[arrivals[k]]), false);
    }
    assert arrivals[..|arrivals|] == arrivals;
    var state := client.StateFor(tag);
    if arrivals == [] {
      assert |all| > 0 ==> 0 in arrivals;
      NoMessages(packets, ms);
      assert state.completed == [] by { NothingParsed(); }
    } else {
      FirstIsZero(start, arrivals, |all|, HALF);
      D.CommandsDelivered(start, junk, packets, ms, arrivals, state.bodies);
    }
  }

  lemma {:induction false} NothingParsed()
    ensures D.ParseOps([]).completed == []
  {
  }
}
