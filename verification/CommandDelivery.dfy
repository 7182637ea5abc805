/** End-to-end delivery of command messages: the lossless reorder queue of the non-video data types in
    front of the message parser. */
module CommandDelivery {
  import opened Common
  import opened SequenceNumbers
  import opened ReorderQueue
  import opened VideoRefinement
  import opened CommandParser
  import opened PartOrder
  import opened CommandRoundTrip

  /** Late copies are queued and purged again at once; nothing still reachable is purged. */
  lemma {:induction false} PurgeIsExact(start: uint16, packets: seq<bytes>, r: Receiver, s: Ideal, i: nat)
    requires Refines(start, packets, r, s) && s.Spaced() && s.runs != []
    requires i < |packets| && i != s.Awaited() && Admissible(start, s, i)
    ensures var q := Enqueue(r, MessageAt(start, packets, i));
            Purge(q.queue, r.expected) == if i < s.Awaited() then r.queue else q.queue
  {
    hide IsSeqBefore, TraceOf;
    var e, m := s.Awaited(), MessageAt(start, packets, i);
    var queue := r.queue[m.seqNo := m];
    WindowOrder(start, i, e);
    forall k | k in r.queue ensures !IsSeqBefore(k, r.expected) && (i < e ==> k != m.seqNo) {
      assert Waits(start, s.pending, k);
      var j :| j in s.pending && Wrap(start, j) == k;
      WindowOrder(start, j, e);
      if i < e && k == m.seqNo { WrapInjective(start, i, j); }
    }
    if i < e {
      assert Purge(queue, r.expected) == r.queue;
    } else {
      assert Purge(queue, r.expected) == queue;
    }
  }

  /** The command receiver does what the unbounded receiver without resyncs does. */
  lemma {:induction false} CommandStepRefines(start: uint16, packets: seq<bytes>, r: Receiver, s: Ideal, i: nat)
    requires Refines(start, packets, r, s) && s.Spaced()
    requires i < |packets| && Admissible(start, s, i)
    ensures Refines(start, packets, HandleCommand(r, MessageAt(start, packets, i)), IdealStep(s, i, false))
  {
    hide IsSeqBefore, TraceOf, QueueMatches, Drain, IdealDrain, Purge;
    if s.runs == [] {
      FirstPacketRefines(start, packets, r, s, i);
      assert Adopt(r, Wrap(start, i)).(expected := 0) == r.(initialized := true).(expected := 0);
    } else {
      var e := s.Awaited();
      if i == e {
        InOrderRefines(start, packets, r, s);
        assert r.(initialized := true) == r;
      } else {
        if Wrap(start, i) == r.expected { WrapInjective(start, i, e); }
        PurgeIsExact(start, packets, r, s, i);
        if i > e { EnqueueMatches(start, packets, r, s, i); }
      }
    }
  }

  /** The receive state of one command data type after the packets with these indices arrived, in this order. */
  ghost function PlayCommands(start: uint16, packets: seq<bytes>, arrivals: seq<nat>): (Receiver, Ideal)
    requires CommandsAccepted(start, packets, arrivals)
    decreases |arrivals|, 1
  {
    if arrivals == [] then (NEW_RECEIVER, NEW_IDEAL)
    else
      var n := |arrivals| - 1;
      var (r, s) := PlayCommands(start, packets, arrivals[..n]);
      (HandleCommand(r, MessageAt(start, packets, arrivals[n])), IdealStep(s, arrivals[n], false))
  }

  ghost predicate CommandsAccepted(start: uint16, packets: seq<bytes>, arrivals: seq<nat>)
    decreases |arrivals|, 0
  {
    arrivals == [] ||
    var n := |arrivals| - 1;
    && CommandsAccepted(start, packets, arrivals[..n])
    && arrivals[n] < |packets|
    && Admissible(start, PlayCommands(start, packets, arrivals[..n]).1, arrivals[n])
  }

  lemma {:induction false} PlayCommandsRefines(start: uint16, packets: seq<bytes>, arrivals: seq<nat>)
    requires CommandsAccepted(start, packets, arrivals)
    ensures var (r, s) := PlayCommands(start, packets, arrivals);
            && Refines(start, packets, r, s) && s.Spaced()
            && |s.runs| == (if arrivals == [] then 0 else 1)
            && (arrivals != [] ==> s.runs[0].lo == arrivals[0])
  {
    hide HandleCommand, IdealStep;
    if arrivals == [] {
    } else {
      var n := |arrivals| - 1;
      var (r, s) := PlayCommands(start, packets, arrivals[..n]);
      PlayCommandsRefines(start, packets, arrivals[..n]);
      CommandStepRefines(start, packets, r, s, arrivals[n]);
      IdealStepSpaced(s, arrivals[n], false);
      assert |IdealStep(s, arrivals[n], false).runs| == 1 by {
        if s.runs == [] { FirstStepOpensOneRun(s, arrivals[n]); }
      }
    }
  }

  lemma {:induction false} LastCommand(start: uint16, packets: seq<bytes>, arrivals: seq<nat>) returns (s: Ideal)
    requires CommandsAccepted(start, packets, arrivals) && arrivals != []
    ensures var n := |arrivals| - 1;
            && CommandsAccepted(start, packets, arrivals[..n])
            && s == PlayCommands(start, packets, arrivals[..n]).1 && s.Spaced()
            && PlayCommands(start, packets, arrivals).1 == IdealStep(s, arrivals[n], false)
            && |IdealStep(s, arrivals[n], false).runs| == 1
  {
    hide HandleCommand, IdealStep;
    s := PlayCommands(start, packets, arrivals[..|arrivals| - 1]).1;
    PlayCommandsRefines(start, packets, arrivals);
    PlayCommandsRefines(start, packets, arrivals[..|arrivals| - 1]);
  }

  /** Every packet that arrived is delivered or waiting. */
  lemma {:induction false} CommandsHeld(start: uint16, packets: seq<bytes>, arrivals: seq<nat>, j: nat)
    requires CommandsAccepted(start, packets, arrivals) && j < |arrivals|
    ensures Holds(PlayCommands(start, packets, arrivals).1, arrivals[j])
  {
    hide PlayCommands, CommandsAccepted, IdealStep;
    var n := |arrivals| - 1;
    var s := LastCommand(start, packets, arrivals);
    if j == n {
    } else {
      assert arrivals[..n][j] == arrivals[j];
      CommandsHeld(start, packets, arrivals[..n], j);
    }
    HoldsStep(s, arrivals[n], false, arrivals[j]);
  }

  lemma {:induction false} FirstStepOpensOneRun(s: Ideal, i: nat)
    requires s.Spaced() && s.runs == []
    ensures |IdealStep(s, i, false).runs| == 1
  {
    DrainSpaced(s.(runs := [Run(i, i + 1)]));
  }

  /** The parser fed a delivery trace. */
  function ParseOps(ops: seq<Op>): Parser {
    if ops == [] then NEW_PARSER
    else
      var n := |ops| - 1;
      match ops[n]
      case Deliver(m) => Parse(ParseOps(ops[..n]), m.seqNo, m.data)
      case Reset => ParseOps(ops[..n])
  }

  lemma {:induction false} ParseOneMore(ops: seq<Op>, m: Message)
    ensures ParseOps(ops + [Deliver(m)]) == Parse(ParseOps(ops), m.seqNo, m.data)
  {
    assert (ops + [Deliver(m)])[..|ops|] == ops;
  }

  lemma {:induction false} ParseDeliveries(start: uint16, packets: seq<bytes>, c: nat)
    requires c <= |packets|
    ensures ParseOps(Deliveries(start, packets, 0, c)) == ParseAll(start, packets, c)
  {
    hide Parse;
    if c == 0 {
    } else {
      ParseDeliveries(start, packets, c - 1);
      var ops := Deliveries(start, packets, 0, c);
      assert ops[..|ops| - 1] == Deliveries(start, packets, 0, c - 1);
    }
  }

  /** Messages cut into packets anywhere, behind packets that belong to none, all of them reordered and
      duplicated within half the number space, none lost: the command handler is called with exactly the
      messages, in order. */
  lemma {:induction false} CommandsDelivered(start: uint16, junk: seq<bytes>, packets: seq<bytes>, ms: seq<SentMessage>,
                                             arrivals: seq<nat>, bodies: seq<bytes>)
    requires AllJunk(junk) && CommandRoundTrip.AllWellFormed(ms) && SpansFit(packets, ms)
    requires BytesFrom(packets, 0) == WireFrom(ms, 0)
    requires forall i :: 0 <= i < |packets| ==> packets[i] != []
    requires CommandsAccepted(start, junk + packets, arrivals)
    requires arrivals != [] && arrivals[0] == 0 && forall i: nat | i < |junk + packets| :: i in arrivals
    requires var done := ParseOps(PlayCommands(start, junk + packets, arrivals).0.trace).completed;
             |bodies| == |done| && forall j :: 0 <= j < |done| ==> SortedConcat(done[j].parts, bodies[j])
    ensures var done := ParseOps(PlayCommands(start, junk + packets, arrivals).0.trace).completed;
            |done| == |bodies| == |ms|
            && forall j :: 0 <= j < |ms| ==> done[j].header == ms[j].header && bodies[j] == ms[j].body
  {
    hide SpansFit, PlayCommands, CommandsAccepted, ParseOps, QueueMatches;
    var all := junk + packets;
    var (r, s) := PlayCommands(start, all, arrivals);
    PlayCommandsRefines(start, all, arrivals);
    assert s.runs[0] in s.runs;
    var e := s.Awaited();
    if e < |all| {
      assert e in arrivals;
      var j :| 0 <= j < |arrivals| && arrivals[j] == e;
      CommandsHeld(start, all, arrivals, j);
    }
    assert s.runs[..0] == [];
    assert TraceOf(start, all, s.runs) == Deliveries(start, all, 0, |all|);
    ParseDeliveries(start, all, |all|);
    RoundTrip(start, junk, packets, ms, bodies);
  }
}
