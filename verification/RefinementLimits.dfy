/** Exactly when the 16-bit receivers do what the unbounded ones do, and histories in which they do not. */
module RefinementLimits {
  import opened Common
  import opened SequenceNumbers
  import opened ReorderQueue
  import opened VideoRefinement
  import CommandDelivery

  /** The packet is numbered 65535 while 0 is awaited; within half the number space it can only be a copy of
      the packet delivered last. */
  predicate IsStaleWrap(r: Receiver, seqNo: uint16) {
    seqNo == 65535 && r.expected == 0
  }

  predicate InHalfWindow(s: Ideal, i: nat)
    requires s.runs != []
  {
    s.Awaited() - HALF <= i <= s.Awaited() + HALF
  }

  /** Whatever the order in which the map is iterated, the step simulates the unbounded receiver. */
  ghost predicate AlwaysRefines(start: uint16, packets: seq<bytes>, r: Receiver, s: Ideal, i: nat, elapsed: bool)
    requires i < |packets|
  {
    var m := MessageAt(start, packets, i);
    forall order | IsAhead(r, m.seqNo) ==> Enumerates(order, r.queue.Keys + {m.seqNo}) ::
      Refines(start, packets, HandleVideo(r, m, elapsed, order), IdealStep(s, i, Resyncs(r, m, elapsed)))
  }

  lemma {:induction false} StaleWrapIsPast(start: uint16, packets: seq<bytes>, r: Receiver, s: Ideal, i: nat)
    requires Refines(start, packets, r, s) && s.runs != [] && InHalfWindow(s, i)
    ensures IsStaleWrap(r, Wrap(start, i)) <==> i + 1 == s.Awaited() && Wrap(start, s.Awaited()) == 0
    ensures Admissible(start, s, i) <==> !IsStaleWrap(r, Wrap(start, i))
  {
    var e := s.Awaited();
    if IsStaleWrap(r, Wrap(start, i)) && e > 0 {
      WrapInjective(start, i, e - 1);
    }
  }

  lemma {:induction false} DrainExtends(r: Receiver)
    ensures r.trace <= Drain(r).trace
    decreases |r.queue|
  {
    if r.expected !in r.queue {
    } else {
      var rest := r.queue - {r.expected};
      assert rest.Keys == r.queue.Keys - {r.expected};
      DrainExtends(DeliverNext(r.(queue := rest), r.queue[r.expected], r.expected));
    }
  }

  /** A resync of a queue that is not empty resets reassembly and delivers the number the scan found. */
  lemma {:induction false} ResyncDelivers(r: Receiver, order: seq<uint16>)
    requires Enumerates(order, r.queue.Keys) && r.queue != map[]
    ensures order != [] && Lowest(order) in r.queue
    ensures r.trace + [Reset, Deliver(Message(Lowest(order), r.queue[Lowest(order)].data))] <= Resync(r, order).trace
  {
    hide Lowest, Drain, IsSeqBefore;
    assert order != [] by { var k :| k in r.queue.Keys; assert k in order; }
    var lowest := Lowest(order);
    PurgeKeepsLowest(r.queue, lowest);
    var queue := Purge(r.queue, lowest);
    var m := Message(lowest, queue[lowest].data);
    var r1 := r.(expected := lowest, trace := r.trace + [Reset], queue := queue - {lowest});
    DrainExtends(DeliverNext(r1, m, lowest));
  }

  lemma {:induction false} StaleWrapBreaks(start: uint16, packets: seq<bytes>, r: Receiver, s: Ideal, i: nat,
                                           elapsed: bool, order: seq<uint16>)
    requires Refines(start, packets, r, s) && s.Spaced() && s.runs != [] && InHalfWindow(s, i) && i < |packets|
    requires IsStaleWrap(r, Wrap(start, i)) && Enumerates(order, r.queue.Keys + {65535})
    ensures IsAhead(r, Wrap(start, i))
    ensures !Refines(start, packets, HandleVideo(r, MessageAt(start, packets, i), elapsed, order),
                     IdealStep(s, i, Resyncs(r, MessageAt(start, packets, i), elapsed)))
  {
    hide Resync, QueueMatches, TraceOf;
    var m := MessageAt(start, packets, i);
    StaleWrapIsPast(start, packets, r, s, i);
    var r2 := Enqueue(r, m);
    assert r2.queue.Keys == r.queue.Keys + {65535} && 65535 in r2.queue;
    if ResyncDue(r2, elapsed) {
      ResyncDelivers(r2, order);
    } else {
      StaleNotWaiting(start, packets, r2.queue, s, i);
    }
  }

  lemma {:induction false} StaleNotWaiting(start: uint16, packets: seq<bytes>, queue: map<uint16, Message>, s: Ideal, i: nat)
    requires s.Spaced() && s.runs != [] && InWindow(s.pending, s.Awaited()) && i + 1 == s.Awaited()
    requires Wrap(start, i) in queue
    ensures !QueueMatches(start, packets, queue, s.pending)
  {
    forall j | j in s.pending ensures Wrap(start, j) != Wrap(start, i) {
      if Wrap(start, j) == Wrap(start, i) { WrapInjective(start, j, i); }
    }
    assert !Waits(start, s.pending, Wrap(start, i));
  }

  lemma {:induction false} FirstDelivery(start: uint16, packets: seq<bytes>, lo: nat, hi: nat)
    requires lo < hi <= |packets|
    ensures Deliveries(start, packets, lo, hi) != []
    ensures Deliveries(start, packets, lo, hi)[0] == Deliver(Message(Wrap(start, lo), packets[lo]))
    decreases hi
  {
    if lo + 1 == hi {
    } else {
      FirstDelivery(start, packets, lo, hi - 1);
    }
  }

  /** A jump opens one run, at the nearest waiting packet. */
  lemma {:induction false} JumpOpens(s: Ideal) returns (run: Run)
    requires s.Spaced() && s.runs != [] && s.pending != {}
    ensures Jump(s).runs == s.runs + [run] && run.lo == Nearest(s.pending) < run.hi
  {
    hide IdealDrain;
    var m := Nearest(s.pending);
    var s2 := Ideal(s.runs + [Run(m, m + 1)], s.pending - {m});
    DrainSpaced(s2);
    run := Jump(s).runs[|s.runs|];
  }

  /** It resets reassembly and delivers that packet. */
  lemma {:induction false} JumpDelivers(start: uint16, packets: seq<bytes>, s: Ideal)
    requires s.Spaced() && s.runs != [] && s.pending != {} && Within(s.runs, |packets|)
    requires Within(Jump(s).runs, |packets|)
    ensures var before, after := TraceOf(start, packets, s.runs), TraceOf(start, packets, Jump(s).runs);
            && |after| >= |before| + 2 && Nearest(s.pending) < |packets|
            && after[|before| + 1] == Deliver(Message(Wrap(start, Nearest(s.pending)), packets[Nearest(s.pending)]))
  {
    hide Jump, Deliveries, Wrap, Ideal.Spaced;
    var run := JumpOpens(s);
    var runs := s.runs + [run];
    assert runs[..|s.runs|] == s.runs && runs[|s.runs|] in runs;
    FirstDelivery(start, packets, run.lo, run.hi);
  }

  /** Where 65535 is the nearest waiting number and 0 waits behind it, some order makes the resync skip it. */
  lemma {:induction false} AmbiguousBreaks(start: uint16, packets: seq<bytes>, r: Receiver, s: Ideal, i: nat, elapsed: bool)
    requires Refines(start, packets, r, s) && s.Spaced() && s.runs != [] && InHalfWindow(s, i) && i < |packets|
    requires Admissible(start, s, i) && Resyncs(r, MessageAt(start, packets, i), elapsed)
    requires Ambiguous(start, s.pending + {i})
    ensures !AlwaysRefines(start, packets, r, s, i, elapsed)
  {
    hide IsSeqBefore, Resync, Jump, TraceOf, QueueMatches, Lowest, Wrap;
    var m := MessageAt(start, packets, i);
    WindowOrder(start, i, s.Awaited());
    var r2, s1 := Enqueue(r, m), s.(pending := s.pending + {i});
    EnqueueMatches(start, packets, r, s, i);
    assert r2.queue.Keys == r.queue.Keys + {m.seqNo};
    var order := ZeroFirst(start, packets, r2, s1);
    ResyncDelivers(r2, order);
    if Within(Jump(s1).runs, |packets|) {
      JumpDelivers(start, packets, s1);
      assert r2.trace == TraceOf(start, packets, s1.runs);
    }
    assert !Refines(start, packets, HandleVideo(r, m, elapsed, order), IdealStep(s, i, true));
  }

  /** An order that visits 0 first, and finds it. */
  lemma {:induction false} ZeroFirst(start: uint16, packets: seq<bytes>, r: Receiver, s: Ideal) returns (order: seq<uint16>)
    requires Refines(start, packets, r, s) && s.Spaced() && s.runs != [] && Ambiguous(start, s.pending)
    ensures Enumerates(order, r.queue.Keys) && order != []
    ensures Lowest(order) == 0 != Wrap(start, Nearest(s.pending))
  {
    hide IsSeqBefore, Lowest, TraceOf;
    var m := Nearest(s.pending);
    assert Wrap(start, m + 1) == 0;
    var rest := SomeOrder(r.queue.Keys - {0});
    order := [0] + rest;
    ScanSkipsNearest(start, order, s.pending);
  }

  /** For a packet within half the number space, resync or not, the step simulates the unbounded receiver in
      every iteration order if and only if the packet is not a stale 65535 and a resync does not meet 65535 as
      the nearest number with 0 waiting behind it. */
  lemma {:induction false} StepRefinesExactly(start: uint16, packets: seq<bytes>, r: Receiver, s: Ideal, i: nat, elapsed: bool)
    requires Refines(start, packets, r, s) && s.Spaced() && s.runs != [] && InHalfWindow(s, i) && i < |packets|
    ensures AlwaysRefines(start, packets, r, s, i, elapsed)
            <==> !IsStaleWrap(r, Wrap(start, i))
                 && (Resyncs(r, MessageAt(start, packets, i), elapsed) ==> !Ambiguous(start, s.pending + {i}))
  {
    hide Refines, HandleVideo, IdealStep, Ambiguous, Resyncs, IsStaleWrap, Wrap, Admissible, IsAhead, Enumerates;
    var m := MessageAt(start, packets, i);
    StaleWrapIsPast(start, packets, r, s, i);
    if IsStaleWrap(r, m.seqNo) {
      var order := SomeOrder(r.queue.Keys + {65535});
      assert m.seqNo == 65535 by { StaleIs65535(r, m.seqNo); }
      StaleWrapBreaks(start, packets, r, s, i, elapsed, order);
    } else if Resyncs(r, m, elapsed) && Ambiguous(start, s.pending + {i}) {
      AmbiguousBreaks(start, packets, r, s, i, elapsed);
    } else {
      forall order | IsAhead(r, m.seqNo) ==> Enumerates(order, r.queue.Keys + {m.seqNo})
        ensures Refines(start, packets, HandleVideo(r, m, elapsed, order), IdealStep(s, i, Resyncs(r, m, elapsed)))
      {
        StepRefines(start, packets, r, s, Event(i, elapsed, order));
      }
    }
  }

  lemma {:induction false} StaleIs65535(r: Receiver, seqNo: uint16)
    requires IsStaleWrap(r, seqNo)
    ensures seqNo == 65535
  {
  }

  /** The command path fails on the same packet and no other. */
  lemma {:induction false} CommandStepRefinesExactly(start: uint16, packets: seq<bytes>, r: Receiver, s: Ideal, i: nat)
    requires Refines(start, packets, r, s) && s.Spaced() && s.runs != [] && InHalfWindow(s, i) && i < |packets|
    ensures Refines(start, packets, HandleCommand(r, MessageAt(start, packets, i)), IdealStep(s, i, false))
            <==> !IsStaleWrap(r, Wrap(start, i))
  {
    hide TraceOf, QueueMatches, Drain, IdealDrain;
    StaleWrapIsPast(start, packets, r, s, i);
    var m := MessageAt(start, packets, i);
    if IsStaleWrap(r, m.seqNo) {
      var queue := Purge(Enqueue(r, m).queue, r.expected);
      assert 65535 in queue;
      StaleNotWaiting(start, packets, queue, s, i);
    } else {
      CommandDelivery.CommandStepRefines(start, packets, r, s, i);
    }
  }

  // ----- Histories from a new receiver -----

  lemma {:induction false} PlayOn(arrivals: seq<VideoArrival>, a: VideoArrival)
    requires Playable(arrivals)
    requires IsAhead(PlayVideo(arrivals), a.message.seqNo) ==>
               Enumerates(a.order, PlayVideo(arrivals).queue.Keys + {a.message.seqNo})
    ensures Playable(arrivals + [a])
    ensures PlayVideo(arrivals + [a]) == HandleVideo(PlayVideo(arrivals), a.message, a.elapsed, a.order)
  {
    assert (arrivals + [a])[..|arrivals|] == arrivals;
  }

  function First65535(first: bytes): VideoArrival {
    VideoArrival(Message(65535, first), false, [])
  }

  function Again65535(stale: bytes, elapsed: bool): VideoArrival {
    VideoArrival(Message(65535, stale), elapsed, [65535])
  }

  /** A receiver whose first packet is 65535 awaits 0. */
  lemma {:induction false} AwaitsZero(first: bytes)
    ensures Playable([First65535(first)])
    ensures PlayVideo([First65535(first)]) == Receiver(true, 0, map[], [Deliver(Message(65535, first))])
  {
    assert [First65535(first)] == [] + [First65535(first)];
    PlayOn([], First65535(first));
  }

  lemma {:induction false} QueuesAhead(e: uint16, seqNo: uint16, data: bytes, trace: seq<Op>)
    requires IsAhead(Receiver(true, e, map[], trace), seqNo)
    ensures Enumerates([seqNo], {} + {seqNo})
    ensures HandleVideo(Receiver(true, e, map[], trace), Message(seqNo, data), false, [seqNo])
         == Receiver(true, e, map[seqNo := Message(seqNo, data)], trace)
  {
    hide IsSeqBefore;
    var r := Receiver(true, e, map[], trace);
    assert r.queue.Keys + {seqNo} == {seqNo};
    assert |Enqueue(r, Message(seqNo, data)).queue.Keys| == |{seqNo}|;
  }

  /** A second packet 65535 is not dropped but queued. */
  lemma {:induction false} StaleDuplicateIsQueued(first: bytes, stale: bytes)
    ensures var arrivals := [First65535(first), Again65535(stale, false)];
            && Playable(arrivals)
            && PlayVideo(arrivals)
               == Receiver(true, 0, map[65535 := Message(65535, stale)], [Deliver(Message(65535, first))])
  {
    AwaitsZero(first);
    hide PlayVideo, Playable, HandleVideo;
    var r := PlayVideo([First65535(first)]);
    QueuesAhead(0, 65535, stale, r.trace);
    assert r.queue.Keys == {};
    PlayOn([First65535(first)], Again65535(stale, false));
    assert [First65535(first)] + [Again65535(stale, false)] == [First65535(first), Again65535(stale, false)];
  }

  /** Past the resync threshold it is delivered a second time at once. */
  lemma {:induction false} StaleDuplicateIsDeliveredAtOnce(first: bytes, stale: bytes)
    ensures var arrivals := [First65535(first), Again65535(stale, true)];
            && Playable(arrivals)
            && PlayVideo(arrivals)
               == Receiver(true, 0, map[], [Deliver(Message(65535, first)), Reset, Deliver(Message(65535, stale))])
  {
    var r := PlayVideo([First65535(first)]);
    AwaitsZero(first);
    assert r.queue.Keys + {65535} == {65535};
    PlayOn([First65535(first)], Again65535(stale, true));
    assert [First65535(first)] + [Again65535(stale, true)] == [First65535(first), Again65535(stale, true)];
    var queue := map[65535 := Message(65535, stale)];
    assert Purge(queue, 65535) == queue && queue - {65535} == map[];
    assert r.trace + [Reset] + [Deliver(Message(65535, stale))]
        == [Deliver(Message(65535, first)), Reset, Deliver(Message(65535, stale))];
  }

  /** Packets 0, ..., n - 1 of a round of the number space, in sequence. */
  function Round(data: seq<bytes>, n: nat): (arrivals: seq<VideoArrival>)
    requires n <= |data| == 65535
    ensures |arrivals| == n
  {
    seq(n, k requires 0 <= k < n => VideoArrival(Message(k, data[k]), false, []))
  }

  function RoundDelivered(data: seq<bytes>, n: nat): seq<Op>
    requires n <= |data| == 65535
  {
    seq(n, k requires 0 <= k < n => Deliver(Message(k, data[k])))
  }

  /** A packet in sequence, with nothing waiting behind it. */
  lemma {:induction false} InSequence(r: Receiver, data: bytes)
    requires r.initialized && IncrementSequence(r.expected) !in r.queue
    ensures HandleVideo(r, Message(r.expected, data), false, [])
         == DeliverNext(r, Message(r.expected, data), r.expected)
  {
  }

  /** A packet in sequence, with exactly its successor waiting. */
  lemma {:induction false} InSequenceThenOne(r: Receiver, data: bytes)
    requires r.initialized && r.queue.Keys == {IncrementSequence(r.expected)}
    ensures var next := IncrementSequence(r.expected);
            HandleVideo(r, Message(r.expected, data), false, [])
            == Receiver(true, IncrementSequence(next), map[],
                        r.trace + [Deliver(Message(r.expected, data))] + [Deliver(r.queue[next])])
  {
    DrainsOne(DeliverNext(r, Message(r.expected, data), r.expected));
  }

  lemma {:induction false} DrainsOne(r: Receiver)
    requires r.queue.Keys == {r.expected} && IncrementSequence(r.expected) != r.expected
    ensures Drain(r) == DeliverNext(r.(queue := map[]), r.queue[r.expected], r.expected)
  {
    assert r.queue - {r.expected} == map[];
  }

  /** Through the round the stale copy waits untouched. */
  lemma {:induction false} StaleWaits(first: bytes, stale: bytes, data: seq<bytes>, n: nat)
    requires n < |data| == 65535
    ensures var arrivals := [First65535(first), Again65535(stale, false)] + Round(data, n);
            && Playable(arrivals)
            && PlayVideo(arrivals) == Receiver(true, n, map[65535 := Message(65535, stale)],
                                               [Deliver(Message(65535, first))] + RoundDelivered(data, n))
  {
    hide PlayVideo, Playable, HandleVideo;
    var two := [First65535(first), Again65535(stale, false)];
    if n == 0 {
      StaleDuplicateIsQueued(first, stale);
      assert two + Round(data, 0) == two;
      assert [Deliver(Message(65535, first))] + RoundDelivered(data, 0) == [Deliver(Message(65535, first))];
    } else {
      StaleWaits(first, stale, data, n - 1);
      var before, a := two + Round(data, n - 1), VideoArrival(Message(n - 1, data[n - 1]), false, []);
      InSequence(PlayVideo(before), data[n - 1]);
      PlayOn(before, a);
      assert two + Round(data, n) == before + [a];
      assert [Deliver(Message(65535, first))] + RoundDelivered(data, n)
          == [Deliver(Message(65535, first))] + RoundDelivered(data, n - 1) + [Deliver(a.message)];
    }
  }

  /** A new receiver, packet 65535, a second copy of it and then every other packet in sequence: at the end of
      the round the copy is delivered as if it were the next packet 65535. */
  lemma {:induction false} StaleDuplicateIsReplayed(first: bytes, stale: bytes, data: seq<bytes>)
    requires |data| == 65535
    ensures var arrivals := [First65535(first), Again65535(stale, false)] + Round(data, 65535);
            && Playable(arrivals)
            && PlayVideo(arrivals) == Receiver(true, 0, map[], [Deliver(Message(65535, first))] + RoundDelivered(data, 65535)
                                                               + [Deliver(Message(65535, stale))])
  {
    hide PlayVideo, Playable, HandleVideo;
    var two := [First65535(first), Again65535(stale, false)];
    StaleWaits(first, stale, data, 65534);
    var before, a := two + Round(data, 65534), VideoArrival(Message(65534, data[65534]), false, []);
    InSequenceThenOne(PlayVideo(before), data[65534]);
    PlayOn(before, a);
    assert two + Round(data, 65535) == before + [a];
    assert [Deliver(Message(65535, first))] + RoundDelivered(data, 65535)
        == PlayVideo(before).trace + [Deliver(a.message)];
  }

  /** Packet 65534 is missing; 65535 and then, too late, 0 arrive. */
  function Gap(x: bytes, y: bytes, z: bytes, order: seq<uint16>): seq<VideoArrival> {
    [VideoArrival(Message(65533, x), false, []), VideoArrival(Message(65535, y), false, [65535]),
     VideoArrival(Message(0, z), true, order)]
  }

  lemma {:induction false} BeforeGapResync(x: bytes, y: bytes)
    ensures var arrivals := Gap(x, y, [], [])[..2];
            && Playable(arrivals)
            && PlayVideo(arrivals) == Receiver(true, 65534, map[65535 := Message(65535, y)], [Deliver(Message(65533, x))])
  {
    var a, b := VideoArrival(Message(65533, x), false, []), VideoArrival(Message(65535, y), false, [65535]);
    assert [a] == [] + [a] && Gap(x, y, [], [])[..2] == [a] + [b];
    PlayOn([], a);
    var r := PlayVideo([a]);
    assert r == Receiver(true, 65534, map[], [Deliver(Message(65533, x))]);
    QueuesAhead(65534, 65535, y, r.trace);
    PlayOn([a], b);
  }

  lemma {:induction false} AtGapResync(x: bytes, y: bytes, z: bytes, order: seq<uint16>)
    requires Enumerates(order, {65535, 0})
    ensures Playable(Gap(x, y, z, order))
    ensures PlayVideo(Gap(x, y, z, order))
         == Resync(AtGap(x, y, z), order)
  {
    BeforeGapResync(x, y);
    hide PlayVideo, Playable, Resync;
    var before := Gap(x, y, [], [])[..2];
    var r := PlayVideo(before);
    assert r.queue.Keys + {0} == {65535, 0};
    PlayOn(before, VideoArrival(Message(0, z), true, order));
    assert Gap(x, y, z, order) == before + [VideoArrival(Message(0, z), true, order)];
    assert Enqueue(r, Message(0, z)).queue == map[65535 := Message(65535, y), 0 := Message(0, z)];
  }

  /** From a new receiver a resync is reached whose outcome depends on the order in which the map is
      iterated: either 65535 is delivered and then 0, or 0 alone. */
  lemma {:induction false} ResyncDependsOnOrder(x: bytes, y: bytes, z: bytes)
    ensures Playable(Gap(x, y, z, [65535, 0])) && Playable(Gap(x, y, z, [0, 65535]))
    ensures PlayVideo(Gap(x, y, z, [65535, 0])).trace
         == [Deliver(Message(65533, x)), Reset, Deliver(Message(65535, y)), Deliver(Message(0, z))]
    ensures PlayVideo(Gap(x, y, z, [0, 65535])).trace
         == [Deliver(Message(65533, x)), Reset, Deliver(Message(0, z))]
  {
    hide PlayVideo, Playable, Resync;
    AtGapResync(x, y, z, [65535, 0]);
    AtGapResync(x, y, z, [0, 65535]);
    ResyncOf65535(x, y, z);
    ResyncOf0(x, y, z);
  }

  function AtGap(x: bytes, y: bytes, z: bytes): Receiver {
    Receiver(true, 65534, map[65535 := Message(65535, y), 0 := Message(0, z)], [Deliver(Message(65533, x))])
  }

  lemma {:induction false} AtGapUnfolds(x: bytes, y: bytes, z: bytes, order: seq<uint16>, lowest: uint16)
    requires Enumerates(order, {65535, 0}) && order != [] && lowest == Lowest(order)
    ensures lowest in {65535, 0}
    ensures Resync(AtGap(x, y, z), order)
         == Drain(Receiver(true, IncrementSequence(lowest), AtGap(x, y, z).queue - {lowest},
                           [Deliver(Message(65533, x)), Reset, Deliver(AtGap(x, y, z).queue[lowest])]))
  {
    hide Resync, Drain, Lowest;
    var r := AtGap(x, y, z);
    assert r.queue.Keys == {65535, 0};
    assert lowest in order;
    ResyncUnfolds(r, order, lowest);
    assert r.trace + [Reset] + [Deliver(r.queue[lowest])] == [Deliver(Message(65533, x)), Reset, Deliver(r.queue[lowest])];
  }

  lemma {:induction false} OnlyZeroLeft(y: bytes, z: bytes)
    ensures map[65535 := Message(65535, y), 0 := Message(0, z)] - {65535} == map[0 := Message(0, z)]
    ensures map[0 := Message(0, z)].Keys == {0}
  {
  }

  lemma {:induction false} ResyncOf65535(x: bytes, y: bytes, z: bytes)
    ensures Resync(AtGap(x, y, z), [65535, 0]).trace
         == [Deliver(Message(65533, x)), Reset, Deliver(Message(65535, y)), Deliver(Message(0, z))]
  {
    hide Resync, Drain, Lowest;
    ScanOfTwo();
    AtGapUnfolds(x, y, z, [65535, 0], 65535);
    hide Enumerates;
    OnlyZeroLeft(y, z);
    DrainsOne(Receiver(true, 0, map[0 := Message(0, z)],
                       [Deliver(Message(65533, x)), Reset, Deliver(Message(65535, y))]));
  }

  lemma {:induction false} ResyncOf0(x: bytes, y: bytes, z: bytes)
    ensures Resync(AtGap(x, y, z), [0, 65535]).trace == [Deliver(Message(65533, x)), Reset, Deliver(Message(0, z))]
  {
    hide Resync, Lowest;
    ScanOfTwo();
    AtGapUnfolds(x, y, z, [0, 65535], 0);
    assert AtGap(x, y, z).queue - {0} == map[65535 := Message(65535, y)];
  }

  lemma {:induction false} ScanOfTwo()
    ensures Lowest([65535, 0]) == 65535 && Lowest([0, 65535]) == 0
  {
    assert [65535, 0][..1] == [65535] && [0, 65535][..1] == [0];
  }
}
