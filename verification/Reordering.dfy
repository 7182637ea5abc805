/** Networks that reorder and repeat packets within bounds: conditions on the arrivals alone under which
    the receivers work as intended, for streams of any length. */
module Reordering {
  import opened Common
  import opened SequenceNumbers
  import opened ReorderQueue
  import opened VideoRefinement
  import opened CommandDelivery

  /** Packet 0 arrives first; when a packet arrives, all those more than reach before it have arrived, and
      none half the number space after it has; what arrives again is not numbered 65535. */
  predicate Reordered(start: uint16, arrivals: seq<nat>, count: nat, reach: nat) {
    && (arrivals != [] ==> arrivals[0] == 0)
    && (forall t :: 0 <= t < |arrivals| ==> arrivals[t] < count)
    && (forall t, j: nat :: 0 <= t < |arrivals| && j + reach < arrivals[t] ==> j in arrivals[..t])
    && (forall t, u :: 0 <= u < t < |arrivals| ==> arrivals[u] < arrivals[t] + HALF)
    && (forall t, u :: 0 <= u < t < |arrivals| && arrivals[u] == arrivals[t] ==> Wrap(start, arrivals[t]) != 65535)
  }

  lemma {:induction false} ReorderedBefore(start: uint16, arrivals: seq<nat>, count: nat, reach: nat, n: nat)
    requires Reordered(start, arrivals, count, reach) && n <= |arrivals|
    ensures Reordered(start, arrivals[..n], count, reach)
  {
    forall t, j: nat | 0 <= t < n && j + reach < arrivals[t] ensures j in arrivals[..n][..t] {
      assert arrivals[..n][..t] == arrivals[..t];
    }
  }

  /** The unbounded receiver holds exactly what arrived: a run from 0 on, and what waits past its end. */
  ghost predicate Orderly(s: Ideal, arrived: seq<nat>) {
    && s.Spaced()
    && (arrived == [] <==> s.runs == [])
    && (arrived != [] ==>
          && |s.runs| == 1 && s.runs[0].lo == 0
          && (forall j: nat :: j in arrived <==> j < s.Awaited() || j in s.pending))
  }

  lemma {:induction false} OrderlyStep(s: Ideal, arrived: seq<nat>, i: nat)
    requires Orderly(s, arrived) && (arrived == [] ==> i == 0)
    ensures Orderly(IdealStep(s, i, false), arrived + [i])
  {
    hide IdealDrain;
    IdealStepSpaced(s, i, false);
    if s.runs == [] {
      DrainSpaced(s.(runs := [Run(i, i + 1)]));
    } else if i == s.Awaited() {
      DrainSpaced(s.Extend());
    }
  }

  lemma {:induction false} WithinReach(start: uint16, s: Ideal, arrived: seq<nat>, count: nat, reach: nat, j: nat)
    requires Orderly(s, arrived) && Reordered(start, arrived, count, reach) && j in s.pending
    ensures j <= s.Awaited() + reach
  {
    var e := s.Awaited();
    assert j in arrived;
    var t :| 0 <= t < |arrived| && arrived[t] == j;
    assert e !in arrived && forall x <- arrived[..t] :: x in arrived;
  }

  /** The next packet of a reordered stream is one the receivers tolerate, and within reach. */
  lemma {:induction false} OrderlyAdmits(start: uint16, s: Ideal, arrived: seq<nat>, i: nat, count: nat, reach: nat)
    requires Orderly(s, arrived) && Reordered(start, arrived + [i], count, reach) && reach <= HALF
    ensures Admissible(start, s, i)
    ensures s.runs != [] ==> i <= s.Awaited() + reach
  {
    var all, t := arrived + [i], |arrived|;
    if s.runs != [] {
      var e := s.Awaited();
      assert all[..t] == arrived;
      if e > 0 {
        assert e - 1 in arrived;
        var u :| 0 <= u < t && arrived[u] == e - 1;
        assert all[u] < all[t] + HALF;
        if i == e - 1 {
          assert all[u] == all[t];
          assert Wrap(start, i) != 65535;
        }
      }
      assert e !in all[..t];
    }
  }

  // ----- Commands -----

  lemma {:induction false} ReorderedCommands(start: uint16, packets: seq<bytes>, arrivals: seq<nat>)
    requires Reordered(start, arrivals, |packets|, HALF)
    ensures CommandsAccepted(start, packets, arrivals)
    ensures Orderly(PlayCommands(start, packets, arrivals).1, arrivals)
  {
    hide HandleCommand, IdealStep, Reordered, Orderly, Admissible;
    if arrivals == [] {
      NothingArrived();
    } else {
      var n := |arrivals| - 1;
      assert arrivals[..n] + [arrivals[n]] == arrivals;
      ReorderedBefore(start, arrivals, |packets|, HALF, n);
      ReorderedCommands(start, packets, arrivals[..n]);
      var s := PlayCommands(start, packets, arrivals[..n]).1;
      OrderlyAdmits(start, s, arrivals[..n], arrivals[n], |packets|, HALF);
      assert arrivals[n] < |packets| && (n == 0 ==> arrivals[n] == 0) by { FirstIsZero(start, arrivals, |packets|, HALF); }
      OrderlyStep(s, arrivals[..n], arrivals[n]);
    }
  }

  lemma {:induction false} NothingArrived()
    ensures Orderly(NEW_IDEAL, [])
  {
  }

  lemma {:induction false} FirstIsZero(start: uint16, arrivals: seq<nat>, count: nat, reach: nat)
    requires Reordered(start, arrivals, count, reach) && arrivals != []
    ensures arrivals[0] == 0 && arrivals[|arrivals| - 1] < count
  {
  }

  // ----- Video -----

  /** The reach within which reordering alone never overfills the queue. */
  const VIDEO_REACH := 1024

  lemma {:induction false} SetInRange(s: set<nat>, lo: nat, size: nat)
    requires forall j <- s :: lo < j <= lo + size
    ensures |s| <= size
    decreases size
  {
    if size == 0 {
      assert s == {};
    } else {
      var rest := s - {lo + size};
      SetInRange(rest, lo, size - 1);
      assert s <= rest + {lo + size};
    }
  }

  lemma {:induction false} QueueNoLarger(start: uint16, packets: seq<bytes>, queue: map<uint16, Message>,
        pending: set<nat>)
    requires QueueMatches(start, packets, queue, pending)
    ensures |queue| <= |pending|
    decreases |pending|
  {
    if queue == map[] {
    } else {
      var k :| k in queue;
      assert Waits(start, pending, k);
      var i :| i in pending && Wrap(start, i) == k;
      var queue', pending' := queue - {k}, set j | j in pending && Wrap(start, j) != k;
      assert i !in pending' && pending' <= pending - {i};
      SubsetSize(pending', pending - {i});
      forall l | l in queue' ensures Waits(start, pending', l) {
        assert Waits(start, pending, l);
        var j :| j in pending && Wrap(start, j) == l;
        assert j in pending';
      }
      QueueNoLarger(start, packets, queue', pending');
      assert queue'.Keys == queue.Keys - {k};
      assert |queue'| == |queue'.Keys| && |queue| == |queue.Keys|;
    }
  }

  /** While everything waiting is within reach, a packet in time triggers no resync. */
  lemma {:induction false} NoResync(start: uint16, packets: seq<bytes>, r: Receiver, s: Ideal, i: nat)
    requires Refines(start, packets, r, s) && i < |packets|
    requires s.Spaced() && Admissible(start, s, i)
    requires s.runs != [] ==> i <= s.Awaited() + VIDEO_REACH && forall j <- s.pending :: j <= s.Awaited() + VIDEO_REACH
    ensures !Resyncs(r, MessageAt(start, packets, i), false)
  {
    hide IsSeqBefore, QueueMatches, TraceOf;
    var m := MessageAt(start, packets, i);
    if IsAhead(r, m.seqNo) {
      var e := s.Awaited();
      WindowOrder(start, i, e);
      assert i > e;
      EnqueueMatches(start, packets, r, s, i);
      QueueNoLarger(start, packets, Enqueue(r, m).queue, s.pending + {i});
      SetInRange(s.pending + {i}, e, VIDEO_REACH);
    }
  }

  function Indices(events: seq<Event>): (indices: seq<nat>)
    ensures |indices| == |events|
  {
    seq(|events|, k requires 0 <= k < |events| => events[k].index)
  }

  predicate InTime(events: seq<Event>) {
    forall k :: 0 <= k < |events| ==> !events[k].elapsed
  }

  /** What is known of the next packet before it is handled. */
  lemma {:induction false} NextInReach(start: uint16, packets: seq<bytes>, r: Receiver, s: Ideal, arrived: seq<nat>,
        i: nat)
    requires Refines(start, packets, r, s) && Orderly(s, arrived)
    requires Reordered(start, arrived + [i], |packets|, VIDEO_REACH)
    ensures i < |packets| && (arrived == [] ==> i == 0)
    ensures Admissible(start, s, i) && !Resyncs(r, MessageAt(start, packets, i), false)
  {
    hide Reordered, Refines, Admissible, Resyncs;
    OrderlyAdmits(start, s, arrived, i, |packets|, VIDEO_REACH);
    FirstIsZero(start, arrived + [i], |packets|, VIDEO_REACH);
    ReorderedBefore(start, arrived + [i], |packets|, VIDEO_REACH, |arrived|);
    assert (arrived + [i])[..|arrived|] == arrived;
    forall j | j in s.pending ensures j <= s.Awaited() + VIDEO_REACH {
      WithinReach(start, s, arrived, |packets|, VIDEO_REACH, j);
    }
    NoResync(start, packets, r, s, i);
  }

  /** Packets in time and reordered within reach are delivered without any resync. */
  lemma {:induction false} ReorderedVideo(start: uint16, packets: seq<bytes>, events: seq<Event>)
    requires Accepted(start, packets, events) && InTime(events)
    requires Reordered(start, Indices(events), |packets|, VIDEO_REACH)
    ensures Orderly(Play(start, packets, events).1, Indices(events))
  {
    hide HandleVideo, IdealStep, Reordered, Orderly, Refines, Acceptable, Resyncs;
    if events == [] {
      NothingArrived();
    } else {
      var n := |events| - 1;
      var i, before := events[n].index, Indices(events[..n]);
      assert before + [i] == Indices(events) && before == Indices(events)[..n];
      ReorderedBefore(start, Indices(events), |packets|, VIDEO_REACH, n);
      ReorderedVideo(start, packets, events[..n]);
      PlayRefines(start, packets, events[..n]);
      var (r, s) := Play(start, packets, events[..n]);
      NextInReach(start, packets, r, s, before, i);
      OrderlyStep(s, before, i);
    }
  }
}
