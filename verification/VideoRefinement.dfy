/** The 16-bit video receiver simulates a receiver over unbounded packet indices. The unbounded
    receiver's history is, by construction, a list of contiguous runs of indices. */
module VideoRefinement {
  import opened Common
  import opened SequenceNumbers
  import opened ReorderQueue

  /** The delivered indices lo, lo + 1, ..., hi - 1. */
  datatype Run = Run(lo: nat, hi: nat)

  datatype Ideal = Ideal(runs: seq<Run>, pending: set<nat>) {
    /** The next index to deliver. */
    function Awaited(): nat
      requires runs != []
    {
      runs[|runs| - 1].hi
    }

    function Extend(): Ideal
      requires runs != []
    {
      var n := |runs| - 1;
      this.(runs := runs[n := Run(runs[n].lo, runs[n].hi + 1)])
    }

    /** Runs are nonempty and each run starts strictly past the index that ended the one before;
        packets wait only for indices ahead of the awaited one. */
    predicate Spaced() {
      && (forall j :: 0 <= j < |runs| ==> runs[j].lo < runs[j].hi)
      && (forall j :: 1 <= j < |runs| ==> runs[j - 1].hi < runs[j].lo)
      && (runs == [] ==> pending == {})
      && (runs != [] ==> forall i <- pending :: i > Awaited())
    }
  }

  const NEW_IDEAL := Ideal([], {})

  ghost predicate IsNearest(m: nat, pending: set<nat>) {
    m in pending && forall i <- pending :: m <= i
  }

  lemma {:induction false} FindNearest(pending: set<nat>) returns (m: nat)
    requires pending != {}
    ensures IsNearest(m, pending)
  {
    m :| m in pending;
    var rest := pending - {m};
    if rest == {} {
      assert pending == {m};
    } else {
      var m' := FindNearest(rest);
      assert forall i <- pending :: i == m || i in rest;
      m := if m' < m then m' else m;
    }
  }

  ghost function Nearest(pending: set<nat>): (m: nat)
    requires pending != {}
    ensures m in pending && forall i <- pending :: m <= i
  {
    assert exists m :: IsNearest(m, pending) by { var m := FindNearest(pending); }
    var m :| IsNearest(m, pending);
    m
  }

  ghost function IdealDrain(s: Ideal): (s': Ideal)
    requires s.runs != []
    ensures s'.runs != [] && s'.Awaited() !in s'.pending
    ensures s'.pending <= s.pending && s.Awaited() <= s'.Awaited()
    decreases |s.pending|
  {
    var e := s.Awaited();
    if e in s.pending then IdealDrain(s.(pending := s.pending - {e}).Extend()) else s
  }

  /** Gives up on the awaited index: a new run starts at the nearest waiting one. */
  ghost function Jump(s: Ideal): Ideal
    requires s.pending != {}
  {
    var m := Nearest(s.pending);
    IdealDrain(Ideal(s.runs + [Run(m, m + 1)], s.pending - {m}))
  }

  ghost function IdealStep(s: Ideal, i: nat, resync: bool): Ideal {
    if s.runs == [] then IdealDrain(s.(runs := [Run(i, i + 1)]))
    else if i == s.Awaited() then IdealDrain(s.Extend())
    else if i < s.Awaited() then s
    else
      var s1 := s.(pending := s.pending + {i});
      if resync then Jump(s1) else s1
  }

  // ----- Shape of the unbounded history -----

  lemma {:induction false} DrainSpaced(s: Ideal)
    requires s.runs != []
    requires s.(pending := {}).Spaced()
    requires forall i <- s.pending :: i >= s.Awaited()
    ensures IdealDrain(s).Spaced()
    ensures |IdealDrain(s).runs| == |s.runs|
    ensures forall j :: 0 <= j < |s.runs| - 1 ==> IdealDrain(s).runs[j] == s.runs[j]
    ensures IdealDrain(s).runs[|s.runs| - 1].lo == s.runs[|s.runs| - 1].lo
    // The drained run is the maximal contiguous one: it consumed exactly the waiting indices below its end.
    ensures forall i :: i in IdealDrain(s).pending <==> i in s.pending && i >= IdealDrain(s).Awaited()
    ensures forall i :: s.Awaited() <= i < IdealDrain(s).Awaited() ==> i in s.pending
    decreases |s.pending|
  {
    var e := s.Awaited();
    if e !in s.pending {
    } else {
      var s1 := s.(pending := s.pending - {e}).Extend();
      DrainSpaced(s1);
      forall i | e <= i < IdealDrain(s).Awaited() ensures i in s.pending {
        assert i == e || i in s1.pending;
      }
    }
  }

  lemma {:induction false} JumpSpaced(s: Ideal)
    requires s.Spaced() && s.runs != [] && s.pending != {}
    ensures Jump(s).Spaced() && |Jump(s).runs| == |s.runs| + 1
    ensures Jump(s).runs[0].lo == s.runs[0].lo && Jump(s).Awaited() > s.Awaited()
  {
    hide IdealDrain;
    var m := Nearest(s.pending);
    var s2 := Ideal(s.runs + [Run(m, m + 1)], s.pending - {m});
    DrainSpaced(s2);
    assert s.runs[0] == s2.runs[0];
  }

  /** One packet keeps the runs apart, and without a resync no new run is opened. */
  lemma {:induction false} IdealStepSpaced(s: Ideal, i: nat, resync: bool)
    requires s.Spaced()
    ensures IdealStep(s, i, resync).Spaced() && IdealStep(s, i, resync).runs != []
    ensures |s.runs| <= |IdealStep(s, i, resync).runs| <= |s.runs| + 1
    ensures s.runs != [] && !resync ==> |IdealStep(s, i, resync).runs| == |s.runs|
    ensures s.runs != [] ==>
              IdealStep(s, i, resync).runs[0].lo == s.runs[0].lo
              && IdealStep(s, i, resync).Awaited() >= s.Awaited()
    ensures s.runs == [] ==> IdealStep(s, i, resync).runs[0].lo == i
  {
    hide IdealDrain, Jump;
    if s.runs == [] {
      DrainSpaced(s.(runs := [Run(i, i + 1)]));
    } else if i == s.Awaited() {
      DrainSpaced(s.Extend());
    } else if i > s.Awaited() && resync {
      JumpSpaced(s.(pending := s.pending + {i}));
    }
  }

  /** Any two runs are disjoint and in increasing order, so no index is delivered twice. */
  lemma {:induction false} RunsApart(s: Ideal, j: nat, k: nat)
    requires s.Spaced() && j < k < |s.runs|
    ensures s.runs[j].lo < s.runs[j].hi < s.runs[k].lo
  {
    if j + 1 == k {
    } else {
      RunsApart(s, j, k - 1);
    }
  }

  // ----- The simulation relation -----

  function Deliveries(start: uint16, packets: seq<bytes>, lo: nat, hi: nat): seq<Op>
    requires lo <= hi <= |packets|
    decreases hi
  {
    if lo == hi then []
    else Deliveries(start, packets, lo, hi - 1) + [Deliver(Message(Wrap(start, hi - 1), packets[hi - 1]))]
  }

  predicate Within(runs: seq<Run>, count: nat) {
    forall run <- runs :: run.lo <= run.hi <= count
  }

  function TraceOf(start: uint16, packets: seq<bytes>, runs: seq<Run>): seq<Op>
    requires Within(runs, |packets|)
  {
    if runs == [] then []
    else
      var n := |runs| - 1;
      TraceOf(start, packets, runs[..n])
      + (if n > 0 then [Reset] else [])
      + Deliveries(start, packets, runs[n].lo, runs[n].hi)
  }

  ghost predicate QueueMatches(start: uint16, packets: seq<bytes>, queue: map<uint16, Message>, pending: set<nat>) {
    && (forall i <- pending :: i < |packets| && Wrap(start, i) in queue
                               && queue[Wrap(start, i)] == Message(Wrap(start, i), packets[i]))
    && (forall k <- queue :: Waits(start, pending, k))
  }

  /** Some waiting index has number k. */
  ghost predicate Waits(start: uint16, pending: set<nat>, k: uint16) {
    exists i :: i in pending && Wrap(start, i) == k
  }

  ghost predicate InWindow(pending: set<nat>, e: nat) {
    forall i <- pending :: e <= i <= e + HALF
  }

  ghost predicate Refines(start: uint16, packets: seq<bytes>, r: Receiver, s: Ideal) {
    && (r.initialized <==> s.runs != [])
    && (s.runs != [] ==> r.expected == Wrap(start, s.Awaited()) && InWindow(s.pending, s.Awaited()))
    && (s.runs == [] ==> s.pending == {})
    && Within(s.runs, |packets|)
    && QueueMatches(start, packets, r.queue, s.pending)
    && r.trace == TraceOf(start, packets, s.runs)
  }

  lemma {:induction false} ExtendTrace(start: uint16, packets: seq<bytes>, s: Ideal)
    requires s.runs != [] && Within(s.runs, |packets|)
    requires s.runs[|s.runs| - 1].lo <= s.Awaited() < |packets|
    ensures Within(s.Extend().runs, |packets|)
    ensures TraceOf(start, packets, s.Extend().runs)
         == TraceOf(start, packets, s.runs) + [Deliver(Message(Wrap(start, s.Awaited()), packets[s.Awaited()]))]
  {
    var n := |s.runs| - 1;
    assert s.Extend().runs[..n] == s.runs[..n];
    var run := s.runs[n];
    assert Deliveries(start, packets, run.lo, run.hi + 1)
        == Deliveries(start, packets, run.lo, run.hi) + [Deliver(Message(Wrap(start, run.hi), packets[run.hi]))];
  }

  lemma {:induction false} RemoveMatching(start: uint16, packets: seq<bytes>, queue: map<uint16, Message>,
        pending: set<nat>, i: nat)
    requires QueueMatches(start, packets, queue, pending) && i in pending
    requires forall j <- pending :: i <= j <= i + HALF
    ensures QueueMatches(start, packets, queue - {Wrap(start, i)}, pending - {i})
  {
    forall j | j in pending && j != i ensures Wrap(start, j) != Wrap(start, i) {
      if Wrap(start, j) == Wrap(start, i) { WrapInjective(start, i, j); }
    }
    var queue', pending' := queue - {Wrap(start, i)}, pending - {i};
    forall k | k in queue' ensures Waits(start, pending', k) {
      assert Waits(start, pending, k);
      var j :| j in pending && Wrap(start, j) == k;
      assert j in pending';
    }
  }

  lemma {:induction false} QueuedIffWaiting(start: uint16, packets: seq<bytes>, queue: map<uint16, Message>,
        pending: set<nat>, e: nat)
    requires QueueMatches(start, packets, queue, pending) && InWindow(pending, e)
    ensures Wrap(start, e) in queue <==> e in pending
    ensures e in pending ==> e < |packets| && queue[Wrap(start, e)] == Message(Wrap(start, e), packets[e])
  {
    if Wrap(start, e) in queue {
      assert Waits(start, pending, Wrap(start, e));
      var i :| i in pending && Wrap(start, i) == Wrap(start, e);
      WrapInjective(start, i, e);
    }
  }

  lemma {:induction false} DrainRefines(start: uint16, packets: seq<bytes>, r: Receiver, s: Ideal)
    requires Refines(start, packets, r, s) && s.runs != []
    ensures Refines(start, packets, Drain(r), IdealDrain(s))
    decreases |s.pending|
  {
    hide TraceOf, QueueMatches, Wrap;
    var e := s.Awaited();
    QueuedIffWaiting(start, packets, r.queue, s.pending, e);
    if e !in s.pending {
    } else {
      var rest := r.queue - {r.expected};
      var s1 := s.(pending := s.pending - {e});
      RemoveMatching(start, packets, r.queue, s.pending, e);
      ExtendTrace(start, packets, s);
      WrapNext(start, e);
      DrainRefines(start, packets, DeliverNext(r.(queue := rest), r.queue[r.expected], r.expected), s1.Extend());
    }
  }

  lemma {:induction false} InOrderRefines(start: uint16, packets: seq<bytes>, r: Receiver, s: Ideal)
    requires Refines(start, packets, r, s) && s.runs != [] && s.Awaited() < |packets|
    requires s.Awaited() !in s.pending
    ensures Refines(start, packets, InOrder(r, Message(r.expected, packets[s.Awaited()])), IdealDrain(s.Extend()))
  {
    hide TraceOf, QueueMatches, Wrap, Drain, IdealDrain;
    ExtendTrace(start, packets, s);
    WrapNext(start, s.Awaited());
    DrainRefines(start, packets, DeliverNext(r, Message(r.expected, packets[s.Awaited()]), r.expected), s.Extend());
  }

  // ----- The resync scan -----

  /** The one configuration in which the scan depends on the iteration order: packet 65535 is the
      nearest waiting packet and its successor 0 waits too. */
  ghost predicate Ambiguous(start: uint16, pending: set<nat>) {
    pending != {} && var m := Nearest(pending); Wrap(start, m) == 65535 && m + 1 in pending
  }

  /** What the scan needs to know of the queue: its keys are the numbers of the waiting indices. */
  ghost predicate KeysOf(start: uint16, keys: set<uint16>, pending: set<nat>) {
    && (forall i <- pending :: Wrap(start, i) in keys)
    && (forall k <- keys :: Waits(start, pending, k))
  }

  ghost predicate Narrow(pending: set<nat>) {
    pending != {} && forall i <- pending :: i <= Nearest(pending) + HALF
  }

  /** No waiting packet compares before the nearest one, and outside the ambiguous configuration the
      nearest one compares before every other. */
  lemma {:induction false} CompareWithNearest(start: uint16, pending: set<nat>, k: uint16)
    requires Narrow(pending) && Waits(start, pending, k)
    ensures var m := Wrap(start, Nearest(pending));
            && !IsSeqBefore(k, m)
            && (!Ambiguous(start, pending) && k != m ==> IsSeqBefore(m, k))
  {
    hide IsSeqBefore;
    var i :| i in pending && Wrap(start, i) == k;
    WindowOrder(start, i, Nearest(pending));
    WindowOrder(start, Nearest(pending), i);
  }

  lemma {:induction false} ScanPrefix(start: uint16, order: seq<uint16>, pending: set<nat>)
    requires order != [] && Narrow(pending) && !Ambiguous(start, pending)
    requires forall k <- order :: Waits(start, pending, k)
    ensures Wrap(start, Nearest(pending)) in order ==> Lowest(order) == Wrap(start, Nearest(pending))
  {
    hide IsSeqBefore, Wrap, Waits, Ambiguous, Narrow;
    var n := |order| - 1;
    assert order[n] in order;
    CompareWithNearest(start, pending, order[n]);
    if n == 0 {
    } else {
      assert forall k <- order[..n] :: k in order;
      ScanPrefix(start, order[..n], pending);
      CompareWithNearest(start, pending, Lowest(order[..n]));
    }
  }

  /** Outside the ambiguous configuration, every iteration order finds the nearest waiting packet. */
  lemma {:induction false} ScanFindsNearest(start: uint16, order: seq<uint16>, keys: set<uint16>, pending: set<nat>)
    requires Narrow(pending) && KeysOf(start, keys, pending) && Enumerates(order, keys) && order != []
    requires !Ambiguous(start, pending)
    ensures Lowest(order) == Wrap(start, Nearest(pending))
  {
    ScanPrefix(start, order, pending);
  }

  lemma {:induction false} CompareWithZero(start: uint16, pending: set<nat>, k: uint16)
    requires Narrow(pending) && Ambiguous(start, pending) && Waits(start, pending, k)
    ensures !IsSeqBefore(k, 0)
  {
    hide IsSeqBefore;
    var m := Nearest(pending);
    var i :| i in pending && Wrap(start, i) == k;
    assert Wrap(start, m + 1) == 0;
    WindowOrder(start, i, m + 1);
  }

  /** In the ambiguous configuration, every order that visits packet 0 first skips the nearest packet 65535. */
  lemma {:induction false} ScanSkipsNearest(start: uint16, order: seq<uint16>, pending: set<nat>)
    requires Narrow(pending) && Ambiguous(start, pending)
    requires order != [] && order[0] == 0
    requires forall k <- order :: Waits(start, pending, k)
    ensures Lowest(order) == 0 != Wrap(start, Nearest(pending))
  {
    hide IsSeqBefore, Wrap, Waits, Narrow;
    var n := |order| - 1;
    if n == 0 {
    } else {
      assert forall k <- order[..n] :: k in order;
      ScanSkipsNearest(start, order[..n], pending);
      assert order[n] in order;
      CompareWithZero(start, pending, order[n]);
    }
  }

  lemma {:induction false} SomeOrder(keys: set<uint16>) returns (order: seq<uint16>)
    ensures Enumerates(order, keys)
  {
    if keys == {} {
      order := [];
    } else {
      var k :| k in keys;
      var rest := SomeOrder(keys - {k});
      order := [k] + rest;
    }
  }

  /** The scan is deterministic exactly outside the ambiguous configuration. */
  lemma {:induction false} ScanDeterminism(start: uint16, keys: set<uint16>, pending: set<nat>)
    requires Narrow(pending) && KeysOf(start, keys, pending)
    ensures !Ambiguous(start, pending) <==>
            forall order | Enumerates(order, keys) && order != [] ::
              Lowest(order) == Wrap(start, Nearest(pending))
  {
    assert pending != {};
    hide IsSeqBefore, Lowest, Narrow;
    if Ambiguous(start, pending) {
      var m := Nearest(pending);
      assert Wrap(start, m + 1) == 0;
      var rest := SomeOrder(keys - {0});
      var order := [0] + rest;
      assert Enumerates(order, keys);
      ScanSkipsNearest(start, order, pending);
    } else {
      forall order | Enumerates(order, keys) && order != []
        ensures Lowest(order) == Wrap(start, Nearest(pending))
      {
        ScanFindsNearest(start, order, keys, pending);
      }
    }
  }

  /** When nothing queued is before the chosen number, a resync purges nothing. */
  lemma {:induction false} ResyncUnfolds(r: Receiver, order: seq<uint16>, lowest: uint16)
    requires Enumerates(order, r.queue.Keys) && order != [] && lowest == Lowest(order)
    requires forall k <- r.queue :: !IsSeqBefore(k, lowest)
    ensures lowest in r.queue
    ensures Resync(r, order) == InOrder(Receiver(r.initialized, lowest, r.queue - {lowest}, r.trace + [Reset]),
                                        Message(lowest, r.queue[lowest].data))
  {
    assert lowest in order;
    assert Purge(r.queue, lowest) == r.queue;
  }

  /** A resync drops nothing that is still reachable and starts the new run at the nearest packet. */
  lemma {:induction false} ResyncRefines(start: uint16, packets: seq<bytes>, r: Receiver, s: Ideal, order: seq<uint16>)
    requires Refines(start, packets, r, s) && s.runs != [] && s.Spaced() && s.pending != {}
    requires !Ambiguous(start, s.pending)
    requires Enumerates(order, r.queue.Keys)
    ensures Refines(start, packets, Resync(r, order), Jump(s))
  {
    var m := Nearest(s.pending);
    var lowest := Wrap(start, m);
    assert order != [] by { assert lowest in r.queue; assert lowest in order; }
    ScanFindsNearest(start, order, r.queue.Keys, s.pending);
    forall k | k in r.queue ensures !IsSeqBefore(k, lowest) {
      assert Waits(start, s.pending, k);
      var i :| i in s.pending && Wrap(start, i) == k;
      WindowOrder(start, i, m);
    }
    ResyncUnfolds(r, order, lowest);
    OpenRunRefines(start, packets, r, s, m);
  }

  lemma {:induction false} OpenRunRefines(start: uint16, packets: seq<bytes>, r: Receiver, s: Ideal, m: nat)
    requires Refines(start, packets, r, s) && s.runs != []
    requires s.pending != {} && m == Nearest(s.pending)
    ensures var lowest := Wrap(start, m);
            var r1 := Receiver(r.initialized, lowest, r.queue - {lowest}, r.trace + [Reset]);
            Refines(start, packets, InOrder(r1, Message(lowest, packets[m])), Jump(s))
  {
    hide QueueMatches, Wrap, Drain, IdealDrain;
    var lowest := Wrap(start, m);
    var r1 := Receiver(r.initialized, lowest, r.queue - {lowest}, r.trace + [Reset]);
    var s1 := Ideal(s.runs + [Run(m, m)], s.pending - {m});
    assert InWindow(s.pending, m);
    QueuedIffWaiting(start, packets, r.queue, s.pending, m);
    assert Refines(start, packets, r1, s1) by {
      RemoveMatching(start, packets, r.queue, s.pending, m);
      assert s1.runs[..|s.runs|] == s.runs;
    }
    assert s1.Extend() == Ideal(s.runs + [Run(m, m + 1)], s.pending - {m});
    InOrderRefines(start, packets, r1, s1);
  }

  // ----- One packet, and whole runs -----

  /** The displacement the receiver tolerates, and the one duplicate it mistakes for a future packet. */
  ghost predicate Admissible(start: uint16, s: Ideal, i: nat) {
    s.runs != [] ==>
      var e := s.Awaited();
      e - HALF <= i <= e + HALF && !(i + 1 == e && Wrap(start, e) == 0)
  }

  lemma {:induction false} EnqueueMatches(start: uint16, packets: seq<bytes>, r: Receiver, s: Ideal, i: nat)
    requires Refines(start, packets, r, s) && s.runs != [] && s.Awaited() < i <= s.Awaited() + HALF
    requires i < |packets|
    ensures Refines(start, packets, Enqueue(r, Message(Wrap(start, i), packets[i])), s.(pending := s.pending + {i}))
  {
    var m := Message(Wrap(start, i), packets[i]);
    var queue, pending := r.queue[m.seqNo := m], s.pending + {i};
    forall j | j in pending ensures Wrap(start, j) in queue
                                    && queue[Wrap(start, j)] == Message(Wrap(start, j), packets[j]) {
      if Wrap(start, j) == Wrap(start, i) { WrapInjective(start, i, j); }
    }
    forall k | k in queue ensures Waits(start, pending, k) {
      if k == m.seqNo {
        assert i in pending;
      } else {
        assert Waits(start, s.pending, k);
        var j :| j in s.pending && Wrap(start, j) == k;
        assert j in pending;
      }
    }
  }

  datatype Event = Event(index: nat, elapsed: bool, order: seq<uint16>)

  function MessageAt(start: uint16, packets: seq<bytes>, i: nat): Message
    requires i < |packets|
  {
    Message(Wrap(start, i), packets[i])
  }

  /** Whether this packet makes the 16-bit receiver give up on the awaited one. */
  predicate Resyncs(r: Receiver, m: Message, elapsed: bool) {
    IsAhead(r, m.seqNo) && ResyncDue(Enqueue(r, m), elapsed)
  }

  lemma {:induction false} FirstPacketRefines(start: uint16, packets: seq<bytes>, r: Receiver, s: Ideal, i: nat)
    requires Refines(start, packets, r, s) && s.runs == [] && i < |packets|
    ensures Refines(start, packets, InOrder(Adopt(r, Wrap(start, i)), MessageAt(start, packets, i)),
                    IdealDrain(s.(runs := [Run(i, i + 1)])))
  {
    var s1 := s.(runs := [Run(i, i)]);
    var r1 := Adopt(r, Wrap(start, i));
    assert Refines(start, packets, r1, s1) by {
      assert s1.runs[..0] == [];
      assert TraceOf(start, packets, s1.runs) == [];
    }
    InOrderRefines(start, packets, r1, s1);
    assert s1.Extend() == s.(runs := [Run(i, i + 1)]);
  }

  lemma {:induction false} AheadRefines(start: uint16, packets: seq<bytes>, r: Receiver, s: Ideal, ev: Event)
    requires Refines(start, packets, r, s) && s.runs != [] && s.Awaited() < ev.index <= s.Awaited() + HALF
    requires s.Spaced() && ev.index < |packets|
    requires Enumerates(ev.order, r.queue.Keys + {Wrap(start, ev.index)})
    requires var r1 := Enqueue(r, MessageAt(start, packets, ev.index));
             ResyncDue(r1, ev.elapsed) ==> !Ambiguous(start, s.pending + {ev.index})
    ensures var r1 := Enqueue(r, MessageAt(start, packets, ev.index));
            var s1 := s.(pending := s.pending + {ev.index});
            && Enumerates(ev.order, r1.queue.Keys)
            && if ResyncDue(r1, ev.elapsed)
               then Refines(start, packets, Resync(r1, ev.order), Jump(s1))
               else Refines(start, packets, r1, s1)
  {
    hide Refines, Resync, Jump;
    var m := MessageAt(start, packets, ev.index);
    EnqueueMatches(start, packets, r, s, ev.index);
    var r1, s1 := Enqueue(r, m), s.(pending := s.pending + {ev.index});
    assert r1.queue.Keys == r.queue.Keys + {m.seqNo};
    if ResyncDue(r1, ev.elapsed) {
      ResyncRefines(start, packets, r1, s1, ev.order);
    }
  }

  /** What a caller can check about a packet before handing it over. */
  ghost predicate Acceptable(start: uint16, packets: seq<bytes>, r: Receiver, s: Ideal, ev: Event) {
    && ev.index < |packets|
    && Admissible(start, s, ev.index)
    && var m := MessageAt(start, packets, ev.index);
    && (IsAhead(r, m.seqNo) ==> Enumerates(ev.order, r.queue.Keys + {m.seqNo}))
    && (Resyncs(r, m, ev.elapsed) ==> !Ambiguous(start, s.pending + {ev.index}))
  }

  /** The simulation step: the 16-bit receiver does what the unbounded receiver does. */
  lemma {:induction false} StepRefines(start: uint16, packets: seq<bytes>, r: Receiver, s: Ideal, ev: Event)
    requires Refines(start, packets, r, s) && s.Spaced()
    requires Acceptable(start, packets, r, s, ev)
    ensures var m := MessageAt(start, packets, ev.index);
            Refines(start, packets, HandleVideo(r, m, ev.elapsed, ev.order),
                    IdealStep(s, ev.index, Resyncs(r, m, ev.elapsed)))
  {
    var i, m := ev.index, MessageAt(start, packets, ev.index);
    if s.runs == [] {
      FirstPacketRefines(start, packets, r, s, i);
    } else {
      var e := s.Awaited();
      if i == e {
        InOrderRefines(start, packets, r, s);
      } else {
        if Wrap(start, i) == r.expected { WrapInjective(start, i, e); }
        WindowOrder(start, i, e);
        if i > e { AheadRefines(start, packets, r, s, ev); }
      }
    }
  }

  // ----- Whole histories -----

  function AsArrival(start: uint16, packets: seq<bytes>, ev: Event): VideoArrival
    requires ev.index < |packets|
  {
    VideoArrival(MessageAt(start, packets, ev.index), ev.elapsed, ev.order)
  }

  /** The receiver and the unbounded receiver after a history of arrivals. */
  ghost function Play(start: uint16, packets: seq<bytes>, events: seq<Event>): (Receiver, Ideal)
    requires Accepted(start, packets, events)
    decreases |events|, 1
  {
    if events == [] then (NEW_RECEIVER, NEW_IDEAL)
    else
      var n := |events| - 1;
      var ev := events[n];
      var (r, s) := Play(start, packets, events[..n]);
      var m := MessageAt(start, packets, ev.index);
      (HandleVideo(r, m, ev.elapsed, ev.order), IdealStep(s, ev.index, Resyncs(r, m, ev.elapsed)))
  }

  /** Every packet of the history was acceptable when it arrived. */
  ghost predicate Accepted(start: uint16, packets: seq<bytes>, events: seq<Event>)
    decreases |events|, 0
  {
    events == [] ||
    var n := |events| - 1;
    && Accepted(start, packets, events[..n])
    && var (r, s) := Play(start, packets, events[..n]);
    Acceptable(start, packets, r, s, events[n])
  }

  lemma {:induction false} PlayRefines(start: uint16, packets: seq<bytes>, events: seq<Event>)
    requires Accepted(start, packets, events)
    ensures var (r, s) := Play(start, packets, events);
            Refines(start, packets, r, s) && s.Spaced()
  {
    if events == [] {
    } else {
      var n := |events| - 1;
      var (r, s) := Play(start, packets, events[..n]);
      PlayRefines(start, packets, events[..n]);
      StepRefines(start, packets, r, s, events[n]);
      IdealStepSpaced(s, events[n].index, Resyncs(r, MessageAt(start, packets, events[n].index), events[n].elapsed));
    }
  }

  /** The receiver of Play is the receiver of ReorderQueue, fed the numbered packets. */
  lemma {:induction false} PlayIsPlayVideo(start: uint16, packets: seq<bytes>, events: seq<Event>)
    requires Accepted(start, packets, events)
    ensures forall ev <- events :: ev.index < |packets|
    ensures var arrivals := seq(|events|, j requires 0 <= j < |events| => AsArrival(start, packets, events[j]));
            Playable(arrivals) && PlayVideo(arrivals) == Play(start, packets, events).0
  {
    hide HandleVideo, IdealStep, Resyncs, IsAhead, Enumerates;
    if events == [] {
    } else {
      var n := |events| - 1;
      PlayIsPlayVideo(start, packets, events[..n]);
      assert forall ev <- events :: ev in events[..n] || ev == events[n];
      var arrivals := seq(|events|, j requires 0 <= j < |events| => AsArrival(start, packets, events[j]));
      var before := seq(n, j requires 0 <= j < n => AsArrival(start, packets, events[..n][j]));
      assert arrivals[..n] == before;
    }
  }

  // ----- Nothing is lost while the receiver never resyncs -----

  ghost predicate Holds(s: Ideal, i: nat) {
    s.runs != [] && (i < s.runs[0].lo || i < s.Awaited() || i in s.pending)
  }

  lemma {:induction false} HoldsStep(s: Ideal, i: nat, resync: bool, j: nat)
    requires s.Spaced() && (j == i || Holds(s, j))
    requires |IdealStep(s, i, resync).runs| == 1
    ensures Holds(IdealStep(s, i, resync), j)
  {
    hide IdealDrain;
    IdealStepSpaced(s, i, resync);
    if s.runs == [] {
      DrainSpaced(s.(runs := [Run(i, i + 1)]));
    } else if i == s.Awaited() {
      DrainSpaced(s.Extend());
    } else if i > s.Awaited() && resync {
      var s1 := s.(pending := s.pending + {i});
      var m := Nearest(s1.pending);
      DrainSpaced(Ideal(s1.runs + [Run(m, m + 1)], s1.pending - {m}));
    }
  }

  /** The last step of a nonempty history. */
  lemma {:induction false} LastStep(start: uint16, packets: seq<bytes>, events: seq<Event>) returns (s: Ideal,
        resync: bool)
    requires Accepted(start, packets, events) && events != []
    ensures var n := |events| - 1;
            && Accepted(start, packets, events[..n])
            && s == Play(start, packets, events[..n]).1 && s.Spaced()
            && Play(start, packets, events).1 == IdealStep(s, events[n].index, resync)
    ensures Play(start, packets, events).1.runs != []
    ensures |s.runs| <= |Play(start, packets, events).1.runs|
    ensures Play(start, packets, events).1.runs[0].lo
         == if s.runs == [] then events[|events| - 1].index else s.runs[0].lo
  {
    var n := |events| - 1;
    var (r, s0) := Play(start, packets, events[..n]);
    s := s0;
    resync := Resyncs(r, MessageAt(start, packets, events[n].index), events[n].elapsed);
    PlayRefines(start, packets, events[..n]);
    IdealStepSpaced(s, events[n].index, resync);
  }

  lemma {:induction false} FirstRunStart(start: uint16, packets: seq<bytes>, events: seq<Event>)
    requires Accepted(start, packets, events) && events != []
    ensures var s := Play(start, packets, events).1; s.runs != [] && s.runs[0].lo == events[0].index
  {
    var n := |events| - 1;
    var s, resync := LastStep(start, packets, events);
    if n == 0 {
    } else {
      assert events[..n][0] == events[0];
      FirstRunStart(start, packets, events[..n]);
    }
  }

  lemma {:induction false} NothingLost(start: uint16, packets: seq<bytes>, events: seq<Event>, j: nat)
    requires Accepted(start, packets, events) && j < |events|
    requires |Play(start, packets, events).1.runs| == 1
    ensures Holds(Play(start, packets, events).1, events[j].index)
  {
    hide Play, Accepted, IdealStep;
    var n := |events| - 1;
    var s, resync := LastStep(start, packets, events);
    if j == n {
    } else {
      assert events[..n][j] == events[j];
      var s1, resync1 := LastStep(start, packets, events[..n]);
      NothingLost(start, packets, events[..n], j);
    }
    HoldsStep(s, events[n].index, resync, events[j].index);
  }

  predicate Arrives(events: seq<Event>, i: nat) {
    exists j :: 0 <= j < |events| && events[j].index == i
  }

  /** When packet 0 came first, every packet arrived at least once and no resync happened, then exactly
      all packets were delivered, in order. */
  lemma {:induction false} CompleteDelivery(start: uint16, packets: seq<bytes>, events: seq<Event>)
    requires Accepted(start, packets, events) && events != [] && events[0].index == 0
    requires forall i: nat | i < |packets| :: Arrives(events, i)
    requires |Play(start, packets, events).1.runs| == 1
    ensures Play(start, packets, events).1.runs == [Run(0, |packets|)]
  {
    hide HandleVideo, IdealStep, IdealDrain;
    var s := Play(start, packets, events).1;
    PlayRefines(start, packets, events);
    FirstRunStart(start, packets, events);
    var e := s.Awaited();
    assert s.runs[0] in s.runs;
    if e < |packets| {
      assert Arrives(events, e);
      var j :| 0 <= j < |events| && events[j].index == e;
      NothingLost(start, packets, events, j);
    }
  }

  // ----- Streams short enough to need no hypothesis -----

  predicate Short(start: uint16, packets: seq<bytes>) {
    |packets| <= HALF && start + |packets| < 0x1_0000
  }

  lemma {:induction false} ShortIsAcceptable(start: uint16, packets: seq<bytes>, r: Receiver, s: Ideal, ev: Event)
    requires Short(start, packets) && Refines(start, packets, r, s) && ev.index < |packets|
    requires IsAhead(r, Wrap(start, ev.index)) ==> Enumerates(ev.order, r.queue.Keys + {Wrap(start, ev.index)})
    ensures Acceptable(start, packets, r, s, ev)
  {
    hide TraceOf, IsSeqBefore, Enumerates, QueueMatches;
    if s.runs != [] {
      assert s.runs[|s.runs| - 1] in s.runs;
    }
  }

  /** A stream of up to 32767 packets whose numbers do not reach 65535: every history whatsoever, with
      any reordering, duplication, loss and timing, is accepted. */
  lemma {:induction false} ShortIsAccepted(start: uint16, packets: seq<bytes>, events: seq<Event>)
    requires Short(start, packets) && forall ev <- events :: ev.index < |packets|
    requires Playable(seq(|events|, j requires 0 <= j < |events| => AsArrival(start, packets, events[j])))
    ensures Accepted(start, packets, events)
  {
    hide HandleVideo, IsAhead, Enumerates, IsSeqBefore;
    if events == [] {
    } else {
      var n := |events| - 1;
      assert forall ev <- events[..n] :: ev in events;
      var arrivals := seq(|events|, j requires 0 <= j < |events| => AsArrival(start, packets, events[j]));
      var before := seq(n, j requires 0 <= j < n => AsArrival(start, packets, events[..n][j]));
      assert arrivals[..n] == before;
      ShortIsAccepted(start, packets, events[..n]);
      PlayIsPlayVideo(start, packets, events[..n]);
      PlayRefines(start, packets, events[..n]);
      var (r, s) := Play(start, packets, events[..n]);
      ShortIsAcceptable(start, packets, r, s, events[n]);
    }
  }
}
