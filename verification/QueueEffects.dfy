/** What one packet does to the receive queue in any state whatsoever: no hypothesis on the history, the
    displacement of the packet or what is queued. */
module QueueEffects {
  import opened Common
  import opened SequenceNumbers
  import opened ReorderQueue

  /** n packets out of the queue under consecutive numbers from the given one on, round the number space. */
  function Stretch(queue: map<uint16, Message>, from: uint16, n: nat): (ops: seq<Op>)
    requires forall k: nat :: k < n ==> Wrap(from, k) in queue
    ensures |ops| == n
  {
    seq(n, k requires 0 <= k < n => Deliver(queue[Wrap(from, k)]))
  }

  /** r' is r after n queued packets with consecutive numbers were delivered, as many as there are. */
  ghost predicate DrainedBy(r: Receiver, r': Receiver, n: nat) {
    && (forall k: nat :: k < n ==> Wrap(r.expected, k) in r.queue)
    && r'.initialized == r.initialized
    && r'.trace == r.trace + Stretch(r.queue, r.expected, n)
    && r'.expected == Wrap(r.expected, n) && r'.expected !in r'.queue
    && (forall key :: key in r'.queue <==> key in r.queue && !Taken(r.expected, n, key))
    && (forall key <- r'.queue :: r'.queue[key] == r.queue[key])
  }

  ghost predicate Taken(from: uint16, n: nat, key: uint16) {
    exists k: nat :: k < n && Wrap(from, k) == key
  }

  lemma {:induction false} WrapShift(from: uint16, k: nat)
    ensures Wrap(IncrementSequence(from), k) == Wrap(from, k + 1) && Wrap(from, 0) == from
  {
  }

  /** The drain delivers the longest run of consecutive numbers queued and leaves the rest as it was. */
  lemma {:induction false} DrainTakesTheRun(r: Receiver) returns (n: nat)
    ensures DrainedBy(r, Drain(r), n)
    decreases |r.queue|
  {
    hide Wrap, IncrementSequence;
    WrapShift(r.expected, 0);
    if r.expected !in r.queue {
      n := 0;
      assert r.trace + Stretch(r.queue, r.expected, 0) == r.trace;
    } else {
      var rest := r.queue - {r.expected};
      assert rest.Keys == r.queue.Keys - {r.expected};
      var r1 := DeliverNext(r.(queue := rest), r.queue[r.expected], r.expected);
      var n1 := DrainTakesTheRun(r1);
      n := n1 + 1;
      TakesOneMore(r, r1, Drain(r), n1);
    }
  }

  lemma {:induction false} StretchNext(queue: map<uint16, Message>, rest: map<uint16, Message>, from: uint16, n: nat)
    requires from in queue && rest == queue - {from}
    requires forall k: nat :: k < n ==> Wrap(IncrementSequence(from), k) in rest
    ensures forall k: nat :: k < n + 1 ==> Wrap(from, k) in queue
    ensures Stretch(queue, from, n + 1) == [Deliver(queue[from])] + Stretch(rest, IncrementSequence(from), n)
  {
    hide Wrap, IncrementSequence;
    WrapShift(from, 0);
    forall k: nat | k < n + 1 ensures Wrap(from, k) in queue {
      if k > 0 {
        WrapShift(from, k - 1);
        assert Wrap(IncrementSequence(from), k - 1) in rest;
      }
    }
    var left, right := Stretch(queue, from, n + 1), [Deliver(queue[from])] + Stretch(rest, IncrementSequence(from), n);
    forall k: nat | k < n + 1 ensures left[k] == right[k] {
      if k > 0 { WrapShift(from, k - 1); }
    }
  }

  lemma {:induction false} TakesOneMore(r: Receiver, r1: Receiver, r': Receiver, n: nat)
    requires r.expected in r.queue && r1 == DeliverNext(r.(queue := r.queue - {r.expected}), r.queue[r.expected], r.expected)
    requires DrainedBy(r1, r', n)
    ensures DrainedBy(r, r', n + 1)
  {
    hide Wrap, IncrementSequence, Stretch, Taken;
    var e := r.expected;
    StretchNext(r.queue, r1.queue, e, n);
    assert r.trace + [Deliver(r.queue[e])] + Stretch(r1.queue, r1.expected, n)
        == r.trace + ([Deliver(r.queue[e])] + Stretch(r1.queue, r1.expected, n));
    WrapShift(e, n);
    forall key: uint16 ensures key in r'.queue <==> key in r.queue && !Taken(e, n + 1, key) {
      TakenFirst(e, n, key);
      assert key in r1.queue <==> key in r.queue && key != e;
    }
  }

  lemma {:induction false} TakenFirst(from: uint16, n: nat, key: uint16)
    ensures Taken(from, n + 1, key) <==> key == from || Taken(IncrementSequence(from), n, key)
  {
    WrapShift(from, 0);
    if Taken(from, n + 1, key) {
      var k: nat :| k < n + 1 && Wrap(from, k) == key;
      if k > 0 {
        WrapShift(from, k - 1);
        assert Wrap(IncrementSequence(from), k - 1) == key;
      }
    }
    if Taken(IncrementSequence(from), n, key) {
      var k: nat :| k < n && Wrap(IncrementSequence(from), k) == key;
      WrapShift(from, k);
      assert Wrap(from, k + 1) == key;
    }
  }

  // ----- Video -----

  /** The first packet of a connection, and every packet that is awaited: delivered, and then the run behind it. */
  lemma {:induction false} AwaitedIsDelivered(r: Receiver, m: Message, elapsed: bool, order: seq<uint16>) returns (n: nat)
    requires r.initialized ==> m.seqNo == r.expected
    ensures DrainedBy(Receiver(true, Wrap(m.seqNo, 1), r.queue, r.trace + [Deliver(m)]), HandleVideo(r, m, elapsed, order), n)
  {
    n := DrainTakesTheRun(Receiver(true, IncrementSequence(m.seqNo), r.queue, r.trace + [Deliver(m)]));
  }

  /** A packet before the awaited one changes nothing. */
  lemma {:induction false} LateIsDropped(r: Receiver, m: Message, elapsed: bool, order: seq<uint16>)
    requires r.initialized && m.seqNo != r.expected && IsSeqBefore(m.seqNo, r.expected)
    ensures HandleVideo(r, m, elapsed, order) == r
  {
  }

  /** A packet ahead, past the time threshold or with more than 1024 packets waiting: reassembly is reset, the
      packet the scan chose is delivered, what waits before it is forgotten, and the run behind it follows. */
  lemma {:induction false} AheadAndDue(r: Receiver, m: Message, elapsed: bool, order: seq<uint16>)
    returns (lowest: uint16, rest: map<uint16, Message>, n: nat)
    requires r.initialized && m.seqNo != r.expected && !IsSeqBefore(m.seqNo, r.expected)
    requires Enumerates(order, r.queue.Keys + {m.seqNo})
    requires elapsed || |r.queue.Keys + {m.seqNo}| > 1024
    ensures var waiting := r.queue[m.seqNo := m];
            && order != [] && lowest == Lowest(order) && lowest in waiting
            && (forall k :: k in rest <==> k in waiting && k != lowest && !IsSeqBefore(k, lowest))
            && (forall k <- rest :: rest[k] == waiting[k])
            && DrainedBy(Receiver(true, Wrap(lowest, 1), rest,
                                  r.trace + [Reset, Deliver(Message(lowest, waiting[lowest].data))]),
                         HandleVideo(r, m, elapsed, order), n)
  {
    hide IsSeqBefore, Drain, Lowest;
    var r2 := Enqueue(r, m);
    var waiting := r2.queue;
    assert waiting.Keys == r.queue.Keys + {m.seqNo} && |waiting| == |waiting.Keys|;
    assert m.seqNo in order;
    lowest := Lowest(order);
    PurgeKeepsLowest(waiting, lowest);
    rest := Purge(waiting, lowest) - {lowest};
    var r3 := Receiver(true, Wrap(lowest, 1), rest, r.trace + [Reset, Deliver(Message(lowest, waiting[lowest].data))]);
    assert r.trace + [Reset] + [Deliver(Message(lowest, waiting[lowest].data))] == r3.trace;
    assert HandleVideo(r, m, elapsed, order) == Drain(r3);
    n := DrainTakesTheRun(r3);
  }

  /** A packet ahead, in time and with at most 1024 waiting: it waits, and nothing else changes. */
  lemma {:induction false} AheadWaits(r: Receiver, m: Message, order: seq<uint16>)
    requires r.initialized && m.seqNo != r.expected && !IsSeqBefore(m.seqNo, r.expected)
    requires Enumerates(order, r.queue.Keys + {m.seqNo})
    requires |r.queue.Keys + {m.seqNo}| <= 1024
    ensures var r' := HandleVideo(r, m, false, order);
            && r'.initialized && r'.expected == r.expected && r'.trace == r.trace && r'.queue == r.queue[m.seqNo := m]
  {
    hide IsSeqBefore;
    var waiting := Enqueue(r, m).queue;
    assert waiting.Keys == r.queue.Keys + {m.seqNo} && |waiting| == |waiting.Keys|;
  }

  // ----- Commands -----

  /** On the command path too the first and every awaited packet is delivered with the run behind it. */
  lemma {:induction false} AwaitedCommandIsDelivered(r: Receiver, m: Message) returns (n: nat)
    requires r.initialized ==> m.seqNo == r.expected
    ensures DrainedBy(Receiver(true, Wrap(m.seqNo, 1), r.queue, r.trace + [Deliver(m)]), HandleCommand(r, m), n)
  {
    n := DrainTakesTheRun(Receiver(true, IncrementSequence(m.seqNo), r.queue, r.trace + [Deliver(m)]));
  }

  /** Every other packet waits, unless it or what waits already comes before the awaited one: that is forgotten. */
  lemma {:induction false} OtherCommandWaits(r: Receiver, m: Message)
    requires r.initialized && m.seqNo != r.expected
    ensures var r', waiting := HandleCommand(r, m), r.queue[m.seqNo := m];
            && r'.initialized && r'.expected == r.expected && r'.trace == r.trace
            && (forall k :: k in r'.queue <==> k in waiting && !IsSeqBefore(k, r.expected))
            && (forall k <- r'.queue :: r'.queue[k] == waiting[k])
  {
    hide IsSeqBefore;
  }
}
