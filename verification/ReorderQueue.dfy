/** In-order delivery out of the reorder queue, over 16-bit packet numbers: the effect of one arriving
    packet on the receive state of one data type. The order in which the queue's map is iterated is a
    parameter. */
module ReorderQueue {
  import opened Common
  import opened SequenceNumbers

  const MAX_QUEUED_VIDEO_PACKETS := 1024

  datatype Message = Message(seqNo: uint16, data: bytes)

  /** What the layer above sees: packets in delivery order, and abandonments of reassembly. */
  datatype Op = Deliver(message: Message) | Reset

  datatype Receiver = Receiver(initialized: bool, expected: uint16, queue: map<uint16, Message>, trace: seq<Op>)

  const NEW_RECEIVER := Receiver(false, 0, map[], [])

  predicate Enumerates(order: seq<uint16>, keys: set<uint16>) {
    && (forall k <- order :: k in keys)
    && (forall k <- keys :: k in order)
    && (forall i, j :: 0 <= i < j < |order| ==> order[i] != order[j])
  }

  function DeliverNext(r: Receiver, m: Message, number: uint16): Receiver {
    r.(expected := IncrementSequence(number), trace := r.trace + [Deliver(m)])
  }

  function Drain(r: Receiver): (r': Receiver)
    ensures r'.expected !in r'.queue
    ensures r'.queue.Keys <= r.queue.Keys && |r'.queue| <= |r.queue|
    ensures r.initialized == r'.initialized
    decreases |r.queue|
  {
    if r.expected in r.queue then
      var rest := r.queue - {r.expected};
      assert rest.Keys == r.queue.Keys - {r.expected};
      Drain(DeliverNext(r.(queue := rest), r.queue[r.expected], r.expected))
    else
      r
  }

  function InOrder(r: Receiver, m: Message): Receiver {
    Drain(DeliverNext(r, m, m.seqNo))
  }

  /** The running minimum of the resync scan over the queue's keys, visited in the given order. */
  function Lowest(order: seq<uint16>): (lowest: uint16)
    requires order != []
    ensures lowest in order
  {
    var n := |order| - 1;
    if n == 0 then order[0]
    else
      var lowest := Lowest(order[..n]);
      if IsSeqBefore(order[n], lowest) then order[n] else lowest
  }

  function Purge(queue: map<uint16, Message>, limit: uint16): map<uint16, Message> {
    map k | k in queue && !IsSeqBefore(k, limit) :: queue[k]
  }

  function Resync(r: Receiver, order: seq<uint16>): Receiver
    requires Enumerates(order, r.queue.Keys)
  {
    if r.queue == map[] then r
    else
      assert order != [] by { var k :| k in r.queue.Keys; assert k in order; }
      var lowest := Lowest(order);
      var queue := Purge(r.queue, lowest);
      var r1 := r.(expected := lowest, trace := r.trace + [Reset], queue := queue);
      if lowest in queue then
        InOrder(r1.(queue := queue - {lowest}), Message(lowest, queue[lowest].data))
      else
        r1
  }

  /** The number the receiver waits for, once it has adopted the first packet's number. */
  function Adopt(r: Receiver, seqNo: uint16): Receiver {
    if r.initialized then r else r.(initialized := true, expected := seqNo)
  }

  predicate IsAhead(r: Receiver, seqNo: uint16) {
    r.initialized && seqNo != r.expected && !IsSeqBefore(seqNo, r.expected)
  }

  function Enqueue(r: Receiver, m: Message): Receiver {
    r.(queue := r.queue[m.seqNo := m])
  }

  predicate ResyncDue(r: Receiver, elapsed: bool) {
    elapsed || |r.queue| > MAX_QUEUED_VIDEO_PACKETS
  }

  /** One video packet. elapsed: the last in-order video packet is older than the resync threshold. */
  function HandleVideo(r: Receiver, m: Message, elapsed: bool, order: seq<uint16>): Receiver
    requires IsAhead(r, m.seqNo) ==> Enumerates(order, r.queue.Keys + {m.seqNo})
  {
    var r1 := Adopt(r, m.seqNo);
    if m.seqNo == r1.expected then InOrder(r1, m)
    else if IsSeqBefore(m.seqNo, r1.expected) then r1
    else
      var r2 := Enqueue(r1, m);
      if ResyncDue(r2, elapsed) then Resync(r2, order) else r2
  }

  /** One packet of the other data types: no loss recovery and no cap on the queue. */
  function HandleCommand(r: Receiver, m: Message): Receiver {
    if !r.initialized || m.seqNo == r.expected then
      InOrder(r.(initialized := true), m)
    else
      var r1 := Enqueue(r, m);
      r1.(queue := Purge(r1.queue, r.expected))
  }

  // ----- Bounds that need no hypothesis on the arrivals -----

  predicate Bounded(r: Receiver) {
    && (r.initialized ==> r.expected !in r.queue)
    && (!r.initialized ==> r.queue == map[])
    && |r.queue| <= 1024
  }

  lemma {:induction false} PurgeKeepsLowest(queue: map<uint16, Message>, lowest: uint16)
    requires lowest in queue
    ensures lowest in Purge(queue, lowest)
    ensures Purge(queue, lowest).Keys <= queue.Keys && |Purge(queue, lowest)| <= |queue|
  {
    SubsetSize(Purge(queue, lowest).Keys, queue.Keys);
  }

  lemma {:induction false} SubsetSize<T>(a: set<T>, b: set<T>)
    requires a <= b
    ensures |a| <= |b|
  {
    if a != {} {
      var x :| x in a;
      SubsetSize(a - {x}, b - {x});
    }
  }

  /** Whatever packets arrive, in whatever order and with whatever timing, and however the queue is
      iterated, the awaited packet is never in the queue and the queue never exceeds its cap. */
  lemma {:induction false} HandleVideoKeepsBounded(r: Receiver, m: Message, elapsed: bool, order: seq<uint16>)
    requires Bounded(r)
    requires IsAhead(r, m.seqNo) ==> Enumerates(order, r.queue.Keys + {m.seqNo})
    ensures Bounded(HandleVideo(r, m, elapsed, order))
  {
    hide Drain, IsSeqBefore, Lowest;
    if IsAhead(r, m.seqNo) {
      var r2 := Enqueue(r, m);
      assert r2.queue.Keys == r.queue.Keys + {m.seqNo};
      assert m.seqNo in r2.queue;
      if ResyncDue(r2, elapsed) {
        var lowest := Lowest(order);
        PurgeKeepsLowest(r2.queue, lowest);
        var queue := Purge(r2.queue, lowest);
        assert (queue - {lowest}).Keys == queue.Keys - {lowest};
      }
    }
  }

  datatype VideoArrival = VideoArrival(message: Message, elapsed: bool, order: seq<uint16>)

  /** order resolves the map iteration of each arrival that could trigger a resync. */
  ghost predicate Playable(arrivals: seq<VideoArrival>)
    decreases |arrivals|, 0
  {
    arrivals == [] ||
    var n := |arrivals| - 1;
    && Playable(arrivals[..n])
    && var r := PlayVideo(arrivals[..n]);
    && (IsAhead(r, arrivals[n].message.seqNo) ==>
          Enumerates(arrivals[n].order, r.queue.Keys + {arrivals[n].message.seqNo}))
  }

  /** The receiver after a whole history of arrivals. */
  ghost function PlayVideo(arrivals: seq<VideoArrival>): Receiver
    requires Playable(arrivals)
    decreases |arrivals|, 1
  {
    if arrivals == [] then NEW_RECEIVER
    else
      var n := |arrivals| - 1;
      HandleVideo(PlayVideo(arrivals[..n]), arrivals[n].message, arrivals[n].elapsed, arrivals[n].order)
  }

  lemma {:induction false} QueueAlwaysBounded(arrivals: seq<VideoArrival>)
    requires Playable(arrivals)
    ensures Bounded(PlayVideo(arrivals))
  {
    if arrivals == [] {
    } else {
      var n := |arrivals| - 1;
      QueueAlwaysBounded(arrivals[..n]);
      HandleVideoKeepsBounded(PlayVideo(arrivals[..n]), arrivals[n].message, arrivals[n].elapsed, arrivals[n].order);
    }
  }
}
