/** End-to-end frame integrity: the reorder queue and the reassembler together emit exactly the sent
    frames that lie wholly inside one contiguous run of delivered packets. */
module FrameIntegrity {
  import opened Common
  import opened SequenceNumbers
  import opened FrameReassembly
  import opened ReorderQueue
  import opened VideoRefinement

  // ----- The sender -----

  /** A frame on the wire: a header packet carrying the first chunk, then bare continuation chunks. */
  datatype SentFrame = SentFrame(header: Header, reserved: bytes, chunks: seq<bytes>) {
    function Data(): bytes {
      Concat(chunks)
    }

    predicate WellFormed() {
      && |reserved| == 3 && chunks != []
      && ValidSize(header) && header.bytesToRead == |Data()|
      && (forall j :: 1 <= j < |chunks| ==> chunks[j] != [] && !HasHeader(chunks[j]))
    }

    function Packets(): (p: seq<bytes>)
      requires WellFormed()
      ensures |p| == |chunks|
    {
      [HeaderBytes(header, reserved) + chunks[0]] + chunks[1..]
    }
  }

  predicate AllWellFormed(frames: seq<SentFrame>) {
    forall k :: 0 <= k < |frames| ==> frames[k].WellFormed()
  }

  function Stream(frames: seq<SentFrame>): seq<bytes>
    requires AllWellFormed(frames)
  {
    if frames == [] then [] else
    var n := |frames| - 1;
    Stream(frames[..n]) + frames[n].Packets()
  }

  /** The index of the first packet of frame k. */
  function Base(frames: seq<SentFrame>, k: nat): nat
    requires k <= |frames|
  {
    if k == 0 then 0 else Base(frames, k - 1) + |frames[k - 1].chunks|
  }

  lemma {:induction false} BasePrefix(frames: seq<SentFrame>, n: nat, k: nat)
    requires k <= n <= |frames|
    ensures Base(frames[..n], k) == Base(frames, k)
  {
    if k == 0 {
    } else {
      BasePrefix(frames, n, k - 1);
    }
  }

  lemma {:induction false} StreamLength(frames: seq<SentFrame>)
    requires AllWellFormed(frames)
    ensures |Stream(frames)| == Base(frames, |frames|)
  {
    if frames == [] {
    } else {
      var n := |frames| - 1;
      StreamLength(frames[..n]);
      BasePrefix(frames, n, n);
    }
  }

  lemma {:induction false} StreamAt(frames: seq<SentFrame>, k: nat, j: nat)
    requires AllWellFormed(frames) && k < |frames| && j < |frames[k].chunks|
    ensures Base(frames, k) + j < |Stream(frames)|
    ensures Stream(frames)[Base(frames, k) + j] == frames[k].Packets()[j]
  {
    hide Concat;
    var n := |frames| - 1;
    StreamLength(frames[..n]);
    BasePrefix(frames, n, n);
    if k == n {
    } else {
      BasePrefix(frames, n, k);
      StreamAt(frames[..n], k, j);
    }
  }

  lemma {:induction false} BaseIncreases(frames: seq<SentFrame>, j: nat, k: nat)
    requires AllWellFormed(frames) && j < k <= |frames|
    ensures Base(frames, j) < Base(frames, k)
  {
    if j + 1 == k {
    } else {
      BaseIncreases(frames, j, k - 1);
    }
  }

  // ----- Delivering a range of packets to the reassembler -----

  function Apply(a: Assembler, ops: seq<Op>): Assembler {
    if ops == [] then a
    else
      var n := |ops| - 1;
      var before := Apply(a, ops[..n]);
      match ops[n]
      case Deliver(m) => Process(before, m.seqNo, m.data)
      case Reset => ResetStates(before)
  }

  lemma {:induction false} ApplyAppend(a: Assembler, xs: seq<Op>, ys: seq<Op>)
    ensures Apply(a, xs + ys) == Apply(Apply(a, xs), ys)
  {
    if ys == [] {
      assert xs + ys == xs;
    } else {
      var n := |ys| - 1;
      ApplyAppend(a, xs, ys[..n]);
      assert (xs + ys)[..|xs + ys| - 1] == xs + ys[..n];
    }
  }

  /** No sequence of packets and resets breaks the reassembly invariant. */
  lemma {:induction false} ApplyKeepsConsistent(a: Assembler, ops: seq<Op>)
    requires Consistent(a)
    ensures Consistent(Apply(a, ops)) && a.emitted <= Apply(a, ops).emitted
  {
    hide Process, ResetStates;
    if ops == [] {
    } else {
      var n := |ops| - 1;
      ApplyKeepsConsistent(a, ops[..n]);
      var before := Apply(a, ops[..n]);
      match ops[n] {
        case Deliver(m) => ProcessKeepsConsistent(before, m.seqNo, m.data);
        case Reset => ResetKeepsConsistent(before);
      }
    }
  }

  function Feed(a: Assembler, start: uint16, packets: seq<bytes>, lo: nat, hi: nat): Assembler
    requires lo <= hi <= |packets|
    decreases hi
  {
    if lo == hi then a
    else Process(Feed(a, start, packets, lo, hi - 1), Wrap(start, hi - 1), packets[hi - 1])
  }

  lemma {:induction false} FeedIsApply(a: Assembler, start: uint16, packets: seq<bytes>, lo: nat, hi: nat)
    requires lo <= hi <= |packets|
    ensures Feed(a, start, packets, lo, hi) == Apply(a, Deliveries(start, packets, lo, hi))
    decreases hi
  {
    hide Process, ResetStates;
    if lo == hi {
    } else {
      FeedIsApply(a, start, packets, lo, hi - 1);
      var ops := Deliveries(start, packets, lo, hi);
      assert ops[..|ops| - 1] == Deliveries(start, packets, lo, hi - 1);
    }
  }

  lemma {:induction false} FeedSplit(a: Assembler, start: uint16, packets: seq<bytes>, lo: nat, mid: nat, hi: nat)
    requires lo <= mid <= hi <= |packets|
    ensures Feed(a, start, packets, lo, hi) == Feed(Feed(a, start, packets, lo, mid), start, packets, mid, hi)
    decreases hi
  {
    if mid == hi {
    } else {
      FeedSplit(a, start, packets, lo, mid, hi - 1);
    }
  }

  // ----- One frame -----

  /** Continuation packets that reach an idle reassembler leave no trace. */
  lemma {:induction false} IdleSkipsTail(a: Assembler, start: uint16, frames: seq<SentFrame>, k: nat, lo: nat, hi: nat)
    requires AllWellFormed(frames) && k < |frames| && AllIdle(a)
    requires Base(frames, k) < lo <= hi <= Base(frames, k + 1) <= |Stream(frames)|
    ensures var b := Feed(a, start, Stream(frames), lo, hi); AllIdle(b) && b.emitted == a.emitted
    decreases hi
  {
    if lo == hi {
    } else {
      IdleSkipsTail(a, start, frames, k, lo, hi - 1);
      StreamAt(frames, k, hi - 1 - Base(frames, k));
    }
  }

  /** After the header packet and some continuations, the channel holds exactly the bytes sent so far. */
  ghost predicate Halfway(a: Assembler, b: Assembler, f: SentFrame, j: nat)
    requires f.WellFormed() && 1 <= j <= |f.chunks|
  {
    && b.emitted == a.emitted
    && b.lastChannel == f.header.channel
    && b.At(f.header.channel) == FrameState(Concat(f.chunks[..j]), f.header.bytesToRead, |Concat(f.chunks[..j])|, f.header)
    && (forall ch <- b.states :: ch == f.header.channel || b.states[ch].Idle())
  }

  lemma {:induction false} ChunksShort(f: SentFrame, j: nat)
    requires f.WellFormed() && 1 <= j <= |f.chunks|
    ensures j < |f.chunks| ==> |Concat(f.chunks[..j])| < |f.Data()|
    ensures |Concat(f.chunks[..j])| <= |f.Data()|
    decreases |f.chunks| - j
  {
    if j == |f.chunks| {
      assert f.chunks[..j] == f.chunks;
    } else {
      ChunksShort(f, j + 1);
      assert f.chunks[..j + 1][..j] == f.chunks[..j];
    }
  }

  lemma {:induction false} FirstChunk(f: SentFrame)
    requires f.WellFormed()
    ensures Concat(f.chunks[..1]) == f.chunks[0]
  {
    assert f.chunks[..1][..0] == [];
  }

  /** The header packet, from an idle reassembler. */
  lemma {:induction false} HeaderPacket(a: Assembler, seqNo: uint16, f: SentFrame)
    requires f.WellFormed() && AllIdle(a)
    ensures var b := Process(a, seqNo, f.Packets()[0]);
            if |f.chunks| == 1
            then AllIdle(b) && b.emitted == a.emitted + [Frame(seqNo, f.header, f.Data())]
            else Halfway(a, b, f, 1)
  {
    HeaderRoundTrip(f.header, f.reserved, f.chunks[0]);
    FirstChunk(f);
    ChunksShort(f, 1);
    if |f.chunks| == 1 {
      assert f.chunks[..1] == f.chunks;
      assert f.chunks[0][..f.header.bytesToRead] == f.chunks[0];
    }
  }

  /** A continuation packet of the open frame. */
  lemma {:induction false} ContinuationPacket(a: Assembler, b: Assembler, seqNo: uint16, f: SentFrame, j: nat)
    requires f.WellFormed() && 1 <= j < |f.chunks| && Halfway(a, b, f, j)
    ensures var c := Process(b, seqNo, f.Packets()[j]);
            if j + 1 == |f.chunks|
            then AllIdle(c) && c.emitted == a.emitted + [Frame(seqNo, f.header, f.Data())]
            else Halfway(a, c, f, j + 1)
  {
    assert f.Packets()[j] == f.chunks[j];
    assert f.chunks[..j + 1][..j] == f.chunks[..j];
    var got := Concat(f.chunks[..j + 1]);
    assert got == Concat(f.chunks[..j]) + f.chunks[j];
    ChunksShort(f, j);
    ChunksShort(f, j + 1);
    if j + 1 == |f.chunks| {
      assert f.chunks[..j + 1] == f.chunks;
      assert got[..f.header.bytesToRead] == got;
    }
  }

  lemma {:induction false} FeedFrame(a: Assembler, start: uint16, frames: seq<SentFrame>, k: nat, j: nat)
    requires AllWellFormed(frames) && k < |frames| && AllIdle(a)
    requires 1 <= j <= |frames[k].chunks| && Base(frames, k) + j <= |Stream(frames)|
    ensures var b := Feed(a, start, Stream(frames), Base(frames, k), Base(frames, k) + j);
            if j == |frames[k].chunks|
            then AllIdle(b) && b.emitted == a.emitted + [SentAs(start, frames, k)]
            else Halfway(a, b, frames[k], j)
    decreases j
  {
    hide Process;
    var at, f := Base(frames, k) + j - 1, frames[k];
    StreamAt(frames, k, j - 1);
    var before := Feed(a, start, Stream(frames), Base(frames, k), at);
    assert Feed(a, start, Stream(frames), Base(frames, k), at + 1)
        == Process(before, Wrap(start, at), f.Packets()[j - 1]);
    if j == 1 {
      HeaderPacket(a, Wrap(start, at), f);
    } else {
      FeedFrame(a, start, frames, k, j - 1);
      ContinuationPacket(a, before, Wrap(start, at), f, j - 1);
    }
  }

  // ----- One run of packets -----

  /** Frame k as the frame handler should see it: the bytes sent, with the number of its last packet. */
  function SentAs(start: uint16, frames: seq<SentFrame>, k: nat): Frame
    requires AllWellFormed(frames) && k < |frames|
  {
    Frame(Wrap(start, Base(frames, k) + |frames[k].chunks| - 1), frames[k].header, frames[k].Data())
  }

  /** The first n frames' worth of those lying wholly inside packets lo, ..., hi - 1, in sending order. */
  function Whole(start: uint16, frames: seq<SentFrame>, n: nat, lo: nat, hi: nat): seq<Frame>
    requires AllWellFormed(frames) && n <= |frames|
  {
    if n == 0 then []
    else Whole(start, frames, n - 1, lo, hi)
         + if lo <= Base(frames, n - 1) && Base(frames, n) <= hi then [SentAs(start, frames, n - 1)] else []
  }

  lemma {:induction false} NoneBefore(start: uint16, frames: seq<SentFrame>, n: nat, lo: nat, hi: nat)
    requires AllWellFormed(frames) && n <= |frames| && (n > 0 ==> Base(frames, n - 1) < lo)
    ensures Whole(start, frames, n, lo, hi) == []
  {
    if n > 1 { BaseIncreases(frames, n - 2, n - 1); }
    if n == 0 {
    } else {
      NoneBefore(start, frames, n - 1, lo, hi);
    }
  }

  lemma {:induction false} NoneAfter(start: uint16, frames: seq<SentFrame>, k: nat, n: nat, lo: nat, hi: nat)
    requires AllWellFormed(frames) && k <= n <= |frames| && (k < n ==> hi < Base(frames, k + 1))
    ensures Whole(start, frames, n, lo, hi) == Whole(start, frames, k, lo, hi)
  {
    hide SentAs;
    if k == n {
    } else {
      if k + 1 < n { BaseIncreases(frames, k + 1, n); }
      NoneAfter(start, frames, k, n - 1, lo, hi);
    }
  }

  /** A run that starts at packet lo, observed at a frame boundary: the reassembler is idle again. */
  lemma {:induction false} AtBoundary(a: Assembler, start: uint16, frames: seq<SentFrame>, n: nat, lo: nat, hi: nat)
    requires AllWellFormed(frames) && n <= |frames| && AllIdle(a)
    requires lo <= Base(frames, n) <= hi <= |Stream(frames)|
    ensures var b := Feed(a, start, Stream(frames), lo, Base(frames, n));
            AllIdle(b) && b.emitted == a.emitted + Whole(start, frames, n, lo, hi)
  {
    hide SentAs;
    hide Process;
    if n == 0 {
    } else {
      var p, from := Stream(frames), Base(frames, n - 1);
      if lo <= from {
        AtBoundary(a, start, frames, n - 1, lo, hi);
        var b := Feed(a, start, p, lo, from);
        FeedFrame(b, start, frames, n - 1, |frames[n - 1].chunks|);
        FeedSplit(a, start, p, lo, from, Base(frames, n));
        assert a.emitted + Whole(start, frames, n - 1, lo, hi) + [SentAs(start, frames, n - 1)]
            == a.emitted + (Whole(start, frames, n - 1, lo, hi) + [SentAs(start, frames, n - 1)]);
      } else {
        IdleSkipsTail(a, start, frames, n - 1, lo, Base(frames, n));
        NoneBefore(start, frames, n, lo, hi);
      }
    }
  }

  lemma {:induction false} FindFrame(frames: seq<SentFrame>, n: nat, i: nat) returns (k: nat)
    requires AllWellFormed(frames) && n <= |frames| && i <= Base(frames, n)
    ensures k <= n && Base(frames, k) <= i
    ensures k < n ==> i < Base(frames, k + 1)
  {
    if i == Base(frames, n) || n == 0 {
      k := n;
    } else if i >= Base(frames, n - 1) {
      k := n - 1;
    } else {
      k := FindFrame(frames, n - 1, i);
    }
  }

  /** From an idle reassembler, a run of packets emits exactly the frames wholly inside it. */
  lemma {:induction false} RunEmitsWholeFrames(a: Assembler, start: uint16, frames: seq<SentFrame>, lo: nat, hi: nat)
    requires AllWellFormed(frames) && AllIdle(a) && lo <= hi <= |Stream(frames)|
    ensures Feed(a, start, Stream(frames), lo, hi).emitted
         == a.emitted + Whole(start, frames, |frames|, lo, hi)
  {
    hide Process, Whole, Feed;
    StreamLength(frames);
    var k := FindFrame(frames, |frames|, hi);
    NoneAfter(start, frames, k, |frames|, lo, hi);
    if lo <= Base(frames, k) {
      AtBoundary(a, start, frames, k, lo, hi);
      if Base(frames, k) < hi { RunEndsInFrame(a, start, frames, k, lo, hi); }
    } else {
      if k + 1 < |frames| { BaseIncreases(frames, k + 1, |frames|); }
      IdleSkipsTail(a, start, frames, k, lo, hi);
      if k > 0 { BaseIncreases(frames, k - 1, k); }
      NoneBefore(start, frames, k, lo, hi);
    }
  }

  lemma {:induction false} RunEndsInFrame(a: Assembler, start: uint16, frames: seq<SentFrame>, k: nat, lo: nat, hi: nat)
    requires AllWellFormed(frames) && k < |frames| && AllIdle(a)
    requires lo <= Base(frames, k) < hi < Base(frames, k + 1) && hi <= |Stream(frames)|
    requires AllIdle(Feed(a, start, Stream(frames), lo, Base(frames, k)))
    ensures Feed(a, start, Stream(frames), lo, hi).emitted
         == Feed(a, start, Stream(frames), lo, Base(frames, k)).emitted
  {
    hide Process;
    FeedSplit(a, start, Stream(frames), lo, Base(frames, k), hi);
    FeedFrame(Feed(a, start, Stream(frames), lo, Base(frames, k)), start, frames, k, hi - Base(frames, k));
  }

  // ----- All runs -----

  /** The frames wholly inside one of the runs, run by run. */
  function WholeInRuns(start: uint16, frames: seq<SentFrame>, runs: seq<Run>): seq<Frame>
    requires AllWellFormed(frames)
  {
    if runs == [] then []
    else
      var n := |runs| - 1;
      WholeInRuns(start, frames, runs[..n]) + Whole(start, frames, |frames|, runs[n].lo, runs[n].hi)
  }

  lemma {:induction false} RunsEmit(start: uint16, frames: seq<SentFrame>, runs: seq<Run>)
    requires AllWellFormed(frames) && Within(runs, |Stream(frames)|)
    ensures var a := Apply(NEW_ASSEMBLER, TraceOf(start, Stream(frames), runs));
            Consistent(a) && a.emitted == WholeInRuns(start, frames, runs)
  {
    ApplyKeepsConsistent(NEW_ASSEMBLER, TraceOf(start, Stream(frames), runs));
    if runs == [] {
    } else {
      var n, p := |runs| - 1, Stream(frames);
      var run := runs[n];
      RunsEmit(start, frames, runs[..n]);
      var before := TraceOf(start, p, runs[..n]);
      var a := Apply(NEW_ASSEMBLER, before);
      var gap: seq<Op> := if n > 0 then [Reset] else [];
      var b := Apply(a, gap);
      assert AllIdle(b) && b.emitted == a.emitted by {
        if n > 0 {
          assert gap[..0] == [];
          assert Apply(a, []) == a;
          ResetKeepsConsistent(a);
        }
      }
      ApplyAppend(NEW_ASSEMBLER, before, gap);
      ApplyAppend(NEW_ASSEMBLER, before + gap, Deliveries(start, p, run.lo, run.hi));
      FeedIsApply(b, start, p, run.lo, run.hi);
      RunEmitsWholeFrames(b, start, frames, run.lo, run.hi);
    }
  }

  // ----- The main theorems -----

  /** The frames the client's handler has received after a history of arrivals. */
  ghost function Received(start: uint16, packets: seq<bytes>, events: seq<Event>): seq<Frame>
    requires Accepted(start, packets, events)
  {
    Apply(NEW_ASSEMBLER, Play(start, packets, events).0.trace).emitted
  }

  /** Under reordering, duplication, loss and resyncs, the delivered packets form contiguous, strictly
      increasing runs, and what comes out is exactly the frames wholly inside one run: byte-identical,
      in sending order, each at most once. */
  lemma {:induction false} FrameIntegrity(start: uint16, frames: seq<SentFrame>, events: seq<Event>)
    requires AllWellFormed(frames) && Accepted(start, Stream(frames), events)
    ensures var (r, s) := Play(start, Stream(frames), events);
            && s.Spaced() && Within(s.runs, |Stream(frames)|)
            && r.trace == TraceOf(start, Stream(frames), s.runs)
            && Received(start, Stream(frames), events) == WholeInRuns(start, frames, s.runs)
  {
    PlayRefines(start, Stream(frames), events);
    RunsEmit(start, frames, Play(start, Stream(frames), events).1.runs);
  }

  function AllSent(start: uint16, frames: seq<SentFrame>, n: nat): seq<Frame>
    requires AllWellFormed(frames) && n <= |frames|
  {
    if n == 0 then [] else AllSent(start, frames, n - 1) + [SentAs(start, frames, n - 1)]
  }

  lemma {:induction false} EverythingIsWhole(start: uint16, frames: seq<SentFrame>, n: nat)
    requires AllWellFormed(frames) && n <= |frames|
    ensures Whole(start, frames, n, 0, Base(frames, |frames|)) == AllSent(start, frames, n)
  {
    if n == 0 {
    } else {
      EverythingIsWhole(start, frames, n - 1);
      if n < |frames| { BaseIncreases(frames, n, |frames|); }
    }
  }

  /** With packet 0 first, nothing missing in the end and no resync, every frame comes out. */
  lemma {:induction false} LosslessDelivery(start: uint16, frames: seq<SentFrame>, events: seq<Event>)
    requires AllWellFormed(frames) && Accepted(start, Stream(frames), events)
    requires events != [] && events[0].index == 0
    requires forall i: nat | i < |Stream(frames)| :: Arrives(events, i)
    requires Reset !in Play(start, Stream(frames), events).0.trace
    ensures Received(start, Stream(frames), events) == AllSent(start, frames, |frames|)
  {
    var p := Stream(frames);
    var s := Play(start, p, events).1;
    PlayRefines(start, p, events);
    FirstRunStart(start, p, events);
    ResetBetweenRuns(start, p, s.runs);
    CompleteDelivery(start, p, events);
    FrameIntegrity(start, frames, events);
    StreamLength(frames);
    EverythingIsWhole(start, frames, |frames|);
    assert s.runs[..0] == [];
    assert WholeInRuns(start, frames, s.runs) == [] + Whole(start, frames, |frames|, 0, |p|);
  }

  lemma {:induction false} ResetBetweenRuns(start: uint16, packets: seq<bytes>, runs: seq<Run>)
    requires Within(runs, |packets|)
    ensures |runs| > 1 ==> Reset in TraceOf(start, packets, runs)
  {
    if |runs| > 1 {
      var n := |runs| - 1;
      var before := TraceOf(start, packets, runs[..n]);
      assert TraceOf(start, packets, runs)[|before|] == Reset;
    }
  }
}
