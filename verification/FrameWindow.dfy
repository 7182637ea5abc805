/** The bounded frame window of a session and what a poll is served from it. */
module FrameWindow {
  import opened Common
  import opened Timestamps

  const MAX_FRAMES := 600
  const MAX_BUFFER_BYTES := 24 * 1024 * 1024

  datatype TimedFrame = TimedFrame(data: bytes, pts: uint64, isKeyFrame: bool)

  function TotalBytes(frames: seq<TimedFrame>): nat {
    if frames == [] then 0 else |frames[0].data| + TotalBytes(frames[1..])
  }

  predicate Fits(frames: seq<TimedFrame>) {
    |frames| <= MAX_FRAMES && TotalBytes(frames) <= MAX_BUFFER_BYTES
  }

  /** Drops the oldest frames until the rest fits. */
  function Window(frames: seq<TimedFrame>): (w: seq<TimedFrame>)
    ensures |w| <= |frames| && w == frames[|frames| - |w|..]
  {
    if Fits(frames) then frames else Window(frames[1..])
  }

  lemma {:induction false} SuffixBytes(frames: seq<TimedFrame>, k: nat)
    requires k <= |frames|
    ensures TotalBytes(frames[k..]) <= TotalBytes(frames)
  {
    if k == 0 {
    } else {
      assert frames[1..][k - 1..] == frames[k..];
      SuffixBytes(frames[1..], k - 1);
    }
  }

  /** The window is the longest suffix within both limits. */
  lemma {:induction false} WindowIsLongest(frames: seq<TimedFrame>)
    ensures Fits(Window(frames))
    ensures forall k :: 0 <= k < |frames| - |Window(frames)| ==> !Fits(frames[k..])
  {
    if Fits(frames) {
    } else {
      WindowIsLongest(frames[1..]);
      forall k | 0 <= k < |frames| - |Window(frames)| ensures !Fits(frames[k..]) {
        assert k > 0 ==> frames[1..][k - 1..] == frames[k..];
        assert frames[0..] == frames;
      }
    }
  }

  /** A fitting suffix that cannot be extended is the window. */
  lemma {:induction false} WindowAt(frames: seq<TimedFrame>, k: nat)
    requires k <= |frames| && Fits(frames[k..])
    requires k > 0 ==> !Fits(frames[k - 1..])
    ensures Window(frames) == frames[k..]
    decreases k
  {
    if k == 0 {
      assert frames[0..] == frames;
    } else {
      SuffixBytes(frames, k - 1);
      assert !Fits(frames);
      assert frames[1..][k - 1..] == frames[k..];
      assert k > 1 ==> frames[1..][k - 2..] == frames[k - 1..];
      WindowAt(frames[1..], k - 1);
    }
  }

  /** Trimming by bytes from the newest frame, then by count, gives the window. */
  lemma {:induction false} TwoCutsAreWindow(frames: seq<TimedFrame>, dropped: nat, k: nat)
    requires dropped <= k <= |frames|
    requires TotalBytes(frames[dropped..]) <= MAX_BUFFER_BYTES
    requires dropped > 0 ==> TotalBytes(frames[dropped - 1..]) > MAX_BUFFER_BYTES
    requires k == if |frames| - dropped > MAX_FRAMES then |frames| - MAX_FRAMES else dropped
    ensures Window(frames) == frames[k..]
  {
    assert frames[dropped..][k - dropped..] == frames[k..];
    SuffixBytes(frames[dropped..], k - dropped);
    WindowAt(frames, k);
  }

  /** The index of the last keyframe, or -1. */
  function LastKeyIndex(frames: seq<TimedFrame>): (i: int)
    ensures -1 <= i < |frames|
    ensures i >= 0 ==> frames[i].isKeyFrame
  {
    if frames == [] then -1
    else
      var n := |frames| - 1;
      if frames[n].isKeyFrame then n else LastKeyIndex(frames[..n])
  }

  lemma {:induction false} LastKeyAppend(frames: seq<TimedFrame>, frame: TimedFrame)
    ensures LastKeyIndex(frames + [frame]) == if frame.isKeyFrame then |frames| else LastKeyIndex(frames)
  {
    assert (frames + [frame])[..|frames|] == frames;
  }

  lemma {:induction false} NoKeyAfterLast(frames: seq<TimedFrame>, j: nat)
    requires LastKeyIndex(frames) < j < |frames|
    ensures !frames[j].isKeyFrame
  {
    var n := |frames| - 1;
    if j == n {
    } else {
      NoKeyAfterLast(frames[..n], j);
    }
  }

  // ----- The frames a session has ever buffered -----

  /** Each frame carries the rebased timestamp of the camera's. */
  predicate IsRebased(history: seq<TimedFrame>, stamps: seq<Stamp>) {
    |history| == |stamps| && forall i :: 0 <= i < |history| ==> history[i].pts == OutputAt(stamps, i)
  }

  lemma {:induction false} RebasedNext(history: seq<TimedFrame>, stamps: seq<Stamp>, frame: TimedFrame, stamp: Stamp)
    requires IsRebased(history, stamps)
    requires frame.pts == Rebase(ClockAfter(stamps), stamp.raw, stamp.fps).1
    ensures IsRebased(history + [frame], stamps + [stamp])
    ensures ClockAfter(stamps + [stamp]) == Rebase(ClockAfter(stamps), stamp.raw, stamp.fps).0
  {
    hide Rebase;
    var after := stamps + [stamp];
    assert after[..|stamps|] == stamps;
    forall i | 0 <= i < |after| ensures (history + [frame])[i].pts == OutputAt(after, i) {
      assert i < |stamps| ==> after[..i] == stamps[..i];
    }
  }

  /** The buffer is the end of the history, whose frames carry the rebased timestamps of the camera's. */
  predicate Chronicle(history: seq<TimedFrame>, stamps: seq<Stamp>, v: View, c: Clock) {
    && |stamps| == |history| == v.nextFrameID && v.Sane()
    && v.buffer == history[v.nextFrameID - |v.buffer|..]
    && c == ClockAfter(stamps) && IsRebased(history, stamps)
  }

  lemma {:induction false} ChronicleNext(history: seq<TimedFrame>, stamps: seq<Stamp>, v: View, c: Clock,
                                       frame: TimedFrame, stamp: Stamp)
    requires Chronicle(history, stamps, v, c) && frame.pts == Rebase(c, stamp.raw, stamp.fps).1
    ensures Chronicle(history + [frame], stamps + [stamp], v.Append(frame), Rebase(c, stamp.raw, stamp.fps).0)
  {
    hide Rebase, Window, IsRebased, ClockAfter;
    RebasedNext(history, stamps, frame, stamp);
    assert v.buffer + [frame] == (history + [frame])[|history| - |v.buffer|..];
  }

  // ----- Serving a poll -----

  /** A session as its viewers see it: the buffered frames, the newest of which has the given ID. */
  datatype View = View(buffer: seq<TimedFrame>, nextFrameID: nat) {
    predicate Sane() {
      |buffer| <= nextFrameID
    }

    /** The ID of buffered frame i. */
    function IDAt(i: nat): int {
      nextFrameID - |buffer| + 1 + i
    }

    function Append(frame: TimedFrame): View {
      View(Window(buffer + [frame]), nextFrameID + 1)
    }

    function Clear(): View {
      View([], nextFrameID)
    }

    /** The first buffered frame with an ID past sinceID. */
    function IndexAfter(sinceID: int): (i: nat)
      ensures i <= |buffer|
    {
      var i := sinceID + 1 - IDAt(0);
      if i < 0 then 0 else if i > |buffer| then |buffer| else i
    }

    /** Where serving a client that has seen sinceID starts. */
    function StartIndex(sinceID: int): nat
      requires LastKeyIndex(buffer) >= 0
    {
      var lastKey := LastKeyIndex(buffer);
      if sinceID > 0 && IndexAfter(sinceID) >= lastKey then IndexAfter(sinceID) else lastKey
    }

    /** The frames served to a client that has seen sinceID, and the ID to ask with next. */
    function FramesSince(sinceID: int): (seq<TimedFrame>, int) {
      if buffer == [] || LastKeyIndex(buffer) < 0 then ([], sinceID)
      else (buffer[StartIndex(sinceID)..], nextFrameID)
    }
  }

  const NEW_VIEW := View([], 0)

  lemma {:induction false} KeyBeforeLast(frames: seq<TimedFrame>, j: nat)
    requires j < |frames| && frames[j].isKeyFrame
    ensures j <= LastKeyIndex(frames)
  {
    if j > LastKeyIndex(frames) { NoKeyAfterLast(frames, j); }
  }

  /** Frame k is what a client that has seen sinceID is still to be served: it is newer, and no keyframe lies
      behind it that would let the client skip it. */
  ghost predicate IsDue(v: View, sinceID: int, k: nat)
    requires k < |v.buffer|
  {
    && v.nextFrameID - |v.buffer| + 1 + k > sinceID
    && (exists j :: 0 <= j <= k && v.buffer[j].isKeyFrame)
    && (forall j :: k < j < |v.buffer| ==> !v.buffer[j].isKeyFrame)
  }

  lemma {:induction false} DueFromStart(v: View, sinceID: int, k: nat)
    requires v.Sane() && LastKeyIndex(v.buffer) >= 0 && k < |v.buffer|
    ensures k >= v.StartIndex(sinceID) <==> IsDue(v, sinceID, k)
  {
    var lastKey := LastKeyIndex(v.buffer);
    forall j: nat | j < |v.buffer| && v.buffer[j].isKeyFrame ensures j <= lastKey { KeyBeforeLast(v.buffer, j); }
    assert v.buffer[lastKey].isKeyFrame;
    hide LastKeyIndex;
  }

  /** What a poll serves, whatever the client asks for: exactly the frames due, which end the buffer; and the
      newest ID, unless the buffer holds no keyframe. */
  lemma {:induction false} ServedExactly(v: View, sinceID: int)
    requires v.Sane()
    ensures var (frames, next) := v.FramesSince(sinceID);
            && |frames| <= |v.buffer| && frames == v.buffer[|v.buffer| - |frames|..]
            && (forall k: nat :: k < |v.buffer| ==> (k >= |v.buffer| - |frames| <==> IsDue(v, sinceID, k)))
            && next == if exists j :: 0 <= j < |v.buffer| && v.buffer[j].isKeyFrame then v.nextFrameID else sinceID
  {
    var lastKey := LastKeyIndex(v.buffer);
    forall j: nat | j < |v.buffer| && v.buffer[j].isKeyFrame ensures j <= lastKey { KeyBeforeLast(v.buffer, j); }
    if lastKey < 0 {
    } else {
      assert v.buffer[lastKey].isKeyFrame;
      hide LastKeyIndex, IsDue;
      var (frames, next) := v.FramesSince(sinceID);
      forall k: nat | k < |v.buffer| ensures k >= |v.buffer| - |frames| <==> IsDue(v, sinceID, k) {
        DueFromStart(v, sinceID, k);
      }
    }
  }

  /** No stretch served starts before a buffered keyframe. */
  lemma {:induction false} NoKeyframeIsPassedOver(v: View, sinceID: int, k: nat)
    requires v.Sane() && k < |v.buffer| && v.buffer[k].isKeyFrame && v.FramesSince(sinceID).0 != []
    ensures k <= |v.buffer| - |v.FramesSince(sinceID).0|
  {
    ServedExactly(v, sinceID);
    hide View.FramesSince;
    var first: nat := |v.buffer| - |v.FramesSince(sinceID).0|;
    assert IsDue(v, sinceID, first);
  }

  // ----- Limits in numbers -----

  function Payload(frames: seq<TimedFrame>): (data: seq<bytes>)
    ensures |data| == |frames|
  {
    seq(|frames|, i requires 0 <= i < |frames| => frames[i].data)
  }

  lemma {:induction false} ConcatCons(x: bytes, parts: seq<bytes>)
    ensures Concat([x] + parts) == x + Concat(parts)
  {
    ConcatAppend([x], parts);
    assert [x][..0] == [];
  }

  lemma {:induction false} TotalIsLength(frames: seq<TimedFrame>)
    ensures TotalBytes(frames) == |Concat(Payload(frames))|
  {
    if frames == [] {
    } else {
      TotalIsLength(frames[1..]);
      ConcatCons(frames[0].data, Payload(frames[1..]));
      assert Payload(frames) == [frames[0].data] + Payload(frames[1..]);
    }
  }

  /** The window in numbers: the longest run of newest frames with at most 600 of them and at most 25165824
      bytes in all. */
  lemma {:induction false} WindowInNumbers(frames: seq<TimedFrame>)
    ensures var w := Window(frames);
            && |w| <= |frames| && w == frames[|frames| - |w|..]
            && |w| <= 600 && |Concat(Payload(w))| <= 25_165_824
            && forall k :: 0 <= k < |frames| - |w| ==> |frames| - k > 600 || |Concat(Payload(frames[k..]))| > 25_165_824
  {
    WindowIsLongest(frames);
    var w := Window(frames);
    TotalIsLength(w);
    forall k | 0 <= k < |frames| - |w| ensures |frames| - k > 600 || |Concat(Payload(frames[k..]))| > 25_165_824 {
      assert !Fits(frames[k..]);
      TotalIsLength(frames[k..]);
    }
  }
}
