/** A stream session: its methods keep the frame window, the frame IDs and the cached keyframe index in
    agreement while frames arrive, the buffer is cleared and clients poll. */
module StreamSessions {
  import opened Common
  import opened FrameWindow
  import opened KeyframeScan
  import opened Timestamps

  datatype Metadata = Metadata(isKeyFrame: bool, streamType: byte, videoFPS: uint16, videoTimestamp: uint64)

  /** Codec numbers of a session: 0 unknown, 1 H.264, 2 H.265. sniffed is what inspecting the frame yields
      (0 H.264, 1 H.265, anything else unknown); it is consulted only for other stream types. */
  function DetectCodec(codec: int, streamType: byte, sniffed: int): int {
    if codec != 0 then codec
    else if streamType == 0 then 1
    else if streamType == 1 then 2
    else if sniffed == 1 then 2
    else if sniffed == 0 then 1
    else 0
  }

  /** The library search over ascending IDs: the first index whose ID is at least x. */
  method SearchInts(ids: seq<int>, x: int) returns (at: nat)
    requires forall i, j :: 0 <= i < j < |ids| ==> ids[i] < ids[j]
    ensures at <= |ids|
    ensures forall i :: 0 <= i < at ==> ids[i] < x
    ensures forall i :: at <= i < |ids| ==> ids[i] >= x
  {
    var lo, hi := 0, |ids|;
    while lo < hi
      invariant 0 <= lo <= hi <= |ids|
      invariant forall i :: 0 <= i < lo ==> ids[i] < x
      invariant forall i :: hi <= i < |ids| ==> ids[i] >= x
    {
      var mid := (lo + hi) / 2;
      if ids[mid] < x { lo := mid + 1; } else { hi := mid; }
    }
    at := lo;
  }

  method ContainsStartCode(data: bytes) returns (found: bool)
    ensures found <==> HoldsStartCode(data)
  {
    var at := IndexStartCode(data, 0);
    return |data| > 0 && at >= 0;
  }

  /** Over contiguous IDs the binary search is a clamped subtraction. */
  lemma {:induction false} SearchIsSubtraction(v: View, ids: seq<int>, sinceID: int, at: nat)
    requires |ids| == |v.buffer| && forall i :: 0 <= i < |ids| ==> ids[i] == v.IDAt(i)
    requires at <= |ids|
    requires forall i :: 0 <= i < at ==> ids[i] < sinceID + 1
    requires forall i :: at <= i < |ids| ==> ids[i] >= sinceID + 1
    ensures at == v.IndexAfter(sinceID)
  {
    assert at > 0 ==> ids[at - 1] == v.IDAt(at - 1);
    assert at < |ids| ==> ids[at] == v.IDAt(at);
    assert |ids| > 0 ==> ids[0] == v.IDAt(0) && ids[|ids| - 1] == v.IDAt(|ids| - 1);
  }

  class StreamSession {
    const id: int
    var codec: int
    var frameBuffer: seq<TimedFrame>
    var frameIDs: seq<int>
    var nextFrameID: int
    var lastKeyFrameIdx: int
    var hasPTS: bool
    var lastRawPTS: uint64
    var lastPTS: uint64
    var ptsOffset: uint64
    var badFrames: nat
    var seenValidFrame: bool
    var everHadFrame: bool
    var awaitKeyframe: bool

    /** Every frame ever buffered, and the camera timestamps they came with. */
    ghost var history: seq<TimedFrame>
    ghost var stamps: seq<Stamp>

    /** The IDs are the contiguous range ending at nextFrameID, and the cached index is the last keyframe's. */
    ghost predicate Valid()
      reads this
    {
      && 0 <= |frameIDs| == |frameBuffer| <= nextFrameID
      && (forall i :: 0 <= i < |frameIDs| ==> frameIDs[i] == nextFrameID - |frameIDs| + 1 + i)
      && lastKeyFrameIdx == LastKeyIndex(frameBuffer)
      && Fits(frameBuffer)
    }

    ghost function AsView(): View
      reads this
      requires nextFrameID >= 0
    {
      View(frameBuffer, nextFrameID)
    }

    ghost function AsClock(): Clock
      reads this
    {
      Clock(hasPTS, lastRawPTS, lastPTS, ptsOffset)
    }

    /** The buffer is the end of the history, and every frame carries the rebased timestamp of the camera's. */
    ghost predicate Recorded()
      reads this
    {
      nextFrameID >= 0 && Chronicle(history, stamps, AsView(), AsClock())
    }

    constructor (id: int, codec: int)
      ensures Valid() && Recorded() && this.id == id && this.codec == codec
      ensures history == [] && stamps == []
      ensures AsView() == NEW_VIEW && AsClock() == NEW_CLOCK && !seenValidFrame && badFrames == 0 && awaitKeyframe
    {
      this.id, this.codec := id, codec;
      frameBuffer, frameIDs, nextFrameID, lastKeyFrameIdx := [], [], 0, -1;
      hasPTS, lastRawPTS, lastPTS, ptsOffset := false, 0, 0, 0;
      badFrames, seenValidFrame, everHadFrame, awaitKeyframe := 0, false, false, true;
      history, stamps := [], [];
    }

    method RebasePTS(metadata: Metadata) returns (pts: uint64)
      modifies this`hasPTS, this`lastRawPTS, this`lastPTS, this`ptsOffset
      ensures (AsClock(), pts) == Rebase(old(AsClock()), metadata.videoTimestamp, metadata.videoFPS)
    {
      hide Mod64;
      var step: uint64 := 33;
      if 0 < metadata.videoFPS <= 120 {
        var v := 1000 / metadata.videoFPS;
        if v > 0 { step := v; }
      }
      var raw := metadata.videoTimestamp;
      if !hasPTS {
        hasPTS, lastRawPTS, lastPTS, ptsOffset := true, raw, FIRST_PTS, Mod64(FIRST_PTS - raw);
        return FIRST_PTS;
      }
      var delta := ToInt64(ToInt64(raw) - ToInt64(lastRawPTS));
      if delta <= 0 || delta > MAX_PTS_JUMP_MS {
        ptsOffset := Mod64(lastPTS + step - raw);
      }
      pts := Mod64(raw + ptsOffset);
      lastPTS, lastRawPTS := pts, raw;
    }

    /** Rescans the buffer for its last keyframe. */
    method RecalcKeyFrameIdx()
      modifies this`lastKeyFrameIdx
      ensures lastKeyFrameIdx == LastKeyIndex(frameBuffer)
    {
      lastKeyFrameIdx := -1;
      for i := 0 to |frameBuffer|
        invariant lastKeyFrameIdx == LastKeyIndex(frameBuffer[..i])
      {
        assert frameBuffer[..i + 1][..i] == frameBuffer[..i];
        if frameBuffer[i].isKeyFrame {
          lastKeyFrameIdx := i;
        }
      }
      assert frameBuffer[..|frameBuffer|] == frameBuffer;
    }

    /** How many of the oldest frames the byte limit costs. */
    method BytesToDrop() returns (dropped: nat)
      ensures dropped <= |frameBuffer|
      ensures TotalBytes(frameBuffer[dropped..]) <= MAX_BUFFER_BYTES
      ensures dropped > 0 ==> TotalBytes(frameBuffer[dropped - 1..]) > MAX_BUFFER_BYTES
    {
      var totalBytes := 0;
      for i := |frameBuffer| downto 0
        invariant totalBytes == TotalBytes(frameBuffer[i..]) <= MAX_BUFFER_BYTES
      {
        assert frameBuffer[i..][1..] == frameBuffer[i + 1..];
        totalBytes := totalBytes + |frameBuffer[i].data|;
        if totalBytes > MAX_BUFFER_BYTES {
          return i + 1;
        }
      }
      return 0;
    }

    method DropOldest(count: nat)
      requires count <= |frameBuffer| == |frameIDs|
      modifies this`frameBuffer, this`frameIDs, this`lastKeyFrameIdx
      ensures frameBuffer == old(frameBuffer)[count..] && frameIDs == old(frameIDs)[count..]
      ensures lastKeyFrameIdx == LastKeyIndex(frameBuffer)
    {
      frameBuffer := frameBuffer[count..];
      frameIDs := frameIDs[count..];
      RecalcKeyFrameIdx();
    }

    /** Trims the buffer to the longest suffix within both limits. */
    method TrimBuffer()
      requires |frameBuffer| == |frameIDs| && lastKeyFrameIdx == LastKeyIndex(frameBuffer)
      modifies this`frameBuffer, this`frameIDs, this`lastKeyFrameIdx
      ensures frameBuffer == Window(old(frameBuffer)) && |frameBuffer| == |frameIDs|
      ensures frameIDs == old(frameIDs)[|old(frameIDs)| - |frameIDs|..]
      ensures lastKeyFrameIdx == LastKeyIndex(frameBuffer)
    {
      hide TotalBytes, Window, LastKeyIndex;
      ghost var all := frameBuffer;
      var dropped := BytesToDrop();
      if dropped > 0 {
        DropOldest(dropped);
      }
      ghost var k: nat := dropped;
      if |frameBuffer| > MAX_FRAMES {
        var dropCount := |frameBuffer| - MAX_FRAMES;
        k := dropped + dropCount;
        DropOldest(dropCount);
      }
      assert frameBuffer == all[k..];
      assert frameIDs == old(frameIDs)[k..];
      TwoCutsAreWindow(all, dropped, k);
    }

    method UpdateCodec(streamType: byte, sniffed: int)
      modifies this`codec
      ensures codec == DetectCodec(old(codec), streamType, sniffed)
    {
      if codec == 0 {
        if streamType == 0 { codec := 1; }
        else if streamType == 1 { codec := 2; }
        else if sniffed == 1 { codec := 2; }
        else if sniffed == 0 { codec := 1; }
      }
    }

    /** Buffers one frame under the next ID. */
    method PushFrame(frame: TimedFrame)
      requires Valid()
      modifies this`nextFrameID, this`frameBuffer, this`frameIDs, this`lastKeyFrameIdx, this`awaitKeyframe
      ensures Valid() && AsView() == old(AsView()).Append(frame)
      ensures awaitKeyframe == (old(awaitKeyframe) && !frame.isKeyFrame)
    {
      hide TotalBytes, Window, LastKeyIndex, Fits;
      WindowIsLongest(frameBuffer + [frame]);
      LastKeyAppend(frameBuffer, frame);
      nextFrameID := nextFrameID + 1;
      frameBuffer := frameBuffer + [frame];
      frameIDs := frameIDs + [nextFrameID];
      if frame.isKeyFrame {
        lastKeyFrameIdx := |frameBuffer| - 1;
        awaitKeyframe := false;
      }
      TrimBuffer();
    }

    /** Rebases the timestamp, decides whether the frame is a keyframe and buffers it. */
    method BufferFrame(frameData: bytes, metadata: Metadata)
      requires Valid() && Recorded()
      modifies this`hasPTS, this`lastRawPTS, this`lastPTS, this`ptsOffset, this`nextFrameID, this`frameBuffer,
               this`frameIDs, this`lastKeyFrameIdx, this`awaitKeyframe, this`history, this`stamps
      ensures Valid() && Recorded()
      ensures var (clock, pts) := Rebase(old(AsClock()), metadata.videoTimestamp, metadata.videoFPS);
              var isKey := metadata.isKeyFrame || HoldsKeyframe(frameData, codec);
              && AsClock() == clock && AsView() == old(AsView()).Append(TimedFrame(frameData, pts, isKey))
              && awaitKeyframe == (old(awaitKeyframe) && !isKey)
              && history == old(history) + [TimedFrame(frameData, pts, isKey)]
              && stamps == old(stamps) + [Stamp(metadata.videoTimestamp, metadata.videoFPS)]
    {
      hide Rebase, HoldsKeyframe, Fits, LastKeyIndex, Chronicle, View.Append;
      var pts := RebasePTS(metadata);
      var keyBits := IsKeyframeBitstream(frameData, codec);
      var isKey := metadata.isKeyFrame || keyBits;
      PushFrame(TimedFrame(frameData, pts, isKey));
      ghost var stamp := Stamp(metadata.videoTimestamp, metadata.videoFPS);
      ChronicleNext(history, stamps, old(AsView()), old(AsClock()), TimedFrame(frameData, pts, isKey), stamp);
      history, stamps := history + [TimedFrame(frameData, pts, isKey)], stamps + [stamp];
    }

    /** One frame from the camera. sniffed: the codec an inspection of the frame would yield. */
    method AppendFrame(frameData: bytes, metadata: Metadata, sniffed: int)
      requires Valid() && Recorded()
      modifies this
      ensures Valid() && Recorded() && everHadFrame
      ensures (old(seenValidFrame) && !HoldsStartCode(frameData)) ==>
                AsView() == old(AsView()) && AsClock() == old(AsClock()) && badFrames == old(badFrames) + 1
                && codec == old(codec) && seenValidFrame && awaitKeyframe == old(awaitKeyframe)
                && history == old(history) && stamps == old(stamps)
      ensures !(old(seenValidFrame) && !HoldsStartCode(frameData)) && frameData == [] ==>
                AsView() == old(AsView()) && AsClock() == old(AsClock()) && badFrames == old(badFrames)
                && codec == old(codec) && seenValidFrame == old(seenValidFrame) && awaitKeyframe == old(awaitKeyframe)
                && history == old(history) && stamps == old(stamps)
      ensures !(old(seenValidFrame) && !HoldsStartCode(frameData)) && frameData != [] ==>
                var (clock, pts) := Rebase(old(AsClock()), metadata.videoTimestamp, metadata.videoFPS);
                var isKey := metadata.isKeyFrame || HoldsKeyframe(frameData, codec);
                && AsClock() == clock
                && AsView() == old(AsView()).Append(TimedFrame(frameData, pts, isKey))
                && history == old(history) + [TimedFrame(frameData, pts, isKey)]
                && stamps == old(stamps) + [Stamp(metadata.videoTimestamp, metadata.videoFPS)]
                && badFrames == 0 && seenValidFrame == (old(seenValidFrame) || HoldsStartCode(frameData))
                && awaitKeyframe == (old(awaitKeyframe) && !isKey)
      // The codec, from what the camera says of its stream.
      ensures !(old(seenValidFrame) && !HoldsStartCode(frameData)) && frameData != [] ==>
                && (old(codec) != 0 ==> codec == old(codec))
                && (old(codec) == 0 && metadata.streamType == 0 ==> codec == 1)
                && (old(codec) == 0 && metadata.streamType == 1 ==> codec == 2)
                && (old(codec) == 0 && metadata.streamType > 1 ==> codec == if sniffed == 1 then 2 else if sniffed == 0 then 1 else 0)
    {
      hide Rebase, HoldsKeyframe, HoldsStartCode, Fits, Window, LastKeyIndex, Chronicle, View.Append;
      everHadFrame := true;
      var hasStartCode := ContainsStartCode(frameData);
      if seenValidFrame && !hasStartCode {
        badFrames := badFrames + 1;
        return;
      }
      if |frameData| == 0 {
        return;
      }
      badFrames := 0;
      if hasStartCode {
        seenValidFrame := true;
      }
      UpdateCodec(metadata.streamType, sniffed);
      BufferFrame(frameData, metadata);
    }

    /** The frames after sinceID, or from the last keyframe if that is later; none before a keyframe. */
    method GetFramesSince(sinceID: int) returns (frames: seq<TimedFrame>, nextID: int)
      requires Valid()
      ensures (frames, nextID) == AsView().FramesSince(sinceID)
    {
      if |frameBuffer| == 0 {
        return [], sinceID;
      }
      if lastKeyFrameIdx < 0 {
        return [], sinceID;
      }
      var startIdx := 0;
      if sinceID > 0 {
        var idx := SearchInts(frameIDs, sinceID + 1);
        SearchIsSubtraction(AsView(), frameIDs, sinceID, idx);
        if lastKeyFrameIdx >= 0 && idx < lastKeyFrameIdx {
          idx := lastKeyFrameIdx;
        }
        startIdx := idx;
      } else if lastKeyFrameIdx >= 0 {
        startIdx := lastKeyFrameIdx;
      }
      if startIdx >= |frameBuffer| {
        assert frameBuffer[startIdx..] == [];
        return [], nextFrameID;
      }
      return frameBuffer[startIdx..], nextFrameID;
    }

    method ClearBuffer()
      requires Valid()
      modifies this`frameBuffer, this`frameIDs, this`lastKeyFrameIdx, this`awaitKeyframe
      ensures Valid() && AsView() == old(AsView()).Clear() && awaitKeyframe
      ensures old(Recorded()) ==> Recorded()
    {
      frameBuffer := frameBuffer[..0];
      frameIDs := frameIDs[..0];
      lastKeyFrameIdx := -1;
      awaitKeyframe := true;
    }
  }
}
