/** The serve loops of the stream port: their poll, re-binding and writing, for the muxed and the raw
    endpoint. */
module StreamServer {
  import opened Common
  import opened FrameWindow
  import opened RawFraming
  import opened Serving
  import opened StreamSessions
  import opened Timestamps

  /** Maps session timestamps onto one connection's timeline. */
  class PtsRemapper {
    var base: uint64
    var haveBase: bool
    var last: uint64
    var haveLast: bool

    ghost function AsRemapper(): Remapper
      reads this
    {
      Remapper(base, haveBase, last, haveLast)
    }

    constructor ()
      ensures AsRemapper() == NEW_REMAPPER
    {
      base, haveBase, last, haveLast := 0, false, 0, false;
    }

    method Remap(pts: uint64) returns (out: uint64)
      modifies this
      ensures (AsRemapper(), out) == old(AsRemapper()).Remap(pts)
    {
      hide Mod64;
      if !haveBase {
        haveBase, base := true, pts;
      }
      var pts' := pts;
      if pts' < base {
        pts' := base;
      }
      out := Mod64(pts' - base + 1000);
      if haveLast && out <= last {
        out := Mod64(last + 1);
      }
      last, haveLast := out, true;
    }

    /** Re-arms the base; the monotone clamp keeps its state. */
    method Reset()
      modifies this`haveBase
      ensures AsRemapper() == old(AsRemapper()).Reset()
    {
      haveBase := false;
    }
  }

  /** The world's source is what the registry's current session shows. */
  ghost predicate IsCurrent(s: Source, cur: StreamSession)
    reads cur
  {
    cur.nextFrameID >= 0 && cur.AsView() == s.view && cur.id == s.session
  }

  lemma {:induction false} RemapFramesNext(r: Remapper, frames: seq<TimedFrame>, i: nat)
    requires i < |frames|
    ensures var before, after := RemapFrames(r, frames[..i]), RemapFrames(r, frames[..i + 1]);
            var step := before.0.Remap(frames[i].pts);
            after == (step.0, before.1 + [step.1])
  {
    assert frames[..i + 1][..i] == frames[..i];
  }

  function Payloads(log: seq<Item>): (list: seq<bytes>)
    ensures |list| == |log|
  {
    seq(|log|, i requires 0 <= i < |log| => log[i].frame.data)
  }

  lemma {:induction false} PayloadsNext(log: seq<Item>, items: seq<Item>, i: nat)
    requires i < |items|
    ensures Payloads(log + items[..i + 1]) == Payloads(log + items[..i]) + [items[i].frame.data]
  {
  }

  /** A viewer of the muxed endpoint. */
  class MuxedConnection {
    var streamID: int
    var lastFrameID: int
    const remapper: PtsRemapper
    var muxedData: seq<bytes>
    var muxedPTS: seq<uint64>
    ghost var log: seq<Item>

    ghost predicate Valid()
      reads this
    {
      streamID >= 0 && muxedData == Payloads(log)
    }

    ghost function AsConnection(): Connection
      reads this, remapper
      requires streamID >= 0
    {
      Connection(streamID, lastFrameID, remapper.AsRemapper(), log, muxedPTS)
    }

    constructor (strm: StreamSession)
      requires strm.id >= 0
      ensures Valid() && fresh(remapper)
      ensures AsConnection() == Connection(strm.id, 0, NEW_REMAPPER, [], [])
    {
      streamID, lastFrameID, muxedData, muxedPTS, log := strm.id, 0, [], [], [];
      remapper := new PtsRemapper();
    }

    /** One tick of the poll loop. cur: the device channel's session, if there is one; s: the history behind
        it. */
    method Tick(cur: StreamSession?, ghost s: Source) returns (serving: bool)
      requires Valid() && (cur != null ==> cur.Valid() && IsCurrent(s, cur))
      modifies this, remapper
      ensures Valid() && serving == (cur != null)
      ensures AsConnection() == if cur == null then old(AsConnection()) else Serving.Tick(old(AsConnection()), s)
    {
      hide View.FramesSince, Remapper.Remap, RemapFrames, StreamSession.Valid, Payloads;
      if cur == null {
        return false;
      }
      if cur.id != streamID {
        streamID := cur.id;
        lastFrameID := 0;
        remapper.Reset();
      }
      ghost var c1 := AsConnection();
      assert c1 == Rebind(old(AsConnection()), s.session);
      var frames, nextID := cur.GetFramesSince(lastFrameID);
      lastFrameID := nextID;
      ghost var items := Items(s, frames, nextID);
      assert items[..0] == [] && log + [] == log;
      assert frames[..0] == [] && RemapFrames(c1.remapper, []) == (c1.remapper, []) by { EmptyRemap(c1.remapper); }
      for i := 0 to |frames|
        invariant streamID == c1.streamID && lastFrameID == nextID && log == c1.log
        invariant remapper.AsRemapper() == RemapFrames(c1.remapper, frames[..i]).0
        invariant muxedPTS == c1.out + RemapFrames(c1.remapper, frames[..i]).1
        invariant muxedData == Payloads(log + items[..i])
      {
        RemapFramesNext(c1.remapper, frames, i);
        PayloadsNext(log, items, i);
        var pts := remapper.Remap(frames[i].pts);
        muxedData := muxedData + [frames[i].data];
        muxedPTS := muxedPTS + [pts];
      }
      assert frames[..|frames|] == frames && items[..|frames|] == items;
      log := log + items;
      serving := true;
    }
  }

  /** A viewer of the raw endpoint: the bytes written are the records of the log's frames. */
  class RawConnection {
    var streamID: int
    var lastFrameID: int
    var wire: bytes
    ghost var log: seq<Item>

    ghost predicate Valid()
      reads this
    {
      streamID >= 0 && wire == Records(Payloads(log))
    }

    /** The connection without a timeline: the raw endpoint remaps nothing. */
    ghost function AsConnection(): Connection
      reads this
      requires streamID >= 0
    {
      Connection(streamID, lastFrameID, NEW_REMAPPER, log, [])
    }

    constructor (strm: StreamSession)
      requires strm.id >= 0
      ensures Valid() && AsConnection() == Connection(strm.id, 0, NEW_REMAPPER, [], [])
    {
      streamID, lastFrameID, wire, log := strm.id, 0, [], [];
    }

    method WriteFrame(data: bytes)
      modifies this`wire
      ensures wire == old(wire) + Record(data)
    {
      var hdr := EncodeU32(|data| % 0x1_0000_0000);
      wire := wire + hdr;
      wire := wire + data;
    }

    /** One tick of the poll loop: the same session, position and frames as on the muxed endpoint. */
    method Tick(cur: StreamSession?, ghost s: Source) returns (serving: bool)
      requires Valid() && (cur != null ==> cur.Valid() && IsCurrent(s, cur))
      modifies this
      ensures Valid() && serving == (cur != null) && old(wire) <= wire
      ensures var c := if cur == null then old(AsConnection()) else Serving.Tick(old(AsConnection()), s);
              streamID == c.streamID && lastFrameID == c.lastFrameID && log == c.log
    {
      hide View.FramesSince, RemapFrames, StreamSession.Valid, Records, Record;
      if cur == null {
        return false;
      }
      if cur.id != streamID {
        streamID := cur.id;
        lastFrameID := 0;
      }
      ghost var c1 := AsConnection();
      var frames, nextID := cur.GetFramesSince(lastFrameID);
      lastFrameID := nextID;
      ghost var items := Items(s, frames, nextID);
      assert items[..0] == [] && log + [] == log;
      for i := 0 to |frames|
        invariant streamID == c1.streamID && lastFrameID == nextID && log == c1.log
        invariant old(wire) <= wire && wire == Records(Payloads(log + items[..i]))
      {
        RecordsSnoc(Payloads(log + items[..i]), frames[i].data);
        PayloadsNext(log, items, i);
        WriteFrame(frames[i].data);
      }
      assert items[..|frames|] == items;
      log := log + items;
      serving := true;
    }
  }

  /** A raw viewer's page holds, at every moment, a prefix of the frames written to it, each whole and in
      order; once every byte has arrived it holds them all. */
  lemma {:induction false} RawDelivery(log: seq<Item>, chunks: seq<bytes>)
    requires AllFrameable(Payloads(log)) && Concat(chunks) <= Records(Payloads(log))
    ensures var p := Feed(chunks);
            && p.dropped == 0 && p.units <= Payloads(log)
            && (Concat(chunks) == Records(Payloads(log)) ==> p.units == Payloads(log) && p.rest == [])
  {
    hide Feed, Records, Frameable;
    FeedPrefix(Payloads(log), chunks);
  }
}
