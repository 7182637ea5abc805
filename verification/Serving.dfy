/** Serving one viewer while frames arrive, the buffer is cleared and the session is replaced, in any
    interleaving: what the viewer is sent is always decodable, and its timestamps always increase. */
module Serving {
  import opened Common
  import opened FrameWindow
  import opened Timestamps

  /** A frame written to the viewer: the session and its number, counted from the last clear's epoch. */
  datatype Item = Item(session: nat, epoch: nat, id: int, frame: TimedFrame)

  /** The viewer's connection: the session it is bound to, the last ID it was told, its remapper, and
      what has been written to it, with the timestamps the muxer was given. */
  datatype Connection = Connection(streamID: nat, lastFrameID: int, remapper: Remapper, log: seq<Item>,
        out: seq<uint64>)

  /** The current session, how often a buffer was cleared, the newest ID at the last clear, and every
      frame ever appended, by session. */
  datatype Source = Source(view: View, session: nat, epoch: nat, epochStart: nat, histories: seq<seq<TimedFrame>>)

  datatype World = World(source: Source, viewer: Connection)

  /** Replace: the session gives way to a new one; gap other device channels have taken IDs in between. */
  datatype Event = Append(frame: TimedFrame) | Clear | Replace(gap: nat) | Poll

  /** Before any frame and any poll. A viewer that connects later is one whose first poll comes later: bound
      to the session it finds, no last ID, a new remapper. */
  const INITIAL := World(Source(NEW_VIEW, 0, 0, 0, [[]]), Connection(0, 0, NEW_REMAPPER, [], []))

  function Items(s: Source, frames: seq<TimedFrame>, nextID: int): (items: seq<Item>)
    ensures |items| == |frames|
  {
    seq(|frames|, i requires 0 <= i < |frames| => Item(s.session, s.epoch, nextID - |frames| + 1 + i, frames[i]))
  }

  /** The timestamps given to the muxer for these frames. */
  function RemapFrames(r: Remapper, frames: seq<TimedFrame>): (x: (Remapper, seq<uint64>))
    ensures |x.1| == |frames|
  {
    if frames == [] then (r, [])
    else
      var n := |frames| - 1;
      var (r1, out) := RemapFrames(r, frames[..n]);
      var (r2, t) := r1.Remap(frames[n].pts);
      (r2, out + [t])
  }

  /** A viewer that finds its session replaced starts over on the new one. */
  function Rebind(c: Connection, session: nat): Connection {
    if c.streamID == session then c
    else c.(streamID := session, lastFrameID := 0, remapper := c.remapper.Reset())
  }

  /** Writes the frames of one poll. */
  function Write(c: Connection, s: Source, frames: seq<TimedFrame>, nextID: int): Connection {
    var (remapper, out) := RemapFrames(c.remapper, frames);
    Connection(c.streamID, nextID, remapper, c.log + Items(s, frames, nextID), c.out + out)
  }

  function Tick(c: Connection, s: Source): Connection {
    var c1 := Rebind(c, s.session);
    var (frames, nextID) := s.view.FramesSince(c1.lastFrameID);
    Write(c1, s, frames, nextID)
  }

  function Change(s: Source, ev: Event): Source
    requires !ev.Poll? && s.session < |s.histories|
  {
    match ev
    case Append(f) =>
      s.(view := s.view.Append(f), histories := s.histories[s.session := s.histories[s.session] + [f]])
    case Clear => s.(view := s.view.Clear(), epoch := s.epoch + 1, epochStart := s.view.nextFrameID)
    case Replace(gap) =>
      Source(NEW_VIEW, s.session + 1 + gap, s.epoch + 1, 0, s.histories + seq(gap + 1, i requires 0 <= i <= gap => []))
  }

  function Step(w: World, ev: Event): World
    requires w.source.session < |w.source.histories|
  {
    match ev
    case Poll => w.(viewer := Tick(w.viewer, w.source))
    case _ => w.(source := Change(w.source, ev))
  }

  // ----- Invariants -----

  ghost predicate GoodSource(s: Source) {
    && |s.histories| == s.session + 1
    && |s.histories[s.session]| == s.view.nextFrameID
    && |s.view.buffer| <= s.view.nextFrameID - s.epochStart
    && s.view.buffer == s.histories[s.session][s.view.nextFrameID - |s.view.buffer|..]
  }

  /** The item is a frame the camera sent, under its own number. */
  predicate Authentic(s: Source, x: Item) {
    && x.session < |s.histories| && 1 <= x.id <= |s.histories[x.session]|
    && x.frame == s.histories[x.session][x.id - 1]
  }

  /** y comes right after x from the same encoder run, or y is a keyframe. */
  predicate Follows(x: Item, y: Item) {
    y.frame.isKeyFrame || (y.session == x.session && y.epoch == x.epoch && y.id == x.id + 1)
  }

  predicate Later(x: Item, y: Item) {
    x.session < y.session || (x.session == y.session && x.id < y.id)
  }

  predicate Linked(log: seq<Item>) {
    && (log != [] ==> log[0].frame.isKeyFrame)
    && (forall j :: 1 <= j < |log| ==> Follows(log[j - 1], log[j]) && Later(log[j - 1], log[j]))
  }

  ghost predicate GoodLog(s: Source, c: Connection) {
    && Linked(c.log)
    && (forall j :: 0 <= j < |c.log| ==> Authentic(s, c.log[j]))
    && c.streamID <= s.session
    && (c.log != [] ==>
          var last := c.log[|c.log| - 1];
          && last.session <= c.streamID
          && (last.session == s.session && last.id > s.epochStart ==> last.epoch == s.epoch))
    && c.lastFrameID == (if c.log != [] && c.log[|c.log| - 1].session == c.streamID then c.log[|c.log| - 1].id else 0)
  }

  ghost predicate Good(w: World) {
    GoodSource(w.source) && GoodLog(w.source, w.viewer)
  }

  /** Histories only ever grow. */
  predicate Extends(now: seq<seq<TimedFrame>>, before: seq<seq<TimedFrame>>) {
    |before| <= |now| && forall h :: 0 <= h < |before| ==> before[h] <= now[h]
  }

  lemma {:induction false} ChangeExtends(s: Source, ev: Event)
    requires !ev.Poll? && s.session < |s.histories|
    ensures Extends(Change(s, ev).histories, s.histories)
  {
    hide Window;
  }

  lemma {:induction false} ChangeKeepsSource(s: Source, ev: Event)
    requires GoodSource(s) && !ev.Poll?
    ensures GoodSource(Change(s, ev))
  {
    hide Window;
    var s' := Change(s, ev);
    if ev.Append? {
      var all := s.view.buffer + [ev.frame];
      var n, k := s.view.nextFrameID, |all| - |s'.view.buffer|;
      assert all[k..] == s'.view.buffer by { assert s'.view.buffer == Window(all); }
      assert s'.histories[s.session][n - |s.view.buffer|..] == all;
      assert s'.histories[s.session][n + 1 - |s'.view.buffer|..] == all[k..];
    }
  }

  lemma {:induction false} AuthenticAfter(s: Source, s': Source, x: Item)
    requires Extends(s'.histories, s.histories) && Authentic(s, x)
    ensures Authentic(s', x)
  {
    assert s.histories[x.session] <= s'.histories[x.session];
  }

  lemma {:induction false} ChangeKeepsLog(s: Source, c: Connection, ev: Event)
    requires GoodSource(s) && GoodLog(s, c) && !ev.Poll?
    ensures GoodLog(Change(s, ev), c)
  {
    hide Window, Linked, Authentic, Extends;
    ChangeExtends(s, ev);
    forall j | 0 <= j < |c.log| ensures Authentic(Change(s, ev), c.log[j]) {
      AuthenticAfter(s, Change(s, ev), c.log[j]);
    }
    if c.log != [] {
      NotAhead(s, c.log[|c.log| - 1]);
    }
  }

  lemma {:induction false} NotAhead(s: Source, x: Item)
    requires GoodSource(s) && Authentic(s, x)
    ensures x.session <= s.session && (x.session == s.session ==> x.id <= s.view.nextFrameID)
  {
  }

  lemma {:induction false} ChangeKeepsGood(w: World, ev: Event)
    requires Good(w) && !ev.Poll?
    ensures Good(Step(w, ev))
  {
    hide Change, GoodSource, GoodLog;
    ChangeKeepsSource(w.source, ev);
    ChangeKeepsLog(w.source, w.viewer, ev);
    assert w.source.session < |w.source.histories| by { SourceHasHistory(w.source); }
  }

  lemma {:induction false} SourceHasHistory(s: Source)
    requires GoodSource(s)
    ensures s.session < |s.histories|
  {
  }

  /** What a poll serves: a contiguous stretch of the buffer up to its end, beginning at a keyframe or
      right behind the frame last served. */
  lemma {:induction false} ServedStretch(v: View, since: int)
    requires v.Sane() && since <= v.nextFrameID
    ensures var (frames, next) := v.FramesSince(since);
            && |frames| <= |v.buffer| && frames == v.buffer[|v.buffer| - |frames|..]
            && (frames == [] ==> next == since)
            && (frames != [] ==>
                  && next == v.nextFrameID
                  && since < next - |frames| + 1
                  && (frames[0].isKeyFrame ||
                      (since > 0 && next - |frames| + 1 == since + 1 && |frames| < |v.buffer|)))
  {
    var (frames, next) := v.FramesSince(since);
    if v.buffer != [] && LastKeyIndex(v.buffer) >= 0 {
      var start := v.StartIndex(since);
      if since <= 0 || v.IndexAfter(since) < LastKeyIndex(v.buffer) {
        assert start == LastKeyIndex(v.buffer);
      } else {
        assert start == v.IndexAfter(since);
      }
    }
  }

  /** The first frame of a poll follows the last frame written, or is a keyframe. */
  lemma {:induction false} PollContinues(s: Source, c: Connection)
    requires GoodSource(s) && GoodLog(s, c) && c.streamID == s.session
    ensures var (frames, next) := s.view.FramesSince(c.lastFrameID);
            var items := Items(s, frames, next);
            && c.lastFrameID <= s.view.nextFrameID
            && (items != [] && c.log == [] ==> items[0].frame.isKeyFrame)
            && (items != [] && c.log != [] ==>
                  Follows(c.log[|c.log| - 1], items[0]) && Later(c.log[|c.log| - 1], items[0]))
  {
    hide View.FramesSince;
    ServedStretch(s.view, c.lastFrameID);
  }

  lemma {:induction false} ItemsAreGood(s: Source, frames: seq<TimedFrame>)
    requires GoodSource(s) && |frames| <= |s.view.buffer| && frames == s.view.buffer[|s.view.buffer| - |frames|..]
    ensures var items := Items(s, frames, s.view.nextFrameID);
            && (forall j :: 0 <= j < |items| ==> Authentic(s, items[j]))
            && (forall j :: 1 <= j < |items| ==> Follows(items[j - 1], items[j]) && Later(items[j - 1], items[j]))
  {
    var n, b := s.view.nextFrameID, |s.view.buffer|;
    var items := Items(s, frames, n);
    forall j | 0 <= j < |items| ensures Authentic(s, items[j]) {
      assert frames[j] == s.view.buffer[b - |frames| + j] == s.histories[s.session][n - b + (b - |frames| + j)];
    }
  }

  lemma {:induction false} LinkedAppend(log: seq<Item>, items: seq<Item>)
    requires Linked(log) && items != []
    requires log == [] ==> items[0].frame.isKeyFrame
    requires log != [] ==> Follows(log[|log| - 1], items[0]) && Later(log[|log| - 1], items[0])
    requires forall j :: 1 <= j < |items| ==> Follows(items[j - 1], items[j]) && Later(items[j - 1], items[j])
    ensures Linked(log + items)
  {
    hide Follows, Later;
    var all := log + items;
    forall j | 1 <= j < |all| ensures Follows(all[j - 1], all[j]) && Later(all[j - 1], all[j]) {
      if j > |log| {
        assert all[j] == items[j - |log|] && all[j - 1] == items[j - |log| - 1];
      }
    }
  }

  lemma {:induction false} TickKeepsGood(s: Source, c: Connection)
    requires GoodSource(s) && GoodLog(s, c)
    ensures GoodLog(s, Tick(c, s))
  {
    hide View.FramesSince, RemapFrames, Linked, Authentic, Follows, Later;
    var c1 := Rebind(c, s.session);
    assert GoodLog(s, c1);
    var (frames, next) := s.view.FramesSince(c1.lastFrameID);
    PollContinues(s, c1);
    ServedStretch(s.view, c1.lastFrameID);
    if frames != [] {
      ItemsAreGood(s, frames);
      LinkedAppend(c1.log, Items(s, frames, next));
    } else {
      assert Items(s, frames, next) == [] && c1.log + [] == c1.log;
    }
  }

  /** The world after a history of events. */
  function Run(events: seq<Event>): World
    ensures Run(events).source.session < |Run(events).source.histories|
  {
    if events == [] then INITIAL
    else
      var n := |events| - 1;
      Step(Run(events[..n]), events[n])
  }

  lemma {:induction false} InitiallyGood()
    ensures Good(INITIAL)
  {
  }

  lemma {:induction false} RunIsGood(events: seq<Event>)
    ensures Good(Run(events))
  {
    hide Tick, Change, GoodLog, GoodSource;
    if events == [] {
      InitiallyGood();
    } else {
      var n := |events| - 1;
      var w := Run(events[..n]);
      RunIsGood(events[..n]);
      if events[n].Poll? {
        TickKeepsGood(w.source, w.viewer);
      } else {
        ChangeKeepsGood(w, events[n]);
      }
    }
  }

  // ----- What the viewer gets -----

  /** Items q, ..., p are a keyframe and then every frame after it, of one session and one epoch. */
  predicate FromKeyframe(log: seq<Item>, q: nat, p: nat)
    requires q <= p < |log|
  {
    && log[q].frame.isKeyFrame
    && (forall j :: q <= j <= p ==>
          log[j].session == log[p].session && log[j].epoch == log[p].epoch && log[j].id == log[q].id + (j - q))
  }

  lemma {:induction false} FindKeyframe(log: seq<Item>, p: nat) returns (q: nat)
    requires Linked(log) && p < |log|
    ensures q <= p && FromKeyframe(log, q, p)
  {
    if log[p].frame.isKeyFrame {
      q := p;
    } else {
      assert p >= 1 && Follows(log[p - 1], log[p]);
      q := FindKeyframe(log, p - 1);
    }
  }

  lemma {:induction false} LogOrdered(log: seq<Item>, j: nat, k: nat)
    requires Linked(log) && j < k < |log|
    ensures Later(log[j], log[k])
  {
    if j + 1 == k {
    } else {
      LogOrdered(log, j, k - 1);
    }
    assert Later(log[k - 1], log[k]);
  }

  /** Decodable serving: over every interleaving, the frames written to the viewer are frames the camera
      sent, in increasing order and none twice; whatever is skipped, writing resumes at a keyframe; and
      each frame is preceded, since the last clear, by a keyframe and every frame after it. */
  lemma {:induction false} DecodableServing(events: seq<Event>, p: nat)
    requires p < |Run(events).viewer.log|
    ensures var w := Run(events);
            var log := w.viewer.log;
            && Authentic(w.source, log[p])
            && (exists q: nat :: q <= p && FromKeyframe(log, q, p))
            && (forall j: nat :: j < p ==> Later(log[j], log[p]))
            && ((p > 0 && !(log[p].session == log[p - 1].session && log[p].epoch == log[p - 1].epoch
                            && log[p].id == log[p - 1].id + 1)) ==> log[p].frame.isKeyFrame)
  {
    hide Run, GoodSource, Later, Authentic;
    RunIsGood(events);
    var log := Run(events).viewer.log;
    var q := FindKeyframe(log, p);
    forall j: nat | j < p ensures Later(log[j], log[p]) { LogOrdered(log, j, p); }
    if p > 0 { assert Follows(log[p - 1], log[p]); }
  }

  /** A poll brings the viewer up to date: when the buffer holds a keyframe, the last frame written
      afterwards is the session's newest. */
  lemma {:induction false} PollCatchesUp(events: seq<Event>)
    requires LastKeyIndex(Run(events).source.view.buffer) >= 0
    ensures var s := Run(events).source;
            var c := Tick(Run(events).viewer, s);
            && c.log != [] && c.lastFrameID == s.view.nextFrameID
            && c.log[|c.log| - 1] == Item(s.session, s.epoch, s.view.nextFrameID, s.view.buffer[|s.view.buffer| - 1])
  {
    RunIsGood(events);
    hide Run, LastKeyIndex, RemapFrames;
    var s, c := Run(events).source, Run(events).viewer;
    TickKeepsGood(s, c);
    var c1 := Rebind(c, s.session);
    var (frames, next) := s.view.FramesSince(c1.lastFrameID);
    if frames == [] {
      assert s.view.IndexAfter(c1.lastFrameID) == |s.view.buffer|;
      PollContinues(s, c1);
      assert c1.lastFrameID == s.view.nextFrameID;
      var last := c1.log[|c1.log| - 1];
      assert Authentic(s, last);
      assert s.view.buffer[|s.view.buffer| - 1] == s.histories[s.session][s.view.nextFrameID - 1];
      assert RemapFrames(c1.remapper, []) == (c1.remapper, []) by { EmptyRemap(c1.remapper); }
      assert Tick(c, s).log == c1.log;
    }
  }

  /** The ID of the last frame of the current session written to the viewer, 0 if none. */
  function Seen(s: Source, log: seq<Item>): int {
    if log != [] && log[|log| - 1].session == s.session then log[|log| - 1].id else 0
  }

  /** What a poll writes: exactly the frames due to a viewer that has seen what it was written, which end the
      buffer. In particular a viewer behind a buffered keyframe is moved to the last one. */
  lemma {:induction false} PollWritesExactly(events: seq<Event>) returns (n: nat)
    ensures var s, log, after := Run(events).source, Run(events).viewer.log, Tick(Run(events).viewer, Run(events).source).log;
            && n <= |s.view.buffer| && |after| == |log| + n && log <= after
            && (forall p :: |log| <= p < |after| ==>
                  var q := |s.view.buffer| - n + (p - |log|);
                  after[p] == Item(s.session, s.epoch, s.view.nextFrameID - |s.view.buffer| + 1 + q, s.view.buffer[q]))
            && (forall k: nat :: k < |s.view.buffer| ==> (k >= |s.view.buffer| - n <==> IsDue(s.view, Seen(s, log), k)))
  {
    RunIsGood(events);
    hide Run, View.FramesSince, RemapFrames, Linked, IsDue;
    var s, c := Run(events).source, Run(events).viewer;
    var c1 := Rebind(c, s.session);
    assert c1.lastFrameID == Seen(s, c.log);
    var (frames, next) := s.view.FramesSince(c1.lastFrameID);
    ServedExactly(s.view, c1.lastFrameID);
    n := |frames|;
    assert c1.lastFrameID <= s.view.nextFrameID by {
      if c1.log != [] {
        assert Authentic(s, c1.log[|c1.log| - 1]);
        NotAhead(s, c1.log[|c1.log| - 1]);
      }
    }
    ServedStretch(s.view, c1.lastFrameID);
  }

  // ----- Timestamps -----

  /** Within each session timestamps increase and stay within the bound. */
  predicate TimedWell(histories: seq<seq<TimedFrame>>, limit: nat) {
    forall h :: 0 <= h < |histories| ==>
      (forall i :: 0 <= i < |histories[h]| ==> histories[h][i].pts <= limit)
      && (forall i :: 1 <= i < |histories[h]| ==> histories[h][i - 1].pts < histories[h][i].pts)
  }

  predicate StrictlyUp(out: seq<uint64>) {
    forall i :: 1 <= i < |out| ==> out[i - 1] < out[i]
  }

  /** The muxer's timeline so far, and how the remapper continues it. */
  ghost predicate GoodTimeline(c: Connection, limit: nat) {
    && |c.out| == |c.log| && StrictlyUp(c.out)
    && (c.remapper.haveLast <==> c.out != [])
    && (c.out != [] ==> c.remapper.last == c.out[|c.out| - 1] <= limit + 1000 + |c.out|)
    && (c.remapper.haveBase ==> c.log != [] && c.log[|c.log| - 1].session == c.streamID
                                && c.remapper.base <= c.log[|c.log| - 1].frame.pts)
  }

  /** One frame whose timestamp is past the session's last one written. */
  lemma {:induction false} RemapOne(r: Remapper, pts: uint64, limit: nat, count: nat)
    requires pts <= limit && limit + 1001 + count < TWO_64
    requires r.haveBase ==> r.base <= pts
    requires r.haveLast ==> r.last <= limit + 1000 + count
    ensures var (r', t) := r.Remap(pts);
            && r'.haveBase && r'.haveLast && r'.last == t && r'.base <= pts
            && r'.base == (if r.haveBase then r.base else pts)
            && (r.haveLast ==> r.last < t) && t <= limit + 1000 + count + 1
  {
    hide Mod64;
    var base: int := if r.haveBase then r.base else pts;
    ModSmall(pts as int - base + 1000);
    ModSmall(r.last as int + 1);
  }

  /** The frames of one poll are written in increasing timestamp order, so the timeline keeps rising. */
  lemma {:induction false} RemapFramesRise(r: Remapper, frames: seq<TimedFrame>, limit: nat, count: nat)
    requires frames != [] && limit + 1000 + count + |frames| < TWO_64
    requires forall i :: 0 <= i < |frames| ==> frames[i].pts <= limit
    requires forall i :: 1 <= i < |frames| ==> frames[i - 1].pts < frames[i].pts
    requires r.haveBase ==> r.base <= frames[0].pts
    requires r.haveLast ==> r.last <= limit + 1000 + count
    ensures var (r', out) := RemapFrames(r, frames);
            && StrictlyUp(out) && (r.haveLast ==> r.last < out[0])
            && r'.haveBase && r'.haveLast && r'.last == out[|out| - 1] <= limit + 1000 + count + |frames|
            && r'.base <= frames[|frames| - 1].pts
  {
    var n := |frames| - 1;
    if n == 0 {
      assert frames[..0] == [];
      RemapOne(r, frames[0].pts, limit, count);
    } else {
      RemapFramesRise(r, frames[..n], limit, count);
      RemapOne(RemapFrames(r, frames[..n]).0, frames[n].pts, limit, count + n);
    }
  }

  lemma {:induction false} TickKeepsTimeline(s: Source, c: Connection, limit: nat)
    requires GoodSource(s) && GoodLog(s, c) && GoodTimeline(c, limit) && TimedWell(s.histories, limit)
    requires limit + 1000 + |Tick(c, s).out| < TWO_64
    ensures GoodTimeline(Tick(c, s), limit)
  {
    hide View.FramesSince, RemapFrames, Linked, Follows, Later;
    var c1 := Rebind(c, s.session);
    var (frames, next) := s.view.FramesSince(c1.lastFrameID);
    ServedStretch(s.view, c1.lastFrameID);
    if frames == [] {
      assert RemapFrames(c1.remapper, []) == (c1.remapper, []) by { assert frames == []; EmptyRemap(c1.remapper); }
      assert Tick(c, s).out == c1.out && Tick(c, s).log == c1.log;
    } else {
      PollRises(s, c1, limit);
    }
  }

  lemma {:induction false} EmptyRemap(r: Remapper)
    ensures RemapFrames(r, []) == (r, [])
  {
  }

  /** A stretch of one session's history rises, and starts past any earlier frame of it. */
  lemma {:induction false} StretchRises(histories: seq<seq<TimedFrame>>, h: nat, limit: nat, from: nat,
        frames: seq<TimedFrame>)
    requires TimedWell(histories, limit) && h < |histories| && from <= |histories[h]| && frames == histories[h][from..]
    ensures forall i :: 0 <= i < |frames| ==> frames[i].pts <= limit
    ensures forall i :: 1 <= i < |frames| ==> frames[i - 1].pts < frames[i].pts
    ensures forall j :: 0 <= j < from < |histories[h]| ==> histories[h][j].pts < frames[0].pts
  {
    forall i | 1 <= i < |frames| ensures frames[i - 1].pts < frames[i].pts {
      HistoryRises(histories, h, limit, from + i - 1, from + i);
    }
    forall j | 0 <= j < from < |histories[h]| ensures histories[h][j].pts < frames[0].pts {
      HistoryRises(histories, h, limit, j, from);
    }
  }

  lemma {:induction false} PollRises(s: Source, c: Connection, limit: nat)
    requires GoodSource(s) && GoodLog(s, c) && GoodTimeline(c, limit) && TimedWell(s.histories, limit)
    requires c.streamID == s.session
    requires var (frames, next) := s.view.FramesSince(c.lastFrameID);
             frames != [] && limit + 1000 + |c.out| + |frames| < TWO_64
    ensures var (frames, next) := s.view.FramesSince(c.lastFrameID);
            GoodTimeline(Write(c, s, frames, next), limit)
  {
    hide View.FramesSince, RemapFrames, Linked, TimedWell, StrictlyUp;
    var (frames, next) := s.view.FramesSince(c.lastFrameID);
    ServedStretch(s.view, c.lastFrameID);
    var n := s.view.nextFrameID;
    assert frames == s.histories[s.session][n - |frames|..];
    StretchRises(s.histories, s.session, limit, n - |frames|, frames);
    if c.remapper.haveBase {
      assert Authentic(s, c.log[|c.log| - 1]);
    }
    RemapFramesRise(c.remapper, frames, limit, |c.out|);
    RisesOn(c.out, RemapFrames(c.remapper, frames).1);
  }

  lemma {:induction false} RisesOn(a: seq<uint64>, b: seq<uint64>)
    requires StrictlyUp(a) && StrictlyUp(b) && (a != [] && b != [] ==> a[|a| - 1] < b[0])
    ensures StrictlyUp(a + b)
  {
    forall i | 1 <= i < |a + b| ensures (a + b)[i - 1] < (a + b)[i] {
      assert i > |a| ==> (a + b)[i - 1] == b[i - 1 - |a|] && (a + b)[i] == b[i - |a|];
    }
  }

  lemma {:induction false} HistoryRises(histories: seq<seq<TimedFrame>>, h: nat, limit: nat, i: nat, j: nat)
    requires TimedWell(histories, limit) && h < |histories| && i < j < |histories[h]|
    ensures histories[h][i].pts < histories[h][j].pts
  {
    if i + 1 == j {
    } else {
      HistoryRises(histories, h, limit, i, j - 1);
    }
    assert histories[h][j - 1].pts < histories[h][j].pts;
  }

  lemma {:induction false} RunTimeline(events: seq<Event>, limit: nat)
    requires TimedWell(Run(events).source.histories, limit)
    requires limit + 1000 + |Run(events).viewer.out| < TWO_64
    ensures GoodTimeline(Run(events).viewer, limit)
  {
    if events == [] {
    } else {
      var n := |events| - 1;
      var w := Run(events[..n]);
      RunIsGood(events[..n]);
      StepGrows(w, events[n], limit);
      RunTimeline(events[..n], limit);
      if events[n].Poll? {
        hide Tick, GoodLog, GoodSource, GoodTimeline, TimedWell;
        TickKeepsTimeline(w.source, w.viewer, limit);
      }
    }
  }

  lemma {:induction false} TimedWellBefore(now: seq<seq<TimedFrame>>, before: seq<seq<TimedFrame>>, limit: nat)
    requires Extends(now, before) && TimedWell(now, limit)
    ensures TimedWell(before, limit)
  {
    forall h, i | 0 <= h < |before| && 0 <= i < |before[h]|
      ensures before[h][i].pts <= limit
      ensures i >= 1 ==> before[h][i - 1].pts < before[h][i].pts
    {
      assert now[h][i] == before[h][i];
      assert i >= 1 ==> now[h][i - 1] == before[h][i - 1];
    }
  }

  lemma {:induction false} StepGrows(w: World, ev: Event, limit: nat)
    requires w.source.session < |w.source.histories| && TimedWell(Step(w, ev).source.histories, limit)
    ensures TimedWell(w.source.histories, limit) && |w.viewer.out| <= |Step(w, ev).viewer.out|
  {
    hide Change, RemapFrames, View.FramesSince, TimedWell;
    if !ev.Poll? {
      ChangeExtends(w.source, ev);
      TimedWellBefore(Step(w, ev).source.histories, w.source.histories, limit);
    }
  }

  /** The muxer's timestamps strictly increase over any interleaving of polls, clears and session
      replacements, as long as each session's own timestamps increase and 64 bits are not exhausted. */
  lemma {:induction false} TimelineRises(events: seq<Event>, limit: nat)
    requires TimedWell(Run(events).source.histories, limit)
    requires limit + 1000 + |Run(events).viewer.out| < TWO_64
    ensures var c := Run(events).viewer;
            |c.out| == |c.log| && StrictlyUp(c.out)
  {
    RunTimeline(events, limit);
  }

  /** Each frame carries the session's rebased timestamp of the camera's. */
  predicate Rebased(histories: seq<seq<TimedFrame>>, stamps: seq<seq<Stamp>>, longest: nat) {
    |stamps| == |histories| && longest <= MAX_RUN + 1 && forall h :: 0 <= h < |histories| ==>
      && |histories[h]| <= longest && IsRebased(histories[h], stamps[h]) && Plausible(stamps[h])
  }

  lemma {:induction false} RebasedIsTimedWell(histories: seq<seq<TimedFrame>>, stamps: seq<seq<Stamp>>, longest: nat)
    requires Rebased(histories, stamps, longest)
    ensures TimedWell(histories, FIRST_PTS + MAX_PTS_JUMP_MS * longest)
  {
    hide OutputAt;
    forall h, i | 0 <= h < |histories| && 0 <= i < |histories[h]|
      ensures histories[h][i].pts <= FIRST_PTS + MAX_PTS_JUMP_MS * longest
      ensures i >= 1 ==> histories[h][i - 1].pts < histories[h][i].pts
    {
      RebasedOutputs(stamps[h], i);
      if i >= 1 { assert histories[h][i - 1].pts == OutputAt(stamps[h], i - 1); }
    }
  }

  /** From camera clocks to the muxer: whatever the camera's 48-bit timestamps do in each session, and
      however polls, clears and session replacements interleave, the timestamps given to the muxer
      strictly increase. */
  lemma {:induction false} MuxerTimelineRises(events: seq<Event>, stamps: seq<seq<Stamp>>, longest: nat)
    requires Rebased(Run(events).source.histories, stamps, longest)
    requires FIRST_PTS + MAX_PTS_JUMP_MS * longest + 1000 + |Run(events).viewer.out| < TWO_64
    ensures var c := Run(events).viewer;
            |c.out| == |c.log| && StrictlyUp(c.out)
  {
    hide Rebased, TimedWell, StrictlyUp;
    RebasedIsTimedWell(Run(events).source.histories, stamps, longest);
    TimelineRises(events, FIRST_PTS + MAX_PTS_JUMP_MS * longest);
  }
}
