/** The timestamps a viewer's muxer is given, in closed form, over every interleaving of frames, clears,
    session replacements and polls. */
module ViewerTimeline {
  import opened Common
  import opened FrameWindow
  import opened Timestamps
  import opened Serving

  /** The first frame written of the session that item p belongs to. */
  function FirstOf(log: seq<Item>, p: nat): (first: nat)
    requires p < |log|
    ensures first <= p && forall q :: first <= q <= p ==> log[q].session == log[p].session
    ensures first > 0 ==> log[first - 1].session != log[p].session
  {
    if p > 0 && log[p - 1].session == log[p].session then FirstOf(log, p - 1) else p
  }

  lemma {:induction false} FirstOfPrefix(log: seq<Item>, n: nat, p: nat)
    requires p < n <= |log|
    ensures FirstOf(log[..n], p) == FirstOf(log, p)
  {
    if p == 0 || log[p - 1].session != log[p].session {
    } else {
      FirstOfPrefix(log, n, p - 1);
    }
  }

  function Max(a: int, b: int): int {
    if a >= b then a else b
  }

  /** Time since the session's first frame written, plus 1000. */
  function Elapsed(log: seq<Item>, p: nat): int
    requires p < |log|
  {
    log[p].frame.pts as int - log[FirstOf(log, p)].frame.pts as int + 1000
  }

  function Past(out: seq<uint64>, p: nat): int
    requires p <= |out|
  {
    if p > 0 then out[p - 1] as int + 1 else 0
  }

  /** How item p's timestamp comes from the one before it. */
  predicate Ruled(log: seq<Item>, out: seq<uint64>, p: nat)
    requires p < |log| == |out|
  {
    out[p] == Max(Elapsed(log, p), Past(out, p))
  }

  predicate AllRuled(log: seq<Item>, out: seq<uint64>)
    requires |log| == |out|
  {
    forall p: nat :: p < |log| ==> Ruled(log, out, p)
  }

  /** The remapper knows the first frame written of the session the viewer is bound to. */
  predicate InRule(c: Connection) {
    && |c.out| == |c.log| && AllRuled(c.log, c.out)
    && (c.remapper.haveLast <==> c.out != []) && (c.out != [] ==> c.remapper.last == c.out[|c.out| - 1])
    && (c.remapper.haveBase <==> c.log != [] && c.log[|c.log| - 1].session == c.streamID)
    && (c.remapper.haveBase ==> c.remapper.base == c.log[FirstOf(c.log, |c.log| - 1)].frame.pts)
  }

  function WriteOne(c: Connection, item: Item): Connection {
    var (remapper, t) := c.remapper.Remap(item.frame.pts);
    Connection(c.streamID, item.id, remapper, c.log + [item], c.out + [t])
  }

  lemma {:induction false} RuledAppend(log: seq<Item>, out: seq<uint64>, item: Item, t: uint64)
    requires |log| == |out| && AllRuled(log, out)
    requires t == Max(Elapsed(log + [item], |log|), Past(out, |log|))
    ensures AllRuled(log + [item], out + [t])
  {
    var all, outs := log + [item], out + [t];
    forall p: nat | p < |all| ensures Ruled(all, outs, p) {
      if p < |log| {
        assert Ruled(log, out, p);
        assert all[..|log|] == log;
        FirstOfPrefix(all, |log|, p);
      }
    }
  }

  lemma {:induction false} WriteOneKeepsRule(c: Connection, item: Item)
    requires InRule(c) && item.session == c.streamID
    requires c.remapper.haveBase ==> c.remapper.base <= item.frame.pts
    requires item.frame.pts as int + 1000 < TWO_64 && (c.remapper.haveLast ==> c.remapper.last + 1 < TWO_64)
    ensures InRule(WriteOne(c, item))
  {
    hide Mod64, AllRuled;
    var log := c.log + [item];
    assert log[..|c.log|] == c.log;
    if c.remapper.haveBase {
      FirstOfPrefix(log, |c.log|, |c.log| - 1);
    }
    var base: int := if c.remapper.haveBase then c.remapper.base else item.frame.pts;
    assert log[FirstOf(log, |c.log|)].frame.pts == base;
    ModSmall(item.frame.pts as int - base + 1000);
    ModSmall(c.remapper.last as int + 1);
    RuledAppend(c.log, c.out, item, c.remapper.Remap(item.frame.pts).1);
  }

  /** Writing a poll's frames is writing them one by one. */
  lemma {:induction false} WriteByOne(c: Connection, s: Source, frames: seq<TimedFrame>, next: int)
    requires frames != []
    ensures var n := |frames| - 1;
            Write(c, s, frames, next) == WriteOne(Write(c, s, frames[..n], next - 1), Items(s, frames, next)[n])
  {
    var n := |frames| - 1;
    assert Items(s, frames, next) == Items(s, frames[..n], next - 1) + [Items(s, frames, next)[n]];
    var (r, out) := RemapFrames(c.remapper, frames[..n]);
    var (r2, t) := r.Remap(frames[n].pts);
    assert c.out + (out + [t]) == c.out + out + [t];
    assert c.log + (Items(s, frames[..n], next - 1) + [Items(s, frames, next)[n]])
        == c.log + Items(s, frames[..n], next - 1) + [Items(s, frames, next)[n]];
  }

  lemma {:induction false} WriteKeepsRule(c: Connection, s: Source, frames: seq<TimedFrame>, next: int, limit: nat)
    requires InRule(c) && c.streamID == s.session
    requires limit + 1000 + |c.out| + |frames| < TWO_64
    requires forall i :: 0 <= i < |frames| ==> frames[i].pts <= limit
    requires forall i :: 1 <= i < |frames| ==> frames[i - 1].pts < frames[i].pts
    requires c.remapper.haveBase && frames != [] ==> c.remapper.base <= frames[0].pts
    requires c.remapper.haveLast ==> c.remapper.last <= limit + 1000 + |c.out|
    ensures InRule(Write(c, s, frames, next))
  {
    hide InRule, Remapper.Remap;
    if frames == [] {
      EmptyRemap(c.remapper);
      assert c.log + Items(s, frames, next) == c.log && c.out + [] == c.out;
      RuleIgnoresID(c, next);
    } else {
      var n := |frames| - 1;
      WriteKeepsRule(c, s, frames[..n], next - 1, limit);
      WriteByOne(c, s, frames, next);
      if n == 0 {
        EmptyRemap(c.remapper);
        assert frames[..0] == [];
      } else {
        RemapFramesRise(c.remapper, frames[..n], limit, |c.out|);
      }
      WriteOneKeepsRule(Write(c, s, frames[..n], next - 1), Items(s, frames, next)[n]);
    }
  }

  lemma {:induction false} RuleIgnoresID(c: Connection, next: int)
    requires InRule(c)
    ensures InRule(c.(lastFrameID := next))
  {
  }

  lemma {:induction false} RebindKeepsRule(s: Source, c: Connection)
    requires GoodLog(s, c) && InRule(c)
    ensures InRule(Rebind(c, s.session))
  {
  }

  lemma {:induction false} TickKeepsRule(s: Source, c: Connection, limit: nat)
    requires GoodSource(s) && GoodLog(s, c) && GoodTimeline(c, limit) && TimedWell(s.histories, limit) && InRule(c)
    requires limit + 1000 + |Tick(c, s).out| < TWO_64
    ensures InRule(Tick(c, s))
  {
    var c1 := Rebind(c, s.session);
    var (frames, next) := s.view.FramesSince(c1.lastFrameID);
    RebindKeepsRule(s, c);
    PollFrames(s, c, limit);
    hide InRule, View.FramesSince, RemapFrames, TimedWell, GoodLog, GoodSource;
    WriteKeepsRule(c1, s, frames, next, limit);
  }

  /** The frames of a poll rise, past the base of the viewer's remapper. */
  lemma {:induction false} PollFrames(s: Source, c: Connection, limit: nat)
    requires GoodSource(s) && GoodLog(s, c) && GoodTimeline(c, limit) && TimedWell(s.histories, limit)
    ensures var c1 := Rebind(c, s.session);
            var (frames, next) := s.view.FramesSince(c1.lastFrameID);
            && (forall i :: 0 <= i < |frames| ==> frames[i].pts <= limit)
            && (forall i :: 1 <= i < |frames| ==> frames[i - 1].pts < frames[i].pts)
            && (c1.remapper.haveBase && frames != [] ==> c1.remapper.base <= frames[0].pts)
            && (c1.remapper.haveLast ==> c1.remapper.last <= limit + 1000 + |c1.out|)
  {
    hide View.FramesSince, Linked, TimedWell, StrictlyUp;
    var c1 := Rebind(c, s.session);
    var (frames, next) := s.view.FramesSince(c1.lastFrameID);
    assert c1.lastFrameID <= s.view.nextFrameID by {
      if c1.log != [] {
        assert Authentic(s, c1.log[|c1.log| - 1]);
        NotAhead(s, c1.log[|c1.log| - 1]);
      }
    }
    ServedStretch(s.view, c1.lastFrameID);
    var n := s.view.nextFrameID;
    assert frames == s.histories[s.session][n - |frames|..];
    StretchRises(s.histories, s.session, limit, n - |frames|, frames);
    if c1.remapper.haveBase && frames != [] {
      assert Authentic(s, c.log[|c.log| - 1]);
    }
  }

  lemma {:induction false} RunKeepsRule(events: seq<Event>, limit: nat)
    requires TimedWell(Run(events).source.histories, limit)
    requires limit + 1000 + |Run(events).viewer.out| < TWO_64
    ensures InRule(Run(events).viewer)
  {
    hide Tick, GoodLog, GoodSource, GoodTimeline, TimedWell;
    if events == [] {
    } else {
      var n := |events| - 1;
      var w := Run(events[..n]);
      RunIsGood(events[..n]);
      StepGrows(w, events[n], limit);
      RunKeepsRule(events[..n], limit);
      if events[n].Poll? {
        RunTimeline(events[..n], limit);
        hide InRule;
        TickKeepsRule(w.source, w.viewer, limit);
      }
    }
  }

  // ----- The closed form -----

  /** Item p's timestamp: time since its session's first frame written plus 1000, or the old timeline moved on
      by one per frame of the session, whichever is later. */
  predicate OnTimeline(log: seq<Item>, out: seq<uint64>, p: nat)
    requires p < |log| == |out|
  {
    out[p] == Max(Elapsed(log, p), Past(out, FirstOf(log, p)) + (p - FirstOf(log, p)))
  }

  lemma {:induction false} RiseInSession(s: Source, log: seq<Item>, p: nat, limit: nat)
    requires 0 < p < |log| && log[p - 1].session == log[p].session && Later(log[p - 1], log[p])
    requires Authentic(s, log[p - 1]) && Authentic(s, log[p]) && TimedWell(s.histories, limit)
    ensures log[p - 1].frame.pts < log[p].frame.pts
  {
    HistoryRises(s.histories, log[p].session, limit, log[p - 1].id - 1, log[p].id - 1);
  }

  lemma {:induction false} RulesGiveTimeline(s: Source, log: seq<Item>, out: seq<uint64>, p: nat, limit: nat)
    requires p < |log| == |out| && AllRuled(log, out) && Linked(log) && TimedWell(s.histories, limit)
    requires forall j :: 0 <= j < |log| ==> Authentic(s, log[j])
    ensures OnTimeline(log, out, p)
  {
    assert Ruled(log, out, p);
    if FirstOf(log, p) == p {
    } else {
      assert Later(log[p - 1], log[p]);
      hide Linked, TimedWell, Authentic, Later, AllRuled;
      RulesGiveTimeline(s, log, out, p - 1, limit);
      RiseInSession(s, log, p, limit);
    }
  }

  /** Over every interleaving, each timestamp the muxer is given is the closed form's; so a viewer's timeline
      rejoins real time as soon as that has caught up with it. */
  lemma {:induction false} TimelineInClosedForm(events: seq<Event>, limit: nat, p: nat)
    requires TimedWell(Run(events).source.histories, limit) && p < |Run(events).viewer.log|
    requires limit + 1000 + |Run(events).viewer.out| < TWO_64
    ensures |Run(events).viewer.out| == |Run(events).viewer.log|
    ensures OnTimeline(Run(events).viewer.log, Run(events).viewer.out, p)
  {
    hide Run, TimedWell, AllRuled, Linked, OnTimeline;
    RunKeepsRule(events, limit);
    RunIsGood(events);
    var w := Run(events);
    RulesGiveTimeline(w.source, w.viewer.log, w.viewer.out, p, limit);
  }
}
