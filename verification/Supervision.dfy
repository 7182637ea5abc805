/** The watcher set and the session registry as objects, taken through any run of the shutdown protocol. */
module Supervision {
  import opened Common
  import opened StreamRegistry
  import opened StreamSessions
  import opened Watchers

  ghost predicate IsPending(pending: set<nat>, timers: seq<Timer>) {
    forall t: nat :: t in pending <==> t < |timers| && timers[t].phase.Armed?
  }

  /** The objects hold the tracked state of the channel; the rest of w lives in the consumers' serve loops
      and the callbacks under way. */
  ghost predicate Follows(watchers: WatcherSet, registry: Registry, key: string, w: System)
    reads watchers, registry
  {
    && watchers.Valid() && registry.Valid()
    && watchers.SlotOf(key) == w.slot && watchers.nextTimer == |w.timers|
    && IsPending(watchers.pending, w.timers)
    && registry.Registered(key) == w.registered && registry.counter == w.counter
  }

  /** A timer that leaves its pending phase leaves the pending set. */
  lemma {:induction false} PendingAfter(pending: set<nat>, timers: seq<Timer>, t: nat, phase: Phase)
    requires IsPending(pending, timers) && t < |timers| && !phase.Armed?
    ensures IsPending(pending - {t}, SetPhase(timers, t, phase))
    ensures !timers[t].phase.Armed? ==> IsPending(pending, SetPhase(timers, t, phase))
  {
  }

  /** One event on the side of the watcher set. */
  method OnWatchers(ev: Event, w: System, key: string, watchers: WatcherSet)
    requires Closed(w) && Enabled(w, ev)
    requires watchers.Valid() && watchers.SlotOf(key) == w.slot && watchers.nextTimer == |w.timers|
    requires IsPending(watchers.pending, w.timers)
    modifies watchers
    ensures var w' := Step(w, ev);
            && watchers.Valid() && watchers.SlotOf(key) == w'.slot && watchers.nextTimer == |w'.timers|
            && IsPending(watchers.pending, w'.timers)
  {
    hide WatcherSet.Valid, IsPending;
    match ev {
      case Join(bound) => OnJoin(bound, w, key, watchers);
      case Leave(c) => OnLeave(c, w, key, watchers);
      case Fire(t) =>
        assert t in watchers.pending by { PendingIs(watchers.pending, w.timers, t); }
        PendingAfter(watchers.pending, w.timers, t, Running);
        watchers.Begin(t);
      case Recount(t) =>
        var empty := watchers.Recount(key);
        PendingAfter(watchers.pending, w.timers, t, if empty then Decided else Done(false));
      case Look(t) => PendingAfter(watchers.pending, w.timers, t, Step(w, ev).timers[t].phase);
      case Kill(t) => PendingAfter(watchers.pending, w.timers, t, Done(true));
      case _ =>
    }
  }

  lemma {:induction false} PendingIs(pending: set<nat>, timers: seq<Timer>, t: nat)
    requires IsPending(pending, timers) && t < |timers|
    ensures t in pending <==> timers[t].phase.Armed?
  {
  }

  method OnJoin(bound: int, w: System, key: string, watchers: WatcherSet)
    requires Closed(w)
    requires watchers.Valid() && watchers.SlotOf(key) == w.slot && watchers.nextTimer == |w.timers|
    requires IsPending(watchers.pending, w.timers)
    modifies watchers
    ensures var w' := DoJoin(w, bound);
            && watchers.Valid() && watchers.SlotOf(key) == w'.slot && watchers.nextTimer == |w'.timers|
            && IsPending(watchers.pending, w'.timers)
  {
    if w.slot.timer.Some? {
      PendingAfter(watchers.pending, w.timers, w.slot.timer.value, Cancelled);
    }
    var count := watchers.Add(key);
  }

  method OnLeave(c: nat, w: System, key: string, watchers: WatcherSet)
    requires Closed(w) && c < |w.consumers|
    requires watchers.Valid() && watchers.SlotOf(key) == w.slot && watchers.nextTimer == |w.timers|
    requires IsPending(watchers.pending, w.timers)
    modifies watchers
    ensures var w' := DoLeave(w, c);
            && watchers.Valid() && watchers.SlotOf(key) == w'.slot && watchers.nextTimer == |w'.timers|
            && IsPending(watchers.pending, w'.timers)
  {
    watchers.Remove(key);
  }

  /** One event on the side of the registry; other: a channel that takes an ID. */
  method OnRegistry(ev: Event, w: System, key: string, other: string, codec: int, registry: Registry)
    requires Closed(w) && Enabled(w, ev) && key != other
    requires registry.Valid() && registry.Registered(key) == w.registered && registry.counter == w.counter
    modifies registry, registry.active.Values
    ensures var w' := Step(w, ev);
            registry.Valid() && registry.Registered(key) == w'.registered && registry.counter == w'.counter
    ensures forall k :: k in registry.active ==>
              (k in old(registry.active) && registry.active[k] == old(registry.active)[k]) || fresh(registry.active[k])
  {
    match ev {
      case Start(stale) => var session := registry.StartStream(key, codec, stale);
      case OtherChannel => var session := registry.StartStream(other, codec, true);
      case Remove =>
        assert key in registry.active ==> registry.active[key] in registry.active.Values;
        var ok := registry.StopStream(key);
      case Kill(t) =>
        assert key in registry.active ==> registry.active[key] in registry.active.Values;
        var ok := registry.StopStreamIfID(key, w.timers[t].phase.id);
      case _ =>
    }
  }

  /** Two new objects taken through any run: the tracked count is the number of joined consumers, and the
      registry holds the session the protocol says. */
  method Supervise(events: seq<Event>, key: string, other: string, codec: int)
    returns (watchers: WatcherSet, registry: Registry)
    requires key != other
    ensures Follows(watchers, registry, key, Run(events))
    ensures watchers.SlotOf(key).count == Joined(Run(events).consumers)
  {
    hide WatcherSet.Valid, IsPending, WatcherSet.SlotOf, Run, Step, Joined, Registry.Valid, Registry.Registered, Enabled;
    watchers := new WatcherSet();
    registry := new Registry();
    var w := INITIAL;
    NothingYet();
    Initially(watchers, registry, key);
    assert events[..0] == [];
    for k := 0 to |events|
      invariant fresh(watchers) && fresh(registry)
      invariant forall channel <- registry.active :: fresh(registry.active[channel])
      invariant w == Run(events[..k]) && Follows(watchers, registry, key, w)
    {
      assert events[..k + 1] == events[..k] + [events[k]];
      RunOn(events[..k], events[k]);
      if Enabled(w, events[k]) {
        OnWatchers(events[k], w, key, watchers);
        OnRegistry(events[k], w, key, other, codec, registry);
      } else {
        DisabledIsIdle(w, events[k]);
      }
      w := Step(w, events[k]);
    }
    assert events[..|events|] == events;
    CountIsJoined(events);
  }

  lemma {:induction false} DisabledIsIdle(w: System, ev: Event)
    requires Closed(w) && !Enabled(w, ev)
    ensures Step(w, ev) == w
  {
  }

  lemma {:induction false} Initially(watchers: WatcherSet, registry: Registry, key: string)
    requires watchers.Valid() && watchers.counts == map[] && watchers.timers == map[] && watchers.pending == {}
    requires watchers.nextTimer == 0
    requires registry.Valid() && registry.active == map[] && registry.counter == 0
    ensures Follows(watchers, registry, key, INITIAL)
  {
  }
}
