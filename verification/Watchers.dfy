/** The consumers of one device channel, the grace timers their departures arm, and the registry of
    sessions they stop: a protocol of atomic steps in any interleaving. A timer's callback takes three of
    them (the recount, the lookup and the guarded stop), so others may run in between. */
module Watchers {
  import opened Common

  /** The tracked count and the tracked timer of one key; count 0 stands for an absent key. */
  datatype Slot = Slot(count: nat, timer: Option<nat>) {
    function Add(): Slot {
      Slot(count + 1, None)
    }

    /** timer: the number the new timer gets if this removal arms one. */
    function Remove(timer: nat): Slot {
      if count == 0 then this
      else if count > 1 then this.(count := count - 1)
      else Slot(0, Some(timer))
    }

    predicate Arms() {
      count == 1
    }

    function Recheck(): Slot {
      this.(timer := None)
    }
  }

  const EMPTY_SLOT := Slot(0, None)

  /** A timer is pending, or cancelled while pending; once fired, its callback is on its way to the recount,
      has decided to expire, has found the session it is to stop, or is done, having expired or not. */
  datatype Phase = Armed | Cancelled | Running | Decided | Found(id: int) | Done(expired: bool)

  /** counterThen: the last session ID handed out when the owner left. */
  datatype Timer = Timer(owner: nat, phase: Phase, counterThen: int)

  /** bound: the session the consumer's serve loop last bound to, 0 if none. */
  datatype Consumer = Consumer(joined: bool, bound: int)

  datatype Stop = Stop(timer: nat, id: int)

  /** registered: the channel's session in the registry; issued: the IDs its sessions have had; counter: the
      last session ID handed out. */
  datatype System = System(slot: Slot, consumers: seq<Consumer>, timers: seq<Timer>,
                           registered: Option<int>, issued: set<int>, counter: int, stops: seq<Stop>)

  const INITIAL := System(EMPTY_SLOT, [], [], None, {}, 0, [])

  datatype Event =
    | Join(bound: int)       // a consumer arrives, bound to a session it looked up before, or to none
    | Bind(consumer: nat)    // a serve loop binds to the registered session
    | Leave(consumer: nat)   // a consumer departs
    | Fire(timer: nat)       // a pending timer starts its callback
    | Recount(timer: nat)    // the callback's locked section
    | Look(timer: nat)       // the expiry looks the session up
    | Kill(timer: nat)       // the expiry stops it if the ID still matches
    | Start(stale: bool)     // a session is started, or a live one reused
    | Remove                 // the session is stopped by request
    | OtherChannel           // another channel takes a session ID

  predicate Enabled(w: System, ev: Event) {
    match ev
    case Bind(c) => c < |w.consumers| && w.consumers[c].joined && w.registered.Some?
    case Leave(c) => c < |w.consumers| && w.consumers[c].joined
    case Fire(t) => t < |w.timers| && w.timers[t].phase.Armed?
    case Recount(t) => t < |w.timers| && w.timers[t].phase.Running?
    case Look(t) => t < |w.timers| && w.timers[t].phase.Decided?
    case Kill(t) => t < |w.timers| && w.timers[t].phase.Found?
    case _ => true
  }

  function SetPhase(timers: seq<Timer>, t: nat, phase: Phase): seq<Timer>
    requires t < |timers|
  {
    timers[t := timers[t].(phase := phase)]
  }

  /** Stopping a timer has no effect once its callback has started. */
  function StopTimer(timers: seq<Timer>, t: nat): seq<Timer>
    requires t < |timers|
  {
    if timers[t].phase.Armed? then SetPhase(timers, t, Cancelled) else timers
  }

  function BoundOf(w: System, t: nat): int
    requires t < |w.timers| && w.timers[t].owner < |w.consumers|
  {
    w.consumers[w.timers[t].owner].bound
  }

  /** The indices the state refers to exist. */
  predicate Closed(w: System) {
    && (w.slot.timer.Some? ==> w.slot.timer.value < |w.timers|)
    && (forall t :: 0 <= t < |w.timers| ==> w.timers[t].owner < |w.consumers|)
  }

  function DoJoin(w: System, bound: int): System
    requires Closed(w)
  {
    w.(slot := w.slot.Add(),
       timers := if w.slot.timer.Some? then StopTimer(w.timers, w.slot.timer.value) else w.timers,
       consumers := w.consumers + [Consumer(true, if bound in w.issued then bound else 0)])
  }

  function DoLeave(w: System, c: nat): System
    requires c < |w.consumers|
  {
    w.(slot := w.slot.Remove(|w.timers|),
       timers := if w.slot.Arms() then w.timers + [Timer(c, Armed, w.counter)] else w.timers,
       consumers := w.consumers[c := w.consumers[c].(joined := false)])
  }

  function DoKill(w: System, t: nat): System
    requires t < |w.timers| && w.timers[t].phase.Found?
  {
    var w1 := w.(timers := SetPhase(w.timers, t, Done(true)));
    var id := w.timers[t].phase.id;
    if w.registered == Some(id) then w1.(registered := None, stops := w.stops + [Stop(t, id)]) else w1
  }

  function Step(w: System, ev: Event): (w': System)
    requires Closed(w)
    ensures Closed(w')
  {
    if !Enabled(w, ev) then w
    else
      match ev
      case Join(bound) => DoJoin(w, bound)
      case Bind(c) => w.(consumers := w.consumers[c := w.consumers[c].(bound := w.registered.value)])
      case Leave(c) => DoLeave(w, c)
      case Fire(t) => w.(timers := SetPhase(w.timers, t, Running))
      case Recount(t) =>
        w.(slot := w.slot.Recheck(),
           timers := SetPhase(w.timers, t, if w.slot.count == 0 then Decided else Done(false)))
      case Look(t) =>
        w.(timers := SetPhase(w.timers, t, if w.registered == Some(BoundOf(w, t)) then Found(BoundOf(w, t)) else Done(true)))
      case Kill(t) => DoKill(w, t)
      case Start(stale) =>
        if w.registered.Some? && !stale then w
        else
          var id := w.counter + 1;
          w.(registered := Some(id), issued := w.issued + {id}, counter := id)
      case Remove => w.(registered := None)
      case OtherChannel => w.(counter := w.counter + 1)
  }

  function Run(events: seq<Event>): (w: System)
    ensures Closed(w)
  {
    if events == [] then INITIAL
    else
      var n := |events| - 1;
      Step(Run(events[..n]), events[n])
  }

  // ----- Invariants -----

  function Joined(consumers: seq<Consumer>): (n: nat)
    ensures n == 0 <==> forall c :: 0 <= c < |consumers| ==> !consumers[c].joined
  {
    if consumers == [] then 0
    else
      var n := |consumers| - 1;
      Joined(consumers[..n]) + if consumers[n].joined then 1 else 0
  }

  lemma {:induction false} JoinedAfterLeave(consumers: seq<Consumer>, c: nat)
    requires c < |consumers| && consumers[c].joined
    ensures Joined(consumers[c := consumers[c].(joined := false)]) == Joined(consumers) - 1
  {
    var n := |consumers| - 1;
    var after := consumers[c := consumers[c].(joined := false)];
    if c < n {
      assert after[..n] == consumers[..n][c := consumers[c].(joined := false)];
      JoinedAfterLeave(consumers[..n], c);
    } else {
      assert after[..n] == consumers[..n];
    }
  }

  lemma {:induction false} JoinedAfterBind(consumers: seq<Consumer>, c: nat, id: int)
    requires c < |consumers|
    ensures Joined(consumers[c := consumers[c].(bound := id)]) == Joined(consumers)
  {
    var n := |consumers| - 1;
    var after := consumers[c := consumers[c].(bound := id)];
    if c < n {
      assert after[..n] == consumers[..n][c := consumers[c].(bound := id)];
      JoinedAfterBind(consumers[..n], c, id);
    } else {
      assert after[..n] == consumers[..n];
    }
  }

  predicate CountExact(w: System) {
    w.slot.count == Joined(w.consumers)
  }

  lemma {:induction false} StepKeepsCount(w: System, ev: Event)
    requires Closed(w) && CountExact(w)
    ensures CountExact(Step(w, ev))
  {
    hide Joined, Closed;
    if Enabled(w, ev) {
      match ev
      case Join(bound) => JoinedAfterJoin(w.consumers, Step(w, ev).consumers);
      case Bind(c) => JoinedAfterBind(w.consumers, c, w.registered.value);
      case Leave(c) => JoinedAfterLeave(w.consumers, c);
      case _ =>
    }
  }

  lemma {:induction false} JoinedAfterJoin(before: seq<Consumer>, after: seq<Consumer>)
    requires |after| == |before| + 1 && after[..|before|] == before && after[|before|].joined
    ensures Joined(after) == Joined(before) + 1
  {
  }

  /** A timer was armed by a consumer that has departed, and session IDs are handed out in order. */
  predicate Ordered(w: System) {
    && Closed(w)
    && (forall t :: 0 <= t < |w.timers| ==>
          && !w.consumers[w.timers[t].owner].joined
          && BoundOf(w, t) <= w.timers[t].counterThen <= w.counter
          && (w.timers[t].phase.Found? ==> w.timers[t].phase.id == BoundOf(w, t)))
    && (forall c :: 0 <= c < |w.consumers| ==> w.consumers[c].bound <= w.counter)
    && 0 <= w.counter && (w.registered.Some? ==> w.registered.value in w.issued)
    && (forall id <- w.issued :: 1 <= id <= w.counter)
  }

  lemma {:induction false} StepKeepsOrdered(w: System, ev: Event)
    requires Ordered(w)
    ensures Ordered(Step(w, ev))
  {
  }

  /** Expired timers are done for good: their owner's session is not registered and cannot come back. */
  predicate Expired(w: System)
    requires Closed(w)
  {
    forall t :: 0 <= t < |w.timers| && w.timers[t].phase == Done(true) ==> w.registered != Some(BoundOf(w, t))
  }

  lemma {:induction false} StepKeepsExpired(w: System, ev: Event)
    requires Ordered(w) && Expired(w)
    ensures Expired(Step(w, ev))
  {
  }

  /** Every stop was made by an expired timer, of the session its owner was bound to. */
  predicate Stopped(w: System)
    requires Closed(w)
  {
    forall k :: 0 <= k < |w.stops| ==>
      && w.stops[k].timer < |w.timers| && w.timers[w.stops[k].timer].phase == Done(true)
      && w.stops[k].id == BoundOf(w, w.stops[k].timer)
  }

  lemma {:induction false} StepKeepsStopped(w: System, ev: Event)
    requires Ordered(w) && Stopped(w)
    ensures Stopped(Step(w, ev))
  {
  }

  /** While nobody is joined, the timer of the last departure is still due to expire or has expired. */
  predicate Covered(w: System) {
    w.slot.count == 0 && w.consumers != [] ==>
      && w.timers != []
      && var last := w.timers[|w.timers| - 1].phase;
         !last.Cancelled? && last != Done(false)
  }

  lemma {:induction false} StepKeepsCovered(w: System, ev: Event)
    requires Closed(w) && Covered(w)
    ensures Covered(Step(w, ev))
  {
  }

  lemma {:induction false} RunKeepsAll(events: seq<Event>)
    ensures var w := Run(events);
            CountExact(w) && Ordered(w) && Expired(w) && Stopped(w) && Covered(w)
  {
    hide CountExact, Ordered, Expired, Stopped, Covered, Step;
    if events == [] {
      InitiallyAll();
    } else {
      var n := |events| - 1;
      var w := Run(events[..n]);
      RunKeepsAll(events[..n]);
      StepKeepsCount(w, events[n]);
      StepKeepsOrdered(w, events[n]);
      StepKeepsExpired(w, events[n]);
      StepKeepsStopped(w, events[n]);
      StepKeepsCovered(w, events[n]);
    }
  }

  lemma {:induction false} InitiallyAll()
    ensures CountExact(INITIAL) && Ordered(INITIAL) && Expired(INITIAL) && Stopped(INITIAL) && Covered(INITIAL)
  {
  }

  // ----- What the protocol guarantees -----

  /** In every run the tracked count is the number of joined consumers. */
  lemma {:induction false} CountIsJoined(events: seq<Event>)
    ensures Run(events).slot.count == Joined(Run(events).consumers)
  {
    hide Run, Joined;
    RunKeepsAll(events);
  }

  /** A callback decides to expire exactly when nobody is joined at its recount. */
  lemma {:induction false} DecidesExactlyWhenEmpty(events: seq<Event>, t: nat)
    requires Enabled(Run(events), Recount(t))
    ensures Step(Run(events), Recount(t)).timers[t].phase.Decided?
            <==> forall c :: 0 <= c < |Run(events).consumers| ==> !Run(events).consumers[c].joined
  {
    hide Run;
    CountIsJoined(events);
  }

  /** No leak: once every consumer has left, the last departure's timer is pending, or its callback is on
      its way, or it has expired; in which case its owner's session is not registered any more. */
  lemma {:induction false} NoLeak(events: seq<Event>)
    requires Run(events).consumers != [] && Joined(Run(events).consumers) == 0
    ensures var w := Run(events);
            && w.timers != []
            && var last := |w.timers| - 1;
               && (w.timers[last].phase in {Armed, Running, Decided, Found(BoundOf(w, last)), Done(true)})
               && (w.timers[last].phase == Done(true) ==> w.registered != Some(BoundOf(w, last)))
  {
    hide Run, Joined;
    RunKeepsAll(events);
  }

  /** An expiry that nothing interrupts clears the registry if and only if its owner was bound to the
      registered session. */
  lemma {:induction false} ExpiryClearsExactlyTheBoundSession(w: System, t: nat)
    requires Closed(w) && Enabled(w, Look(t)) && w.registered.Some?
    ensures Step(Step(w, Look(t)), Kill(t)).registered == None <==> w.registered.value == BoundOf(w, t)
  {
  }

  lemma {:induction false} TimersKeepOwners(before: seq<Event>, after: seq<Event>, t: nat)
    requires t < |Run(before).timers|
    ensures var w, w' := Run(before), Run(before + after);
            && t < |w'.timers| && w'.timers[t].owner == w.timers[t].owner
            && w'.timers[t].counterThen == w.timers[t].counterThen
            && w.timers[t].owner < |w.consumers| <= |w'.consumers|
            && w.counter <= w'.counter
  {
    hide Run;
    if after == [] {
      assert before + after == before;
    } else {
      var n := |after| - 1;
      TimersKeepOwners(before, after[..n], t);
      RunLast(before + after);
      assert (before + after)[..|before + after| - 1] == before + after[..n];
    }
  }

  lemma {:induction false} RunLast(events: seq<Event>)
    requires events != []
    ensures Run(events) == Step(Run(events[..|events| - 1]), events[|events| - 1])
  {
  }

  /** Never a later session: whatever happens after a departure, a stop its timer makes hits the session the
      departed consumer was bound to, which had been started before the consumer left; and that session
      never comes back. */
  lemma {:induction false} StopsOnlyTheBoundSession(before: seq<Event>, c: nat, after: seq<Event>, k: nat)
    requires Enabled(Run(before), Leave(c)) && Run(before).slot.count == 1
    requires var w := Run(before + [Leave(c)] + after);
             k < |w.stops| && w.stops[k].timer == |Run(before).timers|
    ensures var w := Run(before + [Leave(c)] + after);
            && c < |w.consumers| && !w.consumers[c].joined
            && w.stops[k].id == w.consumers[c].bound <= Run(before).counter
            && w.registered != Some(w.stops[k].id)
  {
    hide Run;
    var t := |Run(before).timers|;
    var left := before + [Leave(c)];
    RunLast(left);
    assert left[..|left| - 1] == before;
    assert Run(left).timers[t] == Timer(c, Armed, Run(before).counter);
    TimersKeepOwners(left, after, t);
    RunKeepsAll(left + after);
  }

  lemma {:induction false} RunOn(events: seq<Event>, ev: Event)
    ensures Run(events + [ev]) == Step(Run(events), ev)
  {
    assert (events + [ev])[..|events|] == events;
  }

  /** The last of the later events. */
  lemma {:induction false} RunOnLast(before: seq<Event>, during: seq<Event>)
    requires during != []
    ensures var n := |during| - 1; Run(before + during) == Step(Run(before + during[..n]), during[n])
  {
    var n := |during| - 1;
    assert before + during == before + during[..n] + [during[n]];
    RunOn(before + during[..n], during[n]);
  }

  predicate NoJoin(events: seq<Event>) {
    forall k :: 0 <= k < |events| ==> !events[k].Join?
  }

  /** With nobody joined, nothing but an arrival changes that; no timer is armed, and no binding changes. */
  lemma {:induction false} StaysEmpty(before: seq<Event>, during: seq<Event>)
    requires Run(before).slot.count == 0 && NoJoin(during)
    ensures var w, w' := Run(before), Run(before + during);
            && w'.slot.count == 0 && w'.consumers == w.consumers && |w'.timers| == |w.timers|
            && forall t :: 0 <= t < |w.timers| ==> w'.timers[t].owner == w.timers[t].owner
  {
    hide Run, Joined;
    if during == [] {
      assert before + during == before;
    } else {
      var n := |during| - 1;
      StaysEmpty(before, during[..n]);
      CountIsJoined(before + during[..n]);
      RunOnLast(before, during);
    }
  }

  // ----- Whether a stop hits a consumer that arrived meanwhile -----

  lemma {:induction false} RunGrows(before: seq<Event>, after: seq<Event>)
    ensures Run(before).counter <= Run(before + after).counter
    ensures |Run(before).consumers| <= |Run(before + after).consumers|
  {
    hide Run;
    if after == [] {
      assert before + after == before;
    } else {
      RunGrows(before, after[..|after| - 1]);
      RunOnLast(before, after);
    }
  }

  /** A session registered in the end has been so since it was first known: IDs are never reused. */
  lemma {:induction false} RegisteredThroughout(before: seq<Event>, after: seq<Event>, id: int)
    requires Run(before + after).registered == Some(id) && id <= Run(before).counter
    ensures Run(before).registered == Some(id)
  {
    hide Run;
    if after == [] {
      assert before + after == before;
    } else {
      var n := |after| - 1;
      RunGrows(before, after[..n]);
      RunOnLast(before, after);
      RegisteredThroughout(before, after[..n], id);
    }
  }

  function Joins(events: seq<Event>): nat {
    if events == [] then 0
    else Joins(events[..|events| - 1]) + if events[|events| - 1].Join? then 1 else 0
  }

  lemma {:induction false} ConsumersCounted(before: seq<Event>, during: seq<Event>)
    ensures |Run(before + during).consumers| == |Run(before).consumers| + Joins(during)
  {
    hide Run;
    if during == [] {
      assert before + during == before;
    } else {
      ConsumersCounted(before, during[..|during| - 1]);
      RunOnLast(before, during);
    }
  }

  lemma {:induction false} GoneForGood(before: seq<Event>, during: seq<Event>, c: nat)
    requires c < |Run(before).consumers| && !Run(before).consumers[c].joined
    ensures c < |Run(before + during).consumers| && !Run(before + during).consumers[c].joined
  {
    hide Run;
    if during == [] {
      assert before + during == before;
    } else {
      GoneForGood(before, during[..|during| - 1], c);
      RunOnLast(before, during);
    }
  }

  /** What becomes of a joined consumer while one session stays registered. */
  lemma {:induction false} Afterwards(before: seq<Event>, rest: seq<Event>, c: nat, id: int)
    requires c < |Run(before).consumers| && Run(before).consumers[c].joined
    requires Run(before + rest).registered == Some(id) && id <= Run(before).counter
    ensures var w, w' := Run(before), Run(before + rest);
            && c < |w'.consumers| && (w'.consumers[c].joined <==> Leave(c) !in rest)
            && (w'.consumers[c].joined ==>
                  (w'.consumers[c].bound == id <==> w.consumers[c].bound == id || Bind(c) in rest))
  {
    hide Run;
    if rest == [] {
      assert before + rest == before;
    } else {
      var n := |rest| - 1;
      RunOnLast(before, rest);
      RunGrows(before, rest[..n]);
      assert before + rest == before + rest[..n] + [rest[n]];
      RegisteredThroughout(before + rest[..n], [rest[n]], id);
      Afterwards(before, rest[..n], c, id);
      assert forall ev <- rest :: ev in rest[..n] || ev == rest[n];
    }
  }

  /** The consumer of the k-th event, among those known before, arrives bound to the session or binds to it
      later, and does not leave. */
  predicate ArrivesAndStays(during: seq<Event>, known: nat, id: int, k: nat)
    requires k < |during|
  {
    && during[k].Join?
    && var c := known + Joins(during[..k]);
       Leave(c) !in during[k + 1..] && (during[k].bound == id || Bind(c) in during[k + 1..])
  }

  predicate SomeArrivesAndStays(during: seq<Event>, known: nat, id: int) {
    exists k :: 0 <= k < |during| && ArrivesAndStays(during, known, id, k)
  }

  predicate Watches(w: System, c: nat, id: int) {
    c < |w.consumers| && w.consumers[c].joined && w.consumers[c].bound == id
  }

  lemma {:induction false} Newcomer(before: seq<Event>, during: seq<Event>, id: int, k: nat)
    requires k < |during| && during[k].Join?
    requires Run(before + during).registered == Some(id) && id <= Run(before).counter
    ensures var known := |Run(before).consumers|;
            Watches(Run(before + during), known + Joins(during[..k]), id) <==> ArrivesAndStays(during, known, id, k)
  {
    hide Run, Joins;
    var c := |Run(before).consumers| + Joins(during[..k]);
    var sofar, rest := before + during[..k], during[k + 1..];
    assert before + during == sofar + [during[k]] + rest;
    assert sofar + [during[k]] + rest == sofar + ([during[k]] + rest);
    ConsumersCounted(before, during[..k]);
    RunGrows(before, during[..k]);
    RunOn(sofar, during[k]);
    RunGrows(sofar, [during[k]]);
    RegisteredThroughout(sofar, [during[k]] + rest, id);
    RunKeepsAll(sofar);
    Afterwards(sofar + [during[k]], rest, c, id);
  }

  /** The event by which a consumer arrived. */
  lemma {:induction false} FindArrival(before: seq<Event>, during: seq<Event>, c: nat) returns (k: nat)
    requires |Run(before).consumers| <= c < |Run(before + during).consumers|
    ensures k < |during| && during[k].Join? && c == |Run(before).consumers| + Joins(during[..k])
  {
    hide Run;
    ConsumersCounted(before, during);
    var n := |during| - 1;
    assert during != [];
    if during[n].Join? && c == |Run(before).consumers| + Joins(during[..n]) {
      k := n;
    } else {
      ConsumersCounted(before, during[..n]);
      k := FindArrival(before, during[..n], c);
      assert during[..n][..k] == during[..k];
    }
  }

  /** When a stop hits a watching consumer: after timer t has decided to expire, and whatever follows, a stop
      by t hits a joined consumer bound to the session if and only if one arrived since the recount, came
      bound to the session or bound to it since, and has not left. */
  lemma {:induction false} StopHitsExactly(before: seq<Event>, t: nat, during: seq<Event>, id: int)
    requires Enabled(Run(before), Recount(t)) && Run(before).slot.count == 0
    requires var w := Run(before + [Recount(t)] + during);
             Enabled(w, Kill(t)) && w.timers[t].phase == Found(id) && w.registered == Some(id)
    ensures (exists c: nat :: Watches(Run(before + [Recount(t)] + during), c, id))
            <==> SomeArrivesAndStays(during, |Run(before).consumers|, id)
  {
    hide Run, Joined, ArrivesAndStays;
    var base := before + [Recount(t)];
    var w := Run(base + during);
    RunOn(before, Recount(t));
    CountIsJoined(before);
    RunKeepsAll(base);
    RunKeepsAll(base + during);
    TimersKeepOwners(base, during, t);
    assert id <= Run(base).counter;
    if c: nat :| Watches(w, c, id) {
      if c < |Run(base).consumers| { GoneForGood(base, during, c); }
      var k := FindArrival(base, during, c);
      Newcomer(base, during, id, k);
    }
    if SomeArrivesAndStays(during, |Run(before).consumers|, id) {
      var k :| 0 <= k < |during| && ArrivesAndStays(during, |Run(before).consumers|, id, k);
      assert during[k].Join? by { ArrivalIsJoin(during, |Run(before).consumers|, id, k); }
      Newcomer(base, during, id, k);
    }
  }

  lemma {:induction false} ArrivalIsJoin(during: seq<Event>, known: nat, id: int, k: nat)
    requires k < |during| && ArrivesAndStays(during, known, id, k)
    ensures during[k].Join?
  {
  }

  /** In particular, when nobody arrives between the recount and the stop, nobody at all is joined then. */
  lemma {:induction false} StopSparesEveryone(before: seq<Event>, t: nat, during: seq<Event>)
    requires Enabled(Run(before), Recount(t)) && Run(before).slot.count == 0 && NoJoin(during)
    ensures Joined(Run(before + [Recount(t)] + during).consumers) == 0
  {
    hide Run, Joined;
    RunOn(before, Recount(t));
    StaysEmpty(before + [Recount(t)], during);
    CountIsJoined(before + [Recount(t)] + during);
  }

  // ----- Whether a departure gets its full grace -----

  /** The timer is pending, or its callback is on its way to the recount. */
  predicate MayDecide(timer: Timer) {
    timer.phase.Armed? || timer.phase.Running?
  }

  /** With nobody arriving, timer t comes to its recount and decides while u is still pending. */
  predicate CutsShort(left: seq<Event>, during: seq<Event>, u: nat, t: nat) {
    && NoJoin(during) && t != u
    && var w := Run(left + during);
       && u < |w.timers| && w.timers[u].phase.Armed?
       && Enabled(w, Recount(t)) && Step(w, Recount(t)).timers[t].phase.Decided?
  }

  /** No timer but u may decide, and u is the tracked one while it is pending. */
  predicate OnlyMayDecide(w: System, u: nat) {
    && (forall t :: 0 <= t < |w.timers| && t != u ==> !MayDecide(w.timers[t]))
    && (u < |w.timers| && w.timers[u].phase.Armed? ==> w.slot.timer == Some(u))
  }

  lemma {:induction false} OthersStayQuietStep(w: System, ev: Event, u: nat)
    requires Closed(w) && OnlyMayDecide(w, u) && !ev.Join? && (ev.Leave? ==> !Enabled(w, ev))
    ensures OnlyMayDecide(Step(w, ev), u)
  {
  }

  lemma {:induction false} OthersStayQuiet(before: seq<Event>, during: seq<Event>, u: nat)
    requires Run(before).slot.count == 0 && NoJoin(during) && OnlyMayDecide(Run(before), u)
    ensures OnlyMayDecide(Run(before + during), u)
  {
    hide Run, Joined, Step, OnlyMayDecide;
    if during == [] {
      assert before + during == before;
    } else {
      var n := |during| - 1;
      OthersStayQuiet(before, during[..n], u);
      StaysEmpty(before, during[..n]);
      CountIsJoined(before + during[..n]);
      RunOnLast(before, during);
      OthersStayQuietStep(Run(before + during[..n]), during[n], u);
    }
  }

  lemma {:induction false} Departs(before: seq<Event>, c: nat)
    requires Enabled(Run(before), Leave(c)) && Run(before).slot.count == 1
    ensures var w, w', u := Run(before), Run(before + [Leave(c)]), |Run(before).timers|;
            && w'.slot == Slot(0, Some(u)) && w'.timers == w.timers + [Timer(c, Armed, w.counter)]
            && w'.registered == w.registered
  {
    hide Run;
    RunOn(before, Leave(c));
  }

  /** When grace can be cut short: after the last departure has armed timer u, some continuation without an
      arrival lets another timer decide while u is still pending if and only if, at the departure, an older
      timer is pending or has its callback on the way. */
  lemma {:induction false} GraceCutShortExactly(before: seq<Event>, c: nat)
    requires Enabled(Run(before), Leave(c)) && Run(before).slot.count == 1
    ensures var u := |Run(before).timers|;
            (exists during, t :: CutsShort(before + [Leave(c)], during, u, t))
            <==> exists t :: 0 <= t < u && MayDecide(Run(before).timers[t])
  {
    hide Run;
    var w, u, left := Run(before), |Run(before).timers|, before + [Leave(c)];
    Departs(before, c);
    if t :| 0 <= t < u && MayDecide(w.timers[t]) {
      assert Run(left).timers[t] == w.timers[t] && Run(left).timers[u].phase.Armed?;
      if w.timers[t].phase.Armed? {
        RunOn(left, Fire(t));
        assert CutsShort(left, [Fire(t)], u, t);
      } else {
        assert left + [] == left;
        assert CutsShort(left, [], u, t);
      }
    } else {
      assert OnlyMayDecide(Run(left), u);
      forall during, t ensures !CutsShort(left, during, u, t) {
        if NoJoin(during) { OthersStayQuiet(left, during, u); }
      }
    }
  }

  /** And when grace is full, an arrival while u is pending still cancels it. */
  lemma {:induction false} FullGraceIsCancellable(before: seq<Event>, c: nat, during: seq<Event>, bound: int)
    requires Enabled(Run(before), Leave(c)) && Run(before).slot.count == 1 && NoJoin(during)
    requires forall t :: 0 <= t < |Run(before).timers| ==> !MayDecide(Run(before).timers[t])
    requires var w, u := Run(before + [Leave(c)] + during), |Run(before).timers|;
             u < |w.timers| && w.timers[u].phase.Armed?
    ensures Step(Run(before + [Leave(c)] + during), Join(bound)).timers[|Run(before).timers|].phase.Cancelled?
  {
    hide Run;
    Departs(before, c);
    OthersStayQuiet(before + [Leave(c)], during, |Run(before).timers|);
  }

  // ----- Whether a session is left behind -----

  predicate Settled(timer: Timer) {
    timer.phase.Cancelled? || timer.phase.Done?
  }

  /** Some timer that is still to expire has an owner bound to the session. */
  predicate Provided(w: System, r: int)
    requires Closed(w)
  {
    exists t :: 0 <= t < |w.timers| && !Settled(w.timers[t]) && BoundOf(w, t) == r
  }

  /** Nobody arrives, and no session is started or stopped by request. */
  predicate Undisturbed(events: seq<Event>) {
    forall k :: 0 <= k < |events| ==> !events[k].Join? && !events[k].Start? && !events[k].Remove?
  }

  /** What winding down keeps: due timers can only expire, and only they clear the registry. */
  predicate WindsDown(w: System, w': System, r: int)
    requires Closed(w) && Closed(w')
  {
    && |w'.timers| == |w.timers|
    && (forall t :: 0 <= t < |w.timers| ==>
          && (Settled(w.timers[t]) ==> Settled(w'.timers[t]))
          && (!Settled(w.timers[t]) ==> !w'.timers[t].phase.Cancelled? && w'.timers[t].phase != Done(false)))
    && (w'.registered == Some(r) || (w'.registered == None && Provided(w, r)))
  }

  lemma {:induction false} WindingDown(before: seq<Event>, during: seq<Event>, r: int)
    requires Run(before).slot.count == 0 && Run(before).registered == Some(r) && Undisturbed(during)
    ensures WindsDown(Run(before), Run(before + during), r)
  {
    hide Run, Joined, Ordered;
    if during == [] {
      assert before + during == before;
    } else {
      var n := |during| - 1;
      WindingDown(before, during[..n], r);
      StaysEmpty(before, during[..n]);
      CountIsJoined(before + during[..n]);
      RunKeepsAll(before + during[..n]);
      RunOnLast(before, during);
      WindingDownStep(Run(before), Run(before + during[..n]), during[n], r);
    }
  }

  lemma {:induction false} WindingDownStep(w: System, w': System, ev: Event, r: int)
    requires Closed(w) && Ordered(w') && WindsDown(w, w', r) && w'.slot.count == 0
    requires w'.consumers == w.consumers && forall t :: 0 <= t < |w.timers| ==> w'.timers[t].owner == w.timers[t].owner
    requires !ev.Join? && !ev.Start? && !ev.Remove?
    requires ev.Leave? ==> !Enabled(w', ev)
    ensures WindsDown(w, Step(w', ev), r)
  {
    if ev.Kill? && Enabled(w', ev) {
      var t := ev.timer;
      assert BoundOf(w', t) == BoundOf(w, t) == w'.timers[t].phase.id;
    }
  }

  /** When a session is left behind: from any point where nobody is joined and session r is registered, once
      every timer has run its course with nobody arriving and nothing started or stopped otherwise, r is
      gone if and only if some timer still due at that point had an owner bound to r. */
  lemma {:induction false} OrphanedExactly(before: seq<Event>, during: seq<Event>, r: int)
    requires Run(before).slot.count == 0 && Run(before).registered == Some(r) && Undisturbed(during)
    requires forall t :: 0 <= t < |Run(before + during).timers| ==> Settled(Run(before + during).timers[t])
    ensures Run(before + during).registered == None <==> Provided(Run(before), r)
    ensures Run(before + during).registered == Some(r) <==> !Provided(Run(before), r)
  {
    hide Run, Joined, Ordered;
    var w, w' := Run(before), Run(before + during);
    WindingDown(before, during, r);
    StaysEmpty(before, during);
    RunKeepsAll(before + during);
    if Provided(w, r) {
      var t :| 0 <= t < |w.timers| && !Settled(w.timers[t]) && BoundOf(w, t) == r;
      assert Settled(w'.timers[t]) && w'.timers[t].phase == Done(true) && BoundOf(w', t) == r;
    }
  }

  // ----- Runs in which each of the three goes wrong -----

  lemma {:induction false} NothingYet()
    ensures Run([]) == INITIAL
  {
  }

  lemma {:induction false} Then(events: seq<Event>, w: System, ev: Event, w': System) returns (longer: seq<Event>)
    requires Run(events) == w && Step(w, ev) == w'
    ensures Run(longer) == w'
  {
    longer := events + [ev];
    RunOn(events, ev);
  }

  /** A consumer leaves and its callback starts; another comes and goes before the recount. The callback
      then decides at once and untracks the newer timer, which is still pending. */
  lemma {:induction false} GraceCanBeCutShort() returns (events: seq<Event>)
    ensures var w := Run(events);
            w.timers == [Timer(0, Decided, 0), Timer(1, Armed, 0)] && w.slot == EMPTY_SLOT
  {
    hide Run;
    var one, gone, two := [Consumer(true, 0)], [Consumer(false, 0)], [Consumer(false, 0), Consumer(false, 0)];
    var w1 := System(Slot(1, None), one, [], None, {}, 0, []);
    var w2 := System(Slot(0, Some(0)), gone, [Timer(0, Armed, 0)], None, {}, 0, []);
    var w3 := w2.(timers := [Timer(0, Running, 0)]);
    var w4 := w3.(slot := Slot(1, None), consumers := [Consumer(false, 0), Consumer(true, 0)]);
    var w5 := w4.(slot := Slot(0, Some(1)), consumers := two, timers := [Timer(0, Running, 0), Timer(1, Armed, 0)]);
    var w6 := w5.(slot := EMPTY_SLOT, timers := [Timer(0, Decided, 0), Timer(1, Armed, 0)]);
    NothingYet();
    events := Then([], INITIAL, Join(0), w1);
    events := Then(events, w1, Leave(0), w2);
    events := Then(events, w2, Fire(0), w3);
    events := Then(events, w3, Join(0), w4);
    events := Then(events, w4, Leave(1), w5);
    events := Then(events, w5, Recount(0), w6);
  }

  /** A session started, served to one consumer, who has left. */
  const DEPARTED := System(Slot(0, Some(0)), [Consumer(false, 1)], [Timer(0, Armed, 1)], Some(1), {1}, 1, [])

  lemma {:induction false} CanDepart() returns (events: seq<Event>)
    ensures Run(events) == DEPARTED
  {
    hide Run;
    var w1 := INITIAL.(registered := Some(1), issued := {1}, counter := 1);
    var w2 := w1.(slot := Slot(1, None), consumers := [Consumer(true, 1)]);
    NothingYet();
    events := Then([], INITIAL, Start(false), w1);
    events := Then(events, w1, Join(1), w2);
    events := Then(events, w2, Leave(0), DEPARTED);
  }

  /** A consumer arrives between the recount and the stop: the session it is bound to is stopped under it. */
  lemma {:induction false} StopCanHitANewConsumer() returns (events: seq<Event>)
    ensures var w := Run(events);
            w.consumers == [Consumer(false, 1), Consumer(true, 1)] && w.stops == [Stop(0, 1)] && w.registered == None
  {
    hide Run;
    var w4 := DEPARTED.(timers := [Timer(0, Running, 1)]);
    var w5 := w4.(slot := EMPTY_SLOT, timers := [Timer(0, Decided, 1)]);
    var w6 := w5.(slot := Slot(1, None), consumers := [Consumer(false, 1), Consumer(true, 1)]);
    var w7 := w6.(timers := [Timer(0, Found(1), 1)]);
    var w8 := w7.(timers := [Timer(0, Done(true), 1)], registered := None, stops := [Stop(0, 1)]);
    events := CanDepart();
    events := Then(events, DEPARTED, Fire(0), w4);
    events := Then(events, w4, Recount(0), w5);
    events := Then(events, w5, Join(1), w6);
    events := Then(events, w6, Look(0), w7);
    events := Then(events, w7, Kill(0), w8);
  }

  /** The last consumer to leave had failed to bind, after cancelling its predecessor's timer: everything has
      run its course, nobody is joined, and the predecessor's session is still registered. */
  lemma {:induction false} SessionCanBeOrphaned() returns (events: seq<Event>)
    ensures var w := Run(events);
            w.slot == EMPTY_SLOT && w.registered == Some(1)
            && w.timers == [Timer(0, Cancelled, 1), Timer(1, Done(true), 1)]
  {
    hide Run;
    var first := Timer(0, Cancelled, 1);
    var w4 := DEPARTED.(slot := Slot(1, None), consumers := [Consumer(false, 1), Consumer(true, 0)], timers := [first]);
    var w5 := w4.(slot := Slot(0, Some(1)), consumers := [Consumer(false, 1), Consumer(false, 0)],
                  timers := [first, Timer(1, Armed, 1)]);
    var w6 := w5.(timers := [first, Timer(1, Running, 1)]);
    var w7 := w6.(slot := EMPTY_SLOT, timers := [first, Timer(1, Decided, 1)]);
    var w8 := w7.(timers := [first, Timer(1, Done(true), 1)]);
    events := CanDepart();
    events := Then(events, DEPARTED, Join(0), w4);
    events := Then(events, w4, Leave(1), w5);
    events := Then(events, w5, Fire(1), w6);
    events := Then(events, w6, Recount(1), w7);
    events := Then(events, w7, Look(1), w8);
  }

  // ----- The tracker itself -----

  /** The consumers tracked per device channel, under one lock. pending: the timers whose callback the
      runtime has not started. */
  class WatcherSet {
    var counts: map<string, nat>
    var timers: map<string, nat>
    var pending: set<nat>
    var nextTimer: nat

    ghost predicate Valid()
      reads this
    {
      && (forall key <- counts :: counts[key] > 0)
      && (forall key <- timers :: timers[key] < nextTimer)
      && (forall t <- pending :: t < nextTimer)
    }

    ghost function SlotOf(key: string): Slot
      reads this
    {
      Slot(if key in counts then counts[key] else 0, if key in timers then Some(timers[key]) else None)
    }

    constructor ()
      ensures Valid() && counts == map[] && timers == map[] && pending == {} && nextTimer == 0
    {
      counts, timers, pending, nextTimer := map[], map[], {}, 0;
    }

    /** A consumer joins; the channel's tracked timer is stopped if it is still pending. */
    method Add(key: string) returns (count: nat)
      requires Valid()
      modifies this
      ensures Valid() && SlotOf(key) == old(SlotOf(key)).Add() && count == SlotOf(key).count
      ensures counts == old(counts)[key := count] && count == (if key in old(counts) then old(counts)[key] else 0) + 1
      ensures timers == old(timers) - {key}
      ensures forall other :: other != key ==> SlotOf(other) == old(SlotOf(other))
      ensures pending == old(pending) - (if key in old(timers) then {old(timers)[key]} else {})
      ensures nextTimer == old(nextTimer)
    {
      if key in timers {
        pending := pending - {timers[key]};
        timers := timers - {key};
      }
      counts := counts[key := if key in counts then counts[key] + 1 else 1];
      count := counts[key];
    }

    /** A consumer leaves; the last one to leave arms a timer. A removal of what is not tracked does
        nothing. */
    method Remove(key: string)
      requires Valid()
      modifies this
      ensures Valid() && SlotOf(key) == old(SlotOf(key)).Remove(old(nextTimer))
      ensures key !in old(counts) ==>
                counts == old(counts) && timers == old(timers) && pending == old(pending) && nextTimer == old(nextTimer)
      ensures key in old(counts) && old(counts)[key] > 1 ==>
                counts == old(counts)[key := old(counts)[key] - 1] && timers == old(timers)
                && pending == old(pending) && nextTimer == old(nextTimer)
      ensures key in old(counts) && old(counts)[key] == 1 ==>
                counts == old(counts) - {key} && timers == old(timers)[key := old(nextTimer)]
                && pending == old(pending) + {old(nextTimer)} && nextTimer == old(nextTimer) + 1
      ensures forall other :: other != key ==> SlotOf(other) == old(SlotOf(other))
      ensures old(SlotOf(key)).Arms() ==>
                pending == old(pending) + {old(nextTimer)} && nextTimer == old(nextTimer) + 1
      ensures !old(SlotOf(key)).Arms() ==> pending == old(pending) && nextTimer == old(nextTimer)
    {
      if key !in counts {
        return;
      }
      var count := counts[key] - 1;
      if count > 0 {
        counts := counts[key := count];
        return;
      }
      counts := counts - {key};
      timers := timers[key := nextTimer];
      pending := pending + {nextTimer};
      nextTimer := nextTimer + 1;
    }

    /** The runtime starts a pending timer's callback. */
    method Begin(timer: nat)
      requires Valid() && timer in pending
      modifies this`pending
      ensures Valid() && pending == old(pending) - {timer}
    {
      pending := pending - {timer};
    }

    /** The locked section of a callback: whether it goes on to expire. */
    method Recount(key: string) returns (empty: bool)
      requires Valid()
      modifies this`timers
      ensures Valid() && SlotOf(key) == old(SlotOf(key)).Recheck()
      ensures timers == old(timers) - {key} && (empty <==> key !in counts)
      ensures forall other :: other != key ==> SlotOf(other) == old(SlotOf(other))
      ensures empty <==> old(SlotOf(key)).count == 0
    {
      timers := timers - {key};
      empty := key !in counts;
    }
  }
}
