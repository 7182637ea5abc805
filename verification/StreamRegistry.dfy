/** The registry of sessions, one per device channel, behind the guarded stop. */
module StreamRegistry {
  import opened Common
  import opened FrameWindow
  import opened StreamSessions

  class Registry {
    /** The last session ID handed out. */
    var counter: int
    var active: map<string, StreamSession>

    /** No two channels share an ID, and none is past the counter. */
    ghost predicate Valid()
      reads this
    {
      && 0 <= counter
      && (forall key <- active :: 1 <= active[key].id <= counter)
      && (forall k, l :: k in active && l in active && active[k].id == active[l].id ==> k == l)
    }

    ghost function Registered(key: string): Option<int>
      reads this
    {
      if key in active then Some(active[key].id) else None
    }

    constructor ()
      ensures Valid() && active == map[] && counter == 0
    {
      counter, active := 0, map[];
    }

    /** Reuses the channel's live session or registers a new one under an ID never used before. stale: the
        channel's session, if there is one, has gone stale. */
    method StartStream(key: string, codec: int, stale: bool) returns (session: StreamSession)
      requires Valid()
      modifies this
      ensures Valid() && key in active && active[key] == session
      ensures key in old(active) && !stale ==> active == old(active) && counter == old(counter)
      ensures !(key in old(active) && !stale) ==>
                && fresh(session) && session.Valid() && session.AsView() == NEW_VIEW && session.codec == codec
                && session.id == counter == old(counter) + 1 && active == old(active)[key := session]
    {
      hide StreamSession.Valid, StreamSession.Recorded;
      if key in active && !stale {
        return active[key];
      }
      counter := counter + 1;
      session := new StreamSession(counter, codec);
      active := active[key := session];
    }

    /** Unregisters the channel's session and drops its frames; the session's other fields stay. */
    method StopStream(key: string) returns (ok: bool)
      requires Valid()
      modifies this`active, (if key in active then {active[key]} else {})`frameBuffer
      ensures Valid() && ok == (key in old(active)) && active == old(active) - {key}
      ensures ok ==> old(active)[key].frameBuffer == []
    {
      if key !in active {
        return false;
      }
      var session := active[key];
      active := active - {key};
      session.frameBuffer := [];
      return true;
    }

    /** Stops the channel's session only if its ID matches. */
    method StopStreamIfID(key: string, id: int) returns (ok: bool)
      requires Valid()
      modifies this`active, (if Registered(key) == Some(id) then {active[key]} else {})`frameBuffer
      ensures Valid() && ok == (old(Registered(key)) == Some(id))
      ensures active == if ok then old(active) - {key} else old(active)
      ensures ok ==> old(active)[key].frameBuffer == []
    {
      if key !in active || active[key].id != id {
        return false;
      }
      var session := active[key];
      active := active - {key};
      session.frameBuffer := [];
      return true;
    }
  }
}
