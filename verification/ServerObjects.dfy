/**
 Class `Server` with the fields the accept handler and `remove_session` update.  First the atomic steps of the
 threads, each proved to be the step of the same name in module `Admission`; then the accept handler, which
 takes its steps in the source's order while other threads take any number of theirs between any two of them,
 and the chain of accept handlers.  Whatever the interleaving, the server makes a run of module `Admission`.
 */
module ServerObjects {
  import opened Admission

  /** Where the threads are: the one with the accept chain, and those that stop and remove sessions. */
  datatype Threads = Threads(
    phase: Phase, stopped: set<SessionId>, erased: set<SessionId>, loaded: set<SessionId>, removing: set<SessionId>)

  class Server {
    const maxSessions: nat
    var acceptorOpen: bool
    var activeConnections: nat
    var sessions: set<SessionId>
    var nextId: nat
    var threads: Threads
    ghost var inserted: set<SessionId>
    ghost var early: set<SessionId>
    ghost var removed: set<SessionId>

    constructor (maxSessions: nat)
      requires maxSessions < SIZE_LIMIT
      ensures Valid() && View() == Init(maxSessions) && this.maxSessions == maxSessions
    {
      this.maxSessions := maxSessions;
      acceptorOpen, activeConnections, sessions, nextId := true, 0, {}, 0;
      threads := Threads(Listening, {}, {}, {}, {});
      inserted, early, removed := {}, {}, {};
      new;
      IdsSize(0);
    }

    ghost function View(): ServerState
      reads this
    {
      ServerState(maxSessions, acceptorOpen, threads.phase, activeConnections, sessions, nextId, inserted,
                  threads.stopped, threads.erased, early, threads.loaded, threads.removing, removed)
    }

    ghost predicate Valid()
      reads this
    {
      maxSessions < SIZE_LIMIT && CountOk(View()) && RegistryOk(View())
    }

    /** The accept handler is entered; `proceed` if there is a connection to admit. */
    method OnAccept(ok: bool) returns (proceed: bool)
      requires Valid() && Enabled(View(), Accept(ok))
      modifies this
      ensures Valid() && View() == Next(old(View()), Accept(ok))
      ensures proceed <==> View().phase == Accepted
    {
      Kept(View(), Accept(ok));
      if !acceptorOpen {
        threads := threads.(phase := Finished);
        return false;
      }
      if ok {
        threads := threads.(phase := Accepted);
        return true;
      }
      return false;
    }

    /** The check in `add_connection`. */
    method CheckCount() returns (below: bool)
      requires Valid() && Enabled(View(), Event.CheckCount)
      modifies this
      ensures Valid() && View() == Next(old(View()), Event.CheckCount)
      ensures below <==> View().phase == Admitted
    {
      Kept(View(), Event.CheckCount);
      if activeConnections >= maxSessions {
        threads := threads.(phase := Listening);
        return false;
      }
      threads := threads.(phase := Admitted);
      return true;
    }

    /** The increment in `add_connection`. */
    method IncrementCount()
      requires Valid() && Enabled(View(), Event.IncrementCount)
      modifies this
      ensures Valid() && View() == Next(old(View()), Event.IncrementCount)
      ensures activeConnections == old(activeConnections) + 1 <= maxSessions
    {
      Kept(View(), Event.IncrementCount);
      threads := threads.(phase := Counted);
      activeConnections := Increment(activeConnections);
    }

    /** The session object is made and started; its handlers run from here on. */
    method StartSession() returns (id: SessionId)
      requires Valid() && Enabled(View(), Event.StartSession)
      modifies this
      ensures Valid() && View() == Next(old(View()), Event.StartSession)
      ensures View().phase == Starting(id) && id !in sessions
    {
      Kept(View(), Event.StartSession);
      id := nextId;
      threads := threads.(phase := Starting(id));
      nextId := nextId + 1;
    }

    /** The critical section of the accept handler. */
    method InsertSession(id: SessionId)
      requires Valid() && View().phase == Starting(id)
      modifies this
      ensures Valid() && View() == Next(old(View()), Event.InsertSession)
    {
      Kept(View(), Event.InsertSession);
      threads, inserted := threads.(phase := Listening), inserted + {id};
      sessions := sessions + {id};
    }

    /** A session has set its stopped flag on its own strand; nothing of the server changes. */
    method SessionStopped(id: SessionId)
      requires Valid() && Enabled(View(), SessionStops(id))
      modifies this`threads
      ensures Valid() && View() == Next(old(View()), SessionStops(id))
    {
      Kept(View(), SessionStops(id));
      threads := threads.(stopped := threads.stopped + {id});
    }

    /** `remove_session`, called by the session's `on_close_`. */
    method RemoveSession(id: SessionId)
      requires Valid() && Enabled(View(), EraseSession(id))
      modifies this
      ensures Valid() && View() == Next(old(View()), EraseSession(id))
      ensures sessions == old(sessions) - {id}
    {
      Kept(View(), EraseSession(id));
      threads := threads.(erased := threads.erased + {id});
      early := if id in inserted then early else early + {id};
      sessions := sessions - {id};
    }

    method Stop()
      requires Valid()
      modifies this
      ensures Valid() && View() == Next(old(View()), CloseAcceptor)
      ensures !acceptorOpen
    {
      Kept(View(), CloseAcceptor);
      acceptorOpen := false;
    }

    /** The check in `remove_connection`; it never finds the counter at zero. */
    method LoadForRemoval(id: SessionId) returns (positive: bool)
      requires Valid() && Enabled(View(), Event.LoadForRemoval(id))
      modifies this
      ensures Valid() && View() == Next(old(View()), Event.LoadForRemoval(id))
      ensures positive && id in View().removing
    {
      Kept(View(), Event.LoadForRemoval(id));
      SomeoneCounted(View(), id);
      positive := activeConnections > 0;
      threads := threads.(loaded := threads.loaded + {id},
                          removing := if positive then threads.removing + {id} else threads.removing);
    }

    /** The decrement in `remove_connection`. */
    method DecrementForRemoval(id: SessionId)
      requires Valid() && Enabled(View(), Event.DecrementForRemoval(id))
      modifies this
      ensures Valid() && View() == Next(old(View()), Event.DecrementForRemoval(id))
      ensures activeConnections == old(activeConnections) - 1
    {
      Kept(View(), Event.DecrementForRemoval(id));
      threads, removed := threads.(removing := threads.removing - {id}), removed + {id};
      activeConnections := Decrement(activeConnections);
    }

    // ----- Threads -----

    /** Steps of other threads, as far as they can be taken. */
    method Others(es: seq<Event>)
      requires Valid() && AllOtherThreads(es)
      modifies this
      ensures Valid() && View() == Run(old(View()), es)
      ensures View().phase == old(View().phase) && nextId == old(nextId)
    {
      for i := 0 to |es|
        invariant Valid() && View().phase == old(View().phase) && nextId == old(nextId)
        invariant Run(View(), es[i..]) == Run(old(View()), es)
      {
        var e := es[i];
        assert es[i..][0] == e && es[i..][1..] == es[i + 1..];
        hide Run, CountOk, RegistryOk;
        Other(e);
        assert Run(old(View()), es) == Run(View(), es[i + 1..]);
      }
    }

    /** Whether some other thread is where it takes this step next. */
    predicate CanTake(e: Event): (can: bool)
      reads this
      ensures OtherThread(e) ==> (can <==> Enabled(View(), e))
    {
      match e
      case SessionStops(id) => id < nextId && id !in threads.stopped
      case EraseSession(id) => id in threads.stopped && id !in threads.erased
      case CloseAcceptor => true
      case LoadForRemoval(id) => id < nextId && id !in threads.loaded
      case DecrementForRemoval(id) => id in threads.removing
      case _ => false
    }

    method Other(e: Event)
      requires Valid() && OtherThread(e)
      modifies this
      ensures Valid() && View() == Next(old(View()), e)
      ensures View().phase == old(View().phase) && nextId == old(nextId)
    {
      if CanTake(e) {
        match e {
          case SessionStops(id) => SessionStopped(id);
          case EraseSession(id) => RemoveSession(id);
          case CloseAcceptor => Stop();
          case LoadForRemoval(id) => var _ := LoadForRemoval(id);
          case DecrementForRemoval(id) => DecrementForRemoval(id);
        }
      }
    }

    /** `add_connection`; `between` is what other threads do between its check and its increment. */
    method AddConnection(between: seq<Event>) returns (added: bool, ghost es: seq<Event>)
      requires Valid() && View().phase == Accepted && AllOtherThreads(between)
      modifies this
      ensures Valid() && View() == Run(old(View()), es)
      ensures nextId == old(nextId) && (added <==> old(activeConnections) < maxSessions)
      ensures es == if added then AddSteps(between) else [Event.CheckCount]
      ensures View().phase == if added then Counted else Listening
    {
      ghost var s := View();
      RunOne(s, Event.CheckCount);
      es := [Event.CheckCount];
      added := CheckCount();
      if !added {
        return;
      }
      RunAppend(s, es, between);
      es := es + between;
      Others(between);
      RunPush(s, es, Event.IncrementCount);
      es := es + [Event.IncrementCount];
      IncrementCount();
    }

    /**
     The accept handler, with what other threads do before its check, inside `add_connection`, before the session
     is made and before it is inserted.  It is a run of the interleaved steps; it makes a session exactly if the
     acceptor is open, there is no error and the check finds the counter below the limit; and unless it has found
     the acceptor closed it listens again.
     */
    method OnAccepted(ok: bool, others: Interference) returns (ghost es: seq<Event>)
      requires Valid() && View().phase == Listening && others.Valid()
      modifies this
      ensures Valid() && View() == Run(old(View()), es)
      ensures var checked := Run(old(View()), [Accept(ok)] + others.beforeCheck);
              var admits := old(acceptorOpen) && ok && checked.active < maxSessions;
              && es == (if !old(acceptorOpen) || !ok then [Accept(ok)]
                        else if admits then HandlerSteps(others)
                        else [Accept(ok)] + others.beforeCheck + [Event.CheckCount])
              && nextId == old(nextId) + (if admits then 1 else 0)
      ensures View().phase == if old(acceptorOpen) then Listening else Finished
    {
      hide Run, CountOk, RegistryOk;
      ghost var s := View();
      RunOne(s, Accept(ok));
      es := [Accept(ok)];
      var proceed := OnAccept(ok);
      if !proceed {
        return;
      }
      RunAppend(s, es, others.beforeCheck);
      es := es + others.beforeCheck;
      Others(others.beforeCheck);
      var added;
      ghost var steps;
      added, steps := AddConnection(others.beforeIncrement);
      RunAppend(s, es, steps);
      es := es + steps;
      if !added {
        return;
      }
      RunAppend(s, es, others.beforeStart);
      es := es + others.beforeStart;
      Others(others.beforeStart);
      RunPush(s, es, Event.StartSession);
      es := es + [Event.StartSession];
      var id := StartSession();
      RunAppend(s, es, others.beforeInsert);
      es := es + others.beforeInsert;
      Others(others.beforeInsert);
      RunPush(s, es, Event.InsertSession);
      es := es + [Event.InsertSession];
      InsertSession(id);
    }
  }

  /** What other threads do while an accept handler runs. */
  datatype Interference = Interference(beforeCheck: seq<Event>, beforeIncrement: seq<Event>,
                                       beforeStart: seq<Event>, beforeInsert: seq<Event>) {
    ghost predicate Valid() {
      && AllOtherThreads(beforeCheck) && AllOtherThreads(beforeIncrement)
      && AllOtherThreads(beforeStart) && AllOtherThreads(beforeInsert)
    }
  }

  ghost function AddSteps(between: seq<Event>): seq<Event> {
    [CheckCount] + between + [IncrementCount]
  }

  /** The interleaving of an accept handler that admits a session. */
  ghost function HandlerSteps(others: Interference): seq<Event> {
    [Accept(true)] + others.beforeCheck + AddSteps(others.beforeIncrement) + others.beforeStart + [StartSession]
    + others.beforeInsert + [InsertSession]
  }

  /** A completion of `async_accept`, what other threads do before it and while it is handled. */
  datatype Completed = Completed(ok: bool, before: seq<Event>, during: Interference)

  /**
   The chain of accept handlers over any number of completions: each handler has started the next `async_accept`
   unless it found the acceptor closed.  What happens to the server is a run of module `Admission`, and every
   theorem there applies to the object.
   */
  method Serve(maxSessions: nat, completions: seq<Completed>) returns (server: Server, ghost es: seq<Event>)
    requires maxSessions < SIZE_LIMIT
    requires forall c | c in completions :: AllOtherThreads(c.before) && c.during.Valid()
    ensures fresh(server) && server.Valid() && server.maxSessions == maxSessions
    ensures server.View() == Run(Init(maxSessions), es)
    ensures server.View().phase in {Listening, Finished}
    ensures server.activeConnections <= maxSessions
    ensures AsCoded(es) ==> |server.sessions| <= server.activeConnections
  {
    server := new Server(maxSessions);
    es := [];
    var i := 0;
    while i < |completions| && server.threads.phase == Listening
      invariant i <= |completions| && fresh(server) && server.Valid() && server.maxSessions == maxSessions
      invariant server.View() == Run(Init(maxSessions), es)
      invariant server.View().phase in {Listening, Finished}
    {
      hide Run, CountOk, RegistryOk;
      var c := completions[i];
      RunAppend(Init(maxSessions), es, c.before);
      es := es + c.before;
      server.Others(c.before);
      ghost var steps := server.OnAccepted(c.ok, c.during);
      RunAppend(Init(maxSessions), es, steps);
      es := es + steps;
      i := i + 1;
    }
    if AsCoded(es) {
      RegistryWithinCount(maxSessions, es);
    }
  }

  lemma Kept(s: ServerState, e: Event)
    requires CountOk(s) && RegistryOk(s) && s.maxSessions < SIZE_LIMIT
    ensures CountOk(Next(s, e)) && RegistryOk(Next(s, e))
    ensures Enabled(s, e) && e.IncrementCount? ==> Next(s, e).active == s.active + 1
    ensures Enabled(s, e) && e.DecrementForRemoval? ==> s.active > 0 && Next(s, e).active == s.active - 1
  {
    NextCount(s, e);
    NextRegistry(s, e);
  }

  /** While some admitted session's connection has not been removed, the counter is positive. */
  lemma SomeoneCounted(s: ServerState, id: SessionId)
    requires CountOk(s) && id < s.nextId && id !in s.removed
    ensures s.active > 0
  {
    IdsSize(s.nextId);
    SubsetSize(s.removed + {id}, Ids(s.nextId));
  }
}
