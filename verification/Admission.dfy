/**
 `Server`: admission of connections by one accept chain while other threads close sessions.

 A step is what one thread does atomically: one access to the atomic counter, one critical section on the
 session mutex, one `stop` of a session up to its `on_close_` callback.  The accept handler is cut into such
 steps, so that any steps of other threads may come between its check of the counter and its increment, or
 between the start of a session and its insertion.

 `remove_connection` is part of the transition system although nothing in the source calls it: its load and
 its decrement are separate steps, taken at most once per admitted session.  Runs without them are the
 server as coded.
 */
module Admission {

  /** The range of `size_t`. */
  const SIZE_LIMIT: nat := 0x1_0000_0000_0000_0000

  type SessionId = nat

  /** Where the accept chain is. */
  datatype Phase =
    | Listening                 // async_accept outstanding
    | Accepted                  // in the handler, before the check of the counter
    | Admitted                  // the check passed, before the increment
    | Counted                   // before the session is made and started
    | Starting(id: SessionId)   // the session runs, before its insertion
    | Finished                  // the handler found the acceptor closed

  /**
   `nextId` counts the sessions made so far.  History: which sessions were inserted, stopped, erased, erased
   before their insertion, and for which the load and the decrement of `remove_connection` have run.
   */
  datatype ServerState = ServerState(
    maxSessions: nat, acceptorOpen: bool, phase: Phase, active: nat, sessions: set<SessionId>,
    nextId: nat, inserted: set<SessionId>, stopped: set<SessionId>, erased: set<SessionId>, early: set<SessionId>,
    loaded: set<SessionId>, removing: set<SessionId>, removed: set<SessionId>)

  function Init(maxSessions: nat): ServerState {
    ServerState(maxSessions, true, Listening, 0, {}, 0, {}, {}, {}, {}, {}, {}, {})
  }

  datatype Event =
    | Accept(ok: bool)
    | CheckCount
    | IncrementCount
    | StartSession
    | InsertSession
    | SessionStops(id: SessionId)
    | EraseSession(id: SessionId)
    | CloseAcceptor
    | LoadForRemoval(id: SessionId)
    | DecrementForRemoval(id: SessionId)

  predicate Enabled(s: ServerState, e: Event) {
    match e
    case Accept(_) => s.phase == Listening
    case CheckCount => s.phase == Accepted
    case IncrementCount => s.phase == Admitted
    case StartSession => s.phase == Counted
    case InsertSession => s.phase.Starting?
    case SessionStops(id) => id < s.nextId && id !in s.stopped
    case EraseSession(id) => id in s.stopped && id !in s.erased
    case CloseAcceptor => true
    case LoadForRemoval(id) => id < s.nextId && id !in s.loaded
    case DecrementForRemoval(id) => id in s.removing
  }

  function Increment(n: nat): nat {
    if n + 1 == SIZE_LIMIT then 0 else n + 1
  }

  function Decrement(n: nat): nat {
    if n == 0 then SIZE_LIMIT - 1 else n - 1
  }

  function Apply(s: ServerState, e: Event): ServerState
    requires Enabled(s, e)
  {
    match e
    case Accept(ok) =>
      if !s.acceptorOpen then s.(phase := Finished) else if ok then s.(phase := Accepted) else s
    case CheckCount =>
      if s.active >= s.maxSessions then s.(phase := Listening) else s.(phase := Admitted)
    case IncrementCount => s.(active := Increment(s.active), phase := Counted)
    case StartSession => s.(phase := Starting(s.nextId), nextId := s.nextId + 1)
    case InsertSession =>
      s.(sessions := s.sessions + {s.phase.id}, inserted := s.inserted + {s.phase.id}, phase := Listening)
    case SessionStops(id) => s.(stopped := s.stopped + {id})
    case EraseSession(id) =>
      s.(sessions := s.sessions - {id}, erased := s.erased + {id},
         early := if id in s.inserted then s.early else s.early + {id})
    case CloseAcceptor => s.(acceptorOpen := false)
    case LoadForRemoval(id) =>
      s.(loaded := s.loaded + {id}, removing := if s.active > 0 then s.removing + {id} else s.removing)
    case DecrementForRemoval(id) =>
      s.(active := Decrement(s.active), removing := s.removing - {id}, removed := s.removed + {id})
  }

  /** An event that is not enabled leaves the server alone. */
  function Next(s: ServerState, e: Event): ServerState {
    if Enabled(s, e) then Apply(s, e) else s
  }

  function Run(s: ServerState, es: seq<Event>): ServerState
    decreases |es|
  {
    if es == [] then s else Run(Next(s, es[0]), es[1..])
  }

  lemma {:induction false} RunAppend(s: ServerState, es: seq<Event>, fs: seq<Event>)
    ensures Run(s, es + fs) == Run(Run(s, es), fs)
    decreases |es|
  {
    if es == [] {
      assert es + fs == fs;
    } else {
      RunAppend(Next(s, es[0]), es[1..], fs);
      assert (es + fs)[1..] == es[1..] + fs;
    }
  }

  lemma RunOne(s: ServerState, e: Event)
    ensures Run(s, [e]) == Next(s, e)
  {
    assert Run(s, [e]) == Run(Next(s, e), []);
  }

  lemma RunPush(s: ServerState, es: seq<Event>, e: Event)
    ensures Run(s, es + [e]) == Next(Run(s, es), e)
  {
    RunAppend(s, es, [e]);
    RunOne(Run(s, es), e);
  }

  /** Steps of threads other than the one that runs the accept handler. */
  predicate OtherThread(e: Event) {
    e.SessionStops? || e.EraseSession? || e.CloseAcceptor? || e.LoadForRemoval? || e.DecrementForRemoval?
  }

  predicate AllOtherThreads(es: seq<Event>) {
    forall i | 0 <= i < |es| :: OtherThread(es[i])
  }

  // ----- What every step keeps -----

  ghost function Ids(n: nat): (ids: set<SessionId>)
    ensures forall i: nat :: i in ids <==> i < n
  {
    if n == 0 then {} else Ids(n - 1) + {n - 1}
  }

  lemma {:induction false} IdsSize(n: nat)
    ensures |Ids(n)| == n
  {
    if n > 0 {
      IdsSize(n - 1);
    }
  }

  lemma {:induction false} SubsetSize(a: set<SessionId>, b: set<SessionId>)
    requires a <= b
    ensures |a| <= |b|
  {
    if a != {} {
      var x :| x in a;
      SubsetSize(a - {x}, b - {x});
    }
  }

  /** The counter is the number of admissions less the number of decrements, and within its bound. */
  ghost predicate CountOk(s: ServerState) {
    && s.active + |s.removed| == s.nextId + (if s.phase == Counted then 1 else 0)
    && s.removed <= Ids(s.nextId) && s.removing <= s.loaded <= Ids(s.nextId)
    && s.removing !! s.removed && s.removed <= s.loaded
    && s.active <= s.maxSessions
    && (s.phase == Admitted ==> s.active < s.maxSessions)
  }

  ghost predicate RegistryOk(s: ServerState) {
    && s.inserted == (if s.phase.Starting? then Ids(s.nextId) - {s.phase.id} else Ids(s.nextId))
    && (s.phase.Starting? ==> s.phase.id < s.nextId)
    && s.erased - s.inserted <= s.early
    && s.early <= s.erased <= s.stopped <= Ids(s.nextId)
    && forall id :: id in s.sessions <==> id in s.inserted && (id in s.erased ==> id in s.early)
  }

  lemma NextCount(s: ServerState, e: Event)
    requires CountOk(s) && s.maxSessions < SIZE_LIMIT
    ensures CountOk(Next(s, e))
    ensures Enabled(s, e) && e.IncrementCount? ==> Next(s, e).active == s.active + 1
    ensures Enabled(s, e) && e.DecrementForRemoval? ==> s.active > 0 && Next(s, e).active == s.active - 1
  {
    if Enabled(s, e) && e.DecrementForRemoval? {
      assert e.id !in s.removed;
      SubsetSize(s.removed + {e.id}, Ids(s.nextId));
      IdsSize(s.nextId);
    }
  }

  lemma NextRegistry(s: ServerState, e: Event)
    requires RegistryOk(s)
    ensures RegistryOk(Next(s, e))
  {
  }

  lemma {:induction false} RunOk(s: ServerState, es: seq<Event>)
    requires CountOk(s) && RegistryOk(s) && s.maxSessions < SIZE_LIMIT
    ensures CountOk(Run(s, es)) && RegistryOk(Run(s, es)) && Run(s, es).maxSessions == s.maxSessions
    decreases |es|
  {
    if es != [] {
      NextCount(s, es[0]);
      NextRegistry(s, es[0]);
      assert Next(s, es[0]).maxSessions == s.maxSessions;
      hide Next, CountOk, RegistryOk;
      RunOk(Next(s, es[0]), es[1..]);
    }
  }

  // ----- Admission -----

  /**
   In every reachable state, with `remove_connection` called at most once per session and cut into its load and
   its decrement: the counter is at most `max_sessions`, and it equals the sessions admitted less the decrements
   made, so that it has never wrapped.
   */
  lemma AdmissionBound(maxSessions: nat, es: seq<Event>)
    requires maxSessions < SIZE_LIMIT
    ensures var s := Run(Init(maxSessions), es);
            && s.active <= maxSessions
            && s.active + |s.removed| == s.nextId + (if s.phase == Counted then 1 else 0)
  {
    IdsSize(0);
    RunOk(Init(maxSessions), es);
  }

  /** No step of any run wraps the counter: increments add one, decrements find it positive. */
  lemma CounterNeverWraps(maxSessions: nat, es: seq<Event>, e: Event)
    requires maxSessions < SIZE_LIMIT
    ensures var s := Run(Init(maxSessions), es);
            var d := Run(Init(maxSessions), es + [e]);
            || d.active == s.active
            || (e.IncrementCount? && d.active == s.active + 1)
            || (e.DecrementForRemoval? && s.active > 0 && d.active == s.active - 1)
  {
    IdsSize(0);
    RunOk(Init(maxSessions), es);
    RunPush(Init(maxSessions), es, e);
    NextCount(Run(Init(maxSessions), es), e);
  }

  /** The server as coded: `remove_connection` is never called. */
  ghost predicate AsCoded(es: seq<Event>) {
    forall i | 0 <= i < |es| :: !es[i].LoadForRemoval? && !es[i].DecrementForRemoval?
  }

  lemma {:induction false} AsCodedRemovesNothing(s: ServerState, es: seq<Event>)
    requires AsCoded(es) && s.removed == {} && s.removing == {}
    ensures Run(s, es).removed == {} && Run(s, es).removing == {}
    decreases |es|
  {
    if es != [] {
      assert !es[0].LoadForRemoval? && !es[0].DecrementForRemoval?;
      assert forall i | 0 <= i < |es[1..]| :: es[1..][i] == es[i + 1];
      AsCodedRemovesNothing(Next(s, es[0]), es[1..]);
    }
  }

  /** As coded, the registry never outgrows the counter, which never exceeds `max_sessions`. */
  lemma RegistryWithinCount(maxSessions: nat, es: seq<Event>)
    requires maxSessions < SIZE_LIMIT && AsCoded(es)
    ensures var s := Run(Init(maxSessions), es);
            |s.sessions| <= s.nextId <= s.active <= maxSessions
  {
    var s := Run(Init(maxSessions), es);
    IdsSize(0);
    RunOk(Init(maxSessions), es);
    AsCodedRemovesNothing(Init(maxSessions), es);
    IdsSize(s.nextId);
    SubsetSize(s.sessions, Ids(s.nextId));
  }

  /** As coded, what it takes to make another session: past the increment, or below the limit and not turned away. */
  predicate MayAdmit(s: ServerState) {
    || s.phase == Counted
    || (s.active < s.maxSessions && s.phase in {Accepted, Admitted})
    || (s.active < s.maxSessions && s.acceptorOpen && s.phase != Finished)
  }

  lemma {:induction false} StuckForever(s: ServerState, fs: seq<Event>)
    requires CountOk(s) && s.maxSessions < SIZE_LIMIT && !MayAdmit(s) && AsCoded(fs)
    ensures Run(s, fs).nextId == s.nextId
    decreases |fs|
  {
    if fs != [] {
      assert !fs[0].LoadForRemoval? && !fs[0].DecrementForRemoval?;
      assert forall i | 0 <= i < |fs[1..]| :: fs[1..][i] == fs[i + 1];
      NextCount(s, fs[0]);
      StuckForever(Next(s, fs[0]), fs[1..]);
    }
  }

  /** The accept chain up to a running session; in the middle of the chain the steps already made do nothing. */
  const ONE_MORE: seq<Event> := [InsertSession, Accept(true), CheckCount, IncrementCount, StartSession]

  lemma OneMore(s: ServerState)
    requires CountOk(s) && MayAdmit(s)
    ensures Run(s, ONE_MORE).nextId == s.nextId + 1
  {
    var s1 := Next(s, InsertSession);
    var s2 := Next(s1, Accept(true));
    var s3 := Next(s2, CheckCount);
    var s4 := Next(s3, IncrementCount);
    assert ONE_MORE[1..] == [Accept(true), CheckCount, IncrementCount, StartSession];
    assert Run(s, ONE_MORE) == Run(s1, [Accept(true), CheckCount, IncrementCount, StartSession])
                            == Run(s2, [CheckCount, IncrementCount, StartSession])
                            == Run(s3, [IncrementCount, StartSession])
                            == Run(s4, [StartSession]) == Next(s4, StartSession);
  }

  /** As coded: some continuation of a run makes another session exactly if the state reached allows it. */
  lemma CapacityLeft(maxSessions: nat, es: seq<Event>)
    requires maxSessions < SIZE_LIMIT && AsCoded(es)
    ensures var s := Run(Init(maxSessions), es);
            (exists fs :: AsCoded(fs) && Run(Init(maxSessions), es + fs).nextId > s.nextId) <==> MayAdmit(s)
  {
    var s := Run(Init(maxSessions), es);
    IdsSize(0);
    RunOk(Init(maxSessions), es);
    if MayAdmit(s) {
      OneMore(s);
      RunAppend(Init(maxSessions), es, ONE_MORE);
      assert AsCoded(ONE_MORE);
    } else {
      forall fs | AsCoded(fs)
        ensures Run(Init(maxSessions), es + fs).nextId == s.nextId
      {
        RunAppend(Init(maxSessions), es, fs);
        StuckForever(s, fs);
      }
    }
  }

  /**
   As coded, capacity is never given back: once `max_sessions` sessions have been made, no continuation of the
   run makes another, whatever sessions end.
   */
  lemma CapacityNeverReturns(maxSessions: nat, es: seq<Event>, fs: seq<Event>)
    requires maxSessions < SIZE_LIMIT && AsCoded(es) && AsCoded(fs)
    requires Run(Init(maxSessions), es).nextId == maxSessions
    ensures Run(Init(maxSessions), es + fs).nextId == maxSessions
  {
    var s := Run(Init(maxSessions), es);
    IdsSize(0);
    RunOk(Init(maxSessions), es);
    AsCodedRemovesNothing(Init(maxSessions), es);
    RunAppend(Init(maxSessions), es, fs);
    StuckForever(s, fs);
  }

  // ----- Stopping the server -----

  /** A connection that the accept handler may already be past the last look at the acceptor with. */
  function InHandler(s: ServerState): nat {
    if s.phase == Accepted || s.phase == Admitted || s.phase == Counted then 1 else 0
  }

  lemma {:induction false} ClosedForGood(s: ServerState, fs: seq<Event>)
    requires !s.acceptorOpen
    ensures !Run(s, fs).acceptorOpen
    ensures Run(s, fs).nextId + InHandler(Run(s, fs)) <= s.nextId + InHandler(s)
    decreases |fs|
  {
    if fs != [] {
      ClosedForGood(Next(s, fs[0]), fs[1..]);
    }
  }

  /**
   Once `stop` has closed the acceptor it stays closed, and no run makes another session, except for one that the
   accept handler is in the middle of admitting; that one can indeed still be made, if the counter allows.
   */
  lemma StopEndsAdmission(maxSessions: nat, es: seq<Event>, fs: seq<Event>)
    requires maxSessions < SIZE_LIMIT
    ensures var s, d := Run(Init(maxSessions), es), Run(Init(maxSessions), es + [CloseAcceptor] + fs);
            && !d.acceptorOpen
            && d.nextId <= s.nextId + InHandler(s)
            && (s.phase == Listening ==> d.nextId == s.nextId)
            && (s.phase == Counted || (InHandler(s) == 1 && s.active < maxSessions) ==>
                  Run(Init(maxSessions), es + [CloseAcceptor] + ONE_MORE).nextId == s.nextId + 1)
  {
    var s := Run(Init(maxSessions), es);
    IdsSize(0);
    RunOk(Init(maxSessions), es);
    RunPush(Init(maxSessions), es, CloseAcceptor);
    var c := Next(s, CloseAcceptor);
    RunAppend(Init(maxSessions), es + [CloseAcceptor], fs);
    RunAppend(Init(maxSessions), es + [CloseAcceptor], ONE_MORE);
    ClosedForGood(c, fs);
    NextIdGrows(c, fs);
    if MayAdmit(c) {
      OneMore(c);
    }
  }

  lemma {:induction false} NextIdGrows(s: ServerState, fs: seq<Event>)
    ensures s.nextId <= Run(s, fs).nextId
    decreases |fs|
  {
    if fs != [] {
      NextIdGrows(Next(s, fs[0]), fs[1..]);
    }
  }

  // ----- Giving capacity back -----

  /** Were `remove_connection` called for a session, its two steps would give the capacity back. */
  lemma RemovalReturnsCapacity(maxSessions: nat, es: seq<Event>, id: SessionId)
    requires maxSessions < SIZE_LIMIT
    requires var s := Run(Init(maxSessions), es); id < s.nextId && id !in s.loaded
    ensures var s := Run(Init(maxSessions), es);
            Run(Init(maxSessions), es + [LoadForRemoval(id)] + [DecrementForRemoval(id)]).active == s.active - 1
  {
    var s := Run(Init(maxSessions), es);
    IdsSize(0);
    RunOk(Init(maxSessions), es);
    RunPush(Init(maxSessions), es, LoadForRemoval(id));
    RunPush(Init(maxSessions), es + [LoadForRemoval(id)], DecrementForRemoval(id));
    SubsetSize(s.removed + {id}, Ids(s.nextId));
    IdsSize(s.nextId);
  }

  // ----- Registry -----

  /**
   In every reachable state every inserted session that is not stopped is registered; and once every stopped
   session has gone through `remove_session`, the stopped sessions still registered are exactly the inserted
   ones whose close ran before their insertion.
   */
  lemma RegistryAccuracy(maxSessions: nat, es: seq<Event>)
    requires maxSessions < SIZE_LIMIT
    ensures var s := Run(Init(maxSessions), es);
            && s.inserted - s.stopped <= s.sessions <= s.inserted
            && (s.erased == s.stopped ==> s.sessions * s.stopped == s.inserted * s.early)
  {
    IdsSize(0);
    RunOk(Init(maxSessions), es);
  }

  /**
   Such leftovers exist: from any reachable state in which a session runs but is not inserted yet, its stop and
   removal can come first, and then it stays registered.
   */
  lemma LeftoverSession(maxSessions: nat, es: seq<Event>)
    requires maxSessions < SIZE_LIMIT
    requires Run(Init(maxSessions), es).phase.Starting?
    requires Run(Init(maxSessions), es).phase.id !in Run(Init(maxSessions), es).stopped
    ensures var id := Run(Init(maxSessions), es).phase.id;
            var s := Run(Init(maxSessions), es + [SessionStops(id), EraseSession(id), InsertSession]);
            id in s.sessions && id in s.stopped && id in s.erased
  {
    var s := Run(Init(maxSessions), es);
    var id := s.phase.id;
    IdsSize(0);
    RunOk(Init(maxSessions), es);
    RunAppend(Init(maxSessions), es, [SessionStops(id), EraseSession(id), InsertSession]);
    var s1 := Next(s, SessionStops(id));
    var s2 := Next(s1, EraseSession(id));
    assert Run(s2, [InsertSession]) == Next(s2, InsertSession);
    assert Run(s1, [EraseSession(id), InsertSession]) == Run(s2, [InsertSession]);
  }

  /** A session is admitted and started, and ends before the accept handler inserts it. */
  function ShortLife(id: SessionId): seq<Event> {
    [Accept(true), CheckCount, IncrementCount, StartSession, SessionStops(id), EraseSession(id), InsertSession]
  }

  function ShortLives(n: nat): seq<Event> {
    if n == 0 then [] else ShortLives(n - 1) + ShortLife(n - 1)
  }

  lemma ShortLifeRun(s: ServerState)
    requires RegistryOk(s) && s.phase == Listening && s.acceptorOpen && s.active < s.maxSessions < SIZE_LIMIT
    ensures var id := s.nextId;
            Run(s, ShortLife(id)) ==
            s.(active := s.active + 1, nextId := id + 1, sessions := s.sessions + {id},
               inserted := s.inserted + {id}, stopped := s.stopped + {id}, erased := s.erased + {id},
               early := s.early + {id})
  {
    var id := s.nextId;
    var s1 := Next(s, Accept(true));
    var s2 := Next(s1, CheckCount);
    var s3 := Next(s2, IncrementCount);
    var s4 := Next(s3, StartSession);
    var s5 := Next(s4, SessionStops(id));
    var s6 := Next(s5, EraseSession(id));
    var es := ShortLife(id);
    assert es[1..] == [CheckCount, IncrementCount, StartSession, SessionStops(id), EraseSession(id), InsertSession];
    assert Run(s, es) == Run(s1, es[1..]) == Run(s2, es[1..][1..]);
    assert es[1..][1..] == [IncrementCount, StartSession, SessionStops(id), EraseSession(id), InsertSession];
    assert Run(s2, es[1..][1..]) == Run(s3, [StartSession, SessionStops(id), EraseSession(id), InsertSession])
                                 == Run(s4, [SessionStops(id), EraseSession(id), InsertSession])
                                 == Run(s5, [EraseSession(id), InsertSession])
                                 == Run(s6, [InsertSession]) == Next(s6, InsertSession);
    assert s4.sessions - {id} == s.sessions;
  }

  lemma ShortLifeAsCoded(es: seq<Event>, id: SessionId)
    requires AsCoded(es)
    ensures AsCoded(es + ShortLife(id))
  {
  }

  /** All of `n` sessions have stopped, been removed, and stayed registered; the server listens. */
  ghost predicate LeftBehind(s: ServerState, n: nat) {
    && s.phase == Listening && s.acceptorOpen && s.active == s.nextId == n
    && s.sessions == s.stopped == s.erased == Ids(n)
  }

  lemma OneMoreLeftBehind(s: ServerState)
    requires RegistryOk(s) && s.nextId < s.maxSessions < SIZE_LIMIT && LeftBehind(s, s.nextId)
    ensures LeftBehind(Run(s, ShortLife(s.nextId)), s.nextId + 1)
  {
    ShortLifeRun(s);
    hide Run, ShortLife;
    assert Ids(s.nextId + 1) == Ids(s.nextId) + {s.nextId};
  }

  /** For every limit and every number of sessions within it there is a run, as coded, that leaves them all behind. */
  lemma {:induction false} ShortLivesRun(maxSessions: nat, n: nat)
    requires n <= maxSessions < SIZE_LIMIT
    ensures AsCoded(ShortLives(n)) && LeftBehind(Run(Init(maxSessions), ShortLives(n)), n)
  {
    if n > 0 {
      var es := ShortLives(n - 1);
      var s := Run(Init(maxSessions), es);
      IdsSize(0);
      RunOk(Init(maxSessions), es);
      ShortLivesRun(maxSessions, n - 1);
      RunAppend(Init(maxSessions), es, ShortLife(n - 1));
      ShortLifeAsCoded(es, n - 1);
      hide Run, ShortLife, CountOk, RegistryOk, AsCoded;
      OneMoreLeftBehind(s);
    }
  }

  /**
   The worst case as coded, for every limit: a run after which all of `max_sessions` registered sessions have
   stopped and been through `remove_session`, and after which no other session is ever made.
   */
  lemma ExhaustedByStoppedSessions(maxSessions: nat)
    requires maxSessions < SIZE_LIMIT
    ensures exists es ::
              && AsCoded(es)
              && var s := Run(Init(maxSessions), es);
                 && s.sessions == s.stopped == s.erased == Ids(maxSessions) && s.acceptorOpen
                 && forall fs :: AsCoded(fs) ==> Run(Init(maxSessions), es + fs).nextId == maxSessions
  {
    var es := ShortLives(maxSessions);
    ShortLivesRun(maxSessions, maxSessions);
    forall fs | AsCoded(fs)
      ensures Run(Init(maxSessions), es + fs).nextId == maxSessions
    {
      CapacityNeverReturns(maxSessions, es, fs);
    }
  }

  /** A run, as coded, can leave a removed session registered exactly if the server admits any session at all. */
  lemma LeftoverPossible(maxSessions: nat)
    requires maxSessions < SIZE_LIMIT
    ensures (exists es :: AsCoded(es) && Leftovers(Run(Init(maxSessions), es)) != {}) <==> maxSessions > 0
  {
    if maxSessions > 0 {
      ShortLivesRun(maxSessions, 1);
      assert 0 in Leftovers(Run(Init(maxSessions), ShortLives(1)));
    } else {
      forall es | AsCoded(es)
        ensures Leftovers(Run(Init(maxSessions), es)) == {}
      {
        RegistryWithinCount(maxSessions, es);
      }
    }
  }

  function Leftovers(s: ServerState): set<SessionId> {
    s.sessions * s.stopped * s.erased
  }
}
