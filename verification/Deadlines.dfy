/**
 What a timeout means.  Completions already queued as expired when a deadline moves are part of the state,
 and no handler looks at the deadline again; still, a session stopped by a timer was really late.
 */
module Deadlines {
  import opened Wrappers
  import opened ByteOrder
  import opened Packets
  import opened SteadyTimers
  import opened Connections
  import opened SessionTheorems

  function Seconds(cfg: Config, w: Watch): nat {
    match w
    case IdleWatch => cfg.idleSeconds
    case ReadWatch => cfg.readSeconds
    case WriteWatch => cfg.writeSeconds
  }

  /** What starts the clock, and what should happen before it runs out. */
  predicate Begins(w: Watch, what: What) {
    match w
    case IdleWatch => what == IdleRenewed
    case ReadWatch => what == ReadBegun
    case WriteWatch => what == WriteBegun
  }

  predicate Ends(w: Watch, what: What) {
    match w
    case IdleWatch => what == IdleRenewed
    case ReadWatch => what == ReadHandled
    case WriteWatch => what == WriteHandled
  }

  /** Entry `j` started the clock at least `secs` ago, and nothing ended it before `secs` had passed. */
  ghost predicate LateSince(trace: seq<Mark>, w: Watch, secs: nat, now: nat, j: nat) {
    && j < |trace| && Begins(w, trace[j].what) && trace[j].at + secs <= now
    && forall k | j < k < |trace| && Ends(w, trace[k].what) :: trace[j].at + secs <= trace[k].at
  }

  ghost predicate Late(trace: seq<Mark>, w: Watch, secs: nat, now: nat) {
    exists j: nat :: LateSince(trace, w, secs, now, j)
  }

  /** Entry `j` started the clock that runs out at `deadline`, and nothing has ended it. */
  ghost predicate RunningSince(trace: seq<Mark>, w: Watch, secs: nat, deadline: nat, j: nat) {
    && j < |trace| && Begins(w, trace[j].what) && trace[j].at + secs == deadline
    && forall k | j < k < |trace| :: !Ends(w, trace[k].what)
  }

  ghost predicate Running(trace: seq<Mark>, w: Watch, secs: nat, deadline: nat) {
    exists j: nat :: RunningSince(trace, w, secs, deadline, j)
  }

  ghost predicate WatchOk(cfg: Config, c: Conn, w: Watch) {
    var secs := Seconds(cfg, w);
    && (c.net.open && !c.session.crashed && TimerOf(c, w).deadline.At? ==>
          Running(c.net.trace, w, secs, TimerOf(c, w).deadline.time))
    && (c.net.open && Expired in TimerOf(c, w).queued ==> Late(c.net.trace, w, secs, c.net.now))
    && (c.session.cause == Some(DeadlinePassed(w)) ==> Late(c.net.trace, w, secs, c.net.now))
  }

  lemma LateMore(trace: seq<Mark>, more: seq<Mark>, w: Watch, secs: nat, now: nat, later: nat)
    requires Late(trace, w, secs, now) && now <= later
    requires forall i | 0 <= i < |more| :: more[i].at == now
    ensures Late(trace + more, w, secs, later)
  {
    var j: nat :| LateSince(trace, w, secs, now, j);
    assert LateSince(trace + more, w, secs, later, j);
  }

  lemma RunningMore(trace: seq<Mark>, more: seq<Mark>, w: Watch, secs: nat, deadline: nat)
    requires Running(trace, w, secs, deadline)
    requires forall i | 0 <= i < |more| :: !Ends(w, more[i].what)
    ensures Running(trace + more, w, secs, deadline)
  {
    var j: nat :| RunningSince(trace, w, secs, deadline, j);
    assert RunningSince(trace + more, w, secs, deadline, j);
  }

  lemma RunOut(trace: seq<Mark>, w: Watch, secs: nat, deadline: nat, now: nat)
    requires Running(trace, w, secs, deadline) && deadline <= now
    ensures Late(trace, w, secs, now)
  {
    var j: nat :| RunningSince(trace, w, secs, deadline, j);
    assert LateSince(trace, w, secs, now, j);
  }

  /** The new entries start the clock of `w` and do not end it again. */
  ghost predicate Starts(more: seq<Mark>, w: Watch) {
    exists j: nat :: StartsAt(more, w, j)
  }

  ghost predicate StartsAt(more: seq<Mark>, w: Watch, j: nat) {
    j < |more| && Begins(w, more[j].what) && forall k | j < k < |more| :: !Ends(w, more[k].what)
  }

  lemma StartsRunning(trace: seq<Mark>, more: seq<Mark>, w: Watch, secs: nat, now: nat)
    requires Starts(more, w)
    requires forall i | 0 <= i < |more| :: more[i].at == now
    ensures Running(trace + more, w, secs, now + secs)
  {
    var j: nat :| StartsAt(more, w, j);
    assert RunningSince(trace + more, w, secs, now + secs, |trace| + j);
  }

  /**
   How a step may treat the timer of `w`: the new entries are stamped now; the deadline moves only to a clock
   they start, and stays only if they do not end it; an expired completion is new only if the deadline had
   passed; the timer is named as the cause of a stop only if such a completion was queued.
   */
  ghost predicate Respects(cfg: Config, c: Conn, d: Conn, w: Watch, more: seq<Mark>) {
    var s, t := TimerOf(c, w), TimerOf(d, w);
    && d.net.trace == c.net.trace + more
    && (forall i | 0 <= i < |more| :: more[i].at == c.net.now)
    && c.net.now <= d.net.now
    && (d.net.open ==> c.net.open) && (c.session.crashed ==> d.session.crashed)
    && (d.net.open && !d.session.crashed && t.deadline.At? ==>
          || (t.deadline.time == c.net.now + Seconds(cfg, w) && Starts(more, w))
          || (t.deadline == s.deadline && forall i | 0 <= i < |more| :: !Ends(w, more[i].what)))
    && (d.net.open && Expired in t.queued ==>
          Expired in s.queued || (!c.session.crashed && s.deadline.At? && s.deadline.time <= c.net.now))
    && (d.session.cause == Some(DeadlinePassed(w)) ==>
          c.session.cause == d.session.cause || (c.net.open && Expired in s.queued))
  }

  lemma RespectsOk(cfg: Config, c: Conn, d: Conn, w: Watch, more: seq<Mark>)
    requires WatchOk(cfg, c, w) && Respects(cfg, c, d, w, more)
    ensures WatchOk(cfg, d, w)
  {
    hide Running, Late, Starts;
    var secs := Seconds(cfg, w);
    var s, t := TimerOf(c, w), TimerOf(d, w);
    if d.net.open && !d.session.crashed && t.deadline.At? {
      if t.deadline.time == c.net.now + secs && Starts(more, w) {
        StartsRunning(c.net.trace, more, w, secs, c.net.now);
      } else {
        RunningMore(c.net.trace, more, w, secs, s.deadline.time);
      }
    }
    if (d.net.open && Expired in t.queued) || d.session.cause == Some(DeadlinePassed(w)) {
      if c.net.open && !c.session.crashed && s.deadline.At? && s.deadline.time <= c.net.now {
        RunOut(c.net.trace, w, secs, s.deadline.time, c.net.now);
      }
      LateMore(c.net.trace, more, w, secs, c.net.now, d.net.now);
    }
  }

  lemma Nothing(trace: seq<Mark>)
    ensures trace == trace + []
  {
  }

  lemma CallRespects(cfg: Config, c: Conn, e: Event, w: Watch) returns (more: seq<Mark>)
    requires Core(c) && Enabled(c, e) && (e.CallStart? || e.CallWritePacket?)
    ensures Respects(cfg, c, Next(cfg, c, e), w, more)
  {
    var renewed := Mark(c.net.now, IdleRenewed);
    more := if e.CallStart? then [renewed, Mark(c.net.now, ReadBegun)] else [renewed];
    var begun := Mark(c.net.now, ReadBegun);
    assert c.net.trace + [renewed] + [begun] == c.net.trace + [renewed, begun];
    assert w == IdleWatch ==> StartsAt(more, w, 0);
    assert w == ReadWatch && e.CallStart? ==> StartsAt(more, w, 1);
  }

  /** What a read handler does to the clocks: it starts the next read, or the session crashes or stops. */
  ghost predicate ReadOutcome(cfg: Config, c: Conn, d: Conn, w: Watch) {
    var handled, begun := Mark(c.net.now, ReadHandled), Mark(c.net.now, ReadBegun);
    && d.net.now == c.net.now
    && (d.net.open ==> c.net.open)
    && (d.session.cause == Some(DeadlinePassed(w)) ==> c.session.cause == d.session.cause)
    && if d.net.open && !d.session.crashed then
         && d.net.trace == c.net.trace + [handled, begun]
         && TimerOf(d, w) == if w == ReadWatch then c.reader.timer.ExpiresAt(At(c.net.now + cfg.readSeconds))
                             else TimerOf(c, w)
       else
         && d.net.trace == c.net.trace + [handled]
         && (d.net.open ==> TimerOf(d, w) == TimerOf(c, w))
  }

  lemma TwoMarks(trace: seq<Mark>, m: Mark, n: Mark)
    ensures trace + [m] + [n] == trace + [m, n]
  {
  }

  lemma LengthHandlerOutcome(cfg: Config, c: Conn, i: nat, w: Watch)
    requires Core(c) && Enabled(c, RunReadHandler(i)) && c.net.readOps[i].target == LengthTarget
    ensures ReadOutcome(cfg, c, Apply(cfg, c, RunReadHandler(i)), w)
  {
    hide U32, Put32, Overwrite, Resized, WriteShape, Timer.ExpiresAt, Timer.Cancel;
    TwoMarks(c.net.trace, Mark(c.net.now, ReadHandled), Mark(c.net.now, ReadBegun));
  }

  lemma BodyHandlerOutcome(cfg: Config, c: Conn, i: nat, w: Watch)
    requires Core(c) && Enabled(c, RunReadHandler(i)) && c.net.readOps[i].target == BodyTarget
    ensures ReadOutcome(cfg, c, Apply(cfg, c, RunReadHandler(i)), w)
  {
    hide Overwrite, Decode, WriteShape, Timer.ExpiresAt, Timer.Cancel;
    TwoMarks(c.net.trace, Mark(c.net.now, ReadHandled), Mark(c.net.now, ReadBegun));
  }

  lemma ReadHandlerRespects(cfg: Config, c: Conn, i: nat, w: Watch) returns (more: seq<Mark>)
    requires Core(c) && Enabled(c, RunReadHandler(i))
    ensures Respects(cfg, c, Next(cfg, c, RunReadHandler(i)), w, more)
  {
    var handled, begun := Mark(c.net.now, ReadHandled), Mark(c.net.now, ReadBegun);
    var d := Next(cfg, c, RunReadHandler(i));
    more := if d.net.open && !d.session.crashed then [handled, begun] else [handled];
    if c.net.readOps[i].target == LengthTarget {
      LengthHandlerOutcome(cfg, c, i, w);
    } else {
      BodyHandlerOutcome(cfg, c, i, w);
    }
    assert !c.session.crashed;
    hide Apply, Core;
    assert d.net.open && !d.session.crashed && w == ReadWatch ==> StartsAt(more, w, 1);
  }

  lemma WriteHandlerRespects(cfg: Config, c: Conn, i: nat, w: Watch) returns (more: seq<Mark>)
    requires Core(c) && Enabled(c, RunWriteHandler(i))
    ensures Respects(cfg, c, Next(cfg, c, RunWriteHandler(i)), w, more)
  {
    var handled, begun := Mark(c.net.now, WriteHandled), Mark(c.net.now, WriteBegun);
    var d := Next(cfg, c, RunWriteHandler(i));
    more := if d.net.open && d.writer.queue != [] then [handled, begun] else [handled];
    assert c.net.trace + [handled] + [begun] == c.net.trace + [handled, begun];
    assert d.net.open && d.writer.queue != [] && w == WriteWatch ==> StartsAt(more, w, 1);
  }

  lemma PostedRespects(cfg: Config, c: Conn, w: Watch) returns (more: seq<Mark>)
    requires Core(c) && Enabled(c, RunPosted)
    ensures Respects(cfg, c, Next(cfg, c, RunPosted), w, more)
  {
    Nothing(c.net.trace);
    more := if c.writer.queue == [] then [Mark(c.net.now, WriteBegun)] else [];
    assert c.writer.queue == [] && w == WriteWatch ==> StartsAt(more, w, 0);
  }

  lemma TimerHandlerRespects(cfg: Config, c: Conn, v: Watch, w: Watch) returns (more: seq<Mark>)
    requires Core(c) && Enabled(c, RunTimerHandler(v))
    ensures Respects(cfg, c, Next(cfg, c, RunTimerHandler(v)), w, more)
  {
    hide ReadShape, WriteShape;
    Nothing(c.net.trace);
    more := [];
  }

  lemma ExpiryRespects(cfg: Config, c: Conn, v: Watch, w: Watch) returns (more: seq<Mark>)
    requires Core(c) && Enabled(c, TimerExpires(v))
    ensures Respects(cfg, c, Next(cfg, c, TimerExpires(v)), w, more)
  {
    hide ReadShape, WriteShape;
    Nothing(c.net.trace);
    more := [];
  }

  lemma OtherRespects(cfg: Config, c: Conn, e: Event, w: Watch) returns (more: seq<Mark>)
    requires Core(c)
    requires !Enabled(c, e) || e.Tick? || e.Receive? || e.EndRead? || e.Send? || e.EndWrite?
    ensures Respects(cfg, c, Next(cfg, c, e), w, more)
  {
    Nothing(c.net.trace);
    more := [];
  }

  lemma NextRespects(cfg: Config, c: Conn, e: Event, w: Watch) returns (more: seq<Mark>)
    requires Core(c)
    ensures Respects(cfg, c, Next(cfg, c, e), w, more)
  {
    hide Core, Next, Respects;
    if !Enabled(c, e) {
      more := OtherRespects(cfg, c, e, w);
    } else {
      match e {
        case CallStart => more := CallRespects(cfg, c, e, w);
        case CallWritePacket(_) => more := CallRespects(cfg, c, e, w);
        case RunPosted => more := PostedRespects(cfg, c, w);
        case RunReadHandler(i) => more := ReadHandlerRespects(cfg, c, i, w);
        case RunWriteHandler(i) => more := WriteHandlerRespects(cfg, c, i, w);
        case TimerExpires(v) => more := ExpiryRespects(cfg, c, v, w);
        case RunTimerHandler(v) => more := TimerHandlerRespects(cfg, c, v, w);
        case _ => more := OtherRespects(cfg, c, e, w);
      }
    }
  }

  lemma {:induction false} RunWatch(cfg: Config, c: Conn, es: seq<Event>, w: Watch)
    requires Core(c) && WatchOk(cfg, c, w)
    ensures WatchOk(cfg, Run(cfg, c, es), w)
    decreases |es|
  {
    if es != [] {
      var more := NextRespects(cfg, c, es[0], w);
      RespectsOk(cfg, c, Next(cfg, c, es[0]), w, more);
      NextCore(cfg, c, es[0]);
      hide Next, Core, WatchOk;
      RunWatch(cfg, Next(cfg, c, es[0]), es[1..], w);
    }
  }

  /**
   What a timeout means, in every reachable state.  If the session was stopped by its write timer, some write
   was started and no write handler ran until `writeSeconds` after that; likewise for its read timer and one
   read of a length or a body; and if it was stopped by its idle timer, after some call of `start` or
   `write_packet` there was none for `idleSeconds` (reads do not count).
   */
  lemma TimeoutMeansLate(cfg: Config, now: nat, es: seq<Event>, w: Watch)
    requires Run(cfg, Init(now), es).session.cause == Some(DeadlinePassed(w))
    ensures var c := Run(cfg, Init(now), es);
            exists j: nat ::
              && j < |c.net.trace| && Begins(w, c.net.trace[j].what)
              && c.net.trace[j].at + Seconds(cfg, w) <= c.net.now
              && forall k | j < k < |c.net.trace| && Ends(w, c.net.trace[k].what) ::
                   c.net.trace[j].at + Seconds(cfg, w) <= c.net.trace[k].at
  {
    InitCore(now);
    assert WatchOk(cfg, Init(now), w);
    RunWatch(cfg, Init(now), es, w);
    var c := Run(cfg, Init(now), es);
    var j: nat :| LateSince(c.net.trace, w, Seconds(cfg, w), c.net.now, j);
    assert j < |c.net.trace| && Begins(w, c.net.trace[j].what);
  }

  // ----- The other direction: a deadline that passes does stop the session -----

  /** While the session runs, its idle and read deadlines are finite. */
  ghost predicate Armed(c: Conn) {
    c.net.open && c.session.started && !c.session.crashed ==>
      c.session.idle.deadline.At? && c.reader.timer.deadline.At?
  }

  lemma ReadHandlerArmed(cfg: Config, c: Conn, i: nat)
    requires Core(c) && Armed(c) && Enabled(c, RunReadHandler(i))
    ensures Armed(Apply(cfg, c, RunReadHandler(i)))
  {
    hide U32, Put32, Overwrite, Resized, Decode, CloseSocket, AsyncRead;
  }

  lemma NextArmed(cfg: Config, c: Conn, e: Event)
    requires Core(c) && Armed(c)
    ensures Armed(Next(cfg, c, e))
  {
    match e {
      case RunReadHandler(i) => if Enabled(c, e) { ReadHandlerArmed(cfg, c, i); }
      case _ => hide CloseSocket, AsyncRead, AsyncWrite, ReadShape, WriteShape;
    }
  }

  lemma {:induction false} RunArmed(cfg: Config, c: Conn, es: seq<Event>)
    requires Core(c) && Armed(c)
    ensures Armed(Run(cfg, c, es))
    decreases |es|
  {
    if es != [] {
      NextArmed(cfg, c, es[0]);
      NextCore(cfg, c, es[0]);
      hide Next, Core, Armed;
      RunArmed(cfg, Next(cfg, c, es[0]), es[1..]);
    }
  }

  /**
   In every reachable state in which the session runs, the idle and the read deadline are finite; and any
   finite deadline is the configured time after the entry that started its clock, which nothing has ended.
   */
  lemma DeadlinesAreArmed(cfg: Config, now: nat, es: seq<Event>, w: Watch)
    requires var c := Run(cfg, Init(now), es); c.net.open && c.session.started && !c.session.crashed
    ensures var c := Run(cfg, Init(now), es);
            && (w != WriteWatch ==> TimerOf(c, w).deadline.At?)
            && (TimerOf(c, w).deadline.At? ==>
                  Running(c.net.trace, w, Seconds(cfg, w), TimerOf(c, w).deadline.time))
  {
    InitCore(now);
    assert WatchOk(cfg, Init(now), w);
    RunArmed(cfg, Init(now), es);
    RunWatch(cfg, Init(now), es, w);
  }

  /** The timer's wait is taken to its handler, expires if it is pending, and is taken to its handler. */
  function Rounds(w: Watch): seq<Event> {
    [RunTimerHandler(w), TimerExpires(w), RunTimerHandler(w)]
  }

  lemma RoundsSteps(cfg: Config, c: Conn, w: Watch)
    ensures Run(cfg, c, Rounds(w)) ==
            Next(cfg, Next(cfg, Next(cfg, c, RunTimerHandler(w)), TimerExpires(w)), RunTimerHandler(w))
  {
    hide Next;
    var d := Next(cfg, c, RunTimerHandler(w));
    var e := Next(cfg, d, TimerExpires(w));
    assert Rounds(w)[1..] == [TimerExpires(w), RunTimerHandler(w)];
    assert Run(cfg, c, Rounds(w)) == Run(cfg, d, [TimerExpires(w), RunTimerHandler(w)])
                                  == Run(cfg, e, [RunTimerHandler(w)]);
    assert [RunTimerHandler(w)][1..] == [];
    assert Run(cfg, e, [RunTimerHandler(w)]) == Run(cfg, Next(cfg, e, RunTimerHandler(w)), []);
  }

  ghost predicate Overdue(c: Conn, w: Watch) {
    && c.net.open && !c.session.crashed
    && TimerOf(c, w).deadline.At? && TimerOf(c, w).deadline.time <= c.net.now
  }

  ghost predicate Stopped(c: Conn, w: Watch) {
    c.session.stopped && !c.net.open && c.session.cause == Some(DeadlinePassed(w))
  }

  /** Taking a completion off the queue either stops the session or leaves a pending wait and the deadline as it was. */
  lemma HandlerWhenOverdue(cfg: Config, c: Conn, w: Watch)
    requires CloseOnce(c) && Overdue(c, w) && ChainOk(TimerOf(c, w), false)
    ensures var d := Next(cfg, c, RunTimerHandler(w));
            if Expired in TimerOf(c, w).queued then Stopped(d, w)
            else CloseOnce(d) && Overdue(d, w) && TimerOf(d, w).pending > 0 && TimerOf(d, w).queued == []
  {
  }

  lemma ExpiryWhenOverdue(cfg: Config, c: Conn, w: Watch)
    requires CloseOnce(c) && Overdue(c, w) && TimerOf(c, w).pending > 0 && TimerOf(c, w).queued == []
    ensures Stopped(Next(cfg, Next(cfg, c, TimerExpires(w)), RunTimerHandler(w)), w)
  {
    var d := Next(cfg, c, TimerExpires(w));
    assert d.net == c.net && TimerOf(d, w).queued != [] && TimerOf(d, w).queued[0] == Expired;
  }

  /**
   In every reachable state with a passed deadline, whatever completion of an earlier wait is queued, at most
   three steps of its timer stop the session and name the timer as the cause.
   */
  lemma OverdueStops(cfg: Config, now: nat, es: seq<Event>, w: Watch)
    requires Overdue(Run(cfg, Init(now), es), w)
    ensures var d := Run(cfg, Init(now), es + Rounds(w));
            d.session.stopped && d.session.cause == Some(DeadlinePassed(w))
  {
    var c := Run(cfg, Init(now), es);
    InitCore(now);
    RunCore(cfg, Init(now), es);
    TimerChains(cfg, now, es, w);
    RunAppend(cfg, Init(now), es, Rounds(w));
    RoundsSteps(cfg, c, w);
    var d := Next(cfg, c, RunTimerHandler(w));
    HandlerWhenOverdue(cfg, c, w);
    hide Run;
    if Expired in TimerOf(c, w).queued {
      NextFrozen(cfg, d, TimerExpires(w));
      NextFrozen(cfg, Next(cfg, d, TimerExpires(w)), RunTimerHandler(w));
    } else {
      ExpiryWhenOverdue(cfg, d, w);
    }
  }

  // ----- Completions overtaken by a later deadline -----

  /** No handler looks at the deadline: it stops a running session exactly if the completion it gets is an expiry. */
  lemma ExpiryStopsWhateverTheDeadline(cfg: Config, now: nat, es: seq<Event>, w: Watch)
    requires var c := Run(cfg, Init(now), es); c.net.open && Enabled(c, RunTimerHandler(w))
    ensures var c := Run(cfg, Init(now), es);
            var d := Run(cfg, Init(now), es + [RunTimerHandler(w)]);
            (d.session.stopped <==> Expired in TimerOf(c, w).queued)
            && (d.session.stopped ==> d.session.cause == Some(DeadlinePassed(w)))
  {
    var c := Run(cfg, Init(now), es);
    SessionSafety(cfg, now, es);
    TimerChains(cfg, now, es, w);
    RunAppend(cfg, Init(now), es, [RunTimerHandler(w)]);
    assert Run(cfg, c, [RunTimerHandler(w)]) == Run(cfg, Next(cfg, c, RunTimerHandler(w)), []);
  }

  /** An idle deadline passes, `write_packet` moves it, and the expiry is still queued. */
  function Overtaken(cfg: Config): seq<Event> {
    [CallStart, RunTimerHandler(IdleWatch), Tick(cfg.idleSeconds), TimerExpires(IdleWatch), CallWritePacket([])]
  }

  lemma OvertakenSteps(cfg: Config, c: Conn)
    ensures Run(cfg, c, Overtaken(cfg)) ==
            Next(cfg, ExpiredIdle(cfg, Next(cfg, c, CallStart)), CallWritePacket([]))
  {
    hide Next;
    var c1 := Next(cfg, c, CallStart);
    var c2 := Next(cfg, c1, RunTimerHandler(IdleWatch));
    var c3 := Next(cfg, c2, Tick(cfg.idleSeconds));
    var c4 := Next(cfg, c3, TimerExpires(IdleWatch));
    assert Overtaken(cfg)[1..] ==
           [RunTimerHandler(IdleWatch), Tick(cfg.idleSeconds), TimerExpires(IdleWatch), CallWritePacket([])];
    assert Run(cfg, c, Overtaken(cfg)) == Run(cfg, c1, Overtaken(cfg)[1..])
        == Run(cfg, c2, [Tick(cfg.idleSeconds), TimerExpires(IdleWatch), CallWritePacket([])])
        == Run(cfg, c3, [TimerExpires(IdleWatch), CallWritePacket([])])
        == Run(cfg, c4, [CallWritePacket([])]) == Run(cfg, Next(cfg, c4, CallWritePacket([])), []);
  }

  /** The wait of the idle timer is started again and expires. */
  function ExpiredIdle(cfg: Config, c: Conn): Conn {
    var d := Next(cfg, c, RunTimerHandler(IdleWatch));
    Next(cfg, Next(cfg, d, Tick(cfg.idleSeconds)), TimerExpires(IdleWatch))
  }

  lemma ExpiredIdleState(cfg: Config, c: Conn)
    requires c.net.open && !c.session.crashed && c.session.started
    requires c.session.idle.deadline == At(c.net.now + cfg.idleSeconds)
    requires c.session.idle.pending == 0 && c.session.idle.queued == [Aborted]
    ensures var d := ExpiredIdle(cfg, c);
            d.net.open && !d.session.crashed && d.session.started && d.session.idle.queued == [Expired]
  {
    hide CloseSocket;
    var d := Next(cfg, c, RunTimerHandler(IdleWatch));
    assert d.session.idle.pending == 1 && d.session.idle.queued == [] && d.net == c.net;
  }

  /** A session can be stopped by its idle timer with the whole idle timeout still ahead. */
  lemma StoppedAheadOfDeadline(cfg: Config, now: nat)
    ensures var c := Run(cfg, Init(now), Overtaken(cfg));
            && c.net.open && c.session.idle.deadline == At(c.net.now + cfg.idleSeconds)
            && Run(cfg, Init(now), Overtaken(cfg) + [RunTimerHandler(IdleWatch)]).session.cause
               == Some(DeadlinePassed(IdleWatch))
  {
    var c1 := Next(cfg, Init(now), CallStart);
    assert c1.session.idle.queued == [Aborted];
    OvertakenSteps(cfg, Init(now));
    ExpiredIdleState(cfg, c1);
    hide Run, ExpiredIdle;
    ExpiryStopsWhateverTheDeadline(cfg, now, Overtaken(cfg), IdleWatch);
  }
}
