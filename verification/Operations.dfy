/**
 What single steps do to calls, operations and clocks, and with that the deadline theorems in terms of these alone:
 what `Deadlines` says about entries of the history is said here about the steps of a run.
 */
module Operations {
  import opened Wrappers
  import opened ByteOrder
  import opened Packets
  import opened Framing
  import opened SteadyTimers
  import opened Connections
  import opened SessionTheorems
  import WriterTheorems
  import Deadlines

  // ----- What happens in a step -----

  /** `start` or `write_packet` is called. */
  predicate Called(c: Conn, e: Event) {
    (e.CallStart? || e.CallWritePacket?) && Enabled(c, e)
  }

  predicate ReadHandlerRuns(c: Conn, e: Event) {
    e.RunReadHandler? && Enabled(c, e)
  }

  predicate WriteHandlerRuns(c: Conn, e: Event) {
    e.RunWriteHandler? && Enabled(c, e)
  }

  /** Afterwards there is a read that was not there before. */
  predicate ReadStarts(cfg: Config, c: Conn, e: Event) {
    Next(cfg, c, e).net.readOps != [] && (c.net.readOps == [] || ReadHandlerRuns(c, e))
  }

  predicate WriteStarts(cfg: Config, c: Conn, e: Event) {
    Next(cfg, c, e).net.writeOps != [] && (c.net.writeOps == [] || WriteHandlerRuns(c, e))
  }

  /** The last packet of the queue has been written. */
  predicate QueueRunsEmpty(c: Conn, e: Event) {
    && WriteHandlerRuns(c, e) && c.net.open
    && c.net.writeOps[e.i].status.ec == NoError && |c.writer.queue| == 1
  }

  // ----- Calls -----

  /** Every call of `start` or `write_packet` renews the idle deadline, whatever is queued; nothing else does. */
  lemma CallsRenewIdle(cfg: Config, c: Conn, e: Event)
    ensures var d := Next(cfg, c, e);
            d.session.idle.deadline ==
            if Called(c, e) then At(c.net.now + cfg.idleSeconds) else c.session.idle.deadline
  {
    match e {
      case RunReadHandler(i) => ReadHandlerKeepsIdle(cfg, c, i);
      case RunWriteHandler(i) => WriteHandlerKeepsIdle(cfg, c, i);
      case RunPosted => hide AsyncWrite, Timer.ExpiresAt;
      case _ => hide CloseSocket, AsyncRead;
    }
  }

  lemma StopKeepsDeadline(c: Conn, cause: Cause)
    ensures Stop(c, cause).session.idle.deadline == c.session.idle.deadline
  {
  }

  lemma ReadHandlerKeepsIdle(cfg: Config, c: Conn, i: nat)
    ensures Next(cfg, c, RunReadHandler(i)).session.idle.deadline == c.session.idle.deadline
  {
    hide U32, Put32, Overwrite, Resized, Decode, Stop, AsyncRead, Timer.ExpiresAt;
    if Enabled(c, RunReadHandler(i)) {
      var op := c.net.readOps[i];
      var n := DropRead(c, i).(net := Noted(DropRead(c, i).net, ReadHandled));
      StopKeepsDeadline(n, ReadFailed);
      if |op.got| == PACKET_LENGTH {
        StopKeepsDeadline(n.(reader := n.reader.(packetLength := U32(op.got, 0))), PacketTooLarge);
      }
    }
  }

  lemma WriteHandlerKeepsIdle(cfg: Config, c: Conn, i: nat)
    ensures Next(cfg, c, RunWriteHandler(i)).session.idle.deadline == c.session.idle.deadline
  {
    hide Stop, AsyncWrite, Timer.ExpiresAt;
    if Enabled(c, RunWriteHandler(i)) {
      StopKeepsDeadline(DropWrite(c, i).(net := Noted(DropWrite(c, i).net, WriteHandled)), WriteFailed);
    }
  }

  /** Every call of `write_packet` hands its packet to the executor, and nothing else. */
  lemma CallPosts(cfg: Config, c: Conn, packet: Bytes)
    requires Enabled(c, CallWritePacket(packet))
    ensures var d := Next(cfg, c, CallWritePacket(packet));
            && d.session.offered == c.session.offered + [packet] && d.net.posted == c.net.posted + [packet]
            && d.writer == c.writer && d.net.writeOps == c.net.writeOps && d.net.readOps == c.net.readOps
  {
  }

  lemma NothingElseOffers(cfg: Config, c: Conn, e: Event)
    requires Core(c) && !e.CallWritePacket?
    ensures Next(cfg, c, e).session.offered == c.session.offered
  {
    if WriterTheorems.WriterEvent(e) {
      hide CloseSocket, Timer.ExpiresAt, AsyncWrite, ReadShape, WriteShape;
    } else {
      WriterTheorems.OthersKeepWriter(cfg, c, e);
      hide Next;
    }
  }

  // ----- Steps as the clocks see them -----

  function When(happened: bool, now: nat, what: What): seq<Mark> {
    if happened then [Mark(now, what)] else []
  }

  /** What a step should enter into the history. */
  function Marks(cfg: Config, c: Conn, e: Event): seq<Mark> {
    When(Called(c, e), c.net.now, IdleRenewed)
    + When(ReadHandlerRuns(c, e), c.net.now, ReadHandled) + When(ReadStarts(cfg, c, e), c.net.now, ReadBegun)
    + When(WriteHandlerRuns(c, e), c.net.now, WriteHandled) + When(WriteStarts(cfg, c, e), c.net.now, WriteBegun)
  }

  ghost predicate ReadClock(cfg: Config, c: Conn, e: Event) {
    Next(cfg, c, e).reader.timer.deadline ==
    if ReadStarts(cfg, c, e) then At(c.net.now + cfg.readSeconds) else c.reader.timer.deadline
  }

  ghost predicate WriteClock(cfg: Config, c: Conn, e: Event) {
    Next(cfg, c, e).writer.timer.deadline ==
    if WriteStarts(cfg, c, e) then At(c.net.now + cfg.writeSeconds)
    else if QueueRunsEmpty(c, e) then Never
    else c.writer.timer.deadline
  }

  ghost predicate Marked(cfg: Config, c: Conn, e: Event) {
    Next(cfg, c, e).net.trace == c.net.trace + Marks(cfg, c, e)
  }

  ghost predicate Clocked(cfg: Config, c: Conn, e: Event) {
    ReadClock(cfg, c, e) && WriteClock(cfg, c, e) && Marked(cfg, c, e)
  }

  /** The marks of a step in which these things happen and no others. */
  lemma MarksAre(cfg: Config, c: Conn, e: Event)
    ensures var readsOn, writesOn := ReadStarts(cfg, c, e), WriteStarts(cfg, c, e);
            && (!Called(c, e) && !readsOn && !writesOn && !ReadHandlerRuns(c, e) && !WriteHandlerRuns(c, e) ==>
                  Marks(cfg, c, e) == [])
            && (Called(c, e) && !writesOn ==>
                  Marks(cfg, c, e) == [Mark(c.net.now, IdleRenewed)] + When(readsOn, c.net.now, ReadBegun))
            && (ReadHandlerRuns(c, e) && !writesOn ==>
                  Marks(cfg, c, e) == [Mark(c.net.now, ReadHandled)] + When(readsOn, c.net.now, ReadBegun))
            && (WriteHandlerRuns(c, e) && !readsOn ==>
                  Marks(cfg, c, e) == [Mark(c.net.now, WriteHandled)] + When(writesOn, c.net.now, WriteBegun))
            && (e.RunPosted? && !readsOn ==> Marks(cfg, c, e) == When(writesOn, c.net.now, WriteBegun))
  {
    hide Next, Enabled;
  }

  lemma CallClocked(cfg: Config, c: Conn, e: Event)
    requires Core(c) && Called(c, e)
    ensures Clocked(cfg, c, e)
  {
    hide Timer.Cancel, WriteFits, ReadFits;
    MarksAre(cfg, c, e);
    hide Marks;
    if e.CallStart? {
      assert c.net.readOps == [];
      Deadlines.TwoMarks(c.net.trace, Mark(c.net.now, IdleRenewed), Mark(c.net.now, ReadBegun));
    }
  }

  lemma PostedClocked(cfg: Config, c: Conn)
    requires Core(c) && Enabled(c, RunPosted)
    ensures Clocked(cfg, c, RunPosted)
  {
    hide Timer.Cancel, WriteFits, ReadFits;
    MarksAre(cfg, c, RunPosted);
    hide Marks;
    Deadlines.Nothing(c.net.trace);
  }

  lemma QuietClocked(cfg: Config, c: Conn, e: Event)
    requires !Enabled(c, e) || e.Tick? || e.Receive? || e.EndRead? || e.Send? || e.EndWrite? || e.TimerExpires?
    ensures Clocked(cfg, c, e)
  {
    var d := Next(cfg, c, e);
    assert |d.net.readOps| == |c.net.readOps| && |d.net.writeOps| == |c.net.writeOps|;
    MarksAre(cfg, c, e);
    hide Marks;
    Deadlines.Nothing(c.net.trace);
  }

  lemma TimerHandlerClocked(cfg: Config, c: Conn, w: Watch)
    requires Core(c) && Enabled(c, RunTimerHandler(w))
    ensures Clocked(cfg, c, RunTimerHandler(w))
  {
    hide WriteFits, ReadFits;
    MarksAre(cfg, c, RunTimerHandler(w));
    hide Marks;
    Deadlines.Nothing(c.net.trace);
  }

  lemma WriteHandlerClocked(cfg: Config, c: Conn, i: nat)
    requires Core(c) && Enabled(c, RunWriteHandler(i))
    ensures Clocked(cfg, c, RunWriteHandler(i))
  {
    hide Timer.Cancel, ReadFits;
    MarksAre(cfg, c, RunWriteHandler(i));
    hide Marks;
    assert DropWrite(c, i).net.writeOps == [];
    Deadlines.TwoMarks(c.net.trace, Mark(c.net.now, WriteHandled), Mark(c.net.now, WriteBegun));
  }

  lemma LengthHandlerClocked(cfg: Config, c: Conn, i: nat)
    requires Core(c) && Enabled(c, RunReadHandler(i)) && c.net.readOps[i].target == LengthTarget
    ensures Clocked(cfg, c, RunReadHandler(i))
  {
    hide Timer.Cancel, WriteFits, U32, Put32, Overwrite, Resized;
    MarksAre(cfg, c, RunReadHandler(i));
    hide Marks;
    assert DropRead(c, i).net.readOps == [];
    Deadlines.TwoMarks(c.net.trace, Mark(c.net.now, ReadHandled), Mark(c.net.now, ReadBegun));
  }

  lemma BodyHandlerClocked(cfg: Config, c: Conn, i: nat)
    requires Core(c) && Enabled(c, RunReadHandler(i)) && c.net.readOps[i].target == BodyTarget
    ensures Clocked(cfg, c, RunReadHandler(i))
  {
    hide Timer.Cancel, WriteFits, Overwrite, Decode;
    MarksAre(cfg, c, RunReadHandler(i));
    hide Marks;
    assert DropRead(c, i).net.readOps == [];
    Deadlines.TwoMarks(c.net.trace, Mark(c.net.now, ReadHandled), Mark(c.net.now, ReadBegun));
  }

  /**
   Every read that starts moves the read deadline and every write the write deadline, which rests once the queue runs
   empty; nothing else moves them.  And the history has an entry for every call, every read or write that starts, and
   every read or write handler that runs, and no others.
   */
  lemma StepIsClocked(cfg: Config, c: Conn, e: Event)
    requires Core(c)
    ensures Clocked(cfg, c, e)
  {
    hide Core, Clocked, Apply;
    if !Enabled(c, e) {
      QuietClocked(cfg, c, e);
    } else {
      match e {
        case CallStart => CallClocked(cfg, c, e);
        case CallWritePacket(_) => CallClocked(cfg, c, e);
        case RunPosted => PostedClocked(cfg, c);
        case RunReadHandler(i) =>
          if c.net.readOps[i].target == LengthTarget {
            LengthHandlerClocked(cfg, c, i);
          } else {
            BodyHandlerClocked(cfg, c, i);
          }
        case RunWriteHandler(i) => WriteHandlerClocked(cfg, c, i);
        case RunTimerHandler(w) => TimerHandlerClocked(cfg, c, w);
        case _ => QuietClocked(cfg, c, e);
      }
    }
  }

  // ----- Stopping -----

  /**
   A session stops by closing the socket, with no operation left in progress, cancelling the idle timer, and running
   `on_close_` once; read and write timers keep their deadlines and pending waits, queue and postings stay.
   */
  ghost predicate StopsProperly(c: Conn, d: Conn) {
    && !d.net.open && d.session.closes == c.session.closes + 1
    && d.session.idle.pending == 0 && d.session.idle.deadline == c.session.idle.deadline
    && d.reader.timer.pending == c.reader.timer.pending && d.reader.timer.deadline == c.reader.timer.deadline
    && d.writer.timer.pending == c.writer.timer.pending && d.writer.timer.deadline == c.writer.timer.deadline
    && d.writer.queue == c.writer.queue && d.net.posted == c.net.posted
    && (forall i | 0 <= i < |d.net.readOps| :: d.net.readOps[i].status.Completed?)
    && (forall i | 0 <= i < |d.net.writeOps| :: d.net.writeOps[i].status.Completed?)
  }

  lemma StopIsProper(c: Conn, cause: Cause)
    requires !c.session.stopped
    ensures StopsProperly(c, Stop(c, cause))
  {
  }

  /** Which steps stop a session, and that they do it properly. */
  lemma ReadHandlerStops(cfg: Config, c: Conn, i: nat)
    requires Core(c) && !c.session.stopped && Enabled(c, RunReadHandler(i))
    ensures var d := Next(cfg, c, RunReadHandler(i)); d.session.stopped ==> StopsProperly(c, d)
  {
    hide U32, Put32, Overwrite, Resized, Decode, WriteFits, Timer.ExpiresAt, Stop, StopsProperly;
    var n := DropRead(c, i).(net := Noted(DropRead(c, i).net, ReadHandled));
    var op := c.net.readOps[i];
    StopKeeps(c, n, ReadFailed);
    if |op.got| == PACKET_LENGTH {
      StopKeeps(c, n.(reader := n.reader.(packetLength := U32(op.got, 0))), PacketTooLarge);
    }
  }

  lemma WriteHandlerStops(cfg: Config, c: Conn, i: nat)
    requires Core(c) && !c.session.stopped && Enabled(c, RunWriteHandler(i))
    ensures var d := Next(cfg, c, RunWriteHandler(i)); d.session.stopped ==> StopsProperly(c, d)
  {
    hide ReadFits, Timer.ExpiresAt, Stop, StopsProperly;
    StopKeeps(c, DropWrite(c, i).(net := Noted(DropWrite(c, i).net, WriteHandled)), WriteFailed);
  }

  lemma TimerHandlerStops(cfg: Config, c: Conn, w: Watch)
    requires Core(c) && !c.session.stopped && Enabled(c, RunTimerHandler(w))
    ensures var d := Next(cfg, c, RunTimerHandler(w)); d.session.stopped ==> StopsProperly(c, d)
  {
    hide ReadFits, WriteFits, Stop, StopsProperly;
    StopKeeps(c, WithTimer(c, w, TimerOf(c, w).Take()), DeadlinePassed(w));
  }

  /** Stopping after a step that has left all this alone. */
  lemma StopKeeps(c: Conn, n: Conn, cause: Cause)
    requires !n.session.stopped && n.session.closes == c.session.closes
    requires n.session.idle.deadline == c.session.idle.deadline
    requires n.reader.timer.pending == c.reader.timer.pending && n.reader.timer.deadline == c.reader.timer.deadline
    requires n.writer.timer.pending == c.writer.timer.pending && n.writer.timer.deadline == c.writer.timer.deadline
    requires n.writer.queue == c.writer.queue && n.net.posted == c.net.posted
    ensures StopsProperly(c, Stop(n, cause)) && Stop(n, cause).session.stopped
  {
    StopIsProper(n, cause);
  }

  lemma StopsAreProper(cfg: Config, c: Conn, e: Event)
    requires Core(c) && !c.session.stopped && Next(cfg, c, e).session.stopped
    ensures StopsProperly(c, Next(cfg, c, e))
  {
    hide StopsProperly, Core;
    match e {
      case RunReadHandler(i) => hide Next; ReadHandlerStops(cfg, c, i);
      case RunWriteHandler(i) => hide Next; WriteHandlerStops(cfg, c, i);
      case RunTimerHandler(w) => hide Next; TimerHandlerStops(cfg, c, w);
      case _ => assert false;
    }
  }

  // ----- Entries of the history and steps of a run -----

  /** The state before step `i` of a run. */
  function Before(cfg: Config, now: nat, es: seq<Event>, i: nat): Conn
    requires i <= |es|
  {
    Run(cfg, Init(now), es[..i])
  }

  /** In a step the clock of a timer starts, or what it waits for happens. */
  predicate Begins(cfg: Config, w: Watch, c: Conn, e: Event) {
    match w
    case IdleWatch => Called(c, e)
    case ReadWatch => ReadStarts(cfg, c, e)
    case WriteWatch => WriteStarts(cfg, c, e)
  }

  predicate Ends(w: Watch, c: Conn, e: Event) {
    match w
    case IdleWatch => Called(c, e)
    case ReadWatch => ReadHandlerRuns(c, e)
    case WriteWatch => WriteHandlerRuns(c, e)
  }

  lemma BeforeNext(cfg: Config, now: nat, es: seq<Event>, i: nat)
    requires i < |es|
    ensures Core(Before(cfg, now, es, i))
    ensures Before(cfg, now, es, i + 1) == Next(cfg, Before(cfg, now, es, i), es[i])
  {
    InitCore(now);
    RunCore(cfg, Init(now), es[..i]);
    RunAppend(cfg, Init(now), es[..i], [es[i]]);
    var c := Before(cfg, now, es, i);
    hide Core;
    assert es[..i + 1] == es[..i] + [es[i]];
    assert Run(cfg, c, [es[i]]) == Run(cfg, Next(cfg, c, es[i]), []);
  }

  lemma BeforeMarks(cfg: Config, now: nat, es: seq<Event>, i: nat)
    requires i < |es|
    ensures var c := Before(cfg, now, es, i);
            Before(cfg, now, es, i + 1).net.trace == c.net.trace + Marks(cfg, c, es[i])
  {
    BeforeNext(cfg, now, es, i);
    hide Core, Before, Next;
    StepIsClocked(cfg, Before(cfg, now, es, i), es[i]);
  }

  lemma {:induction false} HistoryGrows(cfg: Config, now: nat, es: seq<Event>, i: nat, k: nat)
    requires i <= k <= |es|
    ensures Before(cfg, now, es, i).net.trace <= Before(cfg, now, es, k).net.trace
    decreases k - i
  {
    if i < k {
      hide Before, Marks;
      HistoryGrows(cfg, now, es, i, k - 1);
      BeforeMarks(cfg, now, es, k - 1);
    }
  }

  /** The step that made an entry. */
  lemma {:induction false} MadeBy(cfg: Config, now: nat, es: seq<Event>, n: nat, j: nat) returns (i: nat)
    requires n <= |es| && j < |Before(cfg, now, es, n).net.trace|
    ensures i < n && |Before(cfg, now, es, i).net.trace| <= j < |Before(cfg, now, es, i + 1).net.trace|
    decreases n
  {
    if n == 0 {
      assert false;
    } else if j < |Before(cfg, now, es, n - 1).net.trace| {
      hide Before;
      i := MadeBy(cfg, now, es, n - 1, j);
    } else {
      i := n - 1;
    }
  }

  /** An entry that starts a clock was made by a step that starts it. */
  lemma MarkBegins(cfg: Config, w: Watch, c: Conn, e: Event, p: nat)
    requires p < |Marks(cfg, c, e)|
    ensures Marks(cfg, c, e)[p].at == c.net.now
    ensures Deadlines.Begins(w, Marks(cfg, c, e)[p].what) ==> Begins(cfg, w, c, e)
  {
    hide Called, ReadStarts, WriteStarts, ReadHandlerRuns, WriteHandlerRuns;
  }

  /** A step that ends a clock makes an entry that says so. */
  lemma EndIsMarked(cfg: Config, w: Watch, c: Conn, e: Event) returns (p: nat)
    requires Ends(w, c, e)
    ensures p < |Marks(cfg, c, e)|
    ensures Marks(cfg, c, e)[p].at == c.net.now && Deadlines.Ends(w, Marks(cfg, c, e)[p].what)
  {
    hide Called, ReadStarts, WriteStarts, ReadHandlerRuns, WriteHandlerRuns;
    var calls := When(Called(c, e), c.net.now, IdleRenewed);
    var handled := calls + When(ReadHandlerRuns(c, e), c.net.now, ReadHandled);
    var begun := handled + When(ReadStarts(cfg, c, e), c.net.now, ReadBegun);
    match w {
      case IdleWatch => p := 0;
      case ReadWatch => p := |calls|;
      case WriteWatch => p := |begun|;
    }
  }

  lemma EntryOf(s: seq<Mark>, more: seq<Mark>, t: seq<Mark>, j: nat)
    requires s + more <= t && |s| <= j < |s| + |more|
    ensures j < |t| && t[j] == more[j - |s|]
  {
  }

  /** A later step that ends the clock has made a later entry. */
  lemma EndAfter(cfg: Config, now: nat, es: seq<Event>, w: Watch, j: nat, k: nat) returns (q: nat)
    requires k < |es| && Ends(w, Before(cfg, now, es, k), es[k]) && j < |Before(cfg, now, es, k).net.trace|
    ensures var c, d := Before(cfg, now, es, k), Before(cfg, now, es, |es|);
            j < q < |d.net.trace| && d.net.trace[q].at == c.net.now && Deadlines.Ends(w, d.net.trace[q].what)
  {
    hide Before, Marks, Ends;
    var c := Before(cfg, now, es, k);
    BeforeMarks(cfg, now, es, k);
    HistoryGrows(cfg, now, es, k + 1, |es|);
    var p := EndIsMarked(cfg, w, c, es[k]);
    q := |c.net.trace| + p;
    EntryOf(c.net.trace, Marks(cfg, c, es[k]), Before(cfg, now, es, |es|).net.trace, q);
  }

  /** The step behind an entry that starts a clock. */
  lemma BeganBy(cfg: Config, now: nat, es: seq<Event>, w: Watch, j: nat) returns (i: nat)
    requires var d := Before(cfg, now, es, |es|); j < |d.net.trace| && Deadlines.Begins(w, d.net.trace[j].what)
    ensures i < |es| && Begins(cfg, w, Before(cfg, now, es, i), es[i])
    ensures Before(cfg, now, es, |es|).net.trace[j].at == Before(cfg, now, es, i).net.now
    ensures forall k | i < k < |es| :: j < |Before(cfg, now, es, k).net.trace|
  {
    hide Before, Marks, Begins;
    i := MadeBy(cfg, now, es, |es|, j);
    var c := Before(cfg, now, es, i);
    BeforeMarks(cfg, now, es, i);
    HistoryGrows(cfg, now, es, i + 1, |es|);
    MarkBegins(cfg, w, c, es[i], j - |c.net.trace|);
    EntryOf(c.net.trace, Marks(cfg, c, es[i]), Before(cfg, now, es, |es|).net.trace, j);
    forall k | i < k < |es|
      ensures j < |Before(cfg, now, es, k).net.trace|
    {
      HistoryGrows(cfg, now, es, i + 1, k);
    }
  }

  // ----- Deadlines in terms of operations -----

  /**
   If the session was stopped by its write timer, some step of the run started a write and no write handler ran for
   `writeSeconds` from then on; likewise for its read timer and a read; and if it was stopped by its idle timer, after
   some call of `start` or `write_packet` there was none for `idleSeconds`.
   */
  lemma TimeoutMeansOverdueOperation(cfg: Config, now: nat, es: seq<Event>, w: Watch) returns (i: nat)
    requires Run(cfg, Init(now), es).session.cause == Some(DeadlinePassed(w))
    ensures i < |es| && Begins(cfg, w, Before(cfg, now, es, i), es[i])
    ensures var due := Before(cfg, now, es, i).net.now + Deadlines.Seconds(cfg, w);
            && due <= Run(cfg, Init(now), es).net.now
            && forall k | i < k < |es| && Ends(w, Before(cfg, now, es, k), es[k]) ::
                 due <= Before(cfg, now, es, k).net.now
  {
    Deadlines.TimeoutMeansLate(cfg, now, es, w);
    var d := Run(cfg, Init(now), es);
    assert es[..|es|] == es;
    var secs := Deadlines.Seconds(cfg, w);
    var j: nat :| && j < |d.net.trace| && Deadlines.Begins(w, d.net.trace[j].what)
                  && d.net.trace[j].at + secs <= d.net.now
                  && forall k | j < k < |d.net.trace| && Deadlines.Ends(w, d.net.trace[k].what) ::
                       d.net.trace[j].at + secs <= d.net.trace[k].at;
    assert d == Before(cfg, now, es, |es|);
    hide Before, Run, Begins, Ends;
    i := BeganBy(cfg, now, es, w, j);
    forall k | i < k < |es| && Ends(w, Before(cfg, now, es, k), es[k])
      ensures d.net.trace[j].at + secs <= Before(cfg, now, es, k).net.now
    {
      var q := EndAfter(cfg, now, es, w, j, k);
    }
  }

  /**
   While the session runs, every finite deadline lies the configured time behind a step that started the operation,
   or called, and nothing has ended that since; idle and read deadline are finite.
   */
  lemma DeadlineMeansRunningOperation(cfg: Config, now: nat, es: seq<Event>, w: Watch) returns (i: nat)
    requires var d := Run(cfg, Init(now), es);
             && d.net.open && d.session.started && !d.session.crashed
             && (w == WriteWatch ==> d.net.writeOps != [])
    ensures i < |es| && Begins(cfg, w, Before(cfg, now, es, i), es[i])
    ensures TimerOf(Run(cfg, Init(now), es), w).deadline ==
            At(Before(cfg, now, es, i).net.now + Deadlines.Seconds(cfg, w))
    ensures forall k | i < k < |es| :: !Ends(w, Before(cfg, now, es, k), es[k])
  {
    var d := Run(cfg, Init(now), es);
    Deadlines.DeadlinesAreArmed(cfg, now, es, w);
    WriterTheorems.WriterSingleFlight(cfg, now, es);
    var deadline := TimerOf(d, w).deadline;
    assert deadline.At?;
    var secs := Deadlines.Seconds(cfg, w);
    var j: nat :| Deadlines.RunningSince(d.net.trace, w, secs, deadline.time, j);
    assert es[..|es|] == es;
    assert d == Before(cfg, now, es, |es|);
    hide Before, Run, Begins, Ends;
    i := BeganBy(cfg, now, es, w, j);
    forall k | i < k < |es|
      ensures !Ends(w, Before(cfg, now, es, k), es[k])
    {
      if Ends(w, Before(cfg, now, es, k), es[k]) {
        var q := EndAfter(cfg, now, es, w, j, k);
        assert false;
      }
    }
  }
}
