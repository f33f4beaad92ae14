/**
 What every handler keeps, and safety of a session over whole runs: one close, no undefined access, no
 overlapping operations, nothing after the stop, and one wait per timer.
 */
module SessionTheorems {
  import opened ByteOrder
  import opened Packets
  import opened Framing
  import opened SteadyTimers
  import opened Connections

  /** What the handlers rely on. */
  ghost predicate Core(c: Conn) {
    && !c.undefined
    && CloseOnce(c)
    && ReadShape(c)
    && WriteShape(c)
  }

  ghost predicate CloseOnce(c: Conn) {
    && (c.session.stopped <==> !c.net.open)
    && c.session.closes == (if c.session.stopped then 1 else 0)
    && (c.session.cause.Some? <==> c.session.stopped)
  }

  /** At most one read, reading into memory that is large enough; exactly one while the session is running. */
  ghost predicate ReadShape(c: Conn) {
    && |c.net.readOps| <= 1
    && (c.net.readOps != [] ==> ReadFits(c, c.net.readOps[0]))
    && (c.net.open && c.session.started && !c.session.crashed ==> c.net.readOps != [])
    && (!c.session.started || c.session.crashed ==> c.net.readOps == [])
  }

  ghost predicate ReadFits(c: Conn, op: ReadOp) {
    && |op.got| <= op.want
    && (op.status == Completed(NoError) ==> |op.got| == op.want)
    && (op.status == Active ==> c.net.open)
    && (op.status == Completed(OperationAborted) ==> !c.net.open)
    && op.want == (if op.target == LengthTarget then PACKET_LENGTH else c.reader.packetLength)
    && (op.target == BodyTarget ==> |c.reader.packetBuffer| == PACKET_LENGTH + op.want)
  }

  /** At most one write, of the front of the queue; exactly one while the queue is not empty. */
  ghost predicate WriteShape(c: Conn) {
    && |c.net.writeOps| <= 1
    && (c.net.writeOps != [] ==> c.writer.queue != [] && WriteFits(c, c.net.writeOps[0]))
    && (c.net.open && c.writer.queue != [] ==> c.net.writeOps != [])
    && (!c.session.started ==> c.writer.queue == [] && c.net.posted == [])
  }

  ghost predicate WriteFits(c: Conn, op: WriteOp)
    requires c.writer.queue != []
  {
    && op.data == c.writer.queue[0]
    && op.sent <= |op.data|
    && (op.status == Completed(NoError) ==> op.sent == |op.data|)
    && (op.status == Active ==> c.net.open)
    && (op.status == Completed(OperationAborted) ==> !c.net.open)
  }

  lemma InitCore(now: nat)
    ensures Core(Init(now))
  {
  }

  /** Closing the socket keeps the shape of the operations, except that none is active any more. */
  lemma StopShapes(c: Conn, cause: Cause)
    requires c.session.stopped <==> !c.net.open
    requires |c.net.readOps| <= 1 && |c.net.writeOps| <= 1
    requires c.net.readOps != [] ==> ReadFits(c, c.net.readOps[0])
    requires c.net.writeOps != [] ==> c.writer.queue != [] && WriteFits(c, c.net.writeOps[0])
    ensures var d := Stop(c, cause);
            && !d.net.open
            && |d.net.readOps| == |c.net.readOps| && |d.net.writeOps| == |c.net.writeOps|
            && (d.net.readOps != [] ==> ReadFits(d, d.net.readOps[0]))
            && (d.net.writeOps != [] ==> WriteFits(d, d.net.writeOps[0]))
            && d.reader == c.reader && d.writer == c.writer && d.net.posted == c.net.posted
            && d.session.started == c.session.started && d.session.crashed == c.session.crashed
            && d.undefined == c.undefined
  {
  }

  lemma LengthHandlerShapes(cfg: Config, c: Conn, i: nat)
    requires Core(c) && Enabled(c, RunReadHandler(i)) && c.net.readOps[i].target == LengthTarget
    ensures ReadShape(Apply(cfg, c, RunReadHandler(i))) && WriteShape(Apply(cfg, c, RunReadHandler(i)))
  {
    hide U32, Put32, Overwrite, Resized, Stop, Timer.ExpiresAt, Timer.Cancel;
    var op := c.net.readOps[i];
    assert DropRead(c, i).net.readOps == [];
    var n := DropRead(c, i).(net := Noted(DropRead(c, i).net, ReadHandled));
    StopShapes(n, ReadFailed);
    if op.status.ec == NoError {
      StopShapes(n.(reader := n.reader.(packetLength := U32(op.got, 0))), PacketTooLarge);
    }
  }

  lemma BodyHandlerShapes(cfg: Config, c: Conn, i: nat)
    requires Core(c) && Enabled(c, RunReadHandler(i)) && c.net.readOps[i].target == BodyTarget
    ensures ReadShape(Apply(cfg, c, RunReadHandler(i))) && WriteShape(Apply(cfg, c, RunReadHandler(i)))
  {
    hide Overwrite, Decode, Stop, Timer.ExpiresAt, Timer.Cancel;
    assert DropRead(c, i).net.readOps == [];
    StopShapes(DropRead(c, i).(net := Noted(DropRead(c, i).net, ReadHandled)), ReadFailed);
  }

  lemma ReadHandlerShapes(cfg: Config, c: Conn, i: nat)
    requires Core(c) && Enabled(c, RunReadHandler(i))
    ensures ReadShape(Apply(cfg, c, RunReadHandler(i))) && WriteShape(Apply(cfg, c, RunReadHandler(i)))
  {
    if c.net.readOps[i].target == LengthTarget {
      LengthHandlerShapes(cfg, c, i);
    } else {
      BodyHandlerShapes(cfg, c, i);
    }
    hide Apply, Core, ReadShape, WriteShape;
  }

  lemma WriteHandlerShapes(cfg: Config, c: Conn, i: nat)
    requires Core(c) && Enabled(c, RunWriteHandler(i))
    ensures ReadShape(Apply(cfg, c, RunWriteHandler(i))) && WriteShape(Apply(cfg, c, RunWriteHandler(i)))
  {
    hide Stop;
    var d := DropWrite(c, i);
    assert d.net.writeOps == [];
    StopShapes(d.(net := Noted(d.net, WriteHandled)), WriteFailed);
  }

  lemma TimerFrame(c: Conn, w: Watch, t: Timer)
    ensures var d := WithTimer(c, w, t);
            && d.net == c.net && d.undefined == c.undefined
            && d.reader.packetLength == c.reader.packetLength && d.reader.packetBuffer == c.reader.packetBuffer
            && d.writer.queue == c.writer.queue
            && d.session.(idle := c.session.idle) == c.session
  {
  }

  lemma TimerHandlerShapes(cfg: Config, c: Conn, w: Watch)
    requires Core(c) && Enabled(c, RunTimerHandler(w))
    ensures ReadShape(Apply(cfg, c, RunTimerHandler(w))) && WriteShape(Apply(cfg, c, RunTimerHandler(w)))
  {
    hide Stop, WithTimer;
    var d := WithTimer(c, w, TimerOf(c, w).Take());
    TimerFrame(c, w, TimerOf(c, w).Take());
    TimerFrame(d, w, TimerOf(d, w).AsyncWait());
    StopShapes(d, DeadlinePassed(w));
  }

  lemma NextDefined(cfg: Config, c: Conn, e: Event)
    requires Core(c)
    ensures !Next(cfg, c, e).undefined
  {
    hide U32, Put32, Overwrite, Resized, Decode, CloseOnce;
  }

  lemma StopClosesOnce(c: Conn, cause: Cause)
    requires CloseOnce(c)
    ensures CloseOnce(Stop(c, cause))
  {
  }

  lemma ReadHandlerClosesOnce(cfg: Config, c: Conn, i: nat)
    requires Core(c) && Enabled(c, RunReadHandler(i))
    ensures CloseOnce(Apply(cfg, c, RunReadHandler(i)))
  {
    hide U32, Put32, Overwrite, Resized, Decode, Stop, WriteShape;
    var op := c.net.readOps[i];
    var d := DropRead(c, i);
    var n := d.(net := Noted(d.net, ReadHandled));
    StopClosesOnce(n, ReadFailed);
    if op.target == LengthTarget && op.status.ec == NoError {
      StopClosesOnce(n.(reader := n.reader.(packetLength := U32(op.got, 0))), PacketTooLarge);
    }
  }

  lemma WriteHandlerClosesOnce(cfg: Config, c: Conn, i: nat)
    requires Core(c) && Enabled(c, RunWriteHandler(i))
    ensures CloseOnce(Apply(cfg, c, RunWriteHandler(i)))
  {
    hide Stop, ReadShape, WriteShape;
    var d := DropWrite(c, i);
    StopClosesOnce(d.(net := Noted(d.net, WriteHandled)), WriteFailed);
  }

  lemma TimerHandlerClosesOnce(cfg: Config, c: Conn, w: Watch)
    requires Core(c) && Enabled(c, RunTimerHandler(w))
    ensures CloseOnce(Apply(cfg, c, RunTimerHandler(w)))
  {
    hide Stop, WithTimer, ReadShape, WriteShape;
    var d := WithTimer(c, w, TimerOf(c, w).Take());
    TimerFrame(c, w, TimerOf(c, w).Take());
    TimerFrame(d, w, TimerOf(d, w).AsyncWait());
    StopClosesOnce(d, DeadlinePassed(w));
  }

  lemma NextCloseOnce(cfg: Config, c: Conn, e: Event)
    requires Core(c)
    ensures CloseOnce(Next(cfg, c, e))
  {
    match e {
      case RunReadHandler(i) => if Enabled(c, e) { ReadHandlerClosesOnce(cfg, c, i); }
      case RunWriteHandler(i) => if Enabled(c, e) { WriteHandlerClosesOnce(cfg, c, i); }
      case RunTimerHandler(w) => if Enabled(c, e) { TimerHandlerClosesOnce(cfg, c, w); }
      case _ => hide ReadShape, WriteShape;
    }
  }

  /** Events that are not handlers: of the reader, of the writer, of neither. */
  lemma ReadEventShapes(cfg: Config, c: Conn, e: Event)
    requires Core(c) && Enabled(c, e) && (e.CallStart? || e.Receive? || e.EndRead?)
    ensures ReadShape(Apply(cfg, c, e)) && WriteShape(Apply(cfg, c, e))
  {
    hide Timer.ExpiresAt, Timer.Cancel;
  }

  lemma WriteEventShapes(cfg: Config, c: Conn, e: Event)
    requires Core(c) && Enabled(c, e) && (e.CallWritePacket? || e.RunPosted? || e.Send? || e.EndWrite?)
    ensures ReadShape(Apply(cfg, c, e)) && WriteShape(Apply(cfg, c, e))
  {
    hide Timer.ExpiresAt, Timer.Cancel;
  }

  lemma ClockEventShapes(cfg: Config, c: Conn, e: Event)
    requires Core(c) && Enabled(c, e) && (e.Tick? || e.TimerExpires?)
    ensures ReadShape(Apply(cfg, c, e)) && WriteShape(Apply(cfg, c, e))
  {
    hide Timer.Expire;
  }

  lemma NextShapes(cfg: Config, c: Conn, e: Event)
    requires Core(c)
    ensures ReadShape(Next(cfg, c, e)) && WriteShape(Next(cfg, c, e))
  {
    hide Apply, ReadShape, WriteShape, CloseOnce;
    if Enabled(c, e) {
      match e {
        case RunReadHandler(i) => ReadHandlerShapes(cfg, c, i);
        case RunWriteHandler(i) => WriteHandlerShapes(cfg, c, i);
        case RunTimerHandler(w) => TimerHandlerShapes(cfg, c, w);
        case CallStart => ReadEventShapes(cfg, c, e);
        case Receive(_, _) => ReadEventShapes(cfg, c, e);
        case EndRead(_, _) => ReadEventShapes(cfg, c, e);
        case Tick(_) => ClockEventShapes(cfg, c, e);
        case TimerExpires(_) => ClockEventShapes(cfg, c, e);
        case _ => WriteEventShapes(cfg, c, e);
      }
    }
  }

  /** No handler breaks what the handlers rely on. */
  lemma NextCore(cfg: Config, c: Conn, e: Event)
    requires Core(c)
    ensures Core(Next(cfg, c, e))
  {
    NextDefined(cfg, c, e);
    NextCloseOnce(cfg, c, e);
    NextShapes(cfg, c, e);
    hide Next;
  }

  lemma {:induction false} RunCore(cfg: Config, c: Conn, es: seq<Event>)
    requires Core(c)
    ensures Core(Run(cfg, c, es))
    decreases |es|
  {
    if es != [] {
      var d := Next(cfg, c, es[0]);
      NextCore(cfg, c, es[0]);
      hide Core, Next;
      RunCore(cfg, d, es[1..]);
    }
  }

  /**
   In every reachable state: `on_close_` has run at most once, and it has run exactly if the session is
   stopped, which is exactly if the socket is closed; no handler has popped an empty queue or written
   outside its buffer; reads and writes never overlap.
   */
  lemma SessionSafety(cfg: Config, now: nat, es: seq<Event>)
    ensures var c := Run(cfg, Init(now), es);
            && c.session.closes <= 1
            && (c.session.stopped <==> c.session.closes == 1)
            && (c.session.stopped <==> !c.net.open)
            && !c.undefined
            && |c.net.readOps| <= 1 && |c.net.writeOps| <= 1
  {
    RunCore(cfg, Init(now), es);
  }

  // ----- After the stop -----

  /** What can no longer change once the session is stopped. */
  ghost predicate Frozen(c: Conn, d: Conn) {
    && d.session.stopped && !d.net.open
    && d.session.closes == c.session.closes && d.session.cause == c.session.cause
    && d.session.delivered == c.session.delivered && d.session.crashed == c.session.crashed
    && d.session.written == c.session.written
    && d.net.wire == c.net.wire && d.net.received == c.net.received
  }

  lemma NextFrozen(cfg: Config, c: Conn, e: Event)
    requires c.session.stopped && !c.net.open
    ensures Frozen(c, Next(cfg, c, e))
  {
    hide U32, Put32, Overwrite, Resized, Decode;
  }

  lemma {:induction false} RunFrozen(cfg: Config, c: Conn, es: seq<Event>)
    requires c.session.stopped && !c.net.open
    ensures Frozen(c, Run(cfg, c, es))
    decreases |es|
  {
    if es != [] {
      NextFrozen(cfg, c, es[0]);
      hide Next;
      RunFrozen(cfg, Next(cfg, c, es[0]), es[1..]);
    }
  }

  /**
   Once a reachable state is stopped, every continuation stays stopped with the socket closed, calls neither
   `on_close_` nor `on_packet` again, takes no byte from the peer and puts none on the wire, whatever is
   still posted or handed to `write_packet`.
   */
  lemma NothingAfterStop(cfg: Config, now: nat, es: seq<Event>, fs: seq<Event>)
    requires Run(cfg, Init(now), es).session.stopped
    ensures Frozen(Run(cfg, Init(now), es), Run(cfg, Init(now), es + fs))
  {
    SessionSafety(cfg, now, es);
    RunAppend(cfg, Init(now), es, fs);
    RunFrozen(cfg, Run(cfg, Init(now), es), fs);
  }

  // ----- Timer chains -----

  /** One wait pending or queued until an expiry has been handled, none afterwards. */
  ghost predicate ChainOk(t: Timer, stopped: bool) {
    && t.Outstanding() + t.fired == 1
    && (t.fired > 0 ==> stopped)
  }

  ghost predicate ChainsOk(c: Conn) {
    forall w: Watch :: ChainOk(TimerOf(c, w), c.session.stopped)
  }

  /** Re-arming and cancelling never lose or duplicate a wait. */
  lemma ChainSteps(t: Timer, stopped: bool)
    requires ChainOk(t, stopped)
    ensures forall d :: ChainOk(t.ExpiresAt(d), stopped)
    ensures ChainOk(t.Cancel(), true)
    ensures ChainOk(t, true)
    ensures ChainOk(t.Expire(), stopped)
    ensures t.queued != [] && t.queued[0] == Aborted ==> ChainOk(t.Take().AsyncWait(), stopped)
    ensures t.queued != [] ==> ChainOk(if t.queued[0] == Aborted then t.Take().AsyncWait() else t.Take(), true)
    ensures t.queued != [] && t.queued[0] == Expired ==> ChainOk(t.Take().Cancel(), true)
  {
  }

  lemma ReadHandlerChain(cfg: Config, c: Conn, e: Event, w: Watch)
    requires ChainOk(TimerOf(c, w), c.session.stopped)
    requires e.RunReadHandler?
    ensures var d := Next(cfg, c, e); ChainOk(TimerOf(d, w), d.session.stopped)
  {
    hide U32, Put32, Overwrite, Resized, Decode, CloseSocket, AsyncRead, AsyncWrite, ChainOk;
    hide Timer.ExpiresAt, Timer.Cancel, Timer.Expire, Timer.Take, Timer.AsyncWait;
    ChainSteps(TimerOf(c, w), c.session.stopped);
  }

  lemma WriteHandlerChain(cfg: Config, c: Conn, e: Event, w: Watch)
    requires ChainOk(TimerOf(c, w), c.session.stopped)
    requires e.RunWriteHandler? || e.RunPosted?
    ensures var d := Next(cfg, c, e); ChainOk(TimerOf(d, w), d.session.stopped)
  {
    hide U32, Put32, Overwrite, Resized, Decode, CloseSocket, AsyncRead, AsyncWrite, ChainOk;
    hide Timer.ExpiresAt, Timer.Cancel, Timer.Expire, Timer.Take, Timer.AsyncWait;
    ChainSteps(TimerOf(c, w), c.session.stopped);
  }

  lemma TimerHandlerChain(cfg: Config, c: Conn, e: Event, w: Watch)
    requires ChainOk(TimerOf(c, w), c.session.stopped)
    requires e.RunTimerHandler?
    ensures var d := Next(cfg, c, e); ChainOk(TimerOf(d, w), d.session.stopped)
  {
    hide U32, Put32, Overwrite, Resized, Decode, CloseSocket, AsyncRead, AsyncWrite, ChainOk;
    hide Timer.ExpiresAt, Timer.Cancel, Timer.Expire, Timer.Take, Timer.AsyncWait;
    ChainSteps(TimerOf(c, w), c.session.stopped);
  }

  lemma NextChain(cfg: Config, c: Conn, e: Event, w: Watch)
    requires ChainOk(TimerOf(c, w), c.session.stopped)
    ensures var d := Next(cfg, c, e); ChainOk(TimerOf(d, w), d.session.stopped)
  {
    hide U32, Put32, Overwrite, Resized, Decode, CloseSocket, AsyncRead, AsyncWrite, ChainOk;
    hide Timer.ExpiresAt, Timer.Cancel, Timer.Expire, Timer.Take, Timer.AsyncWait;
    ChainSteps(TimerOf(c, w), c.session.stopped);
    match e {
      case RunReadHandler(_) => ReadHandlerChain(cfg, c, e, w);
      case RunWriteHandler(_) => WriteHandlerChain(cfg, c, e, w);
      case RunPosted => WriteHandlerChain(cfg, c, e, w);
      case RunTimerHandler(_) => TimerHandlerChain(cfg, c, e, w);
      case _ =>
    }
  }

  /**
   In every reachable state each of the three timers has exactly one wait pending or queued until its first
   expiry is handled and none afterwards, and that first expiry leaves the session stopped.
   */
  lemma TimerChains(cfg: Config, now: nat, es: seq<Event>, w: Watch)
    ensures var c := Run(cfg, Init(now), es);
            var t := TimerOf(c, w);
            && t.pending + |t.queued| == (if t.fired == 0 then 1 else 0)
            && t.fired <= 1
            && (t.fired == 1 ==> c.session.stopped)
  {
    RunChains(cfg, Init(now), es);
    assert ChainOk(TimerOf(Run(cfg, Init(now), es), w), Run(cfg, Init(now), es).session.stopped);
  }

  lemma {:induction false} RunChains(cfg: Config, c: Conn, es: seq<Event>)
    requires ChainsOk(c)
    ensures ChainsOk(Run(cfg, c, es))
    decreases |es|
  {
    if es != [] {
      hide Next, ChainOk;
      var d := Next(cfg, c, es[0]);
      forall w: Watch
        ensures ChainOk(TimerOf(d, w), d.session.stopped)
      {
        assert ChainOk(TimerOf(c, w), c.session.stopped);
        NextChain(cfg, c, es[0], w);
      }
      RunChains(cfg, d, es[1..]);
    }
  }
}
