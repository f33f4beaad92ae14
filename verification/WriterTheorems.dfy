/**
 The writer over whole runs: first in first out with nothing lost, duplicated or interleaved, one write in
 flight, the deadline running exactly then, a failed write blocking everything behind it, and progress.
 */
module WriterTheorems {
  import opened ByteOrder
  import opened Packets
  import opened Framing
  import opened SteadyTimers
  import opened Connections
  import opened SessionTheorems

  /** What has left so far, counted in whole packets plus the sent part of the one in flight. */
  ghost function Sent(c: Conn): Bytes {
    if c.net.writeOps == [] || c.net.writeOps[0].sent > |c.net.writeOps[0].data| then Flat(c.session.written)
    else Flat(c.session.written) + c.net.writeOps[0].data[..c.net.writeOps[0].sent]
  }

  ghost predicate FifoOk(c: Conn) {
    && c.session.offered == c.session.written + c.writer.queue + c.net.posted
    && c.net.wire <= Flat(c.session.written + c.writer.queue)
    && (c.net.open ==> c.net.wire == Sent(c))
    && (c.net.open ==> (c.writer.timer.deadline.At? <==> c.net.writeOps != []))
  }

  lemma PrefixMore(s: Bytes, xs: seq<Bytes>, ys: seq<Bytes>)
    requires s <= Flat(xs)
    ensures s <= Flat(xs + ys)
  {
    FlatAppend(xs, ys);
  }

  lemma PostedFifo(cfg: Config, c: Conn)
    requires Core(c) && FifoOk(c) && Enabled(c, RunPosted)
    ensures FifoOk(Apply(cfg, c, RunPosted))
  {
    var d := Apply(cfg, c, RunPosted);
    PrefixMore(c.net.wire, c.session.written + c.writer.queue, [c.net.posted[0]]);
    assert d.session.written + d.writer.queue == c.session.written + c.writer.queue + [c.net.posted[0]];
    assert c.net.posted == [c.net.posted[0]] + c.net.posted[1..];
    if c.writer.queue == [] {
      assert c.net.writeOps == [];
    }
  }

  lemma SendFifo(cfg: Config, c: Conn, i: nat, count: nat)
    requires Core(c) && FifoOk(c) && Enabled(c, Send(i, count))
    ensures FifoOk(Apply(cfg, c, Send(i, count)))
  {
    var d := Apply(cfg, c, Send(i, count));
    var op := c.net.writeOps[0];
    assert op.data[..op.sent + count] == op.data[..op.sent] + op.data[op.sent..op.sent + count];
    SentPrefix(d);
  }

  /** What has been sent is a prefix of the popped and queued packets. */
  lemma SentPrefix(c: Conn)
    requires WriteShape(c)
    ensures Sent(c) <= Flat(c.session.written + c.writer.queue)
  {
    FlatAppend(c.session.written, c.writer.queue);
    if c.net.writeOps != [] {
      assert Flat(c.writer.queue) == c.writer.queue[0] + Flat(c.writer.queue[1..]);
    }
  }

  lemma WriteHandlerFifo(cfg: Config, c: Conn, i: nat)
    requires Core(c) && FifoOk(c) && Enabled(c, RunWriteHandler(i))
    ensures FifoOk(Apply(cfg, c, RunWriteHandler(i)))
  {
    var op := c.net.writeOps[0];
    var d := Apply(cfg, c, RunWriteHandler(i));
    if c.net.open && op.status.ec == NoError {
      FlatPush(c.session.written, c.writer.queue[0]);
      assert op.data[..op.sent] == op.data;
      assert c.session.written + c.writer.queue == d.session.written + d.writer.queue;
      WriteHandlerShapes(cfg, c, i);
      assert d.net.wire == Flat(d.session.written);
      SentPrefix(d);
    } else {
      assert d.session.written == c.session.written && d.writer.queue == c.writer.queue;
    }
  }

  /** Events of the writer and of its callers; all others leave the writer alone, except by closing the socket. */
  predicate WriterEvent(e: Event) {
    e.CallWritePacket? || e.RunPosted? || e.Send? || e.EndWrite? || e.RunWriteHandler?
  }

  ghost predicate SameWriter(c: Conn, d: Conn) {
    && d.session.offered == c.session.offered && d.session.written == c.session.written
    && d.writer.queue == c.writer.queue && d.net.posted == c.net.posted && d.net.wire == c.net.wire
    && (d.net.open ==> && c.net.open && d.net.writeOps == c.net.writeOps
                       && d.writer.timer.deadline == c.writer.timer.deadline)
  }

  lemma StopKeepsWriter(c: Conn, cause: Cause)
    requires c.session.stopped == !c.net.open
    ensures SameWriter(c, Stop(c, cause))
  {
  }

  lemma ReadHandlerKeepsWriter(cfg: Config, c: Conn, i: nat)
    requires c.session.stopped == !c.net.open && Enabled(c, RunReadHandler(i))
    ensures SameWriter(c, Apply(cfg, c, RunReadHandler(i)))
  {
    hide U32, Put32, Overwrite, Resized, Decode, Stop;
    var op := c.net.readOps[i];
    var d := DropRead(c, i);
    var n := d.(net := Noted(d.net, ReadHandled));
    StopKeepsWriter(n, ReadFailed);
    if op.target == LengthTarget && |op.got| == PACKET_LENGTH {
      StopKeepsWriter(n.(reader := n.reader.(packetLength := U32(op.got, 0))), PacketTooLarge);
    }
  }

  lemma TimerHandlerKeepsWriter(cfg: Config, c: Conn, w: Watch)
    requires c.session.stopped == !c.net.open && Enabled(c, RunTimerHandler(w))
    ensures SameWriter(c, Apply(cfg, c, RunTimerHandler(w)))
  {
    hide Stop;
    StopKeepsWriter(WithTimer(c, w, TimerOf(c, w).Take()), DeadlinePassed(w));
  }

  lemma OthersKeepWriter(cfg: Config, c: Conn, e: Event)
    requires !WriterEvent(e) && c.session.stopped == !c.net.open
    ensures SameWriter(c, Next(cfg, c, e))
  {
    match e {
      case RunReadHandler(i) => if Enabled(c, e) { ReadHandlerKeepsWriter(cfg, c, i); }
      case RunTimerHandler(w) => if Enabled(c, e) { TimerHandlerKeepsWriter(cfg, c, w); }
      case _ =>
    }
  }

  lemma NextFifo(cfg: Config, c: Conn, e: Event)
    requires Core(c) && FifoOk(c)
    ensures FifoOk(Next(cfg, c, e))
  {
    match e {
      case CallWritePacket(_) => CallerFifo(cfg, c, e);
      case EndWrite(_, _) => CallerFifo(cfg, c, e);
      case RunPosted => if Enabled(c, e) { PostedFifo(cfg, c); }
      case Send(i, count) => if Enabled(c, e) { SendFifo(cfg, c, i, count); }
      case RunWriteHandler(i) => if Enabled(c, e) { WriteHandlerFifo(cfg, c, i); }
      case _ =>
        OthersKeepWriter(cfg, c, e);
        hide Next, Core;
    }
  }

  lemma CallerFifo(cfg: Config, c: Conn, e: Event)
    requires Core(c) && FifoOk(c) && (e.CallWritePacket? || e.EndWrite?)
    ensures FifoOk(Next(cfg, c, e))
  {
    if e.CallWritePacket? {
      assert c.session.written + c.writer.queue + c.net.posted + [e.packet] ==
             c.session.written + c.writer.queue + (c.net.posted + [e.packet]);
    }
  }

  lemma {:induction false} RunFifo(cfg: Config, c: Conn, es: seq<Event>)
    requires Core(c) && FifoOk(c)
    ensures Core(Run(cfg, c, es)) && FifoOk(Run(cfg, c, es))
    decreases |es|
  {
    RunCore(cfg, c, es);
    if es != [] {
      NextFifo(cfg, c, es[0]);
      NextCore(cfg, c, es[0]);
      hide Next, Core, FifoOk;
      RunFifo(cfg, Next(cfg, c, es[0]), es[1..]);
    }
  }

  lemma InitFifo(now: nat)
    ensures Core(Init(now)) && FifoOk(Init(now))
  {
  }

  /**
   In every reachable state the bytes on the wire are a prefix of the packets in the order in which they
   were handed to `write_packet`; and those packets are, in that order, the ones written, the ones queued
   and the ones posted.
   */
  lemma WriterFifo(cfg: Config, now: nat, es: seq<Event>)
    ensures var c := Run(cfg, Init(now), es);
            && c.net.wire <= Flat(c.session.offered)
            && c.session.offered == c.session.written + c.writer.queue + c.net.posted
            && (c.net.open ==> c.net.wire == Sent(c))
  {
    InitFifo(now);
    RunFifo(cfg, Init(now), es);
    var c := Run(cfg, Init(now), es);
    PrefixMore(c.net.wire, c.session.written + c.writer.queue, c.net.posted);
  }

  /**
   In every reachable state with the socket open: a write is in flight exactly if the queue is not empty
   and exactly if the write deadline is finite; it is the only one, and its buffer is the front of the queue.
   */
  lemma WriterSingleFlight(cfg: Config, now: nat, es: seq<Event>)
    requires Run(cfg, Init(now), es).net.open
    ensures var c := Run(cfg, Init(now), es);
            && |c.net.writeOps| == (if c.writer.queue == [] then 0 else 1)
            && (c.net.writeOps != [] ==> c.net.writeOps[0].data == c.writer.queue[0])
            && (c.writer.timer.deadline != Never <==> c.net.writeOps != [])
  {
    InitFifo(now);
    RunFifo(cfg, Init(now), es);
  }

  // ----- After a failed write -----

  /** A write has failed and its handler has not run, or the socket is closed with packets left over. */
  ghost predicate Blocked(c: Conn) {
    && c.writer.queue != []
    && (c.net.open ==> c.net.writeOps != [] && c.net.writeOps[0].status == Completed(OtherError))
  }

  lemma NextBlocked(cfg: Config, c: Conn, e: Event)
    requires Core(c) && Blocked(c)
    ensures var d := Next(cfg, c, e);
            && Blocked(d) && d.net.wire == c.net.wire && d.session.written == c.session.written
            && d.writer.queue[0] == c.writer.queue[0]
  {
    if WriterEvent(e) {
      hide U32, Put32, Overwrite, Resized, Decode;
    } else {
      OthersKeepWriter(cfg, c, e);
      hide Next;
    }
  }

  lemma {:induction false} RunBlocked(cfg: Config, c: Conn, fs: seq<Event>)
    requires Core(c) && Blocked(c)
    ensures var d := Run(cfg, c, fs);
            && Blocked(d) && d.net.wire == c.net.wire && d.session.written == c.session.written
            && d.writer.queue[0] == c.writer.queue[0]
    decreases |fs|
  {
    if fs != [] {
      NextBlocked(cfg, c, fs[0]);
      NextCore(cfg, c, fs[0]);
      hide Next, Core, Blocked;
      RunBlocked(cfg, Next(cfg, c, fs[0]), fs[1..]);
    }
  }

  /**
   From the moment a write fails the wire and the list of written packets never change again, whatever is
   added later: the failed packet stays at the front of the queue.
   */
  lemma FailedWriteFreezesWire(cfg: Config, now: nat, es: seq<Event>, fs: seq<Event>)
    requires var c := Run(cfg, Init(now), es);
             c.net.writeOps != [] && c.net.writeOps[0].status == Completed(OtherError)
    ensures var c, d := Run(cfg, Init(now), es), Run(cfg, Init(now), es + fs);
            && d.net.wire == c.net.wire && d.session.written == c.session.written
            && d.writer.queue != [] && c.writer.queue != [] && d.writer.queue[0] == c.writer.queue[0]
  {
    InitCore(now);
    RunCore(cfg, Init(now), es);
    RunAppend(cfg, Init(now), es, fs);
    RunBlocked(cfg, Run(cfg, Init(now), es), fs);
  }

  // ----- Progress -----

  ghost function Cost(ps: seq<Bytes>): nat {
    if ps == [] then 0 else |ps[0]| + 3 + Cost(ps[1..])
  }

  lemma {:induction false} CostAppend(ps: seq<Bytes>, p: Bytes)
    ensures Cost(ps + [p]) == Cost(ps) + |p| + 3
  {
    if ps == [] {
      assert [p][1..] == [];
    } else {
      CostAppend(ps[1..], p);
      assert (ps + [p])[1..] == ps[1..] + [p];
    }
  }

  ghost function Done(op: WriteOp): nat {
    op.sent + if op.status == Active then 0 else 1
  }

  /** Bytes and handler runs still needed to empty the posted closures and the queue. */
  ghost function Measure(c: Conn): int {
    Cost(c.net.posted) + |c.net.posted| + Cost(c.writer.queue)
    - if c.net.writeOps == [] then 0 else Done(c.net.writeOps[0])
  }

  ghost predicate NoFailure(c: Conn) {
    c.net.writeOps != [] ==> c.net.writeOps[0].status != Completed(OtherError)
  }

  /** Nothing new is posted and no write fails. */
  predicate Good(e: Event) {
    !e.CallWritePacket? && (e.EndWrite? ==> e.ec == NoError)
  }

  function WriterWork(c: Conn, e: Event): nat {
    if WriterEvent(e) && Enabled(c, e) then 1 else 0
  }

  lemma NextMeasure(cfg: Config, c: Conn, e: Event)
    requires Core(c) && NoFailure(c) && Good(e) && Next(cfg, c, e).net.open
    ensures c.net.open && NoFailure(Next(cfg, c, e))
    ensures Measure(Next(cfg, c, e)) <= Measure(c) - WriterWork(c, e)
    ensures Next(cfg, c, e).session.offered == c.session.offered
  {
    if WriterEvent(e) && Enabled(c, e) {
      match e {
        case RunPosted => CostAppend(c.writer.queue, c.net.posted[0]);
        case Send(_, _) =>
        case EndWrite(_, _) =>
        case RunWriteHandler(i) => assert DropWrite(c, i).net.writeOps == [];
      }
    } else if !WriterEvent(e) {
      OthersKeepWriter(cfg, c, e);
      hide Next;
    }
  }

  /** How many writer events take effect in a run. */
  function WriterSteps(cfg: Config, c: Conn, es: seq<Event>): nat
    decreases |es|
  {
    if es == [] then 0 else WriterWork(c, es[0]) + WriterSteps(cfg, Next(cfg, c, es[0]), es[1..])
  }

  lemma {:induction false} RunMeasure(cfg: Config, c: Conn, fs: seq<Event>)
    requires Core(c) && NoFailure(c) && Run(cfg, c, fs).net.open
    requires forall i | 0 <= i < |fs| :: Good(fs[i])
    ensures NoFailure(Run(cfg, c, fs)) && Run(cfg, c, fs).session.offered == c.session.offered
    ensures Measure(Run(cfg, c, fs)) + WriterSteps(cfg, c, fs) <= Measure(c)
    decreases |fs|
  {
    if fs != [] {
      var d := Next(cfg, c, fs[0]);
      NextCore(cfg, c, fs[0]);
      if !d.net.open {
        RunFrozen(cfg, d, fs[1..]);
        assert false;
      }
      NextMeasure(cfg, c, fs[0]);
      hide Next, Core, NoFailure, Measure, Good;
      assert forall i | 0 <= i < |fs[1..]| :: fs[1..][i] == fs[i + 1];
      RunMeasure(cfg, d, fs[1..]);
    }
  }

  lemma MeasureNatural(c: Conn)
    requires Core(c)
    ensures 0 <= Measure(c)
  {
  }

  /** With the socket open, the writer can take a step as long as anything is queued or posted. */
  lemma WriterCanStep(c: Conn) returns (e: Event)
    requires Core(c) && c.net.open && !c.session.crashed
    requires c.net.posted != [] || c.writer.queue != []
    ensures WriterEvent(e) && Good(e) && Enabled(c, e)
  {
    if c.net.posted != [] {
      return RunPosted;
    }
    var op := c.net.writeOps[0];
    if op.status != Active {
      return RunWriteHandler(0);
    } else if op.sent == |op.data| {
      return EndWrite(0, NoError);
    } else {
      return Send(0, |op.data| - op.sent);
    }
  }

  lemma IdleMeansEmpty(c: Conn)
    requires Core(c) && FifoOk(c) && c.net.open && !c.session.crashed
    requires forall e :: WriterEvent(e) && Good(e) ==> !Enabled(c, e)
    ensures c.net.posted == [] && c.writer.queue == []
    ensures c.net.wire == Flat(c.session.offered) && c.writer.timer.deadline == Never
  {
    if c.net.posted != [] || c.writer.queue != [] {
      var e := WriterCanStep(c);
      assert false;
    }
    assert c.session.written + [] + [] == c.session.written;
  }

  /**
   If nothing more is posted, no write fails and the socket stays open, then the writer takes at most as
   many steps as the bytes and packets it had left call for; and where it can take no further step, the
   queue is empty, every packet is on the wire and the write deadline is at maximum.
   */
  lemma WriterProgress(cfg: Config, now: nat, es: seq<Event>, fs: seq<Event>)
    requires NoFailure(Run(cfg, Init(now), es)) && Run(cfg, Init(now), es + fs).net.open
    requires forall i | 0 <= i < |fs| :: Good(fs[i])
    ensures var c, d := Run(cfg, Init(now), es), Run(cfg, Init(now), es + fs);
            && WriterSteps(cfg, c, fs) <= Measure(c)
            && d.session.offered == c.session.offered
            && (!d.session.crashed && (forall e :: WriterEvent(e) && Good(e) ==> !Enabled(d, e)) ==>
                  && d.net.posted == [] && d.writer.queue == []
                  && d.net.wire == Flat(d.session.offered)
                  && d.writer.timer.deadline == Never)
  {
    hide Enabled, Measure, FifoOk, Core, Good, WriterEvent;
    var c, d := Run(cfg, Init(now), es), Run(cfg, Init(now), es + fs);
    InitFifo(now);
    RunFifo(cfg, Init(now), es);
    RunFifo(cfg, Init(now), es + fs);
    RunAppend(cfg, Init(now), es, fs);
    RunMeasure(cfg, c, fs);
    MeasureNatural(d);
    if !d.session.crashed && forall e :: WriterEvent(e) && Good(e) ==> !Enabled(d, e) {
      IdleMeansEmpty(d);
    }
  }

  // ----- Everything can be written -----

  /** The session runs and no write has failed. */
  ghost predicate Writing(c: Conn) {
    Core(c) && FifoOk(c) && c.net.open && !c.session.crashed && NoFailure(c)
  }

  lemma GoodStepRuns(cfg: Config, c: Conn, e: Event)
    requires Core(c) && c.net.open && !c.session.crashed && NoFailure(c)
    requires WriterEvent(e) && Good(e) && Enabled(c, e)
    ensures Next(cfg, c, e).net.open && !Next(cfg, c, e).session.crashed
  {
    if e.RunWriteHandler? {
      match c.net.writeOps[0].status.ec {
        case NoError =>
        case OperationAborted =>
        case OtherError =>
      }
    }
  }

  lemma GoodStep(cfg: Config, c: Conn, e: Event)
    requires Writing(c) && WriterEvent(e) && Good(e) && Enabled(c, e)
    ensures var d := Next(cfg, c, e);
            Writing(d) && d.session.offered == c.session.offered && Measure(d) < Measure(c)
  {
    GoodStepRuns(cfg, c, e);
    hide FifoOk, Core, NoFailure, Measure, Next;
    NextCore(cfg, c, e);
    NextFifo(cfg, c, e);
    NextMeasure(cfg, c, e);
  }

  lemma {:induction false} Drain(cfg: Config, c: Conn) returns (fs: seq<Event>)
    requires Writing(c)
    ensures var d := Run(cfg, c, fs);
            && Writing(d) && d.session.offered == c.session.offered
            && d.net.posted == [] && d.writer.queue == []
    decreases Measure(c)
  {
    MeasureNatural(c);
    if c.net.posted == [] && c.writer.queue == [] {
      return [];
    }
    var e := WriterCanStep(c);
    hide Core, FifoOk, NoFailure, Measure, Enabled, Next;
    GoodStep(cfg, c, e);
    var rest := Drain(cfg, Next(cfg, c, e));
    fs := [e] + rest;
    assert fs[1..] == rest;
  }

  /**
   From every reachable state in which the session runs and no write has failed there is a continuation of the
   writer alone after which every packet handed to `write_packet` is on the wire, and nothing is left over.
   */
  lemma WriterDrains(cfg: Config, now: nat, es: seq<Event>) returns (fs: seq<Event>)
    requires var c := Run(cfg, Init(now), es); c.net.open && !c.session.crashed && NoFailure(c)
    ensures var c, d := Run(cfg, Init(now), es), Run(cfg, Init(now), es + fs);
            && d.net.wire == Flat(c.session.offered) && d.session.offered == c.session.offered
            && d.net.posted == [] && d.writer.queue == [] && d.net.open
  {
    var c := Run(cfg, Init(now), es);
    InitFifo(now);
    RunFifo(cfg, Init(now), es);
    fs := Drain(cfg, c);
    RunAppend(cfg, Init(now), es, fs);
    var d := Run(cfg, c, fs);
    hide Run;
    assert d.session.written + [] + [] == d.session.written;
  }
}
