/**
 The reader refines the one-shot deframer: whatever portions the stream arrives in, and whatever else
 happens in between, the buffers handed to `on_packet` are those of `Framing.Deframe`.
 */
module ReaderTheorems {
  import opened Wrappers
  import opened ByteOrder
  import opened Packets
  import opened Framing
  import opened Conventions
  import opened Connections
  import opened SessionTheorems

  /** The bytes of the frame in progress, the length prefix put back in front in network order. */
  ghost function Held(c: Conn): Bytes {
    if c.net.readOps == [] then []
    else if c.net.readOps[0].target == LengthTarget then c.net.readOps[0].got
    else Put32(c.reader.packetLength) + c.net.readOps[0].got
  }

  /** The bytes received after the delivered buffers. */
  ghost function Tail(c: Conn): Bytes
    requires Flat(c.session.delivered) <= c.net.received
  {
    c.net.received[|Flat(c.session.delivered)|..]
  }

  ghost predicate ReaderOk(cfg: Config, c: Conn) {
    && DeliveredOk(cfg, c)
    && (c.net.open && !c.session.crashed ==> c.net.received == Flat(c.session.delivered) + Held(c))
    && BodyOk(c)
  }

  ghost predicate DeliveredOk(cfg: Config, c: Conn) {
    && Handed(cfg.order, Deframed(c.session.delivered, if c.session.crashed then Rejected else Starved))
    && Flat(c.session.delivered) <= c.net.received
    && AtMostOne(Tail(c))
    && (c.session.crashed ==> Tail(c) == [])
    && (c.session.cause == Some(PacketTooLarge) ==> |Tail(c)| == PACKET_LENGTH && U32(Tail(c), 0) > MAX_PACKET_SIZE)
  }

  /** While a body is being read, the packet buffer starts with its length. */
  ghost predicate BodyOk(c: Conn) {
    c.net.readOps != [] && c.net.readOps[0].target == BodyTarget ==>
      && |c.reader.packetBuffer| == PACKET_LENGTH + c.reader.packetLength
      && c.reader.packetBuffer[..PACKET_LENGTH] == Put32(c.reader.packetLength)
      && c.reader.packetLength <= MAX_PACKET_SIZE
  }

  /** What is held is at most one frame. */
  lemma HeldAtMostOne(c: Conn)
    requires ReadShape(c) && BodyOk(c)
    ensures AtMostOne(Held(c))
  {
    if c.net.readOps != [] && c.net.readOps[0].target == BodyTarget {
      PutGet32(c.reader.packetLength);
      assert U32(Held(c), 0) == U32(Put32(c.reader.packetLength), 0);
    }
  }

  /** Receiving a portion of the frame in progress. */
  lemma ReceiveOk(cfg: Config, c: Conn, i: nat, chunk: Bytes)
    requires Core(c) && ReaderOk(cfg, c) && Enabled(c, Receive(i, chunk))
    ensures ReaderOk(cfg, Apply(cfg, c, Receive(i, chunk)))
  {
    hide Decode, U32, Put32, Handed;
    var d := Apply(cfg, c, Receive(i, chunk));
    assert Held(d) == Held(c) + chunk;
    assert d.net.received == Flat(d.session.delivered) + Held(d);
    assert Tail(d) == Held(d);
    NextShapes(cfg, c, Receive(i, chunk));
    HeldAtMostOne(d);
  }

  /** A complete length prefix either starts the body or stops the session. */
  lemma LengthHandlerOk(cfg: Config, c: Conn, i: nat)
    requires Core(c) && ReaderOk(cfg, c) && Enabled(c, RunReadHandler(i))
    requires c.net.readOps[i].target == LengthTarget
    ensures ReaderOk(cfg, Apply(cfg, c, RunReadHandler(i)))
  {
    hide Decode, U32, Put32, Handed;
    var d := Apply(cfg, c, RunReadHandler(i));
    var op := c.net.readOps[i];
    assert DropRead(c, i).net.readOps == [];
    if c.net.open && op.status.ec == NoError {
      assert Tail(c) == op.got;
      GetPut32(op.got, 0);
      assert op.got[0..4] == op.got;
      assert d.session.delivered == c.session.delivered && d.net.received == c.net.received;
      if U32(op.got, 0) <= MAX_PACKET_SIZE {
        assert Held(d) == op.got + [];
        assert d.reader.packetBuffer[..PACKET_LENGTH] == Put32(U32(op.got, 0));
      }
    }
  }

  /** The packet buffer behind a complete body is the frame held. */
  lemma PacketIsHeld(c: Conn)
    requires ReadShape(c) && BodyOk(c) && c.net.readOps != [] && c.net.readOps[0].target == BodyTarget
    requires |c.net.readOps[0].got| == c.net.readOps[0].want
    ensures var p := Overwrite(c.reader.packetBuffer, PACKET_LENGTH, c.net.readOps[0].got);
            p == Held(c) && IsFrame(p)
  {
    var p := Overwrite(c.reader.packetBuffer, PACKET_LENGTH, c.net.readOps[0].got);
    PutGet32(c.reader.packetLength);
    assert p == Held(c);
    assert U32(p, 0) == U32(Put32(c.reader.packetLength), 0);
  }

  /** Handing over one more frame, which decodes or ends the run. */
  lemma HandedPush(order: Order, fs: seq<Bytes>, f: Bytes)
    requires GoodFrames(order, fs) && IsFrame(f)
    ensures Handed(order, Deframed(fs + [f], if Decode(order, f).Failure? then Rejected else Starved))
  {
    hide Decode, IsFrame;
    assert (fs + [f])[..|fs|] == fs;
  }

  lemma BodyEffect(cfg: Config, c: Conn, i: nat)
    requires Core(c) && Enabled(c, RunReadHandler(i)) && c.net.readOps[i].target == BodyTarget
    requires c.net.open && c.net.readOps[i].status.ec == NoError
    ensures |c.reader.packetBuffer| == PACKET_LENGTH + |c.net.readOps[i].got|
    ensures var d := Apply(cfg, c, RunReadHandler(i));
            var p := Overwrite(c.reader.packetBuffer, PACKET_LENGTH, c.net.readOps[i].got);
            && d.session.delivered == c.session.delivered + [p]
            && d.session.crashed == Decode(cfg.order, p).Failure?
            && d.reader.packetBuffer == []
            && d.session.cause == c.session.cause
            && d.net.received == c.net.received
            && d.net.readOps == if d.session.crashed then [] else [ReadOp(LengthTarget, PACKET_LENGTH, [], Active)]
  {
    hide Decode, Overwrite;
    assert DropRead(c, i).net.readOps == [];
  }

  lemma FailedReadEffect(cfg: Config, c: Conn, i: nat)
    requires Core(c) && Enabled(c, RunReadHandler(i))
    requires !c.net.open || c.net.readOps[i].status.ec != NoError
    ensures var d := Apply(cfg, c, RunReadHandler(i));
            && d.session.delivered == c.session.delivered && d.net.received == c.net.received
            && d.session.crashed == c.session.crashed && !d.net.open && d.net.readOps == []
            && (d.session.cause == c.session.cause || d.session.cause == Some(ReadFailed))
  {
    assert DropRead(c, i).net.readOps == [];
  }

  /** A complete body is handed over as one frame; nothing is left over. */
  lemma BodyHandlerOk(cfg: Config, c: Conn, i: nat)
    requires Core(c) && ReaderOk(cfg, c) && Enabled(c, RunReadHandler(i))
    requires c.net.readOps[i].target == BodyTarget
    ensures ReaderOk(cfg, Apply(cfg, c, RunReadHandler(i)))
  {
    hide Decode, U32, Put32, Handed, GoodFrames, IsFrame, Overwrite, Apply;
    var d := Apply(cfg, c, RunReadHandler(i));
    if c.net.open && c.net.readOps[i].status.ec == NoError {
      DeliveredGood(cfg, c);
      PacketIsHeld(c);
      FlatPush(c.session.delivered, Held(c));
      HandedPush(cfg.order, c.session.delivered, Held(c));
      BodyEffect(cfg, c, i);
      assert d.net.received == Flat(d.session.delivered);
      assert Tail(d) == [] && Held(d) == [];
      assert Flat(d.session.delivered) + [] == Flat(d.session.delivered);
    } else {
      FailedReadEffect(cfg, c, i);
    }
  }

  lemma DeliveredGood(cfg: Config, c: Conn)
    requires DeliveredOk(cfg, c) && !c.session.crashed
    ensures GoodFrames(cfg.order, c.session.delivered)
  {
  }

  /** Events outside the reader leave it alone, except by closing the socket. */
  ghost predicate SameReader(c: Conn, d: Conn) {
    && d.session.delivered == c.session.delivered && d.net.received == c.net.received
    && d.session.crashed == c.session.crashed
    && d.reader.packetLength == c.reader.packetLength && d.reader.packetBuffer == c.reader.packetBuffer
    && (d.session.cause == Some(PacketTooLarge) ==> c.session.cause == Some(PacketTooLarge))
    && (d.net.readOps != [] ==> && c.net.readOps != [] && d.net.readOps[0].target == c.net.readOps[0].target
                                && d.net.readOps[0].got == c.net.readOps[0].got)
    && (d.net.open ==> c.net.open && (d.net.readOps == [] <==> c.net.readOps == []))
  }

  predicate ReaderEvent(e: Event) {
    e.CallStart? || e.Receive? || e.RunReadHandler?
  }

  lemma StopSameReader(c: Conn, cause: Cause)
    requires cause != PacketTooLarge && c.session.stopped == !c.net.open
    ensures SameReader(c, Stop(c, cause))
  {
  }

  lemma WriteHandlerKeepsReader(cfg: Config, c: Conn, i: nat)
    requires c.session.stopped == !c.net.open && Enabled(c, RunWriteHandler(i))
    ensures SameReader(c, Apply(cfg, c, RunWriteHandler(i)))
  {
    hide Stop;
    var d := DropWrite(c, i);
    StopSameReader(d.(net := Noted(d.net, WriteHandled)), WriteFailed);
  }

  lemma TimerHandlerKeepsReader(cfg: Config, c: Conn, w: Watch)
    requires c.session.stopped == !c.net.open && Enabled(c, RunTimerHandler(w))
    ensures SameReader(c, Apply(cfg, c, RunTimerHandler(w)))
  {
    hide Stop, WithTimer;
    var d := WithTimer(c, w, TimerOf(c, w).Take());
    TimerFrame(c, w, TimerOf(c, w).Take());
    TimerFrame(d, w, TimerOf(d, w).AsyncWait());
    StopSameReader(d, DeadlinePassed(w));
  }

  lemma OthersKeepReader(cfg: Config, c: Conn, e: Event)
    requires !ReaderEvent(e) && c.session.stopped == !c.net.open
    ensures SameReader(c, Next(cfg, c, e))
  {
    match e {
      case RunWriteHandler(i) => if Enabled(c, e) { WriteHandlerKeepsReader(cfg, c, i); }
      case RunTimerHandler(w) => if Enabled(c, e) { TimerHandlerKeepsReader(cfg, c, w); }
      case _ =>
    }
  }

  lemma SameReaderOk(cfg: Config, c: Conn, d: Conn)
    requires ReaderOk(cfg, c) && SameReader(c, d)
    ensures ReaderOk(cfg, d)
  {
    hide Handed, Put32, U32;
  }

  lemma StartOk(cfg: Config, c: Conn)
    requires Core(c) && ReaderOk(cfg, c)
    ensures ReaderOk(cfg, Next(cfg, c, CallStart))
  {
    hide Decode, U32, Put32, Handed;
  }

  lemma NextReaderOk(cfg: Config, c: Conn, e: Event)
    requires Core(c) && ReaderOk(cfg, c)
    ensures ReaderOk(cfg, Next(cfg, c, e))
  {
    hide ReaderOk, Apply;
    match e {
      case CallStart => StartOk(cfg, c);
      case Receive(i, chunk) => if Enabled(c, e) { ReceiveOk(cfg, c, i, chunk); }
      case RunReadHandler(i) =>
        if Enabled(c, e) {
          if c.net.readOps[i].target == LengthTarget {
            LengthHandlerOk(cfg, c, i);
          } else {
            BodyHandlerOk(cfg, c, i);
          }
        }
      case _ =>
        OthersKeepReader(cfg, c, e);
        SameReaderOk(cfg, c, Next(cfg, c, e));
    }
  }

  lemma InitReaderOk(cfg: Config, now: nat)
    ensures Core(Init(now)) && ReaderOk(cfg, Init(now))
  {
    assert Tail(Init(now)) == [];
  }

  lemma {:induction false} RunReaderOk(cfg: Config, c: Conn, es: seq<Event>)
    requires Core(c) && ReaderOk(cfg, c)
    ensures Core(Run(cfg, c, es)) && ReaderOk(cfg, Run(cfg, c, es))
    decreases |es|
  {
    RunCore(cfg, c, es);
    if es != [] {
      NextReaderOk(cfg, c, es[0]);
      NextCore(cfg, c, es[0]);
      hide Next, Core, ReaderOk;
      RunReaderOk(cfg, Next(cfg, c, es[0]), es[1..]);
    }
  }

  // ----- Refinement of the deframer -----

  /** No complete read is waiting for its handler, and none has failed. */
  ghost predicate Settled(c: Conn) {
    && c.net.open && !c.session.crashed
    && (c.net.readOps != [] ==> |c.net.readOps[0].got| < c.net.readOps[0].want)
  }

  lemma TailDeframes(order: Order, s: Bytes)
    requires AtMostOne(s)
    ensures |Deframe(order, s).frames| <= 1
    ensures |s| == PACKET_LENGTH && U32(s, 0) > MAX_PACKET_SIZE ==> Deframe(order, s) == Deframed([], Oversized)
    ensures |s| < PACKET_LENGTH || |s| < PACKET_LENGTH + U32(s, 0) <= PACKET_LENGTH + MAX_PACKET_SIZE ==>
              Deframe(order, s) == Deframed([], Starved)
  {
    hide Decode;
    if Deframe(order, s).frames != [] {
      DeframePeel(order, s);
      var f := Deframe(order, s).frames[0];
      assert s[|f|..] == [];
    }
  }

  lemma DeframeRejected(order: Order, good: seq<Bytes>, last: Bytes)
    requires GoodFrames(order, good) && IsFrame(last) && Decode(order, last).Failure?
    ensures Deframe(order, Flat(good + [last])) == Deframed(good + [last], Rejected)
  {
    hide Decode, Deframe, IsFrame, GoodFrames;
    FlatPush(good, last);
    DeframeFlat(order, good, last);
    DeframeStep(order, last, []);
    assert last + [] == last;
  }

  lemma DeframeHanded(order: Order, fs: seq<Bytes>)
    requires Handed(order, Deframed(fs, Rejected))
    ensures Deframe(order, Flat(fs)) == Deframed(fs, Rejected)
  {
    var n := |fs| - 1;
    hide Decode, Deframe, IsFrame, Flat, GoodFrames;
    DeframeRejected(order, fs[..n], fs[n]);
    assert fs[..n] + [fs[n]] == fs;
  }

  lemma CutPrefix(s: Bytes, p: Bytes)
    requires p <= s
    ensures s == p + s[|p|..]
    ensures s[|p|..] == [] ==> s == p
  {
  }

  /** Deframing the stream so far, in terms of the state. */
  lemma DeframeReceived(cfg: Config, c: Conn)
    requires DeliveredOk(cfg, c)
    ensures !c.session.crashed ==>
              var t := Deframe(cfg.order, Tail(c));
              Deframe(cfg.order, c.net.received) == Deframed(c.session.delivered + t.frames, t.end)
    ensures c.session.crashed ==> Deframe(cfg.order, c.net.received) == Deframed(c.session.delivered, Rejected)
  {
    hide Decode, Deframe, IsFrame, Flat, GoodFrames, AtMostOne, U32;
    CutPrefix(c.net.received, Flat(c.session.delivered));
    if c.session.crashed {
      DeframeHanded(cfg.order, c.session.delivered);
    } else {
      DeframeFlat(cfg.order, c.session.delivered, Tail(c));
    }
  }

  lemma SettledTail(cfg: Config, c: Conn)
    requires Core(c) && ReaderOk(cfg, c) && Settled(c)
    ensures Deframe(cfg.order, Tail(c)) == Deframed([], Starved)
  {
    hide Handed, Decode, Deframe;
    assert Tail(c) == Held(c);
    TailDeframes(cfg.order, Tail(c));
    if c.net.readOps != [] && c.net.readOps[0].target == BodyTarget {
      PutGet32(c.reader.packetLength);
      assert U32(Held(c), 0) == U32(Put32(c.reader.packetLength), 0);
    }
  }

  /**
   Refinement.  In every reachable state, whatever portions the stream arrived in:
   the buffers handed to `on_packet` are the frames of the one-shot deframer on the bytes received, short of
   at most the last one; short of none, with bytes missing for the next, once no complete read awaits its
   handler; all of them, ending in the rejected one, if the `Packet` constructor has thrown; and all of them
   before an oversized length if that is why the session stopped.
   */
  lemma ReaderRefinesDeframer(cfg: Config, now: nat, es: seq<Event>)
    ensures var c := Run(cfg, Init(now), es);
            var d := Deframe(cfg.order, c.net.received);
            && c.session.delivered <= d.frames && |d.frames| <= |c.session.delivered| + 1
            && (Settled(c) ==> c.session.delivered == d.frames && d.end == Starved)
            && (c.session.crashed ==> c.session.delivered == d.frames && d.end == Rejected)
            && (c.session.cause == Some(PacketTooLarge) ==> c.session.delivered == d.frames && d.end == Oversized)
  {
    InitReaderOk(cfg, now);
    RunReaderOk(cfg, Init(now), es);
    var c := Run(cfg, Init(now), es);
    DeframeReceived(cfg, c);
    TailDeframes(cfg.order, Tail(c));
    if Settled(c) {
      SettledTail(cfg, c);
    }
    hide Deframe, Run;
  }

  /**
   Conservation: while the session runs, the bytes received are those of the delivered buffers followed by
   those of the frame in progress, length prefix included.
   */
  lemma ReaderConservation(cfg: Config, now: nat, es: seq<Event>)
    ensures var c := Run(cfg, Init(now), es);
            && Flat(c.session.delivered) <= c.net.received
            && (c.net.open && !c.session.crashed ==> c.net.received == Flat(c.session.delivered) + Held(c))
  {
    InitReaderOk(cfg, now);
    RunReaderOk(cfg, Init(now), es);
  }

  /** The reader has done all it can with what it has received, or has ended at a frame it refuses. */
  ghost predicate Through(c: Conn) {
    Settled(c) || c.session.crashed || c.session.cause == Some(PacketTooLarge)
  }

  lemma ReceivedWithinExtent(cfg: Config, c: Conn, s: Bytes)
    requires DeliveredOk(cfg, c) && c.net.received <= s
    ensures |c.net.received| <= Extent(Deframe(cfg.order, s), |s|)
  {
    hide Decode, Deframe, IsFrame, Flat, GoodFrames, AtMostOne, U32;
    CutPrefix(c.net.received, Flat(c.session.delivered));
    if c.session.crashed {
      DeframeHanded(cfg.order, c.session.delivered);
      DeframePrefix(cfg.order, c.net.received, s);
    } else {
      WithinExtent(cfg.order, c.session.delivered, Tail(c), s);
    }
  }

  /**
   On a given stream, of which any part may have arrived, no run delivers anything but the deframer's frames in
   order, crashes or refuses a length where the deframer does not, or receives more than the deframer needs to see;
   and where it is through with as much as that, it has delivered all frames and ended as the deframer does.
   */
  lemma ReadsNoFurther(cfg: Config, now: nat, es: seq<Event>, s: Bytes)
    requires Run(cfg, Init(now), es).net.received <= s
    ensures var c, d := Run(cfg, Init(now), es), Deframe(cfg.order, s);
            && c.session.delivered <= d.frames && |c.net.received| <= Extent(d, |s|)
            && (c.session.crashed ==> c.session.delivered == d.frames && d.end == Rejected)
            && (c.session.cause == Some(PacketTooLarge) ==> c.session.delivered == d.frames && d.end == Oversized)
            && (Through(c) && |c.net.received| == Extent(d, |s|) ==>
                  && c.session.delivered == d.frames
                  && (d.end == Starved <==> Settled(c))
                  && (d.end == Rejected <==> c.session.crashed)
                  && (d.end == Oversized <==> c.session.cause == Some(PacketTooLarge)))
  {
    var c := Run(cfg, Init(now), es);
    InitReaderOk(cfg, now);
    RunReaderOk(cfg, Init(now), es);
    ReaderRefinesDeframer(cfg, now, es);
    hide Run, Deframe, Settled, DeliveredOk;
    ReceivedWithinExtent(cfg, c, s);
    DeframePrefix(cfg.order, c.net.received, s);
    DeframeExtent(cfg.order, s);
    CutHere(c.net.received, s);
    hide Extent, Core;
  }

  lemma CutHere(p: Bytes, s: Bytes)
    requires p <= s
    ensures p == s[..|p|]
  {
  }

  /**
   Two ways of receiving the same bytes never deliver buffers that differ, and at no time is one ahead by more
   than a buffer; where both are through, they have delivered the same buffers and ended in the same way.
   */
  lemma ChunkingDoesNotMatter(cfg: Config, now: nat, es: seq<Event>, later: nat, fs: seq<Event>)
    requires Run(cfg, Init(now), es).net.received == Run(cfg, Init(later), fs).net.received
    ensures var c, d := Run(cfg, Init(now), es), Run(cfg, Init(later), fs);
            && (c.session.delivered <= d.session.delivered || d.session.delivered <= c.session.delivered)
            && -1 <= |c.session.delivered| - |d.session.delivered| <= 1
            && (Through(c) && Through(d) ==>
                  && c.session.delivered == d.session.delivered
                  && c.session.crashed == d.session.crashed
                  && (c.session.cause == Some(PacketTooLarge) <==> d.session.cause == Some(PacketTooLarge))
                  && (Settled(c) <==> Settled(d)))
  {
    ReaderRefinesDeframer(cfg, now, es);
    ReaderRefinesDeframer(cfg, later, fs);
    hide Run, Deframe, Settled;
  }

  /**
   End to end: when the bytes received are the concatenation of packets that the constructor accepts, that
   carry total minus four in bytes 0..3 and that pass Reader's limit, exactly these packets are handed over,
   in order; at most the last one is still waiting for its handler.
   */
  lemma EndToEnd(cfg: Config, now: nat, es: seq<Event>, ps: seq<Bytes>)
    requires GoodFrames(cfg.order, ps)
    requires Run(cfg, Init(now), es).net.received == Flat(ps)
    ensures var c := Run(cfg, Init(now), es);
            && c.session.delivered <= ps && |ps| <= |c.session.delivered| + 1
            && (Settled(c) ==> c.session.delivered == ps)
            && !c.session.crashed && c.session.cause != Some(PacketTooLarge)
  {
    ReaderRefinesDeframer(cfg, now, es);
    PacketsComeOut(cfg.order, ps);
  }

  /**
   With the length `Packet::create` writes, a packet received in full is never handed over: the reader is
   left waiting for exactly four bytes more.
   */
  lemma CreatedPacketIsHeld(cfg: Config, now: nat, es: seq<Event>, m: Message)
    requires m.Creatable() && |Created(m)| <= MAX_PACKET_SIZE
    requires var c := Run(cfg, Init(now), es);
             c.net.received == Created(m) && Settled(c) && c.session.started
    ensures var c := Run(cfg, Init(now), es);
            && c.session.delivered == []
            && |c.net.readOps| == 1 && c.net.readOps[0].target == BodyTarget
            && c.net.readOps[0].want == |c.net.readOps[0].got| + 4
  {
    CreatedFields(m);
    CreatedPacketStarves(cfg.order, m, []);
    hide Run, Created, Deframe, Handed;
    var c := Run(cfg, Init(now), es);
    InitReaderOk(cfg, now);
    RunReaderOk(cfg, Init(now), es);
    ReaderRefinesDeframer(cfg, now, es);
    assert Created(m) + [] == Created(m);
    HeldWhole(c, Created(m));
  }

  lemma HeldWhole(c: Conn, w: Bytes)
    requires ReadShape(c) && BodyOk(c) && c.session.started && Settled(c)
    requires Held(c) == w && 14 <= |w| && U32(w, 0) == |w|
    ensures |c.net.readOps| == 1 && c.net.readOps[0].target == BodyTarget
    ensures c.net.readOps[0].want == |c.net.readOps[0].got| + 4
  {
    if c.net.readOps[0].target == BodyTarget {
      PutGet32(c.reader.packetLength);
      assert U32(w, 0) == U32(Put32(c.reader.packetLength), 0);
    }
  }
}
