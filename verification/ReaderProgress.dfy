/**
 Progress of the reader, like that of the writer: how many steps what it has received calls for, that it is
 through with it where it can take none, and that every stream can be received.  With that, what becomes of a
 stream of packets as `Packet::create` writes them.
 */
module ReaderProgress {
  import opened Wrappers
  import opened ByteOrder
  import opened SubHeaders
  import opened Packets
  import opened Framing
  import opened Conventions
  import opened Connections
  import opened SessionTheorems
  import opened ReaderTheorems

  // ----- Where the reader can take no step -----

  ghost predicate NoReadFailure(c: Conn) {
    c.net.readOps != [] ==> c.net.readOps[0].status != Completed(OtherError)
  }

  /** The reader runs, no read has failed, and it can take no step of its own. */
  ghost predicate Idle(c: Conn) {
    && c.net.open && !c.session.crashed && NoReadFailure(c)
    && !Enabled(c, EndRead(0, NoError)) && !Enabled(c, RunReadHandler(0))
  }

  /** It has then done all it can. */
  lemma IdleMeansSettled(c: Conn)
    requires Core(c) && Idle(c)
    ensures Settled(c)
  {
  }

  lemma StatusCases(s: Status)
    ensures s == Active || s == Completed(NoError) || s == Completed(OperationAborted) || s == Completed(OtherError)
  {
    if s.Completed? {
      match s.ec {
        case NoError =>
        case OperationAborted =>
        case OtherError =>
      }
    }
  }

  /** And then it is ready for the next byte. */
  lemma SettledIsReady(c: Conn, b: byte)
    requires Core(c) && NoReadFailure(c) && Settled(c) && c.session.started
    ensures Enabled(c, Receive(0, [b]))
  {
    StatusCases(c.net.readOps[0].status);
  }

  // ----- How many steps it takes -----

  /** A read ends, or its handler runs. */
  function ReaderWork(c: Conn, e: Event): nat {
    if (e.EndRead? || e.RunReadHandler?) && Enabled(c, e) then 1 else 0
  }

  function ReaderSteps(cfg: Config, c: Conn, es: seq<Event>): nat
    decreases |es|
  {
    if es == [] then 0 else ReaderWork(c, es[0]) + ReaderSteps(cfg, Next(cfg, c, es[0]), es[1..])
  }

  /** Steps made in advance of the bytes that pay for them: each length costs four bytes and pays four steps. */
  ghost function Credit(c: Conn): int {
    if !c.session.started then 0
    else if c.net.readOps == [] then 2
    else
      var op := c.net.readOps[0];
      (if op.target == LengthTarget then -|op.got| else -2) + (if op.status == Active then 0 else 1)
  }

  /** What a step may do to the reader's account. */
  ghost predicate Pays(c: Conn, d: Conn, work: nat) {
    work + |c.net.received| + Credit(c) <= |d.net.received| + Credit(d)
  }

  lemma StopPays(c: Conn, cause: Cause)
    requires |c.net.readOps| <= 1
    ensures Pays(c, Stop(c, cause), 0)
  {
  }

  lemma ReadHandlerPays(cfg: Config, c: Conn, i: nat)
    requires Core(c) && Enabled(c, RunReadHandler(i))
    ensures Pays(c, Apply(cfg, c, RunReadHandler(i)), 1)
  {
    hide U32, Put32, Overwrite, Resized, Decode, WriteShape;
    assert DropRead(c, i).net.readOps == [];
  }

  lemma WriteHandlerPays(cfg: Config, c: Conn, i: nat)
    requires Core(c) && Enabled(c, RunWriteHandler(i))
    ensures Pays(c, Apply(cfg, c, RunWriteHandler(i)), 0)
  {
    hide Stop;
    StopPays(DropWrite(c, i).(net := Noted(DropWrite(c, i).net, WriteHandled)), WriteFailed);
  }

  lemma TimerHandlerPays(cfg: Config, c: Conn, w: Watch)
    requires Core(c) && Enabled(c, RunTimerHandler(w))
    ensures Pays(c, Apply(cfg, c, RunTimerHandler(w)), 0)
  {
    hide Stop;
    StopPays(WithTimer(c, w, TimerOf(c, w).Take()), DeadlinePassed(w));
  }

  lemma NextPays(cfg: Config, c: Conn, e: Event)
    requires Core(c)
    ensures Pays(c, Next(cfg, c, e), ReaderWork(c, e))
  {
    match e {
      case RunReadHandler(i) => if Enabled(c, e) { ReadHandlerPays(cfg, c, i); }
      case RunWriteHandler(i) => if Enabled(c, e) { WriteHandlerPays(cfg, c, i); }
      case RunTimerHandler(w) => if Enabled(c, e) { TimerHandlerPays(cfg, c, w); }
      case _ => hide WriteShape;
    }
  }

  lemma {:induction false} RunPays(cfg: Config, c: Conn, es: seq<Event>)
    requires Core(c)
    ensures Core(Run(cfg, c, es)) && Pays(c, Run(cfg, c, es), ReaderSteps(cfg, c, es))
    decreases |es|
  {
    RunCore(cfg, c, es);
    if es != [] {
      NextPays(cfg, c, es[0]);
      NextCore(cfg, c, es[0]);
      hide Core, Next, Credit, ReaderWork;
      RunPays(cfg, Next(cfg, c, es[0]), es[1..]);
    }
  }

  lemma CreditBounds(c: Conn)
    requires Core(c)
    ensures -4 <= Credit(c) <= 2
  {
  }

  /**
   Whatever happens in between, the reader takes at most as many steps as bytes arrive, and six more; and where
   no read has failed and it can take no further step, it is through with what it has received.
   */
  lemma ReaderBounded(cfg: Config, now: nat, es: seq<Event>, fs: seq<Event>)
    ensures var c, d := Run(cfg, Init(now), es), Run(cfg, Init(now), es + fs);
            && ReaderSteps(cfg, c, fs) <= |d.net.received| - |c.net.received| + 6
            && (Idle(d) ==> Settled(d))
  {
    var c, d := Run(cfg, Init(now), es), Run(cfg, Init(now), es + fs);
    InitCore(now);
    RunCore(cfg, Init(now), es);
    RunAppend(cfg, Init(now), es, fs);
    RunPays(cfg, c, fs);
    CreditBounds(c);
    CreditBounds(d);
    hide Run, Idle, Core;
    if Idle(d) {
      IdleMeansSettled(d);
    }
  }

  // ----- Every stream can be received -----

  lemma LengthEffect(cfg: Config, c: Conn, i: nat)
    requires Core(c) && Enabled(c, RunReadHandler(i)) && c.net.readOps[i].target == LengthTarget
    requires c.net.open && c.net.readOps[i].status.ec == NoError
    ensures |c.net.readOps[i].got| == PACKET_LENGTH
    ensures var d := Apply(cfg, c, RunReadHandler(i));
            var size := U32(c.net.readOps[i].got, 0);
            && d.net.received == c.net.received && d.session.crashed == c.session.crashed
            && d.session.started == c.session.started
            && (size > MAX_PACKET_SIZE ==> d.session.cause == Some(PacketTooLarge))
            && (size <= MAX_PACKET_SIZE ==> d.net.open && d.net.readOps == [ReadOp(BodyTarget, size, [], Active)])
  {
    hide U32, Put32, Overwrite, Resized, WriteShape;
    assert DropRead(c, i).net.readOps == [];
  }

  /** Refused a packet, by exception or as too large. */
  ghost predicate Refused(c: Conn) {
    c.session.crashed || (c.session.cause == Some(PacketTooLarge) && c.session.stopped && !c.net.open)
  }

  lemma RefusedForGood(cfg: Config, c: Conn, e: Event)
    requires Refused(c)
    ensures var d := Next(cfg, c, e);
            Refused(d) && d.net.received == c.net.received
  {
  }

  ghost predicate Healthy(cfg: Config, c: Conn) {
    && Core(c) && ReaderOk(cfg, c)
    && c.session.started && c.net.open && !c.session.crashed && NoReadFailure(c)
  }

  /** The read in progress ends if it is complete, and its handler runs. */
  function Turn(cfg: Config, c: Conn): Conn {
    Next(cfg, Next(cfg, c, EndRead(0, NoError)), RunReadHandler(0))
  }

  lemma TurnWhenSettled(cfg: Config, c: Conn)
    requires Healthy(cfg, c) && Settled(c)
    ensures Turn(cfg, c) == c
  {
    SettledIsReady(c, 0);
    hide Apply, ReaderOk, Core;
  }

  lemma UnsettledIsComplete(c: Conn)
    requires Core(c) && NoReadFailure(c) && c.net.open && !c.session.crashed && !Settled(c)
    ensures |c.net.readOps| == 1 && |c.net.readOps[0].got| == c.net.readOps[0].want
    ensures c.net.readOps[0].status == Active || c.net.readOps[0].status == Completed(NoError)
  {
    StatusCases(c.net.readOps[0].status);
  }

  /** Where a read is complete, its end is no more than a change of status. */
  lemma EndEffect(cfg: Config, c: Conn)
    requires c.net.open && !c.session.crashed && c.net.readOps != []
    requires |c.net.readOps[0].got| == c.net.readOps[0].want
    requires c.net.readOps[0].status == Active || c.net.readOps[0].status == Completed(NoError)
    ensures Next(cfg, c, EndRead(0, NoError)) == SetRead(c, 0, c.net.readOps[0].(status := Completed(NoError)))
  {
    assert c.net.readOps[0].status == Completed(NoError) ==> c.net.readOps[0 := c.net.readOps[0]] == c.net.readOps;
  }

  /** A complete read whose end has been reported without error. */
  ghost predicate Reported(c: Conn, target: ReadTarget) {
    && c.net.readOps != [] && c.net.readOps[0].target == target
    && c.net.readOps[0].status == Completed(NoError)
  }

  lemma EndStep(cfg: Config, c: Conn)
    requires Healthy(cfg, c) && !Settled(c)
    ensures var d := Next(cfg, c, EndRead(0, NoError));
            && Healthy(cfg, d) && d.net.received == c.net.received
            && c.net.readOps != [] && Reported(d, c.net.readOps[0].target)
  {
    UnsettledIsComplete(c);
    EndEffect(cfg, c);
    NextCore(cfg, c, EndRead(0, NoError));
    NextReaderOk(cfg, c, EndRead(0, NoError));
    hide Next, ReaderOk, Core, Settled;
  }

  /** A complete length starts the body or is refused; a complete body is handed over, and the reader is through. */
  lemma HandlerStep(cfg: Config, c: Conn, target: ReadTarget)
    requires Healthy(cfg, c) && Reported(c, target)
    ensures var d := Next(cfg, c, RunReadHandler(0));
            && d.net.received == c.net.received
            && (Healthy(cfg, d) || Refused(d))
            && (Healthy(cfg, d) && !Settled(d) ==> target == LengthTarget && Reading(d, BodyTarget))
  {
    NextCore(cfg, c, RunReadHandler(0));
    NextReaderOk(cfg, c, RunReadHandler(0));
    if target == LengthTarget {
      LengthEffect(cfg, c, 0);
    } else {
      BodyEffect(cfg, c, 0);
    }
    hide ReaderOk, Decode, U32, Overwrite, Apply;
  }

  ghost predicate Reading(c: Conn, target: ReadTarget) {
    c.net.readOps != [] && c.net.readOps[0].target == target
  }

  /** Healthy with nothing left to do, or refused. */
  ghost predicate Fed(cfg: Config, c: Conn) {
    (Healthy(cfg, c) && Settled(c)) || Refused(c)
  }

  /** After one turn the reader is reading a body or has nothing left to do, and after two the latter. */
  lemma TurnStep(cfg: Config, c: Conn)
    requires Healthy(cfg, c) || Refused(c)
    ensures var d := Turn(cfg, c);
            && d.net.received == c.net.received
            && (Fed(cfg, d) || (Healthy(cfg, d) && Reading(d, BodyTarget)))
            && (Fed(cfg, c) || Reading(c, BodyTarget) ==> Fed(cfg, d))
            && (Refused(c) ==> Refused(d))
  {
    var e := Next(cfg, c, EndRead(0, NoError));
    if Refused(c) {
      RefusedForGood(cfg, c, EndRead(0, NoError));
      RefusedForGood(cfg, e, RunReadHandler(0));
    } else if Settled(c) {
      TurnWhenSettled(cfg, c);
    } else {
      EndStep(cfg, c);
      HandlerStep(cfg, e, c.net.readOps[0].target);
    }
    hide Next, Healthy, Refused, Settled;
  }

  /** One byte arrives, and the reader takes what steps it can: never more than two reads end. */
  function Feed(b: byte): seq<Event> {
    [Receive(0, [b]), EndRead(0, NoError), RunReadHandler(0), EndRead(0, NoError), RunReadHandler(0)]
  }

  lemma FeedSteps(cfg: Config, c: Conn, b: byte)
    ensures Run(cfg, c, Feed(b)) == Turn(cfg, Turn(cfg, Next(cfg, c, Receive(0, [b]))))
  {
    hide Next;
    var d := Next(cfg, c, Receive(0, [b]));
    var e := Next(cfg, d, EndRead(0, NoError));
    var f := Next(cfg, e, RunReadHandler(0));
    var g := Next(cfg, f, EndRead(0, NoError));
    assert Feed(b)[1..] == [EndRead(0, NoError), RunReadHandler(0), EndRead(0, NoError), RunReadHandler(0)];
    assert Run(cfg, c, Feed(b))
        == Run(cfg, d, [EndRead(0, NoError), RunReadHandler(0), EndRead(0, NoError), RunReadHandler(0)])
        == Run(cfg, e, [RunReadHandler(0), EndRead(0, NoError), RunReadHandler(0)])
        == Run(cfg, f, [EndRead(0, NoError), RunReadHandler(0)])
        == Run(cfg, g, [RunReadHandler(0)])
        == Run(cfg, Next(cfg, g, RunReadHandler(0)), []);
  }

  lemma ReceiveStep(cfg: Config, c: Conn, b: byte)
    requires Healthy(cfg, c) && Settled(c)
    ensures var d := Next(cfg, c, Receive(0, [b]));
            Healthy(cfg, d) && d.net.received == c.net.received + [b]
  {
    SettledIsReady(c, b);
    NextCore(cfg, c, Receive(0, [b]));
    NextReaderOk(cfg, c, Receive(0, [b]));
    hide Core, ReaderOk;
  }

  lemma FeedOk(cfg: Config, c: Conn, b: byte)
    requires Fed(cfg, c)
    ensures var d := Run(cfg, c, Feed(b));
            && Fed(cfg, d)
            && (Refused(c) ==> Refused(d) && d.net.received == c.net.received)
            && (!Refused(c) ==> d.net.received == c.net.received + [b])
  {
    var d := Next(cfg, c, Receive(0, [b]));
    FeedSteps(cfg, c, b);
    if Refused(c) {
      RefusedForGood(cfg, c, Receive(0, [b]));
    } else {
      ReceiveStep(cfg, c, b);
    }
    assert Fed(cfg, Turn(cfg, d)) ==> Healthy(cfg, Turn(cfg, d)) || Refused(Turn(cfg, d));
    hide Next, Run, Healthy, Refused, Settled, Fed, Turn, Reading, Feed;
    TurnStep(cfg, d);
    TurnStep(cfg, Turn(cfg, d));
  }

  function FeedAll(s: Bytes): seq<Event> {
    if s == [] then [] else Feed(s[0]) + FeedAll(s[1..])
  }

  lemma MorePrefix(s: Bytes, more: Bytes)
    requires more != []
    ensures s <= s + more && s + [more[0]] + more[1..] == s + more
  {
  }

  lemma {:induction false} FeedAllOk(cfg: Config, c: Conn, s: Bytes)
    requires Fed(cfg, c)
    ensures var d := Run(cfg, c, FeedAll(s));
            && Fed(cfg, d)
            && (Refused(c) ==> Refused(d) && d.net.received == c.net.received)
            && d.net.received <= c.net.received + s
            && (!Refused(d) ==> d.net.received == c.net.received + s)
    decreases |s|
  {
    if s != [] {
      var d := Run(cfg, c, Feed(s[0]));
      RunAppend(cfg, c, Feed(s[0]), FeedAll(s[1..]));
      hide Run, Fed, Refused, Feed;
      FeedOk(cfg, c, s[0]);
      FeedAllOk(cfg, d, s[1..]);
      MorePrefix(c.net.received, s);
    }
  }

  /** Start the session and feed it a stream. */
  function Serve(s: Bytes): seq<Event> {
    [CallStart] + FeedAll(s)
  }

  lemma StartedIsFed(cfg: Config, now: nat)
    ensures var c := Next(cfg, Init(now), CallStart);
            Fed(cfg, c) && !Refused(c) && c.net.received == []
  {
    InitReaderOk(cfg, now);
    NextCore(cfg, Init(now), CallStart);
    NextReaderOk(cfg, Init(now), CallStart);
    hide Core, ReaderOk;
  }

  lemma ServeOk(cfg: Config, now: nat, s: Bytes)
    ensures var c := Run(cfg, Init(now), Serve(s));
            Fed(cfg, c) && c.net.received <= s && (!Refused(c) ==> c.net.received == s)
  {
    var c := Next(cfg, Init(now), CallStart);
    assert Serve(s)[1..] == FeedAll(s);
    assert Run(cfg, Init(now), Serve(s)) == Run(cfg, c, FeedAll(s));
    hide Run, Next, Fed, Refused;
    StartedIsFed(cfg, now);
    FeedAllOk(cfg, c, s);
    assert [] + s == s;
  }

  /**
   Every stream, whatever its bytes, can be received: there is a run that hands over exactly the frames of the
   one-shot deframer, waits for more if the deframer does, and ends as the deframer does if it refuses a frame.
   */
  lemma EveryStreamIsServed(cfg: Config, now: nat, s: Bytes)
    ensures var c, d := Run(cfg, Init(now), Serve(s)), Deframe(cfg.order, s);
            && c.session.delivered == d.frames
            && (d.end == Starved <==> Settled(c)) && (d.end == Starved ==> c.net.received == s)
            && (d.end == Rejected <==> c.session.crashed)
            && (d.end == Oversized <==> c.session.cause == Some(PacketTooLarge))
  {
    var c := Run(cfg, Init(now), Serve(s));
    ServeOk(cfg, now, s);
    ReaderRefinesDeframer(cfg, now, Serve(s));
    hide Run, Deframe, Settled, Healthy;
    if Refused(c) {
      DeframeEnded(cfg.order, c.net.received, s[|c.net.received|..]);
      CutPrefix(s, c.net.received);
    }
  }

  /** For every list of acceptable packets there is a run that delivers exactly these. */
  lemma PacketsAreDelivered(cfg: Config, now: nat, ps: seq<Bytes>)
    requires GoodFrames(cfg.order, ps)
    ensures var c := Run(cfg, Init(now), Serve(Flat(ps)));
            c.net.received == Flat(ps) && c.session.delivered == ps && Settled(c)
  {
    PacketsComeOut(cfg.order, ps);
    EveryStreamIsServed(cfg, now, Flat(ps));
  }

  /** For every list of messages within the limits there is a run that delivers packets decoding to exactly them. */
  lemma MessagesAreDelivered(cfg: Config, now: nat, xs: seq<Sent>)
    requires AllSendable(cfg.order, xs)
    ensures var c := Run(cfg, Init(now), Serve(Flat(Frames(cfg.order, xs))));
            && Settled(c) && |c.session.delivered| == |xs|
            && forall i | 0 <= i < |xs| :: xs[i].DecodesTo(cfg.order, c.session.delivered[i])
  {
    SentComesOut(cfg.order, xs);
    PacketsAreDelivered(cfg, now, Frames(cfg.order, xs));
    hide Run, Frames, Settled;
  }

  // ----- A stream of created packets -----

  /**
   On a stream that starts with two created packets, whatever follows and whatever part of it has arrived, no run
   delivers more than what `TwoCreated` lists, at most the first packet with four bytes of the second and one frame
   cut from the middle of the second; none receives more than `NeededOfTwo` bytes; and where it is through with these
   the session has ended, or waits for the rest of that frame.
   */
  lemma CreatedStreamStops(cfg: Config, now: nat, es: seq<Event>, m1: Message, m2: Message, more: Bytes)
    requires m1.Creatable() && m2.Creatable()
    requires Run(cfg, Init(now), es).net.received <= Created(m1) + Created(m2) + more
    ensures |Created(m2)| >= 14
    ensures var c, d := Run(cfg, Init(now), es), TwoCreated(cfg.order, m1, m2, more);
            var n := NeededOfTwo(cfg.order, m1, m2, more);
            && c.session.delivered <= d.frames && |c.net.received| <= n
            && (c.session.crashed ==> d.end == Rejected)
            && (c.session.cause == Some(PacketTooLarge) ==> d.end == Oversized)
            && (Through(c) && |c.net.received| == n ==>
                  && c.session.delivered == d.frames
                  && (d.end == Starved <==> Settled(c))
                  && (d.end == Rejected <==> c.session.crashed)
                  && (d.end == Oversized <==> c.session.cause == Some(PacketTooLarge)))
  {
    CreatedFields(m1);
    CreatedFields(m2);
    SecondCreatedPacketEnds(cfg.order, m1, m2, more);
    NeededIsExtent(cfg.order, m1, m2, more);
    hide Run, Created, Settled, TwoCreated, NeededOfTwo, Extent;
    ReadsNoFurther(cfg, now, es, Created(m1) + Created(m2) + more);
  }

  /** Such runs exist, and which of the three ways they end in is decided by the two packets. */
  lemma CreatedStreamIsServed(cfg: Config, now: nat, m1: Message, m2: Message, more: Bytes)
    requires m1.Creatable() && m2.Creatable()
    ensures |Created(m2)| >= 14
    ensures var w1, w2 := Created(m1), Created(m2);
            var c := Run(cfg, Init(now), Serve(w1 + w2 + more));
            var accepted := && m1.version == V1 && m1.packetType in {Text, File, Video}
                            && |m1.payload| + 4 <= 1024 * 1024 && Parse(cfg.order, m1.headers).Success?;
            && c.session.delivered == TwoCreated(cfg.order, m1, m2, more).frames
            && (c.session.cause == Some(PacketTooLarge) <==>
                  |w1| > MAX_PACKET_SIZE || (accepted && m2.version == V1))
            && (Settled(c) <==> && |w1| <= MAX_PACKET_SIZE && accepted && m2.version != V1
                                && |w2 + more| < 8 + MisreadLength(m2))
            && (c.session.crashed <==> && |w1| <= MAX_PACKET_SIZE
                                       && (accepted ==> m2.version != V1 && 8 + MisreadLength(m2) <= |w2 + more|))
  {
    CreatedFields(m2);
    CreatedPacketAbsorbs(cfg.order, m1, Created(m2)[..4]);
    SecondCreatedPacketEnds(cfg.order, m1, m2, more);
    hide Run, Created, Deframe, Decode, Parse, Serve, Settled;
    EveryStreamIsServed(cfg, now, Created(m1) + Created(m2) + more);
  }
}
