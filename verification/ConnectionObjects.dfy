/**
 `Session`, `Reader` and `Writer` as the source writes them: objects that hold references to one another and
 whose handlers update their fields step by step.  Every method is proved to turn the state the objects
 represent (`Session.View`) into what the function of the same name in module `Connections` says.
 */
module ConnectionObjects {
  import opened Wrappers
  import opened ByteOrder
  import opened Packets
  import PacketObjects
  import opened Framing
  import opened SteadyTimers
  import opened Connections
  import opened SessionTheorems

  /** The socket together with the executor that runs the handlers; both belong to the I/O library. */
  class Socket {
    var net: Net

    constructor (now: nat)
      ensures net == Init(now).net
    {
      net := Init(now).net;
    }
  }

  class Session {
    const config: Config
    const socket: Socket
    var reader: Reader?
    var writer: Writer?
    var idleTimer: Timer
    var stopped: bool
    ghost var history: History

    constructor (config: Config, socket: Socket)
      ensures this.config == config && this.socket == socket
      ensures Valid() && reader == null
      ensures View() == Init(socket.net.now).(net := socket.net)
    {
      this.config, this.socket := config, socket;
      reader, writer := null, null;
      idleTimer, stopped := ARMED, false;
      history := History(false, 0, None, [], [], []);
    }

    /** The three objects refer to one another and share the socket. */
    ghost predicate Valid()
      reads this
    {
      && (reader == null <==> writer == null)
      && (reader != null ==> reader.socket == socket && reader.session == this && reader.config == config)
      && (writer != null ==> writer.socket == socket && writer.session == this && writer.config == config)
    }

    /** The state of the connection. */
    ghost function View(): Conn
      reads this, socket, reader, writer
    {
      Conn(socket.net,
           if reader == null then ReaderState(0, [], ARMED) else reader.View(),
           if writer == null then WriterState([], ARMED) else writer.View(),
           SessionState(reader != null, stopped, idleTimer, history.crashed, history.closes, history.cause,
                        history.delivered, history.offered, history.written),
           false)
    }

    method Start()
      requires Valid() && reader == null
      modifies this, socket
      ensures Valid() && reader != null && fresh(reader) && fresh(writer)
      ensures View() == Connections.Start(config, old(View()))
    {
      reader := new Reader(config, socket, this);
      writer := new Writer(config, socket, this);
      ReadPacket();
    }

    method ReadPacket()
      requires Valid() && reader != null
      modifies this, socket, reader
      ensures Valid() && reader == old(reader) && writer == old(writer)
      ensures View() == Connections.ReadPacket(config, old(View()))
    {
      socket.net := Noted(socket.net, IdleRenewed);
      idleTimer := idleTimer.ExpiresAt(At(socket.net.now + config.idleSeconds));
      reader.ReadLength();
    }

    /** `threw`: the exception of the `Packet` constructor leaves this handler. */
    method OnPacket(packet: Bytes) returns (threw: bool)
      requires Valid() && reader != null && !history.crashed
      modifies this
      ensures Valid() && reader == old(reader) && writer == old(writer)
      ensures View() == Connections.OnPacket(config, old(View()), packet)
      ensures threw == history.crashed
    {
      history := history.(delivered := history.delivered + [packet]);
      var parsed := new PacketObjects.Packet(packet);
      var error := parsed.Initialize(config.order);
      threw := error != None;
      if !threw {
        // `Router::route` would hand over a packet of type Auth; there is none.
        DecodedType(config.order, packet);
        assert !RoutesToAuth(parsed.packetType);
      }
      history := history.(crashed := threw);
    }

    method WritePacket(packet: Bytes)
      requires Valid() && writer != null
      modifies this, socket
      ensures Valid() && reader == old(reader) && writer == old(writer)
      ensures View() == Connections.WritePacket(config, old(View()), packet)
    {
      socket.net := Noted(socket.net, IdleRenewed);
      idleTimer := idleTimer.ExpiresAt(At(socket.net.now + config.idleSeconds));
      history := history.(offered := history.offered + [packet]);
      writer.AddPacket(packet);
    }

    method Stop(ghost cause: Cause)
      requires Valid()
      modifies this, socket
      ensures Valid() && reader == old(reader) && writer == old(writer)
      ensures View() == Connections.Stop(old(View()), cause)
    {
      if stopped {
        return;
      }
      stopped := true;
      socket.net := CloseSocket(socket.net);
      idleTimer := idleTimer.Cancel();
      history := history.(closes := history.closes + 1, cause := Some(cause));
    }

    /** The handler of `check_idle_timer`. */
    method OnIdleTimer(completion: Completion)
      requires Valid()
      modifies this, socket
      ensures Valid() && reader == old(reader) && writer == old(writer)
      ensures View() == OnTimer(old(View()), IdleWatch, completion)
    {
      if completion == Aborted {
        idleTimer := idleTimer.AsyncWait();
        return;
      }
      Stop(DeadlinePassed(IdleWatch));
    }
  }

  /** History of a session, see `Connections.SessionState`. */
  datatype History = History(
    crashed: bool, closes: nat, cause: Option<Cause>, delivered: seq<Bytes>, offered: seq<Bytes>, written: seq<Bytes>)

  class Reader {
    const config: Config
    const socket: Socket
    const session: Session
    var packetLength: uint32
    var packetBuffer: Bytes
    var readTimer: Timer

    constructor (config: Config, socket: Socket, session: Session)
      ensures this.config == config && this.socket == socket && this.session == session
      ensures View() == ReaderState(0, [], ARMED)
    {
      this.config, this.socket, this.session := config, socket, session;
      packetLength, packetBuffer, readTimer := 0, [], ARMED;
    }

    ghost function View(): ReaderState
      reads this
    {
      ReaderState(packetLength, packetBuffer, readTimer)
    }

    ghost predicate Valid()
      reads this, session
    {
      session.Valid() && session.reader == this
    }

    method ReadLength()
      requires Valid()
      modifies this, socket
      ensures Valid() && session.View() == Connections.ReadLength(config, old(session.View()))
    {
      readTimer := readTimer.ExpiresAt(At(socket.net.now + config.readSeconds));
      socket.net := AsyncRead(Noted(socket.net, ReadBegun), LengthTarget, PACKET_LENGTH);
    }

    method OnLength(ec: ErrorCode, got: Bytes)
      requires Valid() && (socket.net.open && ec == NoError ==> |got| == PACKET_LENGTH)
      modifies this, socket, session
      ensures Valid() && session.View() == Connections.OnLength(config, old(session.View()), ec, got)
      ensures session.reader == old(session.reader) && session.writer == old(session.writer)
    {
      socket.net := Noted(socket.net, ReadHandled);
      if !socket.net.open {
        return;
      }
      if ec == NoError {
        NetworkLoad32(config.order, got, 0);
        packetLength := Ntohl(config.order, Load32(config.order, got, 0));
        if packetLength > MAX_PACKET_SIZE {
          session.Stop(PacketTooLarge);
          return;
        }
        ReadBody();
      } else {
        if ec != OperationAborted {
          session.Stop(ReadFailed);
          return;
        }
      }
    }

    method ReadBody()
      requires Valid() && packetLength <= MAX_PACKET_SIZE
      modifies this, socket
      ensures Valid() && session.View() == Connections.ReadBody(config, old(session.View()))
    {
      readTimer := readTimer.ExpiresAt(At(socket.net.now + config.readSeconds));
      packetBuffer := Resized(packetBuffer, packetLength + PACKET_LENGTH);
      var length := Ntohl(config.order, packetLength);
      NetworkStore32(config.order, packetLength);
      packetBuffer := Overwrite(packetBuffer, 0, Store32(config.order, length));
      socket.net := AsyncRead(Noted(socket.net, ReadBegun), BodyTarget, packetLength);
    }

    /** What was read has been stored behind the length in the packet buffer. */
    method OnBody(ec: ErrorCode, got: Bytes) returns (threw: bool)
      requires Valid() && !session.history.crashed
      requires socket.net.open && ec == NoError ==> |packetBuffer| == PACKET_LENGTH + |got|
      modifies this, socket, session
      ensures Valid() && session.View() == Connections.OnBody(config, old(session.View()), ec, got)
      ensures session.reader == old(session.reader) && session.writer == old(session.writer)
    {
      threw := false;
      socket.net := Noted(socket.net, ReadHandled);
      if !socket.net.open {
        return;
      }
      if ec == NoError {
        packetBuffer := Overwrite(packetBuffer, PACKET_LENGTH, got);
        var moved := packetBuffer;
        packetBuffer := [];
        threw := session.OnPacket(moved);
        if threw {
          return;
        }
        packetBuffer := [];
        ReadLength();
      } else {
        if ec != OperationAborted {
          session.Stop(ReadFailed);
        }
      }
    }

    /** The handler of `check_read_deadline`. */
    method OnReadTimer(completion: Completion)
      requires Valid()
      modifies this, socket, session
      ensures Valid() && session.View() == OnTimer(old(session.View()), ReadWatch, completion)
      ensures session.reader == old(session.reader) && session.writer == old(session.writer)
    {
      if completion == Aborted {
        readTimer := readTimer.AsyncWait();
        return;
      }
      session.Stop(DeadlinePassed(ReadWatch));
    }
  }

  class Writer {
    const config: Config
    const socket: Socket
    const session: Session
    var queueBuffer: seq<Bytes>
    var writeTimer: Timer

    constructor (config: Config, socket: Socket, session: Session)
      ensures this.config == config && this.socket == socket && this.session == session
      ensures View() == WriterState([], ARMED)
    {
      this.config, this.socket, this.session := config, socket, session;
      queueBuffer, writeTimer := [], ARMED;
    }

    ghost function View(): WriterState
      reads this
    {
      WriterState(queueBuffer, writeTimer)
    }

    ghost predicate Valid()
      reads this, session
    {
      session.Valid() && session.writer == this
    }

    method AddPacket(packet: Bytes)
      requires Valid()
      modifies socket
      ensures Valid() && session.View() == Connections.AddPacket(old(session.View()), packet)
    {
      socket.net := socket.net.(posted := socket.net.posted + [packet]);
    }

    /** The closure that `add_packet` posts. */
    method OnPosted(packet: Bytes)
      requires Valid()
      modifies this, socket
      ensures Valid() && session.View() == Connections.OnPosted(config, old(session.View()), packet)
    {
      var writing := queueBuffer != [];
      queueBuffer := queueBuffer + [packet];
      if !writing {
        Write();
      }
    }

    method Write()
      requires Valid() && queueBuffer != []
      modifies this, socket
      ensures Valid() && session.View() == Connections.Write(config, old(session.View()))
    {
      writeTimer := writeTimer.ExpiresAt(At(socket.net.now + config.writeSeconds));
      socket.net := AsyncWrite(Noted(socket.net, WriteBegun), queueBuffer[0]);
    }

    method OnWrite(ec: ErrorCode)
      requires Valid() && (socket.net.open && ec == NoError ==> queueBuffer != [])
      modifies this, socket, session
      ensures Valid() && session.View() == Connections.OnWrite(config, old(session.View()), ec)
      ensures session.reader == old(session.reader) && session.writer == old(session.writer)
    {
      socket.net := Noted(socket.net, WriteHandled);
      if !socket.net.open {
        return;
      }
      if ec == NoError {
        session.history := session.history.(written := session.history.written + [queueBuffer[0]]);
        queueBuffer := queueBuffer[1..];
        if queueBuffer != [] {
          Write();
        } else {
          writeTimer := writeTimer.ExpiresAt(Never);
        }
      } else {
        if ec != OperationAborted {
          session.Stop(WriteFailed);
        }
      }
    }

    /** The handler of `check_write_deadline`. */
    method OnWriteTimer(completion: Completion)
      requires Valid()
      modifies this, socket, session
      ensures Valid() && session.View() == OnTimer(old(session.View()), WriteWatch, completion)
      ensures session.reader == old(session.reader) && session.writer == old(session.writer)
    {
      if completion == Aborted {
        writeTimer := writeTimer.AsyncWait();
        return;
      }
      session.Stop(DeadlinePassed(WriteWatch));
    }
  }

  /** The oldest queued completion of a timer is taken to its handler. */
  method DispatchTimer(session: Session, w: Watch)
    requires session.Valid() && Enabled(session.View(), RunTimerHandler(w))
    modifies session, session.socket, session.reader, session.writer
    ensures session.Valid() && session.reader == old(session.reader) && session.writer == old(session.writer)
    ensures session.View() == Apply(session.config, old(session.View()), RunTimerHandler(w))
  {
    hide OnTimer;
    match w {
      case IdleWatch =>
        var completion := session.idleTimer.queued[0];
        session.idleTimer := session.idleTimer.Take();
        session.OnIdleTimer(completion);
      case ReadWatch =>
        var completion := session.reader.readTimer.queued[0];
        session.reader.readTimer := session.reader.readTimer.Take();
        session.reader.OnReadTimer(completion);
      case WriteWatch =>
        var completion := session.writer.writeTimer.queued[0];
        session.writer.writeTimer := session.writer.writeTimer.Take();
        session.writer.OnWriteTimer(completion);
    }
  }

  method DispatchRead(session: Session, i: nat)
    requires session.Valid() && Core(session.View()) && Enabled(session.View(), RunReadHandler(i))
    modifies session, session.socket, session.reader, session.writer
    ensures session.Valid() && session.reader == old(session.reader) && session.writer == old(session.writer)
    ensures session.View() == Apply(session.config, old(session.View()), RunReadHandler(i))
  {
    hide OnLength, OnBody, WriteShape;
    var net := session.socket.net;
    var op := net.readOps[i];
    session.socket.net := net.(readOps := net.readOps[..i] + net.readOps[i + 1..]);
    if op.target == LengthTarget {
      session.reader.OnLength(op.status.ec, op.got);
    } else {
      var _ := session.reader.OnBody(op.status.ec, op.got);
    }
  }

  method DispatchWrite(session: Session, i: nat)
    requires session.Valid() && Core(session.View()) && Enabled(session.View(), RunWriteHandler(i))
    modifies session, session.socket, session.reader, session.writer
    ensures session.Valid() && session.reader == old(session.reader) && session.writer == old(session.writer)
    ensures session.View() == Apply(session.config, old(session.View()), RunWriteHandler(i))
  {
    hide OnWrite, ReadShape;
    var net := session.socket.net;
    var op := net.writeOps[i];
    session.socket.net := net.(writeOps := net.writeOps[..i] + net.writeOps[i + 1..]);
    session.writer.OnWrite(op.status.ec);
  }

  /** Everything that happens on the socket itself. */
  method DispatchNet(session: Session, e: Event)
    requires session.Valid() && Enabled(session.View(), e)
    requires e.Tick? || e.Receive? || e.EndRead? || e.Send? || e.EndWrite?
    modifies session.socket
    ensures session.Valid()
    ensures session.View() == Apply(session.config, old(session.View()), e)
  {
    var net := session.socket.net;
    match e {
      case Tick(elapsed) => session.socket.net := net.(now := net.now + elapsed);
      case Receive(i, chunk) =>
        var op := net.readOps[i];
        session.socket.net := net.(readOps := net.readOps[i := op.(got := op.got + chunk)],
                                   received := net.received + chunk);
      case EndRead(i, ec) =>
        session.socket.net := net.(readOps := net.readOps[i := net.readOps[i].(status := Completed(ec))]);
      case Send(i, count) =>
        var op := net.writeOps[i];
        session.socket.net := net.(writeOps := net.writeOps[i := op.(sent := op.sent + count)],
                                   wire := net.wire + op.data[op.sent..op.sent + count]);
      case EndWrite(i, ec) =>
        session.socket.net := net.(writeOps := net.writeOps[i := net.writeOps[i].(status := Completed(ec))]);
    }
  }

  /** A timer's deadline passes. */
  method DispatchExpiry(session: Session, w: Watch)
    requires session.Valid() && Enabled(session.View(), TimerExpires(w))
    modifies session, session.reader, session.writer
    ensures session.Valid() && session.reader == old(session.reader) && session.writer == old(session.writer)
    ensures session.View() == Apply(session.config, old(session.View()), TimerExpires(w))
  {
    match w {
      case IdleWatch => session.idleTimer := session.idleTimer.Expire();
      case ReadWatch => session.reader.readTimer := session.reader.readTimer.Expire();
      case WriteWatch => session.writer.writeTimer := session.writer.writeTimer.Expire();
    }
  }

  /**
   What the executor and the environment do to the objects: one event.  The objects' handlers are only ever
   called in states that meet their preconditions, and together they make the step `Connections.Next`.
   */
  method Dispatch(session: Session, e: Event)
    requires session.Valid() && Core(session.View()) && Enabled(session.View(), e)
    modifies session, session.socket, session.reader, session.writer
    ensures session.Valid()
    ensures session.reader == old(session.reader) || fresh(session.reader)
    ensures session.writer == old(session.writer) || fresh(session.writer)
    ensures session.View() == Next(session.config, old(session.View()), e)
    ensures Core(session.View())
  {
    NextCore(session.config, session.View(), e);
    hide ReadShape, OnPosted, Start, WritePacket, OnLength, OnBody, OnWrite, OnTimer, TimerOf, WithTimer;
    match e {
      case CallStart => session.Start();
      case CallWritePacket(packet) => session.WritePacket(packet);
      case RunPosted =>
        var net := session.socket.net;
        session.socket.net := net.(posted := net.posted[1..]);
        session.writer.OnPosted(net.posted[0]);
      case RunReadHandler(i) => DispatchRead(session, i);
      case RunWriteHandler(i) => DispatchWrite(session, i);
      case TimerExpires(w) => DispatchExpiry(session, w);
      case RunTimerHandler(w) => DispatchTimer(session, w);
      case _ => DispatchNet(session, e);
    }
  }

  /** Every event of the run happens where it can. */
  ghost predicate Feasible(cfg: Config, c: Conn, es: seq<Event>)
    decreases |es|
  {
    es == [] || (Enabled(c, es[0]) && Feasible(cfg, Next(cfg, c, es[0]), es[1..]))
  }

  /** A run without the events that do nothing. */
  ghost function Effective(cfg: Config, c: Conn, es: seq<Event>): seq<Event>
    decreases |es|
  {
    if es == [] then []
    else if Enabled(c, es[0]) then [es[0]] + Effective(cfg, Next(cfg, c, es[0]), es[1..])
    else Effective(cfg, c, es[1..])
  }

  /** Every reachable state is reached by a feasible run, so that `Operate` takes objects to it. */
  lemma {:induction false} FeasibleRuns(cfg: Config, c: Conn, es: seq<Event>)
    ensures Feasible(cfg, c, Effective(cfg, c, es))
    ensures Run(cfg, c, Effective(cfg, c, es)) == Run(cfg, c, es)
    decreases |es|
  {
    if es != [] {
      var d := Next(cfg, c, es[0]);
      FeasibleRuns(cfg, d, es[1..]);
      assert !Enabled(c, es[0]) ==> d == c;
      hide Next, Enabled;
      if Enabled(c, es[0]) {
        var fs := Effective(cfg, d, es[1..]);
        assert ([es[0]] + fs)[1..] == fs;
      }
    }
  }

  /** The objects over any number of events: what they represent is the run of the system. */
  method DispatchAll(session: Session, es: seq<Event>)
    requires session.Valid() && Core(session.View()) && Feasible(session.config, session.View(), es)
    modifies session, session.socket, session.reader, session.writer
    ensures session.Valid() && Core(session.View())
    ensures session.View() == Run(session.config, old(session.View()), es)
  {
    for i := 0 to |es|
      invariant session.Valid() && Core(session.View())
      invariant session.reader == old(session.reader) || fresh(session.reader)
      invariant session.writer == old(session.writer) || fresh(session.writer)
      invariant Feasible(session.config, session.View(), es[i..])
      invariant Run(session.config, session.View(), es[i..]) == Run(session.config, old(session.View()), es)
    {
      assert es[i..][0] == es[i] && es[i..][1..] == es[i + 1..];
      hide Core, Enabled, Next;
      Dispatch(session, es[i]);
    }
  }

  /**
   A connection from its first moment on: the theorems about runs are about these objects.
   */
  method Operate(config: Config, now: nat, es: seq<Event>) returns (session: Session)
    requires Feasible(config, Init(now), es)
    ensures fresh(session) && session.Valid() && session.config == config
    ensures session.View() == Run(config, Init(now), es)
    ensures session.history.closes <= 1 && (session.stopped <==> session.history.closes == 1)
    ensures session.stopped <==> !session.socket.net.open
  {
    var socket := new Socket(now);
    session := new Session(config, socket);
    InitCore(now);
    SessionSafety(config, now, es);
    DispatchAll(session, es);
  }
}
