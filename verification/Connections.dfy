/**
 One connection as a transition system: the state of `Session`, `Reader` and `Writer`, of the socket and
 of the executor they share, and one step per handler.

 The handlers are functions on the state; the methods of the classes in module `ConnectionObjects` are
 proved equal to them.  `Next` is one step of the system under an arbitrary event: bytes arrive or leave in
 arbitrary portions, operations end, time passes, timers expire, queued handlers run in any order, and
 `write_packet` is called at any moment.  A run is any sequence of events.

 The read and write operations of the socket are sequences, so that the absence of overlapping operations
 is something to prove; likewise `undefined` records the accesses that C++ leaves undefined.
 */
module Connections {
  import opened Wrappers
  import opened ByteOrder
  import opened Packets
  import opened Framing
  import opened SteadyTimers

  datatype Config = Config(order: Order, readSeconds: nat, writeSeconds: nat, idleSeconds: nat)

  datatype ErrorCode = NoError | OperationAborted | OtherError
  datatype Status = Active | Completed(ec: ErrorCode)
  datatype ReadTarget = LengthTarget | BodyTarget
  datatype ReadOp = ReadOp(target: ReadTarget, want: nat, got: Bytes, status: Status)
  datatype WriteOp = WriteOp(data: Bytes, sent: nat, status: Status)

  datatype Watch = IdleWatch | ReadWatch | WriteWatch
  datatype Cause = DeadlinePassed(watch: Watch) | ReadFailed | WriteFailed | PacketTooLarge

  /** History: what happened when. */
  datatype What = IdleRenewed | ReadBegun | ReadHandled | WriteBegun | WriteHandled
  datatype Mark = Mark(at: nat, what: What)

  /** The socket, its executor and the clock. `received`, `wire` and `trace` are history. */
  datatype Net = Net(
    now: nat, open: bool, readOps: seq<ReadOp>, writeOps: seq<WriteOp>, posted: seq<Bytes>,
    received: Bytes, wire: Bytes, trace: seq<Mark>)

  datatype ReaderState = ReaderState(packetLength: uint32, packetBuffer: Bytes, timer: Timer)

  datatype WriterState = WriterState(queue: seq<Bytes>, timer: Timer)

  /**
   `started` says that `start` has run; `crashed` that an exception has escaped from a handler.  History:
   how often `on_close_` ran, why the session stopped, the buffers handed to `on_packet`, the packets handed
   to `write_packet`, and those popped from the write queue.
   */
  datatype SessionState = SessionState(
    started: bool, stopped: bool, idle: Timer, crashed: bool,
    closes: nat, cause: Option<Cause>, delivered: seq<Bytes>, offered: seq<Bytes>, written: seq<Bytes>)

  datatype Conn = Conn(net: Net, reader: ReaderState, writer: WriterState, session: SessionState, undefined: bool)

  function Init(now: nat): Conn {
    Conn(Net(now, true, [], [], [], [], [], []),
         ReaderState(0, [], ARMED),
         WriterState([], ARMED),
         SessionState(false, false, ARMED, false, 0, None, [], [], []),
         false)
  }

  // ----- Socket -----

  function Noted(net: Net, what: What): Net {
    net.(trace := net.trace + [Mark(net.now, what)])
  }

  function AbortedRead(op: ReadOp): ReadOp {
    if op.status == Active then op.(status := Completed(OperationAborted)) else op
  }

  function AbortedWrite(op: WriteOp): WriteOp {
    if op.status == Active then op.(status := Completed(OperationAborted)) else op
  }

  /** `close`: operations in progress complete as aborted. */
  function CloseSocket(net: Net): Net {
    net.(open := false,
         readOps := seq(|net.readOps|, i requires 0 <= i < |net.readOps| => AbortedRead(net.readOps[i])),
         writeOps := seq(|net.writeOps|, i requires 0 <= i < |net.writeOps| => AbortedWrite(net.writeOps[i])))
  }

  /** On a closed socket an operation completes at once with an error. */
  function FirstStatus(net: Net): Status {
    if net.open then Active else Completed(OtherError)
  }

  function AsyncRead(net: Net, target: ReadTarget, want: nat): Net {
    net.(readOps := net.readOps + [ReadOp(target, want, [], FirstStatus(net))])
  }

  function AsyncWrite(net: Net, data: Bytes): Net {
    net.(writeOps := net.writeOps + [WriteOp(data, 0, FirstStatus(net))])
  }

  // ----- Session -----

  function Stop(c: Conn, cause: Cause): Conn {
    if c.session.stopped then c
    else c.(net := CloseSocket(c.net),
            session := c.session.(stopped := true, idle := c.session.idle.Cancel(),
                                  closes := c.session.closes + 1, cause := Some(cause)))
  }

  function RenewIdle(cfg: Config, c: Conn): Conn {
    c.(net := Noted(c.net, IdleRenewed),
       session := c.session.(idle := c.session.idle.ExpiresAt(At(c.net.now + cfg.idleSeconds))))
  }

  function ReadPacket(cfg: Config, c: Conn): Conn {
    ReadLength(cfg, RenewIdle(cfg, c))
  }

  function Start(cfg: Config, c: Conn): Conn {
    ReadPacket(cfg, c.(session := c.session.(started := true)))
  }

  function WritePacket(cfg: Config, c: Conn, packet: Bytes): Conn {
    var c := RenewIdle(cfg, c);
    AddPacket(c.(session := c.session.(offered := c.session.offered + [packet])), packet)
  }

  /** A buffer that does not decode makes the `Packet` constructor throw; routing a packet changes nothing. */
  function OnPacket(cfg: Config, c: Conn, packet: Bytes): Conn {
    c.(session := c.session.(delivered := c.session.delivered + [packet],
                             crashed := Decode(cfg.order, packet).Failure?))
  }

  // ----- Reader -----

  function ReadLength(cfg: Config, c: Conn): Conn {
    c.(reader := c.reader.(timer := c.reader.timer.ExpiresAt(At(c.net.now + cfg.readSeconds))),
       net := AsyncRead(Noted(c.net, ReadBegun), LengthTarget, PACKET_LENGTH))
  }

  function OnLength(cfg: Config, c: Conn, ec: ErrorCode, got: Bytes): Conn {
    var c := c.(net := Noted(c.net, ReadHandled));
    if !c.net.open then c
    else if ec == NoError then
      if |got| != PACKET_LENGTH then c.(undefined := true)
      else
        var c := c.(reader := c.reader.(packetLength := U32(got, 0)));
        if c.reader.packetLength > MAX_PACKET_SIZE then Stop(c, PacketTooLarge) else ReadBody(cfg, c)
    else if ec != OperationAborted then Stop(c, ReadFailed)
    else c
  }

  /** `vector::resize` */
  function Resized(s: Bytes, n: nat): (r: Bytes)
    ensures |r| == n
  {
    if n <= |s| then s[..n] else s + seq(n - |s|, i => 0)
  }

  function ReadBody(cfg: Config, c: Conn): Conn {
    var size := c.reader.packetLength;
    var buffer := Overwrite(Resized(c.reader.packetBuffer, size + PACKET_LENGTH), 0, Put32(size));
    c.(reader := c.reader.(packetBuffer := buffer,
                           timer := c.reader.timer.ExpiresAt(At(c.net.now + cfg.readSeconds))),
       net := AsyncRead(Noted(c.net, ReadBegun), BodyTarget, size))
  }

  /** By now the operation has stored what it got behind the length in the packet buffer. */
  function OnBody(cfg: Config, c: Conn, ec: ErrorCode, got: Bytes): Conn {
    var c := c.(net := Noted(c.net, ReadHandled));
    if !c.net.open then c
    else if ec == NoError then
      if |c.reader.packetBuffer| != PACKET_LENGTH + |got| then c.(undefined := true)
      else
        var packet := Overwrite(c.reader.packetBuffer, PACKET_LENGTH, got);
        var c := OnPacket(cfg, c.(reader := c.reader.(packetBuffer := [])), packet);
        if c.session.crashed then c else ReadLength(cfg, c)
    else if ec != OperationAborted then Stop(c, ReadFailed)
    else c
  }

  // ----- Writer -----

  function AddPacket(c: Conn, packet: Bytes): Conn {
    c.(net := c.net.(posted := c.net.posted + [packet]))
  }

  /** The closure posted by `add_packet`. */
  function OnPosted(cfg: Config, c: Conn, packet: Bytes): Conn {
    var writing := c.writer.queue != [];
    var c := c.(writer := c.writer.(queue := c.writer.queue + [packet]));
    if writing then c else Write(cfg, c)
  }

  function Write(cfg: Config, c: Conn): Conn {
    if c.writer.queue == [] then c.(undefined := true)
    else
      c.(writer := c.writer.(timer := c.writer.timer.ExpiresAt(At(c.net.now + cfg.writeSeconds))),
         net := AsyncWrite(Noted(c.net, WriteBegun), c.writer.queue[0]))
  }

  function OnWrite(cfg: Config, c: Conn, ec: ErrorCode): Conn {
    var c := c.(net := Noted(c.net, WriteHandled));
    if !c.net.open then c
    else if ec == NoError then
      if c.writer.queue == [] then c.(undefined := true)
      else
        var c := c.(session := c.session.(written := c.session.written + [c.writer.queue[0]]),
                    writer := c.writer.(queue := c.writer.queue[1..]));
        if c.writer.queue != [] then Write(cfg, c)
        else c.(writer := c.writer.(timer := c.writer.timer.ExpiresAt(Never)))
    else if ec != OperationAborted then Stop(c, WriteFailed)
    else c
  }

  // ----- Timers -----

  function TimerOf(c: Conn, w: Watch): Timer {
    match w
    case IdleWatch => c.session.idle
    case ReadWatch => c.reader.timer
    case WriteWatch => c.writer.timer
  }

  function WithTimer(c: Conn, w: Watch, t: Timer): Conn {
    match w
    case IdleWatch => c.(session := c.session.(idle := t))
    case ReadWatch => c.(reader := c.reader.(timer := t))
    case WriteWatch => c.(writer := c.writer.(timer := t))
  }

  /** The handler of `check_idle_timer`, `check_read_deadline` and `check_write_deadline`. */
  function OnTimer(c: Conn, w: Watch, completion: Completion): Conn {
    if completion == Aborted then WithTimer(c, w, TimerOf(c, w).AsyncWait())
    else Stop(c, DeadlinePassed(w))
  }

  // ----- Events -----

  datatype Event =
    | Tick(elapsed: nat)
    | CallStart
    | CallWritePacket(packet: Bytes)
    | RunPosted
    | Receive(i: nat, chunk: Bytes)
    | EndRead(i: nat, ec: ErrorCode)
    | RunReadHandler(i: nat)
    | Send(i: nat, count: nat)
    | EndWrite(i: nat, ec: ErrorCode)
    | RunWriteHandler(i: nat)
    | TimerExpires(watch: Watch)
    | RunTimerHandler(watch: Watch)

  /** An operation in progress ends without error only when complete, and as aborted only by `close`. */
  predicate Enabled(c: Conn, e: Event) {
    && !c.session.crashed
    && match e
       case Tick(_) => true
       case CallStart => !c.session.started
       case CallWritePacket(_) => c.session.started
       case RunPosted => c.net.posted != []
       case Receive(i, chunk) =>
         && i < |c.net.readOps| && c.net.open && c.net.readOps[i].status == Active
         && chunk != [] && |c.net.readOps[i].got| + |chunk| <= c.net.readOps[i].want
       case EndRead(i, ec) =>
         && i < |c.net.readOps| && c.net.open && c.net.readOps[i].status == Active
         && ec != OperationAborted && (ec == NoError ==> |c.net.readOps[i].got| == c.net.readOps[i].want)
       case RunReadHandler(i) => i < |c.net.readOps| && c.net.readOps[i].status.Completed?
       case Send(i, count) =>
         && i < |c.net.writeOps| && c.net.open && c.net.writeOps[i].status == Active
         && count > 0 && c.net.writeOps[i].sent + count <= |c.net.writeOps[i].data|
       case EndWrite(i, ec) =>
         && i < |c.net.writeOps| && c.net.open && c.net.writeOps[i].status == Active
         && ec != OperationAborted && (ec == NoError ==> c.net.writeOps[i].sent == |c.net.writeOps[i].data|)
       case RunWriteHandler(i) => i < |c.net.writeOps| && c.net.writeOps[i].status.Completed?
       case TimerExpires(w) => TimerOf(c, w).Due(c.net.now)
       case RunTimerHandler(w) => TimerOf(c, w).queued != []
  }

  function SetRead(c: Conn, i: nat, op: ReadOp): Conn
    requires i < |c.net.readOps|
  {
    c.(net := c.net.(readOps := c.net.readOps[i := op]))
  }

  function DropRead(c: Conn, i: nat): Conn
    requires i < |c.net.readOps|
  {
    c.(net := c.net.(readOps := c.net.readOps[..i] + c.net.readOps[i + 1..]))
  }

  function SetWrite(c: Conn, i: nat, op: WriteOp): Conn
    requires i < |c.net.writeOps|
  {
    c.(net := c.net.(writeOps := c.net.writeOps[i := op]))
  }

  function DropWrite(c: Conn, i: nat): Conn
    requires i < |c.net.writeOps|
  {
    c.(net := c.net.(writeOps := c.net.writeOps[..i] + c.net.writeOps[i + 1..]))
  }

  function Apply(cfg: Config, c: Conn, e: Event): Conn
    requires Enabled(c, e)
  {
    match e
    case Tick(elapsed) => c.(net := c.net.(now := c.net.now + elapsed))
    case CallStart => Start(cfg, c)
    case CallWritePacket(packet) => WritePacket(cfg, c, packet)
    case RunPosted => OnPosted(cfg, c.(net := c.net.(posted := c.net.posted[1..])), c.net.posted[0])
    case Receive(i, chunk) =>
      var op := c.net.readOps[i];
      var c := SetRead(c, i, op.(got := op.got + chunk));
      c.(net := c.net.(received := c.net.received + chunk))
    case EndRead(i, ec) => SetRead(c, i, c.net.readOps[i].(status := Completed(ec)))
    case RunReadHandler(i) =>
      var op := c.net.readOps[i];
      if op.target == LengthTarget then OnLength(cfg, DropRead(c, i), op.status.ec, op.got)
      else OnBody(cfg, DropRead(c, i), op.status.ec, op.got)
    case Send(i, count) =>
      var op := c.net.writeOps[i];
      var c := SetWrite(c, i, op.(sent := op.sent + count));
      c.(net := c.net.(wire := c.net.wire + op.data[op.sent..op.sent + count]))
    case EndWrite(i, ec) => SetWrite(c, i, c.net.writeOps[i].(status := Completed(ec)))
    case RunWriteHandler(i) => OnWrite(cfg, DropWrite(c, i), c.net.writeOps[i].status.ec)
    case TimerExpires(w) => WithTimer(c, w, TimerOf(c, w).Expire())
    case RunTimerHandler(w) =>
      OnTimer(WithTimer(c, w, TimerOf(c, w).Take()), w, TimerOf(c, w).queued[0])
  }

  /** An event that is not enabled leaves the state alone. */
  function Next(cfg: Config, c: Conn, e: Event): Conn {
    if Enabled(c, e) then Apply(cfg, c, e) else c
  }

  function Run(cfg: Config, c: Conn, es: seq<Event>): Conn
    decreases |es|
  {
    if es == [] then c else Run(cfg, Next(cfg, c, es[0]), es[1..])
  }

  lemma {:induction false} RunAppend(cfg: Config, c: Conn, es: seq<Event>, fs: seq<Event>)
    ensures Run(cfg, c, es + fs) == Run(cfg, Run(cfg, c, es), fs)
    decreases |es|
  {
    if es == [] {
      assert es + fs == fs;
    } else {
      RunAppend(cfg, Next(cfg, c, es[0]), es[1..], fs);
      assert (es + fs)[1..] == es[1..] + fs;
    }
  }
}
