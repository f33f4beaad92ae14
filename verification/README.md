# Packet codec, connection engine and admission of a TCP server, verified

A Dafny model of the parts of `scalable-tcp-server` that carry its protocol: the binary packet format
(`common/packet.cpp`), the handlers of one connection (`src/network/reader.cpp`, `src/network/writer.cpp`,
`src/session/session.cpp`) and the admission of connections (`src/server/server.cpp`). `dafny verify
dfyconfig.toml` checks all of it.

## How it is organised

| file | content |
|---|---|
| `Wrappers.dfy`, `ByteOrder.dfy` | optional values and errors; bytes, host-order memory copies, network order |
| `SubHeaders.dfy` | the record language of the sub header area: parser, encoder, first-match lookup |
| `Packets.dfy` | what a buffer decodes to, what creation emits, round trip, acceptance set, normal form |
| `PacketObjects.dfy` | class `Packet`: field-by-field constructor, parsing loop with a 16-bit counter, getters, factory |
| `Framing.dfy` | the one-shot deframer: soundness, prefixes of a stream, how much of it is needed |
| `Conventions.dfy` | both conventions for the length field: created packets on a stream, Reader's limit, conforming senders |
| `SteadyTimers.dfy` | timers: deadline, outstanding waits, queued completions |
| `Connections.dfy` | state of one connection, its handlers as functions, events, runs |
| `SessionTheorems.dfy` | what every handler keeps, one close, nothing after the stop, one wait per timer |
| `WriterTheorems.dfy` | first in first out, single flight, failed writes, progress |
| `ReaderTheorems.dfy` | the reader refines the deframer, end to end |
| `ReaderProgress.dfy` | bounded steps, every stream can be received, streams of created packets |
| `Deadlines.dfy` | what a timeout means, and that an overdue operation is stopped |
| `Peers.dfy` | two connections: what one session writes, the other hands over |
| `Operations.dfy` | what each step does to calls, operations and deadlines; the deadline theorems in these terms |
| `ConnectionObjects.dfy` | classes `Session`, `Reader`, `Writer`: the handlers on linked objects, and whole runs of them |
| `Admission.dfy` | accept chain, counter and registry under interleaving |
| `ServerObjects.dfy` | class `Server`: its atomic steps, the accept handler made of them, the chain of accept handlers |

The source's objects are classes whose methods update fields in the source's order. Each method is proved to turn
the state it represents into the value of a function, and the theorems are about those functions: over all buffers
for the codec, over all sequences of events for the connection, over all interleavings of atomic steps for the server.

## What is assumed

- **Host byte order** is a parameter, and both ends of a connection may differ in it. `sub_header_size` is read without
  conversion, so the record language depends on it; every other field is proved independent of it.
- **Buffers of any length.** The 32-bit `packet_size_` truncates the buffer length, and the model does too.
- **The I/O library** is a set of rules for events: `async_read` and `async_write` move bytes in arbitrary portions
  and end without error only when complete; an operation is reported as aborted only after `close`; moving or
  cancelling a timer completes its outstanding waits as aborted and leaves queued completions alone; handlers of one
  connection never overlap; posted closures run in order. Other handlers run in any order.
- **Time** is a counter advanced by events. Timeouts and `max_sessions` are arbitrary.
- **Initial state.** The constructors of `Session`, `Reader` and `Writer` call `shared_from_this()` before the object
  is owned (src/session/session.cpp:39, src/network/reader.cpp:27, src/network/writer.cpp:29), which cannot succeed.
  The model starts where they intend to get: each timer at maximum with one wait started.
- **Exceptions.** An exception of the `Packet` constructor leaves the read handler; the run ends there.

## Where the code differs from what one would expect

- `Packet::create` writes the total size into bytes 0..3; `Reader` reads that many bytes after the prefix
  (src/network/reader.cpp:84-95). Theorems about the stream use Reader's convention; what happens with the other one
  is `Conventions.CreatedPacketStarves`, `Conventions.CreatedPacketAbsorbs` and `ReaderTheorems.CreatedPacketIsHeld`.
  No stream of created packets gets past the second packet: with version v1 it is read as a length over the limit, with
  a version that has no name as the length of a frame that is then rejected
  (`Conventions.SecondCreatedPacketEnds`, `ReaderProgress.CreatedStreamStops`).
- Reader's limit is ten bytes below what the constructor accepts: `Conventions.ReaderLimit`,
  `Conventions.AcceptedButRefused`.
- `sub_header_size` has the byte order of the host that wrote it. A host of the other order reads the same record list
  exactly if every size is a multiple of 257: `SubHeaders.ReadElsewhere`, `Packets.DecodeElsewhere`; one byte of value
  is enough to fail: `SubHeaders.OneByteElsewhere`.
- `create` gives `Auth` and `Account` packets, and values of the enumerations that have no name, a byte the constructor
  rejects: `Packets.CreateThenDecode`.
- No timer handler looks at its deadline again: an expiry already queued stops the session although the deadline has
  moved: `Deadlines.ExpiryStopsWhateverTheDeadline`, `Deadlines.StoppedAheadOfDeadline`.
- The `Action` sub header that `AuthHandler` asks for is not a recognised type: `Packets.ActionNeverFound`.
- A buffer of 4 GiB or more is accepted on its length modulo 2^32: `Packets.PartsCoverBuffer`.
- Nothing calls `remove_connection`, so capacity never comes back: `Admission.CapacityLeft` says exactly when another
  session is still possible, and `Admission.ExhaustedByStoppedSessions` gives, for every limit, a run that uses it up.
- A session that stops between its start and its insertion stays registered: `Admission.RegistryAccuracy`,
  `Admission.LeftoverPossible`.
- `TODO.md` asks for a compare-and-exchange to enforce the limit; with one accept chain the separate check and
  increment already do: `Admission.AdmissionBound`.

## Model

| member | source | states |
|---|---|---|
| ByteOrder.NetworkLoad32 | common/packet.cpp:63-64 | copying four bytes out and `ntohl` give the big-endian value on a host of either byte order |
| ByteOrder.NetworkStore32 | common/packet.cpp:113-126 | `htonl` and copying out write the big-endian bytes on a host of either byte order |
| SubHeaders.SubHeaderTypeBytes | common/packet.cpp:259-289 | byte 10 is SessionId, 11 UserId and 12 AuthToken, in both directions, no other byte is recognised, and every type except `Action` survives the trip through its byte |
| SubHeaders.FrontRecord | common/packet.cpp:147-191 | size, type and value of a parsed record, byte by byte and for each host byte order |
| SubHeaders.FrontError | common/packet.cpp:147-182 | which error a record that is cut short, too large or of unknown type gives, the first thing wrong being the one reported |
| SubHeaders.GettersMeaning | common/packet.cpp:203-256 | from the bytes of the first match: the string getter gives them, the byte getter the byte if there is one, the 32-bit getter the big-endian value if there are four; without a match all give nothing |
| SubHeaders.ParseOfEncode | common/packet.cpp:137-201 | parsing the encoding of a well-formed record list gives the list back, for either byte order |
| SubHeaders.EncodeOfParse | common/packet.cpp:137-201 | a parsed area is byte for byte the encoding of its records, and these are well formed |
| SubHeaders.ParserExactness | common/packet.cpp:137-201 | parsing succeeds exactly on concatenations of size/type/value records with types 10, 11 or 12 |
| SubHeaders.UniqueDecomposition | common/packet.cpp:137-201 | an area is the encoding of at most one record list |
| SubHeaders.ParseFails | common/packet.cpp:147-182 | behind any number of good records, the error reported is that of the first bad one |
| SubHeaders.FirstValueMeaning | common/packet.cpp:203-256 | lookup finds nothing exactly if no record has the type, and otherwise the value at the first position that has it |
| SubHeaders.MisSizedFirstMatchHides | common/packet.cpp:203-240 | a first match of the wrong size makes the integer getters empty-handed whatever follows |
| SubHeaders.ReadElsewhere | common/packet.cpp:152-154 | a record list encoded on one host is read as the same list on a host of the other byte order exactly if the size of every value is a multiple of 257 |
| SubHeaders.OneByteElsewhere | common/packet.cpp:152-182 | a record with one byte of value, well formed on a little-endian host, is an incomplete value on a big-endian one |
| Packets.AcceptanceSet | common/packet.cpp:34-75 | the constructor accepts exactly the buffers with at least 14 bytes, version 1, type 1 to 3, header size at most 1024 and within the buffer, payload at most 1 MiB, and a header area in the record language, lengths taken modulo 2^32 |
| Packets.DecodedFields | common/packet.cpp:34-75 | every field of an accepted buffer from the bytes at its offset; type byte 1 is Text, 2 File, 3 Video |
| Packets.DecodeErrors | common/packet.cpp:39-74 | which error a rejected buffer gives, the first thing wrong being the one reported; flags are never wrong |
| Packets.IgnoredBytes | common/packet.cpp:37-73 | bytes 0..3 and 8..9 influence neither acceptance, nor the error, nor any field |
| Packets.DecodedType | src/router/router.cpp:17-31 | no decoded packet is routed to `AuthHandler`: its type is Text, File or Video, and routing falls through to the empty default |
| Packets.ActionNeverFound | src/components/auth/auth_handler.cpp:26-33 | no decoded packet has an `Action` sub header |
| Packets.CreateSucceeds | common/packet.cpp:85-108 | creation succeeds exactly for no flags, sizes within the limits, and any version and type but the ones named Unknown; a version or type without a name passes and is emitted as byte 0 |
| Packets.CreatedBytes | common/packet.cpp:110-133 | every byte of a created packet: total size, version, type 1 for Text, 2 for File, 3 for Video and else 0, header size, zero flags, sequence id, each big-endian, header area, payload |
| Packets.CreateErrors | common/packet.cpp:85-108 | which error refused arguments give, the first thing wrong being the one reported |
| Packets.CreateThenDecode | common/packet.cpp:77-134 | created bytes decode to exactly the given fields if the version is v1, the type Text, File or Video, and the header area well formed; they are rejected otherwise, another version or type with the error for it |
| Packets.RoundTrip | common/packet.cpp:34-134 | creating from any fields, record list and payload within the limits and decoding returns all of them |
| Packets.DecodeElsewhere | common/packet.cpp:34-75 | hosts of different byte order that accept the same buffer agree on every field but the record list, and on all exactly if every sub header size is a multiple of 257 |
| Packets.RoundTripElsewhere | common/packet.cpp:34-134 | creating on one host and decoding on another of different byte order returns fields, record list and payload exactly if every sub header size is a multiple of 257 |
| Packets.NormalForm | common/packet.cpp:77-134 | recreating an accepted buffer from its decoded parts changes only bytes 0..3, to the total size, and 8..9, to zero |
| Packets.NormalFormStable | common/packet.cpp:34-134 | recreating preserves every decoded field, and doing it twice is doing it once |
| Packets.PartsCoverBuffer | common/packet.cpp:37-70 | fixed part, header area and payload make up the whole accepted buffer exactly if it is shorter than 4 GiB |
| Packets.LongBufferIsCut | common/packet.cpp:37 | a buffer of 4 GiB and 14 bytes is accepted with an empty payload |
| PacketObjects.Packet.Initialize | common/packet.cpp:34-75 | the constructor's steps on host-order integers give exactly the decoded fields, or the specified error |
| PacketObjects.Packet.ReadFixedPart | common/packet.cpp:37-72 | the checks and conversions up to the sub headers, with the error of the first failing check |
| PacketObjects.Packet.ParseSubHeaders | common/packet.cpp:137-201 | the loop ends, lists exactly the records of the area with spans tiling it, never wraps its counter, never reads outside the area, and its final check never fires |
| PacketObjects.Packet.PushSubHeader | common/packet.cpp:144-192 | one pass lists the record at the counter and moves the counter behind it, or reports the error of the whole area |
| PacketObjects.Packet.NextSubHeader | common/packet.cpp:147-182 | one pass reads exactly the record at the counter, or reports what is wrong with it |
| PacketObjects.Packet.SpansFillHeaderArea | common/packet.cpp:184-193 | at most 341 spans, ordered, disjoint, inside the header area, and together with their three-byte prefixes filling it |
| PacketObjects.Packet.SubHeaderGetUint8 | common/packet.cpp:203-220 | the first match's only byte, or nothing |
| PacketObjects.Packet.SubHeaderGetUint32 | common/packet.cpp:222-240 | the first match read big-endian if it has four bytes, or nothing, on a host of either byte order |
| PacketObjects.Packet.SubHeaderGetString | common/packet.cpp:242-256 | the first match's bytes, or nothing |
| PacketObjects.Packet.Create | common/packet.cpp:77-134 | the six copies into the field buffer emit the specified bytes on a host of either byte order, or the specified error |
| PacketObjects.CreateAndRead | common/packet.cpp:77-256 | on a packet created from an encoded record list, every getter is first-match lookup on that list |
| Framing.DeframeFront | src/network/reader.cpp:45-95 | the first four bytes, read big-endian, decide: over the limit the stream is refused, otherwise that many bytes behind them are waited for and handed over with them |
| Framing.DeframeFlat | src/network/reader.cpp:45-115 | acceptable frames in front of any stream come out one by one and unchanged |
| Framing.DeframeSound | src/network/reader.cpp:45-115 | the frames are a prefix of the stream, and all but a rejected last one decode |
| Framing.PacketsComeOut | src/network/reader.cpp:45-115 | the concatenation of packets in Reader's convention is cut into exactly these packets |
| Framing.DeframeEnded | src/network/reader.cpp:45-74 | where the stream ends in a refused frame or length, nothing behind matters |
| Framing.DeframePrefix | src/network/reader.cpp:45-115 | a part of a stream gives the first of its frames, and refuses nothing that the whole does not refuse |
| Framing.DeframeExtent | src/network/reader.cpp:45-115 | deframing needs to see no more than its frames, and the length it refuses; cut there, the stream gives the same |
| Conventions.CreatedPacketStarves | common/packet.cpp:110-121 | behind a created packet Reader takes four bytes more before handing it over, or refuses it as too large |
| Conventions.CreatedPacketAbsorbs | common/packet.cpp:110-121 | these four bytes end up at the end of the packet's payload, unless that makes it too long or version, type or header area are rejected, each with its error |
| Conventions.CutLate | common/packet.cpp:110-126 | cut four bytes late, a created packet is refused as too large exactly if its version has a name, and otherwise read as a frame of the length its type and header size spell, which is rejected |
| Conventions.SecondCreatedPacketEnds | common/packet.cpp:110-126 | for every two created packets and anything behind them: the stream ends with the second one, in one of these ways, or before it if the constructor rejects the first frame or Reader its length |
| Conventions.ReaderLimit | src/network/reader.cpp:48-57 | of the packets the constructor accepts whose bytes 0..3 hold total minus four, Reader passes exactly those whose header area and payload leave ten bytes of the limit |
| Conventions.AcceptedButRefused | src/network/reader.cpp:48-57 | there is a created packet, with total minus four in bytes 0..3, that the constructor accepts and Reader refuses |
| Conventions.ReframedIsFrame | src/network/reader.cpp:45-95 | a created packet with total minus four in bytes 0..3 decodes as before, and Reader passes it exactly if it decodes and leaves the ten bytes |
| Conventions.SentComesOut | src/network/reader.cpp:45-115 | any list of fields, record lists and payloads within the limits, sent as such packets, comes out of the stream packet by packet, each decoding to what was to be sent |
| SessionTheorems.NextCore | src/network/reader.cpp:30-126 | every handler keeps: one read while the session runs, into a buffer large enough; one write of the queue's front exactly while the queue is not empty; stopped exactly if closed |
| SessionTheorems.SessionSafety | src/session/session.cpp:73-86 | over all runs: `on_close_` runs at most once and exactly if the session is stopped, which is exactly if the socket is closed; no empty queue is popped, no buffer overrun, no overlapping operations |
| SessionTheorems.NothingAfterStop | src/session/session.cpp:73-86 | over all continuations of a stopped run: no second close, no `on_packet`, no byte received or sent, whatever is still written |
| SessionTheorems.TimerChains | src/network/writer.cpp:88-109 | over all runs: each timer has exactly one pending or queued wait until its first expiry is handled, none afterwards, and the session is then stopped |
| WriterTheorems.WriterFifo | src/network/writer.cpp:32-85 | over all runs: the wire carries a prefix of the packets in the order of `write_packet`, which are those written, queued and posted, in that order |
| WriterTheorems.WriterSingleFlight | src/network/writer.cpp:48-73 | while the socket is open: one write in flight exactly if the queue is not empty and exactly if the deadline is finite, and its buffer is the queue's front |
| WriterTheorems.FailedWriteFreezesWire | src/network/writer.cpp:74-83 | after a failed write the wire never changes again and the failed packet stays at the front of the queue |
| WriterTheorems.NextMeasure | src/network/writer.cpp:32-85 | without `write_packet`, without a failed write and as long as the socket stays open, every writer step lowers the measure of what is left, and no other step raises it |
| WriterTheorems.WriterProgress | src/network/writer.cpp:32-85 | without new packets and failures the writer takes boundedly many steps, and where it can take no more, queue and postings are empty, every packet is on the wire and the deadline is at maximum |
| WriterTheorems.WriterDrains | src/network/writer.cpp:32-73 | from every reachable state in which the session runs and no write has failed, writer steps alone can put every packet on the wire and leave nothing over |
| ReaderTheorems.ReaderRefinesDeframer | src/network/reader.cpp:30-126 | over all runs: the buffers handed over are the deframer's frames on the bytes received, short of at most the last; waiting for bytes, ending by exception and ending by an oversized length are the deframer's |
| ReaderTheorems.ReaderConservation | src/network/reader.cpp:77-115 | while the session runs, the bytes received are the delivered buffers followed by the frame in progress with its prefix |
| ReaderTheorems.ChunkingDoesNotMatter | src/network/reader.cpp:30-126 | of two ways of receiving the same bytes neither is ever ahead by more than one buffer, and once through they have delivered the same buffers and ended alike: waiting, by exception, or by an oversized length |
| ReaderTheorems.ReadsNoFurther | src/network/reader.cpp:30-126 | over all runs on any part of a given stream: nothing but its frames in order is delivered, nothing is refused that the deframer does not refuse, no byte is received behind what it needs, and once through with these all frames are delivered and the end is the deframer's |
| ReaderTheorems.EndToEnd | src/network/reader.cpp:30-126 | receiving the concatenation of acceptable packets delivers exactly these, in order, with no exception and no refusal |
| ReaderTheorems.CreatedPacketIsHeld | src/network/reader.cpp:84-95 | a packet received with the length `create` wrote is not delivered, and the read outstanding lacks exactly four bytes |
| ReaderProgress.NextPays | src/network/reader.cpp:30-126 | every step of the reader is paid for by bytes received, four for each length, up to a bounded credit |
| ReaderProgress.ReaderBounded | src/network/reader.cpp:30-126 | over all runs: the reader takes at most as many steps as bytes arrive, and six; where no read failed and it can take none, it has handed over all it can |
| ReaderProgress.FeedAllOk | src/network/reader.cpp:30-126 | a running reader can be fed any bytes one by one, and takes all of them unless it refuses a frame |
| ReaderProgress.EveryStreamIsServed | src/network/reader.cpp:30-126 | for every stream there is a run that delivers exactly the deframer's frames and waits, throws or refuses exactly as the deframer ends |
| ReaderProgress.PacketsAreDelivered | src/network/reader.cpp:30-126 | for every list of acceptable packets there is a run that receives their concatenation and delivers exactly them |
| ReaderProgress.MessagesAreDelivered | src/network/reader.cpp:30-126 | for every list of fields, record lists and payloads within the limits there is a run that delivers packets decoding to exactly them |
| ReaderProgress.CreatedStreamStops | src/network/reader.cpp:45-95 | over all runs on a stream of any two created packets and anything behind: at most two buffers are delivered, no byte is received behind the ones that settle it, and once through with these the reader has refused a length, thrown, or waits, as the two packets decide |
| ReaderProgress.CreatedStreamIsServed | src/network/reader.cpp:45-95 | such runs exist for every two created packets; the session is stopped, throws or waits exactly according to their versions, types, sizes and header areas |
| Peers.PeerDelivery | src/network/writer.cpp:32-85 | over all pairs of runs: of acceptable packets given to `write_packet` of one session, the session at the other end of the wire hands over a prefix, in order, with no exception and no refusal, and all of them once all have arrived |
| Peers.PeersDeliverAll | src/network/writer.cpp:32-85 | such runs exist for every list of messages within the limits, and each buffer handed over decodes to its message, on hosts of different byte orders if the record lists are portable |
| Deadlines.TimeoutMeansLate | src/network/writer.cpp:88-109 | over all runs, completions already queued included: the history of a session stopped by a timer shows a write, or a read, with no handler run for the configured time, or no `start` or `write_packet` for that time |
| Deadlines.DeadlinesAreArmed | src/session/session.cpp:54-71 | while the session runs, the idle and read deadlines are finite, and each finite deadline is the configured time after the start of a clock nothing has ended |
| Deadlines.OverdueStops | src/session/session.cpp:88-103 | in every reachable state with a passed deadline, whatever completion is queued, at most three steps of its timer stop the session and name the timer |
| Deadlines.ExpiryStopsWhateverTheDeadline | src/session/session.cpp:91-102 | a timer's handler stops a running session exactly if the completion queued is an expiry, wherever the deadline is |
| Deadlines.StoppedAheadOfDeadline | src/session/session.cpp:66-71 | there is a run in which `write_packet` moves the idle deadline and the expiry queued before still stops the session |
| Operations.CallsRenewIdle | src/session/session.cpp:54-71 | every call of `start` or `write_packet`, whatever is queued, sets the idle deadline to the configured time from now, and no other step moves it |
| Operations.CallPosts | src/session/session.cpp:66-71 | every call of `write_packet` posts its packet and leaves queue and operations alone |
| Operations.StepIsClocked | src/network/writer.cpp:48-73 | every step that starts a read or a write sets that deadline to the configured time from now, the write deadline rests once the queue runs empty, and no other step moves them; the history has exactly the calls, starts and handler runs |
| Operations.StopsAreProper | src/session/session.cpp:73-86 | every step that stops a session closes the socket, leaves no operation in progress, cancels the idle timer's wait, runs `on_close_` once, and leaves the other timers, queue and postings alone |
| Operations.TimeoutMeansOverdueOperation | src/network/writer.cpp:48-109 | over all runs: if the write or read timer stopped the session, a step of the run started a write or read and no step ran its handler for the configured time; if the idle timer did, a step called `start` or `write_packet` and no step did for that time |
| Operations.DeadlineMeansRunningOperation | src/network/reader.cpp:30-95 | over all runs: while the session runs, the idle and read deadlines, and the write deadline while a write is in flight, are the configured time after the step that called or started the operation, which no step has ended |
| ConnectionObjects.Session.Start | src/session/session.cpp:42-51 | makes reader and writer, renews the idle deadline and starts the first read |
| ConnectionObjects.Session.ReadPacket | src/session/session.cpp:54-58 | whole new state: idle deadline renewed, read of a length started |
| ConnectionObjects.Session.OnPacket | src/session/session.cpp:60-64 | the buffer counts as handed over, and the call throws exactly if it does not decode |
| ConnectionObjects.Session.WritePacket | src/session/session.cpp:66-71 | whole new state: idle deadline renewed, closure posted |
| ConnectionObjects.Session.Stop | src/session/session.cpp:73-86 | nothing if already stopped, otherwise flag, socket, idle timer and one call of `on_close_` |
| ConnectionObjects.Session.OnIdleTimer | src/session/session.cpp:88-103 | an aborted wait is started again, any other completion stops the session |
| ConnectionObjects.Reader.ReadLength | src/network/reader.cpp:30-75 | whole new state: read deadline moved, read of four bytes started |
| ConnectionObjects.Reader.OnLength | src/network/reader.cpp:38-74 | nothing on a closed socket; the big-endian length starts the body read or, above the limit, stops the session; an error stops it |
| ConnectionObjects.Reader.ReadBody | src/network/reader.cpp:77-126 | whole new state: buffer resized with the length in front in network order, read deadline moved, body read started |
| ConnectionObjects.Reader.OnBody | src/network/reader.cpp:96-124 | nothing on a closed socket; a complete frame is handed over and the next length read started unless the packet throws; an error stops the session |
| ConnectionObjects.Reader.OnReadTimer | src/network/reader.cpp:128-149 | an aborted wait is started again, any other completion stops the session |
| ConnectionObjects.Writer.AddPacket | src/network/writer.cpp:32-46 | the closure is posted, nothing else |
| ConnectionObjects.Writer.OnPosted | src/network/writer.cpp:37-44 | the packet joins the queue, and a write starts if none was in progress |
| ConnectionObjects.Writer.Write | src/network/writer.cpp:48-57 | whole new state: write deadline moved, write of the queue's front started |
| ConnectionObjects.Writer.OnWrite | src/network/writer.cpp:57-84 | nothing on a closed socket; success pops the queue and starts the next write or rests the deadline; an error stops the session |
| ConnectionObjects.Writer.OnWriteTimer | src/network/writer.cpp:88-109 | an aborted wait is started again, any other completion stops the session |
| ConnectionObjects.Dispatch | src/network/writer.cpp:32-109 | every event finds the objects' handlers in a state that meets their preconditions and makes exactly the system's step |
| ConnectionObjects.DispatchAll | src/network/writer.cpp:32-109 | any number of events, each where it can happen, take the objects through exactly the system's run |
| ConnectionObjects.FeasibleRuns | src/session/session.cpp:42-103 | every run reaches the state of one whose events can all happen, so every reachable state is one of the objects |
| ConnectionObjects.Operate | src/session/session.cpp:18-51 | a session made and operated from its first moment represents the run's state; `on_close_` has run at most once, exactly if it is stopped, exactly if the socket is closed |
| Admission.NextCount | src/server/server.cpp:150-167 | every step keeps the counter equal to admissions less decrements and within its bound; increments and decrements never wrap |
| Admission.AdmissionBound | src/server/server.cpp:150-167 | over all interleavings, removals included: the counter is at most `max_sessions` and equals admissions less decrements |
| Admission.CounterNeverWraps | src/server/server.cpp:150-167 | no step of any run takes the counter through zero or through its upper limit |
| Admission.RegistryWithinCount | src/server/server.cpp:77-135 | as coded: registered sessions are at most the counter, which is at most `max_sessions` |
| Admission.CapacityLeft | src/server/server.cpp:150-159 | as coded, over all runs: some continuation makes another session exactly if the increment has been made, or the counter is below the limit and the chain is before its increment or will accept again |
| Admission.CapacityNeverReturns | src/server/server.cpp:150-167 | as coded: after `max_sessions` sessions no run makes another, whatever sessions end |
| Admission.StopEndsAdmission | src/server/server.cpp:144-148 | over all interleavings: after `stop` the acceptor stays closed and no session is made but the one a handler is already admitting, which the counter alone then decides |
| Admission.RemovalReturnsCapacity | src/server/server.cpp:161-167 | were `remove_connection` called for a session, the counter would fall by exactly one |
| Admission.ShortLivesRun | src/server/server.cpp:98-142 | for every limit and every number of sessions within it there is a run, as coded, after which all of them have stopped and stay registered |
| Admission.ExhaustedByStoppedSessions | src/server/server.cpp:77-142 | as coded, for every limit: a run after which all `max_sessions` registered sessions are stopped ones and no other is ever made |
| Admission.RegistryAccuracy | src/server/server.cpp:98-142 | over all interleavings: every inserted, running session is registered; once all closings are through, the stopped ones still registered are those closed before their insertion |
| Admission.LeftoverSession | src/server/server.cpp:106-112 | from every state between start and insertion such a leftover can arise |
| Admission.LeftoverPossible | src/server/server.cpp:98-112 | as coded, some run has such a leftover exactly if the limit is not zero |
| ServerObjects.Server.OnAccept | src/server/server.cpp:81-91 | the handler returns on a closed acceptor, listens again on an error, goes on otherwise |
| ServerObjects.Server.CheckCount | src/server/server.cpp:152-155 | below the limit the connection may go on, otherwise it is rejected and the chain listens again |
| ServerObjects.Server.IncrementCount | src/server/server.cpp:157-158 | the counter grows by exactly one and stays within the limit |
| ServerObjects.Server.StartSession | src/server/server.cpp:98-106 | a new session that is not registered yet runs |
| ServerObjects.Server.InsertSession | src/server/server.cpp:108-112 | the session is registered and the chain listens again |
| ServerObjects.Server.RemoveSession | src/server/server.cpp:137-142 | the session is no longer registered, all others are |
| ServerObjects.Server.Stop | src/server/server.cpp:144-148 | the acceptor is closed |
| ServerObjects.Server.LoadForRemoval | src/server/server.cpp:163 | called once per admitted session, the check finds the counter positive |
| ServerObjects.Server.DecrementForRemoval | src/server/server.cpp:165 | the counter falls by exactly one |
| ServerObjects.Server.Others | src/server/server.cpp:137-167 | any number of other threads' steps are the run of the ones that can be taken, and leave the accept chain where it is |
| ServerObjects.Server.AddConnection | src/server/server.cpp:150-159 | whatever other threads do between check and increment, the increment follows exactly if the check found the counter below the limit, and is a run of the interleaved steps |
| ServerObjects.Server.OnAccepted | src/server/server.cpp:81-133 | the whole handler under interference between any two of its steps is the run of the interleaving; it makes one session exactly if the acceptor is open, there is no error and the counter is below the limit at the check; it listens again unless the acceptor was closed |
| ServerObjects.Serve | src/server/server.cpp:71-135 | the chain of handlers over any completions, under interference, is a run from the initial state; the counter keeps the limit and, as coded, the registry the counter |

## Left out

- A client: the source has none. A sender that keeps Reader's convention is a created packet with its first four bytes
  replaced (`Conventions.Reframed`).
- Boost.Asio, sockets and clocks themselves: their documented behaviour is the event rules above.
- `start` and `write_packet` called from other threads: both are steps of the connection's executor here, although the
  accept handler calls `start` outside the session's strand.
- The session gone before a handler runs (`weak_ptr::lock` failing): objects outlive their handlers here.
- `tcp::socket::remote_endpoint` throwing in the accept handler.
- `AuthHandler`, `AuthService`, the MySQL repository and the archive format of `LoginRequest`: not reachable from a
  decoded packet.
- Config, Logger, LanguageProvider, Validation, Application, ThreadPool, BufferPool: plumbing and library calls.
- Uninitialised memory: `packet_length_` starts as zero; it is read only after the first complete length.
