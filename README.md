# bytefunk TCP skeleton: framing loop and admission control

This project models the two sequential pieces of the bytefunk TCP server
skeleton and proves properties of them:

- **Session** (`session.dfy`, module `SessionCore`, with the wire format in
  `framing.dfy`, module `Framing`). A connection's `run` registers with the
  server, then loops while `active`. Each pass reads a two-byte big-endian
  signed length (`DataInput.readShort`). The loop stops on end of stream, or
  on a length outside `[MIN_MSG_LENGTH, MAX_MSG_LENGTH]`. Otherwise it reads
  up to that many payload bytes with `readNBytes`, which returns a short
  payload when the stream ends first, and hands them to the handler. After
  the loop it terminates and unregisters.
  - The socket input is the sequence of bytes the peer sends, read through a
    cursor.
  - The output is the sequence of bytes written.
  - The handler is represented by its reaction to each message: nothing, one
    `send` whose write may fail, or `terminate`.
  - `Frames` and `Serve` are the pure specifications of the loop.
    `Session.Receive` is the loop itself, proved to compute `Serve`.
    `Session.Run` is the whole `run`, with its event trace Connected,
    Message…, SocketClosed, Disconnected.
- **Server** (`server.dfy`, module `ServerCore`). This covers the accept loop,
  the admit-or-reject decision, the registry (`ArrayList<Session>`, modelled
  as a sequence of session identities), `onConnected`, `onDisconnected` and
  `shutdown`.
  - The accept loop runs over a schedule of steps: an accepted socket, a
    failed accept, a session ending between two accepts, or another thread
    calling `shutdown`.
  - The pure function `Schedule` specifies what the loop does over the
    schedule. `Server.Run` is proved to compute it.

A registry of live sessions is naturally a set, but the code keeps it in an
`ArrayList`, where `remove(Object)` drops only the first occurrence. The model
follows the code: the registry is a sequence, and removal takes out the first
occurrence.

## Model

| member | source | states |
|---|---|---|
| Framing.EncodeShort | src/main/java/dev/slppz/bytefunk/sample/SampleClient.java:17-20 | `writeShort` puts exactly two bytes on the wire |
| Framing.DecodeShort | src/main/java/dev/slppz/bytefunk/net/Session.java:51 | the value `readShort` decodes from two bytes is the signed 16-bit value whose big-endian encoding is those bytes; it is negative exactly when the high byte's top bit is set |
| Framing.DecodeEncodeShort | src/main/java/dev/slppz/bytefunk/net/Session.java:51 | decoding the two bytes written for any `short` gives that `short` back |
| Framing.Encode | src/main/java/dev/slppz/bytefunk/sample/SampleClient.java:17-22 | frames on the wire take at least their two-byte headers |
| Framing.EncodeAppend | src/main/java/dev/slppz/bytefunk/sample/SampleClient.java:17-22 | writing one more frame appends its bytes after those of the earlier frames |
| Framing.ReadFrame | src/main/java/dev/slppz/bytefunk/net/Session.java:51-61 | one pass of the loop body. It ends at end of stream exactly when fewer than two bytes remain. It stops on a bad length exactly when the decoded length is outside the bounds, and carries that length. Otherwise the frame it delivers re-encodes to the bytes consumed. Its declared length is in bounds, and its payload is no longer than declared. A short payload only happens at the end of the stream. A read never stops by termination |
| Framing.Frames | src/main/java/dev/slppz/bytefunk/net/Session.java:48-63 | the frames delivered, re-encoded, are a prefix of the stream. Reading at the point reached stops for the reason returned. Every frame is in bounds and no longer than declared. Only the last frame can be short, and then the stream is used up |
| Framing.FramesOf | src/main/java/dev/slppz/bytefunk/sample/SampleClient.java:17-22 | the frames written for messages carry those messages, each declaring its own length |
| Framing.FramesRoundTrip | src/main/java/dev/slppz/bytefunk/net/Session.java:48-63 | reading the frames written for messages whose lengths are in bounds gives back exactly those frames, then end of stream |
| Framing.SampleClientMessage | src/main/java/dev/slppz/bytefunk/sample/SampleClient.java:17-22 | the sample client's stream (length 6, opcode -1, "blah") is one message `FF FF 'b' 'l' 'a' 'h'` then end of stream, whenever 6 is within bounds |
| SessionCore.ServeFollowsFrames | src/main/java/dev/slppz/bytefunk/net/Session.java:48-63 | a session delivers a prefix of the stream's frames, in stream order. When the handler does not terminate it, it delivers all of them and stops as `Frames` does |
| SessionCore.ServeHaltsAtReaction | src/main/java/dev/slppz/bytefunk/net/Session.java:48-63 | the run ends by termination exactly when the reaction to the last delivered message halts the session, and no earlier reaction halts it |
| SessionCore.ServeWrites | src/main/java/dev/slppz/bytefunk/net/Session.java:77-85 | the bytes written are exactly the successful replies to the delivered messages, in order |
| SessionCore.SessionRoundTrip | src/main/java/dev/slppz/bytefunk/net/Session.java:48-63 | with a handler that never terminates, a session reading frames written for in-bounds messages hands over exactly those payloads and ends at end of stream |
| SessionCore.OutOfBoundsDeliversNothing | src/main/java/dev/slppz/bytefunk/net/Session.java:53 | a first length outside the bounds ends the run with that length, with nothing delivered and nothing written |
| SessionCore.ServeFromIsServe | src/main/java/dev/slppz/bytefunk/net/Session.java:48-63 | walking the input from a cursor position, as the loop does, is serving the rest of the input with the remaining reactions |
| SessionCore.ServeStart | src/main/java/dev/slppz/bytefunk/net/Session.java:47-48 | at the first pass, the loop has the whole run still ahead of it |
| SessionCore.ReadFrameAt | src/main/java/dev/slppz/bytefunk/net/Session.java:51-55 | for an in-bounds length at cursor position c, the frame read is the next `min(N, remaining)` bytes, and the cursor moves by 2 plus that count |
| SessionCore.ServeAdvance | src/main/java/dev/slppz/bytefunk/net/Session.java:48-57 | after one delivered message, either the handler ended the run with that message, or the rest of the run goes on from the end of the frame |
| SessionCore.ServeStops | src/main/java/dev/slppz/bytefunk/net/Session.java:51-61 | a pass that stops on end of stream or on a bad length completes the run with that reason |
| SessionCore.Session.constructor | src/main/java/dev/slppz/bytefunk/net/Session.java:32-39 | a new session has read nothing, written nothing, recorded no event, and is neither active nor closed |
| SessionCore.Session.ReadShort | src/main/java/dev/slppz/bytefunk/net/Session.java:51 | fails at end of stream exactly when fewer than two bytes remain; otherwise it decodes the next two bytes and advances the cursor by two |
| SessionCore.Session.ReadNBytes | src/main/java/dev/slppz/bytefunk/net/Session.java:55 | returns the next `min(len, remaining)` bytes and advances the cursor by that count |
| SessionCore.Session.Terminate | src/main/java/dev/slppz/bytefunk/net/Session.java:90-98 | afterwards the session is inactive and its socket closed. Closing is recorded only the first time, so a second call changes nothing |
| SessionCore.Session.Send | src/main/java/dev/slppz/bytefunk/net/Session.java:77-85 | on success, appends exactly the bytes, unframed, and leaves `active` and the socket as they were. On a write failure, or on a closed socket, writes nothing and terminates |
| SessionCore.Session.React | src/main/java/dev/slppz/bytefunk/net/Session.java:57 | the handler's reaction writes what it writes, and leaves the session active exactly when it does not halt it |
| SessionCore.Session.ReceiveOne | src/main/java/dev/slppz/bytefunk/net/Session.java:50-61 | one pass of the loop does what `ReadFrame` says on the input at the cursor. When it stops, nothing else changes. When it delivers, the message is recorded, the cursor moves past the frame, and the reaction takes effect |
| SessionCore.Session.Receive | src/main/java/dev/slppz/bytefunk/net/Session.java:47-63 | the `while (active)` loop computes `Serve`. It stops for the reason `Serve` gives and records one Message per delivered frame, in order. Its output gains exactly the replies. It is still active exactly when it was not terminated |
| SessionCore.Session.Run | src/main/java/dev/slppz/bytefunk/net/Session.java:42-70 | the trace of a run is exactly Connected, one Message per frame `Serve` delivers, the socket closing, then Disconnected. The output gains exactly the replies, and the session ends inactive and closed. The server's registry gains the session and then loses its first entry for it |
| ServerCore.IndexOf | src/main/java/dev/slppz/bytefunk/net/Server.java:113 | the first position holding an entry, or the length when there is none |
| ServerCore.RemoveFirst | src/main/java/dev/slppz/bytefunk/net/Server.java:111-115 | `remove(Object)` shortens the list by one exactly when the entry is present |
| ServerCore.RemoveFirstAbsent | src/main/java/dev/slppz/bytefunk/net/Server.java:111-115 | removing an absent session leaves the registry unchanged |
| ServerCore.RemoveFirstPresent | src/main/java/dev/slppz/bytefunk/net/Server.java:111-115 | removing a present session takes out its first occurrence and keeps every other entry in order |
| ServerCore.RemoveFirstMultiset | src/main/java/dev/slppz/bytefunk/net/Server.java:111-115 | removal takes away exactly one copy of the session when there is one, and nothing else |
| ServerCore.RemoveFirstAfterAdd | src/main/java/dev/slppz/bytefunk/net/Server.java:91-115 | a session registered last and not registered before is removed without a trace: connect then disconnect restores the registry |
| ServerCore.Schedule | src/main/java/dev/slppz/bytefunk/net/Server.java:54-73 | the loop never takes more steps than the schedule holds |
| ServerCore.AcceptStep | src/main/java/dev/slppz/bytefunk/net/Server.java:62-72 | an accepted socket is admitted exactly when fewer than `capacity` sessions are registered, and rejected exactly otherwise. A rejected socket, a failed accept and a shutdown register nothing. An admitted socket registers exactly its session, and a departure removes its first entry |
| ServerCore.ScheduleAdvance | src/main/java/dev/slppz/bytefunk/net/Server.java:54-73 | one more step of the accept loop keeps the rest of the schedule completing the whole run |
| ServerCore.ScheduleWithinCapacity | src/main/java/dev/slppz/bytefunk/net/Server.java:62-95 | a registry within capacity stays within capacity over any schedule |
| ServerCore.ScheduleStopsAtShutdown | src/main/java/dev/slppz/bytefunk/net/Server.java:54-73 | without a shutdown every step is taken. With one, the loop stops right after the first shutdown, and the steps after it change nothing |
| ServerCore.ScheduleAppend | src/main/java/dev/slppz/bytefunk/net/Server.java:54-73 | running the loop over two schedules in a row, the first without a shutdown, is running the second from where the first left the registry |
| ServerCore.ArrivalAlone | src/main/java/dev/slppz/bytefunk/net/Server.java:62-71 | a single arrival is admitted and registered when there is room, and otherwise rejected with the registry unchanged |
| ServerCore.ArrivalsWithRoom | src/main/java/dev/slppz/bytefunk/net/Server.java:62-66 | while there is room, every arrival is admitted and registered in arrival order |
| ServerCore.ArrivalsWhenFull | src/main/java/dev/slppz/bytefunk/net/Server.java:62-71 | once the registry is full, every arrival is rejected and the registry is unchanged |
| ServerCore.FillThenReject | src/main/java/dev/slppz/bytefunk/net/Server.java:62-71 | arrivals that fit are admitted in order, and the arrivals after the registry is full are all rejected |
| ServerCore.ArrivalsFillToCapacity | src/main/java/dev/slppz/bytefunk/net/Server.java:62-71 | with only arrivals, the first `capacity - |sessions|` are admitted and registered in order and all later ones are rejected: with capacity C, the (C+1)-th is refused |
| ServerCore.CapacityOneScenario | src/main/java/dev/slppz/bytefunk/net/Server.java:54-73 | with capacity 1: A is admitted, B is rejected while A is open, and after A leaves, C is admitted |
| ServerCore.Server.constructor | src/main/java/dev/slppz/bytefunk/net/Server.java:35-40 | a new server is not running, has no listening socket, has an open pool and an empty registry |
| ServerCore.Server.OnConnected | src/main/java/dev/slppz/bytefunk/net/Server.java:91-95 | the registry becomes the old one plus the session at the end, and nothing else changes |
| ServerCore.Server.OnDisconnected | src/main/java/dev/slppz/bytefunk/net/Server.java:111-115 | the registry loses the first entry of the session, and nothing else changes |
| ServerCore.Server.Shutdown | src/main/java/dev/slppz/bytefunk/net/Server.java:120-128 | `running` is false, the listening socket is closed and the pool shut down. This holds again after a second call |
| ServerCore.Server.Run | src/main/java/dev/slppz/bytefunk/net/Server.java:42-83 | the accept loop computes `Schedule`: the final registry, the admitted and rejected sockets in order, and the steps taken. A registry within capacity stays so. When the schedule holds a shutdown, the server ends shut down: not running, listening socket closed, pool shut. When it holds none, the schedule ends with the server still running and listening, and the pool open, as the source keeps accepting |

## Left out

- Threads, the session pool's scheduling, `synchronized` and `volatile` are not modelled. Only one sequential interleaving is modelled: an admitted session registers before the next accept, and other threads' actions appear as steps of the schedule. The unsynchronised `sessions.size()` check racing with a later `add` is therefore not modelled.
- Logging is not modelled. It has no effect on state.
- `NetConstants` is not part of this model. `MIN_MSG_LENGTH` and `MAX_MSG_LENGTH` are parameters with `0 <= MIN <= MAX <= 32767`. A negative minimum would let `readNBytes` throw on a negative count.
- Sockets and streams become byte sequences and fault flags. An outbound write either succeeds whole or fails whole, with no partial writes.
- The bind-failure path of `Server.run` is not modelled. `Server.Shutdown` requires a bound listening socket, because the source dereferences it.
- `Server.Run` requires the thread pool to still be open, because submitting to a shut-down pool throws.
- The `Session` constructor's `IOException` is not modelled. It is swallowed by the accept loop, which leaves the socket open.
- `onMessageReceived` is abstract in the source. The handler is modelled as one reaction per message: stay quiet, send once, or terminate. Handlers that send several times per message, or call `shutdown` on the server, are not modelled.
- Read failures other than end of stream are not modelled. These are an `IOException` inside `readShort` or `readNBytes`, caught at Session.java:58-61. They end the loop as the input ending before that frame's header would, with the same messages, trace and replies.
- `SampleServer` is a demo handler and is not modelled.
- `SampleClient` is used only for its byte stream.
- SessionCore.Session.Run: requires a session that has never run nor been terminated. A `terminate` from another thread before `run` sets `active` is a race this model does not cover.
- SessionCore.Session.Run: does not state where the cursor ends.
- SessionCore.Session.Receive: takes the run it computes as a ghost parameter, so its caller must supply `Serve` of the input.
