# Verified model of the asio networking programs

The repository holds a family of small asio programs: framed TCP server sessions, a TCP client
connection with growable buffers, a UDP client with a worker thread, and a multi-threaded server.
This project models their hardest parts and proves what holds in every run.

* `Framing`, `Codec` - the line, fixed-length and length-prefixed formats: one reference parser over
  whole byte streams, what one `process_data` call does, and what `prepare_send` produces.
* `SessionModel`, `Sessions` - the multi-protocol server session. The first is a step system over its
  completion handlers, with theorems over all event sequences; the second is the session as a class
  over a 4096-byte array, each of whose methods is proved to perform exactly one such step.
* `SessionOrder` - the same session when its posted responses may run in any order.
* `BufferModel`, `ConnectionBuffers` - the connection buffer, first as a value, then in place over an
  array with a size, a capacity and 32-bit indices.
* `ConnectionModel`, `TcpConnections` - the client connection, in the same two forms. Here the socket
  reads an outstanding write's bytes from memory while other handlers run, so that an append which
  moves or overwrites them is visible on the wire.
* `ConnectionHistory` - every flag, count and stream of that connection, told by the events of a run
  alone.
* `ConnectionWire` - what the peer of that connection gets: in every run, in careful runs, and exactly
  when an append is safe.
* `UdpModel`, `UdpClients` - the UDP client: worker, producers, mutex and condition variable, as a step
  system and as a class with an explicit lock.
* `MultiServer` - round robin over io_contexts and the statistics handler's accounting.

Theorems about runs quantify over every sequence of events. An event the environment cannot produce in
a state is a step that changes nothing, so there is no hidden well-formedness condition on runs.

## Assumptions about the environment

* Handlers of one session or connection are atomic. In `SessionModel` posted tasks of a session run in
  the order they were posted, which is exact for one worker thread. The multi-protocol server starts
  four workers on one io_context and uses no strand
  (asio-1.28_server_multi_protocol/src/test.cpp:644-648, 719), so that a session's posted tasks may run
  in any order there; `SessionOrder` is about that. Handlers of one session overlapping in time, which
  nothing in the source prevents either, are not modelled.
* A successful `async_write` moves the whole buffer; a failed one some prefix of it; a closed socket
  moves nothing. A read brings at most the room it was given.
* A vector built with n elements has capacity n. `vector::resize` keeps the storage while the new size
  is within the capacity; beyond it the elements move to new storage whose capacity may exceed the new
  size by any amount (`spare` in the events). What a socket reads from storage given up is arbitrary.
* In runs of the connection sizes stay below 2^32. A receive callback may skip any 32-bit count.
* A condition variable may wake spuriously; `notify_one` and `notify_all` wake the one worker.

## Main results

1. Parsing commutes with any chunking (`ParseSplit`), encoding and parsing are inverse
   (`StreamRoundTrip`, with the exact conditions per format), and the number of frames a session has
   delivered has a closed form (`LineDelivery`, `FramedLag`).
2. A session's output is conserved in order (`WireConservation`), parses at every moment to echoes of
   what was delivered (`EchoesInOrder`), drains exactly (`DrainExactly`) and echoes end to end
   (`EchoEndToEnd`). If posted responses run in any order the client still gets every echo exactly once
   (`EchoesInAnyOrder`, `DrainsInAnyOrder`), in order iff they ran so (`InOrderExactly`). Reading goes on
   until it ends and the socket stays open until a write fails (`ReadingGoesOn`, `OpenExactly`), every
   echo is in its place (`EveryEchoHasItsPlace`), and its bytes are the text and the message
   (`EchoedBytes`).
3. A session runs out of room exactly on streams with a frame larger than its buffer (`NoRoomExactly`,
   `NoRoomOnEncodings`), leaves no frame waiting exactly if no stretch of reads brought more frames
   than reads (`NothingWaitsExactly`), and never faults on encoded messages (`NoFaultOnEncodings`).
4. The connection buffer refines a byte queue (`BufferIsQueue`) within proved size bounds
   (`OutputCapacity`, `ConnectionCapacity`).
5. The client's writes follow what was submitted in every run (`WritesFollowSubmissions`); the peer has
   a prefix of it iff it got the bytes the writes were launched for (`PrefixMeansAsLaunched`), and an
   append under a write is safe iff it leaves their memory alone (`AppendSafeExactly`,
   `HarmlessExactly`). A careful connection delivers everything (`DeliveredExactly`), within two
   completions after the last send (`DrainsInTwo`).
6. Scheduling, order of input and idle connections in every run (`Scheduling`, `InputArrivesInOrder`,
   `IdleExactly`, `OnlyASendRestarts`); a connection keeps reading until a read fails
   (`ConnectionHistory.ReadingGoesOn`) and is connected iff it came up and has not ended since
   (`ConnectedExactly`). A forceClose calls the close callback once for itself and once
   per outstanding operation (`CloseCallsPerOperation`), so exactly once iff there is none
   (`ClosedOnceExactly`).
7. The UDP queue loses nothing and wakes its worker (`UdpSafety`), whose loop attempts every queued
   message (`UdpClient.Work`); `stop` can be missed in exactly one place (`StopIsMissedExactly`).
8. The classes perform these steps in place.

## What turned out not to hold

* The client's bytes are not always a prefix of what was submitted: an append during an outstanding
  write can outgrow the storage, shift the buffer, or put new data where the socket still has to read
  (`WireLawFails`; `FirstBranchFails` for data that simply fits behind the write index after an earlier
  shift). `AppendSafeExactly` gives the exact condition for one content, `HarmlessExactly` the exact
  condition on indices and sizes for all contents; runs that meet it keep the law (`WireIsPrefix`), in
  particular those in which every append made during a write takes the first branch
  (`RoomyWireIsPrefix`).
* A connected, idle connection may still hold data: exactly if it was left behind when CONNECTED was
  entered and nothing was sent since (`IdleExactly`); no event but a send changes that
  (`OnlyASendRestarts`, `EarlySendIsStranded`).
* The close callback is not called once per connection: a forceClose during a read calls it twice
  (`ForceCloseCallsTwice`). It is called exactly once, whatever happens afterwards, iff neither a read
  nor a write is posted or outstanding (`ClosedOnceExactly`).
* With several workers the echoes of two messages may change places (`EchoesCanSwap`).
* The binary handler's length test wraps around for announced lengths of 2^32 - 4 and more. The call
  then copies bytes that were never received; `OverrunExactly` and `FaultExactly` say when, four bytes
  are enough (`FaultIsReachable`). A client that sends encodings of messages never causes it
  (`NoFaultOnEncodings`).
* A session does not always have room to read: it has none exactly when 4096 bytes have come in behind
  the last frame before the first one that does not fit (`NoRoomExactly`, `NoRoomOnEncodings`,
  `NoRoomIsReachable`), and then it never delivers anything again (`NoRoomIsForever`).
* Complete fixed and binary frames can wait for a later read, since one read delivers at most one of
  them (`FramesCanWait`); `FramedLag` counts them, `NothingWaitsExactly` says exactly when none waits.
* `retrieveReadIndex` brings back bytes already read if the 32-bit sum wraps (`RetrieveReadExactly`,
  `ReceptionDelivers`, `ReadBytesComeBack`); the unread input still is a suffix of what was received.
* `UdpClient::stop` sets its flag without the mutex, so its wake-up can be lost (`StopCanBeMissed`,
  `StopIsMissedExactly`); a producer's never is (`UdpSafety`).

Creating a session id again would lose the characters on its account, but that is no failure of the
server: its counter gives out every id once, and a session reports its creation first
(`BalanceExactly`, `ServerBalances`).

## Model

| member | source | states |
|---|---|---|
| Framing.FrontIsStable | asio-1.28_server_multi_protocol/src/test.cpp:303-418 | bytes arriving later never change a frame that is complete, in any of the three formats |
| Framing.ParseSplit | asio-1.28_server_multi_protocol/src/test.cpp:205-226 | parsing may stop after any prefix of a stream and resume with the unparsed rest: same messages, same remainder |
| Framing.RestIsPartial | asio-1.28_server_multi_protocol/src/test.cpp:214-223 | what remains unparsed is a suffix of the stream and holds no complete frame |
| Framing.ProcessAgrees | asio-1.28_server_multi_protocol/src/test.cpp:303-418 | one `process_data` call delivers a prefix of the reference parse, leaves the rest of it in the kept bytes, progresses iff a frame is complete; line drains all, the others deliver at most one |
| Framing.OverrunExactly | asio-1.28_server_multi_protocol/src/test.cpp:399-417 | the call copies bytes beyond those received iff a binary header announces at least 2^32 - 4 bytes |
| Framing.DeclaredIsBigEndian | asio-1.28_server_multi_protocol/src/test.cpp:402-406 | the announced length is the header's four bytes read as one big-endian number |
| Framing.LineContent | asio-1.28_server_multi_protocol/src/test.cpp:309-322 | a line is what stands before its line feed, without one carriage return if that is its last byte; nothing else is stripped |
| Codec.EncodedBytes | asio-1.28_server_multi_protocol/src/test.cpp:328-433 | byte by byte: a line gets CR LF behind it, a fixed frame holds the message's first bytes and zeros where there are no more, a binary message gets its big-endian length before it |
| Codec.EncodableExactly | asio-1.28_server_multi_protocol/src/test.cpp:420-433 | a message can be encoded iff the output size computed in 32 bits is the one needed |
| Codec.HeaderDeclares | asio-1.28_server_multi_protocol/src/test.cpp:402-429 | the big-endian header written for a length is read back as that length modulo 2^32 |
| Codec.EncodeThenFront | asio-1.28_server_multi_protocol/src/test.cpp:328-433 | an encoded message followed by any bytes reads back as that message and takes exactly its encoding |
| Codec.StreamRoundTrip | asio-1.28_server_multi_protocol/src/test.cpp:303-433 | parsing the concatenated encodings of any message list returns the list (cut or zero-padded for fixed frames) and nothing is left over |
| Codec.LinesAreLineFeeds | asio-1.28_server_multi_protocol/src/test.cpp:309-323 | a stream yields exactly as many lines as it has line feeds |
| Codec.LineRoundTripExactly | asio-1.28_server_multi_protocol/src/test.cpp:303-334 | line framing returns a list unchanged iff no message holds a line feed, trailing carriage returns included |
| Codec.FixedRoundTripExactly | asio-1.28_server_multi_protocol/src/test.cpp:353-375 | fixed framing returns a list unchanged iff every message has the frame size |
| Codec.BinaryRoundTrip | asio-1.28_server_multi_protocol/src/test.cpp:395-433 | binary framing returns every list of messages shorter than 2^32 - 4 bytes unchanged |
| SessionModel.HistoryIsOfEvents | asio-1.28_server_multi_protocol/src/test.cpp:200-262 | in every continuation the chunks received are those of the reads that happened, and the wire grows by what the socket took of the outstanding writes |
| SessionModel.ReadingGoesOn | asio-1.28_server_multi_protocol/src/test.cpp:200-237 | an unfaulted session is reading iff it was and no end of reading has come, whatever the reads brought |
| SessionModel.ChunksThatFitAreRead | asio-1.28_server_multi_protocol/src/test.cpp:200-226 | in every such state a chunk is accepted iff reading has not ended and it fits, and then it is added to the stream |
| SessionModel.OpenExactly | asio-1.28_server_multi_protocol/src/test.cpp:227-260 | the socket stays open, through the end of reading too, iff no write fails |
| SessionModel.LagIsMinimum | asio-1.28_server_multi_protocol/src/test.cpp:353-418 | the one-frame-per-read recurrence equals the minimum over k of frames complete after k reads plus the reads since |
| SessionModel.LineDelivery | asio-1.28_server_multi_protocol/src/test.cpp:200-226 | for every chunking and interleaving the delivered lines are those of the whole stream and the buffer holds exactly the unterminated tail |
| SessionModel.DeliveredIsPrefix | asio-1.28_server_multi_protocol/src/test.cpp:205-226 | in every format delivered messages are a prefix of the whole-stream parse, the buffer is the unconsumed suffix, and parsing it gives just the missing messages |
| SessionModel.FramedLag | asio-1.28_server_multi_protocol/src/test.cpp:205-226 | fixed and binary sessions have delivered exactly min over k of (frames complete after k reads + n - k) after n reads |
| SessionModel.SmallChunksLeaveNothing | asio-1.28_server_multi_protocol/src/test.cpp:353-418 | with chunks of at most one frame size (fixed) or 4 bytes (binary) no complete frame is ever left waiting |
| SessionModel.NothingWaitsExactly | asio-1.28_server_multi_protocol/src/test.cpp:205-226 | fixed and binary sessions have delivered every complete frame iff each stretch of reads up to the last brought no more frames than there were reads in it |
| SessionModel.NoRoomExactly | asio-1.28_server_multi_protocol/src/test.cpp:202-226 | in every run a re-armed read has no room iff the bytes received exceed the leading frames that fit by exactly 4096; never for fixed frame sizes up to 4096 |
| SessionModel.NoRoomOnEncodings | asio-1.28_server_multi_protocol/src/test.cpp:202-226 | for a client that sends encoded messages there is no room iff the first oversized one has brought exactly 4096 bytes; never if all encodings fit |
| SessionModel.NoRoomIsReachable | asio-1.28_server_multi_protocol/src/test.cpp:202-226 | one unterminated line of 4096 bytes leaves an open line session without room |
| SessionModel.NoRoomIsForever | asio-1.28_server_multi_protocol/src/test.cpp:202-226 | a session without room delivers nothing more, whatever happens |
| SessionModel.FaultExactly | asio-1.28_server_multi_protocol/src/test.cpp:399-433 | a handler leaves its buffers' bounds iff a read brings a binary header of at least 2^32 - 4 to the front; encoding an echo never does |
| SessionModel.FaultOnStream | asio-1.28_server_multi_protocol/src/test.cpp:399-417 | a faulted session has received a binary stream whose first incomplete frame announces at least 2^32 - 4 bytes |
| SessionModel.NoFaultOnEncodings | asio-1.28_server_multi_protocol/src/test.cpp:303-433 | a client that sends any part of an encoded message list never faults the session |
| SessionModel.FaultIsReachable | asio-1.28_server_multi_protocol/src/test.cpp:399-417 | a first read of the four bytes ff ff ff fc does it |
| SessionModel.FramesCanWait | asio-1.28_server_multi_protocol/src/test.cpp:395-418 | a run in which a complete binary frame stays in the buffer |
| SessionModel.OneWriteOfTheFront | asio-1.28_server_multi_protocol/src/test.cpp:159-174 | in every reachable state a write is outstanding iff the queue is non-empty, only one, and for its front |
| SessionModel.WireConservation | asio-1.28_server_multi_protocol/src/test.cpp:159-262 | accepted ++ queued ++ posted bytes are the encoded echoes of everything delivered, in order; after a write error the accepted bytes stay a prefix |
| SessionModel.QueueCounts | asio-1.28_server_multi_protocol/src/test.cpp:159-174 | with the socket open or closed each delivery posts one response and only a posted task takes one away; it puts one buffer into the queue, each completion takes one out, and nothing else does until a write fails |
| SessionModel.EveryEchoHasItsPlace | asio-1.28_server_multi_protocol/src/test.cpp:159-262 | in every run the posted responses are the echoes of the last deliveries, the queue holds the encodings of the ones before, a buffer each, and without an error the wire holds one encoding per completed write |
| SessionModel.LineSession | asio-1.28_server_multi_protocol/src/test.cpp:159-345 | the same for a line session, stated on the received bytes alone |
| SessionModel.NothingAfterFailure | asio-1.28_server_multi_protocol/src/test.cpp:253-260 | after a failed write the peer receives nothing more, whatever is still posted |
| SessionModel.NothingAfterReadEnds | asio-1.28_server_multi_protocol/src/test.cpp:227-237 | once reading has ended nothing more is delivered, while writes go on |
| SessionModel.DrainExactly | asio-1.28_server_multi_protocol/src/test.cpp:161-173 | once reads stop an error-free run drains in exactly 2·posted + queued steps in any order, and then everything owed is on the wire |
| SessionModel.EchoesInOrder | asio-1.28_server_multi_protocol/src/test.cpp:159-262 | at every moment of every run, half-sent buffers and write errors included, what the peer got parses to a prefix of the echoes of everything delivered |
| SessionModel.EchoedBytes | asio-1.28_server_multi_protocol/src/test.cpp:328-433 | at every moment the k-th message the peer parses is "Echo: " followed by the k-th delivery byte by byte; a fixed frame has lost its last six bytes |
| SessionModel.EchoEndToEnd | asio-1.28_server_multi_protocol/src/test.cpp:200-433 | a client that has sent any part of an encoded message list and parses the reply of a drained session gets the echo of each delivered message in order, for every chunking and interleaving, bursts included |
| SessionOrder.OrderDoesNotMatter | asio-1.28_server_multi_protocol/src/test.cpp:159-226 | with posted tasks running in any order reading and the write queue keep their laws: delivered messages, buffer and lag are those of the received stream, one write is outstanding iff the queue is non-empty, for its front |
| SessionOrder.EchoesInAnyOrder | asio-1.28_server_multi_protocol/src/test.cpp:159-174 | at every moment the peer's bytes parse to echoes of distinct deliveries in the order their tasks ran; once an error-free session has drained, every delivery is echoed exactly once |
| SessionOrder.InOrderExactly | asio-1.28_server_multi_protocol/src/test.cpp:159-174 | the drained reply equals the one in order iff the tasks ran in an order that encodes alike |
| SessionOrder.DrainsInAnyOrder | asio-1.28_server_multi_protocol/src/test.cpp:159-174 | an error-free session drains in exactly 2·posted + queued steps whichever posted task runs next |
| SessionOrder.EchoesCanSwap | asio-1.28_server_multi_protocol/src/test.cpp:159-174 | two different lines that arrive together can be echoed so that the wire is no prefix of the echoes in order |
| Sessions.PrepareSend | asio-1.28_server_multi_protocol/src/test.cpp:328-433 | the output vector is the format's encoding, and it is too short iff the binary length exceeds 2^32 - 5 |
| Sessions.CarriageReturnIsOurs | asio-1.28_server_multi_protocol/src/test.cpp:312-317 | the stripped carriage return belongs to the current line and the length never underflows |
| Sessions.Session.ProcessLines | asio-1.28_server_multi_protocol/src/test.cpp:303-326 | the in-place scan delivers exactly the reference parse of the filled buffer and reports what it consumed |
| Sessions.Session.ProcessFixed | asio-1.28_server_multi_protocol/src/test.cpp:353-363 | delivers the front frame iff it is complete |
| Sessions.Session.ProcessBinary | asio-1.28_server_multi_protocol/src/test.cpp:395-418 | delivers the front payload iff it is complete under 32-bit arithmetic, and tells when it would overrun |
| Sessions.Session.MoveDown | asio-1.28_server_multi_protocol/src/test.cpp:216-221 | overlapping bytes end up at the front unchanged |
| Sessions.Session.HandleRead | asio-1.28_server_multi_protocol/src/test.cpp:204-226 | performs the model's read step on the array, the cursor and the posted responses |
| Sessions.Session.HandleReadEnd | asio-1.28_server_multi_protocol/src/test.cpp:227-237 | performs the model's end-of-reading step |
| Sessions.Session.RunPostedWrite | asio-1.28_server_multi_protocol/src/test.cpp:161-173 | performs the model's posted-write step and keeps one write outstanding |
| Sessions.Session.HandleWritten | asio-1.28_server_multi_protocol/src/test.cpp:245-252 | performs the model's completion step |
| Sessions.Session.HandleWriteError | asio-1.28_server_multi_protocol/src/test.cpp:253-260 | performs the model's write-error step |
| BufferModel.ShiftMakesRoom | asio-1.10/src/connection_buffer.cpp:18-23 | the shift branch of append always leaves room for the data, strictly inside the storage |
| BufferModel.AppendConcatenates | asio-1.10/src/connection_buffer.cpp:14-30 | on all three branches the unread bytes become old bytes followed by the data, the indices stay valid, and the storage is replaced iff the third branch outgrows the capacity |
| BufferModel.AppendBranches | asio-1.10/src/connection_buffer.cpp:14-30 | which branch an append takes, as inequalities on indices and size, and the indices, size and capacity each leaves; gained bytes are zeros |
| BufferModel.GrowthIsLeast | asio-1.10/src/connection_buffer.cpp:24-27 | append grows by the least multiple of 4096 above the data's length |
| BufferModel.RetrievedIndex | asio-1.10/src/connection_buffer.cpp:32-38 | the read index moves by the count, returns to the front with the write index when nothing is left, or falls back by 2^32 |
| BufferModel.NewIsAllRoom | asio-1.10/src/connection_buffer.cpp:6-8 | a new buffer is empty, zeroed, and as large as asked for |
| BufferModel.EmptiedIsAllRoom | asio-1.10/src/connection_buffer.cpp:32-51 | a buffer emptied by either retrieve is writable from its beginning |
| BufferModel.RetrieveReadExactly | asio-1.10/src/connection_buffer.cpp:32-38 | retrieving drops the first min(count, readable) bytes iff the 32-bit sum does not wrap; otherwise read bytes come back |
| BufferModel.ReceiveConcatenates | asio-1.10/src/connection_buffer.cpp:40-46 | received bytes are appended to the unread ones, through doubling as well |
| BufferModel.AdjustCompacts | asio-1.10/src/connection_buffer.cpp:53-59 | adjusting keeps the unread bytes and the size and leaves the sum of the indices below the size |
| BufferModel.BufferIsQueue | asio-1.10/src/connection_buffer.cpp:14-59 | through any sequence of operations the buffer behaves as a plain byte queue and its indices stay valid |
| BufferModel.GrowthMeansFull | asio-1.10/src/connection_buffer.cpp:18-29 | append grows only a buffer whose size is at most its unread bytes plus three times the data |
| BufferModel.OutputCapacity | asio-1.10/src/connection_buffer.cpp:14-38 | with appends of at most d bytes finding at most u unread ones the size never exceeds u + 4d + 4096 |
| BufferModel.HandledCapacity | asio-1.10/src/connection_buffer.cpp:40-59 | a reception grows the buffer to at most 4c + 2u and re-establishes that the write index is low |
| BufferModel.AppendUndisturbed | asio-1.10/src/connection_buffer.cpp:14-30 | an append meeting the condition leaves the bytes at a given address range in place |
| BufferModel.SameBytesExactly | asio-1.10/src/connection_buffer.cpp:14-30 | an append keeps the bytes at an address range iff it keeps the storage and what it puts at each address of the range equals what was there |
| BufferModel.AppendUndisturbedExactly | asio-1.10/src/connection_buffer.cpp:14-30 | the condition of `AppendUndisturbed` holds iff every append of that length, to every content, keeps the range's bytes; growth within the capacity counts as keeping them |
| ConnectionBuffers.ConnectionBuffer.Append | asio-1.10/src/connection_buffer.cpp:14-30 | the in-place append yields the model's buffer, without 32-bit wrap while sizes stay below 2^32 |
| ConnectionBuffers.ConnectionBuffer.RetrieveReadIndex | asio-1.10/src/connection_buffer.cpp:32-38 | yields the model's buffer for every 32-bit count |
| ConnectionBuffers.ConnectionBuffer.RetrieveWriteIndex | asio-1.10/src/connection_buffer.cpp:40-46 | yields the model's buffer, doubling included |
| ConnectionBuffers.ConnectionBuffer.AdjustInternal | asio-1.10/src/connection_buffer.cpp:53-59 | yields the model's compacted buffer |
| ConnectionBuffers.ConnectionBuffer.WritableCount | asio-1.10/include/connection_buffer.h:19 | the room behind the write index |
| ConnectionBuffers.ConnectionBuffer.ReadableCount | asio-1.10/include/connection_buffer.h:23 | the number of unread bytes |
| ConnectionModel.Scheduling | asio-1.10/src/tcp_connection.cpp:14-92 | over all interleavings at most one write; at most one posted or outstanding read, and exactly one iff receiving and no read has failed; `sending_` iff a write is outstanding or one has failed |
| ConnectionModel.ReadTargetIsStable | asio-1.10/src/tcp_connection.cpp:36-47 | an outstanding read always points at the free, non-empty part of the current input storage |
| ConnectionModel.InputArrivesInOrder | asio-1.10/src/tcp_connection.cpp:41-47 | the unread input is a suffix of the bytes received in every run, wrapped read indices included |
| ConnectionModel.ReceptionDelivers | asio-1.10/src/tcp_connection.cpp:41-47 | a reception adds the data behind the unread input, doubles a filled buffer, compacts iff the indices reach the size, and then the callback's retrieval takes away just its bytes iff the 32-bit read index does not wrap |
| ConnectionModel.IdleExactly | asio-1.10/src/tcp_connection.cpp:63-81 | the output of a connected, idle connection is empty iff something was sent since CONNECTED was entered or nothing was stranded then |
| ConnectionModel.OnlyASendRestarts | asio-1.10/src/tcp_connection.cpp:63-81 | from any reachable state without a write, every sequence of events without a send leaves the output buffer and the wire as they are |
| ConnectionModel.EarlySendIsStranded | asio-1.10/src/tcp_connection.cpp:63-70 | data sent before connecting is still whole in the buffer, and the wire empty, after connecting and any events without a send |
| ConnectionModel.WritesStartConnected | asio-1.10/src/tcp_connection.cpp:65-81 | a connection that is not connected starts no write, whatever happens |
| ConnectionModel.NoReadAfterFailure | asio-1.10/src/tcp_connection.cpp:14-20 | after a failed read none is ever posted or started again, not even once reconnected, and the input stays as it is |
| ConnectionModel.NoWriteAfterFailure | asio-1.10/src/tcp_connection.cpp:82-91 | after a failed write none is ever started again and the peer gets nothing more |
| ConnectionModel.ReadBytesComeBack | asio-1.10/src/tcp_connection.cpp:41-47 | a reachable run whose callback makes the read index wrap, after which a byte already retrieved is unread again |
| ConnectionModel.Frames | asio-1.10/src/tcp_connection.cpp:14-98 | what each event leaves alone |
| ConnectionHistory.EndsAreCounted | asio-1.10/src/tcp_connection.cpp:48-98 | over every continuation the callback is called once per end that finds one set, and the socket's operations are cancelled once per end but an end of file told to a callback |
| ConnectionHistory.ConnectedExactly | asio-1.10/src/tcp_connection.cpp:48-98 | in every run the connection is CONNECTED iff it has come up and not ended since, and DISCONNECTED after an end |
| ConnectionHistory.ReceivingExactly | asio-1.10/src/tcp_connection.cpp:14-20 | `receiving_` is set iff startReceive was called, in every continuation |
| ConnectionHistory.PostedReadRunsOnce | asio-1.10/src/tcp_connection.cpp:14-20 | a posted read stays posted until it runs and is not posted again |
| ConnectionHistory.ReadingGoesOn | asio-1.10/src/tcp_connection.cpp:36-47 | once a started read has run, one read is outstanding after every reception, growth included, until a read fails |
| ConnectionHistory.CallbackIsLastGiven | asio-1.10/include/tcp_connection.h:30 | the close callback is the one given last |
| ConnectionHistory.StreamsAreOfEvents | asio-1.10/src/tcp_connection.cpp:41-81 | received, submitted and transmitted bytes are those of the events that happened |
| ConnectionHistory.OutputIsQueue | asio-1.10/src/tcp_connection.cpp:63-92 | in every continuation the output buffer holds what it held and what was submitted, less what completed writes took from the front; ends and failures leave it alone |
| ConnectionHistory.WritesStartExactly | asio-1.10/src/tcp_connection.cpp:63-81 | a write starts iff a send finds the connection up and none under way or a completion leaves bytes on a connection that is up, and always for everything the buffer then holds |
| ConnectionHistory.UpMeans | asio-1.10/src/tcp_connection.cpp:63-81 | what is remembered of coming up: sent since iff a send has happened since, stranded iff bytes lay there and no write was under way |
| ConnectionModel.EndsAreAccounted | asio-1.10/src/tcp_connection.cpp:48-98 | in every run, reconnections included, the callback is called at most twice more than forceClose is, and all ends cancel the socket's operations but at most one end of file that a callback was told of |
| ConnectionModel.CloseCallsPerOperation | asio-1.10/src/tcp_connection.cpp:48-98 | a forceClose with a callback set, once everything outstanding has failed in whatever order, has called it exactly 1 + outstanding reads + outstanding writes times |
| ConnectionModel.ClosedOnceExactly | asio-1.10/src/tcp_connection.cpp:94-98 | a forceClose calls the callback exactly once, whatever events follow while the owner leaves the connection alone, iff no read is posted or outstanding and no write is |
| ConnectionModel.CallsAreBounded | asio-1.10/src/tcp_connection.cpp:48-98 | a connection that is not connected and left alone calls the callback at most once more per posted or outstanding operation, in whatever order things happen |
| ConnectionModel.ForceCloseCallsTwice | asio-1.10/src/tcp_connection.cpp:48-98 | a reachable run of one forceClose and two calls |
| ConnectionModel.EveryEndIsReported | asio-1.10/src/tcp_connection.cpp:48-98 | while a callback stays set it is called once per end |
| ConnectionModel.ConnectionCapacity | asio-1.10/src/tcp_connection.cpp:36-81 | in every run within its limits the input stays within max(4096, 4c + 2p) and the output within b + 4d + 4096 bytes |
| ConnectionWire.WritesFollowSubmissions | asio-1.10/src/tcp_connection.cpp:63-92 | in every run, careful or not, an outstanding write was launched for exactly the submitted bytes that start where the wire was then; until a failure wire and live output are together as long as what was submitted plus what was taken |
| ConnectionWire.PrefixMeansAsLaunched | asio-1.10/src/tcp_connection.cpp:63-92 | in every run the wire is a prefix of everything submitted iff every byte on it is the one its write was launched for |
| ConnectionWire.WireIsPrefix | asio-1.10/src/tcp_connection.cpp:63-92 | in every run whose appends leave unsent bytes alone, write errors included, the wire is a prefix of everything submitted; until a failure the rest is exactly the live output |
| ConnectionWire.DeliveredExactly | asio-1.10/src/tcp_connection.cpp:63-81 | in a careful run a connected connection without a write under way has delivered everything submitted iff something was sent since CONNECTED was entered or nothing was stranded then |
| ConnectionWire.DrainsInTwo | asio-1.10/src/tcp_connection.cpp:72-81 | once sends stop, a connected, error-free connection is at most two completions from having delivered everything, each completion counts, and until then the socket can go on |
| ConnectionWire.RoomyIsCareful | asio-1.10/src/connection_buffer.cpp:15-17 | in a run whose appends during writes all take the first branch none of them disturbs an outstanding write |
| ConnectionWire.RoomyWireIsPrefix | asio-1.10/src/tcp_connection.cpp:63-92 | the wire law for callers that check `writableCount() > datalen` before every send during a write |
| ConnectionWire.SafeExactly | asio-1.10/src/tcp_connection.cpp:63-81 | while the wire is a prefix and a write unfinished, everything the socket can take next keeps it one iff the memory still holds what the write was launched for |
| ConnectionWire.AppendSafeExactly | asio-1.10/src/tcp_connection.cpp:63-70 | during an unfinished write, after an append everything the socket can take next keeps the wire a prefix iff the storage is kept and no other byte lands where the socket has yet to read, on whichever branch |
| ConnectionWire.HarmlessExactly | asio-1.10/src/tcp_connection.cpp:63-70 | in every state of a careful run with an unfinished write, wherever it is, appends of n bytes leave the unsent addresses alone iff for every content consistent with the write, all data and every resize the wire stays a prefix |
| ConnectionWire.GrowthBreaksWire | asio-1.10/src/connection_buffer.cpp:24-29 | outgrowing the capacity under an unfinished write lets any wrong byte onto the wire, in every such state |
| ConnectionWire.WireLawFails | asio-1.10/src/tcp_connection.cpp:63-70 | a reachable run of four events after which the wire is not a prefix of what was submitted |
| ConnectionWire.FirstBranchFails | asio-1.10/src/connection_buffer.cpp:15-23 | a reachable run in which a harmless shift is followed by an append that fits behind the write index and is not safe |
| TcpConnections.TcpConnection.SetConnected | asio-1.10/include/tcp_connection.h:46 | performs the model's step and keeps the invariant |
| TcpConnections.TcpConnection.StartReceive | asio-1.10/src/tcp_connection.cpp:14-20 | performs the model's step and keeps the invariant |
| TcpConnections.TcpConnection.RunPostedReceive | asio-1.10/src/tcp_connection.cpp:36-39 | performs the model's step and keeps the invariant |
| TcpConnections.TcpConnection.HandleReceive | asio-1.10/src/tcp_connection.cpp:41-47 | performs the model's step on the buffer in place and keeps the invariant |
| TcpConnections.TcpConnection.HandleReceiveError | asio-1.10/src/tcp_connection.cpp:48-60 | performs the model's step, end of file with a callback apart, and keeps the invariant |
| TcpConnections.TcpConnection.SendInService | asio-1.10/src/tcp_connection.cpp:63-70 | performs the model's step on the buffer in place and keeps the invariant |
| TcpConnections.TcpConnection.HandleSend | asio-1.10/src/tcp_connection.cpp:72-81 | performs the model's step and keeps the invariant |
| TcpConnections.TcpConnection.HandleSendError | asio-1.10/src/tcp_connection.cpp:82-91 | performs the model's step and keeps the invariant |
| TcpConnections.TcpConnection.CloseInService | asio-1.10/src/tcp_connection.cpp:94-98 | performs the model's step and keeps the invariant |
| UdpModel.UdpSafety | udp-asio-1.28/include/udp_client.hpp:42-78 | taken ++ queued is everything enqueued; the attempts are the non-empty messages taken, save one in hand; a worker blocked un-notified faces an empty queue |
| UdpModel.StopIsMissedExactly | udp-asio-1.28/include/udp_client.hpp:68-72 | after stop's notification the worker can block un-notified iff the notification fell between its test and its blocking |
| UdpModel.StopCanBeMissed | udp-asio-1.28/include/udp_client.hpp:47-72 | a concrete run in which it does |
| UdpModel.StoppedNeverWaits | udp-asio-1.28/include/udp_client.hpp:47-48 | a stopped client whose worker is past the wait never waits again |
| UdpModel.HistoryIsOfEvents | udp-asio-1.28/include/udp_client.hpp:39-78 | what is enqueued is what was sent with the mutex free, in order; a started client runs until its flag is cleared |
| UdpModel.OneRound | udp-asio-1.28/include/udp_client.hpp:43-64 | an undisturbed round of the worker leaves if stopped and takes nothing, else attempts the front of the queue, or blocks if there is none |
| UdpModel.DrainedIsAttempted | udp-asio-1.28/include/udp_client.hpp:46-63 | between two states with nothing in hand, the second with an empty queue and nothing enqueued in between, the non-empty messages of the first queue were attempted in order |
| UdpClients.UdpClient.Work | udp-asio-1.28/include/udp_client.hpp:43-64 | the worker's loop, undisturbed, attempts every queued message in order and blocks on an empty queue; once stopped it leaves at once and touches nothing; every state on the way is one of the model's runs |
| UdpClients.UdpClient.Send | udp-asio-1.28/include/udp_client.hpp:74-78 | the message joins the end of what was enqueued, taken and queued messages still make that up, and the worker is not left blocked |
| UdpClients.UdpClient.BlockOnCondition | udp-asio-1.28/include/udp_client.hpp:47 | whenever the worker blocks the queue is empty and the mutex free |
| UdpClients.UdpClient.Stop | udp-asio-1.28/include/udp_client.hpp:68-72 | leaves the queue alone, wakes a blocked worker, and lets the worker block un-notified later iff it stood between its test and its blocking |
| MultiServer.PicksAreFair | asio-1.28_server_multi/src/test.cpp:199-204 | after k picks from n contexts context i was chosen exactly k/n times, once more if i < k mod n |
| MultiServer.IOContextPool.GetNextIoContext | asio-1.28_server_multi/src/test.cpp:199-204 | the history of picks is always the round robin |
| MultiServer.CountersCount | asio-1.28_server_multi/src/test.cpp:374-383 | over every event sequence the message counter counts the processed messages and the total their characters |
| MultiServer.AccountsHoldTheirOwn | asio-1.28_server_multi/src/test.cpp:382-411 | the account of an id holds the characters processed for it since it was last created or closed, and exists unless it was closed last |
| MultiServer.BalanceExactly | asio-1.28_server_multi/src/test.cpp:374-411 | over every event sequence the total stays the sum of live and erased accounts iff no event re-creates an id with characters on its account; losses never cancel out |
| MultiServer.ServerBalances | asio-1.28_server_multi/src/test.cpp:64-157 | with every id given out once and created before anything else happens to it the accounts always balance |
| MultiServer.DecimalReadsBack | asio-1.28_server_multi/src/test.cpp:386-388 | the decimal rendering of a number consists of digits, has no leading zeros and reads back as that number |
| MultiServer.AnswerReports | asio-1.28_server_multi/src/test.cpp:385-388 | the numbers in an answer are the data's size, the total and the message count in this order, within this text |
| MultiServer.StatisticsHandler.Process | asio-1.28_server_multi/src/test.cpp:374-389 | performs the model's accounting step on counters that wrap around at 2^64, loses nothing, and answers with the size and both counters |
| MultiServer.StatisticsHandler.OnSessionCreated | asio-1.28_server_multi/src/test.cpp:391-399 | performs the model's creation step, and keeps the balance iff the id had no characters on its account |
| MultiServer.StatisticsHandler.OnSessionClosed | asio-1.28_server_multi/src/test.cpp:401-411 | performs the model's closing step, loses nothing and removes the id |

## Left out

- ConnectionBuffers.ConnectionBuffer.MoveToFront: memcpy between overlapping regions is undefined in C++; it is modelled as bytes moving upwards one by one, the result the code relies on.
- ConnectionBuffers.ConnectionBuffer.constructor: size 0 is excluded, because `start()` dereferences the begin of an empty vector.
- ConnectionBuffers.ConnectionBuffer.RetrieveWriteIndex: the sum of write index and count is required not to wrap around 2^32; the socket never reports more than the room it was given.
- ConnectionBuffers.ConnectionBuffer.Append: growth is required to keep the size below 2^32, as the comment beside `resize` warns.
- TcpConnections.TcpConnection.HandleReceiveError: `socket_.cancel()` and the close callback are counted; that a cancelled operation then completes with an error is left to the environment's events, and what the callback does is not modelled.
- Framing.OverrunExactly: shifts and bitwise ors of the header are written as sums of disjoint bytes.
- Sockets, resolvers, accept loops, thread creation, timers, logging and console programs: input and output only. The echo handlers' `on_session_created` and `on_session_closed` only log.
- `ProtocolDetector`, `set_protocol`, the commented-out HTTP handler and a fixed frame size of 0: not used by registered protocols.
- The reconnecting clients and `asio-1.10/src/tcp_client.cpp`: only `setConnState(CONNECTED)` and `startReceive` are used, as events.
- The 1.28 copies of the buffer and the connection, which are the same code apart from one enum value, and the single-threaded echo server.
- The multi-threaded server's session, whose write queue follows the same discipline with one response per chunk.
- `active_sessions_` (decremented on error and again in the destructor) and `CalculatorHandler` (floating-point text parsing by the library).
- UdpClients.UdpClient.Stop: up to the join, which would wait for the worker to leave.
- UdpClients.UdpClient.Work: one stretch of the loop without other threads in between; the interleavings are those of `UdpModel.UdpSafety`.
