# Verified model of the endpoint stack and its helpers

A Dafny model of the parts of the repository where correctness is hard to see from reading one
function.  The core is the message-framing stack of the endpoint layer.

* `Framing`, `CharArrayBuffers`, `RingBuffers`, `ProtoMessageReaders`, `ProtoMessageSenders`: length-prefixed
  frames in either byte order; the streams that treat a list of memory regions as one line of bytes; the
  wrap-around ring that supplies the regions; the incremental reader with its detection of the byte order;
  the writer that drains the transmit queue.  The classes update their fields and arrays in place and are
  proved against functions on values.
* `EndpointStates`, `EndpointBases`: the endpoint's fields, and every locked region and completion phase as run by
  one thread; `EndpointOutcomes` says field by field what each leaves.
* `EndpointProtocol` and the modules after it: any number of activities interleaved.  A step is one locked region,
  one atomic operation on the state, one push or pop of the transmit queue, one frame written, or one move of
  the socket.  The socket sends and receives in any pieces, may fail at any time, and delivers bytes in order.
  `EndpointAlone` shows that an activity nobody interrupts is the sequential operation.  `EndpointTokens`,
  `EndpointEndings`, `EndpointSending`, `EndpointAccounts`, `EndpointReading` and `EndpointProgress` prove what every
  step keeps; `EndpointRuns`, `EndpointClosing`, `EndpointLate` and `EndpointService` lift that to every run of one
  endpoint, `EndToEnd` to two connected ones.  `EndpointExamples` exhibits runs of a fresh endpoint that reach the exceptional states.

Beside it stand the Merkle root (`MerkleTrees`, for any hash function), the logging thread pool and its queue
(`CircularQueues`, `ThreadPools`), the numeric kernels of the formatting library (`Decimals`, `FpProducts`), the
rotating log file (`RotatingFileSinks`), the pattern compiler (`PatternFormatters`), and the base64 and hexadecimal
encoders (`Encoders`).  `Wrappers`, `ByteStrings` and `Powers` hold what they share.

## Where the code departs from its intent

The model follows the code, and the lemmas say exactly when it does what it means to do.

* A completely full ring shows no data, because `getDataBuffers` tests for less than the size
  (`basic_comms/src/cpp/RingBuffer.hpp:84`).  A write is empty exactly on a full send ring
  (`EndpointSending.WriteIsEmptyIffFull`); the sending chain then spins (`EndpointSending.FullRingSpins`) and no byte
  is sent in any continuation (`EndpointRuns.FullSendRingForEver`).  A single message whose frame is as long as the
  ring gets there
  (`EndpointExamples.FullRingIsReached`).
* The same test makes a full read ring stop the read loop for good (`EndpointRuns.FullReadRingForEver`).  That is the
  only way it stops: `EndpointRuns.StallsExactlyOnFullRing`, for every run and every byte order, and so it reads on
  in every run whose reads leave a byte free (`EndpointRuns.RunNeverStalls`).
* Detection of the byte order does not go back after the little-endian trial
  (`mt-core/comms/src/cpp/ProtoMessageReader.cpp:40-48`).  `ProtoMessageReaders.DetectionExact` says which peers
  are recognised, with `NetworkPeerTurnedAway` and `NetworkPeerMisread` as examples of what happens to others.
  End-to-end delivery is therefore proved for settled orders and for little-endian peers whose first header
  passes the trial.
* A failed read sets ERRORED before calling `error()`, which then returns at once
  (`basic_comms/src/cpp/EndpointBase.cpp:325-326`): `onError` is never called for it
  (`EndpointStates.FailedReadIsSilent`, and `EndpointRuns.ReadErrorsAreSilent` in every run), so the terminal handlers
  are called at most once, not exactly once.  `EndpointStates.ReadCalls` and `EndpointStates.WriteCalls` say when one
  is called.
* The endpoint can die, outside the mutex, while a `run_sending` is creating messages, and that one still takes the
  sending token: `EndpointExamples.DeadEndpointTakesToken` gives such a run from every fresh endpoint with room for
  a frame, and
  `EndpointLate.DeadTakesTokenExactlyWhen` the exact condition.
* A `run_sending` called before the byte order is known or before go has no effect, and nothing repeats it later
  (`EndpointService.StartsExactlyWhenReady`); from then on nothing is left behind
  (`EndpointService.NothingIsStranded`).
* A terminate message that an overrunning post pushes out of the log queue strands the destructor
  (`ThreadPools.FinishesExactlyWhen`), and so does a queue for no messages.
* A padding width of 2^64 or more wraps around before it is capped: `PatternFormatters.WidthIsExact` says when that
  shows, and `PatternFormatters.WideWidthWraps` is an example.
* The Merkle root binds neither the number of leaves (`MerkleTrees.LeafCountIsNotBound`) nor the height
  (`MerkleTrees.HeightIsNotBound`); with the height given, and leaves of 32 bytes, it binds
  both (`MerkleTrees.RootBinds`).
* A rotation of log files that fails for good empties the live file all the same, and the message that caused it
  is not written (`RotatingFileSinks.JamStep`).

## Model

| member | source | states |
|---|---|---|
| EndToEnd.EndToEndDelivery | basic_comms/src/cpp/EndpointBase.cpp:249-396 | In every state of every run of two connected endpoints, both ways: the messages delivered are a prefix of those accepted; the accepted ones are the delivered, then some whose frames are exactly the bytes in transit, then those still queued |
| EndToEnd.DeliveredInOrder | mt-core/comms/src/cpp/ProtoMessageReader.cpp:20-100 | The same split of the accepted messages for any pair of states that keep the byte accounts of both ends |
| EndToEnd.RunSafe | basic_comms/src/cpp/EndpointBase.cpp:61-396 | The joint invariant of two endpoints and the link between them holds in every state of every run |
| EndToEnd.NextSystemSafe | basic_comms/src/cpp/EndpointBase.cpp:61-396 | Every step of either endpoint keeps that joint invariant |
| EndToEnd.NothingMissed | mt-core/comms/src/cpp/ProtoMessageReader.cpp:20-66 | In every state of every such run neither reader has missed a detection: neither read ring needs bytes to spare for one |
| EndpointRuns.RunKeepsOrder | basic_comms/src/cpp/EndpointBase.cpp:61-120 | In every state of every run at most one write and one read are in flight, at most one activity runs create_messages, and at most one terminal handler has been called |
| EndpointRuns.DeadStaysQuiet | basic_comms/src/cpp/EndpointBase.cpp:64-99 | From any dead state of any run on CLOSED, EOF and ERRORED only grow, no read token is taken, and no write token either unless a run_sending was past its test already |
| EndpointRuns.WriteInFlightIsStable | basic_comms/src/cpp/Endpoint.cpp:30-51 | In every state of every run the bytes of a write in flight are what the send buffer shows, and the wire ends with those of them already written |
| EndpointRuns.FullSendRingForEver | basic_comms/src/cpp/RingBuffer.hpp:80-94 | Once the send ring of an ordered state is completely full, its bytes and the wire stay as they are in every continuation |
| EndpointRuns.StallsExactlyOnFullRing | basic_comms/src/cpp/EndpointBase.cpp:100-119 | In every run, for every byte order and every way of reading, with a ring of a frame plus a byte per go plus the slack of a missed detection: run_reading asks for nothing if and only if the ring is full, and otherwise for exactly what the parser needs |
| EndpointRuns.FullReadRingForEver | basic_comms/src/cpp/EndpointBase.cpp:100-119 | In such a run a read ring once full stays full: no byte arrives and no message is delivered after that |
| EndpointRuns.RunNeverStalls | basic_comms/src/cpp/EndpointBase.cpp:100-119 | In such a run, if every read leaves a byte free, run_reading always asks for exactly the bytes the parser needs and never for none |
| EndpointRuns.BurstsNeverFill | basic_comms/src/cpp/EndpointBase.cpp:100-119 | Reads that bring fewer than a burst more than was asked for leave that byte free, if the ring has a burst to spare |
| EndpointRuns.ReadErrorsAreSilent | basic_comms/src/cpp/EndpointBase.cpp:301-327 | In no state of any run is an activity that holds the read token about to call onError |
| EndpointRuns.MarksInBounds | basic_comms/src/cpp/EndpointBase.cpp:276-363 | In every state of every run, marking what was written, read or consumed is within what the ring holds or has room for |
| EndpointAlone.RunSendingAlone | basic_comms/src/cpp/EndpointBase.cpp:61-85 | The steps of run_sending with nobody in between are the sequential run_sending |
| EndpointAlone.CreatingAlone | basic_comms/src/cpp/EndpointBase.cpp:293-299 | The frames written one by one with nobody in between are create_messages |
| EndpointAlone.CompletedWriteAlone | basic_comms/src/cpp/EndpointBase.cpp:249-291 | The steps of a completed write, for every error code, are the sequential complete_sending: fields and handlers called |
| EndpointAlone.CompletedReadAlone | basic_comms/src/cpp/EndpointBase.cpp:301-381 | The steps of a completed read, for every error code, accepted or refused, are the sequential complete_reading: fields, handlers called and bodies delivered |
| EndpointAlone.EndingAlone | basic_comms/src/cpp/EndpointBase.cpp:130-212 | The steps of eof, error and proto_error are the sequential ones |
| EndpointAlone.GoAlone | basic_comms/src/cpp/EndpointBase.cpp:214-247 | The steps of go, whether onStart throws or not, are the sequential go |
| EndpointLate.DeadTakesTokenExactlyWhen | basic_comms/src/cpp/EndpointBase.cpp:61-85 | A dead endpoint with the sending token free can still see it taken in some continuation if and only if some run_sending is creating messages, and frames are written already, or the order is settled, or will be by a read on its way, and the front of the queue fits |
| EndpointExamples.DeadEndpointTakesToken | basic_comms/src/cpp/EndpointBase.cpp:309-321 | Every fresh endpoint with room for a frame can be brought to a dead state from which the sending token is then taken |
| EndpointExamples.FullRingIsReached | basic_comms/src/cpp/RingBuffer.hpp:80-94 | On every fresh endpoint one message whose frame is as long as the send ring fills it: the endpoint lives on, the write is under way, and in every continuation the wire stays empty |
| EndpointService.NothingIsStranded | basic_comms/src/cpp/EndpointBase.cpp:61-85 | On a running endpoint with its order settled, from a run_sending after the last send on: the endpoint is dead, or somebody sends or is about to, or the queue is empty, or its front is longer than the ring |
| EndpointService.StartsExactlyWhenReady | basic_comms/src/cpp/EndpointBase.cpp:61-85 | With a front message that fits an empty ring run_sending starts to send if and only if the endpoint is running and knows its byte order |
| EndpointTokens.TokensAreExclusive | basic_comms/src/cpp/EndpointBase.cpp:275-298 | Where the tokens are respected no two activities write, read or create messages together, with the mutex or without |
| EndpointTokens.NextKeepsExclusive | basic_comms/src/cpp/EndpointBase.cpp:61-120 | Every step of every activity keeps asio_sending and asio_reading exclusive tokens |
| EndpointEndings.NextQuiet | basic_comms/src/cpp/EndpointBase.cpp:122-247 | Every step only adds state bits; a dead endpoint starts no read, and no write but by a run_sending already past its test |
| EndpointEndings.NextKeepsHandlersOnce | basic_comms/src/cpp/EndpointBase.cpp:130-212 | Every step keeps: at most one terminal handler called, none left installed afterwards, never two about to be called |
| EndpointAccounts.NextKeepsSendSafe | basic_comms/src/cpp/EndpointBase.cpp:275-298 | Every step keeps the account of the sending side: wire, send buffer, unannounced frames and queue are, in this order, the frames of everything accepted |
| EndpointSending.NextKeepsSteady | basic_comms/src/cpp/EndpointBase.cpp:249-299 | Whatever the byte order, every step keeps what an activity knows of the send ring: the write in flight is what the ring shows and the wire ends with what is written, marks are covered, and a free token means nothing half sent |
| EndpointSending.FullRingStays | basic_comms/src/cpp/RingBuffer.hpp:80-94 | No step changes the bytes of a completely full send ring, or the wire |
| EndpointSending.WriteIsEmptyIffFull | basic_comms/src/cpp/RingBuffer.hpp:80-94 | A write carries no bytes if and only if the send ring is completely full |
| EndpointSending.FullRingSpins | basic_comms/src/cpp/EndpointBase.cpp:249-284 | On a completely full send ring the chain of write, completion and run_sending comes back to the very same state with no byte moved |
| EndpointReading.NextKeepsReadSafe | basic_comms/src/cpp/EndpointBase.cpp:333-372 | Every step keeps: the bytes decoded so far are the frames of the messages delivered, and the ring holds what has arrived and not been dropped |
| EndpointReading.PassParses | mt-core/comms/src/cpp/ProtoMessageReader.cpp:20-100 | A reader that knows the order, or detects a little-endian peer, does what the plain parser does |
| EndpointProgress.StallsExactlyWhenFull | basic_comms/src/cpp/EndpointBase.cpp:100-119 | For any byte order, known, detected or not: after an accepted read the next run_reading takes the token and asks for nothing if and only if the read filled the ring to the last byte |
| EndpointProgress.NextProgressesOrStalls | basic_comms/src/cpp/EndpointBase.cpp:88-120 | Every step keeps what is held plus what is needed within a frame, the calls of go and the slack, or else has just filled the ring |
| EndpointProgress.FillingStalls | basic_comms/src/cpp/EndpointBase.cpp:333-339 | Marking a read that fills the ring leaves nobody on the way to another read |
| EndpointProgress.NextStaysStalled | basic_comms/src/cpp/EndpointBase.cpp:100-119 | Every step of a stalled read loop leaves it stalled; nothing arrives and nothing is delivered |
| EndpointProgress.NextKeepsRoomy | basic_comms/src/cpp/EndpointBase.cpp:333-363 | While reads leave some bytes of the ring free every step keeps them free |
| EndpointProgress.NeverStalls | basic_comms/src/cpp/EndpointBase.cpp:88-120 | In a progressing state run_reading asks for between one byte and the free space, and for what is needed |
| EndpointStates.TurnsAreCreateMessages | basic_comms/src/cpp/EndpointBase.cpp:294-299 | create_messages taken one frame at a time is create_messages at once |
| EndpointStates.WriterPassCreates | basic_comms/src/cpp/EndpointBase.cpp:294-299 | A pass of the writer over the free cells, announced, appends to the send buffer exactly the frames of the messages it took |
| EndpointStates.UnsettledRefuses | mt-core/comms/src/cpp/ProtoMessageSender.cpp:39-55 | With no byte order settled nothing is framed, and something that would fit makes the writer throw |
| EndpointStates.WriteCalls | basic_comms/src/cpp/EndpointBase.cpp:249-273 | Exactly when a completed write calls a terminal handler: endpoint alive, and onEof installed for an end of file or abort, onError for another error |
| EndpointStates.ReadCalls | basic_comms/src/cpp/EndpointBase.cpp:301-372 | Exactly when a completed read does: endpoint alive, and onEof installed for an end of file or abort, onProtoError for a refusal; never onError |
| EndpointStates.FailedReadIsSilent | basic_comms/src/cpp/EndpointBase.cpp:323-328 | A failed read calls no handler in any state; on a live endpoint it sets ERRORED and CLOSED |
| EndpointStates.Go | basic_comms/src/cpp/EndpointBase.cpp:214-247 | After go a dead endpoint, or one whose onStart threw, asks for nothing; a fresh one asks for one byte; bits only grow |
| EndpointOutcomes.StateWord | basic_comms/src/cpp/EndpointBase.hpp:39-42 | The four bits of the state word |
| EndpointOutcomes.EndingLeaves | basic_comms/src/cpp/EndpointBase.cpp:130-212 | eof sets exactly EOF and CLOSED, error and proto_error exactly ERRORED and CLOSED; all handlers go and the one for this kind is called; a second time nothing happens |
| EndpointOutcomes.FailedWriteLeaves | basic_comms/src/cpp/EndpointBase.cpp:249-273 | A failed write on a live endpoint leaves exactly EOF and CLOSED, or ERRORED and CLOSED; the token is not given back |
| EndpointOutcomes.WriteLeaves | basic_comms/src/cpp/EndpointBase.cpp:275-284 | After a successful write: the bytes sent are gone, the frames that fit have joined, and the token is taken again if there is anything to send |
| EndpointOutcomes.RefusedWriteLeaves | basic_comms/src/cpp/EndpointBase.cpp:275-291 | A successful write with a refusing writer: the bytes sent are gone, CLOSED is set, the token is not given back |
| EndpointOutcomes.KickLeaves | basic_comms/src/cpp/EndpointBase.cpp:61-85 | run_sending, in each case there is: not ready, bytes in the ring, nothing that fits, a refusal, new frames |
| EndpointOutcomes.ReadKickLeaves | basic_comms/src/cpp/EndpointBase.cpp:87-120 | run_reading: nothing unless running, alive, not reading and in need; else what is needed or, if less, what is free |
| EndpointOutcomes.GoLeaves | basic_comms/src/cpp/EndpointBase.cpp:214-247 | go: bits, token, bytes needed and bytes asked for, for every state and whether onStart throws or not |
| EndpointOutcomes.FailedReadLeaves | basic_comms/src/cpp/EndpointBase.cpp:301-328 | A failed read on a live endpoint leaves exactly EOF and CLOSED and no handlers, or ERRORED and CLOSED and the handlers as they were |
| EndpointOutcomes.RefusedReadLeaves | basic_comms/src/cpp/EndpointBase.cpp:333-357 | A refused read: what arrived stays in the ring, exactly ERRORED and CLOSED are set, the handlers go, the token is not given back |
| EndpointOutcomes.AcceptedReadLeaves | basic_comms/src/cpp/EndpointBase.cpp:333-374 | An accepted read: what was consumed leaves the ring, and on a running endpoint the token is taken again |
| EndpointOutcomes.DeadIgnores | basic_comms/src/cpp/EndpointBase.cpp:249-309 | A dead endpoint ignores every completion |
| EndpointClosing.RunClosesUp | basic_comms/src/cpp/EndpointBase.cpp:122-212 | In every state of every run: whoever calls a terminal handler, or has called one, sees CLOSED; EOF comes with CLOSED; ERRORED without CLOSED means an activity is on its way to close |
| EndpointClosing.NextClosesUp | basic_comms/src/cpp/EndpointBase.cpp:122-212 | Every step keeps that |
| EndpointBases.EndpointBase.constructor | basic_comms/src/cpp/EndpointBase.hpp:105-133 | An endpoint starts with empty rings, no token taken and nothing asked for |
| EndpointBases.EndpointBase.Send | basic_comms/src/cpp/EndpointBase.cpp:383-396 | A message joins the queue if fewer than 50 are waiting |
| EndpointBases.EndpointBase.CreateMessages | basic_comms/src/cpp/EndpointBase.cpp:293-299 | Moves as many whole messages from the queue into the send ring as fit, in order |
| EndpointBases.EndpointBase.RunSending | basic_comms/src/cpp/EndpointBase.cpp:61-85 | Takes the token when there is something to send on a running endpoint, and hands the socket the bytes the ring shows; otherwise hands it nothing |
| EndpointBases.EndpointBase.Close | basic_comms/src/cpp/EndpointBase.cpp:122-128 | Adds CLOSED and nothing else |
| EndpointBases.EndpointBase.End | basic_comms/src/cpp/EndpointBase.cpp:130-212 | eof, error and proto_error: their own bit and CLOSED, one call at most, all three handlers cleared |
| EndpointBases.EndpointBase.CompleteSending | basic_comms/src/cpp/EndpointBase.cpp:249-291 | The new state and the handler called, for every error code and byte count; a failure on a live endpoint sets CLOSED with EOF or ERRORED |
| EndpointBases.EndpointBase.Transmitted | basic_comms/src/cpp/EndpointBase.cpp:275-290 | A successful write: bytes leave the ring, the queue refills it, the token goes back, sending goes on; a refusal closes |
| EndpointBases.EndpointBase.Go | basic_comms/src/cpp/EndpointBase.cpp:214-247 | RUNNING is added even to a dead endpoint, one more byte is needed, and run_reading asks for it, into the free cells, if the endpoint is alive |
| EndpointBases.EndpointBase.RunReading | basic_comms/src/cpp/EndpointBase.cpp:87-120 | Takes the token and asks for what is needed or, short of room, for what is free; the regions handed to the socket are the free cells in order |
| EndpointBases.EndpointBase.CheckForMessage | basic_comms/src/cpp/EndpointBase.cpp:339-357 | One pass of the reader over the data regions of the read ring |
| EndpointBases.EndpointBase.Received | basic_comms/src/cpp/EndpointBase.cpp:333-374 | A successful read: marked, parsed, dropped, token given back; a refusal leaves the token taken |
| EndpointBases.EndpointBase.CompleteReading | basic_comms/src/cpp/EndpointBase.cpp:301-381 | The new state and the handler called, for every error code and chunk; a failure on a live endpoint sets CLOSED with EOF or ERRORED; a failed read never reaches onError |
| EndpointBases.EndpointBase.AsyncWrite | basic_comms/src/cpp/Endpoint.cpp:30-51 | The bytes given to the socket are the queued ones, or none when the ring is completely full |
| Framing.ChunkIndependence | mt-core/comms/src/cpp/ProtoMessageReader.cpp:20-100 | However a stream is cut into reads, feeding the reads and keeping the leftovers delivers, consumes, needs and refuses what one pass over the whole stream does |
| Framing.ParseAppend | mt-core/comms/src/cpp/ProtoMessageReader.cpp:20-100 | Bytes that arrive later change nothing already decided |
| Framing.ParseFrames | mt-core/comms/src/cpp/ProtoMessageReader.cpp:68-98 | The reader undoes the sender on a whole stream if and only if no body is longer than 10000 bytes |
| Framing.ParsePrefixOfFrames | mt-core/comms/src/cpp/ProtoMessageReader.cpp:68-98 | Any prefix of a stream of frames parses to a prefix of the messages; only a body longer than 10000 bytes is refused |
| Framing.ParseConsumesFrames | mt-core/comms/src/cpp/ProtoMessageReader.cpp:85-98 | The bytes consumed are, byte for byte, the frames of the messages delivered |
| Framing.ParseLeavesPartialFrame | mt-core/comms/src/cpp/ProtoMessageReader.cpp:29-83 | After a pass without refusal no whole frame is left, and leftover plus needed is at most 10004 |
| Framing.FramesPrefix | mt-core/comms/src/cpp/ProtoMessageSender.cpp:39-58 | Framing is uniquely decodable: a prefix relation on streams is one on messages |
| Framing.HeaderRoundTrip | basic_comms/src/cpp/CharArrayBuffer.hpp:29-61 | Reading a written 32-bit header in the same byte order gives the number back |
| Framing.HeaderWeighs | basic_comms/src/cpp/CharArrayBuffer.hpp:29-61 | Which byte of a written header is which: the first weighs 2^24 in network order and 1 in little-endian order, and so on down or up |
| Framing.HeaderValueWeighs | basic_comms/src/cpp/ConstCharArrayBuffer.hpp:29-61 | The same for the number read from any four bytes |
| Framing.FrameAsksForTheRest | mt-core/comms/src/cpp/ProtoMessageReader.cpp:29-83 | Part of a frame asks for the rest of its header, then for the rest of the frame; whole, it is handed on; over 10000 bytes, it is refused |
| Framing.HeaderOfValue | basic_comms/src/cpp/ConstCharArrayBuffer.hpp:29-61 | Any four bytes are the header of the number they read as |
| ProtoMessageReaders.CheckSettled | mt-core/comms/src/cpp/ProtoMessageReader.cpp:60-100 | On a settled order checkForMessage is the plain parser |
| ProtoMessageReaders.DetectsLittle | mt-core/comms/src/cpp/ProtoMessageReader.cpp:39-45 | The stream of a little-endian peer is parsed from the start as if its order had been known |
| ProtoMessageReaders.DetectionExact | mt-core/comms/src/cpp/ProtoMessageReader.cpp:39-58 | For every first header there is, detection settles on the order of the peer if and only if the peer is little-endian and its header below 65535, or a network-order peer, its header is not mistaken for a little-endian one, and the four bytes after it, not the header, are below 65535 in network order |
| ProtoMessageReaders.NothingIsStored | mt-core/comms/src/cpp/ProtoMessageReader.cpp:35-58 | With the endpoint gone no detected order is stored, and in a bad order nothing is read |
| ProtoMessageReaders.PassLeaves | mt-core/comms/src/cpp/ProtoMessageReader.cpp:29-83 | Whatever the byte order, a pass that does not throw leaves and still needs together no more than a frame, plus four bytes where a detection was missed |
| ProtoMessageReaders.NetworkPeerTurnedAway | mt-core/comms/src/cpp/ProtoMessageReader.cpp:46-58 | A network-order peer whose first message is the single byte A is refused |
| ProtoMessageReaders.NetworkPeerMisread | mt-core/comms/src/cpp/ProtoMessageReader.cpp:46-58 | A network-order peer that is recognised has its first body taken for a header |
| ProtoMessageReaders.NetworkHeaderReadAsLittle | mt-core/comms/src/cpp/ProtoMessageReader.cpp:40-41 | What any network-order length looks like to the little-endian trial, and exactly when it passes |
| ProtoMessageReaders.ProtoMessageReader.CheckForMessage | mt-core/comms/src/cpp/ProtoMessageReader.cpp:8-101 | The loop over the regions does what the specification says of their bytes: counts or exception, byte order, and the bodies handed to onComplete in order |
| ProtoMessageReaders.ProtoMessageReader.TakeMessages | mt-core/comms/src/cpp/ProtoMessageReader.cpp:20-101 | The same for the loop on a stream already open |
| ProtoMessageReaders.ProtoMessageReader.TakeMessage | mt-core/comms/src/cpp/ProtoMessageReader.cpp:29-98 | One turn: wait, throw, or hand on one body and move past it |
| ProtoMessageReaders.ProtoMessageReader.ReadHead | mt-core/comms/src/cpp/ProtoMessageReader.cpp:35-66 | The header in the known order, or the two trials without rewinding in between |
| ProtoMessageReaders.ProtoMessageReader.Complete | mt-core/comms/src/cpp/ProtoMessageReader.cpp:89-98 | The handler sees exactly the next body, and the cursor moves past it |
| ProtoMessageReaders.ProtoMessageReader.SetDetectedEndianness | mt-core/comms/src/cpp/ProtoMessageReader.cpp:103-109 | The order changes only while the endpoint is alive |
| ProtoMessageSenders.ProtoMessageSender.CheckForSpace | mt-core/comms/src/cpp/ProtoMessageSender.cpp:5-66 | The messages that fit leave the queue, their frames fill the first cells of the regions in order, nothing else is written, or it throws having written nothing; with the endpoint gone it does nothing |
| ProtoMessageSenders.ProtoMessageSender.WriteFrames | mt-core/comms/src/cpp/ProtoMessageSender.cpp:11-64 | The loop: one frame per message popped, until none fits or none is left |
| ProtoMessageSenders.ProtoMessageSender.WriteFrame | mt-core/comms/src/cpp/ProtoMessageSender.cpp:39-62 | Header in the settled order followed by the body |
| ProtoMessageSenders.FitsIsMaximal | mt-core/comms/src/cpp/ProtoMessageSender.cpp:30-37 | The sender takes as many messages from the front as fit: their frames fit, and with one more they would not |
| ProtoMessageSenders.FrontBlocks | mt-core/comms/src/cpp/ProtoMessageSender.cpp:30-37 | A message longer than the send ring blocks the queue for good: with it in front no pass ever moves anything |
| ProtoMessageSenders.TransmitQueue.Send | basic_comms/src/cpp/EndpointBase.cpp:383-396 | The queue takes a message unless 50 are waiting |
| ProtoMessageSenders.TransmitQueue.PopFront | mt-core/comms/src/cpp/ProtoMessageSender.cpp:57-58 | The front message leaves |
| CharArrayBuffers.ConstCharArrayBuffer.GetCharAt | basic_comms/src/cpp/ConstCharArrayBuffer.hpp:158-182 | The byte at a position of the regions laid end to end; 255 past the size |
| CharArrayBuffers.ConstCharArrayBuffer.UFlow | basic_comms/src/cpp/ConstCharArrayBuffer.hpp:199-209 | The next byte and one step on, or end of file and no step |
| CharArrayBuffers.ConstCharArrayBuffer.Read | basic_comms/src/cpp/ConstCharArrayBuffer.hpp:29-44 | Four bytes, the first weighing 2^24, each missing one read as 255 |
| CharArrayBuffers.ConstCharArrayBuffer.ReadLittleEndian | basic_comms/src/cpp/ConstCharArrayBuffer.hpp:46-61 | Four bytes, the last weighing 2^24, each missing one read as 255 |
| CharArrayBuffers.MissingBytesAre255 | basic_comms/src/cpp/ConstCharArrayBuffer.hpp:199-209 | Where fewer than four bytes are left, end of file cast to a byte is 255 |
| CharArrayBuffers.ConstCharArrayBuffer.Advance | basic_comms/src/cpp/ConstCharArrayBuffer.hpp:211-215 | The cursor moves, past the end if asked to |
| CharArrayBuffers.ConstCharArrayBuffer.Limited | basic_comms/src/cpp/ConstCharArrayBuffer.hpp:244-249 | A view of the same bytes from the same cursor up to a limit |
| CharArrayBuffers.ConstCharArrayBuffer.CopyOut | basic_comms/src/cpp/ConstCharArrayBuffer.hpp:253-262 | The rest of the stream, which is then exhausted |
| CharArrayBuffers.CharArrayBuffer.PutCharAt | basic_comms/src/cpp/CharArrayBuffer.hpp:202-223 | One byte of the stream and of the store changes, or none past the size |
| CharArrayBuffers.CharArrayBuffer.OFlow | basic_comms/src/cpp/CharArrayBuffer.hpp:279-289 | One byte written and one step on, or nothing |
| CharArrayBuffers.CharArrayBuffer.XSPutN | basic_comms/src/cpp/CharArrayBuffer.hpp:256-265 | The bytes overlay the stream from the cursor; those past the end are lost, and the cursor moves all the same |
| CharArrayBuffers.CharArrayBuffer.Write | basic_comms/src/cpp/CharArrayBuffer.hpp:29-44 | A network-order header overlays the stream, its first byte weighing 2^24 |
| CharArrayBuffers.CharArrayBuffer.WriteLittleEndian | basic_comms/src/cpp/CharArrayBuffer.hpp:46-61 | A little-endian header overlays the stream, its last byte weighing 2^24 |
| CharArrayBuffers.GatherAt | basic_comms/src/cpp/ConstCharArrayBuffer.hpp:167-180 | Walking the regions finds the byte of the concatenated stream |
| CharArrayBuffers.GatherUpdate | basic_comms/src/cpp/CharArrayBuffer.hpp:208-221 | Writing one cell of disjoint regions changes one byte of the stream |
| CharArrayBuffers.LocateInjective | basic_comms/src/cpp/CharArrayBuffer.hpp:208-221 | Distinct stream positions are distinct cells |
| RingBuffers.RingBuffer.MarkSpaceUsed | basic_comms/src/cpp/RingBuffer.hpp:96-110 | The first free bytes join the end of the queue, across the wrap; the rest of the space stays |
| RingBuffers.RingBuffer.MarkDataUsed | basic_comms/src/cpp/RingBuffer.hpp:112-126 | The oldest bytes leave the queue, and their cells become the last of the space |
| RingBuffers.RingBuffer.GetDataBuffers | basic_comms/src/cpp/RingBuffer.hpp:80-94 | The regions are the queue in order if and only if the ring is not completely full (or has no cells); a full ring shows none |
| RingBuffers.RingBuffer.GetSpaceBuffers | basic_comms/src/cpp/RingBuffer.hpp:64-78 | The regions are the free cells in order |
| RingBuffers.RingBuffer.SpaceRegionsAreFree | basic_comms/src/cpp/RingBuffer.hpp:64-78 | The space regions are disjoint, hold no queued byte and cover every other cell |
| RingBuffers.RingBuffer.WritingSpaceKeepsContents | basic_comms/src/cpp/RingBuffer.hpp:64-78 | Writing to the space regions leaves the queue alone |
| RingBuffers.RingBuffer.WritepIsCell | basic_comms/src/cpp/RingBuffer.hpp:96-126 | The write position is the read position plus the queue length, modulo the size |
| RingBuffers.RingBuffer.Clear | basic_comms/src/cpp/RingBuffer.hpp:41-45 | An empty queue in an empty ring |
| RingBuffers.WindowRegionsGather | basic_comms/src/cpp/RingBuffer.hpp:70-91 | The two regions of a window read, in order, as the window |
| RingBuffers.WindowsPartition | basic_comms/src/cpp/RingBuffer.hpp:64-94 | The filled and the free window share no cell and together are the ring |
| MerkleTrees.MerkleTree.CalculateRoot | fetch_teams/ledger/experimental/crypto/merkle_tree.cpp:41-79 | The root is the recursive hash of the padded leaves, the hash of nothing for no leaves, the leaf itself for one |
| MerkleTrees.SmallestRoots | fetch_teams/ledger/experimental/crypto/merkle_tree.cpp:41-79 | No leaves: the hash of nothing; one: the leaf; two: the hash of both, in order |
| MerkleTrees.RootsJoin | fetch_teams/ledger/experimental/crypto/merkle_tree.cpp:62-78 | Two full trees of one height side by side have the hash of their roots, left before right |
| MerkleTrees.RootIsDigest | fetch_teams/ledger/experimental/crypto/merkle_tree.cpp:41-79 | Every root is 32 bytes, for leaves of 32 bytes and for none |
| MerkleTrees.MerkleTree.Condense | fetch_teams/ledger/experimental/crypto/merkle_tree.cpp:65-72 | Overwriting the front of the vector while reading ahead yields exactly the parents |
| MerkleTrees.MerkleTree.Pad | fetch_teams/ledger/experimental/crypto/merkle_tree.cpp:55-60 | The loop stops, at the least power of two, having appended only empty digests |
| MerkleTrees.MerkleTree.CondenseAll | fetch_teams/ledger/experimental/crypto/merkle_tree.cpp:62-78 | Condensing level by level ends in the hash of the balanced tree |
| MerkleTrees.ParentsKeepTreeHash | fetch_teams/ledger/experimental/crypto/merkle_tree.cpp:62-75 | One level of parents has the tree hash of its children |
| MerkleTrees.IsLog2IsPow2 | fetch_teams/ledger/experimental/vectorise/platform.hpp:229-232 | value & (value - 1) is zero for the powers of two and, but for zero itself, for nothing else |
| MerkleTrees.CeilPow2IsLeast | fetch_teams/ledger/experimental/crypto/merkle_tree.cpp:57-60 | The padded length is the least power of two that is long enough |
| MerkleTrees.RootBinds | fetch_teams/ledger/experimental/crypto/merkle_tree.cpp:55-78 | Equal roots of trees of one height, all leaves of 32 bytes, mean equal leaves in equal number, or the proof returns two inputs with one hash |
| MerkleTrees.PaddedBinds | fetch_teams/ledger/experimental/crypto/merkle_tree.cpp:55-78 | The same for two padded levels: a different number of leaves shows in the length of something hashed |
| MerkleTrees.HeightIsNotBound | fetch_teams/ledger/experimental/crypto/merkle_tree.cpp:62-75 | The height is not bound: the parents of a full level, as leaves, have the root of their children |
| MerkleTrees.ExtractCollision | fetch_teams/ledger/experimental/crypto/merkle_tree.cpp:62-75 | From two different levels of one shape and one hash, two different inputs with one hash |
| MerkleTrees.LeafCountIsNotBound | fetch_teams/ledger/experimental/crypto/merkle_tree.cpp:57-60 | The count is not bound: an empty-digest leaf is what padding adds |
| CircularQueues.CircularQ.PushBack | 3rd/spdlog/details/circular_q.h:26-37 | The item joins the end; on a full ring the oldest leaves and the counter goes up |
| CircularQueues.CircularQ.PopFront | 3rd/spdlog/details/circular_q.h:40-44 | The oldest item leaves and is returned |
| CircularQueues.CircularQ.Empty | 3rd/spdlog/details/circular_q.h:46-49 | True if and only if nothing is held |
| CircularQueues.CircularQ.Full | 3rd/spdlog/details/circular_q.h:51-55 | True if and only if max items are held |
| CircularQueues.CircularQ.constructor | 3rd/spdlog/details/circular_q.h:19-23 | An empty queue for max items |
| CircularQueues.MpmcBlockingQueue.Enqueue | 3rd/spdlog/details/mpmc_blocking_q.h:34-43 | The caller waits on, and nothing changes, if and only if the queue is full; otherwise the item joins the end |
| CircularQueues.MpmcBlockingQueue.EnqueueNoWait | 3rd/spdlog/details/mpmc_blocking_q.h:45-53 | The item joins the end, overrunning the oldest if it must |
| CircularQueues.MpmcBlockingQueue.DequeueFor | 3rd/spdlog/details/mpmc_blocking_q.h:55-69 | The oldest item, or nothing when the queue stayed empty |
| CircularQueues.RunKeeps | 3rd/spdlog/details/circular_q.h:26-55 | For every mix of operations: pushed = popped + held + overrun, the held are the newest, pops come in push order, and an overrun item had max newer ones behind it |
| CircularQueues.BlockingRunsAreFifo | 3rd/spdlog/details/mpmc_blocking_q.h:35-69 | With blocking enqueues only, nothing is overrun and popped followed by held is pushed |
| ThreadPools.GracefulShutdown | 3rd/spdlog/details/thread_pool.h:141-158 | After any use, and a destruction without overrunning posts: what was queued is dequeued before the first worker leaves, the destructor can finish if and only if the queue has room at all, and at its end everything accepted was finished with, overrun before, or posted too late |
| ThreadPools.FinishesExactlyWhen | 3rd/spdlog/details/thread_pool.h:141-158 | From any state of a destruction its end can be reached if and only if the capacity is positive and no terminate message was overrun |
| ThreadPools.EveryScheduleFinishes | 3rd/spdlog/details/thread_pool.h:196-234 | However the steps are scheduled, no run of the pool by itself is longer than the work there was, and one that can go no further has finished |
| ThreadPools.SomethingCanMove | 3rd/spdlog/details/thread_pool.h:143-152 | While the destructor is not done some step can be taken: a blocked post has a live drainer, a join a worker that can still move |
| ThreadPools.NeverFinishes | 3rd/spdlog/details/thread_pool.h:143-152 | With no capacity, or a terminate message overrun, no run ends the destruction |
| ThreadPools.OverrunPostStrands | 3rd/spdlog/details/thread_pool.h:184-194 | An overrunning post onto a queue full of terminates makes the destructor wait for ever |
| ThreadPools.TerminatesMatchLiveWorkers | 3rd/spdlog/details/thread_pool.h:145-148 | Terminates queued, still to post and overrun are as many as the live workers |
| ThreadPools.QueuedAreTakenFirst | 3rd/spdlog/details/thread_pool.h:204-231 | With nothing overrun since, no worker leaves before everything queued at the start of destruction has been dequeued |
| ThreadPools.DoneMeansHandled | 3rd/spdlog/details/thread_pool.h:141-158 | At the end every accepted message is finished with, overrun, or arrived after destruction began |
| ThreadPools.StepKeepsSane | 3rd/spdlog/details/thread_pool.h:184-234 | Every step keeps the conservation, terminate, join and order invariants |
| ThreadPools.CreatedIsSane | 3rd/spdlog/details/thread_pool.h:124-138 | A pool is made for 1 to 1000 threads and for no other number, and starts in order |
| ThreadPools.ThreadPool.constructor | 3rd/spdlog/details/thread_pool.h:124-138 | Threads and queue as asked, or none where the source throws |
| ThreadPools.ThreadPool.PostAsyncMsg | 3rd/spdlog/details/thread_pool.h:184-194 | The message joins the queue, except under the blocking policy on a full one, where the caller waits on |
| ThreadPools.ThreadPool.ProcessNextMsg | 3rd/spdlog/details/thread_pool.h:204-234 | Takes the oldest message if there is one and has it logged or flushed; a terminate, and nothing else, ends the worker |
| Decimals.CountIsLength | 3rd/spdlog/fmt/bundled/format.h:769-774 | For every 64-bit number the bit-length estimate corrected by the table is the number of decimal digits |
| Decimals.Bracketed | 3rd/spdlog/fmt/bundled/format.h:772-772 | Numbers of l bits have l * 1233 / 4096 digits or one more, for every l up to 64 |
| Decimals.ShortTableSuffices | 3rd/spdlog/fmt/bundled/format.h:899-902 | The 32-bit overload never looks past its table |
| Decimals.CountDigitsFallback | 3rd/spdlog/fmt/bundled/format.h:777-792 | The loop by ten thousands counts the digits |
| Decimals.FormatDecimal | 3rd/spdlog/fmt/bundled/format.h:956-983 | The digits, grouped in threes from the right when there is a separator, end where the reserved cells end, and no other cell changes |
| Decimals.DecimalWriter.PutPair | 3rd/spdlog/fmt/bundled/format.h:964-973 | One turn: two digits and the separators due after them |
| Decimals.DecimalWriter.ThousandsSep | 3rd/spdlog/fmt/bundled/format.h:930-936 | A separator after every third digit |
| Decimals.RemainingIsGrouped | 3rd/spdlog/fmt/bundled/format.h:930-983 | Separators put after every third digit from the right are separators in front of every group of three |
| Decimals.GroupedAt | 3rd/spdlog/fmt/bundled/format.h:930-983 | Counted from the right every fourth character is the separator, and the three between are the next three digits |
| Decimals.TheDigits | 3rd/spdlog/fmt/bundled/format.h:956-983 | The ten digit characters and their values |
| Decimals.SizeIsExact | 3rd/spdlog/fmt/bundled/format.h:2484-2490 | The cells reserved -- digits plus one separator per full group before the last -- are exactly those written |
| Decimals.LocalBufferHolds | 3rd/spdlog/fmt/bundled/format.h:985-997 | The local buffer of max_size + max_size / 3 cells always holds the digits and one-character separators |
| Decimals.MostDigits | 3rd/spdlog/fmt/bundled/format.h:985-997 | The two unsigned types have at most 20 and 10 digits |
| Decimals.PlainText | 3rd/spdlog/fmt/bundled/format.h:2409-2413 | Without a separator the text is the digits |
| Decimals.ParseNonnegativeInt | 3rd/spdlog/fmt/bundled/format.h:1453-1477 | Zero alone, or the whole run of digits when its value is an int, or an error; the 32-bit accumulator never wraps |
| Decimals.ZeroStandsAlone | 3rd/spdlog/fmt/bundled/format.h:1457-1460 | A zero is read alone, whatever follows, digits included |
| Decimals.WrittenIsReadBack | 3rd/spdlog/fmt/bundled/format.h:1453-1477 | Parsing the digits of n gives n and their length up to 2^31 - 1, and an error for every larger n |
| Decimals.DigitsOfValue | 3rd/spdlog/fmt/bundled/format.h:1453-1477 | A digit string without leading zero is the one way to write its value |
| FpProducts.ProductIsRounded | 3rd/spdlog/fmt/bundled/format-inl.h:442-451 | For all 64-bit significands the four partial products give x * y / 2^64 rounded half up, and nothing overflows |
| RotatingFileSinks.FilesAreASuffix | 3rd/spdlog/sinks/rotating_file_sink.h:67-122 | After any number of messages, renames failing at most once each, the files read oldest to newest are the end of what was there followed by everything logged |
| RotatingFileSinks.FilesAreASubsequence | 3rd/spdlog/sinks/rotating_file_sink.h:67-122 | Whichever renames fail, the files read oldest to newest are what was there and logged with some left out: nothing twice, out of order or made up |
| RotatingFileSinks.LiveFileIsBounded | 3rd/spdlog/sinks/rotating_file_sink.h:67-121 | Whichever renames fail, the live file is longer than max_size only while it holds a single message |
| RotatingFileSinks.SinkStep | 3rd/spdlog/sinks/rotating_file_sink.h:67-78 | One message: nothing or the oldest whole file goes, the message comes last |
| RotatingFileSinks.RotationDropsOldest | 3rd/spdlog/sinks/rotating_file_sink.h:91-122 | A rotation removes the file at max_files if the one before it exists, and nothing else |
| RotatingFileSinks.FilesMoveOn | 3rd/spdlog/sinks/rotating_file_sink.h:84-120 | Each file moves from its index to the next, a gap moves likewise, the last stays unless overwritten, and the live file is empty |
| RotatingFileSinks.FilesMoveToTheJam | 3rd/spdlog/sinks/rotating_file_sink.h:104-117 | A rotation that fails at an index has moved the files from there up and none below, has lost what it was to replace, and empties the live file |
| RotatingFileSinks.StuckAtTheFirst | 3rd/spdlog/sinks/rotating_file_sink.h:91-117 | It fails at the first existing file from the old end whose rename fails twice |
| RotatingFileSinks.JamLosesLiveFile | 3rd/spdlog/sinks/rotating_file_sink.h:104-117 | A rotation that fails for good, at whichever index, loses the live file besides; every other file is still there, in order |
| RotatingFileSinks.JamStep | 3rd/spdlog/sinks/rotating_file_sink.h:67-117 | A message whose rotation fails for good is lost with the live file, which is empty and counted as empty afterwards |
| RotatingFileSinks.RotatingFileSink.Rotate | 3rd/spdlog/sinks/rotating_file_sink.h:91-120 | Every file of the chain moves one place, gaps included, or all above the first whose rename fails twice do and it throws; the live file is empty either way, files outside the chain are untouched |
| RotatingFileSinks.RotatingFileSink.SinkIt | 3rd/spdlog/sinks/rotating_file_sink.h:67-78 | The chain and the counted size after one message, which is written if and only if no rotation fails for good |
| RotatingFileSinks.RotatingFileSink.RenameFile | 3rd/spdlog/sinks/rotating_file_sink.h:124-129 | The target is replaced and the source gone, or only the target is gone and it reports failure |
| RotatingFileSinks.RotatingFileSink.constructor | 3rd/spdlog/sinks/rotating_file_sink.h:34-41 | The live file is opened to append, and its size is the size counted |
| RotatingFileSinks.NamesAreDistinct | 3rd/spdlog/sinks/rotating_file_sink.h:45-59 | Two indices have one name if and only if they are equal |
| RotatingFileSinks.NumberBeforeExtension | 3rd/spdlog/sinks/rotating_file_sink.h:43-59 | log.txt, log.1.txt, log.2.txt: the number goes between base and extension, and the name splits there again |
| RotatingFileSinks.NumberAtTheEnd | 3rd/spdlog/sinks/rotating_file_sink.h:43-59 | A name without an extension gets a dot and the number at its end |
| RotatingFileSinks.NumberedExample | 3rd/spdlog/sinks/rotating_file_sink.h:43-44 | File 3 of logs/mylog.txt is logs/mylog.3.txt |
| RotatingFileSinks.SplitByExtension | 3rd/spdlog/details/file_helper.h:125-145 | Base and extension make up the name; an extension starts with its only dot, is longer than that, and contains no folder separator |
| RotatingFileSinks.SplitIsComplete | 3rd/spdlog/details/file_helper.h:125-145 | A name that can be cut that way is cut there |
| PatternFormatters.EscapedTextIsVerbatim | 3rd/spdlog/details/pattern_formatter.h:1296-1333 | Text with its percent signs doubled, compiled and rendered, is the text followed by the end of line |
| PatternFormatters.EscapedPrefix | 3rd/spdlog/details/pattern_formatter.h:1296-1333 | Escaped text in front of any pattern renders verbatim and leaves the pattern as it was |
| PatternFormatters.CompilePattern | 3rd/spdlog/details/pattern_formatter.h:1296-1333 | The loop compiles what the recursive reading of the pattern says |
| PatternFormatters.FieldIsShown | 3rd/spdlog/details/pattern_formatter.h:1083-1249 | A percent sign, side, width and flag, whatever follows: each flag there is shows its field with that padding, %% one percent sign, any other appears as written |
| PatternFormatters.UnfinishedFieldIsDropped | 3rd/spdlog/details/pattern_formatter.h:1310-1320 | A pattern that ends before the flag shows nothing for it |
| PatternFormatters.WidthAsWritten | 3rd/spdlog/details/pattern_formatter.h:1281-1292 | A width below 2^64 is the width asked for, capped at 128; without one there is no padding |
| PatternFormatters.PaddingIsPlaced | 3rd/spdlog/details/pattern_formatter.h:53-94 | Left: the spaces in front; right: behind; center: half in front, rounded down; nothing but spaces and the content |
| PatternFormatters.HandlePadspec | 3rd/spdlog/details/pattern_formatter.h:1256-1294 | Side and width as written, the width modulo 2^64 and at most 128 |
| PatternFormatters.WidthIsExact | 3rd/spdlog/details/pattern_formatter.h:1281-1290 | The width is the one written, capped at 128, if and only if it is below 2^64 or wraps around to 128 or more |
| PatternFormatters.WideWidthWraps | 3rd/spdlog/details/pattern_formatter.h:1281-1290 | 18446744073709551617 pads to one character |
| PatternFormatters.CompiledWidths | 3rd/spdlog/details/pattern_formatter.h:96-101 | No pattern compiles to a field wider than 128, so pad_it always has the spaces |
| PatternFormatters.PaddedWidth | 3rd/spdlog/details/pattern_formatter.h:53-94 | A field whose declared size is right is as wide as asked for, or as it is |
| Encoders.ToBase64 | fetch_teams/ledger/experimental/core/encoders.cpp:26-89 | The array is the section 4 of RFC 4648 encoding of the input, every cell written |
| Encoders.EncodeAt | fetch_teams/ledger/experimental/core/encoders.cpp:46-89 | Character by character: which bits of which bytes it stands for, or the pad |
| Encoders.Alphabet | fetch_teams/ledger/experimental/core/encode_decode.cpp:25-25 | A to Z, a to z, 0 to 9, + and / |
| Encoders.DecodedComesBack | fetch_teams/ledger/experimental/core/encode_decode.cpp:25-40 | What decodes is encoded again as it was if and only if its leftover bits are zero |
| Encoders.Base64RoundTrip | fetch_teams/ledger/experimental/core/encode_decode.cpp:29-40 | Decoding through the base64decode table recovers every byte string |
| Encoders.EncodeLength | fetch_teams/ledger/experimental/core/encoders.cpp:39-44 | The encoding of n bytes has 4 * ceil(n / 3) characters |
| Encoders.TablesAgree | fetch_teams/ledger/experimental/core/encode_decode.cpp:25-40 | The two base64 tables undo each other |
| Encoders.ToHex | fetch_teams/ledger/experimental/core/encoders.cpp:91-105 | Two characters a byte, high half first |
| Encoders.HexAt | fetch_teams/ledger/experimental/core/encoders.cpp:91-105 | For each byte the character of its high half and then of its low half, in 0 to 9 and small a to f |
| Encoders.HexDecodes | fetch_teams/ledger/experimental/core/encode_decode.cpp:42-63 | What decodes: whole pairs of digits and of letters a to f in either case |
| Encoders.HexComesBack | fetch_teams/ledger/experimental/core/encode_decode.cpp:42-63 | Text in small letters that decodes is encoded again as it was |
| Encoders.CapitalsAreSmall | fetch_teams/ledger/experimental/core/encode_decode.cpp:42-63 | Capital letters stand for what small ones do |
| Encoders.HexRoundTrip | fetch_teams/ledger/experimental/core/encode_decode.cpp:42-63 | DecodeHexChar undoes ToHex pair by pair |

## Left out

- Boost.Asio, Core, Listener and the resolver: a read or write is an environment step that moves some bytes in order, or fails.
- Protobuf: a message is the byte string its serialisation gives, its length is ByteSize; that the two agree is assumed.
- Websocket endpoints, whose asynchronous read captures a parameter by reference.
- EndpointBase::connect, which stores a fresh state: the runs start after set-up.
- The singular getSpaceBuffer and getDataBuffer, which lock a mutex already held, and the string forms of read and write.
- The ready signals of the ring, wake, onStart and the texts of log messages and exceptions: events without an effect here.
- Exceptions thrown by the handlers that onComplete and onStart run; those of the terminal handlers are swallowed by the source.
- Expiry of the weak reference to the endpoint in the interleaved model: there the endpoint is alive; the reader class has both cases.
- The transmit queue is pushed under one mutex and popped under another; each push and each pop is one atomic step here.
- Integer width of stream cursors and sizes: the streams require the total of their regions to fit an int, as their fields do; queue and overrun counters and file sizes are unbounded.
- SHA-256, keys, signatures and memory wrappers: the hash is any function from bytes to bytes, of 32 bytes where the binding lemmas say so.
- Log2Ceil, DivideCeil and the other helpers of platform.hpp.
- Condition variables: a wait is a step that cannot be taken before its condition holds, a timed wait may also return empty-handed; worker exceptions and the catch-all around the destructor are not modelled.
- Opens and writes of the rotating sink that fail, and the pause before a rename is tried again.
- fmt argument packing, locales, other number bases, the Grisu digit generator and the cached powers of ten.
- The fields a pattern can name: what each writes is a parameter of Render, and the flag letter that needs a compile-time switch is unknown here.
- The bit-reversing and binary encoders, and the decode table's marks for characters that no encoder writes beyond their ranges.
- Logger, Monitoring, Counter, Gauge, Agents, Taskpool, Notification and Karma: maps and output only.
