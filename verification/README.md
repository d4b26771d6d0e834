# Verification model of the chat application

A Dafny 4.11 model of an asynchronous TCP/TLS chat server (coroutines on one event loop) and of its
Qt client, with proofs of what the two promise. `dafny verify dfyconfig.toml` checks everything.

## What is modelled

**The server** is a transition system (`Server.dfy`). Its state is the room (members, bounded history,
the whole log as history) and, per session, the handshake, the writer, the reader, the outbox and the
read buffer. One step is one resumption of one coroutine: the server runs a single `io_context` on one
thread, so control changes hands only at a `co_await`. Timers, sockets and clients are nondeterministic.
`ServerInvariants.dfy` proves the invariant, `ServerTheorems.dfy` what follows for every run: what a
session is sent, who may speak, the life of a session, bounds. `ServerAdmission.dfy` says what becomes of a
session by its own events, `ServerOutbox.dfy` follows its texts to its socket, `ServerSpeech.dfy` a client's
bytes through its reader to the log, and `ServerReading.dfy` says that the reader goes on and how it ends.
`ServerScenarios.dfy` gives runs in which the surprising cases below happen.

**The handshake** (`Handshake.dfy`) is the race of password read and countdown under asio's `&&`, with
cancellation in both directions, on its own: safety over every interleaving, termination, and no waiting
on a silent client.

**The objects** (`ChatServer.dfy`: `ChatRoom`, `ChatSession`, `HandShaker`; `ChatClient.dfy`:
`MainWindow`, `TcpPresenter`, `HandShaker`, `TcpClientModel`) are classes with the source's fields. Their
methods are what a coroutine or an event handler does in one go, and each is proved to refine its step of
the transition system, so everything proved there holds of the objects.

**The wire** (`Delimiter.dfy`, `FrameReader.dfy`, `ClientCodec.dfy`, `SessionId.dfy`): the `\r\n` framing
in both directions against one reference splitter, over arbitrary chunking, and the decimal session id.

**The client** (`Client.dfy`) is a transition system over its events in any order. `Conversation.dfy` joins it to
the server: what it makes of the replay, and under which id it speaks.

**The configuration** (`Trim.dfy`, `JsonLoader.dfy`, `ConfigRoundTrip.dfy`, `NetworkConfig.dfy`): the
hand-written reader, its round trip, and the normalisation of the connection mode.

One char of a Dafny string stands for one char of the `std::string` (or `QString`) it models.

## What the code does that its reader may not expect

- A session is in the room from its join, before the password: it is sent live messages while it is still
  to be accepted, and some of them again in the replay (`HandedBeforeAcceptance`, `HandedAgainAfterwards`;
  exactly which, in `HowOftenDelivered`).
- When both sides of the handshake throw, `try_connect` does not catch the combined exception and the
  completion token is never called (`Handshake.NobodyIsTold`). This happens exactly in the runs that report the
  time-out and whose password read fails, or matches after being cancelled (`EveryRunIsSafe`, `Outcome`). Such a
  session is never stopped by its handshake and stays in the room until a write fails (`AbandonedSessionStays`).
- The reader broadcasts up to the last CR or LF of its whole buffer but erases only the first frame, so
  frames that arrive together are broadcast together, and then again
  (`WholeMessagesAreBroadcastTogether`, `CoalescedFramesAreBroadcastTogether`); `EveryPass` says exactly when a broadcast is the frame.
- The client decodes every received chunk by itself, so a message cut between two chunks becomes two
  (`ChunkwiseDecoding` says exactly when nothing is cut).
- A client takes the first number it is sent for its session id, and a live message may come before the id
  (`MistakenIdentity`, with the exact condition in `SpeaksUnderItsId`).
- The configuration reader takes an entry a line: two on one line are misread (`TwoEntriesOnOneLine`).
- The configuration reader looks for a quoted key anywhere on a line, so a value that reads like a key is
  taken for that key (`ShadowingExample`, with the exact condition in `RoundTrip`).
- Where the handshake replies are sent no delimiter is appended, and neither is one to live messages: only
  the replay is self-delimiting, and only for it are decoding properties stated over every chunking.

## Model

| member | source | states |
|---|---|---|
| `ServerTheorems.AcceptedDelivery` | TLS_server/src/chat_room.cpp:12-70 | over every run, everything handed to a session whose acceptance was replayed is: the live messages from its join to the private reply, its session id, the live messages up to the acceptance, the last hundred messages of the log at that point as replays, the live messages until it left or until now |
| `ServerTheorems.UnacceptedDelivery` | TLS_server/src/chat_room.cpp:12-56 | a session that was not replayed the history got the live messages of its stay, with at most one reply (the text of the one reply its handshake issued) among them |
| `ServerTheorems.HowOftenDelivered` | TLS_server/src/chat_room.cpp:31-70 | an accepted session gets a message of the log twice exactly when it came between its join and its acceptance and among the last hundred before that; it misses exactly those after it left and those before both its join and the last hundred |
| `ServerTheorems.SameOrderForAll` | TLS_server/src/chat_room.cpp:58-70 | any two sessions see the live broadcasts of their common stay in the same order, each at its distance from their own join |
| `ServerTheorems.LiveIsOneStretch` | TLS_server/src/chat_room.cpp:66-69 | the live broadcasts among what a session is handed are one unbroken stretch of the log |
| `ServerTheorems.AcceptanceGate` | TLS_server/src/chat_session.cpp:27-58 | every message of the log was broadcast at a step of the run by the reader of a session whose first frame was the non-empty password and whose handshake had already ended with an acceptance |
| `ServerTheorems.OnlyAcceptedReadersBroadcast` | TLS_server/src/chat_session.cpp:67-83 | a step that changes the log is a frame read by an accepted session, and adds exactly what that reader broadcasts |
| `ServerOutbox.OutboxConservation` | TLS_server/src/chat_session.cpp:61-65 | in every reachable state what was written followed by the outbox is the sequence of texts handed over |
| `ServerOutbox.NoLostWakeup` | TLS_server/src/chat_session.cpp:95-111 | a session with an open socket and a non-empty outbox has a writer that is starting, woken or writing, never one that only waits |
| `ServerOutbox.DrainRunDrains` | TLS_server/src/chat_session.cpp:95-111 | the writer alone, every write going through, empties the outbox in order and parks, and changes nothing else |
| `ServerOutbox.OutboxDrains` | TLS_server/src/chat_session.cpp:95-111 | over every continuation of every run, with any steps of any session in between: the steps of the writer and the measure left (twice the queue length plus the writer state) are at most the measure at the start plus three for each text handed over meanwhile; so without deliveries the writer takes at most that many steps, and once it has none left, with the socket open, everything ever handed over has been written in order |
| `ServerOutbox.StepIsAmortised` | TLS_server/src/chat_session.cpp:61-118 | the measure per step: no step of any coroutine raises it by more than three for each text it hands over, and every step of the writer lowers it |
| `ServerOutbox.WriterCanMove` | TLS_server/src/chat_session.cpp:99-111 | while the socket is open and the outbox is not empty the writer has a step to take |
| `ServerOutbox.WriterAloneDrains` | TLS_server/src/chat_session.cpp:95-111 | from every reachable state with the socket open there is a continuation, no longer than the measure, at whose end everything handed over has been written in order and the writer waits |
| `Conversation.HistoryReachesTheClient` | TLS_server/src/chat_room.cpp:31-46 | the replay to an accepted session, taken by itself: where it stands among the texts handed over and written, and that the client decodes it to the last hundred messages of the log before the acceptance, each cut at the delimiters inside it, and to the very messages exactly when none holds the delimiter |
| `Conversation.HistoryInChunks` | TLS_client/qt_client/tcp_client_model.cpp:122-142 | the same replay arriving in any chunks, each decoded by itself: the result is the same exactly when every chunk before the last ends with the delimiter |
| `Conversation.HistoryBehindOtherText` | TLS_client/qt_client/tcp_client_model.cpp:122-142 | a replay that arrives in one chunk behind other text, such as the session id, which carries no delimiter: its first message is glued to that text, the others come out as they do by themselves |
| `Conversation.SpeaksUnderItsId` | TLS_client/qt_client/hand_shaker.cpp:13-33 | over every run: once the session id has been written to an accepted session, its client, sent the written texts one at a time, is connected, and speaks under that id exactly when the first number among the live messages between join and reply, if there is one, is that id |
| `Conversation.MistakenIdentity` | TLS_client/qt_client/hand_shaker.cpp:13-25 | for any password and two different numbers, a run in which a client takes another session's message for its session id |
| `ServerAdmission.WhyItLeft` | TLS_server/src/chat_session.cpp:29-45 | over every run: a session is out of the room exactly when its handshake refused it or a read or write of it failed; and the reply that was issued was handed to it unless one had |
| `ServerAdmission.WhatItBecame` | TLS_server/include/hand_shaker.hpp:252-286 | what a session whose handshake is over has become, by its own events in a run of the whole server: abandoned after a reported time-out and a throwing read, admitted after a match in time, otherwise refused, stopped and out of the room |
| `ServerAdmission.SilentClientIsTurnedAway` | TLS_server/include/hand_shaker.hpp:132-162 | in the whole server, whatever the other sessions do and however the steps are scheduled: the session of a client that never answers ends refused, stopped, out of the room, and was handed the time-out reply unless a write failed |
| `ServerTheorems.Lifecycle` | TLS_server/src/chat_session.cpp:119-128 | socket open, not stopped and member of the room are the same; the socket was closed exactly once if stopped and never otherwise |
| `ServerTheorems.StoppedForGood` | TLS_server/src/chat_session.cpp:119-128 | after stop, no continuation hands the session anything, closes its socket again or lets it leave again |
| `ServerTheorems.EveryHandshakeIsSafe` | TLS_server/include/hand_shaker.hpp:252-286 | the race guarantees hold for every session of the server; an issued session id means the password was known |
| `ServerTheorems.AbandonedSessionStays` | TLS_server/src/chat_session.cpp:29-45 | a session whose handshake ended without calling the completion token stays in the room, over every continuation, exactly until one of its writes fails, and until then has been handed every broadcast since its join, with the time-out reply among them |
| `ServerScenarios.NobodyIsTold` | TLS_server/include/hand_shaker.hpp:256-280 | a run of the server that leads to such a session |
| `ServerScenarios.Admit` | TLS_server/include/hand_shaker.hpp:88-131 | from every state a session in the room whose handshake has just begun can be admitted with the password; the resulting state in full |
| `ServerScenarios.Refuse` | TLS_server/include/hand_shaker.hpp:102-119 | from every state such a session that sends anything else is handed the refusal, completed with false and put out of the room |
| `ServerScenarios.HandedBeforeAcceptance` | TLS_server/src/chat_room.cpp:12-21 | for every password and message, a run in which a session is handed a broadcast while its password is still to come |
| `ServerScenarios.HandedAgainAfterwards` | TLS_server/src/chat_room.cpp:31-46 | its continuation in which the session is accepted and handed the same message again, by the replay |
| `ServerTheorems.HistoryRefinesLog` | TLS_server/src/chat_room.cpp:58-64 | the bounded history is the last min(100, n) messages of the unbounded log, in order |
| `ServerTheorems.ByteBounds` | TLS_server/include/chat_session.hpp:45 | read buffers hold at most 1024 chars, logged messages 1022, the history 102200, one replay 102400 |
| `ServerInvariants.StepKeepsInv` | TLS_server/src/chat_session.cpp:27-128 | every step of every coroutine keeps the invariant behind all of these |
| `ServerInvariants.RoomDeliverKeepsInv` | TLS_server/src/chat_room.cpp:58-70 | a broadcast keeps the delivery structure of every session, those in the room and those that left |
| `ServerInvariants.HandshakeKeepsInv` | TLS_server/include/hand_shaker.hpp:88-188 | a handshake step, with the reply, the replay or the stop it causes, keeps it |
| `ServerInvariants.PasswordCheck` | TLS_server/include/hand_shaker.hpp:49-63 | the length test and the comparison accept exactly a non-empty password equal to the first frame |
| `ServerSpeech.LogIsWhatTheLoopBroadcasts` | TLS_server/src/chat_session.cpp:67-83 | over every run and interleaving the messages of a session in the log are the broadcasts of the read loop on the chunks that session read, in order, up to the frames still in its buffer |
| `ServerReading.ReaderGoesOn` | TLS_server/src/chat_session.cpp:72-83 | over every run: a session with an open socket has a reader that starts or reads exactly when it was accepted; no message ends it |
| `ServerReading.EveryMessageCanBeSaid` | TLS_server/src/chat_session.cpp:67-83 | from every reachable state an accepted session with an open socket and an empty buffer can say any list of delimiter-free messages of at most 1022 chars: a continuation adds exactly these to the log, as its own, and leaves it reading |
| `ServerReading.StoppedWindsDown` | TLS_server/src/chat_session.cpp:72-118 | over every continuation a stopped session says at most one message more, and only if its reader was reading, and is written at most one text more, and only if its writer was writing |
| `ServerReading.PassCanBeTaken` | TLS_server/src/chat_session.cpp:74-83 | that one message does come: a running reader with a frame in its buffer can broadcast it with the socket closed |
| `ServerReading.FailureIsLast` | TLS_server/src/chat_session.cpp:85-117 | over every continuation nothing is written after a failed write, and nothing said after a failed read |
| `ServerReading.StoppedTasksEnd` | TLS_server/src/chat_session.cpp:67-118 | when no task of a stopped session can be resumed, its reader and writer are gone, but for a writer that waits with nothing to write |
| `ServerSpeech.SentMessagesReachTheLog` | TLS_server/src/chat_session.cpp:72-83 | if the bytes a session read are the beginning of delimiter-free messages, each sent with the delimiter, its k-th message in the log is a stretch of its own bytes from message k to just before the last CR or LF in the buffer of that pass, and is message k exactly when nothing behind it holds one; there are as many as passes |
| `ServerSpeech.StepKeepsSpoken` | TLS_server/src/chat_session.cpp:67-83 | every step keeps: the bytes taken in are the frames erased and what is left in the buffer, the session said what the passes over its buffers broadcast, and its reader stands where the read loop stands |
| `Handshake.EveryRunIsSafe` | TLS_server/include/hand_shaker.hpp:88-188 | over every interleaving: at most one reply; at most one completion, true only after the session id was issued and never false after that; a handshake that is over has called the token unless the time-out was reported and the password read failed, or matched after being cancelled |
| `Handshake.Outcome` | TLS_server/include/hand_shaker.hpp:252-286 | what a handshake that is over told the session, as a function of the events of its run: nothing after a reported time-out and a throwing read, true if a match was read in time, otherwise false |
| `Handshake.NobodyIsTold` | TLS_server/include/hand_shaker.hpp:256-280 | the four-step run in which both sides throw and the completion token is never called |
| `Handshake.SessionIdNeedsMatch` | TLS_server/include/hand_shaker.hpp:88-131 | the session id is issued exactly in the runs where a matching frame is read before the handshake is terminating |
| `Handshake.FirstAskedIsIssued` | TLS_server/include/hand_shaker.hpp:88-188 | which reply is issued, for every run: that of the first event that asks for one, be it a password that matches, one that does not, or the timer; none if there is no such event |
| `Handshake.NothingIsRuledOut` | TLS_server/include/hand_shaker.hpp:49-162 | a password read that is awaited can end in every way, a timer that runs can fire, and with no reply before each then issues its own: the id, the refusal, nothing for a failed read, the time-out |
| `Handshake.ThrowCancelsTheOther` | TLS_server/include/hand_shaker.hpp:150-188 | when one side has thrown the other can be over at its next resumption without a reply; without that the timer can be aborted exactly once an answer was issued, and the wait behind an answer never |
| `Handshake.RunsAreBounded` | TLS_server/include/hand_shaker.hpp:252-286 | no handshake takes more than six resumptions |
| `Handshake.NextInternal` | TLS_server/include/hand_shaker.hpp:150-188 | until the handshake is over some step is possible that asks nothing of the client |
| `Handshake.SilentClientIsTimedOut` | TLS_server/include/hand_shaker.hpp:132-162 | however the steps that ask nothing of the client are scheduled, there are boundedly many, and when none is left the handshake is over; a client that never sent its password has then been sent the time-out reply and completed with false |
| `Handshake.StepKeepsInv` | TLS_server/include/hand_shaker.hpp:88-188 | every resumption keeps the joint invariant of the two racing coroutines, the flags and the replies |
| `ChatServer.HandShaker.CheckPassword` | TLS_server/include/hand_shaker.hpp:49-63 | true exactly for a frame that equals a non-empty expected password |
| `ChatServer.HandShaker.PasswordRead` | TLS_server/include/hand_shaker.hpp:88-101 | resumption after the password read refines the handshake step of the transition system, room and reply included |
| `ChatServer.HandShaker.RejectConnection` | TLS_server/include/hand_shaker.hpp:102-119 | marks the handshake terminating and has the refusal delivered privately, unless it is terminating already |
| `ChatServer.HandShaker.AcceptConnection` | TLS_server/include/hand_shaker.hpp:120-131 | has the session id delivered privately unless the handshake is terminating |
| `ChatServer.HandShaker.TimeoutConnection` | TLS_server/include/hand_shaker.hpp:132-148 | marks the handshake terminating and has the time-out reply delivered privately, unless it is terminating already |
| `ChatServer.HandShaker.TimerDone` | TLS_server/include/hand_shaker.hpp:150-188 | resumption of the countdown refines the handshake step |
| `ChatServer.HandShaker.BothDone` | TLS_server/include/hand_shaker.hpp:253-280 | the join of the two sides refines the handshake step: one exception completes with false, two complete nothing |
| `ChatServer.HandShaker.SessionFlushed` | TLS_server/include/hand_shaker.hpp:281-286 | the last wait over, completion with true: replay and reader |
| `ChatServer.ChatSession.Start` | TLS_server/src/chat_session.cpp:27-59 | spawns the handshake and the writer in their first state |
| `ChatServer.ChatSession.OnConnectionResponse` | TLS_server/src/chat_session.cpp:29-45 | the completion token: join_public and the reader, or stop |
| `ChatServer.ChatSession.Deliver` | TLS_server/src/chat_session.cpp:61-65 | appends to the outbox and wakes a parked writer |
| `ChatServer.ChatSession.FrameRead` | TLS_server/src/chat_session.cpp:72-83 | one pass of the reader: broadcast up to the last CR or LF of the whole buffer, erase the first frame only |
| `ChatServer.ChatSession.WriteSucceeded` | TLS_server/src/chat_session.cpp:99-111 | pops the message that was written and goes round the loop |
| `ChatServer.ChatSession.WriteFailed` | TLS_server/src/chat_session.cpp:113-117 | ends the writer and stops the session |
| `ChatServer.ChatSession.ReadFailed` | TLS_server/src/chat_session.cpp:85-89 | ends the reader and stops the session |
| `ChatServer.ChatSession.Stop` | TLS_server/src/chat_session.cpp:119-128 | closes the socket and leaves the room, once |
| `ChatServer.ChatRoom.Join` | TLS_server/src/chat_room.cpp:12-21 | adds the session to the room, then starts it |
| `ChatServer.ChatRoom.Leave` | TLS_server/src/chat_room.cpp:23-30 | takes exactly this session out of the room |
| `ChatServer.ChatRoom.JoinPublic` | TLS_server/src/chat_room.cpp:31-46 | replays the recent messages, each with the delimiter, to a member and to nobody else |
| `ChatServer.ChatRoom.DeliverPrivate` | TLS_server/src/chat_room.cpp:47-57 | hands the text to this participant if it is in the room, and to nobody else |
| `ChatServer.ChatRoom.Remember` | TLS_server/src/chat_room.cpp:60-64 | push, then pop the front while there are too many: the last hundred remain |
| `ChatServer.ChatRoom.Deliver` | TLS_server/src/chat_room.cpp:58-70 | logs the message and hands it to every participant and nobody else |
| `FrameReader.Reader` | TLS_server/src/chat_session.cpp:67-90 | the read loop over any chunking: the frames consumed are a function of the bytes alone, the broadcasts and the buffers of the passes of bytes and chunking; frames and what remains make up the stream |
| `FrameReader.EveryPass` | TLS_server/src/chat_session.cpp:74-82 | for every stream, chunking and pass i: broadcast i starts with frame i, ends where the last CR or LF of the buffer that the i-th read left is the second char behind it, and equals the frame exactly when nothing behind the frame holds one; that buffer is a stretch of the stream from frame i on |
| `FrameReader.BroadcastAsSent` | TLS_server/src/chat_session.cpp:72-83 | the broadcasts are the frames consumed exactly when that holds at every pass |
| `FrameReader.BroadcastVersusFrame` | TLS_server/src/chat_session.cpp:75-82 | the same for one buffer |
| `FrameReader.BroadcastEnds` | TLS_server/src/chat_session.cpp:77 | exactly one prefix of the buffer has its last CR or LF as the second char behind it, and that prefix is the broadcast |
| `FrameReader.WholeMessagesAreBroadcastTogether` | TLS_server/src/chat_session.cpp:72-83 | a buffer of whole messages, and perhaps the start of another without CR or LF, is broadcast as all of the messages with the delimiter between them, and nothing else |
| `FrameReader.AsyncReadUntil` | TLS_server/src/async_tcp_socket.cpp:11-22 | the bounded read succeeds exactly when the stream has a delimiter within the bound, however it is chunked, and loses nothing |
| `FrameReader.ConsumedIsMaximal` | TLS_server/src/chat_session.cpp:72-83 | the frames consumed are the reference splitter's, in order, up to the first that does not fit in the buffer |
| `FrameReader.RoundTrip` | TLS_client/qt_client/tcp_client_model.cpp:22-29 | client to server: whatever the chunking, the frames consumed are the messages sent exactly when none holds the delimiter and each has at most 1022 chars |
| `FrameReader.SeparateChunksBroadcastTheFrames` | TLS_server/src/chat_session.cpp:72-83 | messages that arrive in chunks of their own are broadcast as they were sent |
| `FrameReader.CoalescedFramesAreBroadcastTogether` | TLS_server/src/chat_session.cpp:77-82 | the same bytes in one chunk are broadcast differently: the first broadcast carries both frames |
| `Delimiter.FramesUnique` | TLS_client/qt_client/tcp_client_model.cpp:27 | splitting is the exact inverse of appending the delimiter to each message |
| `Delimiter.FrameEndOfEncoded` | TLS_client/qt_client/tcp_client_model.cpp:27 | a message that ends in CR does not create an earlier delimiter |
| `Delimiter.FramesAppend` | TLS_server/src/chat_session.cpp:72-83 | splitting may be done as bytes arrive, keeping only the leftover |
| `ClientCodec.ReplayRoundTrip` | TLS_client/qt_client/tcp_client_model.cpp:122-139 | the client decodes a replayed history to the same list exactly when no message holds the delimiter |
| `ClientCodec.ReplayDecodes` | TLS_server/src/chat_room.cpp:37-44 | in general it decodes to the concatenation of each message's own split |
| `ClientCodec.ChunkwiseDecoding` | TLS_client/qt_client/tcp_client_model.cpp:122-139 | decoding chunk by chunk equals decoding the whole exactly when every chunk before the last ends with the delimiter |
| `SessionId.ReplyAgreement` | TLS_client/qt_client/hand_shaker.cpp:13-33 | the client reads a number out of the reply exactly when it is a session id, and then that 32-bit id; both refusals never parse |
| `SessionId.PrintIsInjective` | TLS_server/include/hand_shaker.hpp:32-37 | different ids are printed differently |
| `SessionId.OtherTextNeverParses` | TLS_client/qt_client/hand_shaker.cpp:13-25 | text that starts with neither white space, sign nor digit never parses, chat messages in JSON included |
| `SessionId.ReadsExactlyNumbers` | TLS_client/qt_client/hand_shaker.cpp:13-19 | the client reads exactly the texts that are white space, a sign or none, digits whose value fits 64 bits, white space; and each as that value |
| `SessionId.DigitsWriteTheirValue` | TLS_client/qt_client/hand_shaker.cpp:13-19 | the value of digits is the number they write: digits are zeros and the print of their value |
| `SessionId.GluedIdNeverParses` | TLS_client/qt_client/hand_shaker.cpp:13-25 | a session id with other text glued to it is no number, unless that text is digits and white space |
| `SessionId.PrintHasNoLeadingZero` | TLS_server/include/hand_shaker.hpp:32-37 | no id is printed with a leading zero, but 0 as itself |
| `Client.ConnectedMeansIdentified` | TLS_client/qt_client/mainwindow.cpp:102-126 | over every order of events: connected means that the presenter holds a message handler whose id is the number most recently parsed |
| `Client.SpeaksOnlyWhenConnected` | TLS_client/qt_client/tcp_presenter.cpp:15-30 | chat frames are sent and messages shown only while connected, and the frame carries that id |
| `Client.IdsWereReceived` | TLS_client/qt_client/tcp_presenter.cpp:71-98 | every id a chat frame ever carried was parsed out of a message received earlier in the run |
| `Client.ReplyDecides` | TLS_client/qt_client/hand_shaker.cpp:13-33 | a waiting client is connected by the server's reply exactly when it is a session id; a refusal leaves it waiting |
| `Client.ConnectDoes` | TLS_client/qt_client/hand_shaker.cpp:35-41 | a successful connect response sends exactly the password and then the client waits for its id, all else unchanged; a failed one leaves it unconnected |
| `Client.SendDoes` | TLS_client/qt_client/tcp_presenter.cpp:15-30 | the send button, while connected and online, sends exactly one chat frame with the text, the name and the id of the session; otherwise nothing changes |
| `Client.ReceiveDoes` | TLS_client/qt_client/tcp_presenter.cpp:71-98 | the whole effect of a message: an id connects a waiting client and has its name sent if it is to be, other text leaves it waiting; any other client shows the message exactly when connected |
| `Client.OthersDo` | TLS_client/qt_client/mainwindow.cpp:312-332 | a click or a change of mode while connected closes the socket and forgets the session; settings and lost connections change what they name and nothing else |
| `Client.SendsItsOwn` | TLS_client/qt_client/tcp_presenter.cpp:15-30 | over every order of events that does not change the settings, every frame sent carries the name and the password the client was started with |
| `Conversation.PasswordDecides` | TLS_server/include/hand_shaker.hpp:49-63 | from the client to the decision: a client with a delimiter-free password of at most 1022 chars sends exactly it, the server can only take it for what it is, admits the client exactly when the passwords are the same and not empty, and otherwise tells it so and puts it out |
| `Client.ReceiveAllIsRun` | TLS_client/qt_client/tcp_client_model.cpp:136-139 | receiving a chunk is a run of its messages, so all of this holds for every chunking |
| `Client.StepKeepsInv` | TLS_client/qt_client/tcp_presenter.cpp:32-107 | every event keeps the invariant across view, presenter and handshaker |
| `ChatClient.TcpClientModel.ReceivingMsg` | TLS_client/qt_client/tcp_client_model.cpp:122-142 | hands on the pieces of the data one by one, without an empty last one |
| `ChatClient.TcpClientModel.SendMessage` | TLS_client/qt_client/tcp_client_model.cpp:22-45 | writes the text and the delimiter only while the socket is connected, and reports the text exactly when the socket did not accept it; the bytes on the wire stay the encoding of the accepted texts |
| `ChatClient.TcpClientModel.ConnectingToHost` | TLS_client/qt_client/tcp_client_model.cpp:87-103 | refines the connect-response event |
| `ChatClient.HandShaker.ParseSessionId` | TLS_client/qt_client/hand_shaker.cpp:13-33 | succeeds exactly when the message is a number; sets mode, id, view and name broadcast as the transition system says |
| `ChatClient.HandShaker.AwaitHandshake` | TLS_client/qt_client/hand_shaker.cpp:35-41 | sends the password and waits for the session id |
| `ChatClient.TcpPresenter.HandleMsgReception` | TLS_client/qt_client/tcp_presenter.cpp:71-98 | refines the reception of one message |
| `ChatClient.TcpPresenter.HandleConnectResponse` | TLS_client/qt_client/tcp_presenter.cpp:59-68 | refines the connect response |
| `ChatClient.TcpPresenter.SendMessage` | TLS_client/qt_client/tcp_presenter.cpp:15-30 | sends nothing without a message handler |
| `ChatClient.TcpPresenter.Disconnect` | TLS_client/qt_client/tcp_presenter.cpp:32-37 | drops socket, handler and handshake state |
| `ChatClient.MainWindow.OnConnectBtnClicked` | TLS_client/qt_client/mainwindow.cpp:312-332 | refines the connect button |
| `ChatClient.MainWindow.OnSendBtnClicked` | TLS_client/qt_client/mainwindow.cpp:334-342 | refines the send button |
| `ChatClient.MainWindow.SetConnectionMode` | TLS_client/qt_client/mainwindow.cpp:213-257 | closes an open connection and starts over with a new presenter |
| `ChatClient.MainWindow.HandleDisconnectFromHost` | TLS_client/qt_client/mainwindow.cpp:157-167 | the connected flag falls |
| `JsonLoader.BuildJsonDict` | TLS_server/src/json_loader.cpp:68-109 | succeeds exactly when no key is asked for twice and every key was found, and maps each key to the first non-empty value a line gives it |
| `ConfigRoundTrip.RoundTrip` | TLS_server/src/json_loader.cpp:76-108 | a rendered file, an entry a line, gives a key the value written, in any order and with any spaces, braces and commas round the entries, exactly when no earlier value reads like the name of the key (or both are the same text) |
| `ConfigRoundTrip.TwoEntriesOnOneLine` | TLS_server/src/json_loader.cpp:92-104 | a line with two entries gives every key that it mentions the text from the first value to the second name |
| `ConfigRoundTrip.LoadRendered` | TLS_server/src/json_loader.cpp:68-109 | without such a value the dictionary is exactly the map that was written |
| `ConfigRoundTrip.ShadowingExample` | TLS_server/src/json_loader.cpp:92-100 | a password that reads like the name of a later key becomes the value of that key |
| `ConfigRoundTrip.MentionsOwnName` | TLS_server/src/json_loader.cpp:94 | a rendered line contains exactly its own quoted name and the name its value happens to equal |
| `ConfigRoundTrip.FieldOfCore` | TLS_server/src/json_loader.cpp:96-97 | split, drop, trim and filter give the value of a rendered entry |
| `ConfigRoundTrip.FieldNeedsBothQuotes` | TLS_server/src/json_loader.cpp:39-54 | text behind the colon counts as a field exactly when, its spaces trimmed, it is quoted at both ends |
| `ConfigRoundTrip.PaddedValue` | TLS_server/src/json_loader.cpp:96-99 | spaces between the quotes and the value are cut off with them |
| `ConfigRoundTrip.EmptyValueIsPassedOver` | TLS_server/src/json_loader.cpp:97-99 | a value of nothing but spaces gives the key nothing |
| `Trim.TrimTokenIsLongest` | TLS_server/src/json_loader.cpp:24-36 | the result is the longest piece whose ends are not token chars; empty exactly if there is none |
| `Trim.TrimTokenIdempotent` | TLS_server/src/json_loader.cpp:24-36 | trimming twice is trimming once |
| `Trim.TrimJsonCuts` | TLS_server/src/json_loader.cpp:10-22 | a piece of the text, in bounds even where the last search finds nothing and last + 1 wraps to 0; exactly spaces and opening braces are cut in front, spaces, closing braces and commas behind |
| `Trim.PastLast` | TLS_server/src/json_loader.cpp:20 | npos + 1 is 0, any other index its successor |
| `NetworkConfig.ModesAdmitted` | TLS_server/include/network_config.hpp:66-90 | the substring tests and the length bound admit exactly tcp, ssl and tls in any mixture of cases; Tcp exactly for tcp |
| `NetworkConfig.BuildNetworkConfig` | TLS_server/include/network_config.hpp:40-100 | from the lines of the file: succeeds exactly when the five settings are found by name, the port can be read and the mode is tcp, ssl or tls in any mixture of cases, and each named text becomes the field of its meaning |
| `NetworkConfig.LoadRenderedSettings` | TLS_server/include/network_config.hpp:40-100 | a rendered file with entries of the five names, in any order and decoration, becomes the settings of those meanings, with exactly the shadowed entries changed |

## Left out

- AsyncReadUntil: a read takes as much of the next chunk as fits; the sizes asio asks for are its own.
- ToLongLong: white space is the six ASCII characters; digits and spaces outside ASCII are not modelled.
- Reader: over the socket's arrivals alone; that another coroutine may close the socket meanwhile is in the transition system, which lets any read fail.
- ReadFailed: the model lets a read that had completed before the socket was closed still be handled, as the event loop does.
- BuildJsonDict: takes the lines of the file; opening and reading it are library calls. Lines that mention a missing key without a quoted field are excluded, since the source then takes the front of an empty range.
- BuildNetworkConfig: what stream extraction makes of the port's text is a parameter.
- SendMessage: whether the socket accepts a write is left open, and then it accepts all of it; the JSON of a chat message is a parameter.
- SpeaksUnderItsId: each written text arrives in a chunk of its own; texts that arrive glued together are in HistoryBehindOtherText only.
- HandleMsgReception: a message is shown as it came; that JSON text is taken apart for display is Qt's and not modelled, nor are font colours.
- HandShaker: the objects pass the participant along where the source keeps two pointers; the session id is kept as a number and printed where it is sent.
- Which cancelled wait ends with an error and which with success is left open within what asio allows; the model has every such run.
- Lifetime: leaving the room destroys the session while its coroutines may still hold it. Sessions stay alive in the model and being stopped is their end, so a parked writer of a stopped session stays parked.
- Real time: waits are steps that may happen at any moment. That a reply reaches the wire before the socket closes is not claimed.
- Bytes that arrive behind the password in the same read are dropped with its buffer; the reader starts after them.
- Sockets, TLS, host lookup, certificates, painting, dialogs, logging: library and presentation.
- The TLS client's own error path; the NUL truncation in the client's send.
- The settings dialogs (SettingsChanged) and the socket dropping by itself (SocketDropped) are events of the client without a method of an object.
- `try_handshake`, which nothing calls and which repeats `try_connect` without the completion token.
