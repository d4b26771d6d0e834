/**
 The chat server as a transition system: the room, its sessions, and for each session the handshake,
 the writer and the reader. One step is one resumption of one coroutine, since the single io_context
 runs a coroutine from one co_await to the next without interruption.
 */
module Server {
  import opened Wrappers
  import opened Delimiter
  import opened FrameReader
  import opened SessionId
  import Handshake

  const MAX_RECENT: nat := 100

  /** A call of ChatSession::deliver, tagged with where the text comes from: a broadcast of the message
      at an index of the room's log, a handshake reply, or the replay of a logged message. */
  datatype Item =
    | Live(index: int, text: string)
    | Private(text: string)
    | Replay(index: int, text: string)

  function Text(item: Item): string {
    match item
    case Live(_, text) => text
    case Private(text) => text
    case Replay(_, text) => text + DELIM
  }

  function Texts(items: seq<Item>): seq<string> {
    seq(|items|, k requires 0 <= k < |items| => Text(items[k]))
  }

  /** Parked: waiting on m_timer. Woken: the wait was cancelled, the resumption is queued. */
  datatype WriterTask = WriterStarting | Parked | Woken | Writing | WriterGone

  datatype ReaderTask = NoReader | ReaderStarting | Reading | ReaderGone

  datatype Session = Session(
    sessionId: nat,
    handshake: Handshake.State,
    open: bool,                      // the socket
    stopped: bool,                   // m_stopped
    outbox: seq<string>,             // m_write_msgs
    writer: WriterTask,
    reader: ReaderTask,
    readMsg: string,                 // the reader's buffer
    // history
    passBuff: string,                // the buffer the password read returned
    chunks: seq<string>,             // what each of the reader's reads appended
    buffers: seq<string>,            // the buffer of each pass of its loop
    frames: seq<string>,             // the frame each pass erased
    delivered: seq<Item>,            // calls of deliver
    written: seq<string>,            // completed writes
    closes: nat,                     // calls of close_socket
    joined: nat,                     // length of the log at join,
    reply: Option<(nat, string)>,    // ... at the private reply, with its text,
    replay: Option<nat>,             // ... at join_public,
    left: Option<nat>                // ... at leave
  )

  datatype World = World(
    password: string,
    sessions: seq<Session>,          // in the order they joined
    participants: set<nat>,          // m_participants
    recent: seq<string>,             // m_recent_msgs
    log: seq<string>,                // every message ever broadcast
    authors: seq<nat>                // and the session whose reader it came from
  )

  // ---------- ChatSession ----------

  function NewSession(sessionId: nat, joined: nat): Session {
    Session(sessionId, Handshake.INIT, true, false, [], WriterStarting, NoReader, "",
            "", [], [], [], [], [], 0, joined, None, None, None)
  }

  function Deliver(s: Session, item: Item): Session {
    s.(outbox := s.outbox + [Text(item)],
       delivered := s.delivered + [item],
       writer := if s.writer.Parked? then Woken else s.writer)
  }

  function DeliverAll(s: Session, items: seq<Item>): Session {
    if items == [] then s
    else Deliver(DeliverAll(s, items[..|items| - 1]), items[|items| - 1])
  }

  /** The head of the writer's loop. */
  function WriterLoop(s: Session): Session {
    s.(writer := if !s.open then WriterGone else if s.outbox == [] then Parked else Writing)
  }

  /** A write has completed: pop the front and go round. */
  function WriteDone(s: Session): Session
    requires s.outbox != []
  {
    WriterLoop(s.(written := s.written + [s.outbox[0]], outbox := s.outbox[1..]))
  }

  function Closed(s: Session, at: nat): Session {
    if s.stopped then s
    else s.(open := false, stopped := true, closes := s.closes + 1, left := Some(at))
  }

  /** One read of the socket appends to the reader's buffer. */
  function TakeIn(s: Session, chunk: string): Session {
    s.(readMsg := s.readMsg + chunk, chunks := s.chunks + [chunk])
  }

  /** The end of a pass of the reader's loop: erase a frame of n chars, delimiter included, and go round. */
  function Erase(s: Session, n: nat): Session
    requires 2 <= n <= |s.readMsg|
  {
    s.(readMsg := s.readMsg[n..],
       buffers := s.buffers + [s.readMsg],
       frames := s.frames + [s.readMsg[..n - 2]],
       reader := if s.open then Reading else ReaderGone)
  }

  /** HandShaker::is_password_correct, given what async_read_until left in the buffer. */
  predicate IsPasswordCorrect(buffer: string, password: string) {
    var n := FrameEnd(buffer);
    2 < n && buffer[..n - 2] == password
  }

  // ---------- ChatRoom ----------

  function PushRecent(recent: seq<string>, msg: string): seq<string> {
    var r := recent + [msg];
    if MAX_RECENT < |r| then r[|r| - MAX_RECENT..] else r
  }

  function ReplayItems(first: int, recent: seq<string>): seq<Item> {
    seq(|recent|, k requires 0 <= k < |recent| => Replay(first + k, recent[k]))
  }

  function Replied(s: Session, inRoom: bool, text: string, at: nat): Session {
    if inRoom then Deliver(s, Private(text)).(reply := Some((at, text))) else s
  }

  function Replayed(s: Session, inRoom: bool, recent: seq<string>, at: nat): Session {
    if inRoom then DeliverAll(s, ReplayItems(at - |recent|, recent)).(replay := Some(at)) else s
  }

  function Update(w: World, i: nat, s: Session): World
    requires i < |w.sessions|
  {
    w.(sessions := w.sessions[i := s])
  }

  lemma UpdateTwice(w: World, i: nat, s: Session)
    requires i < |w.sessions|
    ensures forall t :: Update(Update(w, i, s), i, t) == Update(w, i, t)
  {
  }

  /** ChatRoom::join. */
  function Join(w: World, sessionId: nat): World {
    w.(sessions := w.sessions + [NewSession(sessionId, |w.log|)], participants := w.participants + {|w.sessions|})
  }

  /** ChatSession::stop, with ChatRoom::leave. */
  function Stop(w: World, i: nat): World
    requires i < |w.sessions|
  {
    if w.sessions[i].stopped then w
    else Update(w, i, Closed(w.sessions[i], |w.log|)).(participants := w.participants - {i})
  }

  function DeliverPrivate(w: World, i: nat, text: string): World
    requires i < |w.sessions|
  {
    Update(w, i, Replied(w.sessions[i], i in w.participants, text, |w.log|))
  }

  function JoinPublic(w: World, i: nat): World
    requires i < |w.sessions|
  {
    Update(w, i, Replayed(w.sessions[i], i in w.participants, w.recent, |w.log|))
  }

  /** ChatRoom::deliver of a message that session `author` read. */
  function RoomDeliver(w: World, author: nat, msg: string): World {
    w.(recent := PushRecent(w.recent, msg),
       log := w.log + [msg],
       authors := w.authors + [author],
       sessions := seq(|w.sessions|, k requires 0 <= k < |w.sessions| =>
         if k in w.participants then Deliver(w.sessions[k], Live(|w.log|, msg)) else w.sessions[k]))
  }

  /** The completion token that ChatSession::start hands to try_connect. */
  function OnConnectionResponse(w: World, i: nat, accepted: bool): World
    requires i < |w.sessions|
  {
    if accepted then
      var w := JoinPublic(w, i);
      Update(w, i, w.sessions[i].(reader := ReaderStarting))
    else Stop(w, i)
  }

  // ---------- steps ----------

  /** `i` is the session that is resumed. `buffer` is what a password read returned; `chunk` is what
      one read of the socket appended. */
  datatype Event =
    | Connect(sessionId: nat)
    | HandshakeStep(i: nat, step: Handshake.Event, buffer: string)
    | WriterResume(i: nat)
    | WriteSucceeded(i: nat)
    | WriteFailed(i: nat)
    | ReaderStart(i: nat)
    | BytesRead(i: nat, chunk: string)
    | FrameRead(i: nat)
    | ReadFailed(i: nat)

  predicate Enabled(w: World, e: Event) {
    e.Connect? ||
    (e.i < |w.sessions| &&
     var s := w.sessions[e.i];
     match e
     case HandshakeStep(_, step, buffer) =>
       && Handshake.Enabled(s.handshake, step)
       && (step.PasswordRead? && step.result.Frame? ==>
             && FrameEnd(buffer) != 0 && |buffer| <= READ_BUFF_LEN
             && step.result.matches == IsPasswordCorrect(buffer, w.password))
     case WriterResume(_) => s.writer.WriterStarting? || s.writer.Woken?
     case WriteSucceeded(_) => s.writer.Writing? && s.outbox != []
     case WriteFailed(_) => s.writer.Writing?
     case ReaderStart(_) => s.reader.ReaderStarting?
     case BytesRead(_, chunk) =>
       s.reader.Reading? && FrameEnd(s.readMsg) == 0 && |s.readMsg| + |chunk| <= READ_BUFF_LEN
     case FrameRead(_) => s.reader.Reading? && FrameEnd(s.readMsg) != 0
     case ReadFailed(_) => s.reader.Reading?
     case Connect(_) => true)
  }

  /** What a handshake step does to the session before the room is told. */
  function Stepped(s: Session, step: Handshake.Event, buffer: string): Session
    requires Handshake.Enabled(s.handshake, step)
  {
    s.(handshake := Handshake.Next(s.handshake, step),
       passBuff := if step.PasswordRead? && step.result.Frame? then buffer else s.passBuff)
  }

  /** The reply or the completion that session `i` has to its name and had not before. */
  function Notify(w: World, i: nat, before: Handshake.State): World
    requires i < |w.sessions|
  {
    var h := w.sessions[i].handshake;
    if |before.issued| < |h.issued| then
      DeliverPrivate(w, i, ReplyText(h.issued[|h.issued| - 1], w.sessions[i].sessionId))
    else if |before.completions| < |h.completions| then
      OnConnectionResponse(w, i, h.completions[|h.completions| - 1])
    else w
  }

  function AfterHandshake(w: World, i: nat, step: Handshake.Event, buffer: string): World
    requires i < |w.sessions| && Handshake.Enabled(w.sessions[i].handshake, step)
  {
    var s := w.sessions[i];
    Notify(Update(w, i, Stepped(s, step, buffer)), i, s.handshake)
  }

  /** One pass of the reader's loop: broadcast from the buffer, erase the frame, go round. */
  function AfterFrame(w: World, i: nat): World
    requires i < |w.sessions| && FrameEnd(w.sessions[i].readMsg) != 0
  {
    var readMsg := w.sessions[i].readMsg;
    var w := RoomDeliver(w, i, Broadcast(readMsg));
    Update(w, i, Erase(w.sessions[i], FrameEnd(readMsg)))
  }

  function Next(w: World, e: Event): World
    requires Enabled(w, e)
  {
    match e
    case Connect(sessionId) => Join(w, sessionId)
    case HandshakeStep(i, step, buffer) => AfterHandshake(w, i, step, buffer)
    case WriterResume(i) => Update(w, i, WriterLoop(w.sessions[i]))
    case WriteSucceeded(i) => Update(w, i, WriteDone(w.sessions[i]))
    case WriteFailed(i) => Stop(Update(w, i, w.sessions[i].(writer := WriterGone)), i)
    case ReaderStart(i) =>
      Update(w, i, w.sessions[i].(reader := if w.sessions[i].open then Reading else ReaderGone))
    case BytesRead(i, chunk) => Update(w, i, TakeIn(w.sessions[i], chunk))
    case FrameRead(i) => AfterFrame(w, i)
    case ReadFailed(i) => Stop(Update(w, i, w.sessions[i].(reader := ReaderGone)), i)
  }

  function Start(password: string): World {
    World(password, [], {}, [], [], [])
  }

  /** The state after a run of a server with this password; None when some step cannot happen. */
  function After(password: string, run: seq<Event>): Option<World> {
    if run == [] then Some(Start(password))
    else
      match After(password, run[..|run| - 1])
      case None => None
      case Some(w) =>
        var e := run[|run| - 1];
        if Enabled(w, e) then Some(Next(w, e)) else None
  }

  /** Continuing from a state. */
  function RunFrom(w: World, run: seq<Event>): Option<World>
    decreases |run|
  {
    if run == [] then Some(w)
    else if Enabled(w, run[0]) then RunFrom(Next(w, run[0]), run[1..])
    else None
  }
}
