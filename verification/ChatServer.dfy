/**
 ChatRoom, ChatSession and HandShaker as the objects they are. A method is what a coroutine does from
 one co_await to the next, or a call it makes; its contract is the step of the transition system
 (module Server) that it refines. `i` is the place of the session in the order of joining.
 */
module ChatServer {
  import opened Wrappers
  import opened Delimiter
  import opened FrameReader
  import opened SessionId
  import opened Server
  import H = Handshake

  /** How async_read_password came back. */
  datatype PasswordResult = PasswordBuffer(buffer: string) | PasswordAborted | PasswordFailed

  function ToReadResult(result: PasswordResult, password: string): H.ReadResult {
    match result
    case PasswordBuffer(buffer) => H.Frame(IsPasswordCorrect(buffer, password))
    case PasswordAborted => H.ReadAborted
    case PasswordFailed => H.ReadFailed
  }

  function PassBuffer(result: PasswordResult): string {
    if result.PasswordBuffer? then result.buffer else ""
  }

  class HandShaker {
    const sessionId: nat
    var shouldAccept: bool
    var isTerminating: bool
    var timerCancelled: bool
    var password: H.PasswordTask
    var countdown: H.CountdownTask
    var connect: H.ConnectTask
    ghost var issued: seq<H.Reply>
    ghost var completions: seq<bool>

    ghost function State(): H.State
      reads this
    {
      H.State(shouldAccept, isTerminating, timerCancelled, password, countdown, connect, issued, completions)
    }

    /** No coroutine is running yet. */
    constructor (sessionId: nat)
      ensures this.sessionId == sessionId
      ensures !shouldAccept && !isTerminating && !timerCancelled && issued == [] && completions == []
    {
      this.sessionId := sessionId;
      shouldAccept, isTerminating, timerCancelled := false, false, false;
      password, countdown, connect := H.PasswordDone, H.CountdownDone, H.Ended;
      issued, completions := [], [];
    }

    /** try_connect is spawned: both sides run up to their first wait. */
    method TryConnect()
      requires !shouldAccept && !isTerminating && !timerCancelled && issued == [] && completions == []
      modifies this
      ensures State() == H.INIT
    {
      password, countdown, connect := H.AwaitingPassword, H.AwaitingTimer, H.AwaitingBoth;
    }

    method CheckPassword(buffer: string, expected: string) returns (correct: bool)
      requires FrameEnd(buffer) != 0
      ensures correct <==> expected != "" && buffer[..FrameEnd(buffer) - 2] == expected
    {
      var n := FrameEnd(buffer);
      if n <= |DELIM| {
        return false;
      }
      var response := buffer[..n - |DELIM|];
      return expected == response;
    }

    /** reject_connection up to its flush wait. */
    method RejectConnection(participant: ChatSession, ghost i: nat)
      requires participant.room.Valid() && participant.room.At(i, participant) && participant.handShaker == this
      modifies this, participant
      ensures participant.room.View() ==
        if old(isTerminating) then Moved(old(participant.room.View()), i, H.RejectConnection(old(State()), false))
        else Issued(old(participant.room.View()), i, H.RejectConnection(old(State()), false), REJECT_RESP)
    {
      if !isTerminating {
        isTerminating := true;
        issued := issued + [H.Reject];
        password := H.FlushingReject;
        participant.room.OnlySessionChanged(i);
        participant.room.DeliverPrivate(REJECT_RESP, participant, i);
      } else {
        password := H.PasswordDone;
        participant.room.OnlySessionChanged(i);
      }
    }

    /** accept_connection up to its flush wait. */
    method AcceptConnection(participant: ChatSession, ghost i: nat)
      requires participant.room.Valid() && participant.room.At(i, participant) && participant.handShaker == this
      modifies this, participant
      ensures participant.room.View() ==
        if old(isTerminating) then Moved(old(participant.room.View()), i, H.AcceptConnection(old(State()), false))
        else Issued(old(participant.room.View()), i, H.AcceptConnection(old(State()), false), Print(sessionId))
    {
      if !isTerminating {
        issued := issued + [H.SessionId];
        password := H.FlushingId;
        participant.room.OnlySessionChanged(i);
        participant.room.DeliverPrivate(Print(sessionId), participant, i);
      } else {
        password := H.PasswordDone;
        participant.room.OnlySessionChanged(i);
      }
    }

    /** timeout_connection up to its flush wait. */
    method TimeoutConnection(participant: ChatSession, ghost i: nat)
      requires participant.room.Valid() && participant.room.At(i, participant) && participant.handShaker == this
      modifies this, participant
      ensures participant.room.View() ==
        if old(isTerminating) then Moved(old(participant.room.View()), i, H.TimeoutConnection(old(State())))
        else Issued(old(participant.room.View()), i, H.TimeoutConnection(old(State())), TIMEOUT_RESP)
    {
      if !isTerminating {
        isTerminating := true;
        issued := issued + [H.Timeout];
        countdown := H.FlushingTimeout;
        participant.room.OnlySessionChanged(i);
        participant.room.DeliverPrivate(TIMEOUT_RESP, participant, i);
      } else {
        countdown := H.CountdownDone;
        participant.room.OnlySessionChanged(i);
      }
    }

    /** The two branches of perform_password_handshake, once m_should_accept is known. */
    method Answer(participant: ChatSession, interrupted: bool, ghost i: nat)
      requires participant.room.Valid() && participant.room.At(i, participant) && participant.handShaker == this
      modifies this, participant
      ensures participant.room.View() == Answered(old(participant.room.View()), i, old(State()), interrupted)
    {
      ghost var w := participant.room.View();
      if shouldAccept || !isTerminating {
        timerCancelled := true;
        participant.room.OnlySessionChanged(i);
        UpdateTwice(w, i, participant.View());
        if interrupted {
          password := H.PasswordThrew(H.OperationAborted);
          participant.room.OnlySessionChanged(i);
        } else if shouldAccept {
          AcceptConnection(participant, i);
        } else {
          RejectConnection(participant, i);
        }
      } else {
        password := H.PasswordDone;
        participant.room.OnlySessionChanged(i);
      }
    }

    /** client_first_response: m_should_accept becomes what the check says, or the read throws. */
    method ClientFirstResponse(participant: ChatSession, result: PasswordResult, ghost i: nat)
      requires participant.room.Valid() && participant.room.At(i, participant) && participant.handShaker == this
      requires result.PasswordBuffer? ==> FrameEnd(result.buffer) != 0
      modifies this, participant
      ensures participant.room.View() == Update(old(participant.room.View()), i,
                FirstResponse(old(participant.View()), ToReadResult(result, participant.room.password), PassBuffer(result)))
      ensures State() == FirstResponse(old(participant.View()), ToReadResult(result, participant.room.password), PassBuffer(result)).handshake
    {
      if result.PasswordFailed? {
        password := H.PasswordThrew(H.SocketError);
      } else if result.PasswordBuffer? {
        participant.passBuff := result.buffer;
        shouldAccept := CheckPassword(result.buffer, participant.room.password);
      } else {
        shouldAccept := false;
      }
      participant.room.OnlySessionChanged(i);
    }

    /** perform_password_handshake resumes: the read of the password is over. */
    method PasswordRead(participant: ChatSession, result: PasswordResult, interrupted: bool, ghost i: nat)
      requires participant.room.Valid() && participant.room.At(i, participant) && participant.handShaker == this
      requires result.PasswordBuffer? ==> FrameEnd(result.buffer) != 0
      requires H.Enabled(State(), H.PasswordRead(ToReadResult(result, participant.room.password), interrupted))
      modifies this, participant
      ensures participant.room.View() == AfterHandshake(old(participant.room.View()), i,
                H.PasswordRead(ToReadResult(result, participant.room.password), interrupted), PassBuffer(result))
    {
      AfterReadIsAnswer(participant.room.View(), i, ToReadResult(result, participant.room.password), interrupted, PassBuffer(result));
      ClientFirstResponse(participant, result, i);
      if !result.PasswordFailed? {
        Answer(participant, interrupted, i);
      }
    }

    /** reject_connection or accept_connection resumes after its flush wait. */
    method PasswordFlushed(participant: ChatSession, aborted: bool, ghost i: nat)
      requires participant.room.Valid() && participant.room.At(i, participant) && participant.handShaker == this
      requires H.Enabled(State(), H.PasswordFlushed(aborted))
      modifies this
      ensures participant.room.View() == AfterHandshake(old(participant.room.View()), i, H.PasswordFlushed(aborted), "")
    {
      if aborted {
        password := H.PasswordThrew(H.OperationAborted);
      } else if password.FlushingReject? {
        password := H.PasswordThrew(H.ConnectionRefused);
      } else {
        password := H.PasswordDone;
      }
      participant.room.OnlySessionChanged(i);
    }

    /** countdown_timer resumes: the timer fired, or the wait was aborted. */
    method TimerDone(participant: ChatSession, fired: bool, interrupted: bool, ghost i: nat)
      requires participant.room.Valid() && participant.room.At(i, participant) && participant.handShaker == this
      requires H.Enabled(State(), H.TimerDone(fired, interrupted))
      modifies this, participant
      ensures participant.room.View() == AfterHandshake(old(participant.room.View()), i, H.TimerDone(fired, interrupted), "")
    {
      AfterTimerIsAnswer(participant.room.View(), i, fired, interrupted);
      if fired && !shouldAccept && !isTerminating && !interrupted {
        TimeoutConnection(participant, i);
      } else {
        countdown := H.CountdownDone;
        participant.room.OnlySessionChanged(i);
      }
    }

    /** timeout_connection resumes after its flush wait; countdown_timer swallows an abort. */
    method TimeoutFlushed(participant: ChatSession, aborted: bool, ghost i: nat)
      requires participant.room.Valid() && participant.room.At(i, participant) && participant.handShaker == this
      requires H.Enabled(State(), H.TimeoutFlushed(aborted))
      modifies this
      ensures participant.room.View() == AfterHandshake(old(participant.room.View()), i, H.TimeoutFlushed(aborted), "")
    {
      countdown := if aborted then H.CountdownDone else H.CountdownThrew(H.TimedOut);
      participant.room.OnlySessionChanged(i);
    }

    /** try_connect resumes: both sides are over. Two exceptions escape its handler. */
    method BothDone(participant: ChatSession, ghost i: nat)
      requires participant.room.Valid() && participant.room.At(i, participant) && participant.handShaker == this
      requires H.Enabled(State(), H.BothDone)
      modifies this, participant, participant.room`participants
      ensures participant.room.Valid()
      ensures participant.room.View() == AfterHandshake(old(participant.room.View()), i, H.BothDone, "")
    {
      AfterBothIsResponse(participant.room.View(), i);
      if password.PasswordThrew? && countdown.CountdownThrew? {
        connect := H.Ended;
        participant.room.OnlySessionChanged(i);
      } else if password.PasswordThrew? || countdown.CountdownThrew? {
        connect := H.Ended;
        completions := completions + [false];
        participant.room.OnlySessionChanged(i);
        participant.OnConnectionResponse(false, i);
      } else {
        connect := H.FlushingSession;
        participant.room.OnlySessionChanged(i);
      }
    }

    /** try_connect resumes after its last wait. */
    method SessionFlushed(participant: ChatSession, ghost i: nat)
      requires participant.room.Valid() && participant.room.At(i, participant) && participant.handShaker == this
      requires H.Enabled(State(), H.SessionFlushed)
      modifies this, participant, participant.room`participants
      ensures participant.room.Valid()
      ensures participant.room.View() == AfterHandshake(old(participant.room.View()), i, H.SessionFlushed, "")
    {
      connect := H.Ended;
      completions := completions + [true];
      participant.room.OnlySessionChanged(i);
      participant.OnConnectionResponse(true, i);
    }
  }

  ghost function FirstResponse(s: Session, result: H.ReadResult, buffer: string): Session {
    if result.ReadFailed? then s.(handshake := s.handshake.(password := H.PasswordThrew(H.SocketError)))
    else s.(handshake := s.handshake.(shouldAccept := result == H.Frame(true)),
            passBuff := if result.Frame? then buffer else s.passBuff)
  }

  ghost function Answered(w: World, i: nat, h: H.State, interrupted: bool): World
    requires i < |w.sessions|
  {
    var h' := h.(timerCancelled := true);
    if !h.shouldAccept && h.terminating then Moved(w, i, h.(password := H.PasswordDone))
    else if interrupted then Moved(w, i, h'.(password := H.PasswordThrew(H.OperationAborted)))
    else if !h.shouldAccept then Issued(w, i, H.RejectConnection(h', false), REJECT_RESP)
    else if h.terminating then Moved(w, i, H.AcceptConnection(h', false))
    else Issued(w, i, H.AcceptConnection(h', false), Print(w.sessions[i].sessionId))
  }

  /** A password read: the check, then the answer. */
  lemma AfterReadIsAnswer(w: World, i: nat, result: H.ReadResult, interrupted: bool, buffer: string)
    requires i < |w.sessions|
    requires H.Enabled(w.sessions[i].handshake, H.PasswordRead(result, interrupted))
    ensures var s := FirstResponse(w.sessions[i], result, buffer);
            AfterHandshake(w, i, H.PasswordRead(result, interrupted), buffer) ==
              (if result.ReadFailed? then Update(w, i, s)
               else Answered(Update(w, i, s), i, s.handshake, interrupted))
  {
    var s := w.sessions[i];
    var t := FirstResponse(s, result, buffer);
    var h := H.AfterRead(s.handshake, result, interrupted);
    UpdateTwice(w, i, t);
    assert AfterHandshake(w, i, H.PasswordRead(result, interrupted), buffer)
        == if |s.handshake.issued| < |h.issued|
           then Server.DeliverPrivate(Update(w, i, t.(handshake := h)), i, ReplyText(h.issued[|h.issued| - 1], s.sessionId))
           else Update(w, i, t.(handshake := h));
  }

  /** A timer that fires in time is answered; any other is not. */
  lemma AfterTimerIsAnswer(w: World, i: nat, fired: bool, interrupted: bool)
    requires i < |w.sessions| && H.Enabled(w.sessions[i].handshake, H.TimerDone(fired, interrupted))
    ensures var h := w.sessions[i].handshake;
            AfterHandshake(w, i, H.TimerDone(fired, interrupted), "") ==
              (if fired && !interrupted && !h.shouldAccept && !h.terminating
               then Issued(w, i, H.AfterTimer(h, true, false), TIMEOUT_RESP)
               else Moved(w, i, h.(countdown := H.CountdownDone)))
  {
  }

  /** Both sides over: one exception is answered by the completion token, two are not. */
  lemma AfterBothIsResponse(w: World, i: nat)
    requires i < |w.sessions| && H.Enabled(w.sessions[i].handshake, H.BothDone)
    ensures var h := w.sessions[i].handshake;
            var h' := H.AfterBoth(h);
            AfterHandshake(w, i, H.BothDone, "") ==
              (if h.password.PasswordThrew? != h.countdown.CountdownThrew?
               then Server.OnConnectionResponse(Moved(w, i, h'), i, false)
               else Moved(w, i, h'))
  {
  }

  lemma StopIsCloseAndLeave(w: World, i: nat)
    requires i < |w.sessions| && !w.sessions[i].stopped
    ensures Server.Stop(w, i)
         == Update(w, i, Closed(w.sessions[i], |w.log|)).(participants := w.participants - {i})
  {
  }

  /** Session `i` gets on with its handshake. */
  ghost function Moved(w: World, i: nat, h: H.State): World
    requires i < |w.sessions|
  {
    Update(w, i, w.sessions[i].(handshake := h))
  }

  /** ... and the room is asked to send a reply. */
  ghost function Issued(w: World, i: nat, h: H.State, text: string): World
    requires i < |w.sessions|
  {
    Server.DeliverPrivate(Moved(w, i, h), i, text)
  }

  class ChatSession {
    const room: ChatRoom
    const handShaker: HandShaker
    var open: bool
    var stopped: bool
    var writeMsgs: seq<string>
    var writer: WriterTask
    var reader: ReaderTask
    var readMsg: string
    ghost var passBuff: string
    ghost var chunks: seq<string>
    ghost var buffers: seq<string>
    ghost var frames: seq<string>
    ghost var delivered: seq<Item>
    ghost var written: seq<string>
    ghost var closes: nat
    ghost var joined: nat
    ghost var reply: Option<(nat, string)>
    ghost var replay: Option<nat>
    ghost var left: Option<nat>

    ghost function View(): Session
      reads this, handShaker
    {
      Session(handShaker.sessionId, handShaker.State(), open, stopped, writeMsgs, writer, reader, readMsg,
              passBuff, chunks, buffers, frames, delivered, written, closes, joined, reply, replay, left)
    }

    constructor (room: ChatRoom, sessionId: nat)
      ensures this.room == room && fresh(handShaker) && handShaker.sessionId == sessionId
    {
      this.room := room;
      handShaker := new HandShaker(sessionId);
      open, stopped, writeMsgs, readMsg := true, false, [], "";
      writer, reader := WriterGone, NoReader;
      passBuff, chunks, buffers, frames := "", [], [], [];
      delivered, written, closes, joined := [], [], 0, 0;
      reply, replay, left := None, None, None;
    }

    method Deliver(msg: string, ghost item: Item)
      requires Text(item) == msg
      modifies this
      ensures View() == Server.Deliver(old(View()), item)
    {
      writeMsgs := writeMsgs + [msg];
      delivered := delivered + [item];
      if writer.Parked? {
        writer := Woken;
      }
    }

    /** start: spawn try_connect and the writer. */
    method Start()
      requires handShaker.State() == H.INIT.(password := H.PasswordDone, countdown := H.CountdownDone, connect := H.Ended)
      modifies this, handShaker
      ensures View() == old(View()).(handshake := H.INIT, writer := WriterStarting)
    {
      handShaker.TryConnect();
      writer := WriterStarting;
    }

    /** The completion token of start. */
    method OnConnectionResponse(accepted: bool, ghost i: nat)
      requires room.Valid() && room.At(i, this)
      modifies this, room`participants
      ensures room.Valid()
      ensures room.View() == Server.OnConnectionResponse(old(room.View()), i, accepted)
    {
      if accepted {
        room.JoinPublic(this, i);
        label joined:
        reader := ReaderStarting;
        room.OnlySessionChanged@joined(i);
      } else {
        Stop(i);
      }
    }

    /** Close the socket. */
    method Close(ghost at: nat)
      requires !stopped
      modifies this
      ensures View() == Closed(old(View()), at)
    {
      open := false;
      closes := closes + 1;
      stopped := true;
      left := Some(at);
    }

    method Stop(ghost i: nat)
      requires room.Valid() && room.At(i, this)
      modifies this, room`participants
      ensures room.Valid()
      ensures room.View() == Server.Stop(old(room.View()), i)
    {
      if !stopped {
        StopIsCloseAndLeave(room.View(), i);
        Close(|room.log|);
        room.OnlySessionChanged(i);
        room.Leave(this, i);
      }
    }

    /** The head of the writer's loop. */
    method WriterLoop(ghost i: nat)
      requires room.Valid() && room.At(i, this)
      modifies this
      ensures room.View() == Update(old(room.View()), i, Server.WriterLoop(old(View())))
    {
      if !open {
        writer := WriterGone;
      } else if writeMsgs == [] {
        writer := Parked;
      } else {
        writer := Writing;
      }
      room.OnlySessionChanged(i);
    }

    /** writer resumes: it was just spawned, or its wait for the timer is over. */
    method WriterResume(ghost i: nat)
      requires room.Valid() && room.At(i, this) && Enabled(room.View(), Event.WriterResume(i))
      modifies this
      ensures room.View() == Next(old(room.View()), Event.WriterResume(i))
    {
      WriterLoop(i);
    }

    /** The front message is through. */
    method PopFront()
      requires writeMsgs != []
      modifies this
      ensures View() == old(View()).(written := old(written) + [old(writeMsgs[0])], outbox := old(writeMsgs)[1..])
    {
      written := written + [writeMsgs[0]];
      writeMsgs := writeMsgs[1..];
    }

    /** writer resumes: the front message has been written. */
    method WriteSucceeded(ghost i: nat)
      requires room.Valid() && room.At(i, this) && Enabled(room.View(), Event.WriteSucceeded(i))
      modifies this
      ensures room.View() == Next(old(room.View()), Event.WriteSucceeded(i))
    {
      ghost var w := room.View();
      PopFront();
      room.OnlySessionChanged(i);
      UpdateTwice(w, i, View());
      WriterLoop(i);
    }

    /** writer resumes: the write failed. */
    method WriteFailed(ghost i: nat)
      requires room.Valid() && room.At(i, this) && Enabled(room.View(), Event.WriteFailed(i))
      modifies this, room`participants
      ensures room.Valid()
      ensures room.View() == Next(old(room.View()), Event.WriteFailed(i))
    {
      writer := WriterGone;
      room.OnlySessionChanged(i);
      Stop(i);
    }

    /** reader starts. */
    method ReaderStart(ghost i: nat)
      requires room.Valid() && room.At(i, this) && Enabled(room.View(), Event.ReaderStart(i))
      modifies this
      ensures room.View() == Next(old(room.View()), Event.ReaderStart(i))
    {
      reader := if open then Reading else ReaderGone;
      room.OnlySessionChanged(i);
    }

    /** async_read_until takes in a chunk. */
    method TakeIn(chunk: string)
      modifies this
      ensures View() == Server.TakeIn(old(View()), chunk)
    {
      readMsg := readMsg + chunk;
      chunks := chunks + [chunk];
    }

    method BytesRead(chunk: string, ghost i: nat)
      requires room.Valid() && room.At(i, this) && Enabled(room.View(), Event.BytesRead(i, chunk))
      modifies this
      ensures room.View() == Next(old(room.View()), Event.BytesRead(i, chunk))
    {
      TakeIn(chunk);
      room.OnlySessionChanged(i);
    }

    /** reader resumes with a frame: one pass of its loop. */
    method FrameRead(ghost i: nat)
      requires room.Valid() && room.At(i, this) && reader.Reading? && FrameEnd(readMsg) != 0
      modifies this, room`recentMsgs, room`log, room`authors, room.participants
      ensures room.Valid()
      ensures room.View() == AfterFrame(old(room.View()), i)
    {
      var n := FrameEnd(readMsg);
      var response := Broadcast(readMsg);
      room.Deliver(response, i);
      label delivered:
      Erase(n);
      room.OnlySessionChanged@delivered(i);
    }

    /** The end of a pass of the reader's loop. */
    method Erase(n: nat)
      requires 2 <= n <= |readMsg|
      modifies this
      ensures View() == Server.Erase(old(View()), n)
    {
      frames := frames + [readMsg[..n - 2]];
      buffers := buffers + [readMsg];
      readMsg := readMsg[n..];
      reader := if open then Reading else ReaderGone;
    }

    /** reader resumes: the read failed. */
    method ReadFailed(ghost i: nat)
      requires room.Valid() && room.At(i, this) && Enabled(room.View(), Event.ReadFailed(i))
      modifies this, room`participants
      ensures room.Valid()
      ensures room.View() == Next(old(room.View()), Event.ReadFailed(i))
    {
      reader := ReaderGone;
      room.OnlySessionChanged(i);
      Stop(i);
    }
  }

  class ChatRoom {
    const password: string
    var participants: set<ChatSession>
    var recentMsgs: seq<string>
    ghost var sessions: seq<ChatSession>
    ghost var log: seq<string>
    ghost var authors: seq<nat>

    ghost predicate Valid()
      reads this
    {
      && (forall s :: s in participants ==> s in sessions)
      && (forall k :: 0 <= k < |sessions| ==> sessions[k].room == this)
      && (forall j, k :: 0 <= j < k < |sessions| ==> sessions[j] != sessions[k])
      && (forall j, k :: 0 <= j < k < |sessions| ==> sessions[j].handShaker != sessions[k].handShaker)
    }

    ghost predicate At(i: nat, s: ChatSession)
      reads this
    {
      i < |sessions| && sessions[i] == s
    }

    ghost function Views(): (views: seq<Session>)
      reads this, sessions, set s | s in sessions :: s.handShaker
      ensures |views| == |sessions|
      ensures forall k :: 0 <= k < |sessions| ==> views[k] == sessions[k].View()
    {
      seq(|sessions|, k requires 0 <= k < |sessions| reads this, sessions, set s | s in sessions :: s.handShaker
          => sessions[k].View())
    }

    ghost function Members(): (members: set<nat>)
      reads this
      ensures forall k :: k in members <==> 0 <= k < |sessions| && sessions[k] in participants
    {
      set k: nat | k < |sessions| && sessions[k] in participants
    }

    ghost function View(): World
      reads this, sessions, set s | s in sessions :: s.handShaker
    {
      World(password, Views(), Members(), recentMsgs, log, authors)
    }

    /** Frame: nothing but session `i` and its handshake changed. */
    twostate lemma OnlySessionChanged(i: nat)
      requires old(Valid()) && unchanged(this) && i < |sessions|
      requires forall k :: 0 <= k < |sessions| && k != i ==> unchanged(sessions[k]) && unchanged(sessions[k].handShaker)
      ensures View() == Update(old(View()), i, sessions[i].View())
    {
    }

    constructor (password: string)
      ensures Valid() && View() == Start(password)
    {
      this.password := password;
      participants, recentMsgs := {}, [];
      sessions, log, authors := [], [], [];
    }

    method DeliverPrivate(msg: string, participant: ChatSession, ghost i: nat)
      requires Valid() && At(i, participant)
      modifies participant
      ensures View() == Server.DeliverPrivate(old(View()), i, msg)
    {
      if participant in participants {
        participant.Deliver(msg, Private(msg));
        participant.reply := Some((|log|, msg));
      }
      OnlySessionChanged(i);
    }

    /** m_participants takes the session over. */
    method Insert(participant: ChatSession)
      requires Valid() && participant.room == this
      requires participant !in sessions
      requires forall k :: 0 <= k < |sessions| ==> sessions[k].handShaker != participant.handShaker
      modifies this`participants, this`sessions
      ensures Valid() && sessions == old(sessions) + [participant]
      ensures View() == old(View()).(sessions := old(Views()) + [participant.View()],
                                     participants := old(Members()) + {old(|sessions|)})
    {
      participants := participants + {participant};
      sessions := sessions + [participant];
      assert Views() == old(Views()) + [participant.View()];
      assert Members() == old(Members()) + {|sessions| - 1};
    }

    method Join(participant: ChatSession)
      requires Valid() && participant.room == this
      requires participant !in sessions
      requires forall k :: 0 <= k < |sessions| ==> sessions[k].handShaker != participant.handShaker
      requires participant.View().(joined := 0) == NotStarted(participant.handShaker.sessionId)
      modifies this`participants, this`sessions, participant, participant.handShaker
      ensures Valid() && sessions == old(sessions) + [participant]
      ensures View() == Server.Join(old(View()), participant.handShaker.sessionId)
    {
      participant.joined := |log|;
      assert Views() == old(Views());
      Insert(participant);
      label inserted:
      participant.Start();
      assert participant.View() == NewSession(participant.handShaker.sessionId, |log|);
      OnlySessionChanged@inserted(|sessions| - 1);
      assert View().sessions == old(Views()) + [participant.View()];
    }

    method Leave(participant: ChatSession, ghost i: nat)
      requires Valid() && At(i, participant)
      modifies this`participants
      ensures Valid()
      ensures View() == old(View()).(participants := old(View()).participants - {i})
    {
      participants := participants - {participant};
    }

    /** Replay the recent messages, each with the delimiter. */
    method JoinPublic(participant: ChatSession, ghost i: nat)
      requires Valid() && At(i, participant)
      modifies participant
      ensures View() == Server.JoinPublic(old(View()), i)
    {
      if participant in participants {
        ghost var items := ReplayItems(|log| - |recentMsgs|, recentMsgs);
        var k := 0;
        while k < |recentMsgs|
          invariant 0 <= k <= |recentMsgs|
          invariant participant.View() == DeliverAll(old(participant.View()), items[..k])
        {
          assert items[..k + 1][..k] == items[..k];
          participant.Deliver(recentMsgs[k] + DELIM, items[k]);
          k := k + 1;
        }
        assert items[..k] == items;
        participant.replay := Some(|log|);
      }
      OnlySessionChanged(i);
    }

    /** Push the message and pop the front while there are too many. */
    method Remember(msg: string)
      modifies this`recentMsgs
      ensures recentMsgs == PushRecent(old(recentMsgs), msg)
    {
      recentMsgs := recentMsgs + [msg];
      ghost var all := recentMsgs;
      while MAX_RECENT < |recentMsgs|
        invariant |recentMsgs| <= |all| && recentMsgs == all[|all| - |recentMsgs|..]
        invariant |all| <= MAX_RECENT ==> recentMsgs == all
        invariant MAX_RECENT < |all| ==> MAX_RECENT <= |recentMsgs|
      {
        recentMsgs := recentMsgs[1..];
      }
    }

    /** Log the message, keep the last MAX_RECENT, and hand it to everyone in the room. */
    method Deliver(msg: string, ghost author: nat)
      requires Valid()
      modifies this`recentMsgs, this`log, this`authors, participants
      ensures Valid() && View() == RoomDeliver(old(View()), author, msg)
    {
      ghost var item := Live(|log|, msg);
      Remember(msg);
      log := log + [msg];
      authors := authors + [author];
      DeliverToAll(msg, item);
    }

    /** The loop over the participants. */
    method DeliverToAll(msg: string, ghost item: Item)
      requires Valid() && Text(item) == msg
      modifies participants
      ensures forall s :: s in participants ==> s.View() == Server.Deliver(old(s.View()), item)
    {
      var todo := participants;
      while todo != {}
        invariant todo <= participants
        invariant forall s :: s in todo ==> unchanged(s)
        invariant forall s :: s in participants && s !in todo ==> s.View() == Server.Deliver(old(s.View()), item)
        decreases |todo|
      {
        var participant :| participant in todo;
        participant.Deliver(msg, item);
        todo := todo - {participant};
      }
    }
  }

  /** A session whose coroutines have not been spawned. */
  ghost function NotStarted(sessionId: nat): Session {
    var s := NewSession(sessionId, 0);
    s.(handshake := H.INIT.(password := H.PasswordDone, countdown := H.CountdownDone, connect := H.Ended), writer := WriterGone)
  }
}
