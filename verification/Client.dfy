/**
 The client as a transition system over its events, in whatever order Qt delivers them: the view's
 connected flag, the presenter with its message handler, the handshaker, and the socket.
 */
module Client {
  import opened Wrappers
  import opened SessionId
  import H = Handshake

  datatype HandShakeMode = AwaitHandShake | AwaitSessionId | HandShakeOk

  type ConnectionResult = Result<string, string>

  /** HandShaker. The connection result of a fresh one is a default std::expected: an empty value. */
  datatype HandShaker = HandShaker(mode: HandShakeMode, sessionId: int, result: ConnectionResult)

  const FRESH: HandShaker := HandShaker(AwaitHandShake, -1, Success(""))

  datatype MessageHandler = MessageHandler(username: string, sessionId: int)

  /** What the client writes to its socket. */
  datatype Sent =
    | Password(text: string)
    | Name(text: string)
    | Chat(handler: MessageHandler, text: string)

  datatype Client = Client(
    username: string,
    password: string,
    connected: bool,                   // MainWindow::m_is_connected
    broadcastName: bool,
    handler: Option<MessageHandler>,   // TcpPresenter::m_message_handler
    handShaker: HandShaker,            // TcpPresenter::m_handshaker
    online: bool,                      // the socket is in ConnectedState
    // history
    sent: seq<Sent>,
    shown: seq<string>,
    lastParsed: Option<int>            // the number most recently read as a session id
  )

  datatype Event =
    | ConnectClicked
    | SendClicked(text: string)
    | ModeChanged(broadcastName: bool)
    | SettingsChanged(username: string, password: string)
    | ConnectResponse(result: ConnectionResult)
    | MessageReceived(msg: string)
    | RemoteClosed
    | SocketDropped

  // ---------- TcpClientModel ----------

  function Send(c: Client, frame: Sent): Client {
    if c.online then c.(sent := c.sent + [frame]) else c
  }

  // ---------- MainWindow ----------

  function ViewConnectResponse(c: Client, result: ConnectionResult): Client {
    c.(connected := result.Success?)
  }

  function ViewMsgReception(c: Client, msg: string): Client {
    if c.connected then c.(shown := c.shown + [msg]) else c
  }

  // ---------- HandShaker ----------

  /** parse_session_id, given what toLongLong made of the message; it leaves 0 when it fails. */
  function ParseSessionId(c: Client, parsed: Option<int>): Client {
    match parsed
    case None =>
      ViewConnectResponse(c.(handShaker := c.handShaker.(sessionId := 0)), Failure("ConnectionRejected: Wrong Password"))
    case Some(id) =>
      var c := c.(handShaker := c.handShaker.(sessionId := id, mode := HandShakeOk), lastParsed := Some(id));
      ViewConnectResponse(if c.broadcastName then Send(c, Name(c.username)) else c, c.handShaker.result)
  }

  function AwaitHandshake(c: Client, result: ConnectionResult): Client {
    var c := Send(c, Password(c.password));
    c.(handShaker := c.handShaker.(result := result, mode := AwaitSessionId))
  }

  // ---------- TcpPresenter ----------

  /** `parsed` is what toLongLong makes of the message. */
  function PresenterMsgReception(c: Client, msg: string, parsed: Option<int>): Client {
    var awaiting := c.handShaker.mode.AwaitSessionId?;
    var c := if awaiting then ParseSessionId(c, parsed) else c;
    if awaiting && parsed.Some? then
      c.(handler := Some(MessageHandler(c.username, c.handShaker.sessionId)))
    else if c.handler.None? then c
    else ViewMsgReception(c, msg)
  }

  function PresenterConnectResponse(c: Client, result: ConnectionResult): Client {
    if result.Failure? then ViewConnectResponse(c, result) else AwaitHandshake(c, result)
  }

  function PresenterSend(c: Client, text: string): Client {
    if c.handler.None? then c else Send(c, Chat(c.handler.value, text))
  }

  function Disconnect(c: Client): Client {
    c.(online := false, handler := None, handShaker := FRESH)
  }

  // ---------- events ----------

  function OnConnectClicked(c: Client): Client {
    if c.connected then Disconnect(c).(connected := false) else c
  }

  function OnModeChanged(c: Client, broadcastName: bool): Client {
    var c := if c.connected then OnConnectClicked(c) else c;
    c.(broadcastName := broadcastName, handler := None, handShaker := FRESH, online := false)
  }

  /** A successful connect response comes from a socket that has just connected. */
  function Next(c: Client, e: Event): Client {
    match e
    case ConnectClicked => OnConnectClicked(c)
    case SendClicked(text) => if c.connected then PresenterSend(c, text) else c
    case ModeChanged(broadcastName) => OnModeChanged(c, broadcastName)
    case SettingsChanged(username, password) => c.(username := username, password := password)
    case ConnectResponse(result) =>
      PresenterConnectResponse(if result.Success? then c.(online := true) else c, result)
    case MessageReceived(msg) => Receive(c, msg)
    case RemoteClosed => c.(connected := false, online := false)
    case SocketDropped => c.(online := false)
  }

  function Start(username: string, password: string, broadcastName: bool): Client {
    Client(username, password, false, broadcastName, None, FRESH, false, [], [], None)
  }

  function After(c: Client, run: seq<Event>): Client {
    if run == [] then c else Next(After(c, run[..|run| - 1]), run[|run| - 1])
  }

  function Receive(c: Client, msg: string): Client {
    PresenterMsgReception(c, msg, ToLongLong(msg))
  }

  /** The messages of one chunk, one after the other. */
  function ReceiveAll(c: Client, msgs: seq<string>): Client {
    if msgs == [] then c else Receive(ReceiveAll(c, msgs[..|msgs| - 1]), msgs[|msgs| - 1])
  }

  lemma ReceiveOneMore(c: Client, msgs: seq<string>, k: nat)
    requires k < |msgs|
    ensures ReceiveAll(c, msgs[..k + 1]) == Receive(ReceiveAll(c, msgs[..k]), msgs[k])
  {
    assert msgs[..k + 1][..k] == msgs[..k];
  }

  function Receptions(msgs: seq<string>): seq<Event> {
    seq(|msgs|, k requires 0 <= k < |msgs| => MessageReceived(msgs[k]))
  }

  lemma LastReception(c: Client, msg: string)
    ensures Next(c, MessageReceived(msg)) == Receive(c, msg)
  {
  }

  /** Receiving a chunk is a run of its messages, so what holds over every run holds over every chunking. */
  lemma {:induction false} ReceiveAllIsRun(c: Client, msgs: seq<string>)
    ensures ReceiveAll(c, msgs) == After(c, Receptions(msgs))
  {
    if msgs == [] {
    } else {
      var init := msgs[..|msgs| - 1];
      var run := Receptions(msgs);
      assert run[..|run| - 1] == Receptions(init);
      ReceiveAllIsRun(c, init);
      LastReception(After(c, Receptions(init)), msgs[|msgs| - 1]);
    }
  }

  // ---------- what every order of events keeps ----------

  ghost predicate Inv(c: Client) {
    && (c.connected ==> c.handler.Some?)
    && (c.handler.Some? ==> c.lastParsed == Some(c.handler.value.sessionId))
    && (c.handShaker.mode.AwaitSessionId? ==> c.handShaker.result.Success?)
    && (c.handShaker.mode.HandShakeOk? ==> c.handler.Some? && c.handler.value.sessionId == c.handShaker.sessionId)
  }

  lemma MessageKeepsInv(c: Client, msg: string, parsed: Option<int>)
    requires Inv(c)
    ensures Inv(PresenterMsgReception(c, msg, parsed))
  {
  }

  lemma StepKeepsInv(c: Client, e: Event)
    requires Inv(c)
    ensures Inv(Next(c, e))
  {
    if e.MessageReceived? {
      MessageKeepsInv(c, e.msg, ToLongLong(e.msg));
    }
  }

  lemma {:induction false} ReachableInv(username: string, password: string, broadcastName: bool, run: seq<Event>)
    ensures Inv(After(Start(username, password, broadcastName), run))
  {
    if run == [] {
    } else {
      ReachableInv(username, password, broadcastName, run[..|run| - 1]);
      StepKeepsInv(After(Start(username, password, broadcastName), run[..|run| - 1]), run[|run| - 1]);
    }
  }

  /** The view says connected only while the presenter holds a message handler, and its id is the number
      most recently read as a session id. */
  lemma ConnectedMeansIdentified(username: string, password: string, broadcastName: bool, run: seq<Event>)
    ensures var c := After(Start(username, password, broadcastName), run);
            c.connected ==> c.handler.Some? && c.lastParsed == Some(c.handler.value.sessionId)
  {
    ReachableInv(username, password, broadcastName, run);
  }

  // ---------- what each event does ----------

  /** The send button: while connected and online, exactly one chat frame goes out, with the text, the name the
      session was opened under and the number read as its id; otherwise nothing happens. */
  lemma SendDoes(c: Client, text: string)
    requires Inv(c)
    ensures c.connected && c.online ==>
              && c.handler.Some? && c.lastParsed.Some?
              && Next(c, SendClicked(text)) ==
                   c.(sent := c.sent + [Chat(MessageHandler(c.handler.value.username, c.lastParsed.value), text)])
    ensures !(c.connected && c.online) ==> Next(c, SendClicked(text)) == c
  {
    if c.connected && c.online {
      assert c.handler.value == MessageHandler(c.handler.value.username, c.lastParsed.value);
    }
  }

  /** A connection: exactly the password goes out, and the client waits for its id. A failure: it is not connected. */
  lemma ConnectDoes(c: Client, result: ConnectionResult)
    ensures var c' := Next(c, ConnectResponse(result));
            match result
            case Success(_) =>
              c' == c.(online := true, sent := c.sent + [Password(c.password)],
                       handShaker := HandShaker(AwaitSessionId, c.handShaker.sessionId, result))
            case Failure(_) => c' == c.(connected := false)
  {
  }

  /** What a message does: to a client that waits for its id, a number connects it under that id and has its name
      sent if it is to be, and anything else leaves it waiting; to any other client, it is shown if connected. */
  ghost predicate MessageDoes(c: Client, c': Client, msg: string, parsed: Option<int>) {
    if !c.handShaker.mode.AwaitSessionId? then
      c' == c.(shown := if c.connected then c.shown + [msg] else c.shown)
    else if parsed.None? then
      c' == c.(connected := false, handShaker := HandShaker(AwaitSessionId, 0, c.handShaker.result))
    else
      c' == c.(connected := true,
               handler := Some(MessageHandler(c.username, parsed.value)),
               handShaker := HandShaker(HandShakeOk, parsed.value, c.handShaker.result),
               lastParsed := parsed,
               sent := if c.broadcastName && c.online then c.sent + [Name(c.username)] else c.sent)
  }

  lemma PresenterDoes(c: Client, msg: string, parsed: Option<int>)
    requires Inv(c)
    ensures MessageDoes(c, PresenterMsgReception(c, msg, parsed), msg, parsed)
  {
  }

  lemma ReceiveDoes(c: Client, msg: string)
    requires Inv(c)
    ensures MessageDoes(c, Next(c, MessageReceived(msg)), msg, ToLongLong(msg))
  {
    PresenterDoes(c, msg, ToLongLong(msg));
  }

  /** The other events. A click or a change of mode while connected closes the socket and forgets the session;
      what was sent and shown stays. */
  lemma OthersDo(c: Client, name: string, password: string, broadcastName: bool)
    ensures Next(c, ConnectClicked) ==
              if !c.connected then c
              else c.(connected := false, online := false, handler := None,
                      handShaker := HandShaker(AwaitHandShake, -1, Success("")))
    ensures Next(c, ModeChanged(broadcastName)) ==
              c.(connected := false, online := false, handler := None, broadcastName := broadcastName,
                 handShaker := HandShaker(AwaitHandShake, -1, Success("")))
    ensures Next(c, SettingsChanged(name, password)) == c.(username := name, password := password)
    ensures Next(c, RemoteClosed) == c.(connected := false, online := false)
    ensures Next(c, SocketDropped) == c.(online := false)
  {
  }

  /** The frame carries nothing but this client's own password or name. */
  predicate IsOwn(frame: Sent, username: string, password: string) {
    match frame
    case Password(text) => text == password
    case Name(text) => text == username
    case Chat(handler, _) => handler.username == username
  }

  ghost predicate SentOwn(c: Client, username: string, password: string) {
    && c.username == username && c.password == password
    && (c.handler.Some? ==> c.handler.value.username == username)
    && forall k :: 0 <= k < |c.sent| ==> IsOwn(c.sent[k], username, password)
  }

  lemma StepSendsOwn(c: Client, e: Event, username: string, password: string)
    requires Inv(c) && SentOwn(c, username, password) && !e.SettingsChanged?
    ensures SentOwn(Next(c, e), username, password)
  {
    match e
    case SendClicked(text) => SendDoes(c, text);
    case ConnectResponse(result) => ConnectDoes(c, result);
    case MessageReceived(msg) => ReceiveDoes(c, msg);
    case ConnectClicked => OthersDo(c, username, password, c.broadcastName);
    case ModeChanged(broadcastName) => OthersDo(c, username, password, broadcastName);
    case RemoteClosed => OthersDo(c, username, password, c.broadcastName);
    case SocketDropped => OthersDo(c, username, password, c.broadcastName);
  }

  /** Over every order of events that does not change the settings, whatever the client sends carries the name and
      the password that it was started with. */
  lemma {:induction false} SendsItsOwn(username: string, password: string, broadcastName: bool, run: seq<Event>)
    requires forall k :: 0 <= k < |run| ==> !run[k].SettingsChanged?
    ensures SentOwn(After(Start(username, password, broadcastName), run), username, password)
  {
    if run == [] {
    } else {
      var init := run[..|run| - 1];
      SendsItsOwn(username, password, broadcastName, init);
      ReachableInv(username, password, broadcastName, init);
      StepSendsOwn(After(Start(username, password, broadcastName), init), run[|run| - 1], username, password);
    }
  }

  function ChatIds(sent: seq<Sent>): seq<int> {
    if sent == [] then []
    else ChatIds(sent[..|sent| - 1]) + (if sent[|sent| - 1].Chat? then [sent[|sent| - 1].handler.sessionId] else [])
  }

  lemma ChatIdsSnoc(sent: seq<Sent>, frame: Sent)
    ensures ChatIds(sent + [frame]) == ChatIds(sent) + (if frame.Chat? then [frame.handler.sessionId] else [])
  {
    assert (sent + [frame])[..|sent|] == sent;
  }

  lemma ParseEffect(c: Client, parsed: Option<int>)
    ensures var c' := ParseSessionId(c, parsed);
            && (c'.sent == c.sent || c'.sent == c.sent + [Name(c.username)])
            && c'.shown == c.shown && c'.handler == c.handler
            && (parsed.None? ==> !c'.connected)
  {
  }

  lemma MessageEffect(c: Client, msg: string, parsed: Option<int>)
    requires Inv(c)
    ensures var c' := PresenterMsgReception(c, msg, parsed);
            && (c'.sent == c.sent || c'.sent == c.sent + [Name(c.username)])
            && (c'.shown != c.shown ==> c.connected && c'.connected && c'.shown == c.shown + [msg])
  {
    if c.handShaker.mode.AwaitSessionId? {
      ParseEffect(c, parsed);
    }
  }

  lemma ReceiveSpeaks(c: Client, msg: string, parsed: Option<int>)
    requires Inv(c)
    ensures var c' := PresenterMsgReception(c, msg, parsed);
            && ChatIds(c'.sent) == ChatIds(c.sent)
            && (c'.shown != c.shown ==> c.connected && c'.connected && c'.shown == c.shown + [msg])
  {
    MessageEffect(c, msg, parsed);
    ChatIdsSnoc(c.sent, Name(c.username));
  }

  lemma SendSpeaks(c: Client, text: string)
    requires Inv(c)
    ensures var c' := Next(c, SendClicked(text));
            && c'.shown == c.shown
            && (c'.sent != c.sent ==>
                  && c.connected && c.online && c.lastParsed.Some?
                  && ChatIds(c'.sent) == ChatIds(c.sent) + [c.lastParsed.value])
  {
    if c.handler.Some? {
      ChatIdsSnoc(c.sent, Chat(c.handler.value, text));
    }
  }

  /** A chat frame is sent, and a message shown, only while connected; the frame carries that id. */
  lemma SpeaksOnlyWhenConnected(c: Client, e: Event)
    requires Inv(c)
    ensures var c' := Next(c, e);
            && (ChatIds(c'.sent) != ChatIds(c.sent) ==>
                  && c.connected && c.online && e.SendClicked?
                  && c.lastParsed.Some? && ChatIds(c'.sent) == ChatIds(c.sent) + [c.lastParsed.value])
            && (c'.shown != c.shown ==>
                  && c.connected && c'.connected && e.MessageReceived? && c'.shown == c.shown + [e.msg])
  {
    match e
    case MessageReceived(msg) => ReceiveSpeaks(c, msg, ToLongLong(msg));
    case SendClicked(text) => SendSpeaks(c, text);
    case ConnectResponse(_) => ChatIdsSnoc(c.sent, Password(c.password));
    case ConnectClicked =>
    case ModeChanged(_) =>
    case SettingsChanged(_, _) =>
    case RemoteClosed =>
    case SocketDropped =>
  }

  /** Every id a chat frame ever carried was read out of a message received earlier in the run. */
  lemma {:induction false} IdsWereReceived(c: Client, run: seq<Event>, id: int)
    requires Inv(c) && c.lastParsed.None? && ChatIds(c.sent) == []
    ensures Inv(After(c, run))
    ensures id in ChatIds(After(c, run).sent) || After(c, run).lastParsed == Some(id)
        ==> exists n :: 0 <= n < |run| && run[n].MessageReceived? && ToLongLong(run[n].msg) == Some(id)
  {
    if run == [] {
    } else {
      var last := |run| - 1;
      var c' := After(c, run[..last]);
      IdsWereReceived(c, run[..last], id);
      StepKeepsInv(c', run[last]);
      SpeaksOnlyWhenConnected(c', run[last]);
      ParsedWhenReceived(c', run[last]);
      if id in ChatIds(c'.sent) || c'.lastParsed == Some(id) {
        var n :| 0 <= n < last && run[..last][n].MessageReceived? && ToLongLong(run[..last][n].msg) == Some(id);
        assert run[n] == run[..last][n];
      }
    }
  }

  lemma ParsedByMessage(c: Client, msg: string, parsed: Option<int>)
    ensures var c' := PresenterMsgReception(c, msg, parsed);
            c'.lastParsed == c.lastParsed || c'.lastParsed == parsed
  {
  }

  lemma ParsedWhenReceived(c: Client, e: Event)
    ensures Next(c, e).lastParsed != c.lastParsed ==> e.MessageReceived? && Next(c, e).lastParsed == ToLongLong(e.msg)
  {
    if e.MessageReceived? {
      ParsedByMessage(c, e.msg, ToLongLong(e.msg));
    }
  }

  lemma ReplyOutcome(c: Client, msg: string, parsed: Option<int>)
    requires Inv(c) && c.handShaker.mode.AwaitSessionId?
    ensures var c' := PresenterMsgReception(c, msg, parsed);
            && (c'.connected <==> parsed.Some?)
            && (parsed.Some? ==> c'.handler == Some(MessageHandler(c.username, parsed.value)))
            && (parsed.None? ==> c'.handler == c.handler && c'.handShaker.mode.AwaitSessionId?)
  {
  }

  /** A client that awaits the reply is connected by it exactly when the server sent a session id, and
      then speaks under that id; a refusal leaves it unconnected and still waiting. */
  lemma ReplyDecides(c: Client, reply: H.Reply, sessionId: nat)
    requires Inv(c) && c.handShaker.mode.AwaitSessionId? && sessionId < 0x1_0000_0000
    ensures var c' := Next(c, MessageReceived(ReplyText(reply, sessionId)));
            && (c'.connected <==> reply.SessionId?)
            && (reply.SessionId? ==> c'.handler == Some(MessageHandler(c.username, sessionId)))
            && (!reply.SessionId? ==> c'.handler == c.handler && c'.handShaker.mode.AwaitSessionId?)
  {
    var msg := ReplyText(reply, sessionId);
    ReplyAgreement(reply, sessionId);
    LastReception(c, msg);
    ReplyOutcome(c, msg, ToLongLong(msg));
  }
}
