/** Runs of the server that show that what its theorems speak of does happen, for every password and message. */
module ServerScenarios {
  import opened Wrappers
  import opened Delimiter
  import opened FrameReader
  import opened SessionId
  import opened Server
  import opened ServerInvariants
  import opened ServerTheorems
  import H = Handshake

  /** What `a` and then `b` lead to. */
  lemma Then(w: World, a: seq<Event>, v: World, b: seq<Event>, u: World)
    requires RunFrom(w, a) == Some(v) && RunFrom(v, b) == Some(u)
    ensures RunFrom(w, a + b) == Some(u)
  {
    RunFromAppend(w, a, b);
  }

  // ---------- admission ----------

  /** The handshake after each resumption of an admission. */
  const ISSUED: H.State := H.State(true, false, true, H.FlushingId, H.AwaitingTimer, H.AwaitingBoth, [H.SessionId], [])
  const DONE: H.State := H.State(true, false, true, H.PasswordDone, H.CountdownDone, H.Ended, [H.SessionId], [true])

  function Silent(i: nat, step: H.Event): Event {
    HandshakeStep(i, step, "")
  }

  function WaitsRun(i: nat): seq<Event> {
    [Silent(i, H.PasswordFlushed(false))] + ([Silent(i, H.TimerDone(false, false))] + [Silent(i, H.BothDone)])
  }

  /** The correct password is read, the timer is cancelled, and every wait ends. */
  function AdmitRun(i: nat, buffer: string): seq<Event> {
    [HandshakeStep(i, H.PasswordRead(H.Frame(true), false), buffer)] + (WaitsRun(i) + [Silent(i, H.SessionFlushed)])
  }

  function WithId(s: Session, buffer: string, at: nat): Session {
    Replied(s.(handshake := ISSUED, passBuff := buffer), true, Print(s.sessionId), at)
  }

  function Admitted(s: Session, buffer: string, recent: seq<string>, at: nat): Session {
    Replayed(WithId(s, buffer, at).(handshake := DONE), true, recent, at).(reader := ReaderStarting)
  }

  /** A step that brings neither a reply nor a completion. */
  lemma SilentStep(w: World, i: nat, step: H.Event)
    requires i < |w.sessions| && Enabled(w, Silent(i, step)) && (step.PasswordRead? ==> !step.result.Frame?)
    requires var h, h' := w.sessions[i].handshake, H.Next(w.sessions[i].handshake, step);
             h'.issued == h.issued && h'.completions == h.completions
    ensures RunFrom(w, [Silent(i, step)])
         == Some(Update(w, i, w.sessions[i].(handshake := H.Next(w.sessions[i].handshake, step))))
  {
    OneStep(w, Silent(i, step));
  }

  lemma IdIsIssued(w: World, i: nat, buffer: string)
    requires i < |w.sessions| && w.sessions[i].handshake == H.INIT && i in w.participants
    requires FrameEnd(buffer) != 0 && |buffer| <= READ_BUFF_LEN && IsPasswordCorrect(buffer, w.password)
    ensures RunFrom(w, [HandshakeStep(i, H.PasswordRead(H.Frame(true), false), buffer)])
         == Some(Update(w, i, WithId(w.sessions[i], buffer, |w.log|)))
  {
    var e := HandshakeStep(i, H.PasswordRead(H.Frame(true), false), buffer);
    assert H.INIT.issued + [H.SessionId] == [H.SessionId];
    assert H.Next(H.INIT, e.step) == ISSUED;
    UpdateTwice(w, i, Stepped(w.sessions[i], e.step, buffer));
    OneStep(w, e);
  }

  lemma HistoryIsReplayed(w: World, i: nat)
    requires i < |w.sessions| && i in w.participants
    requires w.sessions[i].handshake == DONE.(connect := H.FlushingSession, completions := [])
    ensures RunFrom(w, [Silent(i, H.SessionFlushed)])
         == Some(Update(w, i, Replayed(w.sessions[i].(handshake := DONE), true, w.recent, |w.log|).(reader := ReaderStarting)))
  {
    var t := w.sessions[i].(handshake := DONE);
    assert w.sessions[i].handshake.completions + [true] == [true];
    assert Stepped(w.sessions[i], H.SessionFlushed, "") == t;
    UpdateTwice(w, i, t);
    UpdateTwice(w, i, Replayed(t, true, w.recent, |w.log|));
    OneStep(w, Silent(i, H.SessionFlushed));
  }

  /** The waits behind the reply end one after the other. */
  lemma WaitsEnd(w: World, i: nat)
    requires i < |w.sessions| && i in w.participants && w.sessions[i].handshake == ISSUED
    ensures RunFrom(w, WaitsRun(i))
         == Some(Update(w, i, w.sessions[i].(handshake := DONE.(connect := H.FlushingSession, completions := []))))
  {
    var s := w.sessions[i];
    var s1 := s.(handshake := ISSUED.(password := H.PasswordDone));
    var s2 := s.(handshake := s1.handshake.(countdown := H.CountdownDone));
    var s3 := s.(handshake := s2.handshake.(connect := H.FlushingSession));
    var w1, w2, w3 := Update(w, i, s1), Update(w, i, s2), Update(w, i, s3);
    SilentStep(w, i, H.PasswordFlushed(false));
    UpdateTwice(w, i, s1);
    SilentStep(w1, i, H.TimerDone(false, false));
    UpdateTwice(w, i, s2);
    SilentStep(w2, i, H.BothDone);
    Then(w1, [Silent(i, H.TimerDone(false, false))], w2, [Silent(i, H.BothDone)], w3);
    Then(w, [Silent(i, H.PasswordFlushed(false))], w1, [Silent(i, H.TimerDone(false, false))] + [Silent(i, H.BothDone)], w3);
  }

  /** From every state, a session in the room whose handshake has just begun can be admitted. */
  lemma Admit(w: World, i: nat, buffer: string)
    requires i < |w.sessions| && w.sessions[i].handshake == H.INIT && i in w.participants
    requires FrameEnd(buffer) != 0 && |buffer| <= READ_BUFF_LEN && IsPasswordCorrect(buffer, w.password)
    ensures RunFrom(w, AdmitRun(i, buffer)) == Some(Update(w, i, Admitted(w.sessions[i], buffer, w.recent, |w.log|)))
  {
    var s1 := WithId(w.sessions[i], buffer, |w.log|);
    var s2 := s1.(handshake := DONE.(connect := H.FlushingSession, completions := []));
    var w1, w2 := Update(w, i, s1), Update(w, i, s2);
    IdIsIssued(w, i, buffer);
    WaitsEnd(w1, i);
    UpdateTwice(w, i, s1);
    HistoryIsReplayed(w2, i);
    UpdateTwice(w, i, s2);
    AdmitInTurn(w, i, buffer, w1, w2, Update(w, i, Admitted(w.sessions[i], buffer, w.recent, |w.log|)));
  }

  lemma AdmitInTurn(w: World, i: nat, buffer: string, w1: World, w2: World, w3: World)
    requires RunFrom(w, [HandshakeStep(i, H.PasswordRead(H.Frame(true), false), buffer)]) == Some(w1)
    requires RunFrom(w1, WaitsRun(i)) == Some(w2) && RunFrom(w2, [Silent(i, H.SessionFlushed)]) == Some(w3)
    ensures RunFrom(w, AdmitRun(i, buffer)) == Some(w3)
  {
    Then(w1, WaitsRun(i), w2, [Silent(i, H.SessionFlushed)], w3);
    Then(w, [HandshakeStep(i, H.PasswordRead(H.Frame(true), false), buffer)], w1,
         WaitsRun(i) + [Silent(i, H.SessionFlushed)], w3);
  }

  // ---------- refusal ----------

  const REJECTED: H.State := H.State(false, true, true, H.FlushingReject, H.AwaitingTimer, H.AwaitingBoth, [H.Reject], [])

  function RejectedWith(s: Session, buffer: string, at: nat): Session {
    Replied(s.(handshake := REJECTED, passBuff := buffer), true, REJECT_RESP, at)
  }

  lemma RejectIsIssued(w: World, i: nat, buffer: string)
    requires i < |w.sessions| && w.sessions[i].handshake == H.INIT && i in w.participants
    requires FrameEnd(buffer) != 0 && |buffer| <= READ_BUFF_LEN && !IsPasswordCorrect(buffer, w.password)
    ensures RunFrom(w, [HandshakeStep(i, H.PasswordRead(H.Frame(false), false), buffer)])
         == Some(Update(w, i, RejectedWith(w.sessions[i], buffer, |w.log|)))
  {
    var e := HandshakeStep(i, H.PasswordRead(H.Frame(false), false), buffer);
    assert H.INIT.issued + [H.Reject] == [H.Reject];
    assert H.Next(H.INIT, e.step) == REJECTED;
    UpdateTwice(w, i, Stepped(w.sessions[i], e.step, buffer));
    OneStep(w, e);
  }

  function RejectWaitsRun(i: nat): seq<Event> {
    [Silent(i, H.PasswordFlushed(false))] + ([Silent(i, H.TimerDone(false, false))] + [Silent(i, H.BothDone)])
  }

  lemma LastRefusal(w: World, i: nat) returns (w': World)
    requires i < |w.sessions| && !w.sessions[i].stopped
    requires w.sessions[i].handshake ==
               REJECTED.(password := H.PasswordThrew(H.ConnectionRefused), countdown := H.CountdownDone)
    ensures RunFrom(w, [Silent(i, H.BothDone)]) == Some(w')
    ensures |w'.sessions| == |w.sessions| && i !in w'.participants && w'.sessions[i].stopped
    ensures w'.sessions[i].delivered == w.sessions[i].delivered && w'.sessions[i].handshake.completions == [false]
  {
    var t := Stepped(w.sessions[i], H.BothDone, "");
    assert [] + [false] == [false];
    assert t.handshake.completions == [false];
    w' := Next(w, Silent(i, H.BothDone));
    OneStep(w, Silent(i, H.BothDone));
  }

  /** From every state, a session in the room whose handshake has just begun is refused when what it sends is not
      the password: it is handed the refusal and is out of the room. */
  lemma Refuse(w: World, i: nat, buffer: string) returns (w': World)
    requires i < |w.sessions| && w.sessions[i].handshake == H.INIT && i in w.participants && !w.sessions[i].stopped
    requires FrameEnd(buffer) != 0 && |buffer| <= READ_BUFF_LEN && !IsPasswordCorrect(buffer, w.password)
    ensures RunFrom(w, [HandshakeStep(i, H.PasswordRead(H.Frame(false), false), buffer)] + RejectWaitsRun(i)) == Some(w')
    ensures |w'.sessions| == |w.sessions| && i !in w'.participants && w'.sessions[i].stopped
    ensures w'.sessions[i].delivered == w.sessions[i].delivered + [Private("[reject]")]
    ensures w'.sessions[i].handshake.completions == [false]
  {
    var s1 := RejectedWith(w.sessions[i], buffer, |w.log|);
    var s2 := s1.(handshake := REJECTED.(password := H.PasswordThrew(H.ConnectionRefused)));
    var s3 := s1.(handshake := s2.handshake.(countdown := H.CountdownDone));
    var w1, w2, w3 := Update(w, i, s1), Update(w, i, s2), Update(w, i, s3);
    RejectIsIssued(w, i, buffer);
    SilentStep(w1, i, H.PasswordFlushed(false));
    UpdateTwice(w, i, s1);
    SilentStep(w2, i, H.TimerDone(false, false));
    UpdateTwice(w, i, s2);
    w' := LastRefusal(w3, i);
    Then(w2, [Silent(i, H.TimerDone(false, false))], w3, [Silent(i, H.BothDone)], w');
    Then(w1, [Silent(i, H.PasswordFlushed(false))], w2, [Silent(i, H.TimerDone(false, false))] + [Silent(i, H.BothDone)], w');
    Then(w, [HandshakeStep(i, H.PasswordRead(H.Frame(false), false), buffer)], w1, RejectWaitsRun(i), w');
  }

  // ---------- a message before the acceptance ----------

  ghost predicate Sendable(s: string) {
    DelimFree(s) && |s| <= 1022
  }

  lemma OneFrame(s: string)
    requires Sendable(s)
    ensures FrameEnd(s + DELIM) == |s| + 2 && (s + DELIM)[..|s|] == s
    ensures Broadcast(s + DELIM) == s
  {
    assert s + DELIM + "" == s + DELIM;
    FrameEndOfEncoded(s, "");
    BroadcastVersusFrame(s + DELIM);
    assert (s + DELIM)[|s| + 2..] == "";
  }

  /** Session `i` is in the room, and its reader waits with an empty buffer. */
  ghost predicate Reads(w: World, i: nat) {
    && i < |w.sessions| && i in w.participants
    && w.sessions[i].reader.Reading? && w.sessions[i].open && w.sessions[i].readMsg == ""
  }

  function AuthorRun(password: string, id: nat): seq<Event> {
    [Connect(id)] + (AdmitRun(0, password + DELIM) + [ReaderStart(0)])
  }

  lemma AuthorReads(password: string, id: nat) returns (w: World)
    requires password != "" && Sendable(password)
    ensures RunFrom(Start(password), AuthorRun(password, id)) == Some(w)
    ensures w.password == password && |w.sessions| == 1 && w.log == w.recent == [] && Reads(w, 0)
  {
    var buffer := password + DELIM;
    var w1 := Join(Start(password), id);
    var w2 := Update(w1, 0, Admitted(w1.sessions[0], buffer, [], 0));
    w := Next(w2, ReaderStart(0));
    OneFrame(password);
    OneStep(Start(password), Connect(id));
    Admit(w1, 0, buffer);
    OneStep(w2, ReaderStart(0));
    Then(w1, AdmitRun(0, buffer), w2, [ReaderStart(0)], w);
    Then(Start(password), [Connect(id)], w1, AdmitRun(0, buffer) + [ReaderStart(0)], w);
  }

  function SpeakRun(msg: string, id: nat): seq<Event> {
    [Connect(id)] + ([BytesRead(0, msg + DELIM)] + [FrameRead(0)])
  }

  lemma PassHeard(w: World, msg: string)
    requires |w.sessions| == 2 && w.log == w.recent == [] && 1 in w.participants && Sendable(msg)
    requires w.sessions[0].readMsg == msg + DELIM
    ensures FrameEnd(msg + DELIM) == |msg| + 2
    ensures var w' := AfterFrame(w, 0);
            && w'.password == w.password && |w'.sessions| == 2 && 1 in w'.participants && w'.log == w'.recent == [msg]
            && w'.sessions[1] == Server.Deliver(w.sessions[1], Live(0, msg))
  {
    OneFrame(msg);
    assert [] + [msg] == [msg];
  }

  lemma MessageArrives(w: World, i: nat, msg: string)
    requires Reads(w, i) && Sendable(msg)
    ensures RunFrom(w, [BytesRead(i, msg + DELIM)]) == Some(Update(w, i, TakeIn(w.sessions[i], msg + DELIM)))
    ensures TakeIn(w.sessions[i], msg + DELIM).readMsg == msg + DELIM
  {
    assert "" + (msg + DELIM) == msg + DELIM;
    assert FrameEnd("") == 0;
    OneStep(w, BytesRead(i, msg + DELIM));
  }

  /** The reader of session 0 takes in a message and broadcasts it. */
  lemma SpokenTo(w: World, msg: string) returns (w': World)
    requires |w.sessions| == 2 && w.log == w.recent == [] && Reads(w, 0) && 1 in w.participants && Sendable(msg)
    ensures RunFrom(w, [BytesRead(0, msg + DELIM)] + [FrameRead(0)]) == Some(w')
    ensures w'.password == w.password && |w'.sessions| == 2 && 1 in w'.participants && w'.log == w'.recent == [msg]
    ensures w'.sessions[1] == Server.Deliver(w.sessions[1], Live(0, msg))
  {
    var w1 := Update(w, 0, TakeIn(w.sessions[0], msg + DELIM));
    MessageArrives(w, 0, msg);
    PassHeard(w1, msg);
    w' := AfterFrame(w1, 0);
    OneStep(w1, FrameRead(0));
    Then(w, [BytesRead(0, msg + DELIM)], w1, [FrameRead(0)], w');
  }

  /** A session joins, and before anything comes of its handshake another one speaks. */
  lemma SpokenBeforeAcceptance(w: World, msg: string, id: nat) returns (w': World)
    requires |w.sessions| == 1 && w.log == w.recent == [] && Reads(w, 0) && Sendable(msg)
    ensures RunFrom(w, SpeakRun(msg, id)) == Some(w')
    ensures w'.password == w.password && |w'.sessions| == 2 && 1 in w'.participants && w'.log == w'.recent == [msg]
    ensures w'.sessions[1] == Server.Deliver(NewSession(id, 0), Live(0, msg))
  {
    var w1 := Join(w, id);
    OneStep(w, Connect(id));
    w' := SpokenTo(w1, msg);
    Then(w, [Connect(id)], w1, [BytesRead(0, msg + DELIM)] + [FrameRead(0)], w');
  }

  /** What an admission hands to a session that had got one live message. */
  lemma HandedByAdmission(s: Session, buffer: string, msg: string)
    requires s.delivered == [Live(0, msg)]
    ensures var t := Admitted(s, buffer, [msg], 1);
            && t.delivered == [Live(0, msg), Private(Print(s.sessionId)), Replay(0, msg)]
            && t.joined == s.joined && t.reply == Some((1, Print(s.sessionId))) && t.replay == Some(1)
            && t.sessionId == s.sessionId && t.open == s.open
  {
    assert ReplayItems(0, [msg]) == [Replay(0, msg)];
    DeliverAllEffect(WithId(s, buffer, 1).(handshake := DONE), ReplayItems(0, [msg]));
  }

  /** Joined before the first message of the log and accepted after it. */
  ghost predicate AcceptedLate(s: Session, id: nat) {
    && s.joined == 0 && s.reply == Some((1, Print(id))) && s.replay == Some(1)
    && s.sessionId == id && s.open
  }

  lemma AcceptedAfterwards(w: World, msg: string, id: nat) returns (w': World)
    requires |w.sessions| == 2 && 1 in w.participants && w.log == w.recent == [msg]
    requires w.password != "" && Sendable(w.password)
    requires var s := w.sessions[1];
             s.handshake == H.INIT && s.delivered == [Live(0, msg)] && s.joined == 0 && s.sessionId == id && s.open
    ensures RunFrom(w, AdmitRun(1, w.password + DELIM)) == Some(w')
    ensures |w'.sessions| == 2 && AcceptedLate(w'.sessions[1], id) && w'.log == w.log
    ensures w'.sessions[1].delivered == [Live(0, msg), Private(Print(id)), Replay(0, msg)]
  {
    var buffer := w.password + DELIM;
    OneFrame(w.password);
    Admit(w, 1, buffer);
    w' := Update(w, 1, Admitted(w.sessions[1], buffer, w.recent, 1));
    HandedByAdmission(w.sessions[1], buffer, msg);
  }

  /** Whatever the password and the message: a run in which a session is handed a broadcast while its password
      is still to come ... */
  lemma HandedBeforeAcceptance(password: string, msg: string, author: nat, id: nat) returns (w: World)
    requires password != "" && Sendable(password) && Sendable(msg)
    ensures After(password, AuthorRun(password, author) + SpeakRun(msg, id)) == Some(w)
    ensures RunFrom(Start(password), AuthorRun(password, author) + SpeakRun(msg, id)) == Some(w)
    ensures w.password == password && |w.sessions| == 2 && 1 in w.participants && w.log == w.recent == [msg]
    ensures var s := w.sessions[1];
            s.handshake == H.INIT && s.delivered == [Live(0, msg)] && s.joined == 0 && s.sessionId == id && s.open
  {
    var w1 := AuthorReads(password, author);
    w := SpokenBeforeAcceptance(w1, msg, id);
    assert [] + [Live(0, msg)] == [Live(0, msg)];
    Then(Start(password), AuthorRun(password, author), w1, SpeakRun(msg, id), w);
    AfterIsRunFrom(password, AuthorRun(password, author) + SpeakRun(msg, id));
  }

  lemma ContinueRun(password: string, run: seq<Event>, w: World, more: seq<Event>, w': World)
    requires After(password, run) == Some(w) && RunFrom(Start(password), run) == Some(w) && RunFrom(w, more) == Some(w')
    ensures After(password, run + more) == Some(w')
  {
    Then(Start(password), run, w, more, w');
    AfterIsRunFrom(password, run + more);
  }

  /** ... and its continuation, in which it is accepted and handed the same message again. */
  lemma HandedAgainAfterwards(password: string, msg: string, author: nat, id: nat) returns (w: World)
    requires password != "" && Sendable(password) && Sendable(msg)
    ensures After(password, AuthorRun(password, author) + SpeakRun(msg, id) + AdmitRun(1, password + DELIM)) == Some(w)
    ensures |w.sessions| == 2 && AcceptedLate(w.sessions[1], id) && w.log == [msg]
    ensures w.sessions[1].delivered == [Live(0, msg), Private(Print(id)), Replay(0, msg)]
    ensures Occurrences(w.sessions[1].delivered, 0) == 2
  {
    var run, more := AuthorRun(password, author) + SpeakRun(msg, id), AdmitRun(1, password + DELIM);
    var before := HandedBeforeAcceptance(password, msg, author, id);
    w := AcceptedAfterwards(before, msg, id);
    ContinueRun(password, run, before, more, w);
    HowOftenDelivered(password, run + more, w, 1, 0);
  }

  // ---------- the session nobody stops ----------

  function NobodyToldRun(id: nat): seq<Event> {
    [Connect(id)]
    + ([Silent(0, H.TimerDone(true, false))]
    + ([Silent(0, H.TimeoutFlushed(false))]
    + ([Silent(0, H.PasswordRead(H.ReadFailed, false))]
    + [Silent(0, H.BothDone)])))
  }

  /** The only session's handshake gets on without a word to the room. */
  lemma TimeoutIsIssued(w: World)
    requires |w.sessions| == 1 && w.sessions[0].handshake == H.INIT && 0 in w.participants
    ensures RunFrom(w, [Silent(0, H.TimerDone(true, false))])
         == Some(Update(w, 0, Replied(w.sessions[0].(handshake := H.AfterTimer(H.INIT, true, false)), true, TIMEOUT_RESP, |w.log|)))
  {
    var h := H.AfterTimer(H.INIT, true, false);
    assert h.issued == [H.Timeout];
    UpdateTwice(w, 0, w.sessions[0].(handshake := h));
    OneStep(w, Silent(0, H.TimerDone(true, false)));
  }

  /** A run after which a session has been told nothing and stays in the room. */
  lemma NobodyIsTold(password: string, id: nat) returns (w: World)
    ensures After(password, NobodyToldRun(id)) == Some(w)
    ensures |w.sessions| == 1 && Abandoned(w.sessions[0]) && 0 in w.participants
  {
    var w0 := Join(Start(password), id);
    var s1 := Replied(w0.sessions[0].(handshake := H.AfterTimer(H.INIT, true, false)), true, TIMEOUT_RESP, 0);
    var s2 := s1.(handshake := s1.handshake.(countdown := H.CountdownThrew(H.TimedOut)));
    var s3 := s1.(handshake := s2.handshake.(password := H.PasswordThrew(H.SocketError)));
    var s4 := s1.(handshake := s3.handshake.(connect := H.Ended));
    var w1, w2, w3 := Update(w0, 0, s1), Update(w0, 0, s2), Update(w0, 0, s3);
    w := Update(w0, 0, s4);
    UpdateTwice(w0, 0, s1);
    UpdateTwice(w0, 0, s2);
    UpdateTwice(w0, 0, s3);
    OneStep(Start(password), Connect(id));
    TimeoutIsIssued(w0);
    SilentStep(w1, 0, H.TimeoutFlushed(false));
    SilentStep(w2, 0, H.PasswordRead(H.ReadFailed, false));
    SilentStep(w3, 0, H.BothDone);
    Then(w2, [Silent(0, H.PasswordRead(H.ReadFailed, false))], w3, [Silent(0, H.BothDone)], w);
    Then(w1, [Silent(0, H.TimeoutFlushed(false))], w2,
         [Silent(0, H.PasswordRead(H.ReadFailed, false))] + [Silent(0, H.BothDone)], w);
    Then(w0, [Silent(0, H.TimerDone(true, false))], w1, [Silent(0, H.TimeoutFlushed(false))]
         + ([Silent(0, H.PasswordRead(H.ReadFailed, false))] + [Silent(0, H.BothDone)]), w);
    Then(Start(password), [Connect(id)], w0, [Silent(0, H.TimerDone(true, false))] + ([Silent(0, H.TimeoutFlushed(false))]
         + ([Silent(0, H.PasswordRead(H.ReadFailed, false))] + [Silent(0, H.BothDone)])), w);
    AfterIsRunFrom(password, NobodyToldRun(id));
  }
}
