/** The two ends together: what the client makes of what the server's outbox puts on the wire. */
module Conversation {
  import opened Wrappers
  import opened ClientCodec
  import opened Delimiter
  import opened FrameReader
  import opened SessionId
  import opened Server
  import opened ServerInvariants
  import opened ServerOutbox
  import opened ServerScenarios
  import opened ServerTheorems
  import C = Client
  import H = Handshake

  // ---------- the replay ----------

  /** The texts of a replay are the messages, each with the delimiter. */
  lemma {:induction false} ReplayTextsAreEncoded(log: seq<string>, lo: nat, hi: nat)
    requires lo <= hi <= |log|
    ensures Concat(Texts(ReplayRange(log, lo, hi))) == Encode(log[lo..hi])
    decreases hi - lo
  {
    var texts := Texts(ReplayRange(log, lo, hi));
    if lo == hi {
      assert texts == [] && log[lo..hi] == [];
    } else {
      assert texts[0] == log[lo] + DELIM;
      assert texts[1..] == Texts(ReplayRange(log, lo + 1, hi));
      assert log[lo..hi][0] == log[lo] && log[lo..hi][1..] == log[lo + 1..hi];
      ReplayTextsAreEncoded(log, lo + 1, hi);
    }
  }

  /** Where in a list of deliveries a middle part stands. */
  lemma MiddleTexts(head: seq<Item>, reply: Item, between: seq<Item>, replay: seq<Item>, after: seq<Item>)
    ensures var items, at := head + [reply] + (between + replay + after), |head| + 1 + |between|;
            at + |replay| <= |items| && Texts(items)[at..at + |replay|] == Texts(replay)
  {
  }

  /** Where the replay starts in the log, and where among the deliveries of an accepted session. */
  function HistoryStart(a: nat): nat {
    if a <= 100 then 0 else a - 100
  }

  ghost function HistoryAt(s: Session): int
    requires s.replay.Some?
  {
    s.replay.value - s.joined + 1
  }

  /** The texts of that part; there are as many in every reachable state. */
  ghost function HistoryTexts(s: Session): seq<string>
    requires s.replay.Some?
  {
    var at, n := HistoryAt(s), s.replay.value - HistoryStart(s.replay.value);
    if 0 <= at && at + n <= |s.delivered| then Texts(s.delivered)[at..at + n] else []
  }

  /** The replay is that part of the deliveries, and it is written when that much has been written. */
  ghost predicate HistoryStands(s: Session, log: seq<string>)
    requires s.replay.Some?
  {
    var at, a, texts := HistoryAt(s), s.replay.value, HistoryTexts(s);
    && a <= |log| && |texts| == a - HistoryStart(a)
    && 0 <= at && at + |texts| <= |s.delivered|
    && texts == Texts(s.delivered)[at..at + |texts|]
    && texts == Texts(ReplayRange(log, HistoryStart(a), a))
    && (at + |texts| <= |s.written| ==> s.written[at..at + |texts|] == texts)
  }

  lemma HistoryPart(s: Session, log: seq<string>)
    requires s.reply.Some? && s.replay.Some? && AcceptedShape(s, log)
    requires s.written + s.outbox == Texts(s.delivered)
    ensures HistoryStands(s, log)
  {
    var j, p, a, k := s.joined, s.reply.value.0, s.replay.value, End(s, log);
    var at, from := HistoryAt(s), HistoryStart(a);
    MiddleTexts(LiveRange(log, j, p), Private(Print(s.sessionId)), LiveRange(log, p, a),
                ReplayRange(log, from, a), LiveRange(log, a, k));
    if at + (a - from) <= |s.written| {
      WrittenPart(s.written, s.outbox, at, at + (a - from));
    }
  }

  lemma HistoryOfAccepted(password: string, run: seq<Event>, w: World, i: nat)
    requires After(password, run) == Some(w) && i < |w.sessions| && w.sessions[i].replay.Some?
    ensures HistoryStands(w.sessions[i], w.log)
  {
    AcceptedDelivery(password, run, w, i);
    OutboxConservation(password, run, w, i);
    HistoryPart(w.sessions[i], w.log);
  }

  lemma WrittenPart(written: seq<string>, outbox: seq<string>, lo: nat, hi: nat)
    requires lo <= hi <= |written|
    ensures (written + outbox)[lo..hi] == written[lo..hi]
  {
  }

  lemma ReplayIsDecoded(log: seq<string>, lo: nat, hi: nat)
    requires lo <= hi <= |log|
    ensures var decoded := Decode(Concat(Texts(ReplayRange(log, lo, hi))));
            decoded == SplitAll(log[lo..hi]) && (decoded == log[lo..hi] <==> AllDelimFree(log[lo..hi]))
  {
    ReplayTextsAreEncoded(log, lo, hi);
    ReplayDecodes(log[lo..hi]);
    ReplayRoundTrip(log[lo..hi]);
  }

  /** The replay by itself: the texts right behind the live messages up to the acceptance and the session id,
      decoded as one stream, are the last hundred messages of the log before the acceptance, each cut at the
      delimiters inside it, and the very messages exactly when none holds the delimiter. */
  lemma HistoryReachesTheClient(password: string, run: seq<Event>, w: World, i: nat)
    requires After(password, run) == Some(w) && i < |w.sessions| && w.sessions[i].replay.Some?
    ensures HistoryStands(w.sessions[i], w.log)
    ensures var history := w.log[HistoryStart(w.sessions[i].replay.value)..w.sessions[i].replay.value];
            var decoded := Decode(Concat(HistoryTexts(w.sessions[i])));
            decoded == SplitAll(history) && (decoded == history <==> AllDelimFree(history))
  {
    HistoryOfAccepted(password, run, w, i);
    ReplayIsDecoded(w.log, HistoryStart(w.sessions[i].replay.value), w.sessions[i].replay.value);
  }

  /** The replay in chunks: the client, which decodes every chunk by itself, gets the same exactly when every chunk
      before the last ends with the delimiter. */
  lemma HistoryInChunks(password: string, run: seq<Event>, w: World, i: nat, chunks: seq<string>)
    requires After(password, run) == Some(w) && i < |w.sessions| && w.sessions[i].replay.Some?
    requires forall k :: 0 <= k < |chunks| ==> chunks[k] != ""
    requires Concat(chunks) == Concat(HistoryTexts(w.sessions[i]))
    ensures w.sessions[i].replay.value <= |w.log|
    ensures var history := w.log[HistoryStart(w.sessions[i].replay.value)..w.sessions[i].replay.value];
            DecodeEach(chunks) == SplitAll(history) <==> forall k :: 0 <= k < |chunks| - 1 ==> EndsWithDelim(chunks[k])
  {
    HistoryReachesTheClient(password, run, w, i);
    ChunkwiseDecoding(chunks);
  }

  /** The session id and live messages carry no delimiter: what stands in front of a replay in the same chunk is
      glued to its first message, and only the others come out as they were. */
  lemma HistoryBehindOtherText(before: string, history: seq<string>)
    requires history != []
    ensures Decode(before + Encode(history)) == Split(before + history[0]) + SplitAll(history[1..])
  {
    var glued := [before + history[0]] + history[1..];
    assert glued[1..] == history[1..];
    GluedBytes(before, history[0], Encode(history[1..]));
    ReplayDecodes(glued);
  }

  lemma GluedBytes(before: string, first: string, rest: string)
    ensures before + (first + DELIM + rest) == before + first + DELIM + rest
  {
  }

  // ---------- the password ----------

  /** What a client has on the wire once it has connected: the frame of its password. */
  lemma PasswordGoesOut(c: C.Client, address: string) returns (text: string)
    ensures var c' := C.Next(c, C.ConnectResponse(Success(address)));
            c'.sent == c.sent + [C.Password(text)] && c'.handShaker.mode.AwaitSessionId?
    ensures text == c.password
  {
    C.ConnectDoes(c, Success(address));
    text := c.password;
  }

  lemma PasswordAgrees(text: string, password: string)
    requires Sendable(text)
    ensures IsPasswordCorrect(text + DELIM, password) <==> text == password && text != ""
  {
    OneFrame(text);
    PasswordCheck(text + DELIM, password);
  }

  /** The session has been told, and is where that leaves it. */
  ghost predicate Decided(s: Session, w: World, i: nat, accepts: bool) {
    && i < |w.sessions| && w.sessions[i].handshake.completions == [accepts]
    && (i in w.participants <==> accepts)
    && (!accepts ==> w.sessions[i].delivered == s.delivered + [Private("[reject]")])
  }

  lemma AdmittedIsDecided(w: World, i: nat, buffer: string) returns (w': World)
    requires i < |w.sessions| && w.sessions[i].handshake == H.INIT && i in w.participants
    requires FrameEnd(buffer) != 0 && |buffer| <= READ_BUFF_LEN && IsPasswordCorrect(buffer, w.password)
    ensures RunFrom(w, AdmitRun(i, buffer)) == Some(w') && Decided(w.sessions[i], w', i, true)
  {
    Admit(w, i, buffer);
    w' := Update(w, i, Admitted(w.sessions[i], buffer, w.recent, |w.log|));
    DeliverAllEffect(WithId(w.sessions[i], buffer, |w.log|).(handshake := DONE), ReplayItems(|w.log| - |w.recent|, w.recent));
  }

  lemma DecisionRun(w: World, i: nat, buffer: string) returns (more: seq<Event>, w': World)
    requires i < |w.sessions| && w.sessions[i].handshake == H.INIT && i in w.participants && !w.sessions[i].stopped
    requires FrameEnd(buffer) != 0 && |buffer| <= READ_BUFF_LEN
    ensures var correct := IsPasswordCorrect(buffer, w.password);
            && RunFrom(w, [HandshakeStep(i, H.PasswordRead(H.Frame(correct), false), buffer)] + more) == Some(w')
            && Decided(w.sessions[i], w', i, correct)
  {
    if IsPasswordCorrect(buffer, w.password) {
      w' := AdmittedIsDecided(w, i, buffer);
      more := WaitsRun(i) + [Silent(i, H.SessionFlushed)];
    } else {
      w' := Refuse(w, i, buffer);
      more := RejectWaitsRun(i);
    }
  }

  /** From the client's connection to the server's decision: a client whose password has no delimiter and at most
      1022 chars sends exactly that password, and the server, from any state in which the session's handshake has
      just begun, can take it for nothing but what it is: it admits the client exactly when the two passwords are
      the same and not empty, and otherwise tells it so and puts it out. */
  lemma PasswordDecides(c: C.Client, address: string, w: World, i: nat) returns (more: seq<Event>, w': World)
    requires DelimFree(c.password) && |c.password| <= 1022
    requires i < |w.sessions| && w.sessions[i].handshake == H.INIT && i in w.participants && !w.sessions[i].stopped
    ensures C.Next(c, C.ConnectResponse(Success(address))).sent == c.sent + [C.Password(c.password)]
    ensures forall matches :: Enabled(w, HandshakeStep(i, H.PasswordRead(H.Frame(matches), false), c.password + DELIM))
                         <==> matches == (c.password == w.password && c.password != "")
    ensures var accepts := c.password == w.password && c.password != "";
            && RunFrom(w, [HandshakeStep(i, H.PasswordRead(H.Frame(accepts), false), c.password + DELIM)] + more) == Some(w')
            && Decided(w.sessions[i], w', i, accepts)
  {
    var text := PasswordGoesOut(c, address);
    OneFrame(text);
    PasswordAgrees(text, w.password);
    more, w' := DecisionRun(w, i, text + DELIM);
  }

  // ---------- the session id ----------

  /** The first number among messages. */
  function FirstNumber(msgs: seq<string>): Option<int> {
    if msgs == [] then None
    else if ToLongLong(msgs[0]).Some? then ToLongLong(msgs[0])
    else FirstNumber(msgs[1..])
  }

  lemma {:induction false} FirstNumberAppend(a: seq<string>, b: seq<string>)
    ensures FirstNumber(a + b) == if FirstNumber(a).Some? then FirstNumber(a) else FirstNumber(b)
  {
    if a == [] {
      assert a + b == b;
    } else {
      assert (a + b)[1..] == a[1..] + b;
      FirstNumberAppend(a[1..], b);
    }
  }

  /** What a client that was waiting for its session id has become after messages with this first number. */
  ghost predicate Identified(c: C.Client, c': C.Client, number: Option<int>) {
    && c'.username == c.username
    && (number.None? ==> c'.handShaker.mode.AwaitSessionId? && c'.handler == c.handler)
    && (number.Some? ==> c'.handShaker.mode.HandShakeOk? && c'.connected
                         && c'.handler == Some(C.MessageHandler(c.username, number.value)))
  }

  lemma ReceiveIdentifies(c: C.Client, c': C.Client, msg: string, number: Option<int>, parsed: Option<int>)
    requires C.Inv(c') && Identified(c, c', number)
    ensures Identified(c, C.PresenterMsgReception(c', msg, parsed), if number.Some? then number else parsed)
  {
  }

  lemma OneMoreIdentifies(c: C.Client, c': C.Client, msg: string, number: Option<int>)
    requires C.Inv(c') && Identified(c, c', number)
    ensures C.Inv(C.Receive(c', msg))
    ensures Identified(c, C.Receive(c', msg), if number.Some? then number else ToLongLong(msg))
  {
    C.MessageKeepsInv(c', msg, ToLongLong(msg));
    ReceiveIdentifies(c, c', msg, number, ToLongLong(msg));
  }

  lemma FirstNumberSnoc(msgs: seq<string>)
    requires msgs != []
    ensures var init, last := msgs[..|msgs| - 1], msgs[|msgs| - 1];
            FirstNumber(msgs) == if FirstNumber(init).Some? then FirstNumber(init) else ToLongLong(last)
  {
    var init, last := msgs[..|msgs| - 1], msgs[|msgs| - 1];
    assert msgs == init + [last];
    FirstNumberAppend(init, [last]);
    OneNumber(last);
  }

  lemma LastReceived(c: C.Client, msgs: seq<string>)
    requires msgs != []
    ensures C.ReceiveAll(c, msgs) == C.Receive(C.ReceiveAll(c, msgs[..|msgs| - 1]), msgs[|msgs| - 1])
  {
  }

  /** The client takes the first number it is sent for its session id, and keeps it. */
  lemma {:induction false} ReceiveAllIdentifies(c: C.Client, msgs: seq<string>)
    requires C.Inv(c) && c.handShaker.mode.AwaitSessionId?
    ensures C.Inv(C.ReceiveAll(c, msgs)) && Identified(c, C.ReceiveAll(c, msgs), FirstNumber(msgs))
  {
    if msgs == [] {
    } else {
      var init := msgs[..|msgs| - 1];
      ReceiveAllIdentifies(c, init);
      FirstNumberSnoc(msgs);
      LastReceived(c, msgs);
      OneMoreIdentifies(c, C.ReceiveAll(c, init), msgs[|msgs| - 1], FirstNumber(init));
    }
  }

  lemma OneNumber(msg: string)
    ensures FirstNumber([msg]) == ToLongLong(msg)
  {
    assert [msg][1..] == [];
  }

  lemma {:induction false} DecodeEachAppend(a: seq<string>, b: seq<string>)
    ensures DecodeEach(a + b) == DecodeEach(a) + DecodeEach(b)
  {
    if a == [] {
      assert a + b == b;
    } else {
      assert (a + b)[1..] == a[1..] + b;
      DecodeEachAppend(a[1..], b);
      AfterFirst(Decode(a[0]), DecodeEach(a[1..]), DecodeEach(b));
    }
  }

  lemma AfterFirst(first: seq<string>, a: seq<string>, b: seq<string>)
    ensures first + (a + b) == (first + a) + b
  {
  }

  /** A printed number is one message of its own. */
  lemma PrintIsOneMessage(n: nat)
    ensures DecodeEach([Print(n)]) == [Print(n)]
  {
    var text := Print(n);
    forall k | 0 <= k < |text|
      ensures !DelimAt(text, k)
    {
      assert text[k] in DIGITS;
    }
    assert Split(text) == [text];
    var one: seq<string> := [text];
    assert one[1..] == [];
  }

  /** The first number among chunks of their own, when one of them is a session id: that of what comes before,
      if there is one. */
  lemma FirstNumberIsTheId(before: seq<string>, id: nat, after: seq<string>)
    requires id < LLONG_LIMIT
    ensures FirstNumber(DecodeEach(before + [Print(id)] + after))
         == if FirstNumber(DecodeEach(before)).Some? then FirstNumber(DecodeEach(before)) else Some(id)
  {
    DecodeEachAppend(before + [Print(id)], after);
    DecodeEachAppend(before, [Print(id)]);
    PrintIsOneMessage(id);
    FirstNumberAppend(DecodeEach(before) + [Print(id)], DecodeEach(after));
    FirstNumberAppend(DecodeEach(before), [Print(id)]);
    OneNumber(Print(id));
    PrintParses(id);
  }

  lemma TextsOfLive(log: seq<string>, lo: nat, hi: nat)
    requires lo <= hi <= |log|
    ensures Texts(LiveRange(log, lo, hi)) == log[lo..hi]
  {
  }

  lemma TextsAround(head: seq<Item>, reply: Item, rest: seq<Item>)
    ensures Texts(head + [reply] + rest) == Texts(head) + [Text(reply)] + Texts(rest)
  {
  }

  lemma TextsOfAccepted(s: Session, log: seq<string>) returns (rest: seq<string>)
    requires s.reply.Some? && s.replay.Some? && AcceptedShape(s, log)
    ensures Texts(s.delivered) == log[s.joined..s.reply.value.0] + [Print(s.sessionId)] + rest
  {
    var j, p, a, k := s.joined, s.reply.value.0, s.replay.value, End(s, log);
    var items := LiveRange(log, p, a) + ReplayRange(log, if a <= 100 then 0 else a - 100, a) + LiveRange(log, a, k);
    TextsAround(LiveRange(log, j, p), Private(Print(s.sessionId)), items);
    TextsOfLive(log, j, p);
    rest := Texts(items);
  }

  /** What has been written to an accepted session once its id has: the live messages from its join to the reply,
      the id, and more. */
  lemma WrittenUpToTheId(s: Session, log: seq<string>) returns (after: seq<string>)
    requires s.reply.Some? && s.replay.Some? && AcceptedShape(s, log)
    requires s.written + s.outbox == Texts(s.delivered)
    requires s.reply.value.0 - s.joined < |s.written|
    ensures s.written == log[s.joined..s.reply.value.0] + [Print(s.sessionId)] + after
  {
    var head := log[s.joined..s.reply.value.0] + [Print(s.sessionId)];
    var rest := TextsOfAccepted(s, log);
    PrefixOf(s.written, s.outbox, head, rest);
    after := s.written[|head|..];
  }

  lemma PrefixOf(written: seq<string>, outbox: seq<string>, head: seq<string>, rest: seq<string>)
    requires written + outbox == head + rest && |head| <= |written|
    ensures written == head + written[|head|..]
  {
    assert written[..|head|] == (written + outbox)[..|head|] == head;
  }

  /** From the server's acceptance to the client's identity: a client that waits for its session id and is sent what
      was written to an accepted session, a text at a time, is connected once the id was among it. It then speaks
      under the id that the server gave the session exactly when the live messages between the join and the reply
      hold no number, or that very one first: a live message that reads like a number is taken for the id. */
  lemma SpeaksUnderItsId(password: string, run: seq<Event>, w: World, i: nat, c: C.Client)
    requires After(password, run) == Some(w) && i < |w.sessions| && w.sessions[i].replay.Some?
    requires w.sessions[i].sessionId < 0x1_0000_0000
    requires C.Inv(c) && c.handShaker.mode.AwaitSessionId?
    ensures w.sessions[i].reply.Some? && w.sessions[i].joined <= w.sessions[i].reply.value.0 <= |w.log|
    ensures var s := w.sessions[i];
            var early := FirstNumber(DecodeEach(w.log[s.joined..s.reply.value.0]));
            var c' := C.ReceiveAll(c, DecodeEach(s.written));
            s.reply.value.0 - s.joined < |s.written| ==>
              && c'.connected && c'.handler.Some? && c'.handler.value.username == c.username
              && (c'.handler.value.sessionId == s.sessionId <==> early.None? || early == Some(s.sessionId))
  {
    AcceptedDelivery(password, run, w, i);
    OutboxConservation(password, run, w, i);
    var s := w.sessions[i];
    var before := w.log[s.joined..s.reply.value.0];
    if |before| < |s.written| {
      var after := WrittenUpToTheId(s, w.log);
      FirstNumberIsTheId(before, s.sessionId, after);
      ReceiveAllIdentifies(c, DecodeEach(s.written));
    }
  }

  lemma AllWritten(password: string, run: seq<Event>, w: World, i: nat) returns (more: seq<Event>, w': World)
    requires After(password, run) == Some(w) && i < |w.sessions| && w.sessions[i].open
    ensures After(password, run + more) == Some(w') && i < |w'.sessions| && w'.log == w.log
    ensures DrainedTo(w.sessions[i], w'.sessions[i]) && w'.sessions[i].written == Texts(w.sessions[i].delivered)
  {
    ReachableSession(password, run, w, i);
    var s := w.sessions[i];
    DrainRunDrains(w, i);
    var t :| DrainedTo(s, t) && RunFrom(w, DrainRun(s, i)) == Some(Update(w, i, t));
    more, w' := DrainRun(s, i), Update(w, i, t);
    AfterContinued(password, run, w, more);
  }

  /** A client that waits for its session id takes a number that comes first for it, whatever follows. */
  lemma FirstTextIsTheId(c: C.Client, number: nat, rest: seq<string>)
    requires C.Inv(c) && c.handShaker.mode.AwaitSessionId? && number < LLONG_LIMIT
    ensures var c' := C.ReceiveAll(c, DecodeEach([Print(number)] + rest));
            c'.connected && c'.handler == Some(C.MessageHandler(c.username, number))
  {
    DecodeEachAppend([Print(number)], rest);
    PrintIsOneMessage(number);
    FirstNumberAppend([Print(number)], DecodeEach(rest));
    OneNumber(Print(number));
    PrintParses(number);
    ReceiveAllIdentifies(c, DecodeEach([Print(number)] + rest));
  }

  lemma ThreeTexts(msg: string, id: string)
    ensures Texts([Live(0, msg), Private(id), Replay(0, msg)]) == [msg] + [id, msg + DELIM]
  {
  }

  lemma DrainKeepsAcceptedLate(s: Session, t: Session, id: nat)
    requires AcceptedLate(s, id) && DrainedTo(s, t)
    ensures AcceptedLate(t, id)
  {
  }

  /** A run in which a message is written to a session ahead of its id, and again behind it. */
  lemma WrittenAheadOfTheId(password: string, msg: string, author: nat, id: nat) returns (run: seq<Event>, w: World)
    requires password != "" && Sendable(password) && Sendable(msg)
    ensures After(password, run) == Some(w) && 1 < |w.sessions| && w.log == [msg]
    ensures AcceptedLate(w.sessions[1], id) && w.sessions[1].written == [msg] + [Print(id), msg + DELIM]
  {
    var before := HandedAgainAfterwards(password, msg, author, id);
    var admitted := AuthorRun(password, author) + SpeakRun(msg, id) + AdmitRun(1, password + DELIM);
    var more;
    more, w := AllWritten(password, admitted, before, 1);
    run := admitted + more;
    ThreeTexts(msg, Print(id));
    DrainKeepsAcceptedLate(before.sessions[1], w.sessions[1], id);
  }

  /** It does go wrong: for every password and any two different numbers there is a run in which one session says
      the one number before another is accepted under the other, and the client of that one speaks under the first. */
  lemma MistakenIdentity(password: string, author: nat, id: nat, number: nat, c: C.Client)
      returns (run: seq<Event>, w: World)
    requires password != "" && Sendable(password) && Sendable(Print(number))
    requires id < 0x1_0000_0000 && number < LLONG_LIMIT && number != id
    requires C.Inv(c) && c.handShaker.mode.AwaitSessionId?
    ensures After(password, run) == Some(w) && 1 < |w.sessions|
    ensures AcceptedLate(w.sessions[1], id) && w.log == [Print(number)]
    ensures var c' := C.ReceiveAll(c, DecodeEach(w.sessions[1].written));
            c'.connected && c'.handler == Some(C.MessageHandler(c.username, number))
  {
    run, w := WrittenAheadOfTheId(password, Print(number), author, id);
    FirstTextIsTheId(c, number, [Print(id), Print(number) + DELIM]);
  }
}
