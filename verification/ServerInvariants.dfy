/** What every reachable state of the server satisfies, and that each step keeps it. */
module ServerInvariants {
  import opened Wrappers
  import opened Delimiter
  import opened FrameReader
  import opened SessionId
  import opened Server
  import Handshake

  const MAX_MSG: nat := READ_BUFF_LEN - 2

  // ---------- the delivery structure ----------

  function LiveRange(log: seq<string>, lo: nat, hi: nat): (items: seq<Item>)
    requires lo <= hi <= |log|
  {
    seq(hi - lo, k requires 0 <= k < hi - lo => Live(lo + k, log[lo + k]))
  }

  function ReplayRange(log: seq<string>, lo: nat, hi: nat): (items: seq<Item>)
    requires lo <= hi <= |log|
  {
    seq(hi - lo, k requires 0 <= k < hi - lo => Replay(lo + k, log[lo + k]))
  }

  /** Where the replay of a session accepted at log length `a` starts. */
  function ReplayFrom(a: nat): nat {
    if MAX_RECENT < a then a - MAX_RECENT else 0
  }

  function End(s: Session, log: seq<string>): nat {
    match s.left case Some(k) => k case None => |log|
  }

  ghost predicate Ordered(s: Session, log: seq<string>) {
    && s.joined <= End(s, log) <= |log|
    && (s.reply.Some? ==> s.joined <= s.reply.value.0 <= End(s, log))
    && (s.replay.Some? ==> s.reply.Some? && s.reply.value.0 <= s.replay.value <= End(s, log))
  }

  /** Everything handed to a session, from the log and the four positions alone. */
  ghost function Expected(s: Session, log: seq<string>): seq<Item>
    requires Ordered(s, log)
  {
    if s.reply.None? then LiveRange(log, s.joined, End(s, log))
    else
      var p := s.reply.value.0;
      LiveRange(log, s.joined, p) + [Private(s.reply.value.1)] +
      if s.replay.None? then LiveRange(log, p, End(s, log))
      else
        var a := s.replay.value;
        LiveRange(log, p, a) + ReplayRange(log, ReplayFrom(a), a) + LiveRange(log, a, End(s, log))
  }

  // ---------- per session ----------

  /** The client proved that it knows the password. */
  ghost predicate KnowsPassword(s: Session, password: string) {
    && password != ""
    && FrameEnd(s.passBuff) != 0
    && s.passBuff[..FrameEnd(s.passBuff) - 2] == password
  }

  /** The handshake of this session ended with an acceptance. */
  ghost predicate Accepted(s: Session, password: string) {
    && KnowsPassword(s, password)
    && s.handshake.issued == [Handshake.SessionId]
    && s.handshake.completions == [true]
    && s.handshake.connect.Ended?
  }

  ghost predicate LifecycleOk(s: Session, inRoom: bool) {
    && (s.open <==> !s.stopped)
    && (inRoom <==> !s.stopped)
    && (s.left.Some? <==> s.stopped)
    && s.closes == (if s.stopped then 1 else 0)
  }

  ghost predicate HandshakeOk(s: Session, inRoom: bool, password: string) {
    && Handshake.Inv(s.handshake)
    && (s.handshake.shouldAccept ==> KnowsPassword(s, password))
    && (!s.reader.NoReader? <==> s.handshake.completions == [true])
    && (s.reply.Some? ==> |s.handshake.issued| == 1 && s.reply.value.1 == ReplyText(s.handshake.issued[0], s.sessionId))
    && (s.replay.Some? ==> s.handshake.completions == [true] && s.reply.Some?)
    && (inRoom ==> (s.reply.Some? <==> s.handshake.issued != []) && (s.replay.Some? <==> s.handshake.completions == [true]))
  }

  ghost predicate WriterOk(s: Session) {
    && Texts(s.delivered) == s.written + s.outbox
    && (s.writer.Parked? ==> s.outbox == [])
    && (s.writer.Writing? ==> s.outbox != [])
    && (s.writer.WriterGone? ==> !s.open)
  }

  /** The reader ends only with the socket. */
  ghost predicate ReaderOk(s: Session) {
    s.reader.ReaderGone? ==> !s.open
  }

  ghost predicate SessionOk(s: Session, inRoom: bool, password: string, log: seq<string>) {
    && LifecycleOk(s, inRoom)
    && HandshakeOk(s, inRoom, password)
    && WriterOk(s)
    && ReaderOk(s)
    && |s.readMsg| <= READ_BUFF_LEN
    && Ordered(s, log)
    && s.delivered == Expected(s, log)
  }

  function Last(log: seq<string>): seq<string> {
    log[ReplayFrom(|log|)..]
  }

  ghost predicate LogOk(w: World) {
    && w.recent == Last(w.log)
    && |w.authors| == |w.log|
    && (forall x :: 0 <= x < |w.log| ==> |w.log[x]| <= MAX_MSG)
    && (forall x :: 0 <= x < |w.authors| ==> w.authors[x] < |w.sessions| && Accepted(w.sessions[w.authors[x]], w.password))
  }

  ghost predicate Inv(w: World) {
    && (forall k :: k in w.participants ==> k < |w.sessions|)
    && (forall k :: 0 <= k < |w.sessions| ==> SessionOk(w.sessions[k], k in w.participants, w.password, w.log))
    && LogOk(w)
  }

  // ---------- deliver ----------

  lemma TextsSnoc(items: seq<Item>, item: Item)
    ensures Texts(items + [item]) == Texts(items) + [Text(item)]
  {
  }

  lemma DeliverKeepsWriterOk(s: Session, item: Item)
    requires WriterOk(s)
    ensures WriterOk(Deliver(s, item))
  {
    TextsSnoc(s.delivered, item);
  }

  /** A batch of deliveries changes the outbox, the history and the writer, and nothing else. */
  lemma {:induction false} DeliverAllEffect(s: Session, items: seq<Item>)
    ensures var t := DeliverAll(s, items);
            && t.delivered == s.delivered + items
            && t == s.(outbox := t.outbox, delivered := t.delivered, writer := t.writer)
    ensures WriterOk(s) ==> WriterOk(DeliverAll(s, items))
  {
    if items == [] {
    } else {
      var init := items[..|items| - 1];
      DeliverAllEffect(s, init);
      assert items == init + [items[|items| - 1]];
      if WriterOk(s) {
        DeliverKeepsWriterOk(DeliverAll(s, init), items[|items| - 1]);
      }
    }
  }

  // ---------- the log grows ----------

  lemma RangesStay(log: seq<string>, msg: string, lo: nat, hi: nat)
    requires lo <= hi <= |log|
    ensures LiveRange(log + [msg], lo, hi) == LiveRange(log, lo, hi)
    ensures ReplayRange(log + [msg], lo, hi) == ReplayRange(log, lo, hi)
    ensures hi == |log| ==> LiveRange(log + [msg], lo, hi + 1) == LiveRange(log, lo, hi) + [Live(hi, msg)]
  {
  }

  /** A broadcast reaches a session in the room and leaves one that has left alone. */
  lemma BroadcastKeepsSessionOk(s: Session, inRoom: bool, password: string, log: seq<string>, msg: string)
    requires SessionOk(s, inRoom, password, log)
    ensures SessionOk(if inRoom then Deliver(s, Live(|log|, msg)) else s, inRoom, password, log + [msg])
  {
    var t := if inRoom then Deliver(s, Live(|log|, msg)) else s;
    if inRoom {
      DeliverKeepsWriterOk(s, Live(|log|, msg));
    }
    BroadcastKeepsExpected(s, t, log, msg);
  }

  lemma BroadcastKeepsExpected(s: Session, t: Session, log: seq<string>, msg: string)
    requires Ordered(s, log) && s.delivered == Expected(s, log)
    requires t == (if s.left.None? then Deliver(s, Live(|log|, msg)) else s)
    ensures Ordered(t, log + [msg]) && t.delivered == Expected(t, log + [msg])
  {
    var j, e := s.joined, End(s, log);
    if s.reply.None? {
      RangesStay(log, msg, j, e);
    } else {
      var p := s.reply.value.0;
      RangesStay(log, msg, j, p);
      if s.replay.None? {
        RangesStay(log, msg, p, e);
        ExtendTail(LiveRange(log, j, p) + [Private(s.reply.value.1)], [], LiveRange(log, p, e), Live(|log|, msg));
      } else {
        var a := s.replay.value;
        RangesStay(log, msg, p, a);
        RangesStay(log, msg, ReplayFrom(a), a);
        RangesStay(log, msg, a, e);
        ExtendTail(LiveRange(log, j, p) + [Private(s.reply.value.1)],
                   LiveRange(log, p, a) + ReplayRange(log, ReplayFrom(a), a), LiveRange(log, a, e), Live(|log|, msg));
      }
    }
  }

  lemma ExtendTail(head: seq<Item>, mid: seq<Item>, tail: seq<Item>, item: Item)
    ensures (head + (mid + tail)) + [item] == head + (mid + (tail + [item]))
    ensures (head + tail) + [item] == head + (tail + [item])
  {
  }

  lemma LastSnoc(log: seq<string>, msg: string)
    ensures Last(log + [msg]) == PushRecent(Last(log), msg)
  {
  }

  lemma RoomDeliverKeepsInv(w: World, i: nat, msg: string)
    requires Inv(w) && i < |w.sessions| && Accepted(w.sessions[i], w.password) && |msg| <= MAX_MSG
    ensures Inv(RoomDeliver(w, i, msg))
  {
    var w' := RoomDeliver(w, i, msg);
    forall k | 0 <= k < |w'.sessions|
      ensures SessionOk(w'.sessions[k], k in w'.participants, w'.password, w'.log)
    {
      BroadcastKeepsSessionOk(w.sessions[k], k in w.participants, w.password, w.log, msg);
    }
    LastSnoc(w.log, msg);
    forall x | 0 <= x < |w'.authors|
      ensures w'.authors[x] < |w'.sessions| && Accepted(w'.sessions[w'.authors[x]], w'.password)
    {
      assert x < |w.authors| ==> Accepted(w.sessions[w.authors[x]], w.password);
    }
  }

  // ---------- one session changes ----------

  lemma UpdateKeepsInv(w: World, i: nat, s: Session)
    requires Inv(w) && i < |w.sessions|
    requires SessionOk(s, i in w.participants, w.password, w.log)
    requires Accepted(w.sessions[i], w.password) ==> Accepted(s, w.password)
    ensures Inv(Update(w, i, s))
  {
  }

  lemma StopKeepsInv(w: World, i: nat)
    requires Inv(w) && i < |w.sessions|
    ensures Inv(Stop(w, i))
  {
    if !w.sessions[i].stopped {
      var s := Closed(w.sessions[i], |w.log|);
      assert Expected(s, w.log) == Expected(w.sessions[i], w.log);
      assert SessionOk(s, false, w.password, w.log);
    }
  }

  /** The replay is what the bounded history holds: the last messages of the log. */
  lemma ReplayIsRange(log: seq<string>)
    ensures ReplayItems(|log| - |Last(log)|, Last(log)) == ReplayRange(log, ReplayFrom(|log|), |log|)
  {
  }

  lemma EmptyRange(log: seq<string>, at: nat)
    requires at <= |log|
    ensures LiveRange(log, at, at) == []
  {
  }

  lemma RepliedExpected(s: Session, log: seq<string>, text: string)
    requires Ordered(s, log) && s.delivered == Expected(s, log) && s.left.None? && s.reply.None?
    ensures var t := Replied(s, true, text, |log|);
            Ordered(t, log) && t.delivered == Expected(t, log)
  {
    EmptyRange(log, |log|);
  }

  lemma ReplayedShape(s: Session, log: seq<string>)
    requires Ordered(s, log) && s.left.None? && s.reply.Some? && s.replay.None?
    ensures var t := Replayed(s, true, Last(log), |log|);
            && t.joined == s.joined && t.reply == s.reply && t.left == s.left && t.replay == Some(|log|)
            && t.delivered == s.delivered + ReplayRange(log, ReplayFrom(|log|), |log|)
  {
    ReplayIsRange(log);
    DeliverAllEffect(s, ReplayItems(|log| - |Last(log)|, Last(log)));
  }

  lemma RegroupItems(head: seq<Item>, live: seq<Item>, replay: seq<Item>, none: seq<Item>)
    requires none == []
    ensures (head + live) + replay == head + (live + replay + none)
  {
  }

  lemma ReplayedExpected(s: Session, log: seq<string>)
    requires Ordered(s, log) && s.delivered == Expected(s, log)
    requires s.left.None? && s.reply.Some? && s.replay.None?
    ensures var t := Replayed(s, true, Last(log), |log|);
            Ordered(t, log) && t.delivered == Expected(t, log)
  {
    ReplayedShape(s, log);
    EmptyRange(log, |log|);
    var p := s.reply.value.0;
    RegroupItems(LiveRange(log, s.joined, p) + [Private(s.reply.value.1)], LiveRange(log, p, |log|),
            ReplayRange(log, ReplayFrom(|log|), |log|), LiveRange(log, |log|, |log|));
  }

  // ---------- the handshake ----------

  lemma PasswordCheck(buffer: string, password: string)
    ensures IsPasswordCorrect(buffer, password)
       <==> password != "" && FrameEnd(buffer) != 0 && buffer[..FrameEnd(buffer) - 2] == password
  {
  }

  /** The password is known once the session should be accepted. */
  lemma StepEffects(s: Session, step: Handshake.Event, buffer: string, password: string)
    requires Handshake.Inv(s.handshake) && Handshake.Enabled(s.handshake, step)
    requires step.PasswordRead? && step.result.Frame? ==> step.result.matches == IsPasswordCorrect(buffer, password)
    requires s.handshake.shouldAccept ==> KnowsPassword(s, password)
    ensures var t := Stepped(s, step, buffer);
            && Handshake.Inv(t.handshake)
            && Handshake.StepShape(s.handshake, t.handshake)
            && (t.handshake.shouldAccept ==> KnowsPassword(t, password))
  {
    Handshake.StepKeepsInv(s.handshake, step);
    Handshake.StepHasShape(s.handshake, step);
    PasswordCheck(buffer, password);
  }

  /** `t` is `s` with a later handshake state. */
  ghost predicate OnlyHandshakeMoved(s: Session, t: Session) {
    t == s.(handshake := t.handshake, passBuff := t.passBuff)
  }

  lemma QuietStepOk(s: Session, t: Session, inRoom: bool, password: string, log: seq<string>)
    requires SessionOk(s, inRoom, password, log) && OnlyHandshakeMoved(s, t)
    requires Handshake.Inv(t.handshake) && (t.handshake.shouldAccept ==> KnowsPassword(t, password))
    requires t.handshake.issued == s.handshake.issued
    requires t.handshake.completions == [true] <==> s.handshake.completions == [true]
    ensures SessionOk(t, inRoom, password, log)
  {
    assert Expected(t, log) == Expected(s, log);
  }

  lemma ReplyStepOk(s: Session, t: Session, inRoom: bool, password: string, log: seq<string>)
    requires SessionOk(s, inRoom, password, log) && OnlyHandshakeMoved(s, t)
    requires Handshake.Inv(t.handshake) && (t.handshake.shouldAccept ==> KnowsPassword(t, password))
    requires s.handshake.issued == [] && |t.handshake.issued| == 1
    requires t.handshake.completions == s.handshake.completions == []
    ensures SessionOk(Replied(t, inRoom, ReplyText(t.handshake.issued[0], t.sessionId), |log|), inRoom, password, log)
  {
    assert Expected(t, log) == Expected(s, log);
    var text := ReplyText(t.handshake.issued[0], t.sessionId);
    if inRoom {
      RepliedExpected(t, log, text);
      DeliverKeepsWriterOk(t, Private(text));
    }
  }

  lemma AcceptStepOk(s: Session, t: Session, inRoom: bool, password: string, log: seq<string>)
    requires SessionOk(s, inRoom, password, log) && OnlyHandshakeMoved(s, t)
    requires Handshake.Inv(t.handshake) && (t.handshake.shouldAccept ==> KnowsPassword(t, password))
    requires t.handshake.issued == s.handshake.issued != []
    requires s.handshake.completions == [] && t.handshake.completions == [true]
    ensures SessionOk(Replayed(t, inRoom, Last(log), |log|).(reader := ReaderStarting), inRoom, password, log)
  {
    assert Expected(t, log) == Expected(s, log);
    var u := Replayed(t, inRoom, Last(log), |log|);
    if inRoom {
      ReplayedExpected(t, log);
      DeliverAllEffect(t, ReplayItems(|log| - |Last(log)|, Last(log)));
    }
    assert Expected(u.(reader := ReaderStarting), log) == Expected(u, log);
  }

  lemma ReplyKeepsInv(w: World, i: nat, t: Session)
    requires Inv(w) && i < |w.sessions| && OnlyHandshakeMoved(w.sessions[i], t)
    requires Handshake.Inv(t.handshake) && (t.handshake.shouldAccept ==> KnowsPassword(t, w.password))
    requires w.sessions[i].handshake.issued == [] && |t.handshake.issued| == 1
    requires t.handshake.completions == w.sessions[i].handshake.completions == []
    ensures Inv(DeliverPrivate(Update(w, i, t), i, ReplyText(t.handshake.issued[0], t.sessionId)))
  {
    var u := Replied(t, i in w.participants, ReplyText(t.handshake.issued[0], t.sessionId), |w.log|);
    ReplyStepOk(w.sessions[i], t, i in w.participants, w.password, w.log);
    UpdateTwice(w, i, t);
    UpdateKeepsInv(w, i, u);
  }

  lemma ResponseKeepsInv(w: World, i: nat, t: Session)
    requires Inv(w) && i < |w.sessions| && OnlyHandshakeMoved(w.sessions[i], t)
    requires Handshake.Inv(t.handshake) && (t.handshake.shouldAccept ==> KnowsPassword(t, w.password))
    requires t.handshake.issued == w.sessions[i].handshake.issued
    requires w.sessions[i].handshake.completions == [] && |t.handshake.completions| == 1
    requires t.handshake.completions[0] ==> t.handshake.issued != []
    ensures Inv(OnConnectionResponse(Update(w, i, t), i, t.handshake.completions[0]))
  {
    var s := w.sessions[i];
    if t.handshake.completions[0] {
      AcceptStepOk(s, t, i in w.participants, w.password, w.log);
      var u := Replayed(t, i in w.participants, w.recent, |w.log|);
      UpdateTwice(w, i, t);
      UpdateTwice(w, i, u);
      UpdateKeepsInv(w, i, u.(reader := ReaderStarting));
    } else {
      QuietStepOk(s, t, i in w.participants, w.password, w.log);
      UpdateKeepsInv(w, i, t);
      StopKeepsInv(Update(w, i, t), i);
    }
  }

  /** The room hears of a reply, of a completion, or of nothing. */
  lemma NotifyCases(w: World, i: nat, before: Handshake.State)
    requires i < |w.sessions| && Handshake.StepShape(before, w.sessions[i].handshake)
    ensures var t := w.sessions[i];
            var h := t.handshake;
            Notify(w, i, before) ==
              (if |before.issued| < |h.issued| then DeliverPrivate(w, i, ReplyText(h.issued[0], t.sessionId))
               else if |h.completions| == 1 then OnConnectionResponse(w, i, h.completions[0])
               else w)
  {
  }

  lemma NotifyKeepsInv(w: World, i: nat, t: Session)
    requires Inv(w) && i < |w.sessions| && OnlyHandshakeMoved(w.sessions[i], t)
    requires Handshake.Inv(t.handshake) && (t.handshake.shouldAccept ==> KnowsPassword(t, w.password))
    requires Handshake.StepShape(w.sessions[i].handshake, t.handshake)
    ensures Inv(Notify(Update(w, i, t), i, w.sessions[i].handshake))
  {
    var h := w.sessions[i].handshake;
    NotifyCases(Update(w, i, t), i, h);
    if |h.issued| < |t.handshake.issued| {
      ReplyKeepsInv(w, i, t);
    } else if |t.handshake.completions| == 1 {
      ResponseKeepsInv(w, i, t);
    } else {
      QuietKeepsInv(w, i, t);
    }
  }

  lemma QuietKeepsInv(w: World, i: nat, t: Session)
    requires Inv(w) && i < |w.sessions| && OnlyHandshakeMoved(w.sessions[i], t)
    requires Handshake.Inv(t.handshake) && (t.handshake.shouldAccept ==> KnowsPassword(t, w.password))
    requires t.handshake.issued == w.sessions[i].handshake.issued
    requires t.handshake.completions == w.sessions[i].handshake.completions == []
    ensures Inv(Update(w, i, t))
  {
    QuietStepOk(w.sessions[i], t, i in w.participants, w.password, w.log);
    UpdateKeepsInv(w, i, t);
  }

  lemma HandshakeKeepsInv(w: World, i: nat, step: Handshake.Event, buffer: string)
    requires Inv(w) && Enabled(w, HandshakeStep(i, step, buffer))
    ensures Inv(AfterHandshake(w, i, step, buffer))
  {
    assert SessionOk(w.sessions[i], i in w.participants, w.password, w.log);
    StepEffects(w.sessions[i], step, buffer, w.password);
    NotifyKeepsInv(w, i, Stepped(w.sessions[i], step, buffer));
  }

  /** What a handshake step makes of its session, beyond the step itself: nothing, a reply, the replay
      and the reader, or the end. */
  ghost predicate HandshakeOutcome(t: Session, t': Session, inRoom: bool, recent: seq<string>, at: nat) {
    || t' == t
    || (exists text :: t' == Replied(t, inRoom, text, at))
    || t' == Replayed(t, inRoom, recent, at).(reader := ReaderStarting)
    || t' == Closed(t, at)
  }

  lemma NotifyEffect(w: World, i: nat, before: Handshake.State)
    requires i < |w.sessions|
    ensures var w' := Notify(w, i, before);
            && w'.log == w.log && w'.authors == w.authors && w'.recent == w.recent && |w'.sessions| == |w.sessions|
            && (forall k :: 0 <= k < |w.sessions| && k != i ==> w'.sessions[k] == w.sessions[k])
            && HandshakeOutcome(w.sessions[i], w'.sessions[i], i in w.participants, w.recent, |w.log|)
  {
    var h := w.sessions[i].handshake;
    if |before.issued| < |h.issued| {
      var text := ReplyText(h.issued[|h.issued| - 1], w.sessions[i].sessionId);
      assert Notify(w, i, before).sessions[i] == Replied(w.sessions[i], i in w.participants, text, |w.log|);
    }
  }

  lemma HandshakeEffect(w: World, i: nat, step: Handshake.Event, buffer: string)
    requires i < |w.sessions| && Handshake.Enabled(w.sessions[i].handshake, step)
    ensures var w' := AfterHandshake(w, i, step, buffer);
            && w'.log == w.log && w'.authors == w.authors && w'.recent == w.recent && |w'.sessions| == |w.sessions|
            && (forall k :: 0 <= k < |w.sessions| && k != i ==> w'.sessions[k] == w.sessions[k])
            && HandshakeOutcome(Stepped(w.sessions[i], step, buffer), w'.sessions[i], i in w.participants, w.recent, |w.log|)
  {
    NotifyEffect(Update(w, i, Stepped(w.sessions[i], step, buffer)), i, w.sessions[i].handshake);
  }

  // ---------- every step ----------

  lemma WriterStepOk(s: Session, t: Session, inRoom: bool, password: string, log: seq<string>)
    requires SessionOk(s, inRoom, password, log)
    requires t == WriterLoop(s) || (s.outbox != [] && t == WriteDone(s))
    ensures SessionOk(t, inRoom, password, log)
  {
    assert Expected(t, log) == Expected(s, log);
  }

  lemma ReaderStepOk(s: Session, t: Session, inRoom: bool, password: string, log: seq<string>)
    requires SessionOk(s, inRoom, password, log)
    requires t == s.(reader := t.reader, readMsg := t.readMsg, chunks := t.chunks, buffers := t.buffers, frames := t.frames)
    requires (s.reader.NoReader? <==> t.reader.NoReader?) && ReaderOk(t)
    requires |t.readMsg| <= READ_BUFF_LEN
    ensures SessionOk(t, inRoom, password, log)
  {
    assert Expected(t, log) == Expected(s, log);
  }

  /** A session whose reader runs was accepted. */
  lemma ReaderIsAccepted(s: Session, inRoom: bool, password: string, log: seq<string>)
    requires SessionOk(s, inRoom, password, log) && !s.reader.NoReader?
    ensures Accepted(s, password)
  {
  }

  lemma JoinKeepsInv(w: World, sessionId: nat)
    requires Inv(w)
    ensures Inv(Join(w, sessionId))
  {
    var s := NewSession(sessionId, |w.log|);
    EmptyRange(w.log, |w.log|);
    assert SessionOk(s, true, w.password, w.log);
  }

  lemma FrameKeepsInv(w: World, i: nat)
    requires Inv(w) && Enabled(w, FrameRead(i))
    ensures Inv(AfterFrame(w, i))
  {
    var readMsg := w.sessions[i].readMsg;
    ReaderIsAccepted(w.sessions[i], i in w.participants, w.password, w.log);
    RoomDeliverKeepsInv(w, i, Broadcast(readMsg));
    var w' := RoomDeliver(w, i, Broadcast(readMsg));
    var s := w'.sessions[i];
    var t := Erase(s, FrameEnd(readMsg));
    ReaderStepOk(s, t, i in w'.participants, w'.password, w'.log);
    UpdateKeepsInv(w', i, t);
  }

  /** A failed read or write: the task is gone and the session is stopped. */
  lemma FailureKeepsInv(w: World, i: nat, t: Session)
    requires Inv(w) && i < |w.sessions|
    requires var s := w.sessions[i];
             t == s.(writer := WriterGone) || (t == s.(reader := ReaderGone) && !s.reader.NoReader?)
    ensures Inv(Stop(Update(w, i, t), i))
  {
    var s := w.sessions[i];
    if s.stopped {
      assert Expected(t, w.log) == Expected(s, w.log);
      UpdateKeepsInv(w, i, t);
      StopKeepsInv(Update(w, i, t), i);
    } else {
      StopKeepsInv(w, i);
      var u := Closed(s, |w.log|).(writer := t.writer, reader := t.reader);
      assert Expected(u, w.log) == Expected(Closed(s, |w.log|), w.log);
      UpdateKeepsInv(Stop(w, i), i, u);
      UpdateTwice(w, i, t);
      UpdateTwice(w, i, Closed(s, |w.log|));
    }
  }

  lemma StepKeepsInv(w: World, e: Event)
    requires Inv(w) && Enabled(w, e)
    ensures Inv(Next(w, e))
  {
    match e
    case Connect(sessionId) => JoinKeepsInv(w, sessionId);
    case HandshakeStep(i, step, buffer) => HandshakeKeepsInv(w, i, step, buffer);
    case FrameRead(i) => FrameKeepsInv(w, i);
    case WriteFailed(i) => FailureKeepsInv(w, i, w.sessions[i].(writer := WriterGone));
    case ReadFailed(i) => FailureKeepsInv(w, i, w.sessions[i].(reader := ReaderGone));
    case WriterResume(i) => OneSessionKeepsInv(w, i, WriterLoop(w.sessions[i]));
    case WriteSucceeded(i) => OneSessionKeepsInv(w, i, WriteDone(w.sessions[i]));
    case ReaderStart(i) =>
      OneSessionKeepsInv(w, i, w.sessions[i].(reader := if w.sessions[i].open then Reading else ReaderGone));
    case BytesRead(i, chunk) =>
      OneSessionKeepsInv(w, i, TakeIn(w.sessions[i], chunk));
  }

  /** Steps of the writer and the reader that stay within their session. */
  lemma OneSessionKeepsInv(w: World, i: nat, t: Session)
    requires Inv(w) && i < |w.sessions|
    requires var s := w.sessions[i];
             || t == WriterLoop(s)
             || (s.outbox != [] && t == WriteDone(s))
             || (t == s.(reader := t.reader, readMsg := t.readMsg, chunks := t.chunks, buffers := t.buffers, frames := t.frames)
                 && (s.reader.NoReader? <==> t.reader.NoReader?) && ReaderOk(t) && |t.readMsg| <= READ_BUFF_LEN)
    ensures Inv(Update(w, i, t))
  {
    var s := w.sessions[i];
    if t == WriterLoop(s) || (s.outbox != [] && t == WriteDone(s)) {
      WriterStepOk(s, t, i in w.participants, w.password, w.log);
    } else {
      ReaderStepOk(s, t, i in w.participants, w.password, w.log);
    }
    UpdateKeepsInv(w, i, t);
  }

  lemma {:induction false} RunKeepsInv(w: World, more: seq<Event>)
    requires Inv(w) && RunFrom(w, more).Some?
    ensures Inv(RunFrom(w, more).value)
    decreases |more|
  {
    if more == [] {
    } else {
      StepKeepsInv(w, more[0]);
      RunKeepsInv(Next(w, more[0]), more[1..]);
    }
  }

  /** A continuation, and what continues it. */
  lemma {:induction false} RunFromAppend(w: World, a: seq<Event>, b: seq<Event>)
    requires RunFrom(w, a).Some?
    ensures RunFrom(w, a + b) == RunFrom(RunFrom(w, a).value, b)
    decreases |a|
  {
    if a == [] {
      assert a + b == b;
    } else {
      assert (a + b)[1..] == a[1..] + b;
      RunFromAppend(Next(w, a[0]), a[1..], b);
    }
  }

  lemma OneStep(w: World, e: Event)
    requires Enabled(w, e)
    ensures RunFrom(w, [e]) == Some(Next(w, e))
  {
    assert [e][1..] == [];
    assert RunFrom(Next(w, e), []) == Some(Next(w, e));
  }

  lemma AfterOneMore(password: string, run: seq<Event>, w: World, e: Event)
    requires After(password, run) == Some(w) && Enabled(w, e)
    ensures After(password, run + [e]) == Some(Next(w, e))
  {
    assert (run + [e])[..|run|] == run;
  }

  lemma MovedOver(run: seq<Event>, more: seq<Event>)
    requires more != []
    ensures run + [more[0]] + more[1..] == run + more
  {
  }

  /** A run and what continues it are a run. */
  lemma {:induction false} AfterContinued(password: string, run: seq<Event>, w: World, more: seq<Event>)
    requires After(password, run) == Some(w) && RunFrom(w, more).Some?
    ensures After(password, run + more) == RunFrom(w, more)
    decreases |more|
  {
    if more == [] {
      assert run + more == run;
    } else {
      AfterOneMore(password, run, w, more[0]);
      AfterContinued(password, run + [more[0]], Next(w, more[0]), more[1..]);
      MovedOver(run, more);
    }
  }

  /** Continuing from the start is running. */
  lemma {:induction false} AfterIsRunFrom(password: string, run: seq<Event>)
    requires RunFrom(Start(password), run).Some?
    ensures After(password, run) == RunFrom(Start(password), run)
  {
    if run == [] {
    } else {
      var init, e := run[..|run| - 1], run[|run| - 1];
      assert run == init + [e];
      PrefixRuns(Start(password), init, [e]);
      AfterIsRunFrom(password, init);
      RunFromAppend(Start(password), init, [e]);
      assert RunFrom(RunFrom(Start(password), init).value, [e]).Some?;
      OneStep(RunFrom(Start(password), init).value, e);
    }
  }

  lemma {:induction false} PrefixRuns(w: World, a: seq<Event>, b: seq<Event>)
    requires RunFrom(w, a + b).Some?
    ensures RunFrom(w, a).Some?
    decreases |a|
  {
    if a == [] {
    } else {
      assert (a + b)[1..] == a[1..] + b;
      PrefixRuns(Next(w, a[0]), a[1..], b);
    }
  }

  lemma StepKeepsPassword(w: World, e: Event)
    requires Enabled(w, e)
    ensures Next(w, e).password == w.password
  {
  }

  lemma StartInv(password: string)
    ensures Inv(Start(password))
  {
  }

  /** The last step of a run. */
  lemma LastStep(password: string, run: seq<Event>)
    requires run != [] && After(password, run).Some?
    ensures var init := After(password, run[..|run| - 1]);
            init.Some? && Enabled(init.value, run[|run| - 1]) && After(password, run).value == Next(init.value, run[|run| - 1])
  {
  }

  lemma {:induction false} ReachableInv(password: string, run: seq<Event>)
    requires After(password, run).Some?
    ensures Inv(After(password, run).value)
  {
    if run == [] {
      StartInv(password);
    } else {
      var prefix, e := run[..|run| - 1], run[|run| - 1];
      LastStep(password, run);
      var w := After(password, prefix).value;
      ReachableInv(password, prefix);
      StepKeepsInv(w, e);
    }
  }

  lemma {:induction false} PasswordStays(password: string, run: seq<Event>)
    requires After(password, run).Some?
    ensures After(password, run).value.password == password
  {
    if run == [] {
    } else {
      var prefix := run[..|run| - 1];
      PasswordStays(password, prefix);
      StepKeepsPassword(After(password, prefix).value, run[|run| - 1]);
    }
  }
}
