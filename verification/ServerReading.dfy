/** The reader of an accepted session goes on as long as the socket is open, and no longer. */
module ServerReading {
  import opened Wrappers
  import opened Delimiter
  import opened FrameReader
  import opened Server
  import opened ServerInvariants
  import opened ServerOutbox
  import opened ServerScenarios
  import opened ServerSpeech
  import opened ServerTheorems
  import H = Handshake

  /** Over every run: an accepted session with an open socket has a reader that starts or reads, and no other
      session has one. */
  lemma ReaderGoesOn(password: string, run: seq<Event>, w: World, i: nat)
    requires After(password, run) == Some(w) && i < |w.sessions| && w.sessions[i].open
    ensures w.sessions[i].reader.ReaderStarting? || w.sessions[i].reader.Reading? <==> Accepted(w.sessions[i], password)
  {
    ReachableSession(password, run, w, i);
    if w.sessions[i].reader.NoReader? {
    } else {
      ReaderIsAccepted(w.sessions[i], i in w.participants, password, w.log);
    }
  }

  // ---------- every message can be said ----------

  /** Session `i` is read to the end of its buffer, which holds no frame. */
  ghost predicate ReadsOn(w: World, i: nat, left: string) {
    && i < |w.sessions| && w.sessions[i].open && w.sessions[i].reader.Reading?
    && w.sessions[i].readMsg == left && FrameEnd(left) == 0
  }

  function SayOne(msg: string, i: nat): seq<Event> {
    [BytesRead(i, msg + DELIM)] + [FrameRead(i)]
  }

  /** The messages one after the other, each read and broadcast before the next arrives. */
  function SayAll(msgs: seq<string>, i: nat): seq<Event> {
    if msgs == [] then [] else SayOne(msgs[0], i) + SayAll(msgs[1..], i)
  }

  function Repeat(i: nat, n: nat): seq<nat> {
    seq(n, k requires 0 <= k < n => i)
  }

  lemma PassSays(w: World, i: nat, msg: string)
    requires i < |w.sessions| && w.sessions[i].open && w.sessions[i].readMsg == msg + DELIM && Sendable(msg)
    ensures FrameEnd(msg + DELIM) == |msg| + 2
    ensures var w' := AfterFrame(w, i);
            && w'.log == w.log + [msg] && w'.authors == w.authors + [i] && |w'.sessions| == |w.sessions|
            && ReadsOn(w', i, "")
  {
    OneFrame(msg);
    assert (msg + DELIM)[|msg| + 2..] == "";
    assert FrameEnd("") == 0;
  }

  lemma OneIsSaid(w: World, i: nat, left: string, msg: string) returns (w': World)
    requires ReadsOn(w, i, left) && Sendable(left + msg)
    ensures RunFrom(w, SayOne(msg, i)) == Some(w')
    ensures w'.log == w.log + [left + msg] && w'.authors == w.authors + [i] && |w'.sessions| == |w.sessions|
    ensures ReadsOn(w', i, "")
  {
    var w1 := Update(w, i, TakeIn(w.sessions[i], msg + DELIM));
    assert left + (msg + DELIM) == left + msg + DELIM;
    PassSays(w1, i, left + msg);
    w' := AfterFrame(w1, i);
    OneStep(w, BytesRead(i, msg + DELIM));
    OneStep(w1, FrameRead(i));
    Then(w, [BytesRead(i, msg + DELIM)], w1, [FrameRead(i)], w');
  }

  lemma {:induction false} AllAreSaid(w: World, i: nat, msgs: seq<string>) returns (w': World)
    requires ReadsOn(w, i, "") && forall k :: 0 <= k < |msgs| ==> Sendable(msgs[k])
    ensures RunFrom(w, SayAll(msgs, i)) == Some(w')
    ensures w'.log == w.log + msgs && w'.authors == w.authors + Repeat(i, |msgs|) && |w'.sessions| == |w.sessions|
    ensures ReadsOn(w', i, "")
    decreases |msgs|
  {
    if msgs == [] {
      assert w.log + [] == w.log && w.authors + Repeat(i, 0) == w.authors;
      w' := w;
    } else {
      assert "" + msgs[0] == msgs[0];
      var w1 := OneIsSaid(w, i, "", msgs[0]);
      w' := AllAreSaid(w1, i, msgs[1..]);
      Then(w, SayOne(msgs[0], i), w1, SayAll(msgs[1..], i), w');
      SaidInOrder(w.log, w.authors, msgs, i);
    }
  }

  lemma SaidInOrder(log: seq<string>, authors: seq<nat>, msgs: seq<string>, i: nat)
    requires msgs != []
    ensures log + [msgs[0]] + msgs[1..] == log + msgs
    ensures authors + [i] + Repeat(i, |msgs| - 1) == authors + Repeat(i, |msgs|)
  {
  }

  lemma {:induction false} MessagesByOne(log: seq<string>, authors: seq<nat>, msgs: seq<string>, i: nat)
    requires |authors| == |log|
    ensures MessagesBy(log + msgs, authors + Repeat(i, |msgs|), i) == MessagesBy(log, authors, i) + msgs
  {
    if msgs == [] {
      assert log + msgs == log && authors + Repeat(i, 0) == authors;
    } else {
      var init, last := msgs[..|msgs| - 1], msgs[|msgs| - 1];
      MessagesByOne(log, authors, init, i);
      MessagesBySnoc(log + init, authors + Repeat(i, |init|), last, i, i);
      assert log + init + [last] == log + msgs;
      assert authors + Repeat(i, |init|) + [i] == authors + Repeat(i, |msgs|);
      assert MessagesBy(log, authors, i) + init + [last] == MessagesBy(log, authors, i) + msgs;
    }
  }

  /** From every reachable state, an accepted session with an open socket and an empty read buffer can say any list
      of messages without the delimiter, of at most 1022 chars each: some continuation adds exactly these to the
      log, as its own, and leaves it reading. */
  lemma EveryMessageCanBeSaid(password: string, run: seq<Event>, w: World, i: nat, msgs: seq<string>)
      returns (more: seq<Event>, w': World)
    requires After(password, run) == Some(w) && i < |w.sessions|
    requires w.sessions[i].open && w.sessions[i].handshake.completions == [true] && w.sessions[i].readMsg == ""
    requires forall k :: 0 <= k < |msgs| ==> DelimFree(msgs[k]) && |msgs[k]| <= 1022
    ensures RunFrom(w, more) == Some(w') && |w.authors| == |w.log| && |w'.authors| == |w'.log|
    ensures w'.log == w.log + msgs
    ensures MessagesBy(w'.log, w'.authors, i) == MessagesBy(w.log, w.authors, i) + msgs
    ensures i < |w'.sessions| && w'.sessions[i].open && w'.sessions[i].reader.Reading? && w'.sessions[i].readMsg == ""
  {
    ReachableSession(password, run, w, i);
    ReachableInv(password, run);
    assert FrameEnd("") == 0;
    if w.sessions[i].reader.Reading? {
      w' := AllAreSaid(w, i, msgs);
      more := SayAll(msgs, i);
    } else {
      var w1 := Next(w, ReaderStart(i));
      OneStep(w, ReaderStart(i));
      w' := AllAreSaid(w1, i, msgs);
      more := [ReaderStart(i)] + SayAll(msgs, i);
      Then(w, [ReaderStart(i)], w1, SayAll(msgs, i), w');
    }
    MessagesByOne(w.log, w.authors, msgs, i);
  }

  // ---------- after the stop ----------

  /** What a stopped session may still do: the pass its reader is at, and the write its writer is at. */
  function PassesLeft(s: Session): nat { if s.reader.Reading? then 1 else 0 }

  function WritesLeft(s: Session): nat { if s.writer.Writing? then 1 else 0 }

  ghost predicate WindsDown(s: Session, t: Session) {
    && t.stopped && s.written <= t.written && s.buffers <= t.buffers
    && |t.buffers| + PassesLeft(t) <= |s.buffers| + PassesLeft(s)
    && |t.written| + WritesLeft(t) <= |s.written| + WritesLeft(s)
    && (t.writer == s.writer || t.writer.WriterGone?)
    && (t.reader.Reading? ==> s.reader.Reading?)
  }

  lemma HandshakeWindsDown(w: World, k: nat, step: H.Event, buffer: string, i: nat)
    requires Inv(w) && Enabled(w, HandshakeStep(k, step, buffer)) && i < |w.sessions| && w.sessions[i].stopped
    ensures |AfterHandshake(w, k, step, buffer).sessions| == |w.sessions|
    ensures WindsDown(w.sessions[i], AfterHandshake(w, k, step, buffer).sessions[i])
  {
    HandshakeEffect(w, k, step, buffer);
    assert SessionOk(w.sessions[i], i in w.participants, w.password, w.log);
  }

  lemma UpdateWindsDown(w: World, k: nat, t: Session, i: nat)
    requires k < |w.sessions| && i < |w.sessions| && w.sessions[i].stopped
    requires k == i ==> WindsDown(w.sessions[k], t)
    ensures WindsDown(w.sessions[i], Update(w, k, t).sessions[i])
    ensures |Stop(Update(w, k, t), k).sessions| == |w.sessions|
    ensures WindsDown(w.sessions[i], Stop(Update(w, k, t), k).sessions[i])
  {
  }

  lemma FrameWindsDown(w: World, k: nat, i: nat)
    requires Inv(w) && Enabled(w, FrameRead(k)) && i < |w.sessions| && w.sessions[i].stopped
    ensures |AfterFrame(w, k).sessions| == |w.sessions|
    ensures WindsDown(w.sessions[i], AfterFrame(w, k).sessions[i])
  {
    assert SessionOk(w.sessions[i], i in w.participants, w.password, w.log);
  }

  lemma StepWindsDown(w: World, e: Event, i: nat)
    requires Inv(w) && Enabled(w, e) && i < |w.sessions| && w.sessions[i].stopped
    ensures i < |Next(w, e).sessions| && WindsDown(w.sessions[i], Next(w, e).sessions[i])
  {
    assert SessionOk(w.sessions[i], i in w.participants, w.password, w.log);
    match e
    case HandshakeStep(k, step, buffer) => HandshakeWindsDown(w, k, step, buffer, i);
    case FrameRead(k) => FrameWindsDown(w, k, i);
    case WriterResume(k) => UpdateWindsDown(w, k, WriterLoop(w.sessions[k]), i);
    case WriteSucceeded(k) => UpdateWindsDown(w, k, WriteDone(w.sessions[k]), i);
    case WriteFailed(k) => UpdateWindsDown(w, k, w.sessions[k].(writer := WriterGone), i);
    case ReaderStart(k) =>
      UpdateWindsDown(w, k, w.sessions[k].(reader := if w.sessions[k].open then Reading else ReaderGone), i);
    case BytesRead(k, chunk) => UpdateWindsDown(w, k, TakeIn(w.sessions[k], chunk), i);
    case ReadFailed(k) => UpdateWindsDown(w, k, w.sessions[k].(reader := ReaderGone), i);
    case Connect(_) =>
  }

  lemma {:induction false} RunWindsDown(w: World, more: seq<Event>, i: nat)
    requires Inv(w) && i < |w.sessions| && w.sessions[i].stopped && RunFrom(w, more).Some?
    ensures i < |RunFrom(w, more).value.sessions|
    ensures WindsDown(w.sessions[i], RunFrom(w, more).value.sessions[i])
    decreases |more|
  {
    if more == [] {
    } else {
      StepKeepsInv(w, more[0]);
      StepWindsDown(w, more[0], i);
      RunWindsDown(Next(w, more[0]), more[1..], i);
    }
  }

  /** A session has said as much as its reader took passes. */
  lemma SaidPerPass(password: string, run: seq<Event>, w: World, i: nat)
    requires After(password, run) == Some(w) && i < |w.sessions|
    ensures |w.authors| == |w.log| && |MessagesBy(w.log, w.authors, i)| == |w.sessions[i].buffers|
  {
    ReachableSpoken(password, run);
    assert SpokenOk(w.sessions[i], MessagesBy(w.log, w.authors, i));
  }

  /** A stopped session says at most one message more, the one its reader is at, and is written at most one text
      more, the one its writer is at, over every continuation; and a writer that is resumed once more ends. */
  lemma StoppedWindsDown(password: string, run: seq<Event>, w: World, i: nat, more: seq<Event>, w': World)
    requires After(password, run) == Some(w) && i < |w.sessions| && w.sessions[i].stopped
    requires RunFrom(w, more) == Some(w')
    ensures i < |w'.sessions| && |w.authors| == |w.log| && |w'.authors| == |w'.log|
    ensures |MessagesBy(w'.log, w'.authors, i)|
         <= |MessagesBy(w.log, w.authors, i)| + (if w.sessions[i].reader.Reading? then 1 else 0)
    ensures |w'.sessions[i].written| <= |w.sessions[i].written| + (if w.sessions[i].writer.Writing? then 1 else 0)
    ensures w'.sessions[i].writer == w.sessions[i].writer || w'.sessions[i].writer.WriterGone?
  {
    ReachableInv(password, run);
    RunWindsDown(w, more, i);
    SaidPerPass(password, run, w, i);
    AfterContinued(password, run, w, more);
    SaidPerPass(password, run + more, w', i);
  }

  /** A frame in the buffer of a running reader can be broadcast, with the socket open or closed: so the one
      message more does come. */
  lemma PassCanBeTaken(w: World, i: nat)
    requires i < |w.sessions| && w.sessions[i].reader.Reading? && !DelimFree(w.sessions[i].readMsg)
    ensures Enabled(w, FrameRead(i))
    ensures Next(w, FrameRead(i)).log == w.log + [Broadcast(w.sessions[i].readMsg)]
  {
  }

  /** A resumption of the reader or the writer of session `i`. */
  predicate IsOwnStep(e: Event, i: nat) {
    || e == ReaderStart(i) || e == FrameRead(i) || e == ReadFailed(i)
    || e == WriterResume(i) || e == WriteSucceeded(i) || e == WriteFailed(i)
  }

  /** The tasks of a stopped session come to their end: when none of them can be resumed, they are gone, but for a
      writer that waits and that nobody will wake. */
  lemma StoppedTasksEnd(w: World, i: nat)
    requires Inv(w) && i < |w.sessions| && w.sessions[i].stopped
    requires forall e :: IsOwnStep(e, i) ==> !Enabled(w, e)
    ensures w.sessions[i].reader.NoReader? || w.sessions[i].reader.ReaderGone?
    ensures w.sessions[i].writer.WriterGone? || (w.sessions[i].writer.Parked? && w.sessions[i].outbox == [])
  {
    assert SessionOk(w.sessions[i], i in w.participants, w.password, w.log);
    assert IsOwnStep(ReaderStart(i), i) && IsOwnStep(ReadFailed(i), i);
    assert IsOwnStep(WriterResume(i), i) && IsOwnStep(WriteFailed(i), i);
  }

  lemma FailureLeavesNothing(w: World, i: nat, e: Event)
    requires (e == WriteFailed(i) || e == ReadFailed(i)) && Enabled(w, e)
    ensures |Next(w, e).sessions| == |w.sessions|
    ensures var s, t := w.sessions[i], Next(w, e).sessions[i];
            && t.stopped && t.written == s.written && t.buffers == s.buffers
            && (e == WriteFailed(i) ==> WritesLeft(t) == 0) && (e == ReadFailed(i) ==> PassesLeft(t) == 0)
  {
  }

  lemma FailureContinued(w: World, i: nat, e: Event, more: seq<Event>)
    requires Inv(w) && (e == WriteFailed(i) || e == ReadFailed(i)) && Enabled(w, e)
    requires RunFrom(Next(w, e), more).Some?
    ensures i < |RunFrom(Next(w, e), more).value.sessions|
    ensures var s, t := w.sessions[i], RunFrom(Next(w, e), more).value.sessions[i];
            && t.stopped
            && (e == WriteFailed(i) ==> t.written == s.written) && (e == ReadFailed(i) ==> |t.buffers| == |s.buffers|)
  {
    StepKeepsInv(w, e);
    FailureLeavesNothing(w, i, e);
    RunWindsDown(Next(w, e), more, i);
  }

  /** A failed write is the last: nothing is written after it. A failed read is the last: no pass is taken, and
      nothing said, after it. */
  lemma FailureIsLast(password: string, run: seq<Event>, w: World, i: nat, e: Event, more: seq<Event>, w': World)
    requires After(password, run) == Some(w) && i < |w.sessions|
    requires (e == WriteFailed(i) || e == ReadFailed(i)) && Enabled(w, e) && RunFrom(Next(w, e), more) == Some(w')
    ensures i < |w'.sessions| && w'.sessions[i].stopped
    ensures e == WriteFailed(i) ==> w'.sessions[i].written == w.sessions[i].written
    ensures |w.authors| == |w.log| && |w'.authors| == |w'.log|
    ensures e == ReadFailed(i) ==>
              |MessagesBy(w'.log, w'.authors, i)| == |MessagesBy(w.log, w.authors, i)|
  {
    ReachableInv(password, run);
    FailureContinued(w, i, e, more);
    AfterOneMore(password, run, w, e);
    AfterContinued(password, run + [e], Next(w, e), more);
    SaidPerPass(password, run, w, i);
    SaidPerPass(password, run + [e] + more, w', i);
  }

  /** A failed read or write of a session in the room puts it out, and what it is at is all that can fail. */
  lemma FailureStops(w: World, i: nat)
    requires Inv(w) && i < |w.sessions|
    ensures Enabled(w, ReadFailed(i)) <==> w.sessions[i].reader.Reading?
    ensures Enabled(w, WriteFailed(i)) <==> w.sessions[i].writer.Writing?
    ensures w.sessions[i].reader.Reading? ==> i !in Next(w, ReadFailed(i)).participants
    ensures w.sessions[i].writer.Writing? ==> i !in Next(w, WriteFailed(i)).participants
  {
    assert SessionOk(w.sessions[i], i in w.participants, w.password, w.log);
  }
}
