/** What becomes of a session, by the events of its own in a run of the whole server. */
module ServerAdmission {
  import opened Wrappers
  import opened Delimiter
  import opened FrameReader
  import opened SessionId
  import opened Server
  import opened ServerInvariants
  import opened ServerTheorems
  import H = Handshake

  /** The resumptions of the handshake of session `i`, in order. */
  function StepsOf(run: seq<Event>, i: nat): seq<H.Event> {
    if run == [] then []
    else
      var last := run[|run| - 1];
      StepsOf(run[..|run| - 1], i) + (if last.HandshakeStep? && last.i == i then [last.step] else [])
  }

  ghost predicate Refused(s: Session) {
    s.handshake.completions == [false]
  }

  /** A read or a write of session `i` failed. */
  predicate Failed(run: seq<Event>, i: nat) {
    WriteFailed(i) in run || ReadFailed(i) in run
  }

  predicate IsFailure(e: Event, i: nat) {
    e == WriteFailed(i) || e == ReadFailed(i)
  }

  /** What the past of a session says: where its handshake is, whether it has been stopped, and whether it was
      handed the reply that was issued. */
  ghost predicate PastOk(s: Session, steps: seq<H.Event>, failed: bool) {
    && H.After(steps) == Some(s.handshake)
    && (s.stopped <==> Refused(s) || failed)
    && (s.handshake.issued != [] && s.reply.None? ==> failed)
  }

  // ---------- one step ----------

  lemma OutcomeKeepsHandshake(t: Session, t': Session, inRoom: bool, recent: seq<string>, at: nat)
    requires HandshakeOutcome(t, t', inRoom, recent, at)
    ensures t'.handshake == t.handshake
  {
    DeliverAllEffect(t, ReplayItems(at - |recent|, recent));
  }

  lemma ReplayKeepsRest(t: Session, inRoom: bool, recent: seq<string>, at: nat)
    ensures var t' := Replayed(t, inRoom, recent, at);
            t'.stopped == t.stopped && t'.reply == t.reply && t'.handshake == t.handshake
  {
    DeliverAllEffect(t, ReplayItems(at - |recent|, recent));
  }

  /** A reply is handed over while the session is in the room; a refusal stops it; nothing else does. */
  lemma OwnStep(w: World, i: nat, step: H.Event, buffer: string)
    requires Inv(w) && Enabled(w, HandshakeStep(i, step, buffer))
    ensures |AfterHandshake(w, i, step, buffer).sessions| == |w.sessions|
    ensures var s, t := w.sessions[i], AfterHandshake(w, i, step, buffer).sessions[i];
            && t.handshake == H.Next(s.handshake, step)
            && !Refused(s)
            && (t.stopped <==> s.stopped || Refused(t))
            && (t.handshake.issued != [] && t.reply.None? ==>
                  s.stopped || (s.handshake.issued != [] && s.reply.None?))
  {
    var s := w.sessions[i];
    assert SessionOk(s, i in w.participants, w.password, w.log);
    H.StepHasShape(s.handshake, step);
    var t := Stepped(s, step, buffer);
    NotifyCases(Update(w, i, t), i, s.handshake);
    ReplayKeepsRest(t, i in w.participants, w.recent, |w.log|);
  }

  /** What the past of a session is about is as it was, but for a stop. */
  ghost predicate SamePast(s: Session, t: Session, stops: bool) {
    t.handshake == s.handshake && t.reply == s.reply && (t.stopped <==> s.stopped || stops)
  }

  lemma UpdateOf(w: World, k: nat, t: Session, i: nat)
    requires k < |w.sessions| && i < |w.sessions| && SamePast(w.sessions[k], t, false)
    ensures SamePast(w.sessions[i], Update(w, k, t).sessions[i], false)
  {
  }

  lemma FailureOf(w: World, k: nat, t: Session, i: nat)
    requires k < |w.sessions| && i < |w.sessions| && SamePast(w.sessions[k], t, false)
    ensures |Stop(Update(w, k, t), k).sessions| == |w.sessions|
    ensures SamePast(w.sessions[i], Stop(Update(w, k, t), k).sessions[i], k == i)
  {
  }

  lemma FrameOf(w: World, k: nat, i: nat)
    requires k < |w.sessions| && i < |w.sessions| && FrameEnd(w.sessions[k].readMsg) != 0
    ensures |AfterFrame(w, k).sessions| == |w.sessions|
    ensures SamePast(w.sessions[i], AfterFrame(w, k).sessions[i], false)
  {
  }

  lemma OtherStep(w: World, e: Event, i: nat)
    requires Enabled(w, e) && i < |w.sessions| && !(e.HandshakeStep? && e.i == i)
    ensures |w.sessions| <= |Next(w, e).sessions|
    ensures SamePast(w.sessions[i], Next(w, e).sessions[i], IsFailure(e, i))
  {
    match e
    case HandshakeStep(k, step, buffer) => HandshakeLeavesOthers(w, k, step, buffer, i);
    case FrameRead(k) => FrameOf(w, k, i);
    case WriteFailed(k) => FailureOf(w, k, w.sessions[k].(writer := WriterGone), i);
    case ReadFailed(k) => FailureOf(w, k, w.sessions[k].(reader := ReaderGone), i);
    case Connect(_) =>
    case WriterResume(k) => UpdateOf(w, k, WriterLoop(w.sessions[k]), i);
    case WriteSucceeded(k) => UpdateOf(w, k, WriteDone(w.sessions[k]), i);
    case ReaderStart(k) => UpdateOf(w, k, w.sessions[k].(reader := if w.sessions[k].open then Reading else ReaderGone), i);
    case BytesRead(k, chunk) => UpdateOf(w, k, TakeIn(w.sessions[k], chunk), i);
  }

  lemma OwnStepKeepsPast(w: World, i: nat, step: H.Event, buffer: string, steps: seq<H.Event>, failed: bool)
    requires Inv(w) && Enabled(w, HandshakeStep(i, step, buffer)) && PastOk(w.sessions[i], steps, failed)
    ensures |AfterHandshake(w, i, step, buffer).sessions| == |w.sessions|
    ensures PastOk(AfterHandshake(w, i, step, buffer).sessions[i], steps + [step], failed)
  {
    OwnStep(w, i, step, buffer);
    H.OneMore(steps, step);
  }

  // ---------- runs ----------

  /** Sessions act only once they have joined. */
  lemma {:induction false} NoPast(password: string, run: seq<Event>, i: nat)
    requires After(password, run).Some? && |After(password, run).value.sessions| <= i
    ensures StepsOf(run, i) == [] && !Failed(run, i)
  {
    if run == [] {
    } else {
      var init, e := run[..|run| - 1], run[|run| - 1];
      LastStep(password, run);
      SessionsStay(After(password, init).value, e);
      NoPast(password, init, i);
      assert run == init + [e];
    }
  }

  lemma SessionsStay(w: World, e: Event)
    requires Enabled(w, e)
    ensures |w.sessions| <= |Next(w, e).sessions| <= |w.sessions| + 1
    ensures |w.sessions| < |Next(w, e).sessions| ==> e.Connect? && Next(w, e).sessions[|w.sessions|] == NewSession(e.sessionId, |w.log|)
  {
    match e
    case HandshakeStep(k, step, buffer) => HandshakeEffect(w, k, step, buffer);
    case Connect(_) =>
    case FrameRead(_) =>
    case WriterResume(_) =>
    case WriteSucceeded(_) =>
    case WriteFailed(_) =>
    case ReaderStart(_) =>
    case BytesRead(_, _) =>
    case ReadFailed(_) =>
  }

  /** The step of the handshake of session `i` that an event is, if it is one. */
  function OwnSteps(e: Event, i: nat): seq<H.Event> {
    if e.HandshakeStep? && e.i == i then [e.step] else []
  }

  lemma StepKeepsPast(w: World, e: Event, i: nat, steps: seq<H.Event>, failed: bool)
    requires Inv(w) && Enabled(w, e) && i < |w.sessions| && PastOk(w.sessions[i], steps, failed)
    ensures i < |Next(w, e).sessions|
    ensures PastOk(Next(w, e).sessions[i], steps + OwnSteps(e, i), failed || IsFailure(e, i))
  {
    if e.HandshakeStep? && e.i == i {
      OwnStepKeepsPast(w, i, e.step, e.buffer, steps, failed);
    } else {
      OtherStep(w, e, i);
      assert steps + OwnSteps(e, i) == steps;
    }
  }

  lemma PastOfRun(run: seq<Event>, i: nat)
    requires run != []
    ensures var init, e := run[..|run| - 1], run[|run| - 1];
            && StepsOf(run, i) == StepsOf(init, i) + OwnSteps(e, i)
            && (Failed(run, i) <==> Failed(init, i) || IsFailure(e, i))
  {
    assert run == run[..|run| - 1] + [run[|run| - 1]];
  }

  lemma JoinHasNoPast(sessionId: nat, joined: nat)
    ensures PastOk(NewSession(sessionId, joined), [], false)
  {
    assert H.After([]) == Some(H.INIT);
  }

  lemma {:induction false} ReachablePast(password: string, run: seq<Event>, w: World, i: nat)
    requires After(password, run) == Some(w) && i < |w.sessions|
    ensures PastOk(w.sessions[i], StepsOf(run, i), Failed(run, i))
  {
    if run == [] {
    } else {
      var init, e := run[..|run| - 1], run[|run| - 1];
      LastStep(password, run);
      var w0 := After(password, init).value;
      SessionsStay(w0, e);
      PastOfRun(run, i);
      if i < |w0.sessions| {
        ReachableInv(password, init);
        ReachablePast(password, init, w0, i);
        StepKeepsPast(w0, e, i, StepsOf(init, i), Failed(init, i));
      } else {
        NoPast(password, init, i);
        JoinHasNoPast(e.sessionId, |w0.log|);
      }
    }
  }

  /** A session has left the room exactly when its handshake refused it or one of its reads or writes failed. */
  lemma WhyItLeft(password: string, run: seq<Event>, w: World, i: nat)
    requires After(password, run) == Some(w) && i < |w.sessions|
    ensures i !in w.participants <==> Refused(w.sessions[i]) || Failed(run, i)
    ensures w.sessions[i].handshake.issued != [] && !Failed(run, i) ==> w.sessions[i].reply.Some?
  {
    ReachablePast(password, run, w, i);
    Lifecycle(password, run, w, i);
  }

  /** What a session whose handshake is over has become, by its own events in the run alone: left without an
      answer, admitted, or refused and out of the room. */
  lemma WhatItBecame(password: string, run: seq<Event>, w: World, i: nat)
    requires After(password, run) == Some(w) && i < |w.sessions| && w.sessions[i].handshake.connect.Ended?
    ensures var s, steps := w.sessions[i], StepsOf(run, i);
            if H.TimeoutFlushed(false) in steps && H.SomeReadThrows(steps) then
              Abandoned(s) && (i in w.participants <==> WriteFailed(i) !in run)
            else if H.SomeMatchInTime(steps) then
              Accepted(s, password) && (i in w.participants <==> !Failed(run, i))
            else
              Refused(s) && s.stopped && i !in w.participants
  {
    ReachablePast(password, run, w, i);
    ReachableSession(password, run, w, i);
    H.Outcome(StepsOf(run, i));
    WhyItLeft(password, run, w, i);
    if Abandoned(w.sessions[i]) && ReadFailed(i) in run {
      ReadsNeedAcceptance(password, run, w, i);
    }
  }

  lemma ReaderStepNeedsReader(w: World, i: nat)
    requires Inv(w) && Enabled(w, ReadFailed(i))
    ensures w.sessions[i].handshake.completions == [true]
  {
    assert SessionOk(w.sessions[i], i in w.participants, w.password, w.log);
  }

  lemma CompletedStays(w: World, e: Event, i: nat)
    requires Inv(w) && Enabled(w, e) && i < |w.sessions| && w.sessions[i].handshake.completions == [true]
    ensures i < |Next(w, e).sessions| && Next(w, e).sessions[i].handshake.completions == [true]
  {
    if e.HandshakeStep? && e.i == i {
      assert SessionOk(w.sessions[i], i in w.participants, w.password, w.log);
      H.StepHasShape(w.sessions[i].handshake, e.step);
    } else {
      OtherStep(w, e, i);
    }
  }

  /** Only a session that was admitted reads. */
  lemma {:induction false} ReadsNeedAcceptance(password: string, run: seq<Event>, w: World, i: nat)
    requires After(password, run) == Some(w) && ReadFailed(i) in run
    ensures i < |w.sessions| && w.sessions[i].handshake.completions == [true]
  {
    var init, e := run[..|run| - 1], run[|run| - 1];
    assert run == init + [e];
    LastStep(password, run);
    ReachableInv(password, init);
    var w0 := After(password, init).value;
    if ReadFailed(i) in init {
      ReadsNeedAcceptance(password, init, w0, i);
      CompletedStays(w0, e, i);
    } else {
      ReaderStepNeedsReader(w0, i);
      CompletedStays(w0, e, i);
    }
  }

  // ---------- the silent client ----------

  lemma MoveOver(steps: seq<H.Event>, more: seq<H.Event>)
    requires more != []
    ensures steps + [more[0]] + more[1..] == steps + more
  {
  }

  /** Internal steps one after the other are a run. */
  lemma {:induction false} AloneIsRun(steps: seq<H.Event>, h: H.State, more: seq<H.Event>)
    requires H.After(steps) == Some(h) && H.AfterAlone(h, more).Some?
    ensures H.After(steps + more) == H.AfterAlone(h, more)
    decreases |more|
  {
    if more == [] {
      assert steps + more == steps;
    } else {
      H.OneMore(steps, more[0]);
      MoveOver(steps, more);
      AloneIsRun(steps + [more[0]], H.Next(h, more[0]), more[1..]);
    }
  }

  lemma SilentHandshake(steps: seq<H.Event>, h: H.State)
    requires H.After(steps) == Some(h) && H.AfterAlone(H.INIT, steps).Some? && H.Quiet(h)
    ensures h.issued == [H.Timeout] && h.completions == [false]
  {
    AloneIsRun([], H.INIT, steps);
    assert [] + steps == steps;
    H.SilentClientIsTimedOut(H.INIT, steps, h);
  }

  /** A client that never answers, in the whole server, whatever the other sessions do meanwhile and however the
      steps of its handshake are scheduled: when none of those is left, it has been refused, it is out of the room
      and its socket is closed; and it was handed the time-out reply unless a write had failed before. */
  lemma SilentClientIsTurnedAway(password: string, run: seq<Event>, w: World, i: nat)
    requires After(password, run) == Some(w) && i < |w.sessions|
    requires H.AfterAlone(H.INIT, StepsOf(run, i)).Some? && H.Quiet(w.sessions[i].handshake)
    ensures var s := w.sessions[i];
            && s.handshake.issued == [H.Timeout] && Refused(s)
            && s.stopped && !s.open && i !in w.participants
            && (WriteFailed(i) !in run ==> s.reply.Some? && s.reply.value.1 == TIMEOUT_RESP)
  {
    ReachablePast(password, run, w, i);
    ReachableSession(password, run, w, i);
    SilentHandshake(StepsOf(run, i), w.sessions[i].handshake);
    Lifecycle(password, run, w, i);
    if ReadFailed(i) in run {
      ReadsNeedAcceptance(password, run, w, i);
    }
  }
}
