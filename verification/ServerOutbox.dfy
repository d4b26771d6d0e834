/** The way of a session's texts to its socket: nothing is lost on it, and the writer gets to the end of it. */
module ServerOutbox {
  import opened Wrappers
  import opened Delimiter
  import opened FrameReader
  import opened Server
  import opened ServerInvariants
  import opened ServerTheorems
  import Handshake

  /** Nothing handed to a session is lost, doubled or reordered on its way to the socket. */
  lemma OutboxConservation(password: string, run: seq<Event>, w: World, i: nat)
    requires After(password, run) == Some(w) && i < |w.sessions|
    ensures var s := w.sessions[i];
            s.written + s.outbox == Texts(s.delivered)
  {
    ReachableSession(password, run, w, i);
  }

  /** A writer that waits for the timer with no wake-up queued has nothing to write. */
  lemma NoLostWakeup(password: string, run: seq<Event>, w: World, i: nat)
    requires After(password, run) == Some(w) && i < |w.sessions|
    ensures var s := w.sessions[i];
            s.open && s.outbox != [] ==> s.writer.WriterStarting? || s.writer.Woken? || s.writer.Writing?
  {
    ReachableSession(password, run, w, i);
  }

  /** The measure: what the outbox and the writer's state have left to do. */
  function Pending(s: Session): nat {
    2 * |s.outbox| + (if s.writer.WriterStarting? || s.writer.Woken? then 1 else 0)
  }

  predicate IsWriterStep(e: Event, i: nat) {
    e == WriterResume(i) || e == WriteSucceeded(i)
  }

  /** Between `s` and `t` the session was handed more, and for each text the measure gained at most three;
      every one of `steps` writer steps took at least one off. */
  ghost predicate Amortised(s: Session, t: Session, steps: nat) {
    && s.delivered <= t.delivered
    && steps + Pending(t) <= Pending(s) + 3 * (|t.delivered| - |s.delivered|)
  }

  lemma DeliverIsAmortised(s: Session, item: Item)
    ensures Amortised(s, Deliver(s, item), 0)
  {
  }

  lemma {:induction false} DeliverAllIsAmortised(s: Session, items: seq<Item>)
    ensures Amortised(s, DeliverAll(s, items), 0)
  {
    if items == [] {
    } else {
      var init := items[..|items| - 1];
      DeliverAllIsAmortised(s, init);
      DeliverIsAmortised(DeliverAll(s, init), items[|items| - 1]);
    }
  }

  lemma OutcomeIsAmortised(t: Session, t': Session, inRoom: bool, recent: seq<string>, at: nat)
    requires HandshakeOutcome(t, t', inRoom, recent, at)
    ensures Amortised(t, t', 0)
  {
    if text :| t' == Replied(t, inRoom, text, at) {
      DeliverIsAmortised(t, Private(text));
    } else {
      DeliverAllIsAmortised(t, ReplayItems(at - |recent|, recent));
    }
  }

  lemma HandshakeIsAmortised(w: World, k: nat, step: Handshake.Event, buffer: string, i: nat)
    requires k < |w.sessions| && i < |w.sessions| && Handshake.Enabled(w.sessions[k].handshake, step)
    ensures |AfterHandshake(w, k, step, buffer).sessions| == |w.sessions|
    ensures Amortised(w.sessions[i], AfterHandshake(w, k, step, buffer).sessions[i], 0)
  {
    HandshakeEffect(w, k, step, buffer);
    if k == i {
      OutcomeIsAmortised(Stepped(w.sessions[i], step, buffer), AfterHandshake(w, i, step, buffer).sessions[i],
                         i in w.participants, w.recent, |w.log|);
    }
  }

  lemma FrameIsAmortised(w: World, k: nat, i: nat)
    requires k < |w.sessions| && i < |w.sessions| && FrameEnd(w.sessions[k].readMsg) != 0
    ensures |AfterFrame(w, k).sessions| == |w.sessions|
    ensures Amortised(w.sessions[i], AfterFrame(w, k).sessions[i], 0)
  {
    DeliverIsAmortised(w.sessions[i], Live(|w.log|, Broadcast(w.sessions[k].readMsg)));
  }

  lemma StopIsAmortised(w: World, k: nat, t: Session, i: nat)
    requires k < |w.sessions| && i < |w.sessions| && Amortised(w.sessions[k], t, 0)
    ensures |Stop(Update(w, k, t), k).sessions| == |w.sessions|
    ensures Amortised(w.sessions[i], Stop(Update(w, k, t), k).sessions[i], 0)
  {
  }

  /** Whatever coroutine of whatever session is resumed: without a text handed to session `i` its measure does
      not grow, and every step of its writer takes some of it off. */
  lemma StepIsAmortised(w: World, e: Event, i: nat)
    requires Enabled(w, e) && i < |w.sessions|
    ensures |w.sessions| <= |Next(w, e).sessions|
    ensures Amortised(w.sessions[i], Next(w, e).sessions[i], if IsWriterStep(e, i) then 1 else 0)
  {
    match e
    case HandshakeStep(k, step, buffer) => HandshakeIsAmortised(w, k, step, buffer, i);
    case FrameRead(k) => FrameIsAmortised(w, k, i);
    case WriteFailed(k) => StopIsAmortised(w, k, w.sessions[k].(writer := WriterGone), i);
    case ReadFailed(k) => StopIsAmortised(w, k, w.sessions[k].(reader := ReaderGone), i);
    case Connect(_) =>
    case WriterResume(_) =>
    case WriteSucceeded(_) =>
    case ReaderStart(_) =>
    case BytesRead(_, _) =>
  }

  /** As long as there is something to write and the socket is open, the writer can be resumed. */
  lemma WriterCanMove(w: World, i: nat)
    requires Inv(w) && i < |w.sessions| && w.sessions[i].open && w.sessions[i].outbox != []
    ensures Enabled(w, WriterResume(i)) || Enabled(w, WriteSucceeded(i))
  {
    assert SessionOk(w.sessions[i], i in w.participants, w.password, w.log);
  }

  /** How many steps of a run are the writer's of session `i`. */
  function WriterSteps(run: seq<Event>, i: nat): nat {
    if run == [] then 0 else (if IsWriterStep(run[0], i) then 1 else 0) + WriterSteps(run[1..], i)
  }

  lemma {:induction false} RunIsAmortised(w: World, more: seq<Event>, i: nat)
    requires i < |w.sessions| && RunFrom(w, more).Some?
    ensures i < |RunFrom(w, more).value.sessions|
    ensures Amortised(w.sessions[i], RunFrom(w, more).value.sessions[i], WriterSteps(more, i))
    decreases |more|
  {
    if more == [] {
    } else {
      StepIsAmortised(w, more[0], i);
      RunIsAmortised(Next(w, more[0]), more[1..], i);
    }
  }

  /** Every continuation of every run drains the outbox, whatever else happens in between: if the session is
      handed nothing more, its writer takes at most Pending further steps, and three more for each text that it
      is handed; and once its writer has no step left to take, all it was ever handed has been written, in order,
      or the socket is closed. */
  lemma OutboxDrains(password: string, run: seq<Event>, w: World, i: nat, more: seq<Event>, w': World)
    requires After(password, run) == Some(w) && i < |w.sessions| && RunFrom(w, more) == Some(w')
    ensures i < |w'.sessions|
    ensures var s, s' := w.sessions[i], w'.sessions[i];
            && s.delivered <= s'.delivered
            && WriterSteps(more, i) + Pending(s') <= Pending(s) + 3 * (|s'.delivered| - |s.delivered|)
            && (s'.delivered == s.delivered ==> WriterSteps(more, i) <= Pending(s))
            && (s'.open && !Enabled(w', WriterResume(i)) && !Enabled(w', WriteSucceeded(i)) ==>
                  s'.outbox == [] && s'.writer.Parked? && s'.written == Texts(s'.delivered))
  {
    ReachableInv(password, run);
    RunIsAmortised(w, more, i);
    RunKeepsInv(w, more);
    var s' := w'.sessions[i];
    assert SessionOk(s', i in w'.participants, w'.password, w'.log);
    if s'.open && s'.outbox != [] {
      WriterCanMove(w', i);
    }
  }

  // ---------- the writer alone ----------

  /** The steps of the writer alone, with every write going through, until it parks. */
  function DrainRun(s: Session, i: nat): (run: seq<Event>)
    requires WriterOk(s) && s.open
    ensures |run| <= Pending(s)
    decreases Pending(s)
  {
    if s.writer.Parked? then []
    else if s.writer.Writing? then
      TextsAfterWrite(s);
      [WriteSucceeded(i)] + DrainRun(WriteDone(s), i)
    else [WriterResume(i)] + DrainRun(WriterLoop(s), i)
  }

  lemma TextsAfterWrite(s: Session)
    requires WriterOk(s) && s.outbox != []
    ensures WriterOk(WriteDone(s))
  {
    assert s.written + [s.outbox[0]] + s.outbox[1..] == s.written + s.outbox;
  }

  ghost predicate DrainedTo(s: Session, t: Session) {
    t == s.(outbox := [], written := s.written + s.outbox, writer := Parked)
  }

  lemma {:induction false} DrainRunDrains(w: World, i: nat)
    requires i < |w.sessions| && WriterOk(w.sessions[i]) && w.sessions[i].open
    ensures var s := w.sessions[i];
            exists t :: DrainedTo(s, t) && RunFrom(w, DrainRun(s, i)) == Some(Update(w, i, t))
    decreases Pending(w.sessions[i])
  {
    var s := w.sessions[i];
    var run := DrainRun(s, i);
    if s.writer.Parked? {
      assert s.written + [] == s.written;
      assert DrainedTo(s, s) && Update(w, i, s) == w;
    } else {
      var s' := if s.writer.Writing? then WriteDone(s) else WriterLoop(s);
      if s.writer.Writing? {
        TextsAfterWrite(s);
      }
      var w' := Update(w, i, s');
      assert w' == Next(w, run[0]) && run[1..] == DrainRun(s', i);
      DrainRunDrains(w', i);
      var t :| DrainedTo(s', t) && RunFrom(w', DrainRun(s', i)) == Some(Update(w', i, t));
      assert s'.written + s'.outbox == s.written + s.outbox;
      UpdateTwice(w, i, s');
      assert DrainedTo(s, t);
    }
  }

  /** Such a run exists: from every reachable state with the socket open the writer alone can bring everything
      handed over to the socket. */
  lemma WriterAloneDrains(password: string, run: seq<Event>, w: World, i: nat)
    requires After(password, run) == Some(w) && i < |w.sessions|
    requires w.sessions[i].open
    ensures var s := w.sessions[i];
            exists more, t :: |more| <= Pending(s) && RunFrom(w, more) == Some(Update(w, i, t))
              && t.outbox == [] && t.writer.Parked? && t.written == Texts(s.delivered) && t.delivered == s.delivered
  {
    ReachableSession(password, run, w, i);
    var s := w.sessions[i];
    DrainRunDrains(w, i);
    var t :| DrainedTo(s, t) && RunFrom(w, DrainRun(s, i)) == Some(Update(w, i, t));
  }
}
