/** What the server promises over every run, for every number of sessions and every interleaving. */
module ServerTheorems {
  import opened Wrappers
  import opened Delimiter
  import opened FrameReader
  import opened SessionId
  import opened Server
  import opened ServerInvariants
  import Handshake

  lemma ReachableSession(password: string, run: seq<Event>, w: World, i: nat)
    requires After(password, run) == Some(w) && i < |w.sessions|
    ensures SessionOk(w.sessions[i], i in w.participants, password, w.log)
  {
    ReachableInv(password, run);
    PasswordStays(password, run);
  }

  // ---------- what a session is sent ----------

  /**
   What was handed to a session whose acceptance was replayed, from the log alone: the live messages
   from its join to the private reply, the session id, the live messages up to the acceptance, the last
   hundred messages of the log at that point, and the live messages until it left (or until now).
   */
  ghost predicate AcceptedShape(s: Session, log: seq<string>)
    requires s.reply.Some? && s.replay.Some?
  {
    var j, p, a, k := s.joined, s.reply.value.0, s.replay.value, End(s, log);
    && j <= p <= a <= k <= |log|
    && s.delivered == LiveRange(log, j, p) + [Private(Print(s.sessionId))]
         + (LiveRange(log, p, a) + ReplayRange(log, if a <= 100 then 0 else a - 100, a) + LiveRange(log, a, k))
  }

  lemma AcceptedDelivery(password: string, run: seq<Event>, w: World, i: nat)
    requires After(password, run) == Some(w) && i < |w.sessions|
    requires w.sessions[i].replay.Some?
    ensures w.sessions[i].reply.Some? && AcceptedShape(w.sessions[i], w.log)
    ensures Accepted(w.sessions[i], password)
  {
    ReachableSession(password, run, w, i);
    ShapeOfAccepted(w.sessions[i], i in w.participants, password, w.log);
  }

  lemma ShapeOfAccepted(s: Session, inRoom: bool, password: string, log: seq<string>)
    requires SessionOk(s, inRoom, password, log) && s.replay.Some?
    ensures s.reply.Some? && AcceptedShape(s, log) && Accepted(s, password)
  {
    assert s.handshake.issued == [Handshake.SessionId];
    assert s.reply.value.1 == Print(s.sessionId);
  }

  /** A session that was not accepted, or had left by then, got the live messages of its stay and at
      most one reply among them, and nothing else. */
  lemma UnacceptedDelivery(password: string, run: seq<Event>, w: World, i: nat)
    requires After(password, run) == Some(w) && i < |w.sessions|
    requires w.sessions[i].replay.None?
    ensures var s := w.sessions[i];
            var j, k := s.joined, End(s, w.log);
            && j <= k <= |w.log|
            && match s.reply
               case None => s.delivered == LiveRange(w.log, j, k)
               case Some((p, text)) =>
                 && j <= p <= k
                 && |s.handshake.issued| == 1 && text == ReplyText(s.handshake.issued[0], s.sessionId)
                 && s.delivered == LiveRange(w.log, j, p) + [Private(text)] + LiveRange(w.log, p, k)
  {
    ReachableSession(password, run, w, i);
  }

  function Index(item: Item): int {
    match item
    case Live(i, _) => i
    case Private(_) => -1
    case Replay(i, _) => i
  }

  /** How often a message of the log was handed over. */
  function Occurrences(items: seq<Item>, x: int): nat {
    if items == [] then 0
    else Occurrences(items[..|items| - 1], x) + (if Index(items[|items| - 1]) == x then 1 else 0)
  }

  lemma {:induction false} OccurrencesAppend(a: seq<Item>, b: seq<Item>, x: int)
    ensures Occurrences(a + b, x) == Occurrences(a, x) + Occurrences(b, x)
  {
    if b == [] {
      assert a + b == a;
    } else {
      assert (a + b)[..|a + b| - 1] == a + b[..|b| - 1];
      OccurrencesAppend(a, b[..|b| - 1], x);
    }
  }

  lemma {:induction false} OccurrencesInRange(log: seq<string>, lo: nat, hi: nat, x: nat)
    requires lo <= hi <= |log|
    ensures Occurrences(LiveRange(log, lo, hi), x) == (if lo <= x < hi then 1 else 0)
    ensures Occurrences(ReplayRange(log, lo, hi), x) == (if lo <= x < hi then 1 else 0)
    decreases hi
  {
    if lo == hi {
    } else {
      assert LiveRange(log, lo, hi)[..hi - lo - 1] == LiveRange(log, lo, hi - 1);
      assert ReplayRange(log, lo, hi)[..hi - lo - 1] == ReplayRange(log, lo, hi - 1);
      OccurrencesInRange(log, lo, hi - 1, x);
    }
  }

  lemma OccurrencesInShape(before: seq<Item>, reply: Item, between: seq<Item>, replay: seq<Item>, after: seq<Item>, x: nat)
    requires reply.Private?
    ensures Occurrences(before + [reply] + (between + replay + after), x)
         == Occurrences(before, x) + Occurrences(between, x) + Occurrences(replay, x) + Occurrences(after, x)
  {
    OccurrencesAppend(before + [reply], between + replay + after, x);
    OccurrencesAppend(before, [reply], x);
    OccurrencesAppend(between + replay, after, x);
    OccurrencesAppend(between, replay, x);
    assert [reply][..0] == [];
    assert Occurrences([reply], x) == 0;
  }

  /** An accepted session misses nothing from a hundred messages before its acceptance on, gets nothing
      twice but what it had already seen live of those, and nothing older than both its join and those. */
  lemma HowOftenDelivered(password: string, run: seq<Event>, w: World, i: nat, x: nat)
    requires After(password, run) == Some(w) && i < |w.sessions|
    requires w.sessions[i].replay.Some?
    ensures var s := w.sessions[i];
            var j, a, k := s.joined, s.replay.value, End(s, w.log);
            var n := Occurrences(s.delivered, x);
            && (n == 2 <==> j <= x < a && a <= x + 100)
            && (n == 0 <==> k <= x || (x < j && x + 100 < a))
            && n <= 2
  {
    AcceptedDelivery(password, run, w, i);
    OccurrencesWhenAccepted(w.sessions[i], w.log, x);
  }

  lemma OccurrencesWhenAccepted(s: Session, log: seq<string>, x: nat)
    requires s.reply.Some? && s.replay.Some? && AcceptedShape(s, log)
    ensures var j, a, k := s.joined, s.replay.value, End(s, log);
            Occurrences(s.delivered, x) == (if j <= x < k then 1 else 0) + (if x < a <= x + 100 then 1 else 0)
  {
    var j, p, a, k := s.joined, s.reply.value.0, s.replay.value, End(s, log);
    OccurrencesInPieces(log, j, p, if a <= 100 then 0 else a - 100, a, k, Private(Print(s.sessionId)), x);
  }

  lemma OccurrencesInPieces(log: seq<string>, j: nat, p: nat, from: nat, a: nat, k: nat, reply: Item, x: nat)
    requires j <= p <= a <= k <= |log| && from <= a && reply.Private?
    ensures Occurrences(LiveRange(log, j, p) + [reply]
              + (LiveRange(log, p, a) + ReplayRange(log, from, a) + LiveRange(log, a, k)), x)
         == (if j <= x < k then 1 else 0) + (if from <= x < a then 1 else 0)
  {
    OccurrencesInShape(LiveRange(log, j, p), reply, LiveRange(log, p, a), ReplayRange(log, from, a), LiveRange(log, a, k), x);
    OccurrencesInRange(log, j, p, x);
    OccurrencesInRange(log, p, a, x);
    OccurrencesInRange(log, from, a, x);
    OccurrencesInRange(log, a, k, x);
  }

  /** The live broadcasts among what a session was handed. */
  function LiveOnly(items: seq<Item>): seq<Item> {
    if items == [] then []
    else LiveOnly(items[..|items| - 1]) + (if items[|items| - 1].Live? then [items[|items| - 1]] else [])
  }

  lemma {:induction false} LiveOnlyAppend(a: seq<Item>, b: seq<Item>)
    ensures LiveOnly(a + b) == LiveOnly(a) + LiveOnly(b)
  {
    if b == [] {
      assert a + b == a;
    } else {
      assert (a + b)[..|a + b| - 1] == a + b[..|b| - 1];
      LiveOnlyAppend(a, b[..|b| - 1]);
    }
  }

  lemma {:induction false} LiveOnlyOfRange(log: seq<string>, lo: nat, hi: nat)
    requires lo <= hi <= |log|
    ensures LiveOnly(LiveRange(log, lo, hi)) == LiveRange(log, lo, hi)
    ensures LiveOnly(ReplayRange(log, lo, hi)) == []
    decreases hi
  {
    if lo == hi {
    } else {
      assert LiveRange(log, lo, hi)[..hi - lo - 1] == LiveRange(log, lo, hi - 1);
      assert ReplayRange(log, lo, hi)[..hi - lo - 1] == ReplayRange(log, lo, hi - 1);
      LiveOnlyOfRange(log, lo, hi - 1);
      assert LiveRange(log, lo, hi) == LiveRange(log, lo, hi - 1) + [Live(hi - 1, log[hi - 1])];
    }
  }

  lemma JoinRanges(log: seq<string>, lo: nat, mid: nat, hi: nat)
    requires lo <= mid <= hi <= |log|
    ensures LiveRange(log, lo, mid) + LiveRange(log, mid, hi) == LiveRange(log, lo, hi)
  {
  }

  lemma LiveOnlyOfPrivate(reply: Item)
    requires reply.Private?
    ensures LiveOnly([reply]) == []
  {
    assert [reply][..0] == [];
  }

  lemma NothingBetween(a: seq<Item>, b: seq<Item>)
    requires b == []
    ensures a + b == a
  {
  }

  lemma LiveOnlyAround(before: seq<Item>, reply: Item, rest: seq<Item>)
    requires reply.Private?
    ensures LiveOnly(before + [reply] + rest) == LiveOnly(before) + LiveOnly(rest)
  {
    LiveOnlyAppend(before + [reply], rest);
    LiveOnlyAppend(before, [reply]);
    LiveOnlyOfPrivate(reply);
    NothingBetween(LiveOnly(before), LiveOnly([reply]));
  }

  lemma LiveOnlyWithReplay(log: seq<string>, p: nat, from: nat, a: nat, k: nat)
    requires p <= a <= k <= |log| && from <= a
    ensures LiveOnly(LiveRange(log, p, a) + ReplayRange(log, from, a) + LiveRange(log, a, k)) == LiveRange(log, p, k)
  {
    var between, replay, after := LiveRange(log, p, a), ReplayRange(log, from, a), LiveRange(log, a, k);
    LiveOnlyAppend(between + replay, after);
    LiveOnlyAppend(between, replay);
    LiveOnlyOfRange(log, p, a);
    LiveOnlyOfRange(log, from, a);
    LiveOnlyOfRange(log, a, k);
    JoinRanges(log, p, a, k);
    assert between + [] == between;
  }

  /** The live broadcasts a session sees are one stretch of the log, whatever else comes between them. */
  lemma LiveIsOneStretch(s: Session, log: seq<string>)
    requires Ordered(s, log) && s.delivered == Expected(s, log)
    ensures LiveOnly(s.delivered) == LiveRange(log, s.joined, End(s, log))
  {
    var j, k := s.joined, End(s, log);
    if s.reply.None? {
      LiveOnlyOfRange(log, j, k);
    } else {
      var p, reply := s.reply.value.0, Private(s.reply.value.1);
      LiveOnlyOfRange(log, j, p);
      JoinRanges(log, j, p, k);
      if s.replay.None? {
        LiveOnlyOfRange(log, p, k);
        LiveOnlyAround(LiveRange(log, j, p), reply, LiveRange(log, p, k));
      } else {
        var a := s.replay.value;
        var from := ReplayFrom(a);
        LiveOnlyWithReplay(log, p, from, a, k);
        LiveOnlyAround(LiveRange(log, j, p), reply,
                       LiveRange(log, p, a) + ReplayRange(log, from, a) + LiveRange(log, a, k));
      }
    }
  }

  lemma LiveAtItsDistance(password: string, run: seq<Event>, w: World, i: nat, x: nat)
    requires After(password, run) == Some(w) && i < |w.sessions|
    requires w.sessions[i].joined <= x < End(w.sessions[i], w.log)
    ensures var s := w.sessions[i];
            var live := LiveOnly(s.delivered);
            x < |w.log| && x - s.joined < |live| && live[x - s.joined] == Live(x, w.log[x])
  {
    ReachableSession(password, run, w, i);
    LiveIsOneStretch(w.sessions[i], w.log);
  }

  /** Two sessions see the live broadcasts of their common stay in the same order: a message of it comes
      at its distance from their join in each. */
  lemma SameOrderForAll(password: string, run: seq<Event>, w: World, i: nat, i': nat, x: nat)
    requires After(password, run) == Some(w) && i < |w.sessions| && i' < |w.sessions|
    requires w.sessions[i].joined <= x < End(w.sessions[i], w.log)
    requires w.sessions[i'].joined <= x < End(w.sessions[i'], w.log)
    ensures var s, s' := w.sessions[i], w.sessions[i'];
            var live, live' := LiveOnly(s.delivered), LiveOnly(s'.delivered);
            && x - s.joined < |live| && x - s'.joined < |live'| && x < |w.log|
            && live[x - s.joined] == live'[x - s'.joined] == Live(x, w.log[x])
  {
    LiveAtItsDistance(password, run, w, i, x);
    LiveAtItsDistance(password, run, w, i', x);
  }

  // ---------- who may speak ----------

  /** The log grows only when the reader of an accepted session has read a frame. */
  lemma OnlyAcceptedReadersBroadcast(w: World, e: Event)
    requires Inv(w) && Enabled(w, e)
    ensures Next(w, e).log == w.log
         || (&& e.FrameRead?
             && Accepted(w.sessions[e.i], w.password)
             && Next(w, e).log == w.log + [Broadcast(w.sessions[e.i].readMsg)]
             && Next(w, e).authors == w.authors + [e.i])
    ensures Next(w, e).log == w.log ==> Next(w, e).authors == w.authors
  {
    match e
    case HandshakeStep(i, step, buffer) => HandshakeEffect(w, i, step, buffer);
    case FrameRead(i) => ReaderIsAccepted(w.sessions[i], i in w.participants, w.password, w.log);
    case Connect(_) =>
    case WriterResume(_) =>
    case WriteSucceeded(_) =>
    case WriteFailed(_) =>
    case ReaderStart(_) =>
    case BytesRead(_, _) =>
    case ReadFailed(_) =>
  }

  /** Message `x` of the log was broadcast by step `n` of the run, out of the read buffer of a session
      that knew the password and whose handshake had already ended with an acceptance. */
  ghost predicate BroadcastAt(password: string, run: seq<Event>, n: nat, x: nat, msg: string, author: nat)
    requires n < |run|
  {
    && After(password, run[..n]).Some?
    && var w := After(password, run[..n]).value;
    && |w.log| == x
    && run[n] == FrameRead(author) && Enabled(w, run[n])
    && Accepted(w.sessions[author], password)
    && msg == Broadcast(w.sessions[author].readMsg)
  }

  /** The last step of a run either leaves the log alone or adds one gated message to it. */
  lemma GateStep(password: string, run: seq<Event>, w: World) returns (w0: World)
    requires run != [] && After(password, run) == Some(w)
    ensures After(password, run[..|run| - 1]) == Some(w0)
    ensures |w0.authors| == |w0.log| <= |w.authors| == |w.log| <= |w0.log| + 1
    ensures w.log[..|w0.log|] == w0.log && w.authors[..|w0.log|] == w0.authors
    ensures |w0.log| < |w.log| ==>
              BroadcastAt(password, run, |run| - 1, |w0.log|, w.log[|w0.log|], w.authors[|w0.log|])
  {
    var init, e := run[..|run| - 1], run[|run| - 1];
    LastStep(password, run);
    w0 := After(password, init).value;
    ReachableInv(password, init);
    PasswordStays(password, init);
    OnlyAcceptedReadersBroadcast(w0, e);
  }

  lemma GateStays(password: string, run: seq<Event>, n: nat, x: nat, msg: string, author: nat)
    requires n < |run| - 1 && BroadcastAt(password, run[..|run| - 1], n, x, msg, author)
    ensures BroadcastAt(password, run, n, x, msg, author)
  {
    assert run[..|run| - 1][..n] == run[..n];
  }

  ghost predicate Gated(password: string, run: seq<Event>, x: nat, msg: string, author: nat) {
    exists n :: 0 <= n < |run| && BroadcastAt(password, run, n, x, msg, author)
  }

  lemma GatedStays(password: string, run: seq<Event>, x: nat, msg: string, author: nat)
    requires run != [] && Gated(password, run[..|run| - 1], x, msg, author)
    ensures Gated(password, run, x, msg, author)
  {
    var init := run[..|run| - 1];
    var n :| 0 <= n < |init| && BroadcastAt(password, init, n, x, msg, author);
    GateStays(password, run, n, x, msg, author);
  }

  /** Every message of the log came through the gate. */
  lemma {:induction false} AcceptanceGate(password: string, run: seq<Event>, w: World, x: nat)
    requires After(password, run) == Some(w) && x < |w.log|
    ensures |w.authors| == |w.log| && Gated(password, run, x, w.log[x], w.authors[x])
  {
    var w0 := GateStep(password, run, w);
    if x < |w0.log| {
      AcceptanceGate(password, run[..|run| - 1], w0, x);
      assert w.log[..|w0.log|][x] == w0.log[x] && w.authors[..|w0.log|][x] == w0.authors[x];
      GatedStays(password, run, x, w.log[x], w.authors[x]);
    } else {
      assert BroadcastAt(password, run, |run| - 1, x, w.log[x], w.authors[x]);
    }
  }

  // ---------- the life of a session ----------

  /** Socket open, not stopped, in the room: these are the same; the socket is closed once at most. */
  lemma Lifecycle(password: string, run: seq<Event>, w: World, i: nat)
    requires After(password, run) == Some(w) && i < |w.sessions|
    ensures var s := w.sessions[i];
            && (s.open <==> !s.stopped) && (i in w.participants <==> !s.stopped)
            && s.closes == (if s.stopped then 1 else 0)
            && (s.left.Some? <==> s.stopped)
  {
    ReachableSession(password, run, w, i);
  }

  ghost predicate StillStopped(s: Session, t: Session) {
    t.stopped && t.delivered == s.delivered && t.closes == s.closes && t.left == s.left
  }

  lemma HandshakeAfterStop(w: World, i: nat, step: Handshake.Event, buffer: string)
    requires i < |w.sessions| && Handshake.Enabled(w.sessions[i].handshake, step)
    requires w.sessions[i].stopped && i !in w.participants
    ensures var w' := AfterHandshake(w, i, step, buffer);
            |w'.sessions| == |w.sessions| && StillStopped(w.sessions[i], w'.sessions[i])
  {
  }

  lemma HandshakeLeavesOthers(w: World, i: nat, step: Handshake.Event, buffer: string, k: nat)
    requires i < |w.sessions| && Handshake.Enabled(w.sessions[i].handshake, step)
    requires k < |w.sessions| && k != i
    ensures var w' := AfterHandshake(w, i, step, buffer);
            |w'.sessions| == |w.sessions| && w'.sessions[k] == w.sessions[k]
  {
  }

  lemma FrameAfterStop(w: World, author: nat, i: nat)
    requires author < |w.sessions| && FrameEnd(w.sessions[author].readMsg) != 0
    requires i < |w.sessions| && w.sessions[i].stopped && i !in w.participants
    ensures |AfterFrame(w, author).sessions| == |w.sessions|
    ensures StillStopped(w.sessions[i], AfterFrame(w, author).sessions[i])
  {
  }

  lemma StopAfterStop(w: World, k: nat, t: Session, i: nat)
    requires k < |w.sessions| && i < |w.sessions| && w.sessions[i].stopped
    requires StillStopped(w.sessions[k], t) || !w.sessions[k].stopped
    ensures |Stop(Update(w, k, t), k).sessions| == |w.sessions|
    ensures StillStopped(w.sessions[i], Stop(Update(w, k, t), k).sessions[i])
  {
  }

  lemma StepAfterStop(w: World, e: Event, i: nat)
    requires Inv(w) && Enabled(w, e) && i < |w.sessions| && w.sessions[i].stopped
    ensures i < |Next(w, e).sessions| && StillStopped(w.sessions[i], Next(w, e).sessions[i])
  {
    assert i !in w.participants by {
      assert SessionOk(w.sessions[i], i in w.participants, w.password, w.log);
    }
    match e
    case Connect(_) =>
    case HandshakeStep(k, step, buffer) =>
      if k == i {
        HandshakeAfterStop(w, i, step, buffer);
      } else {
        HandshakeLeavesOthers(w, k, step, buffer, i);
      }
    case FrameRead(k) => FrameAfterStop(w, k, i);
    case WriteFailed(k) => StopAfterStop(w, k, w.sessions[k].(writer := WriterGone), i);
    case ReadFailed(k) => StopAfterStop(w, k, w.sessions[k].(reader := ReaderGone), i);
    case WriterResume(k) =>
    case WriteSucceeded(k) =>
    case ReaderStart(k) =>
    case BytesRead(k, chunk) =>
  }

  /** Once a session has stopped, no continuation hands it anything more, closes its socket again or
      lets it leave again, whichever of its coroutines are still to run. */
  lemma {:induction false} StoppedForGood(w: World, run: seq<Event>, i: nat)
    requires Inv(w) && i < |w.sessions| && w.sessions[i].stopped && RunFrom(w, run).Some?
    ensures i < |RunFrom(w, run).value.sessions|
    ensures StillStopped(w.sessions[i], RunFrom(w, run).value.sessions[i])
    decreases |run|
  {
    if run == [] {
    } else {
      StepKeepsInv(w, run[0]);
      StepAfterStop(w, run[0], i);
      StoppedForGood(Next(w, run[0]), run[1..], i);
    }
  }

  // ---------- the session nobody stops ----------

  /** The handshake of this session is over, and the session was told nothing. */
  ghost predicate Abandoned(s: Session) {
    s.handshake.connect.Ended? && s.handshake.completions == []
  }

  lemma NoMoreHandshake(h: Handshake.State, step: Handshake.Event)
    requires Handshake.Inv(h) && h.connect.Ended?
    ensures !Handshake.Enabled(h, step)
  {
  }

  lemma HandshakeKeepsAbandoned(w: World, k: nat, step: Handshake.Event, buffer: string, i: nat)
    requires Inv(w) && Enabled(w, HandshakeStep(k, step, buffer)) && i < |w.sessions|
    requires Abandoned(w.sessions[i]) && i in w.participants
    ensures var w' := AfterHandshake(w, k, step, buffer);
            |w'.sessions| == |w.sessions| && Abandoned(w'.sessions[i]) && i in w'.participants
  {
    assert SessionOk(w.sessions[i], true, w.password, w.log);
    if k == i {
      NoMoreHandshake(w.sessions[i].handshake, step);
    } else {
      HandshakeLeavesOthers(w, k, step, buffer, i);
    }
  }

  lemma FrameKeepsAbandoned(w: World, k: nat, i: nat)
    requires k < |w.sessions| && i < |w.sessions| && FrameEnd(w.sessions[k].readMsg) != 0
    requires Abandoned(w.sessions[i]) && i in w.participants
    ensures var w' := AfterFrame(w, k);
            |w'.sessions| == |w.sessions| && Abandoned(w'.sessions[i]) && i in w'.participants
  {
  }

  lemma StopKeepsAbandoned(w: World, k: nat, t: Session, i: nat)
    requires k < |w.sessions| && i < |w.sessions| && k != i
    requires Abandoned(w.sessions[i]) && i in w.participants
    ensures var w' := Stop(Update(w, k, t), k);
            |w'.sessions| == |w.sessions| && Abandoned(w'.sessions[i]) && i in w'.participants
  {
  }

  lemma StepKeepsAbandoned(w: World, e: Event, i: nat)
    requires Inv(w) && Enabled(w, e) && i < |w.sessions| && e != WriteFailed(i)
    requires Abandoned(w.sessions[i]) && i in w.participants
    ensures i < |Next(w, e).sessions| && Abandoned(Next(w, e).sessions[i]) && i in Next(w, e).participants
  {
    assert SessionOk(w.sessions[i], true, w.password, w.log);
    match e
    case HandshakeStep(k, step, buffer) => HandshakeKeepsAbandoned(w, k, step, buffer, i);
    case FrameRead(k) => FrameKeepsAbandoned(w, k, i);
    case WriteFailed(k) => StopKeepsAbandoned(w, k, w.sessions[k].(writer := WriterGone), i);
    case ReadFailed(k) => StopKeepsAbandoned(w, k, w.sessions[k].(reader := ReaderGone), i);
    case Connect(_) =>
    case WriterResume(_) =>
    case WriteSucceeded(_) =>
    case ReaderStart(_) =>
    case BytesRead(_, _) =>
  }

  lemma FailedWriteStops(w: World, i: nat)
    requires Enabled(w, WriteFailed(i))
    ensures i < |Next(w, WriteFailed(i)).sessions| && Next(w, WriteFailed(i)).sessions[i].stopped
  {
  }

  lemma {:induction false} AbandonedRun(w: World, more: seq<Event>, i: nat)
    requires Inv(w) && i < |w.sessions| && Abandoned(w.sessions[i]) && i in w.participants
    requires RunFrom(w, more).Some?
    ensures var w' := RunFrom(w, more).value;
            && Inv(w') && i < |w'.sessions|
            && (i in w'.participants <==> WriteFailed(i) !in more)
            && (i in w'.participants ==> Abandoned(w'.sessions[i]))
    decreases |more|
  {
    if more == [] {
    } else {
      var e, rest := more[0], more[1..];
      assert more == [e] + rest;
      StepKeepsInv(w, e);
      if e == WriteFailed(i) {
        FailedWriteStops(w, i);
        StoppedForGood(Next(w, e), rest, i);
        RunKeepsInv(Next(w, e), rest);
        var w' := RunFrom(w, more).value;
        assert SessionOk(w'.sessions[i], i in w'.participants, w'.password, w'.log);
      } else {
        StepKeepsAbandoned(w, e, i);
        AbandonedRun(Next(w, e), rest, i);
      }
    }
  }

  /** A session that was told nothing is never stopped by its handshake: over every continuation it stays in the
      room exactly until one of its writes fails, and until then it has been handed every broadcast since its
      join, with the time-out reply among them. */
  lemma AbandonedSessionStays(password: string, run: seq<Event>, w: World, i: nat, more: seq<Event>, w': World)
    requires After(password, run) == Some(w) && i < |w.sessions| && RunFrom(w, more) == Some(w')
    requires Abandoned(w.sessions[i]) && i in w.participants
    ensures i < |w'.sessions| && (i in w'.participants <==> WriteFailed(i) !in more)
    ensures i in w'.participants ==>
              var s := w'.sessions[i];
              && s.open && s.reply.Some? && s.joined <= s.reply.value.0 <= |w'.log|
              && s.delivered == LiveRange(w'.log, s.joined, s.reply.value.0) + [Private("[timeout]")]
                                + LiveRange(w'.log, s.reply.value.0, |w'.log|)
  {
    ReachableInv(password, run);
    AbandonedRun(w, more, i);
    if i in w'.participants {
      var s := w'.sessions[i];
      assert SessionOk(s, true, w'.password, w'.log);
      Handshake.InvIsSafe(s.handshake);
    }
  }

  /** What the race of the handshake guarantees holds of every session of the server. */
  lemma EveryHandshakeIsSafe(password: string, run: seq<Event>, w: World, i: nat)
    requires After(password, run) == Some(w) && i < |w.sessions|
    ensures Handshake.Safe(w.sessions[i].handshake)
    ensures w.sessions[i].handshake.issued == [Handshake.SessionId] ==> KnowsPassword(w.sessions[i], password)
  {
    ReachableSession(password, run, w, i);
    Handshake.InvIsSafe(w.sessions[i].handshake);
  }

  // ---------- bounds ----------

  /** The bounded history is the end of the unbounded log. */
  lemma HistoryRefinesLog(password: string, run: seq<Event>, w: World)
    requires After(password, run) == Some(w)
    ensures |w.recent| == (if |w.log| <= 100 then |w.log| else 100) && w.recent == w.log[|w.log| - |w.recent|..]
  {
    ReachableInv(password, run);
  }

  function Bytes(msgs: seq<string>): nat {
    if msgs == [] then 0 else Bytes(msgs[..|msgs| - 1]) + |msgs[|msgs| - 1]|
  }

  lemma {:induction false} BytesBound(msgs: seq<string>, max: nat)
    requires forall x :: 0 <= x < |msgs| ==> |msgs[x]| <= max
    ensures Bytes(msgs) <= |msgs| * max
  {
    if msgs == [] {
    } else {
      BytesBound(msgs[..|msgs| - 1], max);
      assert |msgs| * max == (|msgs| - 1) * max + max;
    }
  }

  /** Read buffers hold at most 1024 chars, messages 1022, the history 102200, and a replay 102400. */
  lemma ByteBounds(password: string, run: seq<Event>, w: World)
    requires After(password, run) == Some(w)
    ensures forall i :: 0 <= i < |w.sessions| ==> |w.sessions[i].readMsg| <= 1024
    ensures forall x :: 0 <= x < |w.log| ==> |w.log[x]| <= 1022
    ensures Bytes(w.recent) <= 102200
    ensures Bytes(Texts(ReplayItems(|w.log| - |w.recent|, w.recent))) <= 102400
  {
    ReachableInv(password, run);
    forall i | 0 <= i < |w.sessions|
      ensures |w.sessions[i].readMsg| <= 1024
    {
      assert SessionOk(w.sessions[i], i in w.participants, w.password, w.log);
    }
    BytesBound(w.recent, 1022);
    BytesBound(Texts(ReplayItems(|w.log| - |w.recent|, w.recent)), 1024);
  }
}
