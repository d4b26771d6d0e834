/**
 The acceptance handshake of one connection: two coroutines that race under asio's `&&`, and the
 coroutine that joins them. Control changes hands only at a co_await, so a step of the model is
 one resumption: everything a coroutine does from one co_await to the next.

 Assumed of asio: `a && b` waits for both sides and cancels the other one when a side throws; a
 cancelled side may be resumed with operation_aborted at any wait, or with success when the wait
 had already completed, and may be stopped at the next co_await; one exception is rethrown as it
 is, two are raised as a type that is not a system_error.
 */
module Handshake {
  import opened Wrappers

  datatype Reply = SessionId | Reject | Timeout

  datatype Failure = OperationAborted | ConnectionRefused | TimedOut | SocketError

  /** Where perform_password_handshake is. */
  datatype PasswordTask =
    | AwaitingPassword
    | FlushingReject
    | FlushingId
    | PasswordDone
    | PasswordThrew(failure: Failure)

  /** Where countdown_timer is. */
  datatype CountdownTask =
    | AwaitingTimer
    | FlushingTimeout
    | CountdownDone
    | CountdownThrew(failure: Failure)

  /** Where try_connect is. */
  datatype ConnectTask = AwaitingBoth | FlushingSession | Ended

  datatype State = State(
    shouldAccept: bool,          // m_should_accept
    terminating: bool,           // m_is_terminating
    timerCancelled: bool,        // timer.cancel() was called
    password: PasswordTask,
    countdown: CountdownTask,
    connect: ConnectTask,
    issued: seq<Reply>,          // calls of deliver_private
    completions: seq<bool>       // calls of completion_token
  )

  const INIT: State := State(false, false, false, AwaitingPassword, AwaitingTimer, AwaitingBoth, [], [])

  /** How async_read_password ends: with a frame that does or does not match the password,
      aborted (cancelled, or the socket was closed), or with another error. */
  datatype ReadResult = Frame(matches: bool) | ReadAborted | ReadFailed

  /** A resumption. `interrupted`: the coroutine was cancelled, and its next co_await throws. */
  datatype Event =
    | PasswordRead(result: ReadResult, interrupted: bool)
    | PasswordFlushed(aborted: bool)
    | TimerDone(fired: bool, interrupted: bool)
    | TimeoutFlushed(aborted: bool)
    | BothDone
    | SessionFlushed

  predicate PasswordEnded(h: State) { h.password.PasswordDone? || h.password.PasswordThrew? }

  predicate CountdownEnded(h: State) { h.countdown.CountdownDone? || h.countdown.CountdownThrew? }

  predicate Enabled(h: State, e: Event) {
    match e
    case PasswordRead(_, interrupted) =>
      h.password.AwaitingPassword? && (interrupted ==> h.countdown.CountdownThrew?)
    case PasswordFlushed(aborted) =>
      (h.password.FlushingReject? || h.password.FlushingId?) && (aborted ==> h.countdown.CountdownThrew?)
    case TimerDone(fired, interrupted) =>
      && h.countdown.AwaitingTimer?
      && (!fired ==> h.timerCancelled || h.password.PasswordThrew?)
      && (interrupted ==> h.password.PasswordThrew?)
    case TimeoutFlushed(aborted) =>
      h.countdown.FlushingTimeout? && (aborted ==> h.password.PasswordThrew?)
    case BothDone =>
      h.connect.AwaitingBoth? && PasswordEnded(h) && CountdownEnded(h)
    case SessionFlushed =>
      h.connect.FlushingSession?
  }

  /** reject_connection up to its flush wait. */
  function RejectConnection(h: State, interrupted: bool): State {
    if interrupted then h.(password := PasswordThrew(OperationAborted))
    else if h.terminating then h.(password := PasswordDone)
    else h.(terminating := true, issued := h.issued + [Reject], password := FlushingReject)
  }

  /** accept_connection up to its flush wait. */
  function AcceptConnection(h: State, interrupted: bool): State {
    if interrupted then h.(password := PasswordThrew(OperationAborted))
    else if h.terminating then h.(password := PasswordDone)
    else h.(issued := h.issued + [SessionId], password := FlushingId)
  }

  /** perform_password_handshake after the read. */
  function AfterRead(h: State, result: ReadResult, interrupted: bool): State {
    if result.ReadFailed? then h.(password := PasswordThrew(SocketError))
    else
      var h := h.(shouldAccept := result == Frame(true));
      if !h.shouldAccept && !h.terminating then RejectConnection(h.(timerCancelled := true), interrupted)
      else if h.shouldAccept then AcceptConnection(h.(timerCancelled := true), interrupted)
      else h.(password := PasswordDone)
  }

  /** timeout_connection up to its flush wait. */
  function TimeoutConnection(h: State): State {
    if h.terminating then h.(countdown := CountdownDone)
    else h.(terminating := true, issued := h.issued + [Timeout], countdown := FlushingTimeout)
  }

  /** countdown_timer after its wait; operation_aborted is swallowed. */
  function AfterTimer(h: State, fired: bool, interrupted: bool): State {
    if fired && !interrupted && !h.shouldAccept && !h.terminating then TimeoutConnection(h)
    else h.(countdown := CountdownDone)
  }

  /** try_connect when both sides have ended. */
  function AfterBoth(h: State): State {
    if h.password.PasswordThrew? && h.countdown.CountdownThrew? then h.(connect := Ended)
    else if h.password.PasswordThrew? || h.countdown.CountdownThrew? then
      h.(connect := Ended, completions := h.completions + [false])
    else h.(connect := FlushingSession)
  }

  function Next(h: State, e: Event): State
    requires Enabled(h, e)
  {
    match e
    case PasswordRead(result, interrupted) => AfterRead(h, result, interrupted)
    case PasswordFlushed(aborted) =>
      if aborted then h.(password := PasswordThrew(OperationAborted))
      else if h.password.FlushingReject? then h.(password := PasswordThrew(ConnectionRefused))
      else h.(password := PasswordDone)
    case TimerDone(fired, interrupted) => AfterTimer(h, fired, interrupted)
    case TimeoutFlushed(aborted) =>
      if aborted then h.(countdown := CountdownDone) else h.(countdown := CountdownThrew(TimedOut))
    case BothDone => AfterBoth(h)
    case SessionFlushed => h.(connect := Ended, completions := h.completions + [true])
  }

  /** The state after a run from INIT; None when some step of it cannot happen. */
  function After(run: seq<Event>): Option<State> {
    if run == [] then Some(INIT)
    else
      match After(run[..|run| - 1])
      case None => None
      case Some(h) =>
        var e := run[|run| - 1];
        if Enabled(h, e) then Some(Next(h, e)) else None
  }

  // ---------- what every interleaving keeps ----------

  /** Nothing but this reply was issued. */
  ghost predicate Only(h: State, reply: Reply) {
    |h.issued| == 1 && h.issued[0] == reply
  }

  ghost predicate IssuedOk(h: State) {
    || (&& h.issued == []
        && (h.password.AwaitingPassword? || h.password.PasswordThrew?)
        && !h.terminating && !h.shouldAccept
        && (h.countdown.AwaitingTimer? || (h.countdown.CountdownDone? && h.password.PasswordThrew?)))
    || (&& Only(h, SessionId)
        && !h.terminating && h.shouldAccept && h.timerCancelled
        && (h.password.FlushingId? || h.password.PasswordDone?)
        && (h.countdown.AwaitingTimer? || h.countdown.CountdownDone?))
    || (&& Only(h, Reject)
        && h.terminating && !h.shouldAccept && h.timerCancelled
        && (h.password.FlushingReject? || h.password == PasswordThrew(ConnectionRefused))
        && (h.countdown.AwaitingTimer? || h.countdown.CountdownDone?))
    || (&& Only(h, Timeout)
        && h.terminating
        && !h.password.FlushingReject? && !h.password.FlushingId?
        && (|| h.countdown.FlushingTimeout?
            || h.countdown == CountdownThrew(TimedOut)
            || (h.countdown.CountdownDone? && h.password.PasswordThrew?)))
  }

  ghost predicate ConnectOk(h: State) {
    match h.connect
    case AwaitingBoth => h.completions == []
    case FlushingSession => h.completions == [] && h.password.PasswordDone? && h.countdown.CountdownDone?
    case Ended =>
      var threw, threw' := h.password.PasswordThrew?, h.countdown.CountdownThrew?;
      && PasswordEnded(h) && CountdownEnded(h)
      && (if threw && threw' then h.completions == []
          else |h.completions| == 1 && h.completions[0] == !(threw || threw'))
  }

  ghost predicate Inv(h: State) {
    && IssuedOk(h)
    && ConnectOk(h)
    && (h.password.AwaitingPassword? ==> !h.shouldAccept && !h.timerCancelled)
  }

  lemma PasswordStepKeepsInv(h: State, e: Event)
    requires Inv(h) && Enabled(h, e) && (e.PasswordRead? || e.PasswordFlushed?)
    ensures Inv(Next(h, e))
  {
  }

  lemma TimerStepKeepsInv(h: State, e: Event)
    requires Inv(h) && Enabled(h, e) && (e.TimerDone? || e.TimeoutFlushed?)
    ensures Inv(Next(h, e))
  {
  }

  lemma ConnectStepKeepsInv(h: State, e: Event)
    requires Inv(h) && Enabled(h, e) && (e.BothDone? || e.SessionFlushed?)
    ensures Inv(Next(h, e))
  {
  }

  lemma StepKeepsInv(h: State, e: Event)
    requires Inv(h) && Enabled(h, e)
    ensures Inv(Next(h, e))
  {
    match e
    case PasswordRead(_, _) => PasswordStepKeepsInv(h, e);
    case PasswordFlushed(_) => PasswordStepKeepsInv(h, e);
    case TimerDone(_, _) => TimerStepKeepsInv(h, e);
    case TimeoutFlushed(_) => TimerStepKeepsInv(h, e);
    case BothDone => ConnectStepKeepsInv(h, e);
    case SessionFlushed => ConnectStepKeepsInv(h, e);
  }

  /** A step issues the one reply, or calls the completion token, or does neither. */
  ghost predicate StepShape(h: State, n: State) {
    && h.completions == []
    && (|| (n.issued == h.issued && n.completions == [])
        || (h.issued == [] && |n.issued| == 1 && n.completions == [])
        || (n.issued == h.issued && |n.completions| == 1 && (n.completions[0] ==> Only(n, SessionId))))
  }

  lemma StepHasShape(h: State, e: Event)
    requires Inv(h) && Enabled(h, e)
    ensures StepShape(h, Next(h, e))
  {
    match e
    case PasswordRead(_, _) => PasswordStepShape(h, e);
    case PasswordFlushed(_) => PasswordStepShape(h, e);
    case TimerDone(_, _) => TimerStepShape(h, e);
    case TimeoutFlushed(_) => TimerStepShape(h, e);
    case BothDone =>
    case SessionFlushed =>
  }

  lemma PasswordStepShape(h: State, e: Event)
    requires Inv(h) && Enabled(h, e) && (e.PasswordRead? || e.PasswordFlushed?)
    ensures StepShape(h, Next(h, e))
  {
  }

  lemma TimerStepShape(h: State, e: Event)
    requires Inv(h) && Enabled(h, e) && (e.TimerDone? || e.TimeoutFlushed?)
    ensures StepShape(h, Next(h, e))
  {
  }

  lemma {:induction false} ReachableInv(run: seq<Event>)
    requires After(run).Some?
    ensures Inv(After(run).value)
  {
    if run == [] {
    } else {
      var prefix := run[..|run| - 1];
      ReachableInv(prefix);
      StepKeepsInv(After(prefix).value, run[|run| - 1]);
    }
  }

  /** At most one reply is ever issued, and the password's answer calls the timer off; the completion token is called at most once, with true only
      after the session id was issued, and never with false after that. When the handshake is over it
      was called exactly once, unless both sides threw, which takes a time-out. */
  ghost predicate Safe(h: State) {
    && |h.issued| <= 1
    && |h.completions| <= 1
    && (true in h.completions ==> h.issued == [SessionId])
    && (h.issued == [SessionId] ==> false !in h.completions && h.shouldAccept)
    && (h.issued == [SessionId] || h.issued == [Reject] ==> h.timerCancelled)
    && (h.connect.Ended? ==>
          && (h.completions == [true] <==> h.issued == [SessionId])
          && (h.completions == [] <==> h.password.PasswordThrew? && h.countdown.CountdownThrew?)
          && (h.completions == [] ==> h.issued == [Timeout]))
  }

  lemma InvIsSafe(h: State)
    requires Inv(h)
    ensures Safe(h)
  {
    assert h.issued == [SessionId] <==> Only(h, SessionId);
    assert h.issued == [Reject] <==> Only(h, Reject);
    assert h.issued == [Timeout] <==> Only(h, Timeout);
    assert h.completions == [true] <==> |h.completions| == 1 && h.completions[0];
  }

  lemma IssuingStep(h: State, e: Event)
    requires Inv(h) && Enabled(h, e)
    ensures Next(h, e).issued == [SessionId]
       <==> h.issued == [SessionId] || (e == PasswordRead(Frame(true), false) && !h.terminating)
  {
    assert Next(h, e).issued == [SessionId] <==> Only(Next(h, e), SessionId);
  }

  /** Resumption i of the run reads a frame that matches, before any reply. */
  ghost predicate MatchesInTime(run: seq<Event>, i: nat)
    requires i < |run|
  {
    && run[i] == PasswordRead(Frame(true), false)
    && After(run[..i]).Some?
    && !After(run[..i]).value.terminating
  }

  ghost predicate SomeMatchInTime(run: seq<Event>) {
    exists i :: 0 <= i < |run| && MatchesInTime(run, i)
  }

  lemma SomeMatchInTimeSnoc(run: seq<Event>)
    requires run != []
    ensures SomeMatchInTime(run) <==> SomeMatchInTime(run[..|run| - 1]) || MatchesInTime(run, |run| - 1)
  {
    var init := run[..|run| - 1];
    forall i | 0 <= i < |init|
      ensures MatchesInTime(init, i) <==> MatchesInTime(run, i)
    {
      assert init[..i] == run[..i];
    }
    if SomeMatchInTime(init) {
      var i :| 0 <= i < |init| && MatchesInTime(init, i);
      assert MatchesInTime(run, i);
    }
  }

  /** The session id is issued exactly in the runs with a matching frame read before the time-out reply. */
  lemma {:induction false} SessionIdNeedsMatch(run: seq<Event>)
    requires After(run).Some?
    ensures After(run).value.issued == [SessionId] <==> SomeMatchInTime(run)
  {
    if run == [] {
    } else {
      var init, e := run[..|run| - 1], run[|run| - 1];
      ReachableInv(init);
      SessionIdNeedsMatch(init);
      SomeMatchInTimeSnoc(run);
      IssuingStep(After(init).value, e);
    }
  }

  /** A resumption after the password read that makes its side throw even once the time-out reply is out:
      the read failed, or it matched but the side had been cancelled. */
  predicate ReadThrows(e: Event) {
    e.PasswordRead? && (e.result.ReadFailed? || (e.result == Frame(true) && e.interrupted))
  }

  ghost predicate SomeReadThrows(run: seq<Event>) {
    exists i :: 0 <= i < |run| && ReadThrows(run[i])
  }

  /** What the events of a run say about which side has thrown. */
  ghost predicate ThrowsOk(h: State, timedOut: bool, readThrew: bool) {
    && (h.countdown.CountdownThrew? <==> timedOut)
    && (readThrew ==> h.password.PasswordThrew?)
    && (h.password.PasswordThrew? && !readThrew ==> Only(h, Reject))
  }

  lemma StepKeepsThrows(h: State, e: Event, timedOut: bool, readThrew: bool)
    requires Inv(h) && Enabled(h, e) && ThrowsOk(h, timedOut, readThrew)
    ensures ThrowsOk(Next(h, e), timedOut || e == TimeoutFlushed(false), readThrew || ReadThrows(e))
  {
  }

  lemma SomeReadThrowsSnoc(run: seq<Event>)
    requires run != []
    ensures SomeReadThrows(run) <==> SomeReadThrows(run[..|run| - 1]) || ReadThrows(run[|run| - 1])
  {
    var init := run[..|run| - 1];
    if SomeReadThrows(init) {
      var i :| 0 <= i < |init| && ReadThrows(init[i]);
      assert ReadThrows(run[i]);
    }
    if SomeReadThrows(run) {
      var i :| 0 <= i < |run| && ReadThrows(run[i]);
      assert i < |init| ==> ReadThrows(init[i]);
    }
  }

  lemma {:induction false} ReachableThrows(run: seq<Event>)
    requires After(run).Some?
    ensures ThrowsOk(After(run).value, TimeoutFlushed(false) in run, SomeReadThrows(run))
  {
    if run == [] {
    } else {
      var init, e := run[..|run| - 1], run[|run| - 1];
      ReachableInv(init);
      ReachableThrows(init);
      SomeReadThrowsSnoc(run);
      assert run == init + [e];
      StepKeepsThrows(After(init).value, e, TimeoutFlushed(false) in init, SomeReadThrows(init));
    }
  }

  /** Over every interleaving. The completion token is called unless the time-out was reported and a read of the
      password failed, or matched after being cancelled. */
  lemma EveryRunIsSafe(run: seq<Event>)
    requires After(run).Some?
    ensures Safe(After(run).value)
    ensures After(run).value.connect.Ended? ==>
              (After(run).value.completions == [] <==> TimeoutFlushed(false) in run && SomeReadThrows(run))
  {
    ReachableInv(run);
    InvIsSafe(After(run).value);
    ReachableThrows(run);
  }

  /** What a handshake that is over told the session, by the events of its run alone: nothing, after those; yes,
      exactly when a matching frame was read in time; and otherwise no. */
  lemma Outcome(run: seq<Event>)
    requires After(run).Some? && After(run).value.connect.Ended?
    ensures After(run).value.completions ==
              (if TimeoutFlushed(false) in run && SomeReadThrows(run) then []
               else if SomeMatchInTime(run) then [true]
               else [false])
  {
    EveryRunIsSafe(run);
    ReachableInv(run);
    SessionIdNeedsMatch(run);
  }

  // ---------- which reply ----------

  /** The reply that a resumption is about, whatever state it meets. */
  function Asks(e: Event): Option<Reply> {
    match e
    case PasswordRead(Frame(true), false) => Some(SessionId)
    case PasswordRead(Frame(false), false) => Some(Reject)
    case PasswordRead(ReadAborted, false) => Some(Reject)
    case TimerDone(true, false) => Some(Timeout)
    case _ => None
  }

  function FirstAsked(run: seq<Event>): Option<Reply> {
    if run == [] then None
    else
      var before := FirstAsked(run[..|run| - 1]);
      if before.Some? then before else Asks(run[|run| - 1])
  }

  ghost predicate IssuedIs(h: State, reply: Option<Reply>) {
    match reply
    case None => h.issued == []
    case Some(r) => Only(h, r)
  }

  lemma StepIssues(h: State, e: Event, reply: Option<Reply>)
    requires Inv(h) && Enabled(h, e) && IssuedIs(h, reply)
    ensures IssuedIs(Next(h, e), if reply.Some? then reply else Asks(e))
  {
  }

  lemma {:induction false} ReachableIssues(run: seq<Event>)
    requires After(run).Some?
    ensures IssuedIs(After(run).value, FirstAsked(run))
  {
    if run == [] {
    } else {
      var init, e := run[..|run| - 1], run[|run| - 1];
      ReachableInv(init);
      ReachableIssues(init);
      StepIssues(After(init).value, e, FirstAsked(init));
    }
  }

  /** The reply is decided by the first event of the run that asks for one: a password that matches, one that does
      not (or a read that was aborted), or the timer. */
  lemma FirstAskedIsIssued(run: seq<Event>)
    requires After(run).Some?
    ensures After(run).value.issued == match FirstAsked(run) case None => [] case Some(reply) => [reply]
  {
    ReachableIssues(run);
  }

  lemma OneMore(run: seq<Event>, e: Event)
    requires After(run).Some? && Enabled(After(run).value, e)
    ensures After(run + [e]) == Some(Next(After(run).value, e))
  {
    assert (run + [e])[..|run|] == run;
  }

  /** The shortest such run: the timer fires, the time-out is reported, and the cancelled read fails with
      something else than the cancellation. */
  const BOTH_THROW: seq<Event> :=
    [TimerDone(true, false)] + [TimeoutFlushed(false)] + [PasswordRead(ReadFailed, false)] + [BothDone]

  lemma NobodyIsTold()
    ensures After(BOTH_THROW).Some?
    ensures var h := After(BOTH_THROW).value;
            h.connect.Ended? && h.completions == [] && h.issued == [Timeout]
  {
    assert After([]) == Some(INIT);
    OneMore([], TimerDone(true, false));
    assert [] + [TimerDone(true, false)] == [TimerDone(true, false)];
    OneMore([TimerDone(true, false)], TimeoutFlushed(false));
    OneMore([TimerDone(true, false)] + [TimeoutFlushed(false)], PasswordRead(ReadFailed, false));
    OneMore([TimerDone(true, false)] + [TimeoutFlushed(false)] + [PasswordRead(ReadFailed, false)], BothDone);
  }

  // ---------- cancellation ----------

  /** When one side has thrown, the other can be over at its next resumption, wherever it waits and without a
      reply; before that, and unless the timer was called off, it cannot be aborted; and the wait behind an answer
      never is. */
  lemma ThrowCancelsTheOther(h: State)
    requires Inv(h)
    ensures h.password.PasswordThrew? && !CountdownEnded(h) ==>
              var e := if h.countdown.AwaitingTimer? then TimerDone(false, false) else TimeoutFlushed(true);
              Enabled(h, e) && CountdownEnded(Next(h, e)) && Next(h, e).issued == h.issued
    ensures h.countdown.CountdownThrew? && !PasswordEnded(h) ==>
              Enabled(h, PasswordRead(ReadAborted, false)) && PasswordEnded(Next(h, PasswordRead(ReadAborted, false)))
              && Next(h, PasswordRead(ReadAborted, false)).issued == h.issued
    ensures !h.password.PasswordThrew? && h.countdown.AwaitingTimer? ==>
              (Enabled(h, TimerDone(false, false)) <==> h.issued == [SessionId] || h.issued == [Reject])
    ensures !h.password.PasswordThrew? ==> !Enabled(h, TimeoutFlushed(true))
    ensures !Enabled(h, PasswordFlushed(true))
  {
    assert h.issued == [SessionId] <==> Only(h, SessionId);
    assert h.issued == [Reject] <==> Only(h, Reject);
    assert h.issued == [Timeout] <==> Only(h, Timeout);
  }

  /** As long as the password is awaited the read can end in every way, and as long as the timer runs it can fire;
      what then is issued depends on what was before. */
  lemma NothingIsRuledOut(h: State, result: ReadResult)
    requires Inv(h)
    ensures h.password.AwaitingPassword? ==>
              var e := PasswordRead(result, false);
              && Enabled(h, e)
              && (h.issued == [] ==>
                    Next(h, e).issued == (if result == Frame(true) then [SessionId]
                                          else if result == ReadFailed then [] else [Reject]))
    ensures h.countdown.AwaitingTimer? ==>
              && Enabled(h, TimerDone(true, false))
              && (h.issued == [] ==> Next(h, TimerDone(true, false)).issued == [Timeout])
  {
    assert forall reply: Reply :: [] + [reply] == [reply];
  }

  // ---------- termination ----------

  /** How many more resumptions there can be. */
  function Remaining(h: State): nat {
    (match h.password case AwaitingPassword => 2 case FlushingReject => 1 case FlushingId => 1 case _ => 0)
    + (match h.countdown case AwaitingTimer => 2 case FlushingTimeout => 1 case _ => 0)
    + (match h.connect case AwaitingBoth => 2 case FlushingSession => 1 case Ended => 0)
  }

  lemma StepUsesUpOne(h: State, e: Event)
    requires Enabled(h, e)
    ensures Remaining(Next(h, e)) < Remaining(h)
  {
  }

  /** Every step uses up at least one resumption, so no handshake takes more than six. */
  lemma {:induction false} RunsAreBounded(run: seq<Event>)
    requires After(run).Some?
    ensures |run| + Remaining(After(run).value) <= 6
  {
    if run == [] {
    } else {
      var init := run[..|run| - 1];
      RunsAreBounded(init);
      StepUsesUpOne(After(init).value, run[|run| - 1]);
    }
  }

  /** A step that asks nothing of the client: the timer fires, a wait ends, a cancelled read is aborted. */
  predicate Internal(h: State, e: Event) {
    e.PasswordRead? ==> e.result.ReadAborted? && h.countdown.CountdownThrew?
  }

  /** The internal step the event loop takes next when the client stays silent. */
  function NextInternal(h: State): (e: Event)
    requires Inv(h) && !h.connect.Ended?
    ensures Enabled(h, e) && Internal(h, e)
  {
    if h.connect.FlushingSession? then SessionFlushed
    else if h.countdown.FlushingTimeout? then TimeoutFlushed(false)
    else if h.password.FlushingReject? || h.password.FlushingId? then PasswordFlushed(false)
    else if h.countdown.AwaitingTimer? then TimerDone(true, false)
    else if h.password.AwaitingPassword? then PasswordRead(ReadAborted, false)
    else BothDone
  }

  /** Internal steps from a state. */
  function AfterAlone(h: State, run: seq<Event>): Option<State>
    decreases |run|
  {
    if run == [] then Some(h)
    else if Enabled(h, run[0]) && Internal(h, run[0]) then AfterAlone(Next(h, run[0]), run[1..])
    else None
  }

  /** Nothing happens any more unless the client does something. */
  ghost predicate Quiet(h: State) {
    forall e :: Enabled(h, e) ==> !Internal(h, e)
  }

  lemma {:induction false} AloneKeeps(h: State, run: seq<Event>)
    requires Inv(h) && AfterAlone(h, run).Some?
    ensures Inv(AfterAlone(h, run).value)
    ensures h.issued != [] ==> AfterAlone(h, run).value.issued == h.issued
    ensures Remaining(AfterAlone(h, run).value) + |run| <= Remaining(h)
    decreases |run|
  {
    if run == [] {
    } else {
      StepKeepsInv(h, run[0]);
      RepliesStay(h, run[0]);
      StepUsesUpOne(h, run[0]);
      AloneKeeps(Next(h, run[0]), run[1..]);
    }
  }

  lemma RepliesStay(h: State, e: Event)
    requires Inv(h) && Enabled(h, e)
    ensures h.issued != [] ==> Next(h, e).issued == h.issued
  {
    StepHasShape(h, e);
  }

  /** A client that does not answer: the read is still out, or came back aborted after the time-out. */
  ghost predicate Unanswered(h: State) {
    h.password.AwaitingPassword? || (h.password.PasswordDone? && Only(h, Timeout) && h.countdown.CountdownThrew?)
  }

  lemma StepKeepsUnanswered(h: State, e: Event)
    requires Inv(h) && Enabled(h, e) && Internal(h, e) && Unanswered(h)
    ensures Unanswered(Next(h, e))
  {
  }

  lemma {:induction false} AloneStaysUnanswered(h: State, run: seq<Event>)
    requires Inv(h) && Unanswered(h) && AfterAlone(h, run).Some?
    ensures Unanswered(AfterAlone(h, run).value)
    decreases |run|
  {
    if run == [] {
    } else {
      StepKeepsInv(h, run[0]);
      StepKeepsUnanswered(h, run[0]);
      AloneStaysUnanswered(Next(h, run[0]), run[1..]);
    }
  }

  /** A client that sends nothing more cannot hold the handshake open: however the internal steps are scheduled,
      there are at most Remaining of them, and when none is left the handshake is over. A client that never sent
      its password has then been sent the time-out reply and been turned away. */
  lemma SilentClientIsTimedOut(h: State, run: seq<Event>, end: State)
    requires Inv(h) && AfterAlone(h, run) == Some(end)
    ensures |run| <= Remaining(h)
    ensures Quiet(end) <==> end.connect.Ended?
    ensures h.issued != [] ==> end.issued == h.issued
    ensures h.password.AwaitingPassword? && Quiet(end) ==> end.issued == [Timeout] && end.completions == [false]
  {
    AloneKeeps(h, run);
    if !end.connect.Ended? {
      var e := NextInternal(end);
      assert Enabled(end, e) && Internal(end, e);
    } else {
      assert Quiet(end);
    }
    if h.password.AwaitingPassword? {
      AloneStaysUnanswered(h, run);
    }
  }
}
