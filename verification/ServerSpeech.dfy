/** From the bytes a client sends to the messages of the log, over every run of the server. */
module ServerSpeech {
  import opened Wrappers
  import opened Delimiter
  import opened FrameReader
  import opened Server
  import opened ServerInvariants
  import Handshake

  /** The messages of the log that came from one session, in order. */
  function MessagesBy(log: seq<string>, authors: seq<nat>, i: nat): seq<string>
    requires |authors| == |log|
  {
    if log == [] then []
    else
      var last := |log| - 1;
      MessagesBy(log[..last], authors[..last], i) + (if authors[last] == i then [log[last]] else [])
  }

  lemma MessagesBySnoc(log: seq<string>, authors: seq<nat>, msg: string, author: nat, i: nat)
    requires |authors| == |log|
    ensures MessagesBy(log + [msg], authors + [author], i)
         == MessagesBy(log, authors, i) + (if author == i then [msg] else [])
  {
    var n := |log|;
    assert (log + [msg])[..n] == log && (authors + [author])[..n] == authors;
  }

  /** With `more` still to arrive, the read loop on everything does what was done and then goes on from the buffer. */
  ghost predicate GoesOn(chunks: seq<string>, buffers: seq<string>, readMsg: string, said: seq<string>, more: seq<string>)
    requires |readMsg| <= READ_BUFF_LEN
  {
    && Buffers("", chunks + more) == buffers + Buffers(readMsg, more)
    && Broadcasts("", chunks + more) == said + Broadcasts(readMsg, more)
  }

  /** The reader stands where the read loop stands after these chunks, buffers and broadcasts. */
  ghost predicate LoopAt(chunks: seq<string>, buffers: seq<string>, readMsg: string, said: seq<string>) {
    && |readMsg| <= READ_BUFF_LEN
    && forall more: seq<string> :: GoesOn(chunks, buffers, readMsg, said, more)
  }

  /** The bytes taken in are the frames erased and what is left in the buffer, and what was said is the
      broadcasts of the passes. */
  ghost predicate WordsOk(chunks: seq<string>, buffers: seq<string>, frames: seq<string>, readMsg: string, said: seq<string>) {
    && LoopAt(chunks, buffers, readMsg, said)
    && Concat(chunks) == Encode(frames) + readMsg
    && AllDelimFree(frames)
    && AllPasses(Concat(chunks), frames, said, buffers)
  }

  ghost predicate SpokenOk(s: Session, said: seq<string>) {
    WordsOk(s.chunks, s.buffers, s.frames, s.readMsg, said)
  }

  ghost predicate Spoken(w: World) {
    && |w.authors| == |w.log|
    && (forall x :: 0 <= x < |w.authors| ==> w.authors[x] < |w.sessions|)
    && (forall i :: 0 <= i < |w.sessions| ==> SpokenOk(w.sessions[i], MessagesBy(w.log, w.authors, i)))
  }

  /** The part of a session that SpokenOk speaks of. */
  ghost predicate SameWords(s: Session, t: Session) {
    t.chunks == s.chunks && t.buffers == s.buffers && t.frames == s.frames && t.readMsg == s.readMsg
  }

  lemma {:induction false} DeliverAllKeepsWords(s: Session, items: seq<Item>)
    ensures SameWords(s, DeliverAll(s, items))
  {
    DeliverAllEffect(s, items);
  }

  lemma OutcomeKeepsWords(t: Session, t': Session, inRoom: bool, recent: seq<string>, at: nat)
    requires HandshakeOutcome(t, t', inRoom, recent, at)
    ensures SameWords(t, t')
  {
    DeliverAllKeepsWords(t, ReplayItems(at - |recent|, recent));
  }

  lemma HandshakeKeepsWords(w: World, i: nat, step: Handshake.Event, buffer: string)
    requires i < |w.sessions| && Handshake.Enabled(w.sessions[i].handshake, step)
    ensures var w' := AfterHandshake(w, i, step, buffer);
            && w'.log == w.log && w'.authors == w.authors && |w'.sessions| == |w.sessions|
            && forall k :: 0 <= k < |w.sessions| ==> SameWords(w.sessions[k], w'.sessions[k])
  {
    HandshakeEffect(w, i, step, buffer);
    OutcomeKeepsWords(Stepped(w.sessions[i], step, buffer), AfterHandshake(w, i, step, buffer).sessions[i],
                      i in w.participants, w.recent, |w.log|);
  }

  lemma SameWordsKeepSpoken(w: World, w': World)
    requires Spoken(w) && w'.log == w.log && w'.authors == w.authors && |w'.sessions| == |w.sessions|
    requires forall k :: 0 <= k < |w.sessions| ==> SameWords(w.sessions[k], w'.sessions[k])
    ensures Spoken(w')
  {
    forall k | 0 <= k < |w'.sessions|
      ensures SpokenOk(w'.sessions[k], MessagesBy(w'.log, w'.authors, k))
    {
      assert SameWords(w.sessions[k], w'.sessions[k]);
      assert SpokenOk(w.sessions[k], MessagesBy(w.log, w.authors, k));
    }
  }

  lemma {:induction false} NobodySaid(log: seq<string>, authors: seq<nat>, i: nat)
    requires |authors| == |log| && forall x :: 0 <= x < |authors| ==> authors[x] < i
    ensures MessagesBy(log, authors, i) == []
  {
    if log == [] {
    } else {
      var last := |log| - 1;
      assert authors[last] < i;
      NobodySaid(log[..last], authors[..last], i);
    }
  }

  /** Taking in a chunk first, or having it arrive: the loop does the same. */
  lemma TakenOrArriving(buffer: string, chunk: string, more: seq<string>)
    requires FrameEnd(buffer) == 0 && |buffer| + |chunk| <= READ_BUFF_LEN
    ensures Buffers(buffer, [chunk] + more) == Buffers(buffer + chunk, more)
    ensures Broadcasts(buffer, [chunk] + more) == Broadcasts(buffer + chunk, more)
  {
    if |buffer| == READ_BUFF_LEN {
      assert buffer + chunk == buffer;
    } else {
      assert ([chunk] + more)[1..] == more;
      assert ReadUntil(buffer, [chunk] + more, READ_BUFF_LEN) == ReadUntil(buffer + chunk, more, READ_BUFF_LEN);
    }
  }

  lemma TakeInKeepsLoop(chunks: seq<string>, buffers: seq<string>, readMsg: string, said: seq<string>, chunk: string)
    requires LoopAt(chunks, buffers, readMsg, said)
    requires FrameEnd(readMsg) == 0 && |readMsg| + |chunk| <= READ_BUFF_LEN
    ensures LoopAt(chunks + [chunk], buffers, readMsg + chunk, said)
  {
    forall more: seq<string>
      ensures GoesOn(chunks + [chunk], buffers, readMsg + chunk, said, more)
    {
      assert GoesOn(chunks, buffers, readMsg, said, [chunk] + more);
      assert chunks + [chunk] + more == chunks + ([chunk] + more);
      TakenOrArriving(readMsg, chunk, more);
    }
  }

  /** A buffer that starts with a frame gives a pass before anything else is read. */
  lemma PassFromBuffer(buffer: string, more: seq<string>)
    requires FrameEnd(buffer) != 0 && |buffer| <= READ_BUFF_LEN
    ensures Buffers(buffer, more) == [buffer] + Buffers(buffer[FrameEnd(buffer)..], more)
    ensures Broadcasts(buffer, more) == [Broadcast(buffer)] + Broadcasts(buffer[FrameEnd(buffer)..], more)
  {
    assert ReadUntil(buffer, more, READ_BUFF_LEN) == (buffer, more);
  }

  lemma EraseKeepsLoop(chunks: seq<string>, buffers: seq<string>, readMsg: string, said: seq<string>)
    requires LoopAt(chunks, buffers, readMsg, said) && FrameEnd(readMsg) != 0
    ensures LoopAt(chunks, buffers + [readMsg], readMsg[FrameEnd(readMsg)..], said + [Broadcast(readMsg)])
  {
    var left, msg := readMsg[FrameEnd(readMsg)..], Broadcast(readMsg);
    forall more: seq<string>
      ensures GoesOn(chunks, buffers + [readMsg], left, said + [msg], more)
    {
      assert GoesOn(chunks, buffers, readMsg, said, more);
      PassFromBuffer(readMsg, more);
      Requeue(buffers, readMsg, Buffers(left, more));
      Requeue(said, msg, Broadcasts(left, more));
    }
  }

  lemma PassesGrow(stream: string, chunk: string, frames: seq<string>, said: seq<string>, buffers: seq<string>)
    requires AllPasses(stream, frames, said, buffers)
    ensures AllPasses(stream + chunk, frames, said, buffers)
  {
    forall k | 0 <= k < |frames|
      ensures PassOf(stream + chunk, frames, said, buffers, k)
    {
      assert PassOf(stream, frames, said, buffers, k);
    }
  }

  lemma TakeInKeepsWords(chunks: seq<string>, buffers: seq<string>, frames: seq<string>, readMsg: string,
                         said: seq<string>, chunk: string)
    requires WordsOk(chunks, buffers, frames, readMsg, said)
    requires FrameEnd(readMsg) == 0 && |readMsg| + |chunk| <= READ_BUFF_LEN
    ensures WordsOk(chunks + [chunk], buffers, frames, readMsg + chunk, said)
  {
    TakeInKeepsLoop(chunks, buffers, readMsg, said, chunk);
    TakenBytes(chunks, chunk, Encode(frames), readMsg);
    PassesGrow(Concat(chunks), chunk, frames, said, buffers);
  }

  lemma TakenBytes(chunks: seq<string>, chunk: string, erased: string, readMsg: string)
    requires Concat(chunks) == erased + readMsg
    ensures Concat(chunks + [chunk]) == Concat(chunks) + chunk == erased + (readMsg + chunk)
  {
    ConcatAppend(chunks, [chunk]);
    assert Concat([chunk]) == chunk;
  }

  lemma PassesSnoc(stream: string, frames: seq<string>, said: seq<string>, buffers: seq<string>,
                   frame: string, msg: string, buffer: string)
    requires AllPasses(stream, frames, said, buffers) && Pass(buffer, frame, msg) && Encode(frames) + buffer <= stream
    ensures AllPasses(stream, frames + [frame], said + [msg], buffers + [buffer])
  {
    forall k | 0 <= k < |frames + [frame]|
      ensures PassOf(stream, frames + [frame], said + [msg], buffers + [buffer], k)
    {
      if k < |frames| {
        assert PassOf(stream, frames, said, buffers, k);
        assert (frames + [frame])[..k] == frames[..k];
      } else {
        assert (frames + [frame])[..k] == frames;
      }
    }
  }

  lemma EraseKeepsBytes(frames: seq<string>, buffer: string)
    requires FrameEnd(buffer) != 0
    ensures var n := FrameEnd(buffer);
            Encode(frames) + buffer == Encode(frames + [buffer[..n - 2]]) + buffer[n..]
  {
    var n := FrameEnd(buffer);
    FirstFrame(buffer);
    EncodeSnoc(frames, buffer[..n - 2]);
    Regroup(Encode(frames), buffer[..n - 2], buffer[n..]);
  }

  lemma EraseKeepsWords(chunks: seq<string>, buffers: seq<string>, frames: seq<string>, readMsg: string, said: seq<string>)
    requires WordsOk(chunks, buffers, frames, readMsg, said) && FrameEnd(readMsg) != 0
    ensures var n := FrameEnd(readMsg);
            WordsOk(chunks, buffers + [readMsg], frames + [readMsg[..n - 2]], readMsg[n..], said + [Broadcast(readMsg)])
  {
    EraseKeepsLoop(chunks, buffers, readMsg, said);
    EraseKeepsBytes(frames, readMsg);
    FirstFrame(readMsg);
    BroadcastPass(readMsg);
    PassesSnoc(Concat(chunks), frames, said, buffers, readMsg[..FrameEnd(readMsg) - 2], Broadcast(readMsg), readMsg);
  }

  /** What a pass does to the words of each session. */
  lemma WordsAfterFrame(w: World, i: nat, k: nat)
    requires i < |w.sessions| && k < |w.sessions| && FrameEnd(w.sessions[i].readMsg) != 0
    ensures |AfterFrame(w, i).sessions| == |w.sessions|
    ensures SameWords(if k == i then Erase(w.sessions[i], FrameEnd(w.sessions[i].readMsg)) else w.sessions[k],
                      AfterFrame(w, i).sessions[k])
  {
  }

  lemma FrameKeepsSpoken(w: World, i: nat)
    requires Spoken(w) && i < |w.sessions| && FrameEnd(w.sessions[i].readMsg) != 0
    ensures Spoken(AfterFrame(w, i))
  {
    var s, w' := w.sessions[i], AfterFrame(w, i);
    assert w'.log == w.log + [Broadcast(s.readMsg)] && w'.authors == w.authors + [i];
    forall k | 0 <= k < |w'.sessions|
      ensures SpokenOk(w'.sessions[k], MessagesBy(w'.log, w'.authors, k))
    {
      WordsAfterFrame(w, i, k);
      MessagesBySnoc(w.log, w.authors, Broadcast(s.readMsg), i, k);
      assert SpokenOk(w.sessions[k], MessagesBy(w.log, w.authors, k));
      if k == i {
        EraseKeepsWords(s.chunks, s.buffers, s.frames, s.readMsg, MessagesBy(w.log, w.authors, i));
      } else {
        assert MessagesBy(w'.log, w'.authors, k) == MessagesBy(w.log, w.authors, k);
      }
    }
  }

  lemma BytesKeepSpoken(w: World, i: nat, chunk: string)
    requires Spoken(w) && Enabled(w, BytesRead(i, chunk))
    ensures Spoken(Update(w, i, TakeIn(w.sessions[i], chunk)))
  {
    var s, w' := w.sessions[i], Update(w, i, TakeIn(w.sessions[i], chunk));
    forall k | 0 <= k < |w'.sessions|
      ensures SpokenOk(w'.sessions[k], MessagesBy(w'.log, w'.authors, k))
    {
      assert SpokenOk(w.sessions[k], MessagesBy(w.log, w.authors, k));
      if k == i {
        TakeInKeepsWords(s.chunks, s.buffers, s.frames, s.readMsg, MessagesBy(w.log, w.authors, i), chunk);
      }
    }
  }

  lemma NothingSaid()
    ensures WordsOk([], [], [], "", [])
  {
    forall more: seq<string>
      ensures GoesOn([], [], "", [], more)
    {
      assert [] + more == more;
    }
  }

  lemma JoinKeepsSpoken(w: World, sessionId: nat)
    requires Spoken(w)
    ensures Spoken(Join(w, sessionId))
  {
    var w' := Join(w, sessionId);
    forall k | 0 <= k < |w'.sessions|
      ensures SpokenOk(w'.sessions[k], MessagesBy(w'.log, w'.authors, k))
    {
      if k < |w.sessions| {
        assert SpokenOk(w.sessions[k], MessagesBy(w.log, w.authors, k));
      } else {
        NobodySaid(w.log, w.authors, k);
        NothingSaid();
      }
    }
  }

  lemma QuietKeepsSpoken(w: World, i: nat, t: Session)
    requires Spoken(w) && i < |w.sessions| && SameWords(w.sessions[i], t)
    ensures Spoken(Update(w, i, t)) && Spoken(Stop(Update(w, i, t), i))
  {
    SameWordsKeepSpoken(w, Update(w, i, t));
    SameWordsKeepSpoken(w, Stop(Update(w, i, t), i));
  }

  lemma StepKeepsSpoken(w: World, e: Event)
    requires Spoken(w) && Enabled(w, e)
    ensures Spoken(Next(w, e))
  {
    match e
    case Connect(sessionId) => JoinKeepsSpoken(w, sessionId);
    case HandshakeStep(i, step, buffer) =>
      HandshakeKeepsWords(w, i, step, buffer);
      SameWordsKeepSpoken(w, AfterHandshake(w, i, step, buffer));
    case FrameRead(i) => FrameKeepsSpoken(w, i);
    case BytesRead(i, chunk) => BytesKeepSpoken(w, i, chunk);
    case WriterResume(i) => QuietKeepsSpoken(w, i, WriterLoop(w.sessions[i]));
    case WriteSucceeded(i) => QuietKeepsSpoken(w, i, WriteDone(w.sessions[i]));
    case WriteFailed(i) => QuietKeepsSpoken(w, i, w.sessions[i].(writer := WriterGone));
    case ReaderStart(i) =>
      QuietKeepsSpoken(w, i, w.sessions[i].(reader := if w.sessions[i].open then Reading else ReaderGone));
    case ReadFailed(i) => QuietKeepsSpoken(w, i, w.sessions[i].(reader := ReaderGone));
  }

  lemma {:induction false} ReachableSpoken(password: string, run: seq<Event>)
    requires After(password, run).Some?
    ensures Spoken(After(password, run).value)
  {
    if run == [] {
    } else {
      LastStep(password, run);
      var prefix := run[..|run| - 1];
      ReachableSpoken(password, prefix);
      StepKeepsSpoken(After(password, prefix).value, run[|run| - 1]);
    }
  }

  lemma EncodedPrefix(frames: seq<string>, msgs: seq<string>, rest: string)
    requires AllDelimFree(frames) && AllDelimFree(msgs) && Encode(msgs) == Encode(frames) + rest
    ensures frames <= msgs
  {
    assert Encode(msgs) + "" == Encode(msgs) && Encode(frames) + "" == Encode(frames);
    FramesOfEncoded(msgs, "");
    FramesOfEncoded(frames, "");
    FramesAppend(Encode(frames), rest);
  }

  lemma Unfolded(sent: string, taken: string, rest: string, frames: string, left: string)
    requires sent == taken + rest && taken == frames + left
    ensures sent == frames + (left + rest)
  {
  }

  lemma BeginningOfEncoded(taken: string, frames: seq<string>, left: string, msgs: seq<string>)
    requires AllDelimFree(frames) && AllDelimFree(msgs)
    requires taken == Encode(frames) + left && taken <= Encode(msgs)
    ensures frames <= msgs
  {
    var sent := Encode(msgs);
    var rest := sent[|taken|..];
    Unfolded(sent, taken, rest, Encode(frames), left);
    EncodedPrefix(frames, msgs, left + rest);
  }

  /** The reader of a session refines the read loop: over every run its messages in the log are what the loop
      broadcasts of the chunks it read, in order, up to the frames that are still in its buffer. */
  lemma LogIsWhatTheLoopBroadcasts(password: string, run: seq<Event>, w: World, i: nat)
    requires After(password, run) == Some(w) && i < |w.sessions|
    ensures |w.authors| == |w.log| && |w.sessions[i].readMsg| <= READ_BUFF_LEN
    ensures var s, said := w.sessions[i], MessagesBy(w.log, w.authors, i);
            && Broadcasts("", s.chunks) == said + Broadcasts(s.readMsg, [])
            && Buffers("", s.chunks) == s.buffers + Buffers(s.readMsg, [])
            && (FrameEnd(s.readMsg) == 0 ==> said == Broadcasts("", s.chunks))
  {
    ReachableSpoken(password, run);
    var s := w.sessions[i];
    assert SpokenOk(s, MessagesBy(w.log, w.authors, i));
    assert GoesOn(s.chunks, s.buffers, s.readMsg, MessagesBy(w.log, w.authors, i), []);
    assert s.chunks + [] == s.chunks;
  }

  /** From a client to the log, over every run, chunking and interleaving: if the bytes a session's reader has
      taken in are the beginning of messages without the delimiter, each sent with it appended, then the
      messages of that session in the log are as many as its passes. The k-th is a stretch of the session's own
      bytes that starts with message k; it is message k exactly when the buffer of that pass held no CR or LF
      behind it. */
  lemma SentMessagesReachTheLog(password: string, run: seq<Event>, w: World, i: nat, msgs: seq<string>)
    requires After(password, run) == Some(w) && i < |w.sessions|
    requires AllDelimFree(msgs) && Concat(w.sessions[i].chunks) <= Encode(msgs)
    ensures |w.authors| == |w.log|
    ensures var said, buffers := MessagesBy(w.log, w.authors, i), w.sessions[i].buffers;
            && |said| == |buffers| <= |msgs|
            && forall k :: 0 <= k < |said| ==>
                 && FrameAndBroadcast(buffers[k], msgs[k], said[k])
                 && Encode(msgs[..k]) + buffers[k] <= Concat(w.sessions[i].chunks)
  {
    ReachableSpoken(password, run);
    var s, said := w.sessions[i], MessagesBy(w.log, w.authors, i);
    assert SpokenOk(s, said);
    BeginningOfEncoded(Concat(s.chunks), s.frames, s.readMsg, msgs);
    PassesOfMessages(Concat(s.chunks), s.frames, said, s.buffers, msgs);
  }

  lemma PassesOfMessages(stream: string, frames: seq<string>, said: seq<string>, buffers: seq<string>, msgs: seq<string>)
    requires AllPasses(stream, frames, said, buffers) && frames <= msgs
    ensures forall k :: 0 <= k < |said| ==>
              FrameAndBroadcast(buffers[k], msgs[k], said[k]) && Encode(msgs[..k]) + buffers[k] <= stream
  {
    forall k | 0 <= k < |said|
      ensures FrameAndBroadcast(buffers[k], msgs[k], said[k]) && Encode(msgs[..k]) + buffers[k] <= stream
    {
      assert PassOf(stream, frames, said, buffers, k);
      PassMeans(buffers[k], frames[k], said[k]);
      assert msgs[..k] == frames[..k] && msgs[k] == frames[k];
    }
  }
}
