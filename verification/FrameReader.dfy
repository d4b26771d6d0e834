/**
 The reader coroutine of a chat session: asio's async_read_until over a bounded buffer,
 what is broadcast from that buffer, and the read loop.
 */
module FrameReader {
  import opened Delimiter

  const READ_BUFF_LEN: nat := 1024

  predicate IsDelimChar(c: char) { c == '\r' || c == '\n' }

  ghost predicate NoDelimChar(s: string) {
    forall i :: 0 <= i < |s| ==> !IsDelimChar(s[i])
  }

  /** std::string_view::find_last_of("\r\n"): the last position of either character, -1 for npos. */
  function FindLastDelimChar(s: string): (r: int)
    ensures -1 <= r < |s|
    ensures 0 <= r ==> IsDelimChar(s[r])
    ensures forall i :: r < i < |s| ==> !IsDelimChar(s[i])
  {
    if s == [] then -1
    else if IsDelimChar(s[|s| - 1]) then |s| - 1
    else FindLastDelimChar(s[..|s| - 1])
  }

  /** What the reader hands to the room: everything up to the char before the last CR or LF
      of the whole buffer. */
  function Broadcast(buffer: string): (msg: string)
    requires FrameEnd(buffer) != 0
    ensures |msg| <= |buffer| - 2
    ensures msg <= buffer
  {
    var last := FindLastDelimChar(buffer);
    assert IsDelimChar(buffer[FrameEnd(buffer) - 1]);
    buffer[..last - 1]
  }

  /** `sent` ends where the buffer's last CR or LF is the second char behind it. The source takes that char for
      the LF of a delimiter. */
  ghost predicate EndsBeforeLast(buffer: string, sent: string) {
    && sent <= buffer && |sent| + 2 <= |buffer|
    && (buffer[|sent| + 1] == '\r' || buffer[|sent| + 1] == '\n')
    && forall i :: |sent| + 2 <= i < |buffer| ==> buffer[i] != '\r' && buffer[i] != '\n'
  }

  /** Where a broadcast ends, and that this says which part of the buffer it is. */
  lemma BroadcastEnds(buffer: string, sent: string)
    requires FrameEnd(buffer) != 0
    ensures sent == Broadcast(buffer) <==> EndsBeforeLast(buffer, sent)
  {
    var last := FindLastDelimChar(buffer);
    assert IsDelimChar(buffer[FrameEnd(buffer) - 1]);
    assert |Broadcast(buffer)| == last - 1 && IsDelimChar(buffer[last]);
    if EndsBeforeLast(buffer, sent) {
      assert IsDelimChar(buffer[|sent| + 1]);
      assert |sent| + 1 == last;
    }
  }

  /** The frame at the front of the buffer is always a prefix of what is broadcast, and the two
      are equal exactly when nothing behind the frame holds a CR or an LF. */
  lemma BroadcastVersusFrame(buffer: string)
    requires FrameEnd(buffer) != 0
    ensures buffer[..FrameEnd(buffer) - 2] <= Broadcast(buffer)
    ensures Broadcast(buffer) == buffer[..FrameEnd(buffer) - 2] <==> NoDelimChar(buffer[FrameEnd(buffer)..])
  {
    var n, last := FrameEnd(buffer), FindLastDelimChar(buffer);
    assert IsDelimChar(buffer[n - 1]);
    if n <= last {
      assert IsDelimChar(buffer[n..][last - n]);
      assert |Broadcast(buffer)| == last - 1;
    } else {
      forall i | 0 <= i < |buffer[n..]|
        ensures !IsDelimChar(buffer[n..][i])
      {
        assert buffer[n..][i] == buffer[n + i];
      }
    }
  }

  /** The frames a reader with a buffer of `max` chars gets out of a stream: it gives up at the
      first frame that does not fit together with its delimiter. */
  function Consumed(stream: string, max: nat): (frames: seq<string>)
    ensures forall i :: 0 <= i < |frames| ==> |frames[i]| + 2 <= max
  {
    var n := FrameEnd(stream);
    if n == 0 || max < n then [] else [stream[..n - 2]] + Consumed(stream[n..], max)
  }

  /** How far asio::async_read_until reads: until the buffer holds a delimiter, is full, or the peer
      is done. A chunk that does not fit is cut. The result is the buffer and the chunks still to come. */
  function ReadUntil(buffer: string, arrivals: seq<string>, max: nat): (r: (string, seq<string>))
    requires |buffer| <= max
    ensures r.0 + Concat(r.1) == buffer + Concat(arrivals)
    ensures buffer <= r.0 && |r.0| <= max
    ensures FrameEnd(r.0) != 0 || |r.0| == max || r.1 == []
    decreases |arrivals|, max - |buffer|
  {
    var space := max - |buffer|;
    if FrameEnd(buffer) != 0 || space == 0 || arrivals == [] then (buffer, arrivals)
    else if |arrivals[0]| <= space then
      assert buffer + Concat(arrivals) == (buffer + arrivals[0]) + Concat(arrivals[1..]);
      ReadUntil(buffer + arrivals[0], arrivals[1..], max)
    else
      CutChunk(buffer, arrivals, space);
      ReadUntil(buffer + arrivals[0][..space], [arrivals[0][space..]] + arrivals[1..], max)
  }

  /** asio::async_read_until on a dynamic buffer of at most `max` chars. `arrivals` are the chunks the
      peer is going to send before the connection ends. It succeeds exactly when the stream has a
      delimiter within the first `max` chars, however it is chunked. */
  method AsyncReadUntil(buffer: string, arrivals: seq<string>, max: nat)
    returns (ok: bool, n: nat, buffer': string, arrivals': seq<string>)
    requires |buffer| <= max
    ensures (buffer', arrivals') == ReadUntil(buffer, arrivals, max)
    ensures buffer' + Concat(arrivals') == buffer + Concat(arrivals)
    ensures ok <==> 0 < FrameEnd(buffer + Concat(arrivals)) <= max
    ensures ok <==> FrameEnd(buffer') != 0
    ensures ok ==> n == FrameEnd(buffer') == FrameEnd(buffer + Concat(arrivals))
  {
    buffer', arrivals', n := buffer, arrivals, FrameEnd(buffer);
    while n == 0 && |buffer'| < max && arrivals' != []
      invariant |buffer'| <= max
      invariant ReadUntil(buffer', arrivals', max) == ReadUntil(buffer, arrivals, max)
      invariant n == FrameEnd(buffer')
      decreases |arrivals'|, max - |buffer'|
    {
      var chunk, space := arrivals'[0], max - |buffer'|;
      if |chunk| <= space {
        buffer', arrivals' := buffer' + chunk, arrivals'[1..];
      } else {
        buffer', arrivals' := buffer' + chunk[..space], [chunk[space..]] + arrivals'[1..];
      }
      n := FrameEnd(buffer');
    }
    ok := n != 0;
    if ok {
      FrameEndAppend(buffer', Concat(arrivals'));
    } else {
      NoFrameYet(buffer', arrivals', max);
    }
  }

  lemma CutChunk(buffer: string, arrivals: seq<string>, space: nat)
    requires arrivals != [] && space <= |arrivals[0]|
    ensures (buffer + arrivals[0][..space]) + Concat([arrivals[0][space..]] + arrivals[1..])
         == buffer + Concat(arrivals)
  {
    var chunk, rest := arrivals[0], arrivals[1..];
    ConcatCons(chunk[space..], rest);
    CutString(buffer, chunk, space, Concat(rest));
  }

  lemma ConcatCons(chunk: string, rest: seq<string>)
    ensures Concat([chunk] + rest) == chunk + Concat(rest)
  {
    assert ([chunk] + rest)[1..] == rest;
  }

  lemma CutString(a: string, b: string, k: nat, c: string)
    requires k <= |b|
    ensures (a + b[..k]) + (b[k..] + c) == a + (b + c)
  {
  }

  /** A full buffer, or an ended stream, without a delimiter: no frame of at most `max` chars starts here. */
  lemma NoFrameYet(buffer: string, arrivals: seq<string>, max: nat)
    requires FrameEnd(buffer) == 0 && (|buffer| == max || arrivals == [])
    ensures !(0 < FrameEnd(buffer + Concat(arrivals)) <= max)
  {
    var stream := buffer + Concat(arrivals);
    var n := FrameEnd(stream);
    if 0 < n <= |buffer| {
      assert DelimAt(stream, n - 2);
      assert DelimAt(buffer, n - 2);
    }
    if arrivals == [] {
      assert stream == buffer;
    }
  }

  /** One pass of the read loop: the buffer when async_read_until returned, the frame at its
      front, and the broadcast, which is that frame only if nothing behind it holds a CR or LF. */
  ghost predicate Pass(buffer: string, frame: string, sent: string) {
    && |buffer| <= READ_BUFF_LEN
    && 0 < FrameEnd(buffer) == |frame| + 2
    && frame <= buffer
    && frame <= sent <= buffer
    && |sent| + 2 <= READ_BUFF_LEN
    && (sent == frame <==> NoDelimChar(buffer[|frame| + 2..]))
    && EndsBeforeLast(buffer, sent)
  }

  lemma BroadcastPass(buffer: string)
    requires 0 < FrameEnd(buffer) && |buffer| <= READ_BUFF_LEN
    ensures Pass(buffer, buffer[..FrameEnd(buffer) - 2], Broadcast(buffer))
  {
    BroadcastVersusFrame(buffer);
    BroadcastEnds(buffer, Broadcast(buffer));
  }

  /** The buffer of each pass of the read loop, as the reads left it, starting from what is in the buffer. */
  function Buffers(buffer: string, arrivals: seq<string>): seq<string>
    requires |buffer| <= READ_BUFF_LEN
    decreases |buffer + Concat(arrivals)|
  {
    var (b, rest) := ReadUntil(buffer, arrivals, READ_BUFF_LEN);
    var n := FrameEnd(b);
    if n == 0 then [] else
      assert |b[n..] + Concat(rest)| < |b + Concat(rest)|;
      [b] + Buffers(b[n..], rest)
  }

  /** Everything the read loop broadcasts, starting from what is in the buffer. */
  function Broadcasts(buffer: string, arrivals: seq<string>): seq<string>
    requires |buffer| <= READ_BUFF_LEN
    decreases |buffer + Concat(arrivals)|
  {
    var (b, rest) := ReadUntil(buffer, arrivals, READ_BUFF_LEN);
    var n := FrameEnd(b);
    if n == 0 then [] else
      assert |b[n..] + Concat(rest)| < |b + Concat(rest)|;
      [Broadcast(b)] + Broadcasts(b[n..], rest)
  }

  /** Taking the first frame off the buffer takes it off the stream. */
  lemma StreamStep(buffer: string, rest: string)
    requires 0 < FrameEnd(buffer) == FrameEnd(buffer + rest) <= READ_BUFF_LEN
    ensures var n := FrameEnd(buffer);
            && buffer + rest == buffer[..n - 2] + DELIM + (buffer[n..] + rest)
            && Consumed(buffer + rest, READ_BUFF_LEN) == [buffer[..n - 2]] + Consumed(buffer[n..] + rest, READ_BUFF_LEN)
  {
    var n := FrameEnd(buffer);
    FirstFrame(buffer);
    assert (buffer + rest)[n..] == buffer[n..] + rest;
    assert (buffer + rest)[..n - 2] == buffer[..n - 2];
  }

  /** One turn of the loop, on the stream and on the three lists it makes of it. */
  lemma LoopStep(buffer: string, arrivals: seq<string>)
    requires |buffer| <= READ_BUFF_LEN
    ensures var (b, rest) := ReadUntil(buffer, arrivals, READ_BUFF_LEN);
            var n, stream := FrameEnd(b), buffer + Concat(arrivals);
            if n == 0 then
              Consumed(stream, READ_BUFF_LEN) == [] && Buffers(buffer, arrivals) == [] && Broadcasts(buffer, arrivals) == []
            else
              && |b[n..] + Concat(rest)| < |stream|
              && stream == b + Concat(rest) == b[..n - 2] + DELIM + (b[n..] + Concat(rest))
              && Consumed(stream, READ_BUFF_LEN) == [b[..n - 2]] + Consumed(b[n..] + Concat(rest), READ_BUFF_LEN)
              && Buffers(buffer, arrivals) == [b] + Buffers(b[n..], rest)
              && Broadcasts(buffer, arrivals) == [Broadcast(b)] + Broadcasts(b[n..], rest)
  {
    var (b, rest) := ReadUntil(buffer, arrivals, READ_BUFF_LEN);
    if FrameEnd(b) == 0 {
      NoFrameYet(b, rest, READ_BUFF_LEN);
    } else {
      FrameEndAppend(b, Concat(rest));
      StreamStep(b, Concat(rest));
    }
  }

  /** One pass of the loop: read a frame, broadcast from the buffer, erase the frame. */
  method ReadPass(readMsg: string, chunks: seq<string>)
    returns (ok: bool, frame: string, msg: string, readMsg': string, chunks': seq<string>, ghost buffer: string)
    requires |readMsg| <= READ_BUFF_LEN
    ensures |readMsg'| <= READ_BUFF_LEN
    ensures ok ==>
              && readMsg + Concat(chunks) == frame + DELIM + (readMsg' + Concat(chunks'))
              && Consumed(readMsg + Concat(chunks), READ_BUFF_LEN) == [frame] + Consumed(readMsg' + Concat(chunks'), READ_BUFF_LEN)
              && Broadcasts(readMsg, chunks) == [msg] + Broadcasts(readMsg', chunks')
              && Buffers(readMsg, chunks) == [buffer] + Buffers(readMsg', chunks')
    ensures !ok ==>
              && readMsg + Concat(chunks) == readMsg' + Concat(chunks')
              && Consumed(readMsg + Concat(chunks), READ_BUFF_LEN) == []
              && Broadcasts(readMsg, chunks) == []
              && Buffers(readMsg, chunks) == []
  {
    var n;
    LoopStep(readMsg, chunks);
    ok, n, readMsg', chunks' := AsyncReadUntil(readMsg, chunks, READ_BUFF_LEN);
    frame, msg, buffer := "", "", readMsg';
    if ok {
      frame, msg := readMsg'[..n - 2], Broadcast(readMsg');
      readMsg' := readMsg'[n..];
    }
  }

  /**
   The whole read loop over an arbitrary stream in arbitrary chunks. The frames consumed depend on
   the bytes alone; the broadcasts also depend on what else was in the buffer (`buffers`).
   `readMsg` is what the buffer holds when the read fails, `unread` what it never took in.
   */
  method Reader(arrivals: seq<string>)
    returns (frames: seq<string>, sent: seq<string>, readMsg: string, ghost buffers: seq<string>, ghost unread: string)
    ensures frames == Consumed(Concat(arrivals), READ_BUFF_LEN)
    ensures sent == Broadcasts("", arrivals)
    ensures buffers == Buffers("", arrivals)
    ensures Encode(frames) + (readMsg + unread) == Concat(arrivals)
    ensures |readMsg| <= READ_BUFF_LEN
  {
    frames, sent, readMsg, buffers := [], [], "", [];
    var chunks, ok := arrivals, true;
    ghost var stream := Concat(arrivals);
    assert readMsg + Concat(chunks) == stream;
    while ok
      invariant stream == readMsg + Concat(chunks)
      invariant |readMsg| <= READ_BUFF_LEN
      invariant Encode(frames) + stream == Concat(arrivals)
      invariant frames + (if ok then Consumed(stream, READ_BUFF_LEN) else []) == Consumed(Concat(arrivals), READ_BUFF_LEN)
      invariant sent + (if ok then Broadcasts(readMsg, chunks) else []) == Broadcasts("", arrivals)
      invariant buffers + (if ok then Buffers(readMsg, chunks) else []) == Buffers("", arrivals)
      decreases ok, |stream|
    {
      var frame, msg;
      ghost var buffer;
      ok, frame, msg, readMsg, chunks, buffer := ReadPass(readMsg, chunks);
      stream := readMsg + Concat(chunks);
      if ok {
        EncodeSnoc(frames, frame);
        Regroup(Encode(frames), frame, stream);
        Requeue(frames, frame, Consumed(stream, READ_BUFF_LEN));
        Requeue(sent, msg, Broadcasts(readMsg, chunks));
        Requeue(buffers, buffer, Buffers(readMsg, chunks));
        buffers, frames, sent := buffers + [buffer], frames + [frame], sent + [msg];
      }
    }
    unread := Concat(chunks);
  }

  lemma Regroup(done: string, frame: string, rest: string)
    ensures (done + (frame + DELIM)) + rest == done + (frame + DELIM + rest)
  {
  }

  lemma Requeue(done: seq<string>, frame: string, rest: seq<string>)
    ensures done + ([frame] + rest) == (done + [frame]) + rest
  {
  }

  /** Pass `i` of a loop over `stream`: its frame, its broadcast, its buffer, and where the buffer stands. */
  ghost predicate PassOf(stream: string, frames: seq<string>, sent: seq<string>, buffers: seq<string>, i: nat)
    requires i < |frames| == |sent| == |buffers|
  {
    Pass(buffers[i], frames[i], sent[i]) && Encode(frames[..i]) + buffers[i] <= stream
  }

  ghost predicate AllPasses(stream: string, frames: seq<string>, sent: seq<string>, buffers: seq<string>) {
    && |frames| == |sent| == |buffers|
    && forall i :: 0 <= i < |frames| ==> PassOf(stream, frames, sent, buffers, i)
  }

  lemma LaterPass(stream: string, frames: seq<string>, sent: seq<string>, buffers: seq<string>,
                  frame: string, msg: string, buffer: string, i: nat)
    requires i < |frames| == |sent| == |buffers| && PassOf(stream, frames, sent, buffers, i)
    ensures PassOf(frame + DELIM + stream, [frame] + frames, [msg] + sent, [buffer] + buffers, i + 1)
  {
    assert ([frame] + frames)[..i + 1] == [frame] + frames[..i];
    EncodeCons(frame, frames[..i]);
    var done := Encode(frames[..i]);
    assert frame + DELIM + (done + buffers[i]) == (frame + DELIM + done) + buffers[i];
  }

  lemma PassesCons(stream: string, frames: seq<string>, sent: seq<string>, buffers: seq<string>,
                   frame: string, msg: string, buffer: string)
    requires AllPasses(stream, frames, sent, buffers)
    requires Pass(buffer, frame, msg) && buffer <= frame + DELIM + stream
    ensures AllPasses(frame + DELIM + stream, [frame] + frames, [msg] + sent, [buffer] + buffers)
  {
    forall i | 0 <= i < |[frame] + frames|
      ensures PassOf(frame + DELIM + stream, [frame] + frames, [msg] + sent, [buffer] + buffers, i)
    {
      if i == 0 {
        assert Encode(([frame] + frames)[..0]) + buffer == buffer;
      } else {
        LaterPass(stream, frames, sent, buffers, frame, msg, buffer, i - 1);
      }
    }
  }

  /** The three lists that a loop makes of its stream are its passes. */
  lemma {:induction false} LoopPasses(buffer: string, arrivals: seq<string>)
    requires |buffer| <= READ_BUFF_LEN
    ensures AllPasses(buffer + Concat(arrivals), Consumed(buffer + Concat(arrivals), READ_BUFF_LEN),
                      Broadcasts(buffer, arrivals), Buffers(buffer, arrivals))
    decreases |buffer + Concat(arrivals)|
  {
    LoopStep(buffer, arrivals);
    var (b, rest) := ReadUntil(buffer, arrivals, READ_BUFF_LEN);
    var n := FrameEnd(b);
    if n == 0 {
    } else {
      LoopPasses(b[n..], rest);
      BroadcastPass(b);
      PassesCons(b[n..] + Concat(rest), Consumed(b[n..] + Concat(rest), READ_BUFF_LEN), Broadcasts(b[n..], rest),
                 Buffers(b[n..], rest), b[..n - 2], Broadcast(b), b);
    }
  }

  lemma PassesFromTheStart(arrivals: seq<string>)
    ensures AllPasses(Concat(arrivals), Consumed(Concat(arrivals), READ_BUFF_LEN), Broadcasts("", arrivals), Buffers("", arrivals))
  {
    assert "" + Concat(arrivals) == Concat(arrivals);
    LoopPasses("", arrivals);
  }

  /** The frame starts the broadcast, which ends at the last CR or LF of the buffer, and is the frame exactly when
      nothing behind it in the buffer holds one. */
  ghost predicate FrameAndBroadcast(buffer: string, frame: string, sent: string) {
    && frame + DELIM <= buffer && frame <= sent
    && EndsBeforeLast(buffer, sent)
    && (sent == frame <==> NoDelimChar(buffer[|frame + DELIM|..]))
  }

  lemma PassMeans(buffer: string, frame: string, sent: string)
    requires Pass(buffer, frame, sent)
    ensures FrameAndBroadcast(buffer, frame, sent)
  {
    FirstFrame(buffer);
    assert buffer[..|frame|] == frame;
    assert buffer[..|frame| + 2] == frame + DELIM;
  }

  /** For every stream, chunking and pass: how frame and broadcast are related, and that the buffer of the
      pass is a stretch of the stream, from the frame on. */
  lemma EveryPass(arrivals: seq<string>, i: nat)
    requires i < |Consumed(Concat(arrivals), READ_BUFF_LEN)|
    ensures |Buffers("", arrivals)| == |Broadcasts("", arrivals)| == |Consumed(Concat(arrivals), READ_BUFF_LEN)|
    ensures FrameAndBroadcast(Buffers("", arrivals)[i], Consumed(Concat(arrivals), READ_BUFF_LEN)[i], Broadcasts("", arrivals)[i])
    ensures Encode(Consumed(Concat(arrivals), READ_BUFF_LEN)[..i]) + Buffers("", arrivals)[i] <= Concat(arrivals)
  {
    PassesFromTheStart(arrivals);
    assert PassOf(Concat(arrivals), Consumed(Concat(arrivals), READ_BUFF_LEN), Broadcasts("", arrivals), Buffers("", arrivals), i);
    PassMeans(Buffers("", arrivals)[i], Consumed(Concat(arrivals), READ_BUFF_LEN)[i], Broadcasts("", arrivals)[i]);
  }

  ghost predicate FrameAlone(buffer: string) {
    NoDelimChar(buffer[FrameEnd(buffer)..])
  }

  ghost predicate AllAlone(buffers: seq<string>) {
    forall i :: 0 <= i < |buffers| ==> FrameAlone(buffers[i])
  }

  lemma SentAsFramed(stream: string, frames: seq<string>, sent: seq<string>, buffers: seq<string>)
    requires AllPasses(stream, frames, sent, buffers)
    ensures sent == frames <==> AllAlone(buffers)
  {
    forall i | 0 <= i < |buffers|
      ensures sent[i] == frames[i] <==> FrameAlone(buffers[i])
    {
      assert PassOf(stream, frames, sent, buffers, i);
    }
  }

  /** The reader broadcasts the frames, and nothing else, exactly when at every pass nothing behind the frame
      holds a CR or LF. */
  lemma BroadcastAsSent(arrivals: seq<string>)
    ensures Broadcasts("", arrivals) == Consumed(Concat(arrivals), READ_BUFF_LEN) <==> AllAlone(Buffers("", arrivals))
  {
    PassesFromTheStart(arrivals);
    SentAsFramed(Concat(arrivals), Consumed(Concat(arrivals), READ_BUFF_LEN), Broadcasts("", arrivals), Buffers("", arrivals));
  }

  /** The loop takes the frames of the reference splitter in order, and stops only at one that
      does not fit in the buffer. */
  lemma {:induction false} ConsumedIsMaximal(stream: string, max: nat)
    ensures Consumed(stream, max) <= Frames(stream)
    ensures var k := |Consumed(stream, max)|;
            k < |Frames(stream)| ==> max < |Frames(stream)[k]| + 2
    decreases |stream|
  {
    var n := FrameEnd(stream);
    if n == 0 || max < n {
    } else {
      ConsumedIsMaximal(stream[n..], max);
    }
  }

  ghost predicate Fits(msgs: seq<string>, max: nat) {
    forall i :: 0 <= i < |msgs| ==> |msgs[i]| + 2 <= max
  }

  lemma {:induction false} FitsConsumed(stream: string, max: nat)
    ensures Fits(Frames(stream), max) <==> Consumed(stream, max) == Frames(stream)
    decreases |stream|
  {
    var n := FrameEnd(stream);
    if n == 0 {
    } else {
      var frame, tail := stream[..n - 2], Frames(stream[n..]);
      FitsConsumed(stream[n..], max);
      assert Frames(stream) == [frame] + tail;
      if Fits(Frames(stream), max) {
        forall i | 0 <= i < |tail|
          ensures |tail[i]| + 2 <= max
        {
          assert tail[i] == Frames(stream)[i + 1];
        }
        assert |Frames(stream)[0]| + 2 <= max;
      }
    }
  }

  /** Client to server: whatever the chunking, the frames the loop consumes are the messages sent,
      exactly when no message holds the delimiter and each fits in the buffer. */
  lemma RoundTrip(msgs: seq<string>, arrivals: seq<string>)
    requires Concat(arrivals) == Encode(msgs)
    ensures Consumed(Concat(arrivals), READ_BUFF_LEN) == msgs
       <==> (AllDelimFree(msgs) && forall k :: 0 <= k < |msgs| ==> |msgs[k]| <= 1022)
  {
    var s := Encode(msgs);
    assert s + "" == s;
    FitsConsumed(s, READ_BUFF_LEN);
    ConsumedIsMaximal(s, READ_BUFF_LEN);
    FramesUnique(s, msgs, "");
    if Consumed(s, READ_BUFF_LEN) == msgs {
      FramesDelimFree(s);
      forall i | 0 <= i < |msgs|
        ensures DelimFree(msgs[i])
      {
        assert msgs[i] == Frames(s)[i];
      }
    }
  }

  lemma {:induction false} EncodedEnd(msgs: seq<string>) returns (text: string)
    requires msgs != []
    ensures Encode(msgs) == text + DELIM && msgs[0] <= text
    ensures |msgs| == 1 ==> text == msgs[0]
  {
    if |msgs| == 1 {
      text := msgs[0];
      assert Encode(msgs[1..]) == "";
    } else {
      var rest := EncodedEnd(msgs[1..]);
      text := msgs[0] + DELIM + rest;
    }
  }

  /** Frames that arrive together are broadcast together: a buffer of whole messages, and then perhaps the start of
      another without a CR or LF, is broadcast as all of them with the delimiter between them and nothing else. */
  lemma WholeMessagesAreBroadcastTogether(msgs: seq<string>, rest: string)
    requires msgs != [] && AllDelimFree(msgs) && NoDelimChar(rest)
    ensures FrameEnd(Encode(msgs) + rest) == |msgs[0]| + 2
    ensures Broadcast(Encode(msgs) + rest) + DELIM == Encode(msgs)
  {
    var text := EncodedEnd(msgs);
    var buffer := Encode(msgs) + rest;
    var tail := Encode(msgs[1..]) + rest;
    assert buffer == msgs[0] + DELIM + tail;
    FrameEndOfEncoded(msgs[0], tail);
    assert buffer == text + DELIM + rest;
    LastOfWhole(text, rest);
    BroadcastEnds(buffer, text);
  }

  lemma LastOfWhole(text: string, rest: string)
    requires NoDelimChar(rest)
    ensures EndsBeforeLast(text + DELIM + rest, text)
  {
    var buffer := text + DELIM + rest;
    assert buffer[..|text|] == text;
    forall i | |text| + 2 <= i < |buffer|
      ensures buffer[i] != '\r' && buffer[i] != '\n'
    {
      assert buffer[i] == rest[i - |text| - 2];
      assert !IsDelimChar(rest[i - |text| - 2]);
    }
  }

  function OneChunkEach(msgs: seq<string>): seq<string> {
    if msgs == [] then [] else [msgs[0] + DELIM] + OneChunkEach(msgs[1..])
  }

  /** When each message reaches the server in a chunk of its own, what is broadcast is the messages. */
  lemma {:induction false} SeparateChunksBroadcastTheFrames(msgs: seq<string>)
    requires AllDelimFree(msgs) && Fits(msgs, READ_BUFF_LEN)
    ensures Broadcasts("", OneChunkEach(msgs)) == msgs
  {
    if msgs == [] {
    } else {
      var m, chunks := msgs[0], OneChunkEach(msgs);
      var b := m + DELIM;
      assert b == b + "";
      FrameEndOfEncoded(m, "");
      assert "" + b == b;
      assert ReadUntil("", chunks, READ_BUFF_LEN) == ReadUntil(b, chunks[1..], READ_BUFF_LEN) == (b, chunks[1..]);
      BroadcastVersusFrame(b);
      assert b[..|m|] == m && b[|m| + 2..] == "";
      SeparateChunksBroadcastTheFrames(msgs[1..]);
    }
  }

  /** The same two frames in one chunk: the first broadcast then carries both. So the broadcasts
      are not a function of the bytes sent. */
  lemma CoalescedFramesAreBroadcastTogether()
    ensures Broadcasts("", ["a\r\n", "b\r\n"]) == ["a", "b"]
    ensures Broadcasts("", ["a\r\nb\r\n"]) == ["a\r\nb", "b"]
  {
    SeparateExample();
    TwoFramesInOneBuffer();
    BroadcastsOfBuffer("a\r\nb\r\n");
    BroadcastsOfRest("b\r\n");
    assert "a\r\nb\r\n"[3..] == "b\r\n" && "b\r\n"[3..] == "";
    BroadcastsOfNothing();
  }

  lemma BroadcastsOfBuffer(b: string)
    requires 0 < FrameEnd(b) && |b| <= READ_BUFF_LEN
    ensures Broadcasts("", [b]) == [Broadcast(b)] + Broadcasts(b[FrameEnd(b)..], [])
  {
    assert "" + b == b;
    assert ReadUntil("", [b], READ_BUFF_LEN) == ReadUntil(b, [], READ_BUFF_LEN) == (b, []);
  }

  lemma BroadcastsOfRest(b: string)
    requires 0 < FrameEnd(b) && |b| <= READ_BUFF_LEN
    ensures Broadcasts(b, []) == [Broadcast(b)] + Broadcasts(b[FrameEnd(b)..], [])
  {
    assert ReadUntil(b, [], READ_BUFF_LEN) == (b, []);
  }

  lemma BroadcastsOfNothing()
    ensures Broadcasts("", []) == []
  {
  }

  lemma SeparateExample()
    ensures Broadcasts("", ["a\r\n", "b\r\n"]) == ["a", "b"]
  {
    var msgs := ["a", "b"];
    assert DelimFree(msgs[0]) && DelimFree(msgs[1]);
    SeparateChunksBroadcastTheFrames(msgs);
    assert msgs[1..] == ["b"] && ["b"][1..] == [];
    assert OneChunkEach(["b"]) == ["b" + DELIM] + OneChunkEach([]);
    assert "a" + DELIM == "a\r\n" && "b" + DELIM == "b\r\n";
    assert OneChunkEach(msgs) == ["a\r\n", "b\r\n"];
  }

  lemma TwoFramesInOneBuffer()
    ensures FrameEnd("a\r\nb\r\n") == 3 && FrameEnd("b\r\n") == 3
    ensures Broadcast("a\r\nb\r\n") == "a\r\nb" && Broadcast("b\r\n") == "b"
  {
    var b, c := "a\r\nb\r\n", "b\r\n";
    assert DelimAt(b, 1) && DelimAt(c, 1);
    assert !DelimAt(b, 0) && !DelimAt(c, 0);
    FrameEndIs(b, 3);
    FrameEndIs(c, 3);
  }
}
