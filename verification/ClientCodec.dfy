/** The client's end of the wire: TcpClientModel cuts what it receives at the delimiter. */
module ClientCodec {
  import opened Delimiter

  /** QString::split: leftmost, non-overlapping, at least one piece. */
  function Split(s: string): (pieces: seq<string>)
    ensures |pieces| >= 1
  {
    var n := FrameEnd(s);
    if n == 0 then [s] else [s[..n - 2]] + Split(s[n..])
  }

  lemma {:induction false} SplitIsFrames(s: string)
    ensures Split(s) == Frames(s) + [Leftover(s)]
    decreases |s|
  {
    var n := FrameEnd(s);
    if n == 0 {
    } else {
      SplitIsFrames(s[n..]);
    }
  }

  /** The messages recieving_msg makes of one chunk of received data: its pieces, without an empty last one. */
  function Decode(data: string): seq<string> {
    var pieces := Split(data);
    if pieces[|pieces| - 1] == "" then pieces[..|pieces| - 1] else pieces
  }

  lemma DecodeIsFrames(data: string)
    ensures Decode(data) == Frames(data) + (if Leftover(data) == "" then [] else [Leftover(data)])
  {
    SplitIsFrames(data);
  }

  // ---------- the replay ----------

  function SplitAll(msgs: seq<string>): seq<string> {
    if msgs == [] then [] else Split(msgs[0]) + SplitAll(msgs[1..])
  }

  lemma EncodedFrames(m: string)
    ensures Frames(m + DELIM) == Split(m) && Leftover(m + DELIM) == ""
  {
    FramesAppend(m, DELIM);
    SplitIsFrames(m);
    var rest := Leftover(m);
    assert [rest][1..] == [];
    assert Encode([rest]) == rest + DELIM;
    assert rest + DELIM == Encode([rest]) + "";
    FramesOfEncoded([rest], "");
  }

  /** Decoding a replayed history gives every message cut at the delimiters inside it. */
  lemma {:induction false} ReplayDecodes(msgs: seq<string>)
    ensures Frames(Encode(msgs)) == SplitAll(msgs) && Leftover(Encode(msgs)) == ""
    ensures Decode(Encode(msgs)) == SplitAll(msgs)
  {
    if msgs == [] {
    } else {
      var head, tail := msgs[0] + DELIM, Encode(msgs[1..]);
      ReplayDecodes(msgs[1..]);
      EncodedFrames(msgs[0]);
      FramesAppend(head, tail);
      assert "" + tail == tail;
    }
    DecodeIsFrames(Encode(msgs));
  }

  lemma SplitOne(m: string)
    ensures |Split(m)| == 1 <==> DelimFree(m)
    ensures DelimFree(m) ==> Split(m) == [m]
  {
  }

  lemma {:induction false} SplitAllLength(msgs: seq<string>)
    ensures |SplitAll(msgs)| >= |msgs|
    ensures |SplitAll(msgs)| == |msgs| ==> AllDelimFree(msgs)
    ensures AllDelimFree(msgs) ==> SplitAll(msgs) == msgs
  {
    if msgs == [] {
    } else {
      var tail := msgs[1..];
      SplitOne(msgs[0]);
      SplitAllLength(tail);
      if AllDelimFree(msgs) {
        assert forall i :: 0 <= i < |tail| ==> tail[i] == msgs[i + 1];
        assert AllDelimFree(tail);
      }
      if AllDelimFree(tail) && DelimFree(msgs[0]) {
        assert forall i :: 0 < i < |msgs| ==> msgs[i] == tail[i - 1];
      }
    }
  }

  /** The client gets the replayed history back exactly when no message holds the delimiter. */
  lemma ReplayRoundTrip(msgs: seq<string>)
    ensures Decode(Encode(msgs)) == msgs <==> AllDelimFree(msgs)
  {
    ReplayDecodes(msgs);
    SplitAllLength(msgs);
  }

  // ---------- chunks ----------

  function DecodeEach(chunks: seq<string>): seq<string> {
    if chunks == [] then [] else Decode(chunks[0]) + DecodeEach(chunks[1..])
  }

  /** Every chunk but the last one ends where a frame ends. */
  ghost predicate CutAtFrames(chunks: seq<string>) {
    forall i :: 0 <= i < |chunks| - 1 ==> Leftover(chunks[i]) == ""
  }

  lemma CutAtFramesCons(chunks: seq<string>)
    requires chunks != []
    ensures CutAtFrames(chunks) <==> (|chunks| > 1 ==> Leftover(chunks[0]) == "") && CutAtFrames(chunks[1..])
  {
    var tail := chunks[1..];
    assert forall i :: 0 <= i < |tail| ==> tail[i] == chunks[i + 1];
    if (|chunks| > 1 ==> Leftover(chunks[0]) == "") && CutAtFrames(tail) {
      forall i | 0 <= i < |chunks| - 1
        ensures Leftover(chunks[i]) == ""
      {
        if 0 < i {
          assert Leftover(tail[i - 1]) == "";
        }
      }
    }
  }

  predicate EndsWithDelim(s: string) {
    |s| >= 2 && s[|s| - 2] == '\r' && s[|s| - 1] == '\n'
  }

  lemma {:induction false} EncodeEnds(msgs: seq<string>)
    ensures msgs != [] ==> EndsWithDelim(Encode(msgs))
  {
    if msgs == [] {
    } else {
      EncodeEnds(msgs[1..]);
    }
  }

  /** A delimiter is not completed by what comes before it. */
  lemma EndOfConcat(e: string, rest: string)
    requires (e == "" || EndsWithDelim(e)) && rest != ""
    ensures EndsWithDelim(e + rest) ==> DelimAt(rest, |rest| - 2)
  {
  }

  /** Received data is made of whole frames exactly when it ends with the delimiter. */
  lemma NoLeftoverIffEndsWithDelim(s: string)
    requires s != ""
    ensures Leftover(s) == "" <==> EndsWithDelim(s)
  {
    Reassemble(s);
    EncodeEnds(Frames(s));
    var e, rest := Encode(Frames(s)), Leftover(s);
    if rest == "" {
      assert e + "" == e;
    } else {
      EndOfConcat(e, rest);
    }
  }

  lemma Assoc(a: seq<string>, b: seq<string>, c: seq<string>)
    ensures (a + b) + c == a + (b + c)
  {
  }

  lemma DecodeFirst(c: string, rest: string)
    requires Leftover(c) == ""
    ensures Decode(c + rest) == Decode(c) + Decode(rest)
  {
    FramesAppend(c, rest);
    assert "" + rest == rest;
    var end := if Leftover(rest) == "" then [] else [Leftover(rest)];
    DecodeIsFrames(c);
    assert Decode(c) == Frames(c);
    DecodeIsFrames(rest);
    DecodeIsFrames(c + rest);
    Assoc(Frames(c), Frames(rest), end);
  }

  lemma {:induction false} CutAtFramesDecodes(chunks: seq<string>)
    requires CutAtFrames(chunks)
    ensures DecodeEach(chunks) == Decode(Concat(chunks))
  {
    if chunks == [] {
    } else if |chunks| == 1 {
      assert Concat(chunks) == chunks[0];
      assert DecodeEach(chunks[1..]) == [];
    } else {
      CutAtFramesCons(chunks);
      CutAtFramesDecodes(chunks[1..]);
      DecodeFirst(chunks[0], Concat(chunks[1..]));
    }
  }

  /** Chars of the pieces, with two for the delimiter of each. */
  function Size(pieces: seq<string>): nat {
    if pieces == [] then 0 else |pieces[0]| + 2 + Size(pieces[1..])
  }

  lemma {:induction false} SizeAppend(a: seq<string>, b: seq<string>)
    ensures Size(a + b) == Size(a) + Size(b)
  {
    if a == [] {
      assert a + b == b;
    } else {
      assert (a + b)[1..] == a[1..] + b;
      SizeAppend(a[1..], b);
    }
  }

  lemma {:induction false} SizeOfEncoded(msgs: seq<string>)
    ensures |Encode(msgs)| == Size(msgs)
  {
    if msgs == [] {
    } else {
      SizeOfEncoded(msgs[1..]);
    }
  }

  lemma SizeOfOne(piece: string)
    ensures Size([piece]) == |piece| + 2
  {
    assert [piece][1..] == [];
  }

  lemma FramedLength(data: string)
    ensures Size(Frames(data)) + |Leftover(data)| == |data|
  {
    Reassemble(data);
    SizeOfEncoded(Frames(data));
  }

  /** An unfinished last frame costs the two chars of a delimiter that is not there. */
  lemma SizeOfDecoded(data: string)
    ensures Size(Decode(data)) == |data| + (if Leftover(data) == "" then 0 else 2)
  {
    FramedLength(data);
    DecodeIsFrames(data);
    var frames, rest := Frames(data), Leftover(data);
    if rest == "" {
      assert frames + [] == frames;
    } else {
      SizeAppend(frames, [rest]);
      SizeOfOne(rest);
    }
  }

  function OpenChunks(chunks: seq<string>): nat {
    if chunks == [] then 0 else (if Leftover(chunks[0]) == "" then 0 else 1) + OpenChunks(chunks[1..])
  }

  lemma {:induction false} SizeOfChunks(chunks: seq<string>)
    ensures Size(DecodeEach(chunks)) == |Concat(chunks)| + 2 * OpenChunks(chunks)
  {
    if chunks == [] {
    } else {
      SizeOfChunks(chunks[1..]);
      SizeOfDecoded(chunks[0]);
      SizeAppend(Decode(chunks[0]), DecodeEach(chunks[1..]));
    }
  }

  lemma {:induction false} OpenBeforeLast(chunks: seq<string>)
    requires chunks != []
    ensures !CutAtFrames(chunks) ==> OpenChunks(chunks) >= 1 + (if Leftover(chunks[|chunks| - 1]) == "" then 0 else 1)
  {
    if |chunks| == 1 {
    } else {
      CutAtFramesCons(chunks);
      OpenBeforeLast(chunks[1..]);
      LastOpen(chunks[1..]);
    }
  }

  lemma {:induction false} LastOpen(chunks: seq<string>)
    requires chunks != []
    ensures OpenChunks(chunks) >= (if Leftover(chunks[|chunks| - 1]) == "" then 0 else 1)
  {
    if |chunks| == 1 {
    } else {
      LastOpen(chunks[1..]);
    }
  }

  lemma ConcatEnds(chunks: seq<string>)
    requires chunks != [] && EndsWithDelim(chunks[|chunks| - 1])
    ensures EndsWithDelim(Concat(chunks))
  {
    var init, last := chunks[..|chunks| - 1], chunks[|chunks| - 1];
    assert chunks == init + [last];
    ConcatAppend(init, [last]);
    assert Concat([last]) == last;
  }

  /** Decoding chunk by chunk, as the client does, equals decoding the whole stream exactly when every
      chunk before the last one ends with the delimiter. */
  lemma ChunkwiseDecoding(chunks: seq<string>)
    requires forall i :: 0 <= i < |chunks| ==> chunks[i] != ""
    ensures DecodeEach(chunks) == Decode(Concat(chunks))
       <==> forall i :: 0 <= i < |chunks| - 1 ==> EndsWithDelim(chunks[i])
  {
    forall i | 0 <= i < |chunks|
      ensures Leftover(chunks[i]) == "" <==> EndsWithDelim(chunks[i])
    {
      NoLeftoverIffEndsWithDelim(chunks[i]);
    }
    if CutAtFrames(chunks) {
      CutAtFramesDecodes(chunks);
    } else if DecodeEach(chunks) == Decode(Concat(chunks)) {
      SizeOfChunks(chunks);
      SizeOfDecoded(Concat(chunks));
      OpenBeforeLast(chunks);
      ConcatEnds(chunks);
      NoLeftoverIffEndsWithDelim(Concat(chunks));
    }
  }
}
