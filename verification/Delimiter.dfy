/**
 The wire delimiter "\r\n" and the reference splitter both ends are compared with.
 One char of the model is one char of the C++ std::string (or QString) it stands for.
 */
module Delimiter {
  const DELIM: string := "\r\n"

  predicate DelimAt(s: string, i: int) {
    0 <= i < |s| - 1 && s[i] == '\r' && s[i + 1] == '\n'
  }

  ghost predicate DelimFree(s: string) {
    forall i :: 0 <= i < |s| ==> !DelimAt(s, i)
  }

  ghost predicate AllDelimFree(msgs: seq<string>) {
    forall i :: 0 <= i < |msgs| ==> DelimFree(msgs[i])
  }

  /** Index just past the first delimiter at or after `from`; 0 when there is none. */
  function FrameEndFrom(s: string, from: nat): (n: nat)
    requires from <= |s|
    ensures n == 0 ==> forall i :: from <= i ==> !DelimAt(s, i)
    ensures n != 0 ==> from + 2 <= n <= |s| && DelimAt(s, n - 2)
    ensures n != 0 ==> forall i :: from <= i < n - 2 ==> !DelimAt(s, i)
    decreases |s| - from
  {
    if |s| - from < 2 then 0
    else if DelimAt(s, from) then from + 2
    else FrameEndFrom(s, from + 1)
  }

  function FrameEnd(s: string): (n: nat)
    ensures n == 0 <==> DelimFree(s)
    ensures n != 0 ==> 2 <= n <= |s| && DelimAt(s, n - 2)
    ensures n != 0 ==> forall i :: 0 <= i < n - 2 ==> !DelimAt(s, i)
  {
    FrameEndFrom(s, 0)
  }

  /** The complete frames of `s`, without their delimiters. */
  function Frames(s: string): seq<string> {
    var n := FrameEnd(s);
    if n == 0 then [] else [s[..n - 2]] + Frames(s[n..])
  }

  /** What follows the last complete frame. */
  function Leftover(s: string): (r: string)
    ensures DelimFree(r)
  {
    var n := FrameEnd(s);
    if n == 0 then s else Leftover(s[n..])
  }

  function Concat(parts: seq<string>): string {
    if parts == [] then "" else parts[0] + Concat(parts[1..])
  }

  function Flatten(parts: seq<seq<string>>): seq<string> {
    if parts == [] then [] else parts[0] + Flatten(parts[1..])
  }

  /** Each message followed by the delimiter, as both senders put it on the wire. */
  function Encode(msgs: seq<string>): string {
    if msgs == [] then "" else msgs[0] + DELIM + Encode(msgs[1..])
  }

  lemma FrameEndIs(s: string, n: nat)
    requires 2 <= n && DelimAt(s, n - 2)
    requires forall i :: 0 <= i < n - 2 ==> !DelimAt(s, i)
    ensures FrameEnd(s) == n
  {
    assert DelimAt(s, n - 2);
  }

  /** Bytes that arrive later never move the end of a frame that is already complete. */
  lemma FrameEndAppend(s: string, t: string)
    requires FrameEnd(s) != 0
    ensures FrameEnd(s + t) == FrameEnd(s)
  {
    var n := FrameEnd(s);
    forall i | 0 <= i < n - 2
      ensures !DelimAt(s + t, i)
    {
      assert !DelimAt(s, i);
    }
    assert DelimAt(s + t, n - 2);
    FrameEndIs(s + t, n);
  }

  /** A message that ends in CR does not create an earlier delimiter. */
  lemma FrameEndOfEncoded(m: string, rest: string)
    requires DelimFree(m)
    ensures FrameEnd(m + DELIM + rest) == |m| + 2
  {
    var s := m + DELIM + rest;
    forall i | 0 <= i < |m|
      ensures !DelimAt(s, i)
    {
      assert !DelimAt(m, i);
    }
    assert DelimAt(s, |m|);
    FrameEndIs(s, |m| + 2);
  }

  lemma {:induction false} FramesOfEncoded(msgs: seq<string>, rest: string)
    requires AllDelimFree(msgs) && DelimFree(rest)
    ensures Frames(Encode(msgs) + rest) == msgs
    ensures Leftover(Encode(msgs) + rest) == rest
  {
    var s := Encode(msgs) + rest;
    if msgs == [] {
      assert s == rest;
    } else {
      var tail := Encode(msgs[1..]) + rest;
      assert s == msgs[0] + DELIM + tail;
      FrameEndOfEncoded(msgs[0], tail);
      assert s[|msgs[0]| + 2..] == tail;
      assert s[..|msgs[0]|] == msgs[0];
      FramesOfEncoded(msgs[1..], rest);
    }
  }

  /** The first frame, its delimiter, and the rest make up the stream. */
  lemma FirstFrame(s: string)
    requires FrameEnd(s) != 0
    ensures DelimFree(s[..FrameEnd(s) - 2])
    ensures s == s[..FrameEnd(s) - 2] + DELIM + s[FrameEnd(s)..]
  {
    var n := FrameEnd(s);
    var head := s[..n - 2];
    forall i | 0 <= i < |head|
      ensures !DelimAt(head, i)
    {
      assert !DelimAt(s, i);
    }
    assert s[n - 2..n] == DELIM;
  }

  lemma {:induction false} FramesDelimFree(s: string)
    ensures AllDelimFree(Frames(s))
    decreases |s|
  {
    var n := FrameEnd(s);
    if n == 0 {
    } else {
      FirstFrame(s);
      FramesDelimFree(s[n..]);
    }
  }

  lemma EncodeCons(m: string, msgs: seq<string>)
    ensures Encode([m] + msgs) == m + DELIM + Encode(msgs)
  {
    assert ([m] + msgs)[1..] == msgs;
  }

  lemma ConcatAssoc(a: string, b: string, c: string)
    ensures (a + b) + c == a + (b + c)
  {
  }

  lemma {:induction false} Reassemble(s: string)
    ensures Encode(Frames(s)) + Leftover(s) == s
    decreases |s|
  {
    var n := FrameEnd(s);
    if n == 0 {
      assert "" + s == s;
    } else {
      var head, tail := s[..n - 2], s[n..];
      Reassemble(tail);
      FirstFrame(s);
      EncodeCons(head, Frames(tail));
      ConcatAssoc(head + DELIM, Encode(Frames(tail)), Leftover(tail));
    }
  }

  /** The splitter is exactly the inverse of the encoder: a stream has one reading as
      delimiter-free messages followed by a delimiter-free leftover, and Frames finds it. */
  lemma FramesUnique(s: string, msgs: seq<string>, rest: string)
    ensures (AllDelimFree(msgs) && DelimFree(rest) && s == Encode(msgs) + rest)
        <==> (Frames(s) == msgs && Leftover(s) == rest)
  {
    Reassemble(s);
    FramesDelimFree(s);
    if AllDelimFree(msgs) && DelimFree(rest) {
      FramesOfEncoded(msgs, rest);
    }
  }

  /** The first frame of a stream stays the first frame when the stream goes on. */
  lemma FirstFrameStays(s: string, t: string)
    requires FrameEnd(s) != 0
    ensures var n := FrameEnd(s);
            && Frames(s + t) == [s[..n - 2]] + Frames(s[n..] + t)
            && Leftover(s + t) == Leftover(s[n..] + t)
  {
    var n := FrameEnd(s);
    FrameEndAppend(s, t);
    assert (s + t)[..n - 2] == s[..n - 2];
    assert (s + t)[n..] == s[n..] + t;
  }

  lemma AfterFirst(frame: string, a: seq<string>, b: seq<string>)
    ensures [frame] + (a + b) == ([frame] + a) + b
  {
  }

  /** Splitting may be done as the bytes arrive: only the leftover has to be kept. */
  lemma {:induction false} FramesAppend(s: string, t: string)
    ensures Frames(s + t) == Frames(s) + Frames(Leftover(s) + t)
    ensures Leftover(s + t) == Leftover(Leftover(s) + t)
    decreases |s|
  {
    var n := FrameEnd(s);
    if n == 0 {
    } else {
      FirstFrameStays(s, t);
      FramesAppend(s[n..], t);
      AfterFirst(s[..n - 2], Frames(s[n..]), Frames(Leftover(s[n..]) + t));
    }
  }

  lemma {:induction false} ConcatAppend(a: seq<string>, b: seq<string>)
    ensures Concat(a + b) == Concat(a) + Concat(b)
  {
    if a == [] {
      assert a + b == b;
    } else {
      assert (a + b)[1..] == a[1..] + b;
      ConcatAppend(a[1..], b);
    }
  }

  lemma {:induction false} EncodeAppend(a: seq<string>, b: seq<string>)
    ensures Encode(a + b) == Encode(a) + Encode(b)
  {
    if a == [] {
      assert a + b == b;
    } else {
      assert (a + b)[1..] == a[1..] + b;
      EncodeAppend(a[1..], b);
    }
  }

  lemma EncodeSnoc(msgs: seq<string>, m: string)
    ensures Encode(msgs + [m]) == Encode(msgs) + (m + DELIM)
  {
    EncodeAppend(msgs, [m]);
    assert Encode([m]) == m + DELIM;
  }
}
