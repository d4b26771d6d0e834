/** Searching and trimming string views, as std::string_view does it. */
module Trim {
  import opened Wrappers

  /** std::string_view::npos, and the number of values of size_t. */
  const NPOS: nat := 0xFFFF_FFFF_FFFF_FFFF
  const SIZE_MOD: nat := 0x1_0000_0000_0000_0000

  ghost predicate AllIn(s: string, token: string) {
    forall i :: 0 <= i < |s| ==> s[i] in token
  }

  /** find_first_not_of; None for npos. */
  function FindFirstNotOf(s: string, token: string): (r: Option<nat>)
    ensures r.None? <==> AllIn(s, token)
    ensures r.Some? ==> r.value < |s| && s[r.value] !in token && AllIn(s[..r.value], token)
  {
    if s == "" then None
    else if s[0] !in token then Some(0)
    else
      match FindFirstNotOf(s[1..], token)
      case None =>
        assert forall i :: 0 < i < |s| ==> s[i] == s[1..][i - 1];
        None
      case Some(i) =>
        assert s[..i + 1] == [s[0]] + s[1..][..i];
        Some(i + 1)
  }

  /** find_last_not_of; None for npos. */
  function FindLastNotOf(s: string, token: string): (r: Option<nat>)
    ensures r.None? <==> AllIn(s, token)
    ensures r.Some? ==> r.value < |s| && s[r.value] !in token && AllIn(s[r.value + 1..], token)
  {
    if s == "" then None
    else if s[|s| - 1] !in token then Some(|s| - 1)
    else
      var init := s[..|s| - 1];
      match FindLastNotOf(init, token)
      case None =>
        assert forall i :: 0 <= i < |s| - 1 ==> s[i] == init[i];
        None
      case Some(i) =>
        assert s[i + 1..] == init[i + 1..] + [s[|s| - 1]];
        Some(i)
  }

  /** The `last + 1` of the trimming functions: npos + 1 wraps round to 0. */
  function PastLast(last: Option<nat>): (r: nat)
    ensures last.Some? ==> r == last.value + 1
    ensures last.None? ==> r == 0
  {
    match last
    case Some(i) => i + 1
    case None => (NPOS + 1) % SIZE_MOD
  }

  /** Both trimming functions of the loader: drop a prefix of `front` chars, then a suffix of `back` chars. */
  function TrimEnds(s: string, front: string, back: string): string {
    match FindFirstNotOf(s, front)
    case None => ""
    case Some(first) =>
      var sv := s[first..];
      sv[..PastLast(FindLastNotOf(sv, back))]
  }

  /** What trim_json cuts in front of an entry and behind it. */
  const JSON_FRONT: string := " {"
  const JSON_BACK: string := " },"

  function TrimJson(s: string): string { TrimEnds(s, JSON_FRONT, JSON_BACK) }

  function TrimToken(s: string, token: string): string { TrimEnds(s, token, token) }

  /** s[lo..hi] is a non-empty piece of `s` that neither starts nor ends with a token char. */
  ghost predicate Bare(s: string, lo: int, hi: int, token: string) {
    0 <= lo < hi <= |s| && s[lo] !in token && s[hi - 1] !in token
  }

  /** The result is the longest bare piece: it is one, and it encloses every other. With nothing but
      token chars there is none, and the result is empty. */
  lemma TrimTokenIsLongest(s: string, token: string)
    ensures AllIn(s, token) ==> TrimToken(s, token) == ""
    ensures !AllIn(s, token) ==>
              exists lo, hi :: Bare(s, lo, hi, token) && TrimToken(s, token) == s[lo..hi]
                && forall a, b :: Bare(s, a, b, token) ==> lo <= a && b <= hi
  {
    if !AllIn(s, token) {
      var lo := FindFirstNotOf(s, token).value;
      var sv := s[lo..];
      assert sv[0] == s[lo];
      var last := FindLastNotOf(sv, token);
      var hi := lo + last.value + 1;
      assert sv[..last.value + 1] == s[lo..hi];
      assert s[hi - 1] == sv[last.value];
      assert forall i :: 0 <= i < lo ==> s[i] == s[..lo][i];
      assert forall i :: hi <= i < |s| ==> s[i] == sv[last.value + 1..][i - hi];
      assert Bare(s, lo, hi, token);
    }
  }

  /** What trimming cuts off is token chars. */
  lemma TrimTokenAround(s: string, token: string) returns (before: string, after: string)
    ensures s == before + TrimToken(s, token) + after && AllIn(before, token) && AllIn(after, token)
  {
    match FindFirstNotOf(s, token)
    case None =>
      before, after := s, "";
    case Some(first) =>
      var sv := s[first..];
      var end := PastLast(FindLastNotOf(sv, token));
      before, after := s[..first], sv[end..];
      CutInThree(s, first, end);
  }

  lemma CutInThree(s: string, i: nat, n: nat)
    requires i <= |s| && n <= |s| - i
    ensures s == s[..i] + s[i..][..n] + s[i..][n..]
  {
  }

  /** A string that is bare already, or empty, is left alone. */
  lemma TrimTokenKeepsBare(s: string, token: string)
    requires s == "" || Bare(s, 0, |s|, token)
    ensures TrimToken(s, token) == s
  {
    if s != "" {
      TrimTokenIsLongest(s, token);
      assert s[0] in s[..];
      var lo, hi :| Bare(s, lo, hi, token) && TrimToken(s, token) == s[lo..hi]
        && forall a, b :: Bare(s, a, b, token) ==> lo <= a && b <= hi;
      assert lo == 0 && hi == |s|;
    }
  }

  lemma TrimTokenIdempotent(s: string, token: string)
    ensures TrimToken(TrimToken(s, token), token) == TrimToken(s, token)
  {
    TrimTokenIsLongest(s, token);
    if !AllIn(s, token) {
      var lo, hi :| Bare(s, lo, hi, token) && TrimToken(s, token) == s[lo..hi];
      assert Bare(s[lo..hi], 0, hi - lo, token);
    }
    TrimTokenKeepsBare(TrimToken(s, token), token);
  }

  /** trim_json cuts a prefix of spaces and opening braces and a suffix of spaces, closing braces and
      commas. Its second search finds nothing on text such as "{,": the wrapped index then leaves the empty view. */
  lemma TrimJsonCuts(s: string)
    ensures exists lo, hi :: 0 <= lo <= hi <= |s| && TrimJson(s) == s[lo..hi]
              && AllIn(s[..lo], " {") && AllIn(s[hi..], if lo == |s| then " {" else " },")
              && (lo < hi ==> s[lo] !in " {" && s[hi - 1] !in " },")
  {
    match FindFirstNotOf(s, JSON_FRONT)
    case None =>
      assert s[..|s|] == s && TrimJson(s) == s[|s|..|s|];
    case Some(lo) =>
      var sv := s[lo..];
      var last := FindLastNotOf(sv, JSON_BACK);
      var hi := lo + PastLast(last);
      assert TrimJson(s) == s[lo..hi];
      assert s[hi..] == sv[PastLast(last)..];
      if lo < hi {
        assert s[hi - 1] == sv[last.value];
      }
  }

  /** Exactly the decoration round a bare core comes off. */
  lemma TrimEndsStrips(prefix: string, core: string, suffix: string, front: string, back: string)
    requires AllIn(prefix, front) && AllIn(suffix, back)
    requires core != "" && core[0] !in front && core[|core| - 1] !in back
    ensures TrimEnds(prefix + core + suffix, front, back) == core
  {
    var s, p := prefix + core + suffix, |prefix|;
    assert s[p] == core[0];
    assert forall i :: 0 <= i < p ==> s[i] == prefix[i];
    var lo := FindFirstNotOf(s, front).value;
    assert forall i :: 0 <= i < lo ==> s[i] == s[..lo][i];
    assert lo == p;
    assert s[lo..] == core + suffix;
    TrimBackStrips(core, suffix, back);
  }

  lemma TrimBackStrips(core: string, suffix: string, back: string)
    requires AllIn(suffix, back) && core != "" && core[|core| - 1] !in back
    ensures FindLastNotOf(core + suffix, back) == Some(|core| - 1)
  {
    var sv, c := core + suffix, |core|;
    assert sv[c - 1] == core[c - 1];
    assert forall i :: c <= i < |sv| ==> sv[i] == suffix[i - c];
    var last := FindLastNotOf(sv, back).value;
    assert forall i :: last < i < |sv| ==> sv[i] == sv[last + 1..][i - last - 1];
  }
}
