/** The hand-written reader of the server's configuration file. */
module JsonLoader {
  import opened Wrappers
  import opened Trim

  predicate OccursAt(s: string, sub: string, i: nat) {
    i + |sub| <= |s| && s[i..i + |sub|] == sub
  }

  /** std::string_view::contains. */
  predicate Contains(s: string, sub: string) {
    exists i :: 0 <= i <= |s| && OccursAt(s, sub, i)
  }

  predicate HasColon(s: string) { ':' in s }

  /** std::views::split at a colon. */
  function SplitColon(s: string): (pieces: seq<string>)
    ensures |pieces| >= 1
  {
    match FindFirstColon(s)
    case None => [s]
    case Some(i) => [s[..i]] + SplitColon(s[i + 1..])
  }

  function FindFirstColon(s: string): (r: Option<nat>)
    ensures r.None? <==> !HasColon(s)
    ensures r.Some? ==> r.value < |s| && s[r.value] == ':' && !HasColon(s[..r.value])
  {
    if s == "" then None
    else if s[0] == ':' then Some(0)
    else
      match FindFirstColon(s[1..])
      case None => None
      case Some(i) =>
        assert s[..i + 1] == [s[0]] + s[1..][..i];
        Some(i + 1)
  }

  /** Quoted at both ends; the source's size() - 1 is not reached for empty text. */
  predicate IsField(s: string) {
    s != "" && s[0] == '"' && s[|s| - 1] == '"'
  }

  /** The first field among pieces, without its spaces and quotes. */
  function FirstField(pieces: seq<string>): Option<string> {
    if pieces == [] then None
    else if IsField(TrimToken(pieces[0], " ")) then Some(TrimToken(TrimToken(pieces[0], " "), " \""))
    else FirstField(pieces[1..])
  }

  function Field(line: string): Option<string> {
    FirstField(SplitColon(line)[1..])
  }

  /** The line is one the loader looks for this key's value on. */
  predicate Mentions(raw: string, key: string) {
    HasColon(raw) && Contains(TrimJson(raw), key)
  }

  /** The value this line gives the key, if it gives one. */
  function LineValue(raw: string, key: string): (r: Option<string>)
    ensures r.Some? ==> r.value != ""
  {
    if Mentions(raw, key) && Field(TrimJson(raw)).Some? && Field(TrimJson(raw)).value != ""
    then Field(TrimJson(raw)) else None
  }

  /** The value of the first line that gives one. */
  function Value(lines: seq<string>, key: string): Option<string> {
    if lines == [] then None
    else if LineValue(lines[0], key).Some? then LineValue(lines[0], key)
    else Value(lines[1..], key)
  }

  /** Until the key is found, every line that mentions it has a quoted field: where that fails, the
      source takes the front of an empty range. */
  predicate Readable(lines: seq<string>, key: string) {
    lines == [] ||
    if Mentions(lines[0], key) then
      Field(TrimJson(lines[0])).Some? && (LineValue(lines[0], key).Some? || Readable(lines[1..], key))
    else Readable(lines[1..], key)
  }

  predicate Distinct(keys: seq<string>) {
    forall i, j :: 0 <= i < j < |keys| ==> keys[i] != keys[j]
  }

  lemma {:induction false} ValueSnoc(lines: seq<string>, n: nat, key: string)
    requires n < |lines|
    ensures Value(lines[..n + 1], key)
         == if Value(lines[..n], key).Some? then Value(lines[..n], key) else LineValue(lines[n], key)
    decreases |lines|
  {
    var a, b := lines[..n + 1], lines[..n];
    if n == 0 {
      assert b == [] && a[1..] == [];
      assert a[0] == lines[0];
    } else {
      var tail := lines[1..];
      assert a[1..] == tail[..n] && b[1..] == tail[..n - 1];
      ValueSnoc(tail, n - 1, key);
    }
  }

  lemma {:induction false} ReadableAt(lines: seq<string>, n: nat, key: string)
    requires n < |lines| && Readable(lines, key) && Value(lines[..n], key).None?
    ensures Mentions(lines[n], key) ==> Field(TrimJson(lines[n])).Some?
    decreases |lines|
  {
    if n == 0 {
    } else {
      assert lines[..n][1..] == lines[1..][..n - 1];
      ReadableAt(lines[1..], n - 1, key);
    }
  }

  ghost function KeySet(keys: seq<string>): set<string> {
    set k | k in keys
  }

  /** Duplicate keys make the dictionary smaller than the list of keys. */
  lemma {:induction false} KeySetSize(keys: seq<string>)
    ensures |KeySet(keys)| <= |keys|
    ensures |KeySet(keys)| == |keys| <==> Distinct(keys)
  {
    if keys == [] {
    } else {
      var init, last := keys[..|keys| - 1], keys[|keys| - 1];
      KeySetSize(init);
      assert KeySet(keys) == KeySet(init) + {last};
      if last in init {
        assert KeySet(keys) == KeySet(init);
        var i :| 0 <= i < |init| && init[i] == last;
        assert keys[i] == keys[|keys| - 1];
      } else if Distinct(init) {
        assert Distinct(keys);
      }
    }
  }

  lemma SubsetSize(a: set<string>, b: set<string>)
    requires a <= b
    ensures |a| <= |b|
    ensures |a| == |b| ==> a == b
  {
    assert b == a + (b - a);
    assert |b| == |a| + |b - a|;
  }

  /** The dictionary holds, for every key among the first `j`, what the first n + 1 lines give it, and for
      the other keys what the first n lines give them. */
  ghost predicate Filled(dict: map<string, string>, lines: seq<string>, n: nat, keys: seq<string>, j: nat)
    requires n < |lines| && j <= |keys|
  {
    forall k :: if k in keys[..j] then Holds(dict, lines[..n + 1], k)
                else if k in keys then Holds(dict, lines[..n], k)
                else k !in dict
  }

  ghost predicate Holds(dict: map<string, string>, lines: seq<string>, k: string) {
    (k in dict <==> Value(lines, k).Some?) && (k in dict ==> dict[k] == Value(lines, k).value)
  }

  ghost predicate Complete(dict: map<string, string>, lines: seq<string>, keys: seq<string>) {
    forall k :: if k in keys then Holds(dict, lines, k) else k !in dict
  }

  lemma CompleteKeys(dict: map<string, string>, lines: seq<string>, keys: seq<string>)
    requires Complete(dict, lines, keys)
    ensures dict.Keys <= KeySet(keys)
    ensures dict.Keys == KeySet(keys) <==> forall k :: k in keys ==> Value(lines, k).Some?
  {
    forall k | k in keys
      ensures k in dict.Keys <==> Value(lines, k).Some?
    {
      assert Holds(dict, lines, k);
    }
    if forall k :: k in keys ==> Value(lines, k).Some? {
      assert forall k :: k in KeySet(keys) ==> k in dict.Keys;
    }
  }

  /** The size of the dictionary tells whether every key was found and none asked for twice. */
  lemma CompleteSize(dict: map<string, string>, lines: seq<string>, keys: seq<string>)
    requires Complete(dict, lines, keys)
    ensures |dict| == |keys| <==> Distinct(keys) && forall k :: k in keys ==> Value(lines, k).Some?
    ensures |dict| == |keys| ==> dict.Keys == KeySet(keys)
    ensures forall k :: k in keys && k in dict ==> dict[k] == Value(lines, k).value
  {
    CompleteKeys(dict, lines, keys);
    KeySetSize(keys);
    SubsetSize(dict.Keys, KeySet(keys));
    assert |dict| == |dict.Keys|;
    forall k | k in keys && k in dict
      ensures dict[k] == Value(lines, k).value
    {
      assert Holds(dict, lines, k);
    }
  }

  /**
   build_json_dict on the lines of the file: it succeeds exactly when no key is asked for twice and
   every key was found, and then maps each key to the first value a line gives it.
   */
  method BuildJsonDict(lines: seq<string>, keys: seq<string>) returns (r: Result<map<string, string>, string>)
    requires forall k :: k in keys ==> Readable(lines, k)
    ensures r.Success? <==> Distinct(keys) && forall k :: k in keys ==> Value(lines, k).Some?
    ensures r.Success? ==> r.value.Keys == KeySet(keys) && forall k :: k in keys ==> r.value[k] == Value(lines, k).value
  {
    var dict: map<string, string> := map[];
    var n := 0;
    while n < |lines|
      invariant 0 <= n <= |lines|
      invariant Complete(dict, lines[..n], keys)
    {
      if HasColon(lines[n]) {
        dict := ReadLine(dict, lines, n, keys);
      } else {
        SkipLine(dict, lines, n, keys);
      }
      n := n + 1;
    }
    assert lines[..n] == lines;
    CompleteSize(dict, lines, keys);
    if |dict| != |keys| {
      return Failure("Json fields does not match requiered keys");
    }
    return Success(dict);
  }

  lemma SkipLine(dict: map<string, string>, lines: seq<string>, n: nat, keys: seq<string>)
    requires n < |lines| && !HasColon(lines[n]) && Complete(dict, lines[..n], keys)
    ensures Complete(dict, lines[..n + 1], keys)
  {
    forall k | k in keys
      ensures Holds(dict, lines[..n + 1], k)
    {
      ValueSnoc(lines, n, k);
    }
  }

  /** The inner loop: one line, every key. */
  method ReadLine(before: map<string, string>, lines: seq<string>, n: nat, keys: seq<string>)
    returns (dict: map<string, string>)
    requires n < |lines| && HasColon(lines[n])
    requires forall k :: k in keys ==> Readable(lines, k)
    requires Complete(before, lines[..n], keys)
    ensures Complete(dict, lines[..n + 1], keys)
  {
    dict := before;
    var line := TrimJson(lines[n]);
    var j := 0;
    while j < |keys|
      invariant 0 <= j <= |keys|
      invariant Filled(dict, lines, n, keys, j)
    {
      var key := keys[j];
      ValueSnoc(lines, n, key);
      ghost var was := dict;
      if Contains(line, key) && key !in dict {
        ReadableAt(lines, n, key);
        var value := Field(line).value;
        if value != "" {
          dict := dict[key := value];
        }
      }
      FilledNext(was, dict, lines, n, keys, j);
      j := j + 1;
    }
    assert keys[..j] == keys;
  }

  lemma FilledNext(was: map<string, string>, dict: map<string, string>, lines: seq<string>, n: nat, keys: seq<string>, j: nat)
    requires n < |lines| && j < |keys| && Filled(was, lines, n, keys, j)
    requires Holds(dict, lines[..n + 1], keys[j])
    requires forall k :: k != keys[j] ==> (k in dict <==> k in was) && (k in dict ==> dict[k] == was[k])
    ensures Filled(dict, lines, n, keys, j + 1)
  {
    assert keys[..j + 1] == keys[..j] + [keys[j]];
  }
}
