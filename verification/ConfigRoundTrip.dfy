/** Writing a configuration file and loading it again. */
module ConfigRoundTrip {
  import opened Wrappers
  import opened Trim
  import opened JsonLoader

  /** A line of the file: one entry with its decoration, or anything without a colon. */
  datatype Line =
    | Entry(name: string, value: string, prefix: string, gap: string, suffix: string)
    | Other(text: string)

  function Quoted(s: string): string { "\"" + s + "\"" }

  function Core(l: Line): string
    requires l.Entry?
  {
    Quoted(l.name) + (":" + l.gap) + Quoted(l.value)
  }

  function RenderLine(l: Line): string {
    match l
    case Entry(_, _, prefix, _, suffix) => prefix + Core(l) + suffix
    case Other(text) => text
  }

  function Render(doc: seq<Line>): (lines: seq<string>)
    ensures |lines| == |doc|
  {
    if doc == [] then [] else [RenderLine(doc[0])] + Render(doc[1..])
  }

  ghost predicate Plain(s: string) {
    '"' !in s && ':' !in s
  }

  /** An entry in its decoration. */
  ghost predicate PlainLine(l: Line) {
    && l.Entry? && Plain(l.name) && Plain(l.value)
    && AllIn(l.prefix, " {") && AllIn(l.gap, " ") && AllIn(l.suffix, " },")
  }

  ghost predicate WellFormedLine(l: Line) {
    match l
    case Entry(_, value, _, _, _) =>
      PlainLine(l) && value != "" && value[0] != ' ' && value[|value| - 1] != ' '
    case Other(text) => !HasColon(text)
  }

  /** Every name is written once. */
  ghost predicate WellFormed(doc: seq<Line>) {
    && (forall i :: 0 <= i < |doc| ==> WellFormedLine(doc[i]))
    && (forall i, j :: 0 <= i < j < |doc| && doc[i].Entry? && doc[j].Entry? ==> doc[i].name != doc[j].name)
  }

  /** An earlier entry's value reads like the name of this entry. */
  ghost predicate Shadowed(doc: seq<Line>, i: int)
    requires 0 <= i < |doc| && doc[i].Entry?
  {
    exists j :: 0 <= j < i && doc[j].Entry? && doc[j].value == doc[i].name
  }

  // ---------- one line ----------

  /** Text with exactly four quotes: one name, what is between, and one value. */
  lemma QuotesOf(a: string, m: string, v: string, i: nat)
    requires '"' !in a && '"' !in m && '"' !in v
    requires i < |Quoted(a) + m + Quoted(v)|
    ensures (Quoted(a) + m + Quoted(v))[i] == '"'
       <==> i == 0 || i == |a| + 1 || i == |a| + |m| + 2 || i == |a| + |m| + |v| + 3
  {
    var s := Quoted(a) + m + Quoted(v);
    if 0 < i < |a| + 1 {
      assert s[i] == a[i - 1];
    } else if |a| + 1 < i < |a| + |m| + 2 {
      assert s[i] == m[i - |a| - 2];
    } else if |a| + |m| + 2 < i < |a| + |m| + |v| + 3 {
      assert s[i] == v[i - |a| - |m| - 3];
    }
  }

  /** The text between the quotes of an occurrence. */
  lemma BetweenQuotes(s: string, n: string, i: nat)
    requires OccursAt(s, Quoted(n), i)
    ensures i + |n| + 2 <= |s| && s[i] == '"' && s[i + |n| + 1] == '"'
    ensures s[i + 1..i + |n| + 1] == n
  {
    var occurrence := s[i..i + |n| + 2];
    assert occurrence == Quoted(n);
    assert s[i] == occurrence[0] && s[i + |n| + 1] == occurrence[|n| + 1];
    forall k | 0 <= k < |n|
      ensures s[i + 1 + k] == n[k]
    {
      assert s[i + 1 + k] == occurrence[k + 1];
    }
  }

  lemma PiecesOf(a: string, m: string, v: string)
    ensures var s := Quoted(a) + m + Quoted(v);
            && s[1..|a| + 1] == a
            && s[|a| + 2..|a| + |m| + 2] == m
            && s[|a| + |m| + 3..|a| + |m| + |v| + 3] == v
  {
  }

  /** Two quotes with none between them stand round one of the three. */
  lemma NextQuote(a: string, m: string, v: string, i: nat, e: nat)
    requires '"' !in a && '"' !in m && '"' !in v
    requires var s := Quoted(a) + m + Quoted(v);
             i < e < |s| && s[i] == '"' && s[e] == '"' && forall k :: i < k < e ==> s[k] != '"'
    ensures (i == 0 && e == |a| + 1) || (i == |a| + 1 && e == |a| + |m| + 2)
         || (i == |a| + |m| + 2 && e == |a| + |m| + |v| + 3)
  {
    QuotesOf(a, m, v, i);
    QuotesOf(a, m, v, e);
    QuotesOf(a, m, v, |a| + 1);
    QuotesOf(a, m, v, |a| + |m| + 2);
  }

  /** A quoted name occurs in it only as the name, as the value, or as what stands between the two. */
  lemma QuotedOccurrence(a: string, m: string, v: string, n: string, i: nat)
    requires '"' !in a && '"' !in m && '"' !in v && '"' !in n
    requires OccursAt(Quoted(a) + m + Quoted(v), Quoted(n), i)
    ensures n == a || n == m || n == v
  {
    var s, e := Quoted(a) + m + Quoted(v), i + |n| + 1;
    BetweenQuotes(s, n, i);
    forall k | i < k < e
      ensures s[k] != '"'
    {
      assert s[k] == s[i + 1..e][k - i - 1];
    }
    NextQuote(a, m, v, i, e);
    PiecesOf(a, m, v);
  }

  lemma CoreTrimmed(l: Line)
    requires PlainLine(l)
    ensures HasColon(RenderLine(l)) && TrimJson(RenderLine(l)) == Core(l)
  {
    var core := Core(l);
    assert core[|l.name| + 2] == ':';
    assert RenderLine(l)[|l.prefix| + |l.name| + 2] == ':';
    assert core[0] == '"' && core[|core| - 1] == '"';
    TrimEndsStrips(l.prefix, core, l.suffix, JSON_FRONT, JSON_BACK);
  }

  lemma NameOccurs(a: string, m: string, v: string)
    ensures Contains(Quoted(a) + m + Quoted(v), Quoted(a))
    ensures Contains(Quoted(a) + m + Quoted(v), Quoted(v))
  {
    var s, at := Quoted(a) + m + Quoted(v), |a| + 2 + |m|;
    assert s[0..|a| + 2] == Quoted(a) && OccursAt(s, Quoted(a), 0);
    assert s[at..at + |v| + 2] == Quoted(v) && OccursAt(s, Quoted(v), at);
  }

  lemma WhatOccurs(a: string, m: string, v: string, n: string)
    requires '"' !in a && '"' !in m && '"' !in v && '"' !in n && n != m
    ensures Contains(Quoted(a) + m + Quoted(v), Quoted(n)) <==> n == a || n == v
  {
    NameOccurs(a, m, v);
    var s := Quoted(a) + m + Quoted(v);
    if Contains(s, Quoted(n)) {
      var i :| 0 <= i <= |s| && OccursAt(s, Quoted(n), i);
      QuotedOccurrence(a, m, v, n, i);
    }
  }

  /** The line mentions exactly its own name, and the name its value happens to equal. */
  lemma MentionsOwnName(l: Line, n: string)
    requires PlainLine(l) && Plain(n)
    ensures Mentions(RenderLine(l), Quoted(n)) <==> n == l.name || n == l.value
  {
    CoreTrimmed(l);
    GapIsPlain(l.gap);
    WhatOccurs(l.name, ":" + l.gap, l.value, n);
  }

  lemma GapIsPlain(gap: string)
    requires AllIn(gap, " ")
    ensures '"' !in gap && ':' in ":" + gap && '"' !in ":" + gap
  {
    assert forall k :: 0 <= k < |gap| ==> gap[k] in " ";
    assert (":" + gap)[0] == ':';
  }

  lemma SplitAtColon(a: string, b: string)
    requires !HasColon(a) && !HasColon(b)
    ensures SplitColon(a + ":" + b) == [a, b]
  {
    var s := a + ":" + b;
    assert s[|a|] == ':';
    var i := FindFirstColon(s).value;
    assert forall k :: 0 <= k < |a| ==> s[k] == a[k];
    assert forall k :: 0 <= k < i ==> s[k] == s[..i][k];
    assert i == |a|;
    assert s[..|a|] == a && s[|a| + 1..] == b;
    assert SplitColon(b) == [b];
  }

  lemma QuotedHasNoColon(s: string)
    requires Plain(s)
    ensures !HasColon(Quoted(s))
  {
    forall k | 0 <= k < |Quoted(s)|
      ensures Quoted(s)[k] != ':'
    {
      assert 0 < k <= |s| ==> Quoted(s)[k] == s[k - 1];
    }
  }

  lemma CoreSplit(l: Line)
    requires PlainLine(l)
    ensures SplitColon(Core(l)) == [Quoted(l.name), l.gap + Quoted(l.value)]
  {
    QuotedHasNoColon(l.name);
    QuotedHasNoColon(l.value);
    assert forall k :: 0 <= k < |l.gap| ==> l.gap[k] in " ";
    assert Core(l) == Quoted(l.name) + ":" + (l.gap + Quoted(l.value));
    SplitAtColon(Quoted(l.name), l.gap + Quoted(l.value));
  }

  lemma GapTrimmed(gap: string, value: string)
    requires AllIn(gap, " ")
    ensures TrimToken(gap + Quoted(value), " ") == Quoted(value)
  {
    var q := Quoted(value);
    assert q[0] == '"' && q[|q| - 1] == '"';
    assert gap + q + "" == gap + q;
    TrimEndsStrips(gap, q, "", " ", " ");
  }

  lemma QuotesTrimmed(value: string)
    requires value != "" && value[0] !in " \"" && value[|value| - 1] !in " \""
    ensures TrimToken(Quoted(value), " \"") == value
  {
    TrimEndsStrips("\"", value, "\"", " \"", " \"");
  }

  /** A value and its gap: the spaces go first, then the quotes. */
  lemma ValueTrimmed(gap: string, value: string)
    requires AllIn(gap, " ") && Plain(value)
    requires value != "" && value[0] != ' ' && value[|value| - 1] != ' '
    ensures TrimToken(gap + Quoted(value), " ") == Quoted(value)
    ensures TrimToken(Quoted(value), " \"") == value
  {
    GapTrimmed(gap, value);
    assert value[0] != '"' && value[|value| - 1] != '"';
    QuotesTrimmed(value);
  }

  lemma FieldOfCore(l: Line)
    requires l.Entry? && WellFormedLine(l)
    ensures Field(Core(l)) == Some(l.value)
  {
    var b := l.gap + Quoted(l.value);
    CoreSplit(l);
    assert SplitColon(Core(l))[1..] == [b];
    ValueTrimmed(l.gap, l.value);
    assert IsField(Quoted(l.value));
  }

  lemma PadIsPlain(pad: string)
    requires AllIn(pad, " ")
    ensures Plain(pad)
  {
    assert forall k :: 0 <= k < |pad| ==> pad[k] in " ";
  }

  /** What a line gives its own name, once its quoted text is trimmed. */
  lemma LineGivesTrimmed(l: Line, value: string)
    requires PlainLine(l) && TrimToken(Quoted(l.value), " \"") == value
    ensures LineValue(RenderLine(l), Quoted(l.name)) == if value != "" then Some(value) else None
  {
    CoreTrimmed(l);
    MentionsOwnName(l, l.name);
    CoreSplit(l);
    GapTrimmed(l.gap, l.value);
    assert IsField(Quoted(l.value));
    assert SplitColon(Core(l))[1..] == [l.gap + Quoted(l.value)];
  }

  lemma PadTrimmed(left: string, value: string, right: string)
    requires AllIn(left, " ") && AllIn(right, " ")
    requires value != "" && value[0] !in " \"" && value[|value| - 1] !in " \""
    ensures TrimToken(Quoted(left + value + right), " \"") == value
  {
    var before, after := "\"" + left, right + "\"";
    assert Quoted(left + value + right) == before + value + after;
    assert AllIn(before, " \"");
    assert AllIn(after, " \"");
    TrimEndsStrips(before, value, after, " \"", " \"");
  }

  /** Spaces between the quotes and the value go too. */
  lemma PaddedValue(l: Line, left: string, right: string)
    requires l.Entry? && WellFormedLine(l) && AllIn(left, " ") && AllIn(right, " ")
    ensures LineValue(RenderLine(l.(value := left + l.value + right)), Quoted(l.name)) == Some(l.value)
  {
    PadIsPlain(left);
    PadIsPlain(right);
    assert l.value[0] != '"' && l.value[|l.value| - 1] != '"';
    PadTrimmed(left, l.value, right);
    LineGivesTrimmed(l.(value := left + l.value + right), l.value);
  }

  lemma OnlyPad(pad: string)
    requires AllIn(pad, " ")
    ensures TrimToken(Quoted(pad), " \"") == ""
  {
    assert AllIn(Quoted(pad), " \"");
    TrimTokenIsLongest(Quoted(pad), " \"");
  }

  /** A value of nothing but spaces, or of nothing, is passed over. */
  lemma EmptyValueIsPassedOver(l: Line)
    requires PlainLine(l) && AllIn(l.value, " ")
    ensures LineValue(RenderLine(l), Quoted(l.name)) == None
  {
    OnlyPad(l.value);
    LineGivesTrimmed(l, "");
  }

  /** Text behind the colon counts only when it is quoted at both ends. */
  lemma FieldNeedsBothQuotes(n: string, text: string)
    requires Plain(n) && !HasColon(text)
    ensures var t := TrimToken(text, " ");
            Field(Quoted(n) + ":" + text).Some? <==> t != "" && t[0] == '"' && t[|t| - 1] == '"'
  {
    QuotedHasNoColon(n);
    SplitAtColon(Quoted(n), text);
    assert SplitColon(Quoted(n) + ":" + text)[1..] == [text];
    OnePiece(text);
  }

  lemma OnePiece(text: string)
    ensures FirstField([text]).Some? <==> IsField(TrimToken(text, " "))
  {
    var pieces: seq<string> := [text];
    assert pieces[1..] == [];
  }

  // ---------- the file ----------

  lemma {:induction false} RenderAt(doc: seq<Line>, i: nat)
    requires i < |doc|
    ensures Render(doc)[i] == RenderLine(doc[i])
  {
    if i == 0 {
    } else {
      RenderAt(doc[1..], i - 1);
    }
  }

  /** What one line gives the key of a name: its value, if the name is its own or reads like its value. */
  lemma LineGives(l: Line, n: string)
    requires WellFormedLine(l) && Plain(n)
    ensures LineValue(RenderLine(l), Quoted(n)) == (if l.Entry? && (n == l.name || n == l.value) then Some(l.value) else None)
    ensures Mentions(RenderLine(l), Quoted(n)) ==> LineValue(RenderLine(l), Quoted(n)).Some?
  {
    if l.Entry? {
      CoreTrimmed(l);
      FieldOfCore(l);
      MentionsOwnName(l, n);
    }
  }

  lemma ValueOfFirst(line: string, lines: seq<string>, key: string)
    requires Mentions(line, key) ==> LineValue(line, key).Some?
    ensures var given := LineValue(line, key);
            && Value([line] + lines, key) == (if given.Some? then given else Value(lines, key))
            && (Readable([line] + lines, key) <==> given.Some? || Readable(lines, key))
  {
    assert ([line] + lines)[1..] == lines;
  }

  lemma WellFormedTail(doc: seq<Line>)
    requires WellFormed(doc) && doc != []
    ensures WellFormed(doc[1..])
  {
    assert forall k :: 0 <= k < |doc[1..]| ==> doc[1..][k] == doc[k + 1];
  }

  /** Lines before the key's own are passed over and its own gives the value, unless an earlier value reads
      like the name: then that is what the loader takes. */
  lemma {:induction false} FoundAtItsLine(doc: seq<Line>, i: nat)
    requires WellFormed(doc) && i < |doc| && doc[i].Entry?
    ensures Readable(Render(doc), Quoted(doc[i].name))
    ensures Value(Render(doc), Quoted(doc[i].name)) == Some(if Shadowed(doc, i) then doc[i].name else doc[i].value)
  {
    var l, n := doc[0], doc[i].name;
    assert WellFormedLine(l) && WellFormedLine(doc[i]);
    LineGives(l, n);
    ValueOfFirst(RenderLine(l), Render(doc[1..]), Quoted(n));
    if i == 0 {
    } else if l.Entry? && l.value == n {
      assert Shadowed(doc, i);
    } else {
      WellFormedTail(doc);
      FoundAtItsLine(doc[1..], i - 1);
      ShadowedInTail(doc, i);
    }
  }

  lemma ShadowedInTail(doc: seq<Line>, i: nat)
    requires 0 < i < |doc| && doc[i].Entry? && !(doc[0].Entry? && doc[0].value == doc[i].name)
    ensures Shadowed(doc, i) <==> Shadowed(doc[1..], i - 1)
  {
    var tail := doc[1..];
    assert forall k :: 0 <= k < |tail| ==> tail[k] == doc[k + 1];
    if Shadowed(doc, i) {
      var j :| 0 <= j < i && doc[j].Entry? && doc[j].value == doc[i].name;
      assert tail[j - 1] == doc[j];
    }
  }

  /** Where the entry of a name is. */
  ghost predicate NamedAt(doc: seq<Line>, key: string, i: int) {
    0 <= i < |doc| && doc[i].Entry? && key == Quoted(doc[i].name)
  }

  /** Loading a rendered file gives a key the value that was written, whatever the order of the entries and
      the decoration, exactly when no earlier value reads like the key's name (or the two are the same text). */
  lemma RoundTrip(doc: seq<Line>, key: string, i: nat)
    requires WellFormed(doc) && NamedAt(doc, key, i)
    ensures Readable(Render(doc), key)
    ensures Value(Render(doc), key) == Some(doc[i].value) <==> !Shadowed(doc, i) || doc[i].value == doc[i].name
  {
    FoundAtItsLine(doc, i);
  }

  /** The loader on a rendered file: with no shadowed entry the dictionary is exactly the map that was written,
      for the keys asked for, in whatever order. */
  method LoadRendered(doc: seq<Line>, keys: seq<string>) returns (r: Result<map<string, string>, string>)
    requires WellFormed(doc) && Distinct(keys)
    requires forall k :: k in keys ==> exists i :: NamedAt(doc, k, i)
    ensures r.Success? && r.value.Keys == KeySet(keys)
    ensures forall k, i :: k in keys && NamedAt(doc, k, i) ==>
              r.value[k] == if Shadowed(doc, i) then doc[i].name else doc[i].value
  {
    forall k | k in keys
      ensures Readable(Render(doc), k) && Value(Render(doc), k).Some?
    {
      var i :| NamedAt(doc, k, i);
      FoundAtItsLine(doc, i);
    }
    r := BuildJsonDict(Render(doc), keys);
    forall k, i | k in keys && NamedAt(doc, k, i)
      ensures r.value[k] == if Shadowed(doc, i) then doc[i].name else doc[i].value
    {
      FoundAtItsLine(doc, i);
    }
  }

  /** A password that reads like the name of a later key is loaded as that key's value. */
  lemma ShadowingExample()
    ensures var doc := [Entry("password", "port", "  ", " ", ","), Entry("port", "6970", "  ", " ", "")];
            WellFormed(doc) && Value(Render(doc), Quoted("port")) == Some("port")
  {
    var first, second := Entry("password", "port", "  ", " ", ","), Entry("port", "6970", "  ", " ", "");
    assert WellFormedLine(first);
    assert WellFormedLine(second);
    ShadowedPair(first, second);
  }

  lemma ShadowedPair(first: Line, second: Line)
    requires first.Entry? && second.Entry? && WellFormedLine(first) && WellFormedLine(second)
    requires first.name != second.name && first.value == second.name
    ensures WellFormed([first, second])
    ensures Value(Render([first, second]), Quoted(second.name)) == Some(second.name)
  {
    var doc := [first, second];
    assert doc[0].value == doc[1].name;
    assert Shadowed(doc, 1);
    FoundAtItsLine(doc, 1);
  }

  // ---------- two entries on one line ----------

  function OneLine(n: string, v: string, n': string, v': string): string {
    Quoted(n) + ":" + (" " + Quoted(v) + ", " + Quoted(n') + ":" + (" " + Quoted(v')))
  }

  lemma SplitFirst(a: string, rest: string)
    requires !HasColon(a)
    ensures SplitColon(a + ":" + rest) == [a] + SplitColon(rest)
  {
    var s := a + ":" + rest;
    assert s[|a|] == ':';
    var i := FindFirstColon(s).value;
    assert forall k :: 0 <= k < |a| ==> s[k] == a[k];
    assert forall k :: 0 <= k < i ==> s[k] == s[..i][k];
    assert i == |a|;
    assert s[..|a|] == a && s[|a| + 1..] == rest;
  }

  /** The piece between the two colons runs from the first value to the second name. */
  lemma MiddlePieceTrimmed(v: string, n': string)
    requires Plain(v) && Plain(n')
    requires v != "" && v[0] != ' ' && n' != "" && n'[|n'| - 1] != ' '
    ensures var middle := v + "\", \"" + n';
            && TrimToken(" " + Quoted(v) + ", " + Quoted(n'), " ") == Quoted(middle)
            && TrimToken(Quoted(middle), " \"") == middle
            && IsField(Quoted(middle))
  {
    var middle := v + "\", \"" + n';
    assert " " + Quoted(v) + ", " + Quoted(n') == " " + Quoted(middle);
    GapTrimmed(" ", middle);
    assert middle[0] == v[0] && middle[|middle| - 1] == n'[|n'| - 1];
    QuotesTrimmed(middle);
  }

  lemma MiddleHasNoColon(v: string, n': string)
    requires Plain(v) && Plain(n')
    ensures !HasColon(" " + Quoted(v) + ", " + Quoted(n'))
  {
    QuotedHasNoColon(v);
    QuotedHasNoColon(n');
  }

  lemma InBraces(line: string, at: nat)
    requires at < |line| && line[at] == ':' && line[0] == '"' && line[|line| - 1] == '"'
    ensures HasColon("{" + line + "}") && TrimJson("{" + line + "}") == line
  {
    assert ("{" + line + "}")[at + 1] == ':';
    TrimEndsStrips("{", line, "}", JSON_FRONT, JSON_BACK);
  }

  lemma OneLineSplit(n: string, v: string, n': string, v': string)
    requires Plain(n) && Plain(v) && Plain(n')
    ensures SplitColon(OneLine(n, v, n', v'))
         == [Quoted(n)] + ([" " + Quoted(v) + ", " + Quoted(n')] + SplitColon(" " + Quoted(v')))
  {
    var middle, last := " " + Quoted(v) + ", " + Quoted(n'), " " + Quoted(v');
    QuotedHasNoColon(n);
    MiddleHasNoColon(v, n');
    SplitFirst(middle, last);
    SplitFirst(Quoted(n), middle + ":" + last);
    assert OneLine(n, v, n', v') == Quoted(n) + ":" + (middle + ":" + last);
  }

  lemma FieldOfOneLine(n: string, v: string, n': string, v': string)
    requires Plain(n) && Plain(v) && Plain(n')
    requires v != "" && v[0] != ' ' && n' != "" && n'[|n'| - 1] != ' '
    ensures Field(OneLine(n, v, n', v')) == Some(v + "\", \"" + n')
  {
    var middle, rest := " " + Quoted(v) + ", " + Quoted(n'), SplitColon(" " + Quoted(v'));
    OneLineSplit(n, v, n', v');
    assert SplitColon(OneLine(n, v, n', v'))[1..] == [middle] + rest;
    MiddlePieceTrimmed(v, n');
  }

  lemma OneLineEnds(n: string, v: string, n': string, v': string)
    ensures var line := OneLine(n, v, n', v');
            line[0] == '"' && line[|line| - 1] == '"' && |n| + 2 < |line| && line[|n| + 2] == ':'
  {
  }

  /** Two entries on one line, as in a compact file: the line gives every key that it mentions the same value,
      the text from the first value to the second name. So an entry has to have its line to itself. */
  lemma TwoEntriesOnOneLine(n: string, v: string, n': string, v': string, key: string)
    requires Plain(n) && Plain(v) && Plain(n') && Plain(v')
    requires v != "" && v[0] != ' ' && n' != "" && n'[|n'| - 1] != ' '
    requires Contains(OneLine(n, v, n', v'), key)
    ensures LineValue("{" + OneLine(n, v, n', v') + "}", key) == Some(v + "\", \"" + n')
  {
    OneLineEnds(n, v, n', v');
    InBraces(OneLine(n, v, n', v'), |n| + 2);
    FieldOfOneLine(n, v, n', v');
  }
}
