/** From the dictionary to the server's settings. Reading the port with a stream is the library's. */
module NetworkConfig {
  import opened Wrappers
  import opened ConfigRoundTrip
  import opened JsonLoader

  datatype ConnectionType = Tcp | Ssl

  datatype NetworkConfig = NetworkConfig(
    pathToCertificates: string,
    password: string,
    rootSubdir: string,
    connectionType: ConnectionType,
    port: nat
  )

  const KEYS: seq<string> := [
    "\"path/to/certificates\"",
    "\"password\"",
    "\"client root CA subdir\"",
    "\"connection type\"",
    "\"port\""
  ]

  /** std::tolower in the C locale. */
  function ToLowerChar(c: char): char {
    if 'A' <= c <= 'Z' then (c as int + 32) as char else c
  }

  function ToLower(s: string): (r: string)
    ensures |r| == |s| && forall i :: 0 <= i < |s| ==> r[i] == ToLowerChar(s[i])
  {
    seq(|s|, i requires 0 <= i < |s| => ToLowerChar(s[i]))
  }

  /** build_network_config, given what the stream extraction makes of the port. */
  function Build(dict: map<string, string>, port: Option<nat>): Result<NetworkConfig, string>
    requires forall i :: 0 <= i < |KEYS| ==> KEYS[i] in dict
  {
    if port.None? then Failure("Failed to parse port")
    else
      var connection := ToLower(dict[KEYS[3]]);
      if !Contains(connection, "tcp") && !Contains(connection, "ssl") && !Contains(connection, "tls") then
        Failure("Connection type must be: \"tcp\" or \"ssl\" (tls being an alias)")
      else if |connection| > 3 then
        Failure("Connection type must be: \"tcp\" or \"ssl\" (tls being an alias)")
      else
        Success(NetworkConfig(dict[KEYS[0]], dict[KEYS[1]], dict[KEYS[2]],
                              if connection == "tcp" then Tcp else Ssl, port.value))
  }

  lemma ContainsWholly(s: string, sub: string)
    requires |s| <= |sub|
    ensures Contains(s, sub) <==> s == sub
  {
    if s == sub {
      assert OccursAt(s, sub, 0);
    }
    if Contains(s, sub) {
      var i :| 0 <= i <= |s| && OccursAt(s, sub, i);
      assert s[i..i + |sub|] == s;
    }
  }

  /** `s` in any mixture of cases. */
  ghost predicate AnyCase(s: string, lower: string, upper: string)
    requires |lower| == |upper|
  {
    |s| == |lower| && forall k :: 0 <= k < |s| ==> s[k] == lower[k] || s[k] == upper[k]
  }

  ghost predicate IsMode(s: string) {
    AnyCase(s, "tcp", "TCP") || AnyCase(s, "ssl", "SSL") || AnyCase(s, "tls", "TLS")
  }

  lemma LoweredChar(c: char, lower: char, upper: char)
    requires 'a' <= lower <= 'z' && upper as int + 32 == lower as int
    ensures ToLowerChar(c) == lower <==> c == lower || c == upper
  {
  }

  lemma LoweredIs(s: string, lower: string, upper: string)
    requires |lower| == |upper|
    requires forall k :: 0 <= k < |lower| ==> 'a' <= lower[k] <= 'z' && upper[k] as int + 32 == lower[k] as int
    ensures ToLower(s) == lower <==> AnyCase(s, lower, upper)
  {
    if |s| == |lower| {
      forall k | 0 <= k < |s|
        ensures ToLower(s)[k] == lower[k] <==> s[k] == lower[k] || s[k] == upper[k]
      {
        LoweredChar(s[k], lower[k], upper[k]);
      }
      assert ToLower(s) == lower <==> forall k :: 0 <= k < |s| ==> ToLower(s)[k] == lower[k];
    }
  }

  /** These settings are the ones that the five texts stand for. */
  ghost predicate SettingsAre(c: NetworkConfig, certificates: string, password: string, rootSubdir: string,
                              mode: string, port: Option<nat>) {
    && c.pathToCertificates == certificates && c.password == password && c.rootSubdir == rootSubdir
    && (c.connectionType.Tcp? <==> AnyCase(mode, "tcp", "TCP"))
    && port == Some(c.port)
  }

  // ---------- from the file to the settings ----------

  lemma KeysDiffer()
    ensures Distinct(KEYS)
  {
    assert |KEYS[0]| == 22 && |KEYS[1]| == 10 && |KEYS[2]| == 23 && |KEYS[3]| == 17 && |KEYS[4]| == 6;
  }

  /** What the lines give the key of this name. */
  function ValueOf(lines: seq<string>, name: string): Option<string> {
    Value(lines, Quoted(name))
  }

  lemma CertificatesKeyIsQuoted()
    ensures Quoted("path/to/certificates") == KEYS[0]
  {
  }

  lemma SubdirKeyIsQuoted()
    ensures Quoted("client root CA subdir") == KEYS[2]
  {
  }

  lemma WordKeysAreQuoted()
    ensures Quoted("password") == KEYS[1]
    ensures Quoted("connection type") == KEYS[3]
    ensures Quoted("port") == KEYS[4]
  {
  }

  /** The keys are the quoted names of the five settings. */
  lemma KeysAreQuoted()
    ensures KEYS == [Quoted("path/to/certificates"), Quoted("password"), Quoted("client root CA subdir"),
                     Quoted("connection type"), Quoted("port")]
  {
    CertificatesKeyIsQuoted();
    SubdirKeyIsQuoted();
    WordKeysAreQuoted();
  }

  /** The search for a substring and the bound on the length together admit exactly the three modes, in
      any mixture of cases; TLS is the only other name of SSL. */
  lemma ModesAdmitted(dict: map<string, string>, port: Option<nat>)
    requires forall i :: 0 <= i < |KEYS| ==> KEYS[i] in dict
    ensures Quoted("path/to/certificates") in dict && Quoted("password") in dict && Quoted("client root CA subdir") in dict
            && Quoted("connection type") in dict && Quoted("port") in dict
    ensures Build(dict, port).Success? <==> port.Some? && IsMode(dict[Quoted("connection type")])
    ensures Build(dict, port).Success? ==>
              SettingsAre(Build(dict, port).value, dict[Quoted("path/to/certificates")], dict[Quoted("password")],
                          dict[Quoted("client root CA subdir")], dict[Quoted("connection type")], port)
  {
    KeysAreQuoted();
    assert KEYS[0] in dict && KEYS[1] in dict && KEYS[2] in dict && KEYS[3] in dict && KEYS[4] in dict;
    var text := dict[KEYS[3]];
    LoweredIs(text, "tcp", "TCP");
    LoweredIs(text, "ssl", "SSL");
    LoweredIs(text, "tls", "TLS");
    var mode := ToLower(text);
    if |mode| <= 3 {
      ContainsWholly(mode, "tcp");
      ContainsWholly(mode, "ssl");
      ContainsWholly(mode, "tls");
    }
  }

  ghost predicate AllFound(lines: seq<string>) {
    && ValueOf(lines, "path/to/certificates").Some? && ValueOf(lines, "password").Some?
    && ValueOf(lines, "client root CA subdir").Some? && ValueOf(lines, "connection type").Some?
    && ValueOf(lines, "port").Some?
  }

  lemma AllFoundIsEveryKey(lines: seq<string>)
    ensures AllFound(lines) <==> forall k :: k in KEYS ==> Value(lines, k).Some?
  {
    KeysAreQuoted();
    assert KEYS[0] in KEYS && KEYS[1] in KEYS && KEYS[2] in KEYS && KEYS[3] in KEYS && KEYS[4] in KEYS;
    forall k | k in KEYS
      ensures AllFound(lines) ==> Value(lines, k).Some?
    {
      assert k == KEYS[0] || k == KEYS[1] || k == KEYS[2] || k == KEYS[3] || k == KEYS[4];
    }
  }

  /** build_network_config on the lines of the file. `parsePort` is what stream extraction makes of a text. */
  method BuildNetworkConfig(lines: seq<string>, parsePort: string -> Option<nat>) returns (r: Result<NetworkConfig, string>)
    requires forall k :: k in KEYS ==> Readable(lines, k)
    ensures r.Success? <==>
              && AllFound(lines)
              && parsePort(ValueOf(lines, "port").value).Some?
              && IsMode(ValueOf(lines, "connection type").value)
    ensures r.Success? ==>
              SettingsAre(r.value, ValueOf(lines, "path/to/certificates").value, ValueOf(lines, "password").value,
                          ValueOf(lines, "client root CA subdir").value, ValueOf(lines, "connection type").value,
                          parsePort(ValueOf(lines, "port").value))
  {
    KeysDiffer();
    KeysAreQuoted();
    AllFoundIsEveryKey(lines);
    var loaded := BuildJsonDict(lines, KEYS);
    if loaded.Failure? {
      return Failure(loaded.error);
    }
    var dict := loaded.value;
    assert forall k :: 0 <= k < |KEYS| ==> KEYS[k] in KeySet(KEYS) && dict[KEYS[k]] == Value(lines, KEYS[k]).value;
    ModesAdmitted(dict, parsePort(dict[KEYS[4]]));
    r := Build(dict, parsePort(dict[KEYS[4]]));
  }

  /** What the loader takes for the value of entry `i`. */
  ghost function Loaded(doc: seq<Line>, i: int): string
    requires 0 <= i < |doc| && doc[i].Entry?
  {
    if Shadowed(doc, i) then doc[i].name else doc[i].value
  }

  /** Entry `i` of the document has this name. */
  ghost predicate Names(doc: seq<Line>, i: int, name: string) {
    0 <= i < |doc| && doc[i].Entry? && doc[i].name == name
  }

  lemma RenderedValue(doc: seq<Line>, i: int, name: string)
    requires WellFormed(doc) && Names(doc, i, name)
    ensures Readable(Render(doc), Quoted(name)) && ValueOf(Render(doc), name) == Some(Loaded(doc, i))
  {
    FoundAtItsLine(doc, i);
  }

  /** A rendered file with entries of the five names, in any order and decoration, becomes the settings of those
      meanings, as written, shadowed entries excepted, exactly when its port can be read and its mode is one of
      the three. */
  method LoadRenderedSettings(doc: seq<Line>, parsePort: string -> Option<nat>,
                              ghost certificates: int, ghost password: int, ghost rootSubdir: int, ghost mode: int, ghost port: int)
    returns (r: Result<NetworkConfig, string>)
    requires WellFormed(doc)
    requires Names(doc, certificates, "path/to/certificates") && Names(doc, password, "password")
    requires Names(doc, rootSubdir, "client root CA subdir") && Names(doc, mode, "connection type") && Names(doc, port, "port")
    ensures r.Success? <==> parsePort(Loaded(doc, port)).Some? && IsMode(Loaded(doc, mode))
    ensures r.Success? ==>
              SettingsAre(r.value, Loaded(doc, certificates), Loaded(doc, password), Loaded(doc, rootSubdir),
                          Loaded(doc, mode), parsePort(Loaded(doc, port)))
  {
    RenderedValue(doc, certificates, "path/to/certificates");
    RenderedValue(doc, password, "password");
    RenderedValue(doc, rootSubdir, "client root CA subdir");
    RenderedValue(doc, mode, "connection type");
    RenderedValue(doc, port, "port");
    KeysAreQuoted();
    assert forall k :: 0 <= k < |KEYS| ==> Readable(Render(doc), KEYS[k]);
    r := BuildNetworkConfig(Render(doc), parsePort);
  }
}
