/** API-key authentication (`server/src/auth.rs`): the key set, reading it
    from a key file, the search for a key file, and the middleware's
    decision. The file system is a parameter: what exists and what reading
    a file gives, line by line. */
module Auth {
  import opened Wrappers
  import opened Text
  import opened HeaderUtils

  /** `ApiKeys`. */
  datatype ApiKeys = ApiKeys(keys: set<string>)

  /** `ApiKeys::empty`: no keys, so no authentication. */
  function Empty(): ApiKeys {
    ApiKeys({})
  }

  predicate IsEnabled(k: ApiKeys) {
    k.keys != {}
  }

  /** `validate`: exact, case-sensitive membership. */
  predicate Validate(k: ApiKeys, key: string) {
    key in k.keys
  }

  function Count(k: ApiKeys): nat {
    |k.keys|
  }

  /** Authentication is on exactly when there is a key; the empty set has
      no keys and accepts none. */
  lemma ApiKeysSpec(k: ApiKeys)
    ensures IsEnabled(k) <==> Count(k) > 0
    ensures !IsEnabled(Empty()) && Count(Empty()) == 0
    ensures forall key :: !Validate(Empty(), key)
  {
    if k.keys != {} {
      var x :| x in k.keys;
      assert |k.keys| >= |{x}|;
    }
  }

  // ---------------------------------------------------------------------------
  // Key files
  // ---------------------------------------------------------------------------

  /** A trimmed line that holds a key: not empty and not a comment. */
  predicate IsKeyLine(trimmed: string) {
    trimmed != [] && trimmed[0] != '#'
  }

  /** The key a line holds: its trimmed text, unless that is empty or a
      comment. */
  function LineKey(l: string): set<string> {
    var t := Trim(l);
    if IsKeyLine(t) then {t} else {}
  }

  /** A line of a file as read: its text or the read error. */
  type Line = Result<string, string>

  /** The union of what `key` gives for each read line, or the first read
      error. */
  function Collected(lines: seq<Line>, key: string -> set<string>): Result<set<string>, string> {
    if lines == [] then Ok({})
    else
      var before := Collected(lines[..|lines| - 1], key);
      var last := lines[|lines| - 1];
      if before.Err? then before
      else if last.Err? then Err(last.error)
      else Ok(before.value + key(last.value))
  }

  /** The keys of the read lines, or the first read error. */
  function KeysOfLines(lines: seq<Line>): Result<set<string>, string> {
    Collected(lines, LineKey)
  }

  /** `from_file`, given what opening the file gives. */
  function KeysOfFile(file: Result<seq<Line>, string>): Result<ApiKeys, string> {
    match file
    case Err(e) => Err(e)
    case Ok(lines) =>
      match KeysOfLines(lines)
      case Err(e) => Err(e)
      case Ok(ks) => Ok(ApiKeys(ks))
  }

  method FromFile(file: Result<seq<Line>, string>) returns (r: Result<ApiKeys, string>)
    ensures r == KeysOfFile(file)
  {
    if file.Err? {
      return Err(file.error);
    }
    var lines := file.value;
    var keys: set<string> := {};
    for i := 0 to |lines|
      invariant Collected(lines[..i], LineKey) == Ok(keys)
    {
      CollectedNext(lines, LineKey, i);
      if lines[i].Err? {
        CollectedStop(lines, LineKey, i + 1, lines[i].error);
        return Err(lines[i].error);
      }
      var trimmed := Trim(lines[i].value);
      if trimmed == [] || trimmed[0] == '#' {
        assert keys + LineKey(lines[i].value) == keys;
        continue;
      }
      assert LineKey(lines[i].value) == {trimmed};
      keys := keys + {trimmed};
    }
    WholeLines(lines);
    return Ok(ApiKeys(keys));
  }

  lemma CollectedNext(lines: seq<Line>, key: string -> set<string>, i: nat)
    requires i < |lines|
    ensures var before := Collected(lines[..i], key);
      Collected(lines[..i + 1], key) ==
        if before.Err? then before
        else if lines[i].Err? then Err(lines[i].error)
        else Ok(before.value + key(lines[i].value))
  {
    assert lines[..i + 1][..i] == lines[..i];
  }

  lemma WholeLines(lines: seq<Line>)
    ensures lines[..|lines|] == lines
  {
  }

  lemma {:induction false} CollectedStop(lines: seq<Line>, key: string -> set<string>, n: nat, e: string)
    requires n <= |lines| && Collected(lines[..n], key) == Err(e)
    ensures Collected(lines, key) == Err(e)
    decreases |lines| - n
  {
    if n == |lines| {
      assert lines[..n] == lines;
    } else {
      assert lines[..n + 1][..n] == lines[..n];
      CollectedStop(lines, key, n + 1, e);
    }
  }

  /** Collecting succeeds exactly when every line reads. */
  lemma {:induction false} CollectedOk(lines: seq<Line>, key: string -> set<string>)
    ensures Collected(lines, key).Ok? <==> forall i :: 0 <= i < |lines| ==> lines[i].Ok?
    decreases |lines|
  {
    if lines != [] {
      var init := lines[..|lines| - 1];
      CollectedOk(init, key);
      if !Collected(init, key).Ok? {
        var j :| 0 <= j < |init| && !init[j].Ok?;
        assert !lines[j].Ok?;
      }
    }
  }

  /** What is collected is exactly what `key` gives for some line. */
  lemma {:induction false} CollectedKeys(lines: seq<Line>, key: string -> set<string>, ks: set<string>)
    requires Collected(lines, key) == Ok(ks)
    ensures forall k :: k in ks <==> exists i :: 0 <= i < |lines| && lines[i].Ok? && k in key(lines[i].value)
    decreases |lines|
  {
    if lines != [] {
      var init := lines[..|lines| - 1];
      var ks0 := Collected(init, key).value;
      CollectedKeys(init, key, ks0);
      assert ks == ks0 + key(lines[|lines| - 1].value);
      forall k ensures k in ks <==> exists i :: 0 <= i < |lines| && lines[i].Ok? && k in key(lines[i].value) {
        if k in ks0 {
          var i :| 0 <= i < |init| && init[i].Ok? && k in key(init[i].value);
          assert lines[i] == init[i];
        }
        if exists i :: 0 <= i < |lines| && lines[i].Ok? && k in key(lines[i].value) {
          var i :| 0 <= i < |lines| && lines[i].Ok? && k in key(lines[i].value);
          if i < |init| {
            assert lines[i] == init[i];
          }
        }
      }
    }
  }

  /** A line gives the key `k` when it reads, and trimmed it is `k`, which
      is neither empty nor a comment. */
  predicate GivesKey(line: Line, k: string) {
    line.Ok? && Trim(line.value) == k && IsKeyLine(k)
  }

  /** `from_file`: reading fails exactly when a line fails to read (or the
      file fails to open), and the keys read are exactly the trimmed lines
      that are neither empty nor comments. */
  lemma KeysOfFileSpec(file: Result<seq<Line>, string>)
    ensures file.Err? ==> KeysOfFile(file) == Err(file.error)
    ensures file.Ok? ==> (KeysOfFile(file).Ok? <==> forall i :: 0 <= i < |file.value| ==> file.value[i].Ok?)
    ensures file.Ok? && KeysOfFile(file).Ok? ==>
      forall k :: k in KeysOfFile(file).value.keys <==> exists i :: 0 <= i < |file.value| && GivesKey(file.value[i], k)
  {
    if file.Ok? {
      CollectedOk(file.value, LineKey);
      if KeysOfFile(file).Ok? {
        KeysOfLinesKeys(file.value, KeysOfFile(file).value.keys);
      }
    }
  }

  lemma KeysOfLinesKeys(lines: seq<Line>, ks: set<string>)
    requires KeysOfLines(lines) == Ok(ks)
    ensures forall k :: k in ks <==> exists i :: 0 <= i < |lines| && GivesKey(lines[i], k)
  {
    CollectedKeys(lines, LineKey, ks);
    forall k, i | 0 <= i < |lines| && lines[i].Ok?
      ensures k in LineKey(lines[i].value) <==> GivesKey(lines[i], k)
    {
      LineKeySpec(lines[i].value, k);
    }
  }

  lemma LineKeySpec(l: string, k: string)
    ensures k in LineKey(l) <==> Trim(l) == k && IsKeyLine(k)
  {
  }

  // ---------------------------------------------------------------------------
  // load_api_keys
  // ---------------------------------------------------------------------------

  /** The file system as `load_api_keys` sees it. */
  datatype FileSystem = FileSystem(pathExists: string -> bool, readLines: string -> Result<seq<Line>, string>)

  /** The keys of a file, when reading it succeeds and gives at least one. */
  function Yield(fs: FileSystem, path: string): Option<ApiKeys> {
    match KeysOfFile(fs.readLines(path))
    case Err(_) => None
    case Ok(k) => if Count(k) > 0 then Some(k) else None
  }

  /** A default location is used when it exists and yields keys. */
  predicate Usable(fs: FileSystem, path: string) {
    fs.pathExists(path) && Yield(fs, path).Some?
  }

  const LocalKeyFile: string := "./api_keys.txt"
  const HomeKeyFile: string := ".tts-server/api_keys.txt"
  const SystemKeyFile: string := "/etc/tts-server/api_keys.txt"

  /** The default locations in the order they are tried: the working
      directory, the home directory when there is one, then /etc. */
  function DefaultLocations(home: Option<string>): seq<string> {
    if home.Some? then [LocalKeyFile, JoinPath(home.value, HomeKeyFile), SystemKeyFile]
    else [LocalKeyFile, SystemKeyFile]
  }

  /** The keys of the first usable location, or none. */
  function FirstKeys(fs: FileSystem, locations: seq<string>): ApiKeys {
    if locations == [] then Empty()
    else if Usable(fs, locations[0]) then Yield(fs, locations[0]).value
    else FirstKeys(fs, locations[1..])
  }

  /** `load_api_keys`: the file named by `TTS_API_KEY_FILE` when it yields
      keys (it is read without checking that it exists), otherwise the first
      usable default location, otherwise no keys. */
  function LoadedKeys(fs: FileSystem, keyFileVar: Option<string>, home: Option<string>): ApiKeys {
    if keyFileVar.Some? && Yield(fs, keyFileVar.value).Some? then Yield(fs, keyFileVar.value).value
    else FirstKeys(fs, DefaultLocations(home))
  }

  method LoadApiKeys(fs: FileSystem, keyFileVar: Option<string>, home: Option<string>) returns (keys: ApiKeys)
    ensures keys == LoadedKeys(fs, keyFileVar, home)
  {
    if keyFileVar.Some? {
      var fromVar := FromFile(fs.readLines(keyFileVar.value));
      if fromVar.Ok? && Count(fromVar.value) > 0 {
        return fromVar.value;
      }
    }
    var locations := Locations(home);
    for i := 0 to |locations|
      invariant FirstKeys(fs, locations[i..]) == FirstKeys(fs, locations)
    {
      FirstKeysStep(fs, locations, i);
      if fs.pathExists(locations[i]) {
        var found := FromFile(fs.readLines(locations[i]));
        if found.Ok? && Count(found.value) > 0 {
          return found.value;
        }
      }
    }
    return Empty();
  }

  /** The list of default locations, with the home directory's inserted
      second when there is one. */
  method Locations(home: Option<string>) returns (locations: seq<string>)
    ensures locations == DefaultLocations(home)
  {
    locations := [LocalKeyFile, SystemKeyFile];
    if home.Some? {
      locations := locations[..1] + [JoinPath(home.value, HomeKeyFile)] + locations[1..];
    }
  }

  lemma FirstKeysStep(fs: FileSystem, locations: seq<string>, i: nat)
    requires i < |locations|
    ensures FirstKeys(fs, locations[i..]) ==
      if Usable(fs, locations[i]) then Yield(fs, locations[i]).value else FirstKeys(fs, locations[i + 1..])
  {
    assert locations[i..][1..] == locations[i + 1..];
  }

  /** The keys loaded come from the first default location that is usable,
      every one before it being unusable; when none is usable there are no
      keys. */
  lemma {:induction false} FirstKeysSpec(fs: FileSystem, locations: seq<string>) returns (j: nat)
    ensures j <= |locations|
    ensures forall i :: 0 <= i < j ==> !Usable(fs, locations[i])
    ensures j < |locations| ==> Usable(fs, locations[j]) && Some(FirstKeys(fs, locations)) == Yield(fs, locations[j])
    ensures j == |locations| ==> FirstKeys(fs, locations) == Empty()
    decreases |locations|
  {
    if locations == [] {
      j := 0;
    } else if Usable(fs, locations[0]) {
      j := 0;
    } else {
      var k := FirstKeysSpec(fs, locations[1..]);
      j := k + 1;
      forall i | 0 <= i < j ensures !Usable(fs, locations[i]) {
        if i > 0 { assert locations[i] == locations[1..][i - 1]; }
      }
    }
  }

  /** Whatever is loaded is either no keys at all or a non-empty key
      set: an empty key file is passed over. */
  lemma LoadedNeverEmptyFile(fs: FileSystem, keyFileVar: Option<string>, home: Option<string>)
    ensures LoadedKeys(fs, keyFileVar, home) == Empty() || IsEnabled(LoadedKeys(fs, keyFileVar, home))
    ensures keyFileVar.Some? && Yield(fs, keyFileVar.value).Some? ==>
      LoadedKeys(fs, keyFileVar, home) == Yield(fs, keyFileVar.value).value
  {
    var j := FirstKeysSpec(fs, DefaultLocations(home));
    ApiKeysSpec(LoadedKeys(fs, keyFileVar, home));
  }

  // ---------------------------------------------------------------------------
  // auth_middleware
  // ---------------------------------------------------------------------------

  /** What the middleware does with a request: let it through, or answer
      with a status and an `ErrorResponse`. */
  datatype AuthOutcome = Proceed | Reject(status: nat, bodyStatus: string, error: string)

  const InvalidKeyMessage: string := "Invalid API key"
  const MissingKeyMessage: string := "API key required. Provide via X-API-Key or Authorization: Bearer header"

  function AuthDecision(keys: ApiKeys, headers: Headers): AuthOutcome {
    if !IsEnabled(keys) then Proceed
    else
      match ExtractApiKey(headers)
      case Some(key) =>
        if Validate(keys, key) then Proceed else Reject(401, "error", InvalidKeyMessage)
      case None =>
        Reject(401, "error", MissingKeyMessage)
  }

  /** Without keys every request passes; with keys, a request passes
      exactly when it carries a valid key. A wrong key and a missing key
      are both answered with 401, each with its own message. */
  lemma AuthDecisionSpec(keys: ApiKeys, headers: Headers)
    ensures AuthDecision(keys, headers) == Proceed <==>
      !IsEnabled(keys) || (ExtractApiKey(headers).Some? && Validate(keys, ExtractApiKey(headers).value))
    ensures AuthDecision(keys, headers).Reject? ==>
      AuthDecision(keys, headers).status == 401 && AuthDecision(keys, headers).bodyStatus == "error"
    ensures IsEnabled(keys) && ExtractApiKey(headers).Some? && !Validate(keys, ExtractApiKey(headers).value) ==>
      AuthDecision(keys, headers).error == InvalidKeyMessage
    ensures IsEnabled(keys) && ExtractApiKey(headers).None? ==>
      AuthDecision(keys, headers).error == MissingKeyMessage
  {
  }
}
