/**
 The guest's boot environment and boot files, as they are collected from the resolved settings, and what of a
 stored API key reaches the guest through them.
 */
module GuestConfig {
  import opened Basics
  import opened Boot
  import Utf8Cap

  // ---------------------------------------------------------------------------
  // Documents
  // ---------------------------------------------------------------------------

  datatype Json =
    | Null
    | Boolean(on: bool)
    | Number(digits: Text)
    | Str(text: Text)
    | List(items: seq<Json>)
    | Object(members: map<Text, Json>)

  /** The JSON library: reading a text, which may fail, and writing a value. */
  datatype Library = Library(parse: Text -> Option<Json>, write: Json -> Text)

  /** What is written reads back. */
  ghost predicate Faithful(lib: Library) {
    forall j :: lib.parse(lib.write(j)) == Some(j)
  }

  function Member(members: map<Text, Json>, name: Text, otherwise: Json): Json {
    if name in members then members[name] else otherwise
  }

  const RESPONSES: Text := Ascii("customApiKeyResponses")
  const APPROVED: Text := Ascii("approved")
  const REJECTED: Text := Ascii("rejected")

  /** A list that holds the text, if it is a list. */
  function WithText(list: Json, text: Text): Json {
    if list.List? && Str(text) !in list.items then List(list.items + [Str(text)]) else list
  }

  function ApprovedIn(responses: map<Text, Json>, part: Text): map<Text, Json> {
    var approved := responses[APPROVED := WithText(Member(responses, APPROVED, List([])), part)];
    approved[REJECTED := Member(approved, REJECTED, List([]))]
  }

  /** The state document with a part of a key among the approved ones. */
  function Approved(members: map<Text, Json>, part: Text): map<Text, Json> {
    var responses := Member(members, RESPONSES, Object(map[]));
    members[RESPONSES := if responses.Object? then Object(ApprovedIn(responses.members, part)) else responses]
  }

  const PART: nat := 20

  /** The end of a key that is approved. */
  function LastPart(key: Text): Text {
    if |key| > PART then key[|key| - PART..] else key
  }

  /** Slicing a text inside a character panics. */
  predicate SplitByPart(key: Text) {
    |key| > PART && !Utf8Cap.IsCharBoundary(key, |key| - PART)
  }

  /** inject_api_key_approval; no result stands for a panic. */
  function ApproveKey(lib: Library, content: Text, key: Text): Option<Text> {
    match lib.parse(content)
    case Some(Object(members)) =>
      if SplitByPart(key) then None else Some(lib.write(Object(Approved(members, LastPart(key)))))
    case _ => Some(content)
  }

  const SERVERS: Text := Ascii("mcpServers")
  const CLAWCAGE: Text := Ascii("clawcage")
  const SERVER: Json := Object(map[Ascii("command") := Str(Ascii("/run/clawcage-mcp-server"))])

  function Served(members: map<Text, Json>): map<Text, Json> {
    var servers := Member(members, SERVERS, Object(map[]));
    members[SERVERS := if servers.Object? then Object(servers.members[CLAWCAGE := SERVER]) else servers]
  }

  /** inject_clawcage_mcp_server */
  function AddServer(lib: Library, content: Text): Text {
    match lib.parse(content)
    case Some(Object(members)) => lib.write(Object(Served(members)))
    case _ => content
  }

  // ---------------------------------------------------------------------------
  // Collecting the settings
  // ---------------------------------------------------------------------------

  datatype Value = Flag(on: bool) | Count(n: int) | Document(path: Text, content: Text) | Plain(text: Text)

  /** A resolved setting; `variables` are the environment variables that its metadata declares. */
  datatype Setting = Setting(id: Text, isToggle: bool, value: Value, variables: seq<Text>)

  datatype Collected = Collected(env: map<Text, Text>, files: seq<BootFile>)

  const KEY_VARIABLE: Text := Ascii("ANTHROPIC_API_KEY")
  const STATE_FILE: Text := Ascii("/root/.claude.json")
  const SETTINGS_FILE: Text := Ascii("/settings.json")
  const DYNAMIC: Text := Ascii("guest.env.")
  const OWNER_ONLY: nat := 384

  function ToggleVariable(id: Text): Option<Text> {
    if id == Ascii("ai.anthropic.allow") then Some(Ascii("CLAWCAGE_ANTHROPIC_ALLOWED"))
    else if id == Ascii("ai.openai.allow") then Some(Ascii("CLAWCAGE_OPENAI_ALLOWED"))
    else if id == Ascii("ai.google.allow") then Some(Ascii("CLAWCAGE_GOOGLE_ALLOWED"))
    else None
  }

  function WithToggle(env: map<Text, Text>, s: Setting): map<Text, Text> {
    if s.isToggle && ToggleVariable(s.id).Some? then
      env[ToggleVariable(s.id).value := Ascii(if s.value == Flag(true) then "1" else "0")]
    else env
  }

  /** The text that goes into the declared variables; none if it is empty. */
  function TextOf(v: Value): Text {
    match v
    case Plain(text) => text
    case Document(_, content) => content
    case _ => []
  }

  function WithVariable(rules: Rules, env: map<Text, Text>, name: Text, text: Text): map<Text, Text> {
    if text != [] && rules.key(name) && rules.value(text) then env[name := text] else env
  }

  function WithVariables(rules: Rules, env: map<Text, Text>, names: seq<Text>, text: Text): map<Text, Text> {
    if names == [] then env
    else WithVariable(rules, WithVariables(rules, env, names[..|names| - 1], text), names[|names| - 1], text)
  }

  /** The environment when a setting's own file is looked at. */
  function EnvAtFile(rules: Rules, env: map<Text, Text>, s: Setting): map<Text, Text> {
    WithVariables(rules, WithToggle(env, s), s.variables, TextOf(s.value))
  }

  /** A setting outside the registry whose id names a variable. */
  function WithDynamic(rules: Rules, env: map<Text, Text>, s: Setting): map<Text, Text> {
    if DYNAMIC <= s.id && s.value.Plain? then WithVariable(rules, env, s.id[|DYNAMIC|..], s.value.text) else env
  }

  predicate IsBootFile(rules: Rules, s: Setting) {
    s.value.Document? && s.value.content != [] && rules.path(s.value.path)
  }

  predicate EndsWith(text: Text, end: Text) {
    |end| <= |text| && text[|text| - |end|..] == end
  }

  /** A boot file's content; no result stands for a panic. */
  function FileContent(lib: Library, env: map<Text, Text>, path: Text, content: Text): Option<Text> {
    if EndsWith(path, SETTINGS_FILE) then Some(AddServer(lib, content))
    else if path == STATE_FILE && KEY_VARIABLE in env then ApproveKey(lib, content, env[KEY_VARIABLE])
    else Some(content)
  }

  function AddSetting(rules: Rules, lib: Library, c: Collected, s: Setting): Option<Collected> {
    var env := EnvAtFile(rules, c.env, s);
    if IsBootFile(rules, s) then
      match FileContent(lib, env, s.value.path, s.value.content)
      case None => None
      case Some(data) => Some(Collected(WithDynamic(rules, env, s), c.files + [BootFile(s.value.path, data, OWNER_ONLY)]))
    else Some(Collected(WithDynamic(rules, env, s), c.files))
  }

  function Collect(rules: Rules, lib: Library, settings: seq<Setting>): Option<Collected> {
    if settings == [] then Some(Collected(map[], []))
    else
      match Collect(rules, lib, settings[..|settings| - 1])
      case None => None
      case Some(c) => AddSetting(rules, lib, c, settings[|settings| - 1])
  }

  lemma CollectSnoc(rules: Rules, lib: Library, settings: seq<Setting>, i: nat)
    requires i < |settings|
    ensures Collect(rules, lib, settings[..i + 1]) ==
            match Collect(rules, lib, settings[..i]) case None => None case Some(c) => AddSetting(rules, lib, c, settings[i])
  {
    assert settings[..i + 1][..i] == settings[..i];
  }

  lemma {:induction false} PanicStays(rules: Rules, lib: Library, settings: seq<Setting>, i: nat)
    requires i <= |settings| && Collect(rules, lib, settings[..i]).None?
    ensures Collect(rules, lib, settings).None?
    decreases |settings| - i
  {
    if i < |settings| {
      CollectSnoc(rules, lib, settings, i);
      PanicStays(rules, lib, settings, i + 1);
    } else {
      assert settings[..i] == settings;
    }
  }

  /** The loop over a setting's declared variables. */
  method AddVariables(rules: Rules, env: map<Text, Text>, names: seq<Text>, text: Text) returns (r: map<Text, Text>)
    requires text != []
    ensures r == WithVariables(rules, env, names, text)
  {
    r := env;
    for i := 0 to |names|
      invariant r == WithVariables(rules, env, names[..i], text)
    {
      assert names[..i + 1][..i] == names[..i];
      if !rules.key(names[i]) {
        continue;
      }
      if !rules.value(text) {
        continue;
      }
      r := r[names[i] := text];
    }
    assert names[..|names|] == names;
  }

  lemma {:induction false} NoTextNoVariables(rules: Rules, env: map<Text, Text>, names: seq<Text>)
    ensures WithVariables(rules, env, names, []) == env
    decreases |names|
  {
    if names != [] {
      NoTextNoVariables(rules, env, names[..|names| - 1]);
    }
  }

  /** settings_to_guest_config; no result stands for a panic. */
  method SettingsToGuestConfig(rules: Rules, lib: Library, settings: seq<Setting>) returns (r: Option<Collected>)
    ensures r == Collect(rules, lib, settings)
  {
    var env: map<Text, Text>, files := map[], [];
    for i := 0 to |settings|
      invariant Collect(rules, lib, settings[..i]) == Some(Collected(env, files))
    {
      var s := settings[i];
      CollectSnoc(rules, lib, settings, i);
      if s.isToggle && ToggleVariable(s.id).Some? {
        env := env[ToggleVariable(s.id).value := Ascii(if s.value == Flag(true) then "1" else "0")];
      }
      NoTextNoVariables(rules, env, s.variables);
      if TextOf(s.value) != [] {
        env := AddVariables(rules, env, s.variables, TextOf(s.value));
      }
      if s.value.Document? && s.value.content != [] {
        if !rules.path(s.value.path) {
          continue;
        }
        var data := FileContent(lib, env, s.value.path, s.value.content);
        if data.None? {
          PanicStays(rules, lib, settings, i + 1);
          return None;
        }
        files := files + [BootFile(s.value.path, data.value, OWNER_ONLY)];
      }
      if DYNAMIC <= s.id && s.value.Plain? && s.value.text != [] {
        var name := s.id[|DYNAMIC|..];
        if rules.key(name) && rules.value(s.value.text) {
          env := env[name := s.value.text];
        }
      }
    }
    assert settings[..|settings|] == settings;
    r := Some(Collected(env, files));
  }
}
