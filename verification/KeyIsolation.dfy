/**
 Credential isolation at boot: exactly what of the stored API keys reaches the guest. Variables carry a
 placeholder, but the state file of one agent is written with the end of the stored key.
 */
module KeyIsolation {
  import opened Basics
  import opened Boot
  import opened GuestConfig

  // ---------------------------------------------------------------------------
  // What is approved in a state document
  // ---------------------------------------------------------------------------

  /** The list of approved keys, if the document has one. */
  function ApprovedList(members: map<Text, Json>): Option<seq<Json>> {
    var responses := Member(members, RESPONSES, Null);
    if responses.Object? && Member(responses.members, APPROVED, Null).List? then Some(responses.members[APPROVED].items)
    else None
  }

  predicate HasPart(members: map<Text, Json>, part: Text) {
    ApprovedList(members).Some? && Str(part) in ApprovedList(members).value
  }

  /** Nothing else is in the place of the list. */
  predicate Approvable(members: map<Text, Json>) {
    var responses := Member(members, RESPONSES, Object(map[]));
    responses.Object? && Member(responses.members, APPROVED, List([])).List?
  }

  predicate Approves(lib: Library, content: Text, part: Text) {
    match lib.parse(content)
    case Some(Object(members)) => HasPart(members, part)
    case _ => false
  }

  lemma NamesDiffer()
    ensures APPROVED != REJECTED
  {
    assert APPROVED[0] == 'a' as int && REJECTED[0] == 'r' as int;
  }

  /** The list after an approval: the old one, with the part at its end unless it had it. */
  lemma ApprovalAddsPart(members: map<Text, Json>, part: Text)
    ensures var before := if ApprovedList(members).Some? then ApprovedList(members).value else [];
            ApprovedList(Approved(members, part)) ==
            if !Approvable(members) then ApprovedList(members)
            else if Str(part) in before then Some(before)
            else Some(before + [Str(part)])
  {
    NamesDiffer();
  }

  /** Nothing else in the document changes, except that the surrounding members come to be. */
  lemma ApprovalKeepsRest(members: map<Text, Json>, part: Text)
    ensures var after := Approved(members, part);
            && after.Keys == members.Keys + {RESPONSES}
            && (forall name | name in members && name != RESPONSES :: after[name] == members[name])
            && (RESPONSES in members && !members[RESPONSES].Object? ==> after == members)
            && (RESPONSES in members && members[RESPONSES].Object? ==>
                  var old_, new_ := members[RESPONSES].members, after[RESPONSES].members;
                  && new_.Keys == old_.Keys + {APPROVED, REJECTED}
                  && (forall name | name in old_ && name != APPROVED :: new_[name] == old_[name])
                  && (REJECTED !in old_ ==> new_[REJECTED] == List([])))
  {
    NamesDiffer();
  }

  /** A document without responses gets them with the one part approved and none rejected. */
  lemma FirstApprovalIs(members: map<Text, Json>, part: Text)
    requires Ascii("customApiKeyResponses") !in members
    ensures Approved(members, part) ==
            members[Ascii("customApiKeyResponses") := Object(map[Ascii("approved") := List([Str(part)]), Ascii("rejected") := List([])])]
  {
    NamesDiffer();
    assert [] + [Str(part)] == [Str(part)];
    assert ApprovedIn(map[], part) == map[APPROVED := List([Str(part)]), REJECTED := List([])];
  }

  /** Of a key at most the last twenty octets are approved. */
  lemma LastPartIs(key: Text)
    ensures |key| <= 20 ==> LastPart(key) == key
    ensures |key| > 20 ==> |LastPart(key)| == 20 && key == key[..|key| - 20] + LastPart(key)
    ensures SplitByPart(key) <==> |key| > 20 && 128 <= key[|key| - 20] < 192
  {
  }

  lemma ApprovedInIsIdempotent(responses: map<Text, Json>, part: Text)
    ensures ApprovedIn(ApprovedIn(responses, part), part) == ApprovedIn(responses, part)
  {
    NamesDiffer();
    var once := ApprovedIn(responses, part);
    assert WithText(once[APPROVED], part) == once[APPROVED];
    assert ApprovedIn(once, part) == once;
  }

  lemma ApprovalIsIdempotent(members: map<Text, Json>, part: Text)
    ensures Approved(Approved(members, part), part) == Approved(members, part)
  {
    var once := Approved(members, part);
    var responses := Member(members, RESPONSES, Object(map[]));
    if responses.Object? {
      ApprovedInIsIdempotent(responses.members, part);
      assert once[RESPONSES] == Object(ApprovedIn(responses.members, part));
    }
    assert Approved(once, part) == once[RESPONSES := once[RESPONSES]];
    assert once[RESPONSES := once[RESPONSES]] == once;
  }

  /** Two parts make the same document exactly if they are the same, or both or neither can be told from it. */
  lemma SameApprovalIff(members: map<Text, Json>, p: Text, q: Text)
    ensures Approved(members, p) == Approved(members, q) <==>
            p == q || !Approvable(members) || (HasPart(members, p) && HasPart(members, q))
  {
    ApprovalAddsPart(members, p);
    ApprovalAddsPart(members, q);
    if Approvable(members) && p != q {
      var before := if ApprovedList(members).Some? then ApprovedList(members).value else [];
      var a, b := before + [Str(p)], before + [Str(q)];
      assert a[|before|] != b[|before|];
    }
  }

  // ---------------------------------------------------------------------------
  // What the settings come to
  // ---------------------------------------------------------------------------

  /** The variables after some settings. */
  function EnvOf(rules: Rules, settings: seq<Setting>): map<Text, Text> {
    if settings == [] then map[]
    else
      var last := settings[|settings| - 1];
      WithDynamic(rules, EnvAtFile(rules, EnvOf(rules, settings[..|settings| - 1]), last), last)
  }

  /** The content of the file of setting `s` after the settings `front`. */
  function ContentAt(rules: Rules, lib: Library, front: seq<Setting>, s: Setting): Option<Text>
    requires s.value.Document?
  {
    FileContent(lib, EnvAtFile(rules, EnvOf(rules, front), s), s.value.path, s.value.content)
  }

  /** The file that setting `s` adds. */
  function FileAt(rules: Rules, lib: Library, front: seq<Setting>, s: Setting): BootFile
    requires s.value.Document?
  {
    var content := ContentAt(rules, lib, front, s);
    BootFile(s.value.path, if content.Some? then content.value else [], OWNER_ONLY)
  }

  function FilesOf(rules: Rules, lib: Library, settings: seq<Setting>): seq<BootFile> {
    if settings == [] then []
    else
      var front, last := settings[..|settings| - 1], settings[|settings| - 1];
      FilesOf(rules, lib, front) + if IsBootFile(rules, last) then [FileAt(rules, lib, front, last)] else []
  }

  /** The state file of setting `s` is an object, and the key in force by then is cut inside a character. */
  predicate BreaksAt(rules: Rules, lib: Library, front: seq<Setting>, s: Setting) {
    var env := EnvAtFile(rules, EnvOf(rules, front), s);
    && IsBootFile(rules, s) && s.value.path == STATE_FILE && IsObject(lib, s.value.content)
    && KEY_VARIABLE in env && SplitByPart(env[KEY_VARIABLE])
  }

  predicate IsObject(lib: Library, content: Text) {
    lib.parse(content).Some? && lib.parse(content).value.Object?
  }

  ghost predicate Breaks(rules: Rules, lib: Library, settings: seq<Setting>) {
    exists i | 0 <= i < |settings| :: BreaksAt(rules, lib, settings[..i], settings[i])
  }

  lemma StateFileIsNoSettingsFile()
    ensures !EndsWith(STATE_FILE, SETTINGS_FILE)
  {
    assert STATE_FILE[|STATE_FILE| - |SETTINGS_FILE|..][0] == 't' as int && SETTINGS_FILE[0] == '/' as int;
  }

  lemma BreaksSnoc(rules: Rules, lib: Library, front: seq<Setting>, s: Setting)
    ensures Breaks(rules, lib, front + [s]) <==> Breaks(rules, lib, front) || BreaksAt(rules, lib, front, s)
  {
    var all := front + [s];
    assert all[..|front|] == front && all[|front|] == s;
    forall i | 0 <= i < |front| ensures all[..i] == front[..i] && all[i] == front[i] {
    }
    assert BreaksAt(rules, lib, front, s) ==> BreaksAt(rules, lib, all[..|front|], all[|front|]);
    if Breaks(rules, lib, front) {
      var i :| 0 <= i < |front| && BreaksAt(rules, lib, front[..i], front[i]);
      assert BreaksAt(rules, lib, all[..i], all[i]);
    }
    if Breaks(rules, lib, all) {
      var i :| 0 <= i < |all| && BreaksAt(rules, lib, all[..i], all[i]);
      assert i < |front| ==> BreaksAt(rules, lib, front[..i], front[i]);
    }
  }

  lemma AddSettingIs(rules: Rules, lib: Library, c: Collected, front: seq<Setting>, s: Setting)
    requires c.env == EnvOf(rules, front)
    ensures AddSetting(rules, lib, c, s) ==
            if BreaksAt(rules, lib, front, s) then None
            else Some(Collected(WithDynamic(rules, EnvAtFile(rules, c.env, s), s),
                                if IsBootFile(rules, s) then c.files + [FileAt(rules, lib, front, s)] else c.files))
  {
    StateFileIsNoSettingsFile();
  }

  lemma FilesSnoc(rules: Rules, lib: Library, front: seq<Setting>, s: Setting)
    ensures FilesOf(rules, lib, front + [s]) ==
            if IsBootFile(rules, s) then FilesOf(rules, lib, front) + [FileAt(rules, lib, front, s)]
            else FilesOf(rules, lib, front)
  {
    assert (front + [s])[..|front|] == front;
    assert FilesOf(rules, lib, front) + [] == FilesOf(rules, lib, front);
  }

  /** What the settings come to, by the definitions above. */
  ghost function Total(rules: Rules, lib: Library, settings: seq<Setting>): Option<Collected> {
    if Breaks(rules, lib, settings) then None
    else Some(Collected(EnvOf(rules, settings), FilesOf(rules, lib, settings)))
  }

  lemma TotalSnoc(rules: Rules, lib: Library, front: seq<Setting>, s: Setting)
    ensures Total(rules, lib, front + [s]) ==
            match Total(rules, lib, front) case None => None case Some(c) => AddSetting(rules, lib, c, s)
  {
    BreaksSnoc(rules, lib, front, s);
    FilesSnoc(rules, lib, front, s);
    assert (front + [s])[..|front|] == front;
    AddSettingIs(rules, lib, Collected(EnvOf(rules, front), FilesOf(rules, lib, front)), front, s);
  }

  /**
   Collecting the settings panics exactly if a state file that is an object is met when a key is in force that
   has an octet inside a character twenty from its end; otherwise it gives the variables and files.
   */
  lemma {:induction false} CollectIs(rules: Rules, lib: Library, settings: seq<Setting>)
    ensures Collect(rules, lib, settings) ==
            if Breaks(rules, lib, settings) then None
            else Some(Collected(EnvOf(rules, settings), FilesOf(rules, lib, settings)))
    decreases |settings|
  {
    if settings != [] {
      var n := |settings| - 1;
      CollectIs(rules, lib, settings[..n]);
      assert settings == settings[..n] + [settings[n]];
      TotalSnoc(rules, lib, settings[..n], settings[n]);
    }
  }

  // ---------------------------------------------------------------------------
  // The same, told from the settings alone
  // ---------------------------------------------------------------------------

  /** The variable of a provider's switch. */
  predicate IsSwitch(id: Text, name: Text) {
    || (id == Ascii("ai.anthropic.allow") && name == Ascii("CLAWCAGE_ANTHROPIC_ALLOWED"))
    || (id == Ascii("ai.openai.allow") && name == Ascii("CLAWCAGE_OPENAI_ALLOWED"))
    || (id == Ascii("ai.google.allow") && name == Ascii("CLAWCAGE_GOOGLE_ALLOWED"))
  }

  /** The value that a setting gives a variable: by its id, else by its metadata, else as a provider's switch. */
  function GivenBy(rules: Rules, s: Setting, name: Text): Option<Text> {
    if s.value.Plain? && s.value.text != [] && s.id == Ascii("guest.env.") + name && rules.key(name) && rules.value(s.value.text)
    then Some(s.value.text)
    else if s.value.Plain? && s.value.text != [] && name in s.variables && rules.key(name) && rules.value(s.value.text)
    then Some(s.value.text)
    else if s.value.Document? && s.value.content != [] && name in s.variables && rules.key(name) && rules.value(s.value.content)
    then Some(s.value.content)
    else if s.isToggle && IsSwitch(s.id, name)
    then Some(Ascii(if s.value.Flag? && s.value.on then "1" else "0"))
    else None
  }

  /** The value of a variable: what the last setting that gives it one gives it. */
  function LastGiven(rules: Rules, settings: seq<Setting>, name: Text): Option<Text> {
    if settings == [] then None
    else
      var last := GivenBy(rules, settings[|settings| - 1], name);
      if last.Some? then last else LastGiven(rules, settings[..|settings| - 1], name)
  }

  function Find(env: map<Text, Text>, name: Text): Option<Text> {
    if name in env then Some(env[name]) else None
  }

  lemma {:induction false} VariablesFind(rules: Rules, env: map<Text, Text>, names: seq<Text>, text: Text, name: Text)
    ensures Find(WithVariables(rules, env, names, text), name) ==
            if name in names && text != [] && rules.key(name) && rules.value(text) then Some(text) else Find(env, name)
    decreases |names|
  {
    if names != [] {
      var n := |names| - 1;
      VariablesFind(rules, env, names[..n], text, name);
      assert names == names[..n] + [names[n]];
    }
  }

  lemma ToggleFinds(env: map<Text, Text>, s: Setting, name: Text)
    ensures Find(WithToggle(env, s), name) ==
            if s.isToggle && IsSwitch(s.id, name) then Some(Ascii(if s.value.Flag? && s.value.on then "1" else "0")) else Find(env, name)
  {
    SwitchIs(s.id, name);
  }

  lemma SwitchIs(id: Text, name: Text)
    ensures IsSwitch(id, name) <==> ToggleVariable(id) == Some(name)
  {
    assert Ascii("ai.anthropic.allow")[3] == 'a' as int && Ascii("ai.openai.allow")[3] == 'o' as int && Ascii("ai.google.allow")[3] == 'g' as int;
  }

  lemma DynamicFinds(rules: Rules, env: map<Text, Text>, s: Setting, name: Text)
    ensures Find(WithDynamic(rules, env, s), name) ==
            if s.value.Plain? && s.value.text != [] && s.id == Ascii("guest.env.") + name && rules.key(name) && rules.value(s.value.text)
            then Some(s.value.text) else Find(env, name)
  {
    if DYNAMIC <= s.id {
      assert s.id == DYNAMIC + s.id[|DYNAMIC|..];
      assert s.id == DYNAMIC + name <==> s.id[|DYNAMIC|..] == name by {
        assert (DYNAMIC + name)[|DYNAMIC|..] == name;
      }
    } else {
      assert DYNAMIC <= DYNAMIC + name;
    }
  }

  /** Over any list of settings each variable has the value last given to it, and no other variable is there. */
  lemma {:induction false} EnvIs(rules: Rules, settings: seq<Setting>, name: Text)
    ensures Find(EnvOf(rules, settings), name) == LastGiven(rules, settings, name)
    decreases |settings|
  {
    if settings != [] {
      var front, last := settings[..|settings| - 1], settings[|settings| - 1];
      EnvIs(rules, front, name);
      var env := EnvOf(rules, front);
      ToggleFinds(env, last, name);
      VariablesFind(rules, WithToggle(env, last), last.variables, TextOf(last.value), name);
      DynamicFinds(rules, EnvAtFile(rules, env, last), last, name);
    }
  }

  /** The path ends with the name of a settings document. */
  ghost predicate IsSettingsPath(path: Text) {
    exists folder :: path == folder + Ascii("/settings.json")
  }

  lemma SettingsPathIff(path: Text)
    ensures IsSettingsPath(path) <==> EndsWith(path, SETTINGS_FILE)
  {
    if EndsWith(path, SETTINGS_FILE) {
      assert path == path[..|path| - |SETTINGS_FILE|] + SETTINGS_FILE;
    }
    if folder :| path == folder + SETTINGS_FILE {
      assert path[|path| - |SETTINGS_FILE|..] == SETTINGS_FILE;
    }
  }

  lemma ContentIs(lib: Library, env: map<Text, Text>, path: Text, content: Text)
    ensures !IsSettingsPath(path) && path != Ascii("/root/.claude.json") ==> FileContent(lib, env, path, content) == Some(content)
    ensures lib.parse(content).None? || !lib.parse(content).value.Object? ==> FileContent(lib, env, path, content) == Some(content)
    ensures IsSettingsPath(path) && IsObject(lib, content) ==>
              FileContent(lib, env, path, content) == Some(lib.write(Object(Served(lib.parse(content).value.members))))
  {
    SettingsPathIff(path);
  }

  /** The file of a setting: its path, for its owner only, with its content as it is but for two kinds of documents. */
  lemma FileIs(rules: Rules, lib: Library, front: seq<Setting>, s: Setting)
    requires s.value.Document?
    ensures var f, json := FileAt(rules, lib, front, s), lib.parse(s.value.content);
            && f.path == s.value.path && f.mode == 384
            && (!IsSettingsPath(s.value.path) && s.value.path != Ascii("/root/.claude.json") ==> f.data == s.value.content)
            && (json.None? || !json.value.Object? ==> f.data == s.value.content)
            && (IsSettingsPath(s.value.path) && IsObject(lib, s.value.content) ==>
                  f.data == lib.write(Object(Served(json.value.members))))
  {
    ContentIs(lib, EnvAtFile(rules, EnvOf(rules, front), s), s.value.path, s.value.content);
  }

  /** Of the settings in order, those that are documents with some content and an accepted path each add one file. */
  lemma FilesAre(rules: Rules, lib: Library, front: seq<Setting>, s: Setting)
    ensures FilesOf(rules, lib, []) == []
    ensures FilesOf(rules, lib, front + [s]) ==
            if s.value.Document? && s.value.content != [] && rules.path(s.value.path)
            then FilesOf(rules, lib, front) + [FileAt(rules, lib, front, s)]
            else FilesOf(rules, lib, front)
  {
    FilesSnoc(rules, lib, front, s);
  }

  /** A settings document has the clawcage server with its command among the servers, if these are an object. */
  lemma ServerIsAdded(members: map<Text, Json>)
    ensures var after, name := Served(members), Ascii("mcpServers");
            && after.Keys == members.Keys + {name}
            && (forall other | other in members && other != name :: after[other] == members[other])
            && (name in members && !members[name].Object? ==> after == members)
            && (name !in members || members[name].Object? ==>
                  && after[name].Object? && Ascii("clawcage") in after[name].members
                  && after[name].members[Ascii("clawcage")] == Object(map[Ascii("command") := Str(Ascii("/run/clawcage-mcp-server"))])
                  && (forall other | other != Ascii("clawcage") ::
                        MemberOf(after[name].members, other) == MemberOf(if name in members then members[name].members else map[], other)))
  {
  }

  function MemberOf(members: map<Text, Json>, name: Text): Option<Json> {
    if name in members then Some(members[name]) else None
  }

  // ---------------------------------------------------------------------------
  // Which part of a key is sent in the state file
  // ---------------------------------------------------------------------------

  /** The state file of setting `s` approves the part: by the key in force, or by what the user put in. */
  predicate ApprovesAt(rules: Rules, lib: Library, front: seq<Setting>, s: Setting, part: Text)
    requires s.value.Document?
  {
    var env := EnvAtFile(rules, EnvOf(rules, front), s);
    match lib.parse(s.value.content)
    case Some(Object(members)) =>
      || HasPart(members, part)
      || (KEY_VARIABLE in env && LastPart(env[KEY_VARIABLE]) == part && Approvable(members))
    case _ => false
  }

  lemma StateFileApprovesIff(rules: Rules, lib: Library, front: seq<Setting>, s: Setting, part: Text)
    requires Faithful(lib) && IsBootFile(rules, s) && s.value.path == STATE_FILE && !BreaksAt(rules, lib, front, s)
    ensures Approves(lib, FileAt(rules, lib, front, s).data, part) <==> ApprovesAt(rules, lib, front, s, part)
  {
    StateFileIsNoSettingsFile();
    var env := EnvAtFile(rules, EnvOf(rules, front), s);
    if IsObject(lib, s.value.content) && KEY_VARIABLE in env {
      var members, end := lib.parse(s.value.content).value.members, LastPart(env[KEY_VARIABLE]);
      ApprovalAddsPart(members, end);
      var j := Object(Approved(members, end));
      assert lib.parse(lib.write(j)) == Some(j);
    }
  }

  /** The caps leave room for the file of setting `s`. */
  predicate IsSentAt(rules: Rules, lib: Library, front: seq<Setting>, s: Setting) {
    IsBootFile(rules, s) && Admits(rules, Taken(rules, FilesOf(rules, lib, front)), FileAt(rules, lib, front, s))
  }

  /** The file of setting `i` is a state file that is sent and approves the part. */
  predicate SendsPartAt(rules: Rules, lib: Library, settings: seq<Setting>, i: nat, part: Text)
    requires i < |settings|
  {
    && IsSentAt(rules, lib, settings[..i], settings[i]) && settings[i].value.path == STATE_FILE
    && ApprovesAt(rules, lib, settings[..i], settings[i], part)
  }

  ghost predicate SendsPart(rules: Rules, lib: Library, settings: seq<Setting>, part: Text) {
    exists i | 0 <= i < |settings| :: SendsPartAt(rules, lib, settings, i, part)
  }

  predicate IsApprovingFile(lib: Library, f: BootFile, part: Text) {
    f.path == STATE_FILE && Approves(lib, f.data, part)
  }

  ghost predicate HasApprovingFile(lib: Library, files: seq<BootFile>, part: Text) {
    exists i | 0 <= i < |files| :: IsApprovingFile(lib, files[i], part)
  }

  lemma HasApprovingSnoc(lib: Library, files: seq<BootFile>, f: BootFile, part: Text)
    ensures HasApprovingFile(lib, files + [f], part) <==> HasApprovingFile(lib, files, part) || IsApprovingFile(lib, f, part)
  {
    var all := files + [f];
    assert all[|files|] == f;
    if HasApprovingFile(lib, files, part) {
      var i :| 0 <= i < |files| && IsApprovingFile(lib, files[i], part);
      assert all[i] == files[i];
    }
  }

  lemma SendsPartSnoc(rules: Rules, lib: Library, front: seq<Setting>, s: Setting, part: Text)
    ensures SendsPart(rules, lib, front + [s], part) <==>
            || SendsPart(rules, lib, front, part)
            || (IsSentAt(rules, lib, front, s) && s.value.path == STATE_FILE && ApprovesAt(rules, lib, front, s, part))
  {
    var all, n := front + [s], |front|;
    assert all[..n] == front && all[n] == s;
    forall i | 0 <= i < n ensures SendsPartAt(rules, lib, all, i, part) <==> SendsPartAt(rules, lib, front, i, part) {
      assert all[..i] == front[..i] && all[i] == front[i];
    }
    if SendsPart(rules, lib, front, part) {
      var i :| 0 <= i < n && SendsPartAt(rules, lib, front, i, part);
      assert SendsPartAt(rules, lib, all, i, part);
    }
    assert IsSentAt(rules, lib, front, s) && s.value.path == STATE_FILE && ApprovesAt(rules, lib, front, s, part) ==>
             SendsPartAt(rules, lib, all, n, part);
  }

  lemma TakenOneMore(rules: Rules, files: seq<BootFile>, f: BootFile)
    ensures Taken(rules, files + [f]) ==
            if Admits(rules, Taken(rules, files), f) then Taken(rules, files) + [f] else Taken(rules, files)
  {
    TakenSnoc(rules, files + [f], |files|);
    assert (files + [f])[..|files| + 1] == files + [f] && (files + [f])[..|files|] == files;
  }

  lemma {:induction false} TakenApproves(rules: Rules, lib: Library, settings: seq<Setting>, part: Text)
    requires Faithful(lib) && !Breaks(rules, lib, settings)
    ensures HasApprovingFile(lib, Taken(rules, FilesOf(rules, lib, settings)), part) <==> SendsPart(rules, lib, settings, part)
    decreases |settings|
  {
    if settings != [] {
      var front, s := settings[..|settings| - 1], settings[|settings| - 1];
      assert settings == front + [s];
      BreaksSnoc(rules, lib, front, s);
      TakenApproves(rules, lib, front, part);
      SendsPartSnoc(rules, lib, front, s, part);
      LastApproves(rules, lib, front, s, part);
    }
  }

  lemma FileApprovesIff(rules: Rules, lib: Library, front: seq<Setting>, s: Setting, part: Text)
    requires Faithful(lib) && IsBootFile(rules, s) && !BreaksAt(rules, lib, front, s)
    ensures IsApprovingFile(lib, FileAt(rules, lib, front, s), part) <==>
            s.value.path == STATE_FILE && ApprovesAt(rules, lib, front, s, part)
  {
    if s.value.path == STATE_FILE {
      StateFileApprovesIff(rules, lib, front, s, part);
    }
  }

  lemma TakenApprovesIff(rules: Rules, lib: Library, files: seq<BootFile>, f: BootFile, part: Text)
    ensures HasApprovingFile(lib, Taken(rules, files + [f]), part) <==>
            || HasApprovingFile(lib, Taken(rules, files), part)
            || (Admits(rules, Taken(rules, files), f) && IsApprovingFile(lib, f, part))
  {
    TakenOneMore(rules, files, f);
    HasApprovingSnoc(lib, Taken(rules, files), f, part);
  }

  lemma LastApproves(rules: Rules, lib: Library, front: seq<Setting>, s: Setting, part: Text)
    requires Faithful(lib) && !BreaksAt(rules, lib, front, s)
    ensures HasApprovingFile(lib, Taken(rules, FilesOf(rules, lib, front + [s])), part) <==>
            || HasApprovingFile(lib, Taken(rules, FilesOf(rules, lib, front)), part)
            || (IsSentAt(rules, lib, front, s) && s.value.path == STATE_FILE && ApprovesAt(rules, lib, front, s, part))
  {
    FilesSnoc(rules, lib, front, s);
    if IsBootFile(rules, s) {
      TakenApprovesIff(rules, lib, FilesOf(rules, lib, front), FileAt(rules, lib, front, s), part);
      FileApprovesIff(rules, lib, front, s, part);
    }
  }

  // ---------------------------------------------------------------------------
  // The messages
  // ---------------------------------------------------------------------------

  const ISOLATION: Text := Ascii("network.credential_isolation")

  ghost predicate IsTurnedOff(settings: seq<Setting>, i: nat)
    requires i < |settings|
  {
    && settings[i].id == Ascii("network.credential_isolation") && settings[i].value == Flag(false)
    && forall j | 0 <= j < i :: settings[j].id != Ascii("network.credential_isolation")
  }

  /** The first setting of that id decides; without one, or if it is no flag, keys are isolated. */
  function IsIsolated(settings: seq<Setting>): bool {
    if settings == [] then true
    else if settings[0].id == ISOLATION then settings[0].value != Flag(false)
    else IsIsolated(settings[1..])
  }

  /** Keys are not isolated exactly if the first setting of that id is a flag that is off. */
  lemma {:induction false} NotIsolatedIff(settings: seq<Setting>)
    ensures !IsIsolated(settings) <==> exists i | 0 <= i < |settings| :: IsTurnedOff(settings, i)
    decreases |settings|
  {
    if settings == [] {
    } else {
      var rest := settings[1..];
      NotIsolatedIff(rest);
      if i :| 0 <= i < |rest| && IsTurnedOff(rest, i) && settings[0].id != ISOLATION {
        assert IsTurnedOff(settings, i + 1);
      }
      if i :| 0 <= i < |settings| && IsTurnedOff(settings, i) {
        TurnedOffFirst(settings, i);
      }
      if settings[0].id == ISOLATION && settings[0].value == Flag(false) {
        assert IsTurnedOff(settings, 0);
      }
    }
  }

  lemma TurnedOffFirst(settings: seq<Setting>, i: nat)
    requires i < |settings| && IsTurnedOff(settings, i)
    ensures i > 0 ==> settings[0].id != ISOLATION && IsTurnedOff(settings[1..], i - 1)
    ensures i == 0 ==> settings[0].id == ISOLATION && settings[0].value == Flag(false)
  {
  }

  /** The variables in the order that the hash table has them. */
  ghost predicate Lists(entries: seq<Entry>, env: map<Text, Text>) {
    && (forall i, j | 0 <= i < j < |entries| :: entries[i].key != entries[j].key)
    && (forall i | 0 <= i < |entries| :: entries[i].key in env && entries[i].value == env[entries[i].key])
    && (forall name | name in env :: exists i | 0 <= i < |entries| :: entries[i].key == name)
  }

  ghost predicate HasName(entries: seq<Entry>, name: Text) {
    exists i | 0 <= i < |entries| :: entries[i].key == name
  }

  lemma HasNameSnoc(front: seq<Entry>, last: Entry, name: Text)
    ensures HasName(front + [last], name) <==> HasName(front, name) || last.key == name
  {
    var all := front + [last];
    assert all[|front|] == last;
    if i :| 0 <= i < |front| && front[i].key == name {
      assert all[i].key == name;
    }
    if i :| 0 <= i < |all| && all[i].key == name && i < |front| {
      assert front[i].key == name;
    }
  }

  lemma ListsIff(entries: seq<Entry>, env: map<Text, Text>)
    ensures Lists(entries, env) <==>
            && (forall i, j | 0 <= i < j < |entries| :: entries[i].key != entries[j].key)
            && (forall i | 0 <= i < |entries| :: entries[i].key in env && entries[i].value == env[entries[i].key])
            && (forall name | name in env :: HasName(entries, name))
  {
  }

  lemma OneMoreListed(front: seq<Entry>, env: map<Text, Text>, name: Text)
    requires name in env && Lists(front, env - {name})
    ensures Lists(front + [Entry(name, env[name])], env)
  {
    var last := Entry(name, env[name]);
    ListsIff(front, env - {name});
    forall other | other in env ensures HasName(front + [last], other) {
      HasNameSnoc(front, last, other);
    }
    ListsIff(front + [last], env);
  }

  /** Every environment can be listed, and each listing has every variable once. */
  lemma {:induction false} SomeListing(env: map<Text, Text>) returns (entries: seq<Entry>)
    ensures Lists(entries, env)
    decreases |env|
  {
    if env == map[] {
      entries := [];
    } else {
      var name :| name in env;
      OneLess(env, name);
      var front := SomeListing(env - {name});
      OneMoreListed(front, env, name);
      entries := front + [Entry(name, env[name])];
    }
  }

  lemma OneLess(env: map<Text, Text>, name: Text)
    requires name in env
    ensures |env| == |env - {name}| + 1
  {
    assert env.Keys == (env - {name}).Keys + {name};
  }

  lemma {:induction false} ListingHasAll(entries: seq<Entry>, env: map<Text, Text>)
    requires Lists(entries, env)
    ensures |entries| == |env|
    decreases |entries|
  {
    ListsIff(entries, env);
    if entries == [] {
      assert forall name | name in env :: HasName(entries, name);
      assert env == map[];
    } else {
      var front, last := entries[..|entries| - 1], entries[|entries| - 1];
      assert entries == front + [last];
      OneLessListed(front, last, env);
      ListingHasAll(front, env - {last.key});
      OneLess(env, last.key);
    }
  }

  lemma OneLessListed(front: seq<Entry>, last: Entry, env: map<Text, Text>)
    requires Lists(front + [last], env)
    ensures last.key in env && Lists(front, env - {last.key})
  {
    var all, rest := front + [last], env - {last.key};
    ListsIff(all, env);
    assert all[|front|] == last;
    forall i | 0 <= i < |front| ensures front[i].key in rest && front[i].value == rest[front[i].key] {
      assert all[i] == front[i];
    }
    forall name | name in rest ensures HasName(front, name) {
      HasNameSnoc(front, last, name);
    }
    forall i, j | 0 <= i < j < |front| ensures front[i].key != front[j].key {
      assert all[i] == front[i] && all[j] == front[j];
    }
    ListsIff(front, rest);
  }

  /** What else is sent at boot: the clock, variables of the command line, and template files. */
  datatype Extras = Extras(epoch: nat, cli: seq<Entry>, setup: seq<BootFile>)

  /** Template files have paths of their own. */
  ghost predicate AreTemplates(setup: seq<BootFile>) {
    forall i | 0 <= i < |setup| :: setup[i].path != STATE_FILE
  }

  function Boots(rules: Rules, lib: Library, settings: seq<Setting>, entries: seq<Entry>, x: Extras): Config {
    Config(x.epoch, IsIsolated(settings), entries, x.cli, FilesOf(rules, lib, settings), x.setup)
  }

  predicate IsApprovingMessage(lib: Library, m: Message, part: Text) {
    m.FileWrite? && IsApprovingFile(lib, m.file, part)
  }

  ghost predicate HasApprovingMessage(lib: Library, msgs: seq<Message>, part: Text) {
    exists i | 0 <= i < |msgs| :: IsApprovingMessage(lib, msgs[i], part)
  }

  lemma ApprovingInScript(lib: Library, epoch: nat, env: seq<Entry>, files: seq<BootFile>, part: Text)
    ensures HasApprovingMessage(lib, ScriptOf(epoch, env, files), part) <==> HasApprovingFile(lib, files, part)
  {
    var script, n := ScriptOf(epoch, env, files), 1 + |env|;
    assert forall i | n <= i < |script| - 1 :: script[i] == FileWrite(files[i - n]);
    assert forall i | 1 <= i < n :: script[i] == SetEnv(env[i - 1]);
    if HasApprovingFile(lib, files, part) {
      var j :| 0 <= j < |files| && IsApprovingFile(lib, files[j], part);
      assert IsApprovingMessage(lib, script[n + j], part);
    }
    if HasApprovingMessage(lib, script, part) {
      var i :| 0 <= i < |script| && IsApprovingMessage(lib, script[i], part);
      assert IsApprovingFile(lib, files[i - n], part);
    }
  }

  lemma TemplatesApproveNothing(lib: Library, files: seq<BootFile>, setup: seq<BootFile>, part: Text)
    requires AreTemplates(setup)
    ensures HasApprovingFile(lib, files + setup, part) <==> HasApprovingFile(lib, files, part)
  {
    var all := files + setup;
    if HasApprovingFile(lib, files, part) {
      var i :| 0 <= i < |files| && IsApprovingFile(lib, files[i], part);
      assert IsApprovingFile(lib, all[i], part);
    }
    if HasApprovingFile(lib, all, part) {
      var i :| 0 <= i < |all| && IsApprovingFile(lib, all[i], part);
      assert i < |files| ==> IsApprovingFile(lib, files[i], part);
    }
  }

  /**
   Some message of the boot carries a part of a key as approved, isolation or not, exactly if a state file that
   the caps leave room for is a document that can take it, and it is the end of the key in force there, or the
   user's own document has it.
   */
  lemma PartOfKeyIsSentIff(rules: Rules, lib: Library, settings: seq<Setting>, entries: seq<Entry>, x: Extras, part: Text)
    requires Faithful(lib) && AreTemplates(x.setup) && Collect(rules, lib, settings).Some?
    ensures HasApprovingMessage(lib, Script(rules, Boots(rules, lib, settings, entries, x)), part) <==>
            SendsPart(rules, lib, settings, part)
  {
    var c, files := Boots(rules, lib, settings, entries, x), FilesOf(rules, lib, settings);
    CollectIs(rules, lib, settings);
    ApprovingInScript(lib, x.epoch, SentEnv(rules, c), Taken(rules, files) + x.setup, part);
    TemplatesApproveNothing(lib, Taken(rules, files), x.setup, part);
    TakenApproves(rules, lib, settings, part);
  }

  // ---------------------------------------------------------------------------
  // What the guest can tell of the keys
  // ---------------------------------------------------------------------------

  /** Two settings that hold different keys, or the same setting. */
  predicate SameButKey(rules: Rules, s: Setting, t: Setting) {
    || s == t
    || (&& t == Setting(s.id, s.isToggle, t.value, s.variables)
        && IsKey(rules, s.value) && IsKey(rules, t.value)
        && (forall i | 0 <= i < |s.variables| :: s.variables[i] in API_KEYS)
        && (DYNAMIC <= s.id ==> s.id[|DYNAMIC|..] in API_KEYS))
  }

  predicate IsKey(rules: Rules, v: Value) {
    v.Plain? && v.text != [] && rules.value(v.text)
  }

  /** Two users' settings that differ in keys only. */
  ghost predicate SameButKeys(rules: Rules, a: seq<Setting>, b: seq<Setting>) {
    |a| == |b| && forall i | 0 <= i < |a| :: SameButKey(rules, a[i], b[i])
  }

  /** The same variables, none empty, with the same values apart from the keys. */
  ghost predicate AgreeButKeys(e: map<Text, Text>, f: map<Text, Text>) {
    && e.Keys == f.Keys
    && forall name | name in e :: e[name] != [] && f[name] != [] && (name !in API_KEYS ==> e[name] == f[name])
  }

  lemma {:induction false} VariablesAgree(rules: Rules, e: map<Text, Text>, f: map<Text, Text>, names: seq<Text>, p: Text, q: Text)
    requires AgreeButKeys(e, f)
    requires p == q || (p != [] && q != [] && rules.value(p) && rules.value(q) && forall i | 0 <= i < |names| :: names[i] in API_KEYS)
    ensures AgreeButKeys(WithVariables(rules, e, names, p), WithVariables(rules, f, names, q))
    decreases |names|
  {
    if names != [] {
      VariablesAgree(rules, e, f, names[..|names| - 1], p, q);
    }
  }

  lemma SettingAgrees(rules: Rules, e: map<Text, Text>, f: map<Text, Text>, s: Setting, t: Setting)
    requires AgreeButKeys(e, f) && SameButKey(rules, s, t)
    ensures AgreeButKeys(EnvAtFile(rules, e, s), EnvAtFile(rules, f, t))
    ensures AgreeButKeys(WithDynamic(rules, EnvAtFile(rules, e, s), s), WithDynamic(rules, EnvAtFile(rules, f, t), t))
  {
    ToggleAgrees(e, f, s, t);
    VariablesAgree(rules, WithToggle(e, s), WithToggle(f, t), s.variables, TextOf(s.value), TextOf(t.value));
    DynamicAgrees(rules, EnvAtFile(rules, e, s), EnvAtFile(rules, f, t), s, t);
  }

  lemma ToggleAgrees(e: map<Text, Text>, f: map<Text, Text>, s: Setting, t: Setting)
    requires AgreeButKeys(e, f) && s.id == t.id && s.isToggle == t.isToggle && (s.value == Flag(true) <==> t.value == Flag(true))
    ensures AgreeButKeys(WithToggle(e, s), WithToggle(f, t))
  {
  }

  lemma DynamicAgrees(rules: Rules, e: map<Text, Text>, f: map<Text, Text>, s: Setting, t: Setting)
    requires AgreeButKeys(e, f) && SameButKey(rules, s, t)
    ensures AgreeButKeys(WithDynamic(rules, e, s), WithDynamic(rules, f, t))
  {
  }

  lemma EnvUpTo(rules: Rules, a: seq<Setting>, i: nat)
    requires i < |a|
    ensures EnvOf(rules, a[..i + 1]) == WithDynamic(rules, EnvAtFile(rules, EnvOf(rules, a[..i]), a[i]), a[i])
  {
    assert a[..i + 1][..i] == a[..i];
  }

  lemma {:induction false} EnvsAgree(rules: Rules, a: seq<Setting>, b: seq<Setting>, n: nat)
    requires SameButKeys(rules, a, b) && n <= |a|
    ensures AgreeButKeys(EnvOf(rules, a[..n]), EnvOf(rules, b[..n]))
    decreases n
  {
    if n > 0 {
      var i := n - 1;
      EnvsAgree(rules, a, b, i);
      EnvUpTo(rules, a, i);
      EnvUpTo(rules, b, i);
      SettingAgrees(rules, EnvOf(rules, a[..i]), EnvOf(rules, b[..i]), a[i], b[i]);
    }
  }

  /** Isolation makes variables that differ in keys only the same. */
  lemma IsolationHidesKeys(rules: Rules, e: map<Text, Text>, f: map<Text, Text>, p: seq<Entry>, q: seq<Entry>)
    requires AgreeButKeys(e, f) && Lists(p, e) && Lists(q, f)
    requires |p| == |q| && forall i | 0 <= i < |p| :: p[i].key == q[i].key
    ensures Isolated(true, p) == Isolated(true, q)
  {
    forall i | 0 <= i < |p| ensures Isolate(true, p[i]) == Isolate(true, q[i]) {
      assert p[i].key in e && p[i].value == e[p[i].key] && q[i].value == f[q[i].key];
    }
  }

  /** The key in force when the file of setting `i` is made. */
  function KeyAt(rules: Rules, settings: seq<Setting>, i: nat): Option<Text>
    requires i < |settings|
  {
    var env := EnvAtFile(rules, EnvOf(rules, settings[..i]), settings[i]);
    if KEY_VARIABLE in env then Some(env[KEY_VARIABLE]) else None
  }

  /** The file of setting `i` is no state file, or one in which the ends of the two keys make no difference. */
  predicate HidesKeysAt(rules: Rules, lib: Library, a: seq<Setting>, b: seq<Setting>, i: nat)
    requires i < |a| == |b|
  {
    var k, l := KeyAt(rules, a, i), KeyAt(rules, b, i);
    IsBootFile(rules, a[i]) && a[i].value.path == STATE_FILE && k.Some? && l.Some? ==>
      match lib.parse(a[i].value.content)
      case Some(Object(members)) =>
        var p, q := LastPart(k.value), LastPart(l.value);
        p == q || !Approvable(members) || (HasPart(members, p) && HasPart(members, q))
      case _ => true
  }

  /** Both have a key in force, or neither has. */
  lemma BothHaveKeys(rules: Rules, a: seq<Setting>, b: seq<Setting>, i: nat)
    requires SameButKeys(rules, a, b) && i < |a|
    ensures KeyAt(rules, a, i).Some? <==> KeyAt(rules, b, i).Some?
    ensures a[i].value.Document? ==> a[i] == b[i]
  {
    assert SameButKey(rules, a[i], b[i]);
    EnvsAgree(rules, a, b, i);
    SettingAgrees(rules, EnvOf(rules, a[..i]), EnvOf(rules, b[..i]), a[i], b[i]);
  }

  /** The content of a state file, by the key in force. */
  lemma StateFileIs(rules: Rules, lib: Library, a: seq<Setting>, i: nat)
    requires i < |a| && IsBootFile(rules, a[i]) && !BreaksAt(rules, lib, a[..i], a[i]) && a[i].value.path == STATE_FILE
    ensures FileAt(rules, lib, a[..i], a[i]) ==
            BootFile(STATE_FILE,
                     if KeyAt(rules, a, i).Some? && IsObject(lib, a[i].value.content)
                     then lib.write(Object(Approved(lib.parse(a[i].value.content).value.members, LastPart(KeyAt(rules, a, i).value))))
                     else a[i].value.content,
                     OWNER_ONLY)
  {
    StateFileIsNoSettingsFile();
  }

  lemma FileAgreesIff(rules: Rules, lib: Library, a: seq<Setting>, b: seq<Setting>, i: nat)
    requires Faithful(lib) && SameButKeys(rules, a, b) && i < |a| && IsBootFile(rules, a[i])
    requires !BreaksAt(rules, lib, a[..i], a[i]) && !BreaksAt(rules, lib, b[..i], b[i])
    ensures a[i] == b[i]
    ensures FileAt(rules, lib, a[..i], a[i]).path == FileAt(rules, lib, b[..i], b[i]).path == a[i].value.path
    ensures a[i].value.path != STATE_FILE ==> FileAt(rules, lib, a[..i], a[i]) == FileAt(rules, lib, b[..i], b[i])
    ensures FileAt(rules, lib, a[..i], a[i]) == FileAt(rules, lib, b[..i], b[i]) <==> HidesKeysAt(rules, lib, a, b, i)
  {
    BothHaveKeys(rules, a, b, i);
    if a[i].value.path == STATE_FILE {
      StateFileIs(rules, lib, a, i);
      StateFileIs(rules, lib, b, i);
      var k, l := KeyAt(rules, a, i), KeyAt(rules, b, i);
      if k.Some? && IsObject(lib, a[i].value.content) {
        var members := lib.parse(a[i].value.content).value.members;
        SameApprovalIff(members, LastPart(k.value), LastPart(l.value));
        SameTextIff(lib, Object(Approved(members, LastPart(k.value))), Object(Approved(members, LastPart(l.value))));
      }
    }
  }

  lemma SameTextIff(lib: Library, j: Json, k: Json)
    requires Faithful(lib)
    ensures lib.write(j) == lib.write(k) <==> j == k
  {
    assert lib.parse(lib.write(j)) == Some(j) && lib.parse(lib.write(k)) == Some(k);
  }

  ghost predicate HidesKeys(rules: Rules, lib: Library, a: seq<Setting>, b: seq<Setting>, n: nat)
    requires n <= |a| == |b|
  {
    forall i | 0 <= i < n :: HidesKeysAt(rules, lib, a, b, i)
  }

  ghost predicate SameButStateFiles(fs: seq<BootFile>, gs: seq<BootFile>) {
    |fs| == |gs| && forall i | 0 <= i < |fs| :: fs[i].path == gs[i].path && (fs[i].path != STATE_FILE ==> fs[i] == gs[i])
  }

  ghost predicate NeitherBreaks(rules: Rules, lib: Library, a: seq<Setting>, b: seq<Setting>)
    requires |a| == |b|
  {
    forall i | 0 <= i < |a| :: !BreaksAt(rules, lib, a[..i], a[i]) && !BreaksAt(rules, lib, b[..i], b[i])
  }

  /** One more setting, whose file, if it has one, is the same for both exactly if it hides the keys. */
  lemma OneMoreFile(rules: Rules, lib: Library, a: seq<Setting>, b: seq<Setting>, i: nat)
    requires Faithful(lib) && SameButKeys(rules, a, b) && i < |a| && NeitherBreaks(rules, lib, a, b)
    requires SameButStateFiles(FilesOf(rules, lib, a[..i]), FilesOf(rules, lib, b[..i]))
    ensures SameButStateFiles(FilesOf(rules, lib, a[..i + 1]), FilesOf(rules, lib, b[..i + 1]))
    ensures FilesOf(rules, lib, a[..i + 1]) == FilesOf(rules, lib, b[..i + 1]) <==>
            FilesOf(rules, lib, a[..i]) == FilesOf(rules, lib, b[..i]) && HidesKeysAt(rules, lib, a, b, i)
  {
    FilesUpTo(rules, lib, a, i);
    FilesUpTo(rules, lib, b, i);
    BothAreFiles(rules, a[i], b[i]);
    if IsBootFile(rules, a[i]) {
      FileAgreesIff(rules, lib, a, b, i);
      LastDiffers(FilesOf(rules, lib, a[..i]), FilesOf(rules, lib, b[..i]),
                  FileAt(rules, lib, a[..i], a[i]), FileAt(rules, lib, b[..i], b[i]));
    } else {
      NoFileHidesKeys(rules, lib, a, b, i);
    }
  }

  lemma FilesUpTo(rules: Rules, lib: Library, a: seq<Setting>, i: nat)
    requires i < |a|
    ensures FilesOf(rules, lib, a[..i + 1]) ==
            if IsBootFile(rules, a[i]) then FilesOf(rules, lib, a[..i]) + [FileAt(rules, lib, a[..i], a[i])]
            else FilesOf(rules, lib, a[..i])
  {
    assert a[..i + 1] == a[..i] + [a[i]];
    FilesSnoc(rules, lib, a[..i], a[i]);
  }

  lemma BothAreFiles(rules: Rules, s: Setting, t: Setting)
    requires SameButKey(rules, s, t)
    ensures IsBootFile(rules, s) <==> IsBootFile(rules, t)
  {
  }

  lemma NoFileHidesKeys(rules: Rules, lib: Library, a: seq<Setting>, b: seq<Setting>, i: nat)
    requires i < |a| == |b| && !IsBootFile(rules, a[i])
    ensures HidesKeysAt(rules, lib, a, b, i)
  {
  }

  lemma {:induction false} FilesAgreeIff(rules: Rules, lib: Library, a: seq<Setting>, b: seq<Setting>, n: nat)
    requires Faithful(lib) && SameButKeys(rules, a, b) && n <= |a| && NeitherBreaks(rules, lib, a, b)
    ensures SameButStateFiles(FilesOf(rules, lib, a[..n]), FilesOf(rules, lib, b[..n]))
    ensures FilesOf(rules, lib, a[..n]) == FilesOf(rules, lib, b[..n]) <==> HidesKeys(rules, lib, a, b, n)
    decreases n
  {
    if n > 0 {
      var i := n - 1;
      FilesAgreeIff(rules, lib, a, b, i);
      OneMoreFile(rules, lib, a, b, i);
      HidesSnoc(rules, lib, a, b, i);
    }
  }

  lemma HidesSnoc(rules: Rules, lib: Library, a: seq<Setting>, b: seq<Setting>, n: nat)
    requires n < |a| == |b|
    ensures HidesKeys(rules, lib, a, b, n + 1) <==> HidesKeys(rules, lib, a, b, n) && HidesKeysAt(rules, lib, a, b, n)
  {
  }

  lemma LastDiffers(fs: seq<BootFile>, gs: seq<BootFile>, f: BootFile, g: BootFile)
    requires SameButStateFiles(fs, gs) && f.path == g.path && (f.path != STATE_FILE ==> f == g)
    ensures SameButStateFiles(fs + [f], gs + [g])
    ensures fs + [f] == gs + [g] <==> fs == gs && f == g
  {
    assert (fs + [f])[..|fs|] == fs && (gs + [g])[..|gs|] == gs;
    assert (fs + [f])[|fs|] == f && (gs + [g])[|gs|] == g;
  }

  lemma {:induction false} SameIsolation(rules: Rules, a: seq<Setting>, b: seq<Setting>)
    requires SameButKeys(rules, a, b)
    ensures IsIsolated(a) == IsIsolated(b)
    decreases |a|
  {
    if a != [] {
      assert SameButKey(rules, a[0], b[0]);
      SameIsolation(rules, a[1..], b[1..]);
    }
  }

  /**
   With isolation on, two users whose settings differ in keys only send the same variables and, but for the state
   file, collect the same boot files: the keys reach the guest through that file alone.
   */
  lemma KeysReachStateFileOnly(rules: Rules, lib: Library, a: seq<Setting>, b: seq<Setting>, p: seq<Entry>, q: seq<Entry>, x: Extras)
    requires Faithful(lib) && SameButKeys(rules, a, b) && NeitherBreaks(rules, lib, a, b) && IsIsolated(a)
    requires Lists(p, EnvOf(rules, a)) && Lists(q, EnvOf(rules, b))
    requires |p| == |q| && forall i | 0 <= i < |p| :: p[i].key == q[i].key
    ensures SentEnv(rules, Boots(rules, lib, a, p, x)) == SentEnv(rules, Boots(rules, lib, b, q, x))
    ensures SameButStateFiles(FilesOf(rules, lib, a), FilesOf(rules, lib, b))
  {
    assert a[..|a|] == a && b[..|b|] == b;
    EnvsAgree(rules, a, b, |a|);
    IsolationHidesKeys(rules, EnvOf(rules, a), EnvOf(rules, b), p, q);
    SameIsolation(rules, a, b);
    FilesAgreeIff(rules, lib, a, b, |a|);
  }

  /**
   The guest is sent the same messages whichever of the two users boots it, so it can tell nothing of the keys,
   if each state file hides them; and only then, if the caps leave room for all files.
   */
  lemma GuestLearnsNothingIff(rules: Rules, lib: Library, a: seq<Setting>, b: seq<Setting>, p: seq<Entry>, q: seq<Entry>, x: Extras)
    requires Faithful(lib) && SameButKeys(rules, a, b) && NeitherBreaks(rules, lib, a, b) && IsIsolated(a)
    requires Lists(p, EnvOf(rules, a)) && Lists(q, EnvOf(rules, b))
    requires |p| == |q| && forall i | 0 <= i < |p| :: p[i].key == q[i].key
    ensures var s, t := Script(rules, Boots(rules, lib, a, p, x)), Script(rules, Boots(rules, lib, b, q, x));
            && (HidesKeys(rules, lib, a, b, |a|) ==> s == t)
            && (Taken(rules, FilesOf(rules, lib, a)) == FilesOf(rules, lib, a) && Taken(rules, FilesOf(rules, lib, b)) == FilesOf(rules, lib, b) ==>
                  (s == t <==> HidesKeys(rules, lib, a, b, |a|)))
  {
    assert a[..|a|] == a && b[..|b|] == b;
    KeysReachStateFileOnly(rules, lib, a, b, p, q, x);
    FilesAgreeIff(rules, lib, a, b, |a|);
    ScriptIs(rules, lib, a, p, x);
    ScriptIs(rules, lib, b, q, x);
    SameScriptIff(rules, x, SentEnv(rules, Boots(rules, lib, a, p, x)), FilesOf(rules, lib, a), FilesOf(rules, lib, b));
  }

  lemma ScriptIs(rules: Rules, lib: Library, settings: seq<Setting>, entries: seq<Entry>, x: Extras)
    ensures Script(rules, Boots(rules, lib, settings, entries, x)) ==
            ScriptOf(x.epoch, SentEnv(rules, Boots(rules, lib, settings, entries, x)), Taken(rules, FilesOf(rules, lib, settings)) + x.setup)
  {
  }

  lemma SameScriptIff(rules: Rules, x: Extras, env: seq<Entry>, fs: seq<BootFile>, gs: seq<BootFile>)
    requires |fs| == |gs|
    ensures var s, t := ScriptOf(x.epoch, env, Taken(rules, fs) + x.setup), ScriptOf(x.epoch, env, Taken(rules, gs) + x.setup);
            (fs == gs ==> s == t) && (Taken(rules, fs) == fs && Taken(rules, gs) == gs ==> (s == t <==> fs == gs))
  {
    if Taken(rules, fs) == fs && Taken(rules, gs) == gs {
      ScriptTellsFiles(x.epoch, env, fs, gs, x.setup);
    }
  }

  lemma ScriptTellsFiles(epoch: nat, env: seq<Entry>, fs: seq<BootFile>, gs: seq<BootFile>, setup: seq<BootFile>)
    requires |fs| == |gs|
    ensures ScriptOf(epoch, env, fs + setup) == ScriptOf(epoch, env, gs + setup) <==> fs == gs
  {
    var s, t, n := ScriptOf(epoch, env, fs + setup), ScriptOf(epoch, env, gs + setup), 1 + |env|;
    forall i | 0 <= i < |fs| ensures s[n + i] == FileWrite(fs[i]) && t[n + i] == FileWrite(gs[i]) {
      assert (fs + setup)[i] == fs[i] && (gs + setup)[i] == gs[i];
    }
    if s == t {
      forall i | 0 <= i < |fs| ensures fs[i] == gs[i] {
        assert s[n + i] == t[n + i];
      }
    }
  }

  // With the caps, only files that are sent can tell anything.

  /** Each file that is sent for either user hides the keys. */
  ghost predicate HidesWhereSent(rules: Rules, lib: Library, a: seq<Setting>, b: seq<Setting>, n: nat)
    requires n <= |a| == |b|
  {
    forall i | 0 <= i < n :: HidesIfSentAt(rules, lib, a, b, i)
  }

  predicate HidesIfSentAt(rules: Rules, lib: Library, a: seq<Setting>, b: seq<Setting>, i: nat)
    requires i < |a| == |b|
  {
    IsSentAt(rules, lib, a[..i], a[i]) || IsSentAt(rules, lib, b[..i], b[i]) ==> HidesKeysAt(rules, lib, a, b, i)
  }

  /** No two boot files have one path. */
  ghost predicate DistinctPaths(rules: Rules, a: seq<Setting>) {
    forall i, j | 0 <= i < j < |a| && IsBootFile(rules, a[i]) && IsBootFile(rules, a[j]) :: a[i].value.path != a[j].value.path
  }

  ghost predicate HasPath(files: seq<BootFile>, path: Text) {
    exists i | 0 <= i < |files| :: files[i].path == path
  }

  lemma HasPathSnoc(files: seq<BootFile>, f: BootFile, path: Text)
    ensures HasPath(files + [f], path) <==> HasPath(files, path) || f.path == path
  {
    assert (files + [f])[|files|] == f;
    if HasPath(files, path) {
      var i :| 0 <= i < |files| && files[i].path == path;
      assert (files + [f])[i] == files[i];
    }
  }

  lemma {:induction false} TakenPaths(rules: Rules, files: seq<BootFile>, path: Text)
    requires HasPath(Taken(rules, files), path)
    ensures HasPath(files, path)
    decreases |files|
  {
    if files != [] {
      var front, last := files[..|files| - 1], files[|files| - 1];
      assert files == front + [last];
      TakenOneMore(rules, front, last);
      HasPathSnoc(front, last, path);
      HasPathSnoc(Taken(rules, front), last, path);
      if HasPath(Taken(rules, front), path) {
        TakenPaths(rules, front, path);
      }
    }
  }

  lemma {:induction false} PathsAreNew(rules: Rules, lib: Library, a: seq<Setting>, n: nat, i: nat)
    requires DistinctPaths(rules, a) && n <= i < |a| && IsBootFile(rules, a[i])
    ensures !HasPath(FilesOf(rules, lib, a[..n]), a[i].value.path)
    decreases n
  {
    if n > 0 {
      PathsAreNew(rules, lib, a, n - 1, i);
      FilesUpTo(rules, lib, a, n - 1);
      if IsBootFile(rules, a[n - 1]) {
        HasPathSnoc(FilesOf(rules, lib, a[..n - 1]), FileAt(rules, lib, a[..n - 1], a[n - 1]), a[i].value.path);
      }
    }
  }

  /** Two lists of taken files with one more file each, of a path that neither list has. */
  lemma TakenStayApart(rules: Rules, s: seq<BootFile>, t: seq<BootFile>, f: BootFile, g: BootFile)
    requires f.path == g.path && !HasPath(s, f.path) && !HasPath(t, f.path)
    ensures var s', t' := if Admits(rules, s, f) then s + [f] else s, if Admits(rules, t, g) then t + [g] else t;
            s' == t' <==> s == t && (Admits(rules, s, f) || Admits(rules, t, g) ==> f == g)
  {
    HasPathSnoc(s, f, f.path);
    HasPathSnoc(t, g, f.path);
    assert (s + [f])[..|s|] == s && (s + [f])[|s|] == f && (t + [g])[..|t|] == t && (t + [g])[|t|] == g;
  }

  lemma {:induction false} TakenAgreeIff(rules: Rules, lib: Library, a: seq<Setting>, b: seq<Setting>, n: nat)
    requires Faithful(lib) && SameButKeys(rules, a, b) && n <= |a| && NeitherBreaks(rules, lib, a, b) && DistinctPaths(rules, a)
    ensures Taken(rules, FilesOf(rules, lib, a[..n])) == Taken(rules, FilesOf(rules, lib, b[..n])) <==>
            HidesWhereSent(rules, lib, a, b, n)
    decreases n
  {
    if n > 0 {
      var i := n - 1;
      TakenAgreeIff(rules, lib, a, b, i);
      OneMoreTaken(rules, lib, a, b, i);
      HidesWhereSentSnoc(rules, lib, a, b, i);
    }
  }

  lemma HidesWhereSentSnoc(rules: Rules, lib: Library, a: seq<Setting>, b: seq<Setting>, n: nat)
    requires n < |a| == |b|
    ensures HidesWhereSent(rules, lib, a, b, n + 1) <==>
            HidesWhereSent(rules, lib, a, b, n) && HidesIfSentAt(rules, lib, a, b, n)
  {
  }

  lemma OneMoreTaken(rules: Rules, lib: Library, a: seq<Setting>, b: seq<Setting>, i: nat)
    requires Faithful(lib) && SameButKeys(rules, a, b) && i < |a| && NeitherBreaks(rules, lib, a, b) && DistinctPaths(rules, a)
    ensures Taken(rules, FilesOf(rules, lib, a[..i + 1])) == Taken(rules, FilesOf(rules, lib, b[..i + 1])) <==>
            Taken(rules, FilesOf(rules, lib, a[..i])) == Taken(rules, FilesOf(rules, lib, b[..i])) && HidesIfSentAt(rules, lib, a, b, i)
  {
    TakenUpTo(rules, lib, a, i);
    TakenUpTo(rules, lib, b, i);
    BothAreFiles(rules, a[i], b[i]);
    if IsBootFile(rules, a[i]) {
      FileAgreesIff(rules, lib, a, b, i);
      SamePaths(rules, a, b);
      NewPath(rules, lib, a, i);
      NewPath(rules, lib, b, i);
      TakenStayApart(rules, Taken(rules, FilesOf(rules, lib, a[..i])), Taken(rules, FilesOf(rules, lib, b[..i])),
                     FileAt(rules, lib, a[..i], a[i]), FileAt(rules, lib, b[..i], b[i]));
    }
  }

  lemma TakenUpTo(rules: Rules, lib: Library, a: seq<Setting>, i: nat)
    requires i < |a|
    ensures var taken := Taken(rules, FilesOf(rules, lib, a[..i]));
            Taken(rules, FilesOf(rules, lib, a[..i + 1])) ==
            if IsBootFile(rules, a[i]) && Admits(rules, taken, FileAt(rules, lib, a[..i], a[i]))
            then taken + [FileAt(rules, lib, a[..i], a[i])] else taken
  {
    FilesUpTo(rules, lib, a, i);
    if IsBootFile(rules, a[i]) {
      TakenOneMore(rules, FilesOf(rules, lib, a[..i]), FileAt(rules, lib, a[..i], a[i]));
    }
  }

  lemma NewPath(rules: Rules, lib: Library, a: seq<Setting>, i: nat)
    requires DistinctPaths(rules, a) && i < |a| && IsBootFile(rules, a[i])
    ensures !HasPath(Taken(rules, FilesOf(rules, lib, a[..i])), a[i].value.path)
  {
    PathsAreNew(rules, lib, a, i, i);
    if HasPath(Taken(rules, FilesOf(rules, lib, a[..i])), a[i].value.path) {
      TakenPaths(rules, FilesOf(rules, lib, a[..i]), a[i].value.path);
    }
  }

  lemma SamePaths(rules: Rules, a: seq<Setting>, b: seq<Setting>)
    requires SameButKeys(rules, a, b) && DistinctPaths(rules, a)
    ensures DistinctPaths(rules, b)
  {
    forall i, j | 0 <= i < j < |b| && IsBootFile(rules, b[i]) && IsBootFile(rules, b[j]) ensures b[i].value.path != b[j].value.path {
      assert SameButKey(rules, a[i], b[i]) && SameButKey(rules, a[j], b[j]);
    }
  }

  /**
   Whatever the caps leave out: with boot files of different paths the guest is sent the same messages exactly if
   every state file that is sent for one of the two users hides the keys.
   */
  lemma GuestLearnsNothingUnderCapsIff(rules: Rules, lib: Library, a: seq<Setting>, b: seq<Setting>, p: seq<Entry>, q: seq<Entry>, x: Extras)
    requires Faithful(lib) && SameButKeys(rules, a, b) && NeitherBreaks(rules, lib, a, b) && IsIsolated(a)
    requires Lists(p, EnvOf(rules, a)) && Lists(q, EnvOf(rules, b)) && DistinctPaths(rules, a)
    requires |p| == |q| && forall i | 0 <= i < |p| :: p[i].key == q[i].key
    ensures Script(rules, Boots(rules, lib, a, p, x)) == Script(rules, Boots(rules, lib, b, q, x)) <==>
            HidesWhereSent(rules, lib, a, b, |a|)
  {
    assert a[..|a|] == a && b[..|b|] == b;
    KeysReachStateFileOnly(rules, lib, a, b, p, q, x);
    TakenAgreeIff(rules, lib, a, b, |a|);
    ScriptIs(rules, lib, a, p, x);
    ScriptIs(rules, lib, b, q, x);
    ScriptTellsTaken(x.epoch, SentEnv(rules, Boots(rules, lib, a, p, x)), Taken(rules, FilesOf(rules, lib, a)),
                     Taken(rules, FilesOf(rules, lib, b)), x.setup);
  }

  lemma ScriptTellsTaken(epoch: nat, env: seq<Entry>, fs: seq<BootFile>, gs: seq<BootFile>, setup: seq<BootFile>)
    ensures ScriptOf(epoch, env, fs + setup) == ScriptOf(epoch, env, gs + setup) <==> fs == gs
  {
    if ScriptOf(epoch, env, fs + setup) == ScriptOf(epoch, env, gs + setup) {
      assert |ScriptOf(epoch, env, fs + setup)| == 2 + |env| + |fs| + |setup|;
      assert |ScriptOf(epoch, env, gs + setup)| == 2 + |env| + |gs| + |setup|;
      ScriptTellsFiles(epoch, env, fs, gs, setup);
    }
  }

  // ---------------------------------------------------------------------------
  // A stored key that goes out
  // ---------------------------------------------------------------------------

  /** A stored key and a state file, and no setting that turns isolation off. */
  function KeyAndState(key: Text, content: Text): seq<Setting> {
    [Setting(Ascii("ai.anthropic.api_key"), false, Plain(key), [KEY_VARIABLE]),
     Setting(Ascii("ai.anthropic.claude.state_json"), false, Document(STATE_FILE, content), [])]
  }

  /** Two such settings with any two keys differ in keys only, so what is said of those is said of them. */
  lemma AnyTwoKeys(rules: Rules, p: Text, q: Text, content: Text)
    requires p != [] && q != [] && rules.value(p) && rules.value(q)
    ensures SameButKeys(rules, KeyAndState(p, content), KeyAndState(q, content))
  {
    var a, b := KeyAndState(p, content), KeyAndState(q, content);
    assert a[0].id[0] == 'a' as int && DYNAMIC[0] == 'g' as int;
    assert KEY_VARIABLE in API_KEYS;
    assert SameButKey(rules, a[0], b[0]) && SameButKey(rules, a[1], b[1]);
  }

  lemma KeyIsInForce(rules: Rules, key: Text, content: Text)
    requires key != [] && rules.key(KEY_VARIABLE) && rules.value(key)
    ensures EnvOf(rules, KeyAndState(key, content)[..1]) == map[KEY_VARIABLE := key]
    ensures KeyAt(rules, KeyAndState(key, content), 1) == Some(key)
  {
    var settings := KeyAndState(key, content);
    var s, t := settings[0], settings[1];
    assert settings[..1] == [s] && [s][..0] == [];
    assert s.id[0] == 'a' as int && DYNAMIC[0] == 'g' as int;
    assert s.variables == [KEY_VARIABLE] && s.variables[..0] == [];
    assert WithVariables(rules, map[], [], key) == map[];
    assert EnvAtFile(rules, map[], s) == map[KEY_VARIABLE := key];
  }

  lemma NothingTakenBefore(rules: Rules, lib: Library, key: Text, content: Text)
    ensures FilesOf(rules, lib, KeyAndState(key, content)[..1]) == []
    ensures IsIsolated(KeyAndState(key, content))
  {
    var settings := KeyAndState(key, content);
    assert settings[..1] == [] + [settings[0]];
    FilesSnoc(rules, lib, [], settings[0]);
    assert ISOLATION[0] == 'n' as int && settings[0].id[0] == 'a' as int && settings[1].id[0] == 'a' as int;
    assert settings[1..] == [settings[1]] && settings[1..][1..] == [];
  }

  /**
   With isolation on and no variable on the command line, a stored key of at most twenty octets goes out whole in
   the state file, if that is an object whose list of approved keys is absent, as in the default, or a list.
   */
  lemma WholeKeyIsSent(rules: Rules, lib: Library, key: Text, content: Text, members: map<Text, Json>, entries: seq<Entry>, x: Extras)
    requires Faithful(lib) && AreTemplates(x.setup) && x.cli == []
    requires 0 < |key| <= 20 && rules.key(KEY_VARIABLE) && rules.value(key) && rules.path(STATE_FILE)
    requires content != [] && lib.parse(content) == Some(Object(members)) && Approvable(members)
    requires |lib.write(Object(Approved(members, key)))| <= MAX_BOOT_FILE_BYTES
    ensures var settings := KeyAndState(key, content);
            && Collect(rules, lib, settings).Some? && IsIsolated(settings)
            && HasApprovingMessage(lib, Script(rules, Boots(rules, lib, settings, entries, x)), key)
  {
    var settings := KeyAndState(key, content);
    KeyIsInForce(rules, key, content);
    NothingTakenBefore(rules, lib, key, content);
    StateFileIsNoSettingsFile();
    assert FileAt(rules, lib, settings[..1], settings[1]).data == lib.write(Object(Approved(members, key)));
    assert SendsPartAt(rules, lib, settings, 1, key);
    assert !Breaks(rules, lib, settings);
    CollectIs(rules, lib, settings);
    PartOfKeyIsSentIff(rules, lib, settings, entries, x, key);
  }

  /** A key of an accented letter and nineteen octets: cutting it panics, and nothing is collected. */
  lemma AccentedKeyPanics(rules: Rules, lib: Library, end: Text, content: Text)
    requires |end| == 19 && rules.key(KEY_VARIABLE) && rules.value([195, 169] + end) && rules.path(STATE_FILE)
    requires content != [] && IsObject(lib, content)
    ensures Collect(rules, lib, KeyAndState([195, 169] + end, content)).None?
  {
    var key := [195, 169] + end;
    KeyIsInForce(rules, key, content);
    assert key[1] == 169 && SplitByPart(key);
    var settings := KeyAndState(key, content);
    assert BreaksAt(rules, lib, settings[..1], settings[1]);
    CollectIs(rules, lib, settings);
  }
}
