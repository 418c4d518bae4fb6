/** Which variables the host sends at boot, told from the settings and the command line alone. */
module SentVariables {
  import opened Basics
  import opened Boot

  /** The variables that credential isolation is about. */
  predicate IsApiKey(name: Text) {
    || name == Ascii("ANTHROPIC_API_KEY")
    || name == Ascii("OPENAI_API_KEY")
    || name == Ascii("GEMINI_API_KEY")
  }

  /** A key is hidden: isolation is on, and it is set. */
  predicate IsHidden(isolation: bool, e: Entry) {
    isolation && IsApiKey(e.key) && e.value != []
  }

  lemma {:induction false} ValidHas(rules: Rules, entries: seq<Entry>, i: nat) returns (j: nat)
    requires i < |entries| && rules.key(entries[i].key) && rules.value(entries[i].value)
    ensures j <= i && j < |Valid(rules, entries)| && Valid(rules, entries)[j] == entries[i]
    decreases |entries|
  {
    var n := |entries| - 1;
    if i < n {
      j := ValidHas(rules, entries[..n], i);
    } else {
      j := |Valid(rules, entries[..n])|;
      ValidIsNoLonger(rules, entries[..n]);
    }
  }

  lemma ValidIsNoLonger(rules: Rules, entries: seq<Entry>)
    ensures |Valid(rules, entries)| <= |entries|
  {
  }

  /** What is not cut off by the cap is sent. */
  lemma IsSentIfRoom(all: seq<Entry>, sent: seq<Entry>, j: nat)
    requires j < |all| && sent == Shortened(all, 128) && (j < 128 || |sent| < 128)
    ensures all[j] in sent
  {
    assert sent[j] == all[j];
  }

  /**
   A variable of the settings that the validators accept is sent as it is, unless it is a key that is hidden; so
   long as the cap has room, that is it is among the first 128 or fewer than 128 are sent.
   */
  lemma SettingIsSent(rules: Rules, c: Config, i: nat)
    requires i < |c.settings| && rules.key(c.settings[i].key) && rules.value(c.settings[i].value)
    requires !IsHidden(c.isolation, c.settings[i]) && (i < 128 || |SentEnv(rules, c)| < 128)
    ensures c.settings[i] in SentEnv(rules, c)
  {
    IsolateIs(c.isolation, c.settings[i]);
    var valid := Valid(rules, Isolated(c.isolation, c.settings));
    var j := ValidHas(rules, Isolated(c.isolation, c.settings), i);
    var all := valid + Valid(rules, c.cli);
    assert all[j] == valid[j];
    IsSentIfRoom(all, SentEnv(rules, c), j);
  }

  /** A key that is hidden is sent as the placeholder. */
  lemma HiddenKeyIsSentAsPlaceholder(rules: Rules, c: Config, i: nat)
    requires i < |c.settings| && rules.key(c.settings[i].key) && rules.value(Ascii("clawcage-proxy-managed"))
    requires IsHidden(c.isolation, c.settings[i]) && (i < 128 || |SentEnv(rules, c)| < 128)
    ensures Entry(c.settings[i].key, Ascii("clawcage-proxy-managed")) in SentEnv(rules, c)
  {
    IsolateIs(c.isolation, c.settings[i]);
    var valid := Valid(rules, Isolated(c.isolation, c.settings));
    var j := ValidHas(rules, Isolated(c.isolation, c.settings), i);
    var all := valid + Valid(rules, c.cli);
    assert all[j] == valid[j];
    IsSentIfRoom(all, SentEnv(rules, c), j);
  }

  /** A variable of the command line that the validators accept is sent as it is, isolation or not. */
  lemma CommandLineIsSent(rules: Rules, c: Config, i: nat)
    requires i < |c.cli| && rules.key(c.cli[i].key) && rules.value(c.cli[i].value)
    requires |c.settings| + i < 128 || |SentEnv(rules, c)| < 128
    ensures c.cli[i] in SentEnv(rules, c)
  {
    var valid := Valid(rules, Isolated(c.isolation, c.settings));
    var j := ValidHas(rules, c.cli, i);
    var all := valid + Valid(rules, c.cli);
    assert all[|valid| + j] == Valid(rules, c.cli)[j];
    IsSentIfRoom(all, SentEnv(rules, c), |valid| + j);
  }

  lemma IsolateIs(isolation: bool, e: Entry)
    ensures Isolate(isolation, e) == if IsHidden(isolation, e) then Entry(e.key, Ascii("clawcage-proxy-managed")) else e
  {
  }

  /** The settings hold a key of that name which is hidden. */
  ghost predicate HasHidden(c: Config, name: Text) {
    exists i | 0 <= i < |c.settings| :: c.settings[i].key == name && IsHidden(c.isolation, c.settings[i])
  }

  /**
   Nothing else is sent: every variable is accepted by the validators and comes from the command line, or from the
   settings with its own value and is not hidden, or is the placeholder of a hidden key.
   */
  lemma OnlyTheseAreSent(rules: Rules, c: Config, e: Entry)
    requires e in SentEnv(rules, c)
    ensures rules.key(e.key) && rules.value(e.value) && |SentEnv(rules, c)| <= 128
    ensures e in c.cli || (e in c.settings && !IsHidden(c.isolation, e)) || (e.value == Ascii("clawcage-proxy-managed") && HasHidden(c, e.key))
  {
    var all := Isolated(c.isolation, c.settings);
    ValidAreValid(rules, all);
    ValidAreValid(rules, c.cli);
    assert e in Valid(rules, all) + Valid(rules, c.cli);
    if e !in c.cli {
      var i :| 0 <= i < |all| && all[i] == e;
      IsolateIs(c.isolation, c.settings[i]);
    }
  }

  /** With isolation a key is sent as the placeholder exactly if it is set, while the cap has room. */
  lemma PlaceholderIsSentIff(rules: Rules, c: Config, name: Text)
    requires c.isolation && IsApiKey(name) && rules.key(name) && rules.value(Ascii("clawcage-proxy-managed"))
    requires |SentEnv(rules, c)| < 128 && Entry(name, Ascii("clawcage-proxy-managed")) !in c.cli
    ensures Entry(name, Ascii("clawcage-proxy-managed")) in SentEnv(rules, c) <==>
            exists i | 0 <= i < |c.settings| :: c.settings[i].key == name && c.settings[i].value != []
  {
    var e := Entry(name, Ascii("clawcage-proxy-managed"));
    if e in SentEnv(rules, c) {
      OnlyTheseAreSent(rules, c, e);
      assert IsHidden(c.isolation, e);
    }
    if i :| 0 <= i < |c.settings| && c.settings[i].key == name && c.settings[i].value != [] {
      HiddenKeyIsSentAsPlaceholder(rules, c, i);
    }
  }

  /** The order of the messages: the clock, variables, configured files, template files, and the end. */
  lemma ScriptIsInOrder(rules: Rules, c: Config, i: nat)
    requires i < |Script(rules, c)|
    ensures var env, files, setup := SentEnv(rules, c), Taken(rules, c.files), c.setup;
            && |Script(rules, c)| == |env| + |files| + |setup| + 2
            && Script(rules, c)[i] ==
               if i == 0 then BootConfig(c.epoch)
               else if i <= |env| then SetEnv(env[i - 1])
               else if i <= |env| + |files| then FileWrite(files[i - |env| - 1])
               else if i <= |env| + |files| + |setup| then FileWrite(setup[i - |env| - |files| - 1])
               else BootConfigDone
  {
  }
}
