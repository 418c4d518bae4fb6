/**
 The boot handshake: what the host sends, what the guest accepts of it, and the exchange of the two over FIFO
 channels. Both sides apply the same validators and the same caps, on their own counts.
 */
module Boot {
  import opened Basics
  import Utf8Cap

  const MAX_BOOT_ENV_VARS: nat := 128
  const MAX_BOOT_FILES: nat := 64
  const MAX_BOOT_FILE_BYTES: nat := 10_485_760

  /** A text is its UTF-8 octets. */
  type Text = seq<byte>

  datatype Entry = Entry(key: Text, value: Text)

  datatype BootFile = BootFile(path: Text, data: seq<byte>, mode: nat)

  datatype Message =
    | BootConfig(epoch: nat)
    | SetEnv(entry: Entry)
    | FileWrite(file: BootFile)
    | BootConfigDone
    | Unexpected

  /** The validators of the protocol crate, and whether a message's frame is within the size the guest reads. */
  datatype Rules = Rules(key: Text -> bool, value: Text -> bool, path: Text -> bool, fits: Message -> bool)

  predicate ValidEntry(rules: Rules, e: Entry) {
    rules.key(e.key) && rules.value(e.value)
  }

  function Bytes(files: seq<BootFile>): nat {
    if files == [] then 0 else Bytes(files[..|files| - 1]) + |files[|files| - 1].data|
  }

  predicate Admits(rules: Rules, files: seq<BootFile>, f: BootFile) {
    |files| < MAX_BOOT_FILES && Bytes(files) + |f.data| <= MAX_BOOT_FILE_BYTES && rules.path(f.path)
  }

  /** The files that are taken when each is taken if it still fits. */
  function Taken(rules: Rules, files: seq<BootFile>): (r: seq<BootFile>)
    ensures |r| <= MAX_BOOT_FILES && Bytes(r) <= MAX_BOOT_FILE_BYTES
  {
    if files == [] then []
    else
      var front := Taken(rules, files[..|files| - 1]);
      var last := files[|files| - 1];
      if Admits(rules, front, last) then
        assert (front + [last])[..|front|] == front;
        front + [last]
      else front
  }

  // ---------------------------------------------------------------------------
  // The host
  // ---------------------------------------------------------------------------

  const API_KEYS: set<Text> := {Ascii("ANTHROPIC_API_KEY"), Ascii("OPENAI_API_KEY"), Ascii("GEMINI_API_KEY")}
  const PLACEHOLDER: Text := Ascii("clawcage-proxy-managed")

  /** Credential isolation: a key that is set is sent as a placeholder. */
  function Isolate(isolation: bool, e: Entry): Entry {
    if isolation && e.key in API_KEYS && e.value != [] then Entry(e.key, PLACEHOLDER) else e
  }

  /** `settings` are the merged settings of the venv, `setup` its template script and environment, if present. */
  datatype Config = Config(epoch: nat, isolation: bool, settings: seq<Entry>, cli: seq<Entry>,
                           files: seq<BootFile>, setup: seq<BootFile>)

  function Shortened<T>(s: seq<T>, max: nat): (r: seq<T>)
    ensures |r| <= max && r <= s
  {
    if |s| <= max then s else s[..max]
  }

  function Valid(rules: Rules, entries: seq<Entry>): (r: seq<Entry>)
    ensures |r| <= |entries|
  {
    if entries == [] then []
    else
      var front := Valid(rules, entries[..|entries| - 1]);
      var last := entries[|entries| - 1];
      if ValidEntry(rules, last) then front + [last] else front
  }

  function Isolated(isolation: bool, entries: seq<Entry>): (r: seq<Entry>)
    ensures |r| == |entries|
    ensures forall i | 0 <= i < |entries| :: r[i] == Isolate(isolation, entries[i])
  {
    seq(|entries|, i requires 0 <= i < |entries| => Isolate(isolation, entries[i]))
  }

  /** The variables that are sent: of the valid ones, settings before command line, as many as the cap allows. */
  function SentEnv(rules: Rules, c: Config): (r: seq<Entry>)
    ensures |r| <= MAX_BOOT_ENV_VARS
  {
    Shortened(Valid(rules, Isolated(c.isolation, c.settings)) + Valid(rules, c.cli), MAX_BOOT_ENV_VARS)
  }

  function SetEnvs(entries: seq<Entry>): (r: seq<Message>)
    ensures |r| == |entries| && forall i | 0 <= i < |r| :: r[i] == SetEnv(entries[i])
  {
    seq(|entries|, i requires 0 <= i < |entries| => SetEnv(entries[i]))
  }

  function FileWrites(files: seq<BootFile>): (r: seq<Message>)
    ensures |r| == |files| && forall i | 0 <= i < |r| :: r[i] == FileWrite(files[i])
  {
    seq(|files|, i requires 0 <= i < |files| => FileWrite(files[i]))
  }

  function ScriptOf(epoch: nat, env: seq<Entry>, files: seq<BootFile>): seq<Message> {
    [BootConfig(epoch)] + SetEnvs(env) + FileWrites(files) + [BootConfigDone]
  }

  /** Everything the host sends. The setup files are not counted against the caps. */
  function Script(rules: Rules, c: Config): seq<Message> {
    ScriptOf(c.epoch, SentEnv(rules, c), Taken(rules, c.files) + c.setup)
  }

  lemma ValidSnoc(rules: Rules, entries: seq<Entry>, i: nat)
    requires i < |entries|
    ensures Valid(rules, entries[..i + 1]) ==
            if ValidEntry(rules, entries[i]) then Valid(rules, entries[..i]) + [entries[i]] else Valid(rules, entries[..i])
  {
    assert entries[..i + 1][..i] == entries[..i];
  }

  lemma TakenSnoc(rules: Rules, files: seq<BootFile>, i: nat)
    requires i < |files|
    ensures Taken(rules, files[..i + 1]) ==
            if Admits(rules, Taken(rules, files[..i]), files[i]) then Taken(rules, files[..i]) + [files[i]]
            else Taken(rules, files[..i])
  {
    assert files[..i + 1][..i] == files[..i];
  }

  lemma {:induction false} ValidGrows(rules: Rules, entries: seq<Entry>, i: nat)
    requires i <= |entries|
    ensures Valid(rules, entries[..i]) <= Valid(rules, entries)
    decreases |entries| - i
  {
    if i < |entries| {
      ValidSnoc(rules, entries, i);
      ValidGrows(rules, entries, i + 1);
    } else {
      assert entries[..i] == entries;
    }
  }

  lemma {:induction false} FullStays(rules: Rules, files: seq<BootFile>, i: nat)
    requires i <= |files| && |Taken(rules, files[..i])| == MAX_BOOT_FILES
    ensures Taken(rules, files) == Taken(rules, files[..i])
    decreases |files| - i
  {
    if i < |files| {
      TakenSnoc(rules, files, i);
      FullStays(rules, files, i + 1);
    } else {
      assert files[..i] == files;
    }
  }

  lemma BytesSnoc(files: seq<BootFile>, f: BootFile)
    ensures Bytes(files + [f]) == Bytes(files) + |f.data|
  {
    assert (files + [f])[..|files|] == files;
  }

  lemma CapReached(rules: Rules, entries: seq<Entry>, i: nat)
    requires i <= |entries|
    ensures var v := Valid(rules, entries[..i]); Shortened(Valid(rules, entries), |v|) == v
  {
    ValidGrows(rules, entries, i);
    var v, w := Valid(rules, entries[..i]), Valid(rules, entries);
    assert w[..|v|] == v;
  }

  lemma SetEnvsSnoc(entries: seq<Entry>, e: Entry)
    ensures SetEnvs(entries) + [SetEnv(e)] == SetEnvs(entries + [e])
  {
  }

  lemma FileWritesSnoc(files: seq<BootFile>, f: BootFile)
    ensures FileWrites(files) + [FileWrite(f)] == FileWrites(files + [f])
  {
  }

  /** One of the two loops that send variables; `sent` were sent by the loop before. */
  method SendVariables(rules: Rules, isolation: bool, entries: seq<Entry>, sent: nat) returns (msgs: seq<Message>)
    requires sent <= MAX_BOOT_ENV_VARS
    ensures msgs == SetEnvs(Shortened(Valid(rules, Isolated(isolation, entries)), MAX_BOOT_ENV_VARS - sent))
  {
    ghost var all := Isolated(isolation, entries);
    msgs := [];
    var count := sent;
    for i := 0 to |entries|
      invariant count == sent + |msgs| <= MAX_BOOT_ENV_VARS
      invariant msgs == SetEnvs(Valid(rules, all[..i]))
    {
      if count >= MAX_BOOT_ENV_VARS {
        CapReached(rules, all, i);
        return;
      }
      ghost var front := Valid(rules, all[..i]);
      ValidSnoc(rules, all, i);
      var key, value := entries[i].key, entries[i].value;
      assert all[i].key == key;
      if !rules.key(key) {
        continue;
      }
      if isolation && key in API_KEYS && value != [] {
        value := PLACEHOLDER;
      }
      assert all[i] == Entry(key, value);
      if !rules.value(value) {
        continue;
      }
      SetEnvsSnoc(front, Entry(key, value));
      msgs := msgs + [SetEnv(Entry(key, value))];
      count := count + 1;
    }
    assert all[..|entries|] == all;
  }

  /** The loop that sends the configured files. */
  method SendFiles(rules: Rules, files: seq<BootFile>) returns (msgs: seq<Message>)
    ensures msgs == FileWrites(Taken(rules, files))
  {
    msgs := [];
    var fileCount, totalFileBytes := 0, 0;
    for i := 0 to |files|
      invariant msgs == FileWrites(Taken(rules, files[..i]))
      invariant fileCount == |msgs| && totalFileBytes == Bytes(Taken(rules, files[..i]))
    {
      TakenSnoc(rules, files, i);
      ghost var front := Taken(rules, files[..i]);
      BytesSnoc(front, files[i]);
      if fileCount >= MAX_BOOT_FILES {
        FullStays(rules, files, i);
        return;
      }
      if totalFileBytes + |files[i].data| > MAX_BOOT_FILE_BYTES {
        continue;
      }
      if !rules.path(files[i].path) {
        continue;
      }
      totalFileBytes := totalFileBytes + |files[i].data|;
      fileCount := fileCount + 1;
      FileWritesSnoc(front, files[i]);
      msgs := msgs + [FileWrite(files[i])];
    }
    assert files[..|files|] == files;
  }

  lemma SetEnvsAppend(a: seq<Entry>, b: seq<Entry>)
    ensures SetEnvs(a) + SetEnvs(b) == SetEnvs(a + b)
  {
  }

  lemma FileWritesAppend(a: seq<BootFile>, b: seq<BootFile>)
    ensures FileWrites(a) + FileWrites(b) == FileWrites(a + b)
  {
  }

  lemma ShortenedInTwo<T>(a: seq<T>, b: seq<T>, max: nat)
    ensures Shortened(a, max) + Shortened(b, max - |Shortened(a, max)|) == Shortened(a + b, max)
  {
    if |a| < max {
      assert |a + b| > max ==> (a + b)[..max] == a + b[..max - |a|];
    } else {
      assert Shortened(a, max) == a[..max] == (a + b)[..max];
      assert |a + b| == max ==> (a + b)[..max] == a + b;
    }
  }

  /** send_boot_config_for_venv with every write succeeding. */
  method SendBootConfig(rules: Rules, c: Config) returns (msgs: seq<Message>)
    ensures msgs == Script(rules, c)
  {
    var settings := SendVariables(rules, c.isolation, c.settings, 0);
    var cli := SendVariables(rules, false, c.cli, |settings|);
    var files := SendFiles(rules, c.files);
    EnvOfTwoLoops(rules, c, settings, cli);
    FileWritesAppend(Taken(rules, c.files), c.setup);
    msgs := [BootConfig(c.epoch)] + (settings + cli) + (files + FileWrites(c.setup)) + [BootConfigDone];
  }

  lemma EnvOfTwoLoops(rules: Rules, c: Config, settings: seq<Message>, cli: seq<Message>)
    requires settings == SetEnvs(Shortened(Valid(rules, Isolated(c.isolation, c.settings)), MAX_BOOT_ENV_VARS))
    requires cli == SetEnvs(Shortened(Valid(rules, Isolated(false, c.cli)), MAX_BOOT_ENV_VARS - |settings|))
    ensures settings + cli == SetEnvs(SentEnv(rules, c))
  {
    assert Isolated(false, c.cli) == c.cli;
    var a, b := Valid(rules, Isolated(c.isolation, c.settings)), Valid(rules, c.cli);
    ShortenedInTwo(a, b, MAX_BOOT_ENV_VARS);
    SetEnvsAppend(Shortened(a, MAX_BOOT_ENV_VARS), Shortened(b, MAX_BOOT_ENV_VARS - |settings|));
  }

  lemma {:induction false} ValidAreValid(rules: Rules, entries: seq<Entry>)
    ensures forall e | e in Valid(rules, entries) :: e in entries && ValidEntry(rules, e)
  {
    if entries != [] {
      ValidAreValid(rules, entries[..|entries| - 1]);
    }
  }

  /**
   With credential isolation a variable named like an API key is empty, the placeholder, or given on the command
   line, which is not isolated. What boot files tell of a key is another matter: see KeyIsolation.
   */
  lemma ApiKeyVariablesAreIsolated(rules: Rules, c: Config, e: Entry)
    requires c.isolation && e in SentEnv(rules, c) && e.key in API_KEYS
    ensures e.value == [] || e.value == PLACEHOLDER || e in c.cli
  {
    var all := Isolated(true, c.settings);
    ValidAreValid(rules, all);
    ValidAreValid(rules, c.cli);
    assert e in Valid(rules, all) + Valid(rules, c.cli);
  }

  predicate IsRealKey(e: Entry) {
    e.key in API_KEYS && e.value != [] && e.value != PLACEHOLDER
  }

  ghost predicate HasRealKey(entries: seq<Entry>) {
    exists i | 0 <= i < |entries| :: IsRealKey(entries[i])
  }

  /** One of the first `n` entries is a real key. */
  ghost predicate HasRealKeyBefore(entries: seq<Entry>, n: int) {
    exists i | 0 <= i < |entries| && i < n :: IsRealKey(entries[i])
  }

  lemma NoRealKeyInSettings(rules: Rules, settings: seq<Entry>)
    ensures var valid := Valid(rules, Isolated(true, settings)); forall i | 0 <= i < |valid| :: !IsRealKey(valid[i])
  {
    var all := Isolated(true, settings);
    var valid := Valid(rules, all);
    ValidAreValid(rules, all);
    forall i | 0 <= i < |valid| ensures !IsRealKey(valid[i]) {
      assert valid[i] in all;
      var j :| 0 <= j < |all| && all[j] == valid[i];
      assert all[j] == Isolate(true, settings[j]);
    }
  }

  lemma RealKeyInFront(settings: seq<Entry>, cli: seq<Entry>, max: nat)
    requires forall i | 0 <= i < |settings| :: !IsRealKey(settings[i])
    ensures HasRealKey(Shortened(settings + cli, max)) <==> HasRealKeyBefore(cli, max - |settings|)
  {
    var sent, n := Shortened(settings + cli, max), |settings|;
    forall j | 0 <= j < |sent| ensures sent[j] == if j < n then settings[j] else cli[j - n] {
    }
    if HasRealKeyBefore(cli, max - n) {
      var i :| 0 <= i < |cli| && i < max - n && IsRealKey(cli[i]);
      assert sent[n + i] == cli[i];
    }
    if HasRealKey(sent) {
      var j :| 0 <= j < |sent| && IsRealKey(sent[j]);
      assert sent[j] == cli[j - n];
    }
  }

  /**
   With credential isolation a real key is sent as a variable exactly if a valid command-line variable is one and
   the cap still has room for it after the valid settings and the command-line variables before it.
   */
  lemma RealKeyVariableIsSentIff(rules: Rules, c: Config)
    requires c.isolation
    ensures var settings, cli := Valid(rules, Isolated(true, c.settings)), Valid(rules, c.cli);
            HasRealKey(SentEnv(rules, c)) <==> HasRealKeyBefore(cli, MAX_BOOT_ENV_VARS - |settings|)
  {
    NoRealKeyInSettings(rules, c.settings);
    RealKeyInFront(Valid(rules, Isolated(true, c.settings)), Valid(rules, c.cli), MAX_BOOT_ENV_VARS);
  }

  // ---------------------------------------------------------------------------
  // The guest
  // ---------------------------------------------------------------------------

  datatype Phase = AwaitConfig | Receiving | Finished | Crashed

  datatype Guest = Guest(env: seq<Entry>, files: seq<BootFile>, phase: Phase)

  const FRESH: Guest := Guest([], [], AwaitConfig)

  /** The log preview of a long value is its first 40 octets; that panics inside a multi-octet character. */
  const PREVIEW: nat := 40

  predicate SplitByPreview(value: Text) {
    |value| > PREVIEW && !Utf8Cap.IsCharBoundary(value, PREVIEW)
  }

  /** In numbers: more than forty octets, of which the one at forty continues a character. */
  lemma PreviewBreaksIff(value: Text)
    ensures SplitByPreview(value) <==> |value| > 40 && 128 <= value[40] < 192
  {
  }

  /**
   One message of the handshake; `stored` is whether the file system takes a file. The first message, which
   holds one number, is always small enough to be read.
   */
  function Receive(rules: Rules, g: Guest, m: Message, stored: bool): Guest {
    match g.phase
    case AwaitConfig => g.(phase := Receiving)
    case Receiving =>
      if !rules.fits(m) then g.(phase := Finished)
      else (
        match m
        case SetEnv(e) =>
          if !ValidEntry(rules, e) || |g.env| >= MAX_BOOT_ENV_VARS then g
          else if SplitByPreview(e.value) then g.(phase := Crashed)
          else g.(env := g.env + [e])
        case FileWrite(f) => if Admits(rules, g.files, f) && stored then g.(files := g.files + [f]) else g
        case BootConfigDone => g.(phase := Finished)
        case _ => g)
    case _ => g
  }

  /** A message with the outcome of writing its file, if it has one. */
  datatype Delivery = Delivery(message: Message, stored: bool)

  function ReceiveAll(rules: Rules, g: Guest, ds: seq<Delivery>): Guest {
    if ds == [] then g
    else
      var last := ds[|ds| - 1];
      Receive(rules, ReceiveAll(rules, g, ds[..|ds| - 1]), last.message, last.stored)
  }

  /** The agent during the handshake, with the counters it keeps. */
  class BootAgent {
    var env: seq<Entry>
    var files: seq<BootFile>
    var fileCount: nat
    var totalFileBytes: nat
    var phase: Phase

    ghost predicate Valid()
      reads this
    {
      fileCount == |files| && totalFileBytes == Bytes(files)
    }

    function State(): Guest
      reads this
    {
      Guest(env, files, phase)
    }

    constructor ()
      ensures Valid() && State() == FRESH
    {
      env, files, fileCount, totalFileBytes, phase := [], [], 0, 0, AwaitConfig;
    }

    method OnSetEnv(rules: Rules, e: Entry)
      requires Valid() && phase.Receiving? && rules.fits(SetEnv(e))
      modifies this`env, this`phase
      ensures Valid() && State() == Receive(rules, old(State()), SetEnv(e), true)
    {
      if !rules.key(e.key) { return; }
      if !rules.value(e.value) { return; }
      if |env| >= MAX_BOOT_ENV_VARS { return; }
      if SplitByPreview(e.value) {
        phase := Crashed;
        return;
      }
      env := env + [e];
    }

    method OnFileWrite(rules: Rules, f: BootFile, stored: bool)
      requires Valid() && phase.Receiving? && rules.fits(FileWrite(f))
      modifies this`files, this`fileCount, this`totalFileBytes
      ensures Valid() && State() == Receive(rules, old(State()), FileWrite(f), stored)
    {
      if !rules.path(f.path) { return; }
      if fileCount >= MAX_BOOT_FILES { return; }
      if totalFileBytes + |f.data| > MAX_BOOT_FILE_BYTES { return; }
      if !stored { return; }
      BytesSnoc(files, f);
      files := files + [f];
      totalFileBytes := totalFileBytes + |f.data|;
      fileCount := fileCount + 1;
    }

    /** One pass of the handshake, the first pass being the wait for BootConfig. */
    method OnMessage(rules: Rules, m: Message, stored: bool)
      requires Valid() && (phase.AwaitConfig? || phase.Receiving?)
      modifies this
      ensures Valid() && State() == Receive(rules, old(State()), m, stored)
    {
      if phase.AwaitConfig? {
        phase := Receiving;
      } else if !rules.fits(m) {
        phase := Finished;
      } else {
        match m
        case SetEnv(e) => OnSetEnv(rules, e);
        case FileWrite(f) => OnFileWrite(rules, f, stored);
        case BootConfigDone => phase := Finished;
        case _ =>
      }
    }
  }

  /** What the guest holds is valid and within the caps, whatever it is sent. */
  ghost predicate WithinCaps(rules: Rules, g: Guest) {
    && |g.env| <= 128 && (forall e | e in g.env :: rules.key(e.key) && rules.value(e.value) && !SplitByPreview(e.value))
    && |g.files| <= 64 && Bytes(g.files) <= 10_485_760
    && (forall f | f in g.files :: rules.path(f.path))
  }

  lemma {:induction false} GuestStaysWithinCaps(rules: Rules, ds: seq<Delivery>)
    ensures WithinCaps(rules, ReceiveAll(rules, FRESH, ds))
    decreases |ds|
  {
    if ds != [] {
      var front, last := ds[..|ds| - 1], ds[|ds| - 1];
      GuestStaysWithinCaps(rules, front);
      var g := ReceiveAll(rules, FRESH, front);
      if last.message.FileWrite? {
        BytesSnoc(g.files, last.message.file);
      }
    }
  }

  // ---------------------------------------------------------------------------
  // What arrives of what was sent
  // ---------------------------------------------------------------------------

  /** The deliveries of messages when the file system takes every file. */
  function Stored(msgs: seq<Message>): (ds: seq<Delivery>)
    ensures |ds| == |msgs| && forall i | 0 <= i < |ds| :: ds[i] == Delivery(msgs[i], true)
  {
    seq(|msgs|, i requires 0 <= i < |msgs| => Delivery(msgs[i], true))
  }

  lemma StoredAppend(a: seq<Message>, b: seq<Message>)
    ensures Stored(a + b) == Stored(a) + Stored(b)
  {
  }

  lemma StoredSnoc(msgs: seq<Message>, m: Message)
    ensures Stored(msgs + [m]) == Stored(msgs) + [Delivery(m, true)]
  {
  }

  lemma {:induction false} ReceiveAppend(rules: Rules, g: Guest, a: seq<Delivery>, b: seq<Delivery>)
    ensures ReceiveAll(rules, g, a + b) == ReceiveAll(rules, ReceiveAll(rules, g, a), b)
    decreases |b|
  {
    if b == [] {
      assert a + b == a;
    } else {
      var front, last := b[..|b| - 1], b[|b| - 1];
      ReceiveAppend(rules, g, a, front);
      assert (a + b)[..|a + b| - 1] == a + front && (a + b)[|a + b| - 1] == last;
    }
  }

  /** The frame is small enough to be read and the preview of the value is whole characters. */
  predicate Deliverable(rules: Rules, m: Message) {
    rules.fits(m) && (m.SetEnv? ==> !SplitByPreview(m.entry.value))
  }

  lemma {:induction false} EnvArrives(rules: Rules, g: Guest, entries: seq<Entry>)
    requires g.phase.Receiving? && |g.env| + |entries| <= MAX_BOOT_ENV_VARS
    requires forall i | 0 <= i < |entries| :: ValidEntry(rules, entries[i]) && Deliverable(rules, SetEnv(entries[i]))
    ensures ReceiveAll(rules, g, Stored(SetEnvs(entries))) == g.(env := g.env + entries)
    decreases |entries|
  {
    if entries == [] {
      assert g.env + [] == g.env;
    } else {
      var front, last := entries[..|entries| - 1], entries[|entries| - 1];
      EnvArrives(rules, g, front);
      assert entries == front + [last];
      SetEnvsSnoc(front, last);
      StoredSnoc(SetEnvs(front), SetEnv(last));
      ReceiveLast(rules, g, Stored(SetEnvs(front)), SetEnv(last));
      AppendAssoc(g.env, front, [last]);
    }
  }

  /** The guest takes the files it would take if it had chosen them itself. */
  lemma {:induction false} FilesArrive(rules: Rules, g: Guest, files: seq<BootFile>, before: seq<BootFile>)
    requires g.phase.Receiving? && g.files == Taken(rules, before)
    requires forall i | 0 <= i < |files| :: Deliverable(rules, FileWrite(files[i]))
    ensures ReceiveAll(rules, g, Stored(FileWrites(files))) == g.(files := Taken(rules, before + files))
    decreases |files|
  {
    if files == [] {
      assert before + [] == before;
    } else {
      var front, last := files[..|files| - 1], files[|files| - 1];
      FilesArrive(rules, g, front, before);
      assert files == front + [last];
      FileWritesAppend(front, [last]);
      assert FileWrites([last]) == [FileWrite(last)];
      StoredSnoc(FileWrites(front), FileWrite(last));
      ReceiveLast(rules, g, Stored(FileWrites(front)), FileWrite(last));
      AppendAssoc(before, front, [last]);
      TakenLast(rules, before + front, last);
      ReceiveFile(rules, g.(files := Taken(rules, before + front)), last);
    }
  }

  lemma ReceiveFile(rules: Rules, g: Guest, f: BootFile)
    requires g.phase.Receiving? && rules.fits(FileWrite(f))
    ensures Receive(rules, g, FileWrite(f), true) == g.(files := if Admits(rules, g.files, f) then g.files + [f] else g.files)
  {
  }

  lemma ReceiveLast(rules: Rules, g: Guest, front: seq<Delivery>, m: Message)
    ensures ReceiveAll(rules, g, front + [Delivery(m, true)]) == Receive(rules, ReceiveAll(rules, g, front), m, true)
  {
    assert (front + [Delivery(m, true)])[..|front|] == front;
  }

  lemma TakenLast(rules: Rules, files: seq<BootFile>, last: BootFile)
    ensures Taken(rules, files + [last]) ==
            if Admits(rules, Taken(rules, files), last) then Taken(rules, files) + [last] else Taken(rules, files)
  {
    assert (files + [last])[..|files|] == files;
  }

  lemma {:induction false} TakenAgain(rules: Rules, files: seq<BootFile>)
    ensures Taken(rules, Taken(rules, files)) == Taken(rules, files)
    decreases |files|
  {
    if files != [] {
      var front, last := files[..|files| - 1], files[|files| - 1];
      TakenAgain(rules, front);
      var taken := Taken(rules, front);
      if Admits(rules, taken, last) {
        assert (taken + [last])[..|taken|] == taken;
      }
    }
  }

  ghost predicate AllDeliverable(rules: Rules, msgs: seq<Message>) {
    forall i | 0 <= i < |msgs| :: Deliverable(rules, msgs[i])
  }

  lemma PartsAreDeliverable(rules: Rules, epoch: nat, env: seq<Entry>, files: seq<BootFile>)
    requires AllDeliverable(rules, ScriptOf(epoch, env, files))
    ensures forall i | 0 <= i < |env| :: Deliverable(rules, SetEnv(env[i]))
    ensures forall i | 0 <= i < |files| :: Deliverable(rules, FileWrite(files[i]))
    ensures rules.fits(BootConfigDone)
  {
    var script := ScriptOf(epoch, env, files);
    forall i | 0 <= i < |env| ensures Deliverable(rules, SetEnv(env[i])) {
      assert script[1 + i] == SetEnv(env[i]);
    }
    forall i | 0 <= i < |files| ensures Deliverable(rules, FileWrite(files[i])) {
      assert script[1 + |env| + i] == FileWrite(files[i]);
    }
    assert script[|script| - 1] == BootConfigDone;
  }

  lemma PartsArrive(rules: Rules, epoch: nat, env: seq<Entry>, files: seq<BootFile>)
    requires |env| <= MAX_BOOT_ENV_VARS && rules.fits(BootConfigDone)
    requires forall i | 0 <= i < |env| :: ValidEntry(rules, env[i]) && Deliverable(rules, SetEnv(env[i]))
    requires forall i | 0 <= i < |files| :: Deliverable(rules, FileWrite(files[i]))
    ensures ReceiveAll(rules, FRESH, Stored(ScriptOf(epoch, env, files))) == Guest(env, Taken(rules, files), Finished)
  {
    var g1, g2 := Guest([], [], Receiving), Guest(env, [], Receiving);
    var g3, g4 := Guest(env, Taken(rules, files), Receiving), Guest(env, Taken(rules, files), Finished);
    OneMessage(rules, FRESH, BootConfig(epoch));
    OneMessage(rules, g3, BootConfigDone);
    assert ReceiveAll(rules, g1, Stored(SetEnvs(env))) == g2 by {
      EnvArrives(rules, g1, env);
      assert [] + env == env;
    }
    assert ReceiveAll(rules, g2, Stored(FileWrites(files))) == g3 by {
      FilesArrive(rules, g2, files, []);
      assert [] + files == files;
    }
    FourParts(rules, [BootConfig(epoch)], SetEnvs(env), FileWrites(files), [BootConfigDone], FRESH, g1, g2, g3, g4);
  }

  lemma OneMessage(rules: Rules, g: Guest, m: Message)
    ensures ReceiveAll(rules, g, Stored([m])) == Receive(rules, g, m, true)
  {
    assert Stored([m])[..0] == [];
  }

  lemma TakenOnlyGrows(rules: Rules, files: seq<BootFile>, last: BootFile)
    ensures Taken(rules, files) <= Taken(rules, files + [last])
  {
    TakenLast(rules, files, last);
  }

  lemma {:induction false} TakenKeepsFront(rules: Rules, files: seq<BootFile>, more: seq<BootFile>)
    requires Taken(rules, files) == files
    ensures files <= Taken(rules, files + more)
    decreases |more|
  {
    if more == [] {
      assert files + more == files;
    } else {
      var front, last := more[..|more| - 1], more[|more| - 1];
      TakenKeepsFront(rules, files, front);
      assert more == front + [last];
      AppendAssoc(files, front, [last]);
      TakenOnlyGrows(rules, files + front, last);
    }
  }

  /**
   If every message can be delivered, the guest has the variables sent, and of the files sent those that fit;
   these include all that the host's own caps let through.
   */
  lemma HandshakeIsExact(rules: Rules, c: Config)
    requires AllDeliverable(rules, Script(rules, c))
    ensures ReceiveAll(rules, FRESH, Stored(Script(rules, c))) ==
            Guest(SentEnv(rules, c), Taken(rules, Taken(rules, c.files) + c.setup), Finished)
    ensures Taken(rules, c.files) <= Taken(rules, Taken(rules, c.files) + c.setup)
  {
    TakenAgain(rules, c.files);
    TakenKeepsFront(rules, Taken(rules, c.files), c.setup);
    PartsAreDeliverable(rules, c.epoch, SentEnv(rules, c), Taken(rules, c.files) + c.setup);
    SentAreValid(rules, c);
    PartsArrive(rules, c.epoch, SentEnv(rules, c), Taken(rules, c.files) + c.setup);
  }

  lemma FourParts(rules: Rules, a: seq<Message>, b: seq<Message>, c: seq<Message>, d: seq<Message>,
                  g0: Guest, g1: Guest, g2: Guest, g3: Guest, g4: Guest)
    requires ReceiveAll(rules, g0, Stored(a)) == g1 && ReceiveAll(rules, g1, Stored(b)) == g2
    requires ReceiveAll(rules, g2, Stored(c)) == g3 && ReceiveAll(rules, g3, Stored(d)) == g4
    ensures ReceiveAll(rules, g0, Stored(a + b + c + d)) == g4
  {
    StoredAppend(a, b);
    StoredAppend(a + b, c);
    StoredAppend(a + b + c, d);
    ReceiveAppend(rules, g0, Stored(a + b + c), Stored(d));
    ReceiveAppend(rules, g0, Stored(a + b), Stored(c));
    ReceiveAppend(rules, g0, Stored(a), Stored(b));
  }

  lemma SentAreValid(rules: Rules, c: Config)
    ensures forall i | 0 <= i < |SentEnv(rules, c)| :: ValidEntry(rules, SentEnv(rules, c)[i])
  {
    var a, b := Isolated(c.isolation, c.settings), c.cli;
    ValidAreValid(rules, a);
    ValidAreValid(rules, b);
    var all := Valid(rules, a) + Valid(rules, b);
    forall i | 0 <= i < |SentEnv(rules, c)| ensures ValidEntry(rules, SentEnv(rules, c)[i]) {
      assert SentEnv(rules, c)[i] == all[i];
      assert if i < |Valid(rules, a)| then all[i] == Valid(rules, a)[i] else all[i] == Valid(rules, b)[i - |Valid(rules, a)|];
    }
  }

  // ---------------------------------------------------------------------------
  // Exactly when everything arrives
  // ---------------------------------------------------------------------------

  predicate Useful(rules: Rules, m: Message) {
    (m.SetEnv? || m.FileWrite?) && Deliverable(rules, m)
  }

  function UsefulCount(rules: Rules, msgs: seq<Message>): (n: nat)
    ensures n <= |msgs|
  {
    if msgs == [] then 0
    else UsefulCount(rules, msgs[..|msgs| - 1]) + if Useful(rules, msgs[|msgs| - 1]) then 1 else 0
  }

  lemma {:induction false} OnlyUsefulMessagesCount(rules: Rules, msgs: seq<Message>)
    ensures var g := ReceiveAll(rules, FRESH, Stored(msgs)); |g.env| + |g.files| <= UsefulCount(rules, msgs)
    decreases |msgs|
  {
    if msgs != [] {
      var front := msgs[..|msgs| - 1];
      OnlyUsefulMessagesCount(rules, front);
      assert Stored(msgs)[..|front|] == Stored(front);
    }
  }

  lemma {:induction false} AllUseful(rules: Rules, msgs: seq<Message>)
    ensures UsefulCount(rules, msgs) == |msgs| ==> forall i | 0 <= i < |msgs| :: Useful(rules, msgs[i])
    decreases |msgs|
  {
    if msgs != [] {
      AllUseful(rules, msgs[..|msgs| - 1]);
      assert UsefulCount(rules, msgs) == |msgs| ==> UsefulCount(rules, msgs[..|msgs| - 1]) == |msgs| - 1;
      assert forall i | 0 <= i < |msgs| - 1 :: msgs[i] == msgs[..|msgs| - 1][i];
    }
  }

  lemma UsefulInside(rules: Rules, first: Message, inner: seq<Message>, last: Message)
    requires !Useful(rules, first) && !Useful(rules, last)
    ensures UsefulCount(rules, [first] + inner + [last]) == UsefulCount(rules, inner)
  {
    assert ([first] + inner + [last])[..1 + |inner|] == [first] + inner;
    UsefulAfterFirst(rules, first, inner);
  }

  lemma {:induction false} UsefulAfterFirst(rules: Rules, first: Message, inner: seq<Message>)
    requires !Useful(rules, first)
    ensures UsefulCount(rules, [first] + inner) == UsefulCount(rules, inner)
    decreases |inner|
  {
    if inner == [] {
      assert [first] + inner == [first] && [first][..0] == [];
    } else {
      var front := inner[..|inner| - 1];
      UsefulAfterFirst(rules, first, front);
      assert ([first] + inner)[..|inner|] == [first] + front;
    }
  }

  /**
   The guest ends up with exactly what was sent if and only if every frame can be read, no value breaks the log
   preview, and the setup files still fit the caps after the configured files.
   */
  lemma HandshakeIsExactIff(rules: Rules, c: Config)
    requires rules.fits(BootConfig(c.epoch)) && rules.fits(BootConfigDone)
    ensures ReceiveAll(rules, FRESH, Stored(Script(rules, c))) ==
            Guest(SentEnv(rules, c), Taken(rules, c.files) + c.setup, Finished)
      <==> AllDeliverable(rules, Script(rules, c)) && SetupFits(rules, Taken(rules, c.files), c.setup)
  {
    var env, files := SentEnv(rules, c), Taken(rules, c.files) + c.setup;
    TakenAgain(rules, c.files);
    SetupFitsIff(rules, Taken(rules, c.files), c.setup);
    if AllDeliverable(rules, Script(rules, c)) {
      HandshakeIsExact(rules, c);
    } else if ReceiveAll(rules, FRESH, Stored(Script(rules, c))) == Guest(env, files, Finished) {
      NothingMissing(rules, c.epoch, env, files);
    }
  }

  lemma NothingMissing(rules: Rules, epoch: nat, env: seq<Entry>, files: seq<BootFile>)
    requires rules.fits(BootConfig(epoch)) && rules.fits(BootConfigDone)
    requires var g := ReceiveAll(rules, FRESH, Stored(ScriptOf(epoch, env, files))); |g.env| == |env| && |g.files| == |files|
    ensures AllDeliverable(rules, ScriptOf(epoch, env, files))
  {
    var script, inner := ScriptOf(epoch, env, files), SetEnvs(env) + FileWrites(files);
    assert script == [BootConfig(epoch)] + inner + [BootConfigDone];
    OnlyUsefulMessagesCount(rules, script);
    UsefulInside(rules, BootConfig(epoch), inner, BootConfigDone);
    AllUseful(rules, inner);
    forall i | 0 <= i < |script| ensures Deliverable(rules, script[i]) {
      if 0 < i < |script| - 1 {
        assert script[i] == inner[i - 1] && Useful(rules, inner[i - 1]);
      }
    }
  }

  /** When the configured files use up the file cap, every setup file is refused. */
  lemma FullCapRefusesSetup(rules: Rules, c: Config)
    requires AllDeliverable(rules, Script(rules, c)) && |Taken(rules, c.files)| == MAX_BOOT_FILES
    ensures ReceiveAll(rules, FRESH, Stored(Script(rules, c))).files == Taken(rules, c.files)
  {
    var taken := Taken(rules, c.files);
    HandshakeIsExact(rules, c);
    TakenAgain(rules, c.files);
    assert (taken + c.setup)[..|taken|] == taken;
    FullStays(rules, taken + c.setup, |taken|);
  }

  /** A file of one octet, readable for its owner only, with a path of its own. */
  function NthFile(path: Text, i: nat): (f: BootFile)
    ensures |f.path| == |path| + i && f.data == [10] && f.mode == 384
  {
    BootFile(path + seq(i, j => 48), [10], 384)
  }

  function Numbered(path: Text, n: nat): (files: seq<BootFile>)
    ensures |files| == n
    ensures forall i | 0 <= i < n :: files[i].mode == 384
  {
    if n == 0 then [] else Numbered(path, n - 1) + [NthFile(path, n - 1)]
  }

  lemma OneMoreTaken(rules: Rules, files: seq<BootFile>, f: BootFile)
    requires Taken(rules, files) == files && Admits(rules, files, f)
    ensures Taken(rules, files + [f]) == files + [f] && Bytes(files + [f]) == Bytes(files) + |f.data|
  {
    TakenLast(rules, files, f);
    BytesSnoc(files, f);
  }

  lemma {:induction false} NumberedAreTaken(rules: Rules, path: Text, n: nat)
    requires n <= MAX_BOOT_FILES && forall p :: rules.path(p)
    ensures Taken(rules, Numbered(path, n)) == Numbered(path, n) && Bytes(Numbered(path, n)) == n
    decreases n
  {
    if n > 0 {
      var front, last := Numbered(path, n - 1), NthFile(path, n - 1);
      NumberedAreTaken(rules, path, n - 1);
      assert rules.path(last.path);
      OneMoreTaken(rules, front, last);
    }
  }

  const SETUP_SCRIPT: Text := Ascii("/tmp/.clawcage-template-setup.sh")

  /** Sixty-four configured files and a template's script: the script is sent and does not arrive. */
  lemma SetupFileIsRefused(path: Text, script: Text) returns (rules: Rules, c: Config)
    ensures c.setup == [BootFile(SETUP_SCRIPT, script, 493)] && FileWrite(c.setup[0]) in Script(rules, c)
    ensures c.files == Numbered(path, 64) && c.setup[0] !in c.files
    ensures ReceiveAll(rules, FRESH, Stored(Script(rules, c))) == Guest([], c.files, Finished)
  {
    rules := Rules(k => true, v => true, p => true, m => true);
    var setup := BootFile(SETUP_SCRIPT, script, 493);
    c := Config(0, true, [], [], Numbered(path, MAX_BOOT_FILES), [setup]);
    NumberedAreTaken(rules, path, MAX_BOOT_FILES);
    assert SentEnv(rules, c) == [];
    FilesOnlyAreDeliverable(rules, c);
    HandshakeIsExact(rules, c);
    FullCapRefusesSetup(rules, c);
    assert Script(rules, c)[|Script(rules, c)| - 2] == FileWrite(setup);
  }

  lemma FilesOnlyAreDeliverable(rules: Rules, c: Config)
    requires SentEnv(rules, c) == [] && forall m :: rules.fits(m)
    ensures AllDeliverable(rules, Script(rules, c))
  {
  }

  /** The setup files are within what the configured files leave of the caps. */
  predicate SetupFits(rules: Rules, files: seq<BootFile>, setup: seq<BootFile>) {
    && |files| + |setup| <= MAX_BOOT_FILES && Bytes(files) + Bytes(setup) <= MAX_BOOT_FILE_BYTES
    && forall i | 0 <= i < |setup| :: rules.path(setup[i].path)
  }

  lemma {:induction false} SetupFitsIff(rules: Rules, files: seq<BootFile>, setup: seq<BootFile>)
    requires Taken(rules, files) == files
    ensures Taken(rules, files + setup) == files + setup <==> SetupFits(rules, files, setup)
    decreases |setup|
  {
    if setup == [] {
      assert files + setup == files;
    } else {
      var front, last := setup[..|setup| - 1], setup[|setup| - 1];
      SetupFitsIff(rules, files, front);
      assert setup == front + [last];
      BytesAppend(files, front);
      AppendAssoc(files, front, [last]);
      OneMoreFits(rules, files, front, last);
      TakeOneMore(rules, files + front, last);
    }
  }

  lemma OneMoreFits(rules: Rules, files: seq<BootFile>, front: seq<BootFile>, last: BootFile)
    ensures SetupFits(rules, files, front + [last]) <==>
            && SetupFits(rules, files, front) && rules.path(last.path)
            && |files| + |front| < MAX_BOOT_FILES && Bytes(files) + Bytes(front) + |last.data| <= MAX_BOOT_FILE_BYTES
  {
    BytesSnoc(front, last);
    var setup := front + [last];
    assert setup[|front|] == last && forall i | 0 <= i < |front| :: setup[i] == front[i];
  }

  lemma TakeOneMore(rules: Rules, files: seq<BootFile>, last: BootFile)
    ensures Taken(rules, files + [last]) == files + [last] <==> Taken(rules, files) == files && Admits(rules, files, last)
  {
    TakenLast(rules, files, last);
    TakenIsShorter(rules, files);
    var taken := Taken(rules, files);
    if taken + [last] == files + [last] {
      assert taken == (taken + [last])[..|taken|] == files;
    }
  }

  lemma {:induction false} BytesAppend(a: seq<BootFile>, b: seq<BootFile>)
    ensures Bytes(a + b) == Bytes(a) + Bytes(b)
    decreases |b|
  {
    if b == [] {
      assert a + b == a;
    } else {
      BytesAppend(a, b[..|b| - 1]);
      assert (a + b)[..|a + b| - 1] == a + b[..|b| - 1];
    }
  }

  lemma {:induction false} TakenIsShorter(rules: Rules, files: seq<BootFile>)
    ensures |Taken(rules, files)| <= |files|
    decreases |files|
  {
    if files != [] {
      TakenIsShorter(rules, files[..|files| - 1]);
    }
  }

  // ---------------------------------------------------------------------------
  // Exactly when the agent dies
  // ---------------------------------------------------------------------------

  predicate Stopped(g: Guest) {
    g.phase.Finished? || g.phase.Crashed?
  }

  lemma {:induction false} StoppedStays(rules: Rules, g: Guest, ds: seq<Delivery>)
    requires Stopped(g)
    ensures ReceiveAll(rules, g, ds) == g
    decreases |ds|
  {
    if ds != [] {
      StoppedStays(rules, g, ds[..|ds| - 1]);
    }
  }

  lemma {:induction false} OnlyVariablesCrash(rules: Rules, g: Guest, ds: seq<Delivery>)
    requires !g.phase.Crashed? && forall i | 0 <= i < |ds| :: !ds[i].message.SetEnv?
    ensures !ReceiveAll(rules, g, ds).phase.Crashed?
    decreases |ds|
  {
    if ds != [] {
      OnlyVariablesCrash(rules, g, ds[..|ds| - 1]);
    }
  }

  /** The position of the first variable that is not delivered. */
  function FirstUndelivered(rules: Rules, env: seq<Entry>): (k: nat)
    ensures k <= |env| && forall i | 0 <= i < k :: Deliverable(rules, SetEnv(env[i]))
    ensures k < |env| ==> !Deliverable(rules, SetEnv(env[k]))
  {
    if env == [] then 0
    else
      var front := FirstUndelivered(rules, env[..|env| - 1]);
      if front < |env| - 1 || !Deliverable(rules, SetEnv(env[|env| - 1])) then front else |env|
  }

  /** A variable whose preview ends inside a character reaches the agent. */
  ghost predicate KillsAgent(rules: Rules, env: seq<Entry>) {
    exists k | 0 <= k < |env| :: SplitByPreview(env[k].value) && forall j | 0 <= j <= k :: rules.fits(SetEnv(env[j]))
  }

  lemma FirstUndeliveredDecides(rules: Rules, env: seq<Entry>)
    ensures var k := FirstUndelivered(rules, env); KillsAgent(rules, env) <==> k < |env| && rules.fits(SetEnv(env[k]))
  {
    var k := FirstUndelivered(rules, env);
    if k < |env| && rules.fits(SetEnv(env[k])) {
      forall j | 0 <= j <= k ensures rules.fits(SetEnv(env[j])) {
        assert j < k ==> Deliverable(rules, SetEnv(env[j]));
      }
      assert SplitByPreview(env[k].value);
    }
    if KillsAgent(rules, env) {
      var i :| 0 <= i < |env| && SplitByPreview(env[i].value) && forall j | 0 <= j <= i :: rules.fits(SetEnv(env[j]));
      assert !Deliverable(rules, SetEnv(env[i]));
    }
  }

  lemma ThreeParts(rules: Rules, g: Guest, a: seq<Message>, b: seq<Message>, c: seq<Message>)
    ensures ReceiveAll(rules, g, Stored(a + b + c)) ==
            ReceiveAll(rules, ReceiveAll(rules, ReceiveAll(rules, g, Stored(a)), Stored(b)), Stored(c))
  {
    StoredAppend(a, b);
    StoredAppend(a + b, c);
    ReceiveAppend(rules, g, Stored(a + b), Stored(c));
    ReceiveAppend(rules, g, Stored(a), Stored(b));
  }

  lemma SetEnvsAround(env: seq<Entry>, k: nat)
    requires k < |env|
    ensures SetEnvs(env) == SetEnvs(env[..k]) + [SetEnv(env[k])] + SetEnvs(env[k + 1..])
  {
  }

  lemma VariablesCrashIff(rules: Rules, g: Guest, env: seq<Entry>)
    requires g.phase.Receiving? && |g.env| + |env| <= MAX_BOOT_ENV_VARS
    requires forall i | 0 <= i < |env| :: ValidEntry(rules, env[i])
    ensures ReceiveAll(rules, g, Stored(SetEnvs(env))).phase.Crashed? <==> KillsAgent(rules, env)
  {
    FirstUndeliveredDecides(rules, env);
    var k := FirstUndelivered(rules, env);
    EnvArrives(rules, g, env[..k]);
    if k < |env| {
      SetEnvsAround(env, k);
      ThreeParts(rules, g, SetEnvs(env[..k]), [SetEnv(env[k])], SetEnvs(env[k + 1..]));
      UndeliveredStops(rules, g.(env := g.env + env[..k]), env[k], SetEnvs(env[k + 1..]));
    } else {
      assert env[..k] == env;
    }
  }

  lemma UndeliveredStops(rules: Rules, g: Guest, e: Entry, after: seq<Message>)
    requires g.phase.Receiving? && |g.env| < MAX_BOOT_ENV_VARS && ValidEntry(rules, e) && !Deliverable(rules, SetEnv(e))
    ensures ReceiveAll(rules, ReceiveAll(rules, g, Stored([SetEnv(e)])), Stored(after)).phase.Crashed? <==> rules.fits(SetEnv(e))
  {
    OneMessage(rules, g, SetEnv(e));
    StoppedStays(rules, Receive(rules, g, SetEnv(e), true), Stored(after));
  }

  lemma AgentDiesInPartsIff(rules: Rules, epoch: nat, env: seq<Entry>, files: seq<BootFile>)
    requires |env| <= MAX_BOOT_ENV_VARS && forall i | 0 <= i < |env| :: ValidEntry(rules, env[i])
    ensures ReceiveAll(rules, FRESH, Stored(ScriptOf(epoch, env, files))).phase.Crashed? <==> KillsAgent(rules, env)
  {
    var rest := FileWrites(files) + [BootConfigDone];
    assert ScriptOf(epoch, env, files) == [BootConfig(epoch)] + SetEnvs(env) + rest;
    ThreeParts(rules, FRESH, [BootConfig(epoch)], SetEnvs(env), rest);
    OneMessage(rules, FRESH, BootConfig(epoch));
    var g1 := Guest([], [], Receiving);
    VariablesCrashIff(rules, g1, env);
    var g2 := ReceiveAll(rules, g1, Stored(SetEnvs(env)));
    if g2.phase.Crashed? {
      StoppedStays(rules, g2, Stored(rest));
    } else {
      OnlyVariablesCrash(rules, g2, Stored(rest));
    }
  }

  /** The agent panics during the handshake exactly when the preview of a variable that reaches it is cut badly. */
  lemma AgentDiesIff(rules: Rules, c: Config)
    ensures ReceiveAll(rules, FRESH, Stored(Script(rules, c))).phase.Crashed? <==> KillsAgent(rules, SentEnv(rules, c))
  {
    SentAreValid(rules, c);
    AgentDiesInPartsIff(rules, c.epoch, SentEnv(rules, c), Taken(rules, c.files) + c.setup);
  }

  /** Thirty-nine octets of text and an e with an acute accent: valid, and cut in the middle by the preview. */
  lemma AccentAtTheCut(front: Text)
    requires |front| == PREVIEW - 1 && Utf8Cap.IsUtf8(front)
    ensures Utf8Cap.IsUtf8(front + [195, 169]) && SplitByPreview(front + [195, 169])
  {
    var accent: Text := [195, 169];
    assert Utf8Cap.CharLen(accent) == 2 && accent[2..] == [];
    Utf8Cap.TextsJoin(front, accent);
    assert (front + accent)[PREVIEW] == 169;
  }

  // ---------------------------------------------------------------------------
  // The two sides over FIFO channels
  // ---------------------------------------------------------------------------

  datatype Signal = Ready | BootReady

  datatype Host = AwaitReady | Sending(left: seq<Message>) | AwaitBootReady | Done(ready: bool)

  /** `taken` is the history of what the guest has read. */
  datatype System = System(host: Host, toGuest: seq<Message>, toHost: seq<Signal>,
                           started: bool, guest: Guest, bootReady: bool, taken: seq<Delivery>)

  const INITIAL: System := System(AwaitReady, [], [], false, FRESH, false, [])

  datatype Step = GuestReady | HostSeesReady | HostSends | GuestReceives(stored: bool) | GuestBootReady | HostReads | HostSeesEnd

  predicate Enabled(s: System, step: Step) {
    match step
    case GuestReady => !s.started
    case HostSeesReady => s.host.AwaitReady? && s.toHost != []
    case HostSends => s.host.Sending?
    case GuestReceives(_) => s.started && !Stopped(s.guest) && s.toGuest != []
    case GuestBootReady => s.guest.phase.Finished? && !s.bootReady
    case HostReads => s.host.AwaitBootReady? && s.toHost != []
    case HostSeesEnd => s.host.AwaitBootReady? && s.toHost == [] && s.guest.phase.Crashed?
  }

  function Apply(rules: Rules, script: seq<Message>, s: System, step: Step): System
    requires Enabled(s, step)
  {
    match step
    case GuestReady => s.(started := true, toHost := s.toHost + [Ready])
    case HostSeesReady => s.(host := Sending(script), toHost := s.toHost[1..])
    case HostSends =>
      if s.host.left == [] then s.(host := AwaitBootReady)
      else s.(host := Sending(s.host.left[1..]), toGuest := s.toGuest + [s.host.left[0]])
    case GuestReceives(stored) =>
      var d := Delivery(s.toGuest[0], stored);
      s.(toGuest := s.toGuest[1..], taken := s.taken + [d], guest := Receive(rules, s.guest, d.message, stored))
    case GuestBootReady => s.(bootReady := true, toHost := s.toHost + [BootReady])
    case HostReads => s.(toHost := s.toHost[1..], host := if s.toHost[0].BootReady? then Done(true) else AwaitBootReady)
    case HostSeesEnd => s.(host := Done(false))
  }

  ghost predicate ValidRun(rules: Rules, script: seq<Message>, run: seq<Step>)
    decreases |run|, 0
  {
    run == [] || (ValidRun(rules, script, run[..|run| - 1]) && Enabled(After(rules, script, run[..|run| - 1]), run[|run| - 1]))
  }

  ghost function After(rules: Rules, script: seq<Message>, run: seq<Step>): System
    requires ValidRun(rules, script, run)
    decreases |run|, 1
  {
    if run == [] then INITIAL
    else Apply(rules, script, After(rules, script, run[..|run| - 1]), run[|run| - 1])
  }

  /** Both sides are through: the host has stopped waiting, and the guest has announced itself or died. */
  predicate Over(s: System) {
    s.host.Done? && (s.bootReady || s.guest.phase.Crashed?)
  }

  function Unsent(script: seq<Message>, host: Host): seq<Message> {
    match host
    case AwaitReady => script
    case Sending(left) => left
    case _ => []
  }

  /** The messages of deliveries. */
  function Read(ds: seq<Delivery>): (r: seq<Message>)
    ensures |r| == |ds|
  {
    seq(|ds|, i requires 0 <= i < |ds| => ds[i].message)
  }

  ghost predicate Inv(rules: Rules, script: seq<Message>, s: System) {
    && Read(s.taken) + s.toGuest + Unsent(script, s.host) == script
    && s.guest == ReceiveAll(rules, FRESH, s.taken)
    && (s.bootReady ==> s.guest.phase.Finished?)
    && match s.host
       case AwaitReady => s.taken == [] && !s.bootReady && s.toHost == if s.started then [Ready] else []
       case Done(ready) => s.started && s.toHost == [] && (if ready then s.bootReady else s.guest.phase.Crashed?)
       case _ => s.started && s.toHost == if s.bootReady then [BootReady] else []
  }

  lemma ReceiveOne(rules: Rules, taken: seq<Delivery>, d: Delivery)
    ensures ReceiveAll(rules, FRESH, taken + [d]) == Receive(rules, ReceiveAll(rules, FRESH, taken), d.message, d.stored)
    ensures Read(taken + [d]) == Read(taken) + [d.message]
  {
    assert (taken + [d])[..|taken|] == taken;
  }

  lemma FirstMoves<T>(front: seq<T>, queue: seq<T>, rest: seq<T>)
    requires queue != []
    ensures (front + [queue[0]]) + queue[1..] + rest == front + queue + rest
  {
  }

  lemma ReceivingKeepsInv(rules: Rules, script: seq<Message>, s: System, stored: bool)
    requires Inv(rules, script, s) && Enabled(s, GuestReceives(stored))
    ensures Inv(rules, script, Apply(rules, script, s, GuestReceives(stored)))
  {
    ReceiveOne(rules, s.taken, Delivery(s.toGuest[0], stored));
    FirstMoves(Read(s.taken), s.toGuest, Unsent(script, s.host));
  }

  lemma SendingKeepsInv(rules: Rules, script: seq<Message>, s: System)
    requires Inv(rules, script, s) && Enabled(s, HostSends)
    ensures Inv(rules, script, Apply(rules, script, s, HostSends))
  {
    if s.host.left != [] {
      FirstMoves(Read(s.taken) + s.toGuest, s.host.left, []);
      AppendAssoc(Read(s.taken), s.toGuest, [s.host.left[0]]);
    }
  }

  lemma StepKeepsInv(rules: Rules, script: seq<Message>, s: System, step: Step)
    requires Inv(rules, script, s) && Enabled(s, step)
    ensures Inv(rules, script, Apply(rules, script, s, step))
  {
    match step
    case GuestReceives(stored) => ReceivingKeepsInv(rules, script, s, stored);
    case HostSends => SendingKeepsInv(rules, script, s);
    case _ =>
  }

  lemma {:induction false} RunKeepsInv(rules: Rules, script: seq<Message>, run: seq<Step>)
    requires ValidRun(rules, script, run)
    ensures Inv(rules, script, After(rules, script, run))
    decreases |run|
  {
    if run == [] {
      assert Read([]) + [] + script == script;
    } else {
      RunKeepsInv(rules, script, run[..|run| - 1]);
      StepKeepsInv(rules, script, After(rules, script, run[..|run| - 1]), run[|run| - 1]);
    }
  }

  /** A guest that has read a whole script does not wait for more. */
  lemma WholeScriptStops(rules: Rules, script: seq<Message>, taken: seq<Delivery>)
    requires Read(taken) == script && |script| >= 2 && script[|script| - 1] == BootConfigDone
    ensures Stopped(ReceiveAll(rules, FRESH, taken))
  {
    var n := |taken| - 1;
    assert Read(taken)[n] == taken[n].message;
    NotWaiting(rules, taken[..n]);
  }

  lemma {:induction false} NotWaiting(rules: Rules, ds: seq<Delivery>)
    requires ds != []
    ensures !ReceiveAll(rules, FRESH, ds).phase.AwaitConfig?
    decreases |ds|
  {
    if |ds| > 1 {
      NotWaiting(rules, ds[..|ds| - 1]);
    } else {
      assert ds[..0] == [];
    }
  }

  /** The two sides never wait for each other: a run that is not over can go on. */
  lemma HandshakeNeverStalls(rules: Rules, c: Config, run: seq<Step>) returns (next: Step)
    requires ValidRun(rules, Script(rules, c), run) && !Over(After(rules, Script(rules, c), run))
    ensures Enabled(After(rules, Script(rules, c), run), next)
  {
    var script, s := Script(rules, c), After(rules, Script(rules, c), run);
    RunKeepsInv(rules, script, run);
    match s.host
    case AwaitReady => next := if s.started then HostSeesReady else GuestReady;
    case Sending(_) => next := HostSends;
    case AwaitBootReady =>
      if s.toHost != [] {
        next := HostReads;
      } else if s.guest.phase.Finished? {
        next := GuestBootReady;
      } else if s.guest.phase.Crashed? {
        next := HostSeesEnd;
      } else {
        next := GuestReceives(true);
        if s.toGuest == [] {
          assert Read(s.taken) + [] + [] == Read(s.taken);
          WholeScriptStops(rules, script, s.taken);
        }
      }
    case Done(_) => next := GuestBootReady;
  }

  /** What is left to do. */
  function Work(script: seq<Message>, s: System): nat {
    2 * |Unsent(script, s.host)| + |s.toGuest| + |s.toHost|
    + (if s.started then 0 else 2) + (if s.bootReady then 0 else 2)
    + (match s.host case AwaitReady => 3 case Sending(_) => 2 case AwaitBootReady => 1 case Done(_) => 0)
  }

  /** Every run ends: each step uses up work. */
  lemma {:induction false} HandshakeEnds(rules: Rules, script: seq<Message>, run: seq<Step>)
    requires ValidRun(rules, script, run)
    ensures |run| + Work(script, After(rules, script, run)) <= 2 * |script| + 7
    decreases |run|
  {
    if run != [] {
      HandshakeEnds(rules, script, run[..|run| - 1]);
    }
  }

  lemma ReadFront(ds: seq<Delivery>)
    requires ds != []
    ensures var n := |ds| - 1; |Read(ds)| == n + 1 && Read(ds)[..n] == Read(ds[..n]) && Read(ds)[n] == ds[n].message
  {
  }

  lemma FilesDoNotMatter(rules: Rules, g: Guest, h: Guest, m: Message, stored: bool, storedToo: bool)
    requires g.env == h.env && g.phase == h.phase
    ensures var g', h' := Receive(rules, g, m, stored), Receive(rules, h, m, storedToo); g'.env == h'.env && g'.phase == h'.phase
  {
  }

  /** Writing files, or failing to, makes no difference to variables and phase. */
  lemma {:induction false} OnlyFilesDepend(rules: Rules, ds: seq<Delivery>, es: seq<Delivery>)
    requires Read(ds) == Read(es)
    ensures ReceiveAll(rules, FRESH, ds).env == ReceiveAll(rules, FRESH, es).env
    ensures ReceiveAll(rules, FRESH, ds).phase == ReceiveAll(rules, FRESH, es).phase
    decreases |ds|
  {
    assert |ds| == |Read(ds)| == |Read(es)| == |es|;
    if ds != [] {
      var n := |ds| - 1;
      ReadFront(ds);
      ReadFront(es);
      OnlyFilesDepend(rules, ds[..n], es[..n]);
      FilesDoNotMatter(rules, ReceiveAll(rules, FRESH, ds[..n]), ReceiveAll(rules, FRESH, es[..n]), ds[n].message, ds[n].stored, es[n].stored);
    }
  }

  /** A guest that has stopped would be the same after the whole script, if it stored what it read so far. */
  lemma StoppedEarly(rules: Rules, script: seq<Message>, s: System)
    requires Inv(rules, script, s) && Stopped(s.guest)
    ensures var whole, guest := ReceiveAll(rules, FRESH, Stored(script)), ReceiveAll(rules, FRESH, Stored(Read(s.taken)));
            whole == guest && guest.env == s.guest.env && guest.phase == s.guest.phase
  {
    var rest := s.toGuest + Unsent(script, s.host);
    AppendAssoc(Read(s.taken), s.toGuest, Unsent(script, s.host));
    assert script == Read(s.taken) + rest;
    assert Read(Stored(Read(s.taken))) == Read(s.taken);
    OnlyFilesDepend(rules, s.taken, Stored(Read(s.taken)));
    StoredAppend(Read(s.taken), rest);
    ReceiveAppend(rules, FRESH, Stored(Read(s.taken)), Stored(rest));
    StoppedStays(rules, ReceiveAll(rules, FRESH, Stored(Read(s.taken))), Stored(rest));
  }

  /**
   When the exchange is over, variables and phase of the guest are what the script makes of them, in whatever
   order the sides ran and whatever files could be stored; so are the files if every one could be stored. The
   host has seen BootReady exactly if no variable killed the agent.
   */
  lemma HandshakeOutcome(rules: Rules, c: Config, run: seq<Step>)
    requires ValidRun(rules, Script(rules, c), run) && Over(After(rules, Script(rules, c), run))
    ensures var s, whole := After(rules, Script(rules, c), run), ReceiveAll(rules, FRESH, Stored(Script(rules, c)));
            && s.guest.env == whole.env && s.guest.phase == whole.phase
            && ((forall i | 0 <= i < |run| :: run[i].GuestReceives? ==> run[i].stored) ==> s.guest == whole)
            && (s.host == Done(true) <==> !KillsAgent(rules, SentEnv(rules, c)))
  {
    var script, s := Script(rules, c), After(rules, Script(rules, c), run);
    RunKeepsInv(rules, script, run);
    StoppedEarly(rules, script, s);
    if forall i | 0 <= i < |run| :: run[i].GuestReceives? ==> run[i].stored {
      TakenAreStored(rules, script, run);
      assert Stored(Read(s.taken)) == s.taken;
    }
    AgentDiesIff(rules, c);
  }

  lemma {:induction false} TakenAreStored(rules: Rules, script: seq<Message>, run: seq<Step>)
    requires ValidRun(rules, script, run)
    requires forall i | 0 <= i < |run| :: run[i].GuestReceives? ==> run[i].stored
    ensures forall i | 0 <= i < |After(rules, script, run).taken| :: After(rules, script, run).taken[i].stored
    decreases |run|
  {
    if run != [] {
      TakenAreStored(rules, script, run[..|run| - 1]);
    }
  }
}
