/**
 What the exec machine does with what happens to it: its log follows from the steps of the run, neither loop ever
 blocks the other, and an exec whose shell prints a marker is answered with the exit in it.
 */
module ExecRuns {
  import opened Basics
  import Search
  import opened Streaming
  import opened Sentinel
  import opened ExecBridge

  // ---------------------------------------------------------------------------
  // The log follows from the run
  // ---------------------------------------------------------------------------

  /** The bytes read from the shell, in order. */
  function ReadIn(run: seq<Step>): seq<byte> {
    if run == [] then [] else (if run[0].Read? then run[0].chunk else []) + ReadIn(run[1..])
  }

  function BegunIn(run: seq<Step>): seq<nat> {
    if run == [] then [] else (if run[0].Begin? then [run[0].id] else []) + BegunIn(run[1..])
  }

  /** The ids of the execs whose text could not be typed; `current` is the exec that is being typed, if any. */
  function FailedIn(current: nat, run: seq<Step>): seq<nat>
    decreases |run|
  {
    if run == [] then []
    else if run[0].Begin? then FailedIn(run[0].id, run[1..])
    else if run[0].InjectFail? then [current] + FailedIn(current, run[1..])
    else FailedIn(current, run[1..])
  }

  function BeganIds(events: seq<Event>): seq<nat> {
    if events == [] then []
    else
      var front, last := BeganIds(events[..|events| - 1]), events[|events| - 1];
      if last.Began? then front + [last.id] else front
  }

  function FailedIds(events: seq<Event>): seq<nat> {
    if events == [] then []
    else
      var front, last := FailedIds(events[..|events| - 1]), events[|events| - 1];
      if last.Failed? then front + [last.id] else front
  }

  lemma IdsSnoc(events: seq<Event>, e: Event)
    ensures BeganIds(events + [e]) == if e.Began? then BeganIds(events) + [e.id] else BeganIds(events)
    ensures FailedIds(events + [e]) == if e.Failed? then FailedIds(events) + [e.id] else FailedIds(events)
  {
    assert (events + [e])[..|events|] == events;
  }

  lemma SendKeepsIds(s: State, bytes: seq<byte>)
    ensures BeganIds(Send(s, bytes).events) == BeganIds(s.events) && FailedIds(Send(s, bytes).events) == FailedIds(s.events)
  {
    IdsSnoc(s.events, Sent(bytes));
  }

  lemma LoadKeepsIds(s: State)
    requires s.bridge.Got?
    ensures BeganIds(ApplyLoad(s).events) == BeganIds(s.events) && FailedIds(ApplyLoad(s).events) == FailedIds(s.events)
  {
    var buffer := s.tail + s.bridge.chunk;
    var scan := ScanWhole(s.marker, buffer);
    SendKeepsIds(s, s.bridge.chunk);
    SendKeepsIds(s, scan.forward);
    if scan.result.Some? {
      IdsSnoc(Send(s, scan.forward).events, Cut(CutText(buffer, scan), scan.result.value));
    }
  }

  /** What one step adds to the log. */
  lemma StepLogs(s: State, step: Step)
    requires Enabled(s, step)
    ensures var next := Apply(s, step);
            && next.shellOutput == s.shellOutput + (if step.Read? then step.chunk else [])
            && BeganIds(next.events) == BeganIds(s.events) + (if step.Begin? then [step.id] else [])
            && FailedIds(next.events) == FailedIds(s.events) + (if step.InjectFail? then [s.control.id] else [])
  {
    assert s.shellOutput + [] == s.shellOutput && BeganIds(s.events) + [] == BeganIds(s.events) && FailedIds(s.events) + [] == FailedIds(s.events);
    match step
    case Begin(id) => IdsSnoc(s.events, Began(id));
    case InjectFail => IdsSnoc(s.events, Failed(s.control.id));
    case Receive => IdsSnoc(s.events, Done(s.results[0]));
    case Load => LoadKeepsIds(s);
    case Flush => SendKeepsIds(s, s.tail);
    case InjectOk | Read(_) | Clear | Report =>
  }

  /** The id that the control loop works on, if any, is the last one begun. */
  ghost predicate WorksOn(s: State, current: nat) {
    !s.control.Idle? ==> s.control.id == current
  }

  lemma {:induction false} RunLogs(s: State, run: seq<Step>, current: nat)
    requires ValidRun(s, run) && WorksOn(s, current)
    ensures var after := After(s, run);
            && after.shellOutput == s.shellOutput + ReadIn(run)
            && BeganIds(after.events) == BeganIds(s.events) + BegunIn(run)
            && FailedIds(after.events) == FailedIds(s.events) + FailedIn(current, run)
    decreases |run|
  {
    if run == [] {
      assert s.shellOutput + [] == s.shellOutput && BeganIds(s.events) + [] == BeganIds(s.events) && FailedIds(s.events) + [] == FailedIds(s.events);
    } else {
      var step, rest := run[0], run[1..];
      var next := if step.Begin? then step.id else current;
      StepLogs(s, step);
      RunLogs(Apply(s, step), rest, next);
      AppendAssoc(s.shellOutput, if step.Read? then step.chunk else [], ReadIn(rest));
      AppendAssoc(BeganIds(s.events), if step.Begin? then [step.id] else [], BegunIn(rest));
      AppendAssoc(FailedIds(s.events), if step.InjectFail? then [current] else [], FailedIn(next, rest));
      assert [] + FailedIn(next, rest) == FailedIn(next, rest);
    }
  }

  lemma LogFromNothing(s: State, run: seq<Step>, current: nat)
    requires ValidRun(s, run) && WorksOn(s, current) && s.shellOutput == [] && s.events == []
    ensures var after := After(s, run);
            after.shellOutput == ReadIn(run) && BeganIds(after.events) == BegunIn(run) && FailedIds(after.events) == FailedIn(current, run)
  {
    RunLogs(s, run, current);
    assert [] + ReadIn(run) == ReadIn(run) && [] + BegunIn(run) == BegunIn(run) && [] + FailedIn(current, run) == FailedIn(current, run);
  }

  /**
   Over every run the log is that of its steps: the shell's output is what the bridge read, every exec begun is in
   it, and a failed injection is logged for the exec that was being typed.
   */
  lemma LogFollowsRun(run: seq<Step>)
    requires ValidRun(INITIAL, run)
    ensures var s := After(INITIAL, run);
            s.shellOutput == ReadIn(run) && BeganIds(s.events) == BegunIn(run) && FailedIds(s.events) == FailedIn(0, run)
  {
    LogFromNothing(INITIAL, run, 0);
  }

  /** A failed injection is answered at once, with the exec's own id and exit code 126. */
  lemma FailureIsAnswered(s: State)
    requires s.control.Injecting?
    ensures Enabled(s, InjectFail)
    ensures var next := Apply(s, InjectFail);
            next.execDone == s.execDone + [Exit(s.control.id, 126)] && next.control.Idle? && !next.active
  {
  }

  /**
   Neither loop ever waits for the other except for a result: the bridge can read or go on with what it read, and
   the control loop can begin an exec, type it or fail to, and take a result as soon as there is one.
   */
  lemma LoopsGoOn(run: seq<Step>, id: nat, chunk: seq<byte>) returns (bridges: Step)
    requires ValidRun(INITIAL, run) && chunk != []
    ensures Enabled(After(INITIAL, run), bridges)
    ensures bridges == Read(chunk) || bridges == Load || bridges == Clear || bridges == Flush || bridges == Report
    ensures var s := After(INITIAL, run);
            match s.control
            case Idle => Enabled(s, Begin(id))
            case Injecting(_) => Enabled(s, InjectOk) && Enabled(s, InjectFail)
            case Waiting(_) => s.results != [] ==> Enabled(s, Receive)
  {
    match After(INITIAL, run).bridge
    case Polling => bridges := Read(chunk);
    case Got(_) => bridges := Load;
    case Found(_) => bridges := Clear;
    case Cleared(_) => bridges := Flush;
    case Reporting(_) => bridges := Report;
  }

  // ---------------------------------------------------------------------------
  // An exec that is answered
  // ---------------------------------------------------------------------------

  /** Each chunk is read and handled. */
  function Handling(chunks: seq<seq<byte>>): seq<Step> {
    if chunks == [] then [] else [Read(chunks[0]), Load] + Handling(chunks[1..])
  }

  /** An exec that is typed, whose marker is complete after the first `k` reads; then the other reads. */
  function AnsweredRun(id: nat, chunks: seq<seq<byte>>, k: nat): seq<Step>
    requires k <= |chunks|
  {
    [Begin(id), InjectOk] + (Handling(chunks[..k]) + ([Clear, Flush, Report, Receive] + Handling(chunks[k..])))
  }

  ghost predicate NoneEmpty(chunks: seq<seq<byte>>) {
    forall i | 0 <= i < |chunks| :: chunks[i] != []
  }

  /** Between execs: the control loop is idle, the bridge polls, and nothing is held or owed. */
  ghost predicate Quiet(s: State) {
    s.control.Idle? && s.bridge.Polling? && !s.active && s.tail == [] && s.results == []
  }

  lemma TwoSteps(s: State, a: Step, b: Step)
    requires Enabled(s, a) && Enabled(Apply(s, a), b)
    ensures ValidRun(s, [a, b]) && After(s, [a, b]) == Apply(Apply(s, a), b)
  {
    OneStep(Apply(s, a), b, []);
    OneStep(s, a, [b]);
    assert [a] + [b] == [a, b];
  }

  lemma ConcatOne(frames: seq<seq<byte>>, bytes: seq<byte>)
    ensures Concat(if bytes == [] then frames else frames + [bytes]) == Concat(frames) + bytes
  {
    ConcatSnoc(frames, bytes);
  }

  /** What the state of a scan over `seen` is to the bridge that has passed on `sent` before. */
  ghost predicate HasScanned(s: State, sent: seq<byte>, seen: seq<byte>) {
    var scan := ScanWhole(s.marker, seen);
    Concat(s.frames) == sent + scan.forward && s.tail == scan.tail
  }

  /** Nothing but the scan has moved on. */
  ghost predicate SameButScan(s: State, t: State) {
    t.marker == s.marker && t.active == s.active && t.control == s.control && t.results == s.results && t.execDone == s.execDone
  }

  lemma OneRead(s: State, sent: seq<byte>, seen: seq<byte>, chunk: seq<byte>)
    requires s.active && s.bridge.Polling? && chunk != []
    requires HasScanned(s, sent, seen) && ScanWhole(s.marker, seen).result.None?
    ensures ValidRun(s, [Read(chunk), Load])
    ensures var t, result := After(s, [Read(chunk), Load]), ScanWhole(s.marker, seen + chunk).result;
            && HasScanned(t, sent, seen + chunk) && SameButScan(s, t)
            && t.bridge == if result.Some? then Found(result.value) else Polling
  {
    FeedExtendsScan(s.marker, seen, chunk);
    TwoSteps(s, Read(chunk), Load);
    var step := ScanWhole(s.marker, s.tail + chunk);
    ConcatOne(s.frames, step.forward);
    AppendAssoc(sent, ScanWhole(s.marker, seen).forward, step.forward);
  }

  lemma HandlingFirst(chunks: seq<seq<byte>>)
    requires chunks != []
    ensures Handling(chunks) == [Read(chunks[0]), Load] + Handling(chunks[1..])
  {
  }

  /** No marker is complete before the last of the chunks. */
  ghost predicate NoneBeforeLast(m: Marker<Exit>, seen: seq<byte>, chunks: seq<seq<byte>>) {
    forall j | 0 <= j < |chunks| :: ScanWhole(m, seen + Concat(chunks[..j])).result.None?
  }

  lemma NoneBeforeLastOfRest(m: Marker<Exit>, seen: seq<byte>, chunks: seq<seq<byte>>)
    requires NoneBeforeLast(m, seen, chunks) && chunks != []
    ensures ScanWhole(m, seen).result.None?
    ensures NoneBeforeLast(m, seen + chunks[0], chunks[1..])
  {
    assert Concat(chunks[..0]) == [] && seen + [] == seen;
    forall j | 0 <= j < |chunks| - 1 ensures ScanWhole(m, seen + chunks[0] + Concat(chunks[1..][..j])).result.None? {
      assert chunks[..j + 1] == [chunks[0]] + chunks[1..][..j];
      assert chunks[..j + 1][1..] == chunks[1..][..j];
      AppendAssoc(seen, chunks[0], Concat(chunks[1..][..j]));
    }
  }

  lemma {:induction false} Reads(s: State, sent: seq<byte>, seen: seq<byte>, chunks: seq<seq<byte>>)
    requires s.active && s.bridge.Polling? && NoneEmpty(chunks) && chunks != []
    requires HasScanned(s, sent, seen) && NoneBeforeLast(s.marker, seen, chunks)
    ensures ValidRun(s, Handling(chunks))
    ensures var t, result := After(s, Handling(chunks)), ScanWhole(s.marker, seen + Concat(chunks)).result;
            && HasScanned(t, sent, seen + Concat(chunks)) && SameButScan(s, t)
            && t.bridge == if result.Some? then Found(result.value) else Polling
    decreases |chunks|
  {
    var first, rest := chunks[0], chunks[1..];
    NoneBeforeLastOfRest(s.marker, seen, chunks);
    OneRead(s, sent, seen, first);
    HandlingFirst(chunks);
    AppendAssoc(seen, first, Concat(rest));
    var t := After(s, [Read(first), Load]);
    if rest == [] {
      assert [Read(first), Load] + [] == [Read(first), Load] && seen + first + [] == seen + first;
    } else {
      assert rest[..0] == [] && seen + first + [] == seen + first;
      assert ScanWhole(s.marker, seen + first + Concat(rest[..0])).result.None?;
      Reads(t, sent, seen + first, rest);
      RunsJoin(s, [Read(first), Load], Handling(rest));
    }
  }

  /** Reads while no exec is active go straight to the host. */
  lemma {:induction false} PassesOn(s: State, chunks: seq<seq<byte>>)
    requires !s.active && s.bridge.Polling? && NoneEmpty(chunks)
    ensures ValidRun(s, Handling(chunks))
    ensures var t := After(s, Handling(chunks));
            Concat(t.frames) == Concat(s.frames) + Concat(chunks) && SameButScan(s, t) && t.tail == s.tail && t.bridge.Polling?
    decreases |chunks|
  {
    if chunks == [] {
      assert Concat(s.frames) + [] == Concat(s.frames);
    } else {
      var first, rest := chunks[0], chunks[1..];
      TwoSteps(s, Read(first), Load);
      ConcatSnoc(s.frames, first);
      HandlingFirst(chunks);
      PassesOn(After(s, [Read(first), Load]), rest);
      RunsJoin(s, [Read(first), Load], Handling(rest));
      AppendAssoc(Concat(s.frames), first, Concat(rest));
    }
  }

  /** After the cut: the flag is cleared, the leftover flushed, the result sent and taken. */
  lemma ResultIsTaken(s: State)
    requires s.bridge.Found? && s.control.Waiting? && s.results == []
    ensures ValidRun(s, [Clear, Flush, Report, Receive])
    ensures var t := After(s, [Clear, Flush, Report, Receive]);
            && Quiet(t) && t.marker == s.marker && Concat(t.frames) == Concat(s.frames) + s.tail
            && t.execDone == s.execDone + [s.bridge.exit]
  {
    var s1 := Apply(s, Clear);
    var s2 := Apply(s1, Flush);
    ConcatOne(s.frames, s.tail);
    assert [] + [s.bridge.exit] == [s.bridge.exit];
    TwoSteps(s, Clear, Flush);
    TwoSteps(s2, Report, Receive);
    RunsJoin(s, [Clear, Flush], [Report, Receive]);
    assert [Clear, Flush] + [Report, Receive] == [Clear, Flush, Report, Receive];
  }

  /** The read that completes the marker. */
  lemma {:induction false} CutIsSomewhere(m: Marker<Exit>, chunks: seq<seq<byte>>, n: nat) returns (k: nat)
    requires n <= |chunks| && ScanWhole(m, Concat(chunks[..n])).result.Some? && ScanWhole(m, []).result.None?
    ensures 0 < k <= n && ScanWhole(m, Concat(chunks[..k])).result.Some?
    ensures forall j | 0 <= j < k :: ScanWhole(m, Concat(chunks[..j])).result.None?
    decreases n
  {
    if j :| 0 <= j < n && ScanWhole(m, Concat(chunks[..j])).result.Some? {
      k := CutIsSomewhere(m, chunks, j);
    } else {
      k := n;
    }
  }

  lemma NothingToScan<R>(m: Marker<R>)
    ensures ScanWhole(m, []) == Scan([], [], None)
  {
  }

  /** What is read after the marker only adds to what is left over. */
  lemma ScanAfterCut<R>(m: Marker<R>, seen: seq<byte>, rest: seq<byte>)
    requires ScanWhole(m, seen).result.Some?
    ensures ScanWhole(m, seen + rest) == ScanWhole(m, seen).(tail := ScanWhole(m, seen).tail + rest)
  {
    FeedExtendsScan(m, seen, rest);
  }

  lemma PrefixesOf(m: Marker<Exit>, chunks: seq<seq<byte>>, k: nat)
    requires k <= |chunks| && forall j | 0 <= j < k :: ScanWhole(m, Concat(chunks[..j])).result.None?
    ensures NoneBeforeLast(m, [], chunks[..k])
  {
    forall j | 0 <= j < k ensures ScanWhole(m, [] + Concat(chunks[..k][..j])).result.None? {
      assert chunks[..k][..j] == chunks[..j] && [] + Concat(chunks[..j]) == Concat(chunks[..j]);
    }
  }

  lemma ChunksInTwo(chunks: seq<seq<byte>>, k: nat)
    requires k <= |chunks|
    ensures Concat(chunks) == Concat(chunks[..k]) + Concat(chunks[k..])
  {
    assert chunks == chunks[..k] + chunks[k..];
    ConcatAppend(chunks[..k], chunks[k..]);
  }

  /** The exec up to the state in which the marker has been cut out. */
  lemma UpToCut(s: State, id: nat, chunks: seq<seq<byte>>, k: nat)
    requires Quiet(s) && NoneEmpty(chunks) && 0 < k <= |chunks|
    requires ScanWhole(s.marker, Concat(chunks[..k])).result.Some? && NoneBeforeLast(s.marker, [], chunks[..k])
    ensures ValidRun(s, [Begin(id), InjectOk] + Handling(chunks[..k]))
    ensures var t, scan := After(s, [Begin(id), InjectOk] + Handling(chunks[..k])), ScanWhole(s.marker, Concat(chunks[..k]));
            && Concat(t.frames) == Concat(s.frames) + scan.forward && t.tail == scan.tail && t.bridge == Found(scan.result.value)
            && t.control == Waiting(id) && t.results == [] && t.execDone == s.execDone && t.marker == s.marker
  {
    var start := [Begin(id), InjectOk];
    TwoSteps(s, Begin(id), InjectOk);
    NothingToScan(s.marker);
    var t := After(s, start);
    assert Concat(s.frames) + [] == Concat(s.frames);
    assert [] + Concat(chunks[..k]) == Concat(chunks[..k]);
    Reads(t, Concat(s.frames), [], chunks[..k]);
    RunsJoin(s, start, Handling(chunks[..k]));
  }

  /** From the cut to the end. */
  lemma FromCut(s: State, chunks: seq<seq<byte>>)
    requires s.bridge.Found? && s.control.Waiting? && s.results == [] && NoneEmpty(chunks)
    ensures ValidRun(s, [Clear, Flush, Report, Receive] + Handling(chunks))
    ensures var t := After(s, [Clear, Flush, Report, Receive] + Handling(chunks));
            Quiet(t) && Concat(t.frames) == Concat(s.frames) + s.tail + Concat(chunks) && t.execDone == s.execDone + [s.bridge.exit]
  {
    ResultIsTaken(s);
    PassesOn(After(s, [Clear, Flush, Report, Receive]), chunks);
    RunsJoin(s, [Clear, Flush, Report, Receive], Handling(chunks));
  }

  lemma AnsweredInParts(s: State, id: nat, chunks: seq<seq<byte>>, k: nat)
    requires Quiet(s) && NoneEmpty(chunks) && 0 < k <= |chunks|
    requires ScanWhole(s.marker, Concat(chunks[..k])).result.Some? && NoneBeforeLast(s.marker, [], chunks[..k])
    ensures ValidRun(s, AnsweredRun(id, chunks, k))
    ensures var t, scan := After(s, AnsweredRun(id, chunks, k)), ScanWhole(s.marker, Concat(chunks[..k]));
            && Quiet(t) && Concat(t.frames) == Concat(s.frames) + scan.forward + scan.tail + Concat(chunks[k..])
            && t.execDone == s.execDone + [scan.result.value]
  {
    var front, back := [Begin(id), InjectOk] + Handling(chunks[..k]), [Clear, Flush, Report, Receive] + Handling(chunks[k..]);
    UpToCut(s, id, chunks, k);
    FromCut(After(s, front), chunks[k..]);
    RunsJoin(s, front, back);
    AppendAssoc([Begin(id), InjectOk], Handling(chunks[..k]), back);
  }

  /**
   Whatever a command's output, if it holds no prefix of a marker, and however the shell's bytes are split into
   reads: once the marker is complete the exec is answered with the status in it, the host has received the output
   and what came after, and the machine is as ready for the next exec as before.
   */
  lemma ExecIsAnswered(s: State, id: nat, status: int, output: seq<byte>, after: seq<byte>, chunks: seq<seq<byte>>) returns (k: nat)
    requires Quiet(s) && s.marker == EXIT_MARKER && id < U64_LIMIT && -I32_LIMIT <= status < I32_LIMIT
    requires Search.FindSubsequence(output, EXIT_MARKER.prefix).None?
    requires NoneEmpty(chunks) && Concat(chunks) == output + MarkerText(Exit(id, status)) + after
    ensures 0 < k <= |chunks| && ValidRun(s, AnsweredRun(id, chunks, k))
    ensures var t := After(s, AnsweredRun(id, chunks, k));
            && Quiet(t) && Concat(t.frames) == Concat(s.frames) + output + after
            && t.execDone == s.execDone + [Exit(id, status)]
  {
    ReportedExactlyWhenOutputHasNoPrefix(output, Exit(id, status), after);
    k := AnsweredByScan(s, id, chunks, Scan(output, after, Some(Exit(id, status))));
  }

  lemma AnsweredByScan(s: State, id: nat, chunks: seq<seq<byte>>, scan: Scan<Exit>) returns (k: nat)
    requires Quiet(s) && NoneEmpty(chunks) && ScanWhole(s.marker, Concat(chunks)) == scan && scan.result.Some?
    ensures 0 < k <= |chunks| && ValidRun(s, AnsweredRun(id, chunks, k))
    ensures var t := After(s, AnsweredRun(id, chunks, k));
            && Quiet(t) && Concat(t.frames) == Concat(s.frames) + scan.forward + scan.tail
            && t.execDone == s.execDone + [scan.result.value]
  {
    assert chunks[..|chunks|] == chunks;
    NothingToScan(s.marker);
    k := CutIsSomewhere(s.marker, chunks, |chunks|);
    ChunksInTwo(chunks, k);
    ScanAfterCut(s.marker, Concat(chunks[..k]), Concat(chunks[k..]));
    PrefixesOf(s.marker, chunks, k);
    AnsweredInParts(s, id, chunks, k);
    AppendAssoc(Concat(s.frames) + scan.forward, ScanWhole(s.marker, Concat(chunks[..k])).tail, Concat(chunks[k..]));
  }

  /** So it is from the start. */
  lemma FirstExecIsAnswered(id: nat, status: int, output: seq<byte>, after: seq<byte>, chunks: seq<seq<byte>>) returns (k: nat)
    requires id < U64_LIMIT && -I32_LIMIT <= status < I32_LIMIT
    requires Search.FindSubsequence(output, EXIT_MARKER.prefix).None?
    requires NoneEmpty(chunks) && Concat(chunks) == output + MarkerText(Exit(id, status)) + after
    ensures 0 < k <= |chunks| && ValidRun(INITIAL, AnsweredRun(id, chunks, k))
    ensures var t := After(INITIAL, AnsweredRun(id, chunks, k));
            Quiet(t) && Concat(t.frames) == output + after && t.execDone == [Exit(id, status)]
  {
    k := ExecIsAnswered(INITIAL, id, status, output, after, chunks);
    assert Concat(INITIAL.frames) == [] && [] + output == output && [] + [Exit(id, status)] == [Exit(id, status)];
  }
}
