/**
 The two agent threads that share an exec: the control loop, which starts a command and waits for its
 result, and the bridge loop, which passes the default shell's output on and looks for the marker while
 an exec is active. Every interleaving of their steps is a run of the machine below.
 */
module ExecBridge {
  import opened Basics
  import Search
  import opened Streaming
  import opened Sentinel

  // ---------------------------------------------------------------------------
  // The machine
  // ---------------------------------------------------------------------------

  datatype Control = Idle | Injecting(id: nat) | Waiting(id: nat)

  /** Where the bridge loop stands in handling one read. */
  datatype Bridge =
    | Polling
    | Got(chunk: seq<byte>)      // read from the shell, the active flag not yet loaded
    | Found(exit: Exit)          // a marker was cut out, the active flag not yet cleared
    | Cleared(exit: Exit)        // flag cleared, leftover not yet flushed
    | Reporting(exit: Exit)      // leftover flushed, result not yet sent to the control loop

  /** What happened, in order. `Failed` is an exec whose text could not be typed. */
  datatype Event = Began(id: nat) | Sent(bytes: seq<byte>) | Cut(text: seq<byte>, exit: Exit) | Done(exit: Exit) | Failed(id: nat)

  /** The marker stays fixed over a run. */
  datatype State = State(
    marker: Marker<Exit>,
    active: bool,
    control: Control,
    bridge: Bridge,
    tail: seq<byte>,
    results: seq<Exit>,
    frames: seq<seq<byte>>,
    execDone: seq<Exit>,
    shellOutput: seq<byte>,
    events: seq<Event>)

  const INITIAL: State :=
    State(EXIT_MARKER, false, Idle, Polling, [], [], [], [], [], [])

  datatype Step = Begin(id: nat) | InjectOk | InjectFail | Receive | Read(chunk: seq<byte>) | Load | Clear | Flush | Report

  predicate Enabled(s: State, step: Step) {
    match step
    case Begin(_) => s.control.Idle?
    case InjectOk => s.control.Injecting?
    case InjectFail => s.control.Injecting?
    case Receive => s.control.Waiting? && s.results != []
    case Read(chunk) => s.bridge.Polling? && chunk != []
    case Load => s.bridge.Got?
    case Clear => s.bridge.Found?
    case Flush => s.bridge.Cleared?
    case Report => s.bridge.Reporting?
  }

  /** A frame is written only when there is something to send. */
  function Send(s: State, bytes: seq<byte>): State {
    if bytes == [] then s else s.(frames := s.frames + [bytes], events := s.events + [Sent(bytes)])
  }

  function Apply(s: State, step: Step): State
    requires Enabled(s, step)
  {
    match step
    case Begin(id) => s.(control := Injecting(id), active := true, events := s.events + [Began(id)])
    case InjectOk => s.(control := Waiting(s.control.id))
    case InjectFail =>
      s.(control := Idle, active := false, execDone := s.execDone + [Exit(s.control.id, 126)],
         events := s.events + [Failed(s.control.id)])
    case Receive =>
      s.(control := Idle, results := s.results[1..], execDone := s.execDone + [s.results[0]],
         events := s.events + [Done(s.results[0])])
    case Read(chunk) => s.(bridge := Got(chunk), shellOutput := s.shellOutput + chunk)
    case Load => ApplyLoad(s)
    case Clear => s.(bridge := Cleared(s.bridge.exit), active := false)
    case Flush => Send(s, s.tail).(bridge := Reporting(s.bridge.exit), tail := [])
    case Report => s.(bridge := Polling, results := s.results + [s.bridge.exit])
  }

  /** Load the flag; scan the read when an exec is active, else pass it straight on. */
  function ApplyLoad(s: State): State
    requires s.bridge.Got?
  {
    if !s.active then Send(s, s.bridge.chunk).(bridge := Polling)
    else
      var buffer := s.tail + s.bridge.chunk;
      var scan := ScanWhole(s.marker, buffer);
      var sent := Send(s, scan.forward).(tail := scan.tail);
      if scan.result.None? then sent.(bridge := Polling)
      else
        sent.(bridge := Found(scan.result.value),
              events := sent.events + [Cut(CutText(buffer, scan), scan.result.value)])
  }

  /** The bytes of `buffer` between what a scan passes on and what it holds back. */
  function CutText(buffer: seq<byte>, scan: Scan<Exit>): seq<byte> {
    if |scan.forward| + |scan.tail| <= |buffer| then buffer[|scan.forward|..|buffer| - |scan.tail|] else []
  }

  predicate ValidRun(s: State, run: seq<Step>)
    decreases |run|
  {
    run == [] || (Enabled(s, run[0]) && ValidRun(Apply(s, run[0]), run[1..]))
  }

  function After(s: State, run: seq<Step>): State
    requires ValidRun(s, run)
    decreases |run|
  {
    if run == [] then s else After(Apply(s, run[0]), run[1..])
  }

  // ---------------------------------------------------------------------------
  // What the event log says
  // ---------------------------------------------------------------------------

  /** The bytes an event accounts for in the shell's output. */
  function Raw(events: seq<Event>): seq<byte> {
    if events == [] then [] else RawOf(events[0]) + Raw(events[1..])
  }

  function RawOf(e: Event): seq<byte> {
    if e.Sent? then e.bytes else if e.Cut? then e.text else []
  }

  /** The bytes that went to the host. */
  function Delivered(events: seq<Event>): seq<byte> {
    if events == [] then [] else SentOf(events[0]) + Delivered(events[1..])
  }

  function SentOf(e: Event): seq<byte> {
    if e.Sent? then e.bytes else []
  }

  lemma {:induction false} RawAppend(a: seq<Event>, b: seq<Event>)
    ensures Raw(a + b) == Raw(a) + Raw(b)
  {
    if a == [] {
      assert a + b == b;
    } else {
      assert (a + b)[0] == a[0] && (a + b)[1..] == a[1..] + b;
      RawAppend(a[1..], b);
      AppendAssoc(RawOf(a[0]), Raw(a[1..]), Raw(b));
    }
  }

  lemma {:induction false} DeliveredAppend(a: seq<Event>, b: seq<Event>)
    ensures Delivered(a + b) == Delivered(a) + Delivered(b)
  {
    if a == [] {
      assert a + b == b;
    } else {
      assert (a + b)[0] == a[0] && (a + b)[1..] == a[1..] + b;
      DeliveredAppend(a[1..], b);
      AppendAssoc(SentOf(a[0]), Delivered(a[1..]), Delivered(b));
    }
  }

  lemma RawSnoc(events: seq<Event>, e: Event)
    ensures Raw(events + [e]) == Raw(events) + RawOf(e)
    ensures Delivered(events + [e]) == Delivered(events) + SentOf(e)
  {
    RawAppend(events, [e]);
    DeliveredAppend(events, [e]);
    assert [e][1..] == [];
    assert Raw([e]) == RawOf(e) + [] == RawOf(e);
    assert Delivered([e]) == SentOf(e) + [] == SentOf(e);
  }

  /** The ExecDone messages the log calls for: the cut exit, or code 126 for text that could not be typed. */
  function Answers(events: seq<Event>): seq<Exit> {
    if events == [] then []
    else
      var e := events[|events| - 1];
      Answers(events[..|events| - 1])
      + (if e.Done? then [e.exit] else if e.Failed? then [Exit(e.id, 126)] else [])
  }

  lemma AnswersSnoc(events: seq<Event>, e: Event)
    ensures Answers(events + [e]) ==
            if e.Done? then Answers(events) + [e.exit]
            else if e.Failed? then Answers(events) + [Exit(e.id, 126)]
            else Answers(events)
  {
    assert (events + [e])[..|events|] == events;
    assert Answers(events) + [] == Answers(events);
  }

  /** Where the log leaves the current exec. */
  datatype Phase = NoExec | Open | Marked(exit: Exit) | Broken

  /**
   The grammar of a log: every exec is Began, then at most one Cut, then Done with what the Cut reported;
   execs do not overlap; a marker is cut only inside an exec.
   */
  ghost function PhaseStep(m: Marker<Exit>, before: Phase, e: Event): Phase {
    match e
    case Sent(_) => before
    case Began(_) => if before.NoExec? then Open else Broken
    case Cut(text, exit) => if before.Open? && IsMarkerText(m, text, Some(exit)) then Marked(exit) else Broken
    case Done(exit) => if before == Marked(exit) then NoExec else Broken
    case Failed(_) => if before.Open? then NoExec else Broken
  }

  ghost function PhaseOf(m: Marker<Exit>, events: seq<Event>): Phase {
    if events == [] then NoExec
    else PhaseStep(m, PhaseOf(m, events[..|events| - 1]), events[|events| - 1])
  }

  lemma PhaseSnoc(m: Marker<Exit>, events: seq<Event>, e: Event)
    ensures PhaseOf(m, events + [e]) == PhaseStep(m, PhaseOf(m, events), e)
  {
    assert (events + [e])[..|events|] == events;
  }

  // ---------------------------------------------------------------------------
  // The invariant
  // ---------------------------------------------------------------------------

  function InFlight(s: State): seq<byte> {
    if s.bridge.Got? then s.bridge.chunk else []
  }

  /** The result that has been cut out but not yet taken by the control loop. */
  function Pending(s: State): seq<Exit> {
    s.results + (if s.bridge.Found? || s.bridge.Cleared? || s.bridge.Reporting? then [s.bridge.exit] else [])
  }

  /** The shell's output is what the log accounts for, followed by the bytes still held. */
  ghost predicate Accounted(output: seq<byte>, events: seq<Event>, held: seq<byte>) {
    output == Raw(events) + held
  }

  /** The frames written are the bytes the log says were sent. */
  ghost predicate Written(frames: seq<seq<byte>>, events: seq<Event>) {
    Concat(frames) == Delivered(events) && [] !in frames
  }

  ghost predicate Conserved(s: State) {
    && Accounted(s.shellOutput, s.events, s.tail + InFlight(s))
    && Written(s.frames, s.events)
  }

  ghost predicate Phased(s: State) {
    && s.execDone == Answers(s.events)
    && (s.tail != [] ==> s.active || s.bridge.Cleared?)
    && (s.active <==> !s.control.Idle? && s.results == [] && !s.bridge.Cleared? && !s.bridge.Reporting?)
    && match PhaseOf(s.marker, s.events)
       case NoExec => s.control.Idle? && Pending(s) == []
       case Open => !s.control.Idle? && Pending(s) == []
       case Marked(exit) => !s.control.Idle? && Pending(s) == [exit]
       case Broken => false
  }

  ghost predicate Inv(s: State) {
    Conserved(s) && Phased(s)
  }

  lemma HeldBytesAreSent(s: State, bytes: seq<byte>, rest: seq<byte>)
    requires Accounted(s.shellOutput, s.events, bytes + rest)
    ensures Accounted(s.shellOutput, Send(s, bytes).events, rest)
  {
    if bytes == [] {
      assert bytes + rest == rest;
    } else {
      RawSnoc(s.events, Sent(bytes));
      assert Raw(s.events) + (bytes + rest) == Raw(s.events) + bytes + rest;
    }
  }

  lemma HeldMarkerIsCut(output: seq<byte>, events: seq<Event>, text: seq<byte>, exit: Exit, rest: seq<byte>)
    requires Accounted(output, events, text + rest)
    ensures Accounted(output, events + [Cut(text, exit)], rest)
  {
    RawSnoc(events, Cut(text, exit));
    assert Raw(events) + (text + rest) == Raw(events) + text + rest;
  }

  lemma MoreIsRead(output: seq<byte>, events: seq<Event>, held: seq<byte>, chunk: seq<byte>)
    requires Accounted(output, events, held)
    ensures Accounted(output + chunk, events, held + chunk)
  {
    assert Raw(events) + held + chunk == Raw(events) + (held + chunk);
  }

  lemma SendIsWritten(s: State, bytes: seq<byte>)
    requires Written(s.frames, s.events)
    ensures Written(Send(s, bytes).frames, Send(s, bytes).events)
  {
    if bytes != [] {
      RawSnoc(s.events, Sent(bytes));
      ConcatSnoc(s.frames, bytes);
    }
  }

  /** Events that carry no bytes leave the accounts as they are. */
  lemma QuietEvent(output: seq<byte>, events: seq<Event>, held: seq<byte>, frames: seq<seq<byte>>, e: Event)
    requires !e.Sent?
    requires Written(frames, events)
    ensures Written(frames, events + [e])
    ensures !e.Cut? && Accounted(output, events, held) ==> Accounted(output, events + [e], held)
  {
    RawSnoc(events, e);
    assert Delivered(events) + [] == Delivered(events);
    assert Raw(events) + [] == Raw(events);
  }

  lemma SendKeepsPhase(s: State, bytes: seq<byte>)
    ensures PhaseOf(s.marker, Send(s, bytes).events) == PhaseOf(s.marker, s.events)
    ensures Answers(Send(s, bytes).events) == Answers(s.events)
  {
    if bytes != [] {
      AnswersSnoc(s.events, Sent(bytes));
      PhaseSnoc(s.marker, s.events, Sent(bytes));
    }
  }

  /** Bytes read while no exec is active are about to pass held ones, and this changes the order of bytes. */
  ghost predicate Overtakes(s: State) {
    s.bridge.Got? && !s.active && s.tail + s.bridge.chunk != s.bridge.chunk + s.tail
  }

  /** Passing a read straight on keeps the order of bytes exactly if it does not overtake held ones. */
  lemma PassOnConservesIff(s: State)
    requires Conserved(s) && s.bridge.Got? && !s.active
    ensures Conserved(ApplyLoad(s)) <==> !Overtakes(s)
  {
    var chunk := s.bridge.chunk;
    SendIsWritten(s, chunk);
    SentOutOfTurn(s, chunk);
    assert s.tail + [] == s.tail;
  }

  lemma SentOutOfTurn(s: State, chunk: seq<byte>)
    requires Accounted(s.shellOutput, s.events, s.tail + chunk)
    ensures Accounted(s.shellOutput, Send(s, chunk).events, s.tail) <==> s.tail + chunk == chunk + s.tail
  {
    var sent := Send(s, chunk).events;
    if chunk == [] {
      assert s.tail + chunk == s.tail && chunk + s.tail == s.tail;
    } else {
      RawSnoc(s.events, Sent(chunk));
    }
    AppendAssoc(Raw(s.events), chunk, s.tail);
    SameAfter(Raw(s.events), s.tail + chunk, chunk + s.tail);
  }

  lemma SameAfter<T>(front: seq<T>, a: seq<T>, b: seq<T>)
    ensures front + a == front + b <==> a == b
  {
    assert (front + a)[|front|..] == a && (front + b)[|front|..] == b;
  }

  lemma PassOnConserves(s: State)
    requires Conserved(s) && s.bridge.Got? && !s.active && s.tail == []
    ensures Conserved(ApplyLoad(s))
  {
    assert [] + s.bridge.chunk == s.bridge.chunk + [];
    PassOnConservesIff(s);
  }

  lemma ScanWithoutResultConserves(s: State)
    requires Conserved(s) && s.bridge.Got? && s.active
    requires ScanWhole(s.marker, s.tail + s.bridge.chunk).result.None?
    ensures Conserved(ApplyLoad(s))
  {
    var scan := ScanWhole(s.marker, s.tail + s.bridge.chunk);
    ScanConserves(s.marker, s.tail + s.bridge.chunk);
    HeldBytesAreSent(s, scan.forward, scan.tail);
    SendIsWritten(s, scan.forward);
    assert scan.tail + [] == scan.tail;
  }

  lemma CutTextSplits(buffer: seq<byte>, scan: Scan<Exit>)
    requires |scan.forward| + |scan.tail| <= |buffer|
    requires buffer[..|scan.forward|] == scan.forward && buffer[|buffer| - |scan.tail|..] == scan.tail
    ensures buffer == scan.forward + (CutText(buffer, scan) + scan.tail)
  {
  }

  lemma ScanWithResultConserves(s: State)
    requires Conserved(s) && s.bridge.Got? && s.active
    requires ScanWhole(s.marker, s.tail + s.bridge.chunk).result.Some?
    ensures Conserved(ApplyLoad(s))
  {
    var buffer := s.tail + s.bridge.chunk;
    var scan := ScanWhole(s.marker, buffer);
    ScanConserves(s.marker, buffer);
    CutTextSplits(buffer, scan);
    var text := CutText(buffer, scan);
    HeldBytesAreSent(s, scan.forward, text + scan.tail);
    SendIsWritten(s, scan.forward);
    var sent := Send(s, scan.forward);
    HeldMarkerIsCut(s.shellOutput, sent.events, text, scan.result.value, scan.tail);
    QuietEvent(s.shellOutput, sent.events, [], sent.frames, Cut(text, scan.result.value));
    assert scan.tail + [] == scan.tail;
  }

  lemma LoadKeepsPhase(s: State)
    requires Phased(s) && s.bridge.Got?
    requires s.active ==> ScanWhole(s.marker, s.tail + s.bridge.chunk).result.None?
    ensures Phased(ApplyLoad(s))
  {
    if s.active {
      SendKeepsPhase(s, ScanWhole(s.marker, s.tail + s.bridge.chunk).forward);
    } else {
      SendKeepsPhase(s, s.bridge.chunk);
    }
  }

  lemma CutMovesPhase(s: State)
    requires Phased(s) && s.bridge.Got? && s.active
    requires ScanWhole(s.marker, s.tail + s.bridge.chunk).result.Some?
    ensures Phased(ApplyLoad(s))
  {
    var buffer := s.tail + s.bridge.chunk;
    var scan := ScanWhole(s.marker, buffer);
    CutIsMarker(s.marker, buffer);
    SendKeepsPhase(s, scan.forward);
    CutMarks(s.marker, Send(s, scan.forward).events, CutText(buffer, scan), scan.result.value);
  }

  lemma CutIsMarker(m: Marker<Exit>, buffer: seq<byte>)
    requires ScanWhole(m, buffer).result.Some?
    ensures var scan := ScanWhole(m, buffer); IsMarkerText(m, CutText(buffer, scan), Some(scan.result.value))
  {
    ScanConserves(m, buffer);
  }

  lemma CutMarks(m: Marker<Exit>, events: seq<Event>, text: seq<byte>, exit: Exit)
    requires IsMarkerText(m, text, Some(exit))
    ensures PhaseOf(m, events).Open? ==> PhaseOf(m, events + [Cut(text, exit)]) == Marked(exit)
    ensures Answers(events + [Cut(text, exit)]) == Answers(events)
  {
    PhaseSnoc(m, events, Cut(text, exit));
    AnswersSnoc(events, Cut(text, exit));
  }

  lemma LoadKeepsInv(s: State)
    requires Inv(s) && s.bridge.Got?
    ensures Inv(ApplyLoad(s))
  {
    if !s.active {
      LoadKeepsPhase(s);
      PassOnConserves(s);
    } else if ScanWhole(s.marker, s.tail + s.bridge.chunk).result.None? {
      LoadKeepsPhase(s);
      ScanWithoutResultConserves(s);
    } else {
      CutMovesPhase(s);
      ScanWithResultConserves(s);
    }
  }

  lemma BeginConserves(s: State, id: nat)
    requires Conserved(s) && s.control.Idle?
    ensures Conserved(Apply(s, Begin(id)))
  {
    QuietEvent(s.shellOutput, s.events, s.tail + InFlight(s), s.frames, Began(id));
  }

  lemma BeginKeepsInv(s: State, id: nat)
    requires Inv(s) && s.control.Idle?
    ensures Inv(Apply(s, Begin(id)))
  {
    BeginConserves(s, id);
    PhaseSnoc(s.marker, s.events, Began(id));
    AnswersSnoc(s.events, Began(id));
  }

  lemma ReceiveConserves(s: State)
    requires Conserved(s) && s.control.Waiting? && s.results != []
    ensures Conserved(Apply(s, Receive))
  {
    QuietEvent(s.shellOutput, s.events, s.tail + InFlight(s), s.frames, Done(s.results[0]));
  }

  lemma ReceiveKeepsPhase(s: State)
    requires Phased(s) && s.control.Waiting? && s.results != []
    ensures Phased(Apply(s, Receive))
  {
    PhaseSnoc(s.marker, s.events, Done(s.results[0]));
    AnswersSnoc(s.events, Done(s.results[0]));
    assert Pending(s)[0] == s.results[0];
  }

  lemma ReceiveKeepsInv(s: State)
    requires Inv(s) && s.control.Waiting? && s.results != []
    ensures Inv(Apply(s, Receive))
  {
    ReceiveConserves(s);
    ReceiveKeepsPhase(s);
  }

  lemma ReadKeepsInv(s: State, chunk: seq<byte>)
    requires Inv(s) && s.bridge.Polling? && chunk != []
    ensures Inv(Apply(s, Read(chunk)))
  {
    assert s.tail + [] == s.tail;
    MoreIsRead(s.shellOutput, s.events, s.tail, chunk);
  }

  lemma FlushKeepsInv(s: State)
    requires Inv(s) && s.bridge.Cleared?
    ensures Inv(Apply(s, Flush))
  {
    FlushConserves(s);
    SendKeepsPhase(s, s.tail);
  }

  lemma FlushConserves(s: State)
    requires Conserved(s) && s.bridge.Cleared?
    ensures Conserved(Apply(s, Flush))
  {
    HeldBytesAreSent(s, s.tail, []);
    SendIsWritten(s, s.tail);
    assert [] + InFlight(Apply(s, Flush)) == [];
  }

  /**
   Exactly when a failed injection leaves the bridge as it is between execs: nothing is held back and no result
   has been cut out since the exec began. What the order of bytes makes of it is ByteOrderIsKeptIff.
   */
  lemma FailedInjectionIsHarmlessIff(s: State)
    requires Inv(s) && s.control.Injecting?
    ensures Inv(Apply(s, InjectFail)) <==> s.tail == [] && Pending(s) == []
  {
    FailureConserves(s);
    FailureKeepsPhaseIff(s);
  }

  lemma FailureConserves(s: State)
    requires Conserved(s) && s.control.Injecting?
    ensures Conserved(Apply(s, InjectFail))
  {
    QuietEvent(s.shellOutput, s.events, s.tail + InFlight(s), s.frames, Failed(s.control.id));
  }

  lemma FailureKeepsPhaseIff(s: State)
    requires Phased(s) && s.control.Injecting?
    ensures Phased(Apply(s, InjectFail)) <==> s.tail == [] && Pending(s) == []
  {
    PhaseSnoc(s.marker, s.events, Failed(s.control.id));
    AnswersSnoc(s.events, Failed(s.control.id));
  }

  lemma StepKeepsInv(s: State, step: Step)
    requires Inv(s) && Enabled(s, step)
    requires step.InjectFail? ==> s.tail == [] && Pending(s) == []
    ensures Inv(Apply(s, step))
  {
    match step
    case InjectFail => FailedInjectionIsHarmlessIff(s);
    case Begin(id) => BeginKeepsInv(s, id);
    case Receive => ReceiveKeepsInv(s);
    case Read(chunk) => ReadKeepsInv(s, chunk);
    case Load => LoadKeepsInv(s);
    case Flush => FlushKeepsInv(s);
    case InjectOk | Clear | Report =>
  }

  /** Injection failures, if any, come before the exec had any effect on the bridge. */
  ghost predicate HarmlessFailures(s: State, run: seq<Step>)
    requires ValidRun(s, run)
    decreases |run|
  {
    run == []
    || ((run[0].InjectFail? ==> s.tail == [] && Pending(s) == [])
        && HarmlessFailures(Apply(s, run[0]), run[1..]))
  }

  lemma FirstStepKeepsInv(s: State, run: seq<Step>)
    requires Inv(s) && ValidRun(s, run) && HarmlessFailures(s, run) && run != []
    ensures var next := Apply(s, run[0]);
            Inv(next) && next.marker == s.marker && ValidRun(next, run[1..]) && HarmlessFailures(next, run[1..])
  {
    StepKeepsInv(s, run[0]);
    StepKeepsMarker(s, run[0]);
  }

  lemma StepKeepsMarker(s: State, step: Step)
    requires Enabled(s, step)
    ensures Apply(s, step).marker == s.marker
  {
  }

  lemma {:induction false} RunKeepsInv(s: State, run: seq<Step>)
    requires Inv(s) && ValidRun(s, run) && HarmlessFailures(s, run)
    ensures Inv(After(s, run)) && After(s, run).marker == s.marker
    decreases |run|
  {
    if run != [] {
      FirstStepKeepsInv(s, run);
      RunKeepsInv(Apply(s, run[0]), run[1..]);
    }
  }

  /**
   Over every interleaving of the two loops: what the host received is the shell's output in order, minus
   the cut markers and what is still held or in flight; each exec cuts at most one marker and is answered
   with the exit in it; execs never overlap; and nothing is held back while no exec is active.
   */
  lemma ExecConservation(run: seq<Step>)
    requires ValidRun(INITIAL, run) && HarmlessFailures(INITIAL, run)
    ensures var s := After(INITIAL, run);
            && s.shellOutput == Raw(s.events) + (s.tail + InFlight(s))
            && Concat(s.frames) == Delivered(s.events)
            && s.execDone == Answers(s.events)
            && !PhaseOf(EXIT_MARKER, s.events).Broken?
            && (s.control.Idle? ==> PhaseOf(EXIT_MARKER, s.events).NoExec? && s.tail == [] && s.results == [] && !s.active)
  {
    RunKeepsInv(INITIAL, run);
  }

  // ---------------------------------------------------------------------------
  // Every run, with injections that fail at any moment
  // ---------------------------------------------------------------------------

  /** Every step but an overtaking load keeps the byte account. */
  lemma StepConserves(s: State, step: Step)
    requires Conserved(s) && Enabled(s, step)
    ensures Conserved(Apply(s, step)) <==> !(step.Load? && Overtakes(s))
  {
    match step
    case Load => LoadConserves(s);
    case Read(chunk) =>
      assert s.tail + [] == s.tail;
      MoreIsRead(s.shellOutput, s.events, s.tail, chunk);
    case Flush => FlushConserves(s);
    case Begin(id) => BeginConserves(s, id);
    case Receive => ReceiveConserves(s);
    case InjectFail => FailureConserves(s);
    case InjectOk | Clear | Report =>
  }

  lemma LoadConserves(s: State)
    requires Conserved(s) && s.bridge.Got?
    ensures Conserved(ApplyLoad(s)) <==> !Overtakes(s)
  {
    if !s.active {
      PassOnConservesIff(s);
    } else if ScanWhole(s.marker, s.tail + s.bridge.chunk).result.None? {
      ScanWithoutResultConserves(s);
    } else {
      ScanWithResultConserves(s);
    }
  }

  /** No load of the run overtakes held bytes. */
  ghost predicate NoOvertaking(s: State, run: seq<Step>)
    requires ValidRun(s, run)
    decreases |run|
  {
    run == [] || (!(run[0].Load? && Overtakes(s)) && NoOvertaking(Apply(s, run[0]), run[1..]))
  }

  /** The byte account holds in every state of the run. */
  ghost predicate ConservedThroughout(s: State, run: seq<Step>)
    requires ValidRun(s, run)
    decreases |run|
  {
    Conserved(s) && (run == [] || ConservedThroughout(Apply(s, run[0]), run[1..]))
  }

  lemma {:induction false} ThroughoutIff(s: State, run: seq<Step>)
    requires ValidRun(s, run) && Conserved(s)
    ensures ConservedThroughout(s, run) <==> NoOvertaking(s, run)
    ensures NoOvertaking(s, run) ==> Conserved(After(s, run))
    decreases |run|
  {
    if run != [] {
      StepConserves(s, run[0]);
      if !(run[0].Load? && Overtakes(s)) {
        ThroughoutIff(Apply(s, run[0]), run[1..]);
      }
    }
  }

  /**
   Over every run, however injections fail: the host's bytes are the shell's output in order, minus the cut
   texts and what is still held, at every moment exactly if no read overtakes held bytes.
   */
  lemma ByteOrderIsKeptIff(run: seq<Step>)
    requires ValidRun(INITIAL, run)
    ensures ConservedThroughout(INITIAL, run) <==> NoOvertaking(INITIAL, run)
    ensures NoOvertaking(INITIAL, run) ==> Conserved(After(INITIAL, run))
  {
    ThroughoutIff(INITIAL, run);
  }

  /** The exits of the cut markers, and of the answers that the control loop received. */
  function CutExits(events: seq<Event>): seq<Exit> {
    if events == [] then []
    else
      var e := events[|events| - 1];
      if e.Cut? then CutExits(events[..|events| - 1]) + [e.exit] else CutExits(events[..|events| - 1])
  }

  function DoneExits(events: seq<Event>): seq<Exit> {
    if events == [] then []
    else
      var e := events[|events| - 1];
      if e.Done? then DoneExits(events[..|events| - 1]) + [e.exit] else DoneExits(events[..|events| - 1])
  }

  lemma ExitsSnoc(events: seq<Event>, e: Event)
    ensures CutExits(events + [e]) == if e.Cut? then CutExits(events) + [e.exit] else CutExits(events)
    ensures DoneExits(events + [e]) == if e.Done? then DoneExits(events) + [e.exit] else DoneExits(events)
  {
    assert (events + [e])[..|events|] == events;
  }

  /** Every cut text is one marker with the reported exit, and the answers are the cut exits in order, one each. */
  ghost predicate Reported(s: State) {
    && (forall i | 0 <= i < |s.events| :: IsHonestCut(s.marker, s.events[i]))
    && CutExits(s.events) == DoneExits(s.events) + Pending(s)
    && s.execDone == Answers(s.events)
  }

  ghost predicate IsHonestCut(m: Marker<Exit>, e: Event) {
    e.Cut? ==> IsMarkerText(m, e.text, Some(e.exit))
  }

  lemma StepReports(s: State, step: Step)
    requires Reported(s) && Enabled(s, step)
    ensures Reported(Apply(s, step))
  {
    match step
    case Load => LoadReports(s);
    case Flush => SendReports(s, s.tail);
    case Begin(id) =>
      ExitsSnoc(s.events, Began(id));
      AnswersSnoc(s.events, Began(id));
    case Receive =>
      ExitsSnoc(s.events, Done(s.results[0]));
      AnswersSnoc(s.events, Done(s.results[0]));
      FirstIsTaken(DoneExits(s.events), s.results, Pending(s)[|s.results|..]);
    case InjectFail =>
      ExitsSnoc(s.events, Failed(s.control.id));
      AnswersSnoc(s.events, Failed(s.control.id));
    case InjectOk | Clear | Read(_) =>
    case Report =>
      assert s.results + [s.bridge.exit] + [] == s.results + [s.bridge.exit];
  }

  lemma FirstIsTaken(done: seq<Exit>, results: seq<Exit>, more: seq<Exit>)
    requires results != []
    ensures done + (results + more) == (done + [results[0]]) + (results[1..] + more)
  {
  }

  lemma SendReports(s: State, bytes: seq<byte>)
    requires Reported(s)
    ensures Reported(Send(s, bytes))
  {
    if bytes != [] {
      ExitsSnoc(s.events, Sent(bytes));
      AnswersSnoc(s.events, Sent(bytes));
    }
  }

  lemma LoadReports(s: State)
    requires Reported(s) && s.bridge.Got?
    ensures Reported(ApplyLoad(s))
  {
    if !s.active {
      SendReports(s, s.bridge.chunk);
    } else {
      var buffer := s.tail + s.bridge.chunk;
      var scan := ScanWhole(s.marker, buffer);
      SendReports(s, scan.forward);
      if scan.result.Some? {
        CutIsMarker(s.marker, buffer);
        CutReports(Send(s, scan.forward), ApplyLoad(s), CutText(buffer, scan), scan.result.value);
      }
    }
  }

  lemma CutReports(s: State, next: State, text: seq<byte>, exit: Exit)
    requires Reported(s) && s.bridge.Got? && IsMarkerText(s.marker, text, Some(exit))
    requires next.marker == s.marker && next.events == s.events + [Cut(text, exit)] && next.bridge == Found(exit)
    requires next.results == s.results && next.execDone == s.execDone
    ensures Reported(next)
  {
    ExitsSnoc(s.events, Cut(text, exit));
    AnswersSnoc(s.events, Cut(text, exit));
    assert s.results + [] == s.results;
    AppendAssoc(DoneExits(s.events), s.results, [exit]);
  }

  lemma {:induction false} RunReports(s: State, run: seq<Step>)
    requires ValidRun(s, run) && Reported(s)
    ensures Reported(After(s, run)) && After(s, run).marker == s.marker
    decreases |run|
  {
    if run != [] {
      StepReports(s, run[0]);
      RunReports(Apply(s, run[0]), run[1..]);
    }
  }

  /** Over every run, however injections fail: nothing but markers is cut, and each result is answered once, in order. */
  lemma EveryResultIsAnsweredOnce(run: seq<Step>)
    requires ValidRun(INITIAL, run)
    ensures var s := After(INITIAL, run);
            && (forall i | 0 <= i < |s.events| :: IsHonestCut(EXIT_MARKER, s.events[i]))
            && CutExits(s.events) == DoneExits(s.events) + Pending(s)
            && s.execDone == Answers(s.events)
  {
    RunReports(INITIAL, run);
  }

  /** An exec whose text cannot be typed while `held` is held back, then a read before the next exec. */
  function FailingRun(id: nat, held: seq<byte>, later: seq<byte>): seq<Step> {
    [Begin(id), Read(held), Load, InjectFail, Read(later), Load]
  }

  /** What is held back stays held when the injection fails. */
  lemma HeldWhenItFails(s: State, id: nat, held: seq<byte>)
    requires s.control.Idle? && s.bridge.Polling? && s.tail == []
    requires held != [] && ScanWhole(s.marker, held) == Scan([], held, None)
    ensures var run := [Begin(id), Read(held), Load, InjectFail];
            && ValidRun(s, run)
            && var f := After(s, run);
            && f.shellOutput == s.shellOutput + held && f.frames == s.frames && f.tail == held
            && !f.active && f.control.Idle? && f.bridge.Polling?
  {
    var s1 := Apply(s, Begin(id));
    var s2 := Apply(s1, Read(held));
    assert [] + held == held;
    var s3 := Apply(s2, Load);
    OneStep(s3, InjectFail, []);
    OneStep(s2, Load, [InjectFail]);
    OneStep(s1, Read(held), [Load, InjectFail]);
    OneStep(s, Begin(id), [Read(held), Load, InjectFail]);
  }

  lemma PassedStraightOn(s: State, later: seq<byte>)
    requires !s.active && s.bridge.Polling? && later != []
    ensures var run := [Read(later), Load];
            && ValidRun(s, run)
            && var f := After(s, run);
            && f.shellOutput == s.shellOutput + later && f.frames == s.frames + [later] && f.tail == s.tail
            && f.control == s.control && f.bridge.Polling?
  {
    var s1 := Apply(s, Read(later));
    OneStep(s1, Load, []);
    OneStep(s, Read(later), [Load]);
  }

  lemma {:induction false} RunsJoin(s: State, a: seq<Step>, b: seq<Step>)
    requires ValidRun(s, a) && ValidRun(After(s, a), b)
    ensures ValidRun(s, a + b) && After(s, a + b) == After(After(s, a), b)
    decreases |a|
  {
    if a == [] {
      assert a + b == b;
    } else {
      RunsJoin(Apply(s, a[0]), a[1..], b);
      assert a + b == [a[0]] + (a[1..] + b);
      OneStep(s, a[0], a[1..] + b);
    }
  }

  /** Bytes of the shell that are held back entirely when the injection fails are overtaken by whatever comes next. */
  lemma LaterOvertakesHeld(s: State, id: nat, held: seq<byte>, later: seq<byte>)
    requires s.control.Idle? && s.bridge.Polling? && s.tail == []
    requires held != [] && later != [] && ScanWhole(s.marker, held) == Scan([], held, None)
    ensures ValidRun(s, FailingRun(id, held, later))
    ensures var f := After(s, FailingRun(id, held, later));
            && f.shellOutput == s.shellOutput + held + later && f.frames == s.frames + [later] && f.tail == held
            && f.control.Idle? && f.bridge.Polling?
  {
    var front := [Begin(id), Read(held), Load, InjectFail];
    HeldWhenItFails(s, id, held);
    PassedStraightOn(After(s, front), later);
    RunsJoin(s, front, [Read(later), Load]);
    assert front + [Read(later), Load] == FailingRun(id, held, later);
  }

  /** One exec whose text could not be typed while an escape byte was held back: the next byte overtakes it. */
  lemma FailedInjectionReorders()
    ensures var run := FailingRun(1, [ESC], [65]);
            && ValidRun(INITIAL, run)
            && var s := After(INITIAL, run);
            s.shellOutput == [ESC, 65] && s.frames == [[65]] && s.tail == [ESC] && s.control.Idle? && s.bridge.Polling?
  {
    EscapeIsHeldBack();
    LaterOvertakesHeld(INITIAL, 1, [ESC], [65]);
    assert [] + [ESC] + [65] == [ESC, 65] && [] + [[65]] == [[65]];
  }

  lemma OneStep(s: State, step: Step, rest: seq<Step>)
    requires Enabled(s, step) && ValidRun(Apply(s, step), rest)
    ensures ValidRun(s, [step] + rest) && After(s, [step] + rest) == After(Apply(s, step), rest)
  {
    assert ([step] + rest)[1..] == rest;
  }

  lemma EscapeIsHeldBack()
    ensures ScanWhole(EXIT_MARKER, [ESC]) == Scan([], [ESC], None)
  {
    var prefix := EXIT_MARKER.prefix;
    assert Search.FindSubsequence([ESC], prefix).None?;
    assert prefix[..1] == [ESC];
    assert Search.EndsWithPrefix([ESC], prefix, 1);
    Search.KeepIsLongest([ESC], prefix, 1);
  }
}
