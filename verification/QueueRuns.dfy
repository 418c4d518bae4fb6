/**
 What the queue's machine does with what happens to it: which chunks a run pushes, told from the run alone, and
 each operation run without interruption against the operation of the class.
 */
module QueueRuns {
  import opened Basics
  import opened OutputQueue

  // ---------------------------------------------------------------------------
  // The chunks that a run pushes
  // ---------------------------------------------------------------------------

  /** The queue is closed after these steps: the last close came after the last reset. */
  predicate ClosedBy(run: seq<Step>) {
    run != [] &&
    match run[|run| - 1]
    case CloseStore(_) => true
    case Reset => false
    case _ => ClosedBy(run[..|run| - 1])
  }

  /** What a thread is in the middle of: a push that found the queue open, or a notification still to be given. */
  datatype Doing = Nothing | Pushing(chunk: Chunk) | Owing

  function DoingBy(run: seq<Step>, t: nat): Doing {
    if run == [] then Nothing
    else
      var front := run[..|run| - 1];
      match run[|run| - 1]
      case PushCheck(u, chunk) => if u == t && !ClosedBy(front) then Pushing(chunk) else DoingBy(front, t)
      case PushLocked(u) => if u == t then Owing else DoingBy(front, t)
      case CloseStore(u) => if u == t then Owing else DoingBy(front, t)
      case Notify(u) => if u == t then Nothing else DoingBy(front, t)
      case _ => DoingBy(front, t)
  }

  /** The chunks of the pushes that found the queue open, in the order in which they took the lock. */
  function PushedBy(run: seq<Step>): seq<Chunk> {
    if run == [] then []
    else
      var front, last := run[..|run| - 1], run[|run| - 1];
      if last.PushLocked? && DoingBy(front, last.thread).Pushing? then PushedBy(front) + [DoingBy(front, last.thread).chunk]
      else PushedBy(front)
  }

  function DoingOf(s: State, t: nat): Doing {
    if t !in s.callers then Nothing
    else match s.callers[t] case Admitted(chunk) => Pushing(chunk) case Notifying => Owing
  }

  /** The state holds what the run tells. */
  ghost predicate Tells(s: State, run: seq<Step>) {
    && s.closed == ClosedBy(run)
    && s.pushed == PushedBy(run)
    && forall t: nat :: DoingOf(s, t) == DoingBy(run, t)
  }

  lemma StepTells(s: State, run: seq<Step>, step: Step)
    requires Tells(s, run) && Enabled(s, step)
    ensures Tells(Apply(s, step), run + [step])
  {
    var more, next := run + [step], Apply(s, step);
    assert more[..|run|] == run && more[|run|] == step;
    forall t: nat ensures DoingOf(next, t) == DoingBy(more, t) {
      assert DoingOf(s, t) == DoingBy(run, t);
    }
    if step.PushLocked? {
      assert DoingOf(s, step.thread) == DoingBy(run, step.thread);
    }
  }

  lemma MoveOver<T>(before: seq<T>, run: seq<T>)
    requires run != []
    ensures before + [run[0]] + run[1..] == before + run
  {
  }

  lemma {:induction false} RunTells(s: State, before: seq<Step>, run: seq<Step>)
    requires Tells(s, before) && ValidRun(s, run)
    ensures Tells(After(s, run), before + run)
    decreases |run|
  {
    if run == [] {
      assert before + [] == before;
    } else {
      StepTells(s, before, run[0]);
      RunTells(Apply(s, run[0]), before + [run[0]], run[1..]);
      MoveOver(before, run);
    }
  }

  /**
   Over every run: the queue is closed exactly if the last close came after the last reset, each thread is where
   its own steps have left it, and what was pushed are the chunks of the pushes that found the queue open, in the
   order in which they took the lock.
   */
  lemma PushesFollowRun(run: seq<Step>)
    requires ValidRun(INITIAL, run)
    ensures var s := After(INITIAL, run);
            && s.closed == ClosedBy(run) && s.pushed == PushedBy(run)
            && forall t: nat :: DoingOf(s, t) == DoingBy(run, t)
  {
    RunTells(INITIAL, [], run);
    assert [] + run == run;
  }

  // ---------------------------------------------------------------------------
  // Each operation without interruption
  // ---------------------------------------------------------------------------

  lemma OneStep(s: State, step: Step, rest: seq<Step>)
    requires Enabled(s, step) && ValidRun(Apply(s, step), rest)
    ensures ValidRun(s, [step] + rest) && After(s, [step] + rest) == After(Apply(s, step), rest)
  {
    assert ([step] + rest)[1..] == rest;
  }

  lemma TwoSteps(s: State, a: Step, b: Step)
    requires Enabled(s, a) && Enabled(Apply(s, a), b)
    ensures ValidRun(s, [a, b]) && After(s, [a, b]) == Apply(Apply(s, a), b)
  {
    OneStep(Apply(s, a), b, []);
    OneStep(s, a, [b]);
    assert [a] + [b] == [a, b];
  }

  lemma ThreeSteps(s: State, a: Step, b: Step, c: Step)
    requires Enabled(s, a) && Enabled(Apply(s, a), b) && Enabled(Apply(Apply(s, a), b), c)
    ensures ValidRun(s, [a, b, c]) && After(s, [a, b, c]) == Apply(Apply(Apply(s, a), b), c)
  {
    TwoSteps(Apply(s, a), b, c);
    OneStep(s, a, [b, c]);
    assert [a] + [b, c] == [a, b, c];
  }

  /** A notification wakes a parked poller, and is kept for later otherwise. */
  ghost predicate Notified(s: State, t: State) {
    if s.poller.Parked? then t.poller.Looking? && t.permit == s.permit else t.poller == s.poller && t.permit
  }

  /** push on an open queue: the oldest of 64 chunks makes room, the new one is the last, and a poller is notified. */
  lemma PushOnOpen(s: State, t: nat, chunk: Chunk)
    requires t !in s.callers && !s.closed
    ensures var run := [PushCheck(t, chunk), PushLocked(t), Notify(t)];
            && ValidRun(s, run)
            && var f := After(s, run);
            && f.queue == (if |s.queue| >= 64 then s.queue[1..] else s.queue) + [chunk]
            && !f.closed && Notified(s, f) && f.callers == s.callers && f.polled == s.polled && f.pushed == s.pushed + [chunk]
  {
    ThreeSteps(s, PushCheck(t, chunk), PushLocked(t), Notify(t));
    assert s.callers[t := Admitted(chunk)][t := Notifying] - {t} == s.callers;
  }

  /** push on a closed queue changes nothing. */
  lemma PushOnClosed(s: State, t: nat, chunk: Chunk)
    requires t !in s.callers && s.closed
    ensures ValidRun(s, [PushCheck(t, chunk)]) && After(s, [PushCheck(t, chunk)]) == s
  {
    assert [PushCheck(t, chunk)][1..] == [];
  }

  /** One pass of poll: the oldest chunk, closed or not; else the end if closed; else the poller is about to wait. */
  lemma PollPass(s: State)
    requires s.poller.Outside?
    ensures ValidRun(s, [PollCall, Look])
    ensures var f := After(s, [PollCall, Look]);
            && f.closed == s.closed && f.permit == s.permit && f.callers == s.callers && f.pushed == s.pushed
            && (s.queue != [] ==> s.queue == [f.polled[|s.polled|]] + f.queue && f.polled == s.polled + [s.queue[0]] && f.poller.Outside?)
            && (s.queue == [] ==> f == s.(poller := if s.closed then Outside else Deciding))
  {
    TwoSteps(s, PollCall, Look);
  }

  /** Waiting: a permit kept is used up at once; without one the poller parks. */
  lemma Waiting(s: State)
    requires s.poller.Deciding?
    ensures Enabled(s, Wait)
    ensures Apply(s, Wait) == if s.permit then s.(permit := false, poller := Looking) else s.(poller := Parked)
  {
  }

  /** close: the flag, and a notification; what is queued stays. */
  lemma CloseAtOnce(s: State, t: nat)
    requires t !in s.callers
    ensures ValidRun(s, [CloseStore(t), Notify(t)])
    ensures var f := After(s, [CloseStore(t), Notify(t)]);
            && f.closed && Notified(s, f) && f.queue == s.queue && f.callers == s.callers && f.polled == s.polled && f.pushed == s.pushed
  {
    TwoSteps(s, CloseStore(t), Notify(t));
    assert s.callers[t := Notifying] - {t} == s.callers;
  }

  /** reset: open and empty, and nothing else. */
  lemma ResetAtOnce(s: State)
    ensures Enabled(s, Reset)
    ensures var f := Apply(s, Reset);
            && f.queue == [] && !f.closed && f.permit == s.permit && f.poller == s.poller && f.callers == s.callers
            && f.polled == s.polled && f.pushed == s.pushed
  {
  }

  /** The machine starts as the class does. */
  method StartBoth() returns (q: TerminalOutputQueue)
    ensures fresh(q) && q.data == INITIAL.queue && q.closed == INITIAL.closed && q.permit == INITIAL.permit
    ensures AtRest(INITIAL)
  {
    q := new TerminalOutputQueue();
  }

  /** The class pushes as the machine does. */
  method PushBoth(q: TerminalOutputQueue, s: State, t: nat, chunk: Chunk) returns (ghost run: seq<Step>)
    requires t !in s.callers && s.queue == q.data && s.closed == q.closed && s.permit == q.permit && !s.poller.Parked?
    modifies q
    ensures run == if s.closed then [PushCheck(t, chunk)] else [PushCheck(t, chunk), PushLocked(t), Notify(t)]
    ensures ValidRun(s, run)
    ensures var f := After(s, run); f.queue == q.data && f.closed == q.closed && f.permit == q.permit
  {
    q.Push(chunk);
    if s.closed {
      run := [PushCheck(t, chunk)];
      PushOnClosed(s, t, chunk);
    } else {
      run := [PushCheck(t, chunk), PushLocked(t), Notify(t)];
      PushOnOpen(s, t, chunk);
    }
  }

  // ---------------------------------------------------------------------------
  // A run that shows everything
  // ---------------------------------------------------------------------------

  /** Each chunk is pushed and then polled. */
  function Alternating(chunks: seq<Chunk>): seq<Step> {
    if chunks == [] then []
    else [PushCheck(0, chunks[0]), PushLocked(0), Notify(0)] + ([PollCall, Look] + Alternating(chunks[1..]))
  }

  lemma {:induction false} RunsJoin(s: State, a: seq<Step>, b: seq<Step>)
    requires ValidRun(s, a) && ValidRun(After(s, a), b)
    ensures ValidRun(s, a + b) && After(s, a + b) == After(After(s, a), b)
    decreases |a|
  {
    if a == [] {
      assert a + b == b;
    } else {
      RunsJoin(Apply(s, a[0]), a[1..], b);
      assert (a + b)[1..] == a[1..] + b && (a + b)[0] == a[0];
    }
  }

  /** Nobody is in the queue, and nothing is queued. */
  ghost predicate AtRest(s: State) {
    s.queue == [] && !s.closed && s.poller.Outside? && s.callers == map[]
  }

  lemma PushThenPoll(s: State, chunk: Chunk)
    requires AtRest(s)
    ensures ValidRun(s, [PushCheck(0, chunk), PushLocked(0), Notify(0)] + [PollCall, Look])
    ensures var t := After(s, [PushCheck(0, chunk), PushLocked(0), Notify(0)] + [PollCall, Look]);
            AtRest(t) && t.pushed == s.pushed + [chunk] && t.polled == s.polled + [chunk]
  {
    PushOnOpen(s, 0, chunk);
    assert [] + [chunk] == [chunk];
    PollPass(After(s, [PushCheck(0, chunk), PushLocked(0), Notify(0)]));
    RunsJoin(s, [PushCheck(0, chunk), PushLocked(0), Notify(0)], [PollCall, Look]);
  }

  /** Pushed and polled in turn, every chunk is polled. */
  lemma {:induction false} AllPolledInTurn(s: State, chunks: seq<Chunk>)
    requires AtRest(s)
    ensures ValidRun(s, Alternating(chunks))
    ensures var t := After(s, Alternating(chunks));
            AtRest(t) && t.pushed == s.pushed + chunks && t.polled == s.polled + chunks
    decreases |chunks|
  {
    if chunks == [] {
      assert s.pushed + [] == s.pushed && s.polled + [] == s.polled;
    } else {
      var first := [PushCheck(0, chunks[0]), PushLocked(0), Notify(0)] + [PollCall, Look];
      PushThenPoll(s, chunks[0]);
      AllPolledInTurn(After(s, first), chunks[1..]);
      RunsJoin(s, first, Alternating(chunks[1..]));
      AppendAssoc([PushCheck(0, chunks[0]), PushLocked(0), Notify(0)], [PollCall, Look], Alternating(chunks[1..]));
      assert s.pushed + [chunks[0]] + chunks[1..] == s.pushed + chunks && s.polled + [chunks[0]] + chunks[1..] == s.polled + chunks;
    }
  }
}
