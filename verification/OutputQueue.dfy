/**
 The bounded queue between the terminal reader and the polling frontend, with its notify/park protocol.
 The operations are broken at the points where other threads can run in between.
 */
module OutputQueue {
  import opened Basics

  type Chunk = seq<byte>

  /** TERMINAL_QUEUE_CAPACITY */
  const CAPACITY: nat := 64

  /** The locked part of a push: make room by dropping the oldest chunk, then append. */
  function Enqueue(queue: seq<Chunk>, chunk: Chunk): (r: seq<Chunk>)
    ensures |queue| <= CAPACITY ==> 0 < |r| <= CAPACITY
  {
    (if |queue| >= CAPACITY then queue[1..] else queue) + [chunk]
  }

  /** The queue with its close flag and the stored permit of its notifier, run without interruption. */
  class TerminalOutputQueue {
    var data: seq<Chunk>
    var closed: bool
    var permit: bool

    constructor ()
      ensures data == [] && !closed && !permit
    {
      data, closed, permit := [], false, false;
    }

    method Push(bytes: Chunk)
      modifies this
      ensures closed == old(closed)
      ensures data == if old(closed) then old(data) else Enqueue(old(data), bytes)
      ensures permit == (old(permit) || !old(closed))
    {
      if closed { return; }
      if |data| >= CAPACITY {
        data := data[1..];
      }
      data := data + [bytes];
      permit := true;
    }

    /** One pass of the poll loop: a chunk, the end of a closed queue, or a need to wait. */
    method TryPoll() returns (chunk: Option<Chunk>, ended: bool)
      modifies this`data
      ensures chunk.Some? <==> old(data) != []
      ensures chunk.Some? ==> old(data) == [chunk.value] + data && !ended
      ensures chunk.None? ==> data == old(data) && ended == closed
    {
      if data != [] {
        chunk, ended := Some(data[0]), false;
        data := data[1..];
      } else {
        chunk, ended := None, closed;
      }
    }

    method Close()
      modifies this
      ensures closed && permit && data == old(data)
    {
      closed, permit := true, true;
    }

    method Reset()
      modifies this
      ensures data == [] && !closed && permit == old(permit)
    {
      data, closed := [], false;
    }
  }

  // ---------------------------------------------------------------------------
  // All interleavings of pushers, closers and one poller
  // ---------------------------------------------------------------------------

  datatype Poller =
    | Outside
    | Looking        // about to take the lock and look
    | Deciding       // saw an open, empty queue; has not begun to wait
    | Parked         // waiting for a notification

  /** A pusher or closer between two of its steps; a thread that is not listed is outside. */
  datatype Caller = Admitted(chunk: Chunk) | Notifying

  datatype Fate = Polled | Dropped | Cleared

  /** `pushed` and `fates` are the history: what was ever queued and what became of those that left. */
  datatype State = State(
    queue: seq<Chunk>, closed: bool, permit: bool,
    poller: Poller, callers: map<nat, Caller>,
    pushed: seq<Chunk>, fates: seq<Fate>, polled: seq<Chunk>)

  const INITIAL: State := State([], false, false, Outside, map[], [], [], [])

  datatype Step =
    | PollCall | Look | Wait
    | PushCheck(thread: nat, chunk: Chunk) | PushLocked(thread: nat)
    | CloseStore(thread: nat) | Notify(thread: nat)
    | Reset

  predicate Enabled(s: State, step: Step) {
    match step
    case PollCall => s.poller.Outside?
    case Look => s.poller.Looking?
    case Wait => s.poller.Deciding?
    case PushCheck(t, _) => t !in s.callers
    case PushLocked(t) => t in s.callers && s.callers[t].Admitted?
    case CloseStore(t) => t !in s.callers
    case Notify(t) => t in s.callers && s.callers[t].Notifying?
    case Reset => true
  }

  function Apply(s: State, step: Step): State
    requires Enabled(s, step)
  {
    match step
    case PollCall => s.(poller := Looking)
    case Look =>
      if s.queue != [] then
        s.(poller := Outside, queue := s.queue[1..], polled := s.polled + [s.queue[0]], fates := s.fates + [Polled])
      else s.(poller := if s.closed then Outside else Deciding)
    case Wait => if s.permit then s.(permit := false, poller := Looking) else s.(poller := Parked)
    case PushCheck(t, chunk) => if s.closed then s else s.(callers := s.callers[t := Admitted(chunk)])
    case PushLocked(t) =>
      var chunk := s.callers[t].chunk;
      s.(queue := Enqueue(s.queue, chunk), pushed := s.pushed + [chunk],
         fates := s.fates + (if |s.queue| >= CAPACITY then [Dropped] else []),
         callers := s.callers[t := Notifying])
    case CloseStore(t) => s.(closed := true, callers := s.callers[t := Notifying])
    case Notify(t) =>
      var done := s.(callers := s.callers - {t});
      if s.poller.Parked? then done.(poller := Looking) else done.(permit := true)
    case Reset => s.(queue := [], closed := false, fates := s.fates + seq(|s.queue|, _ => Cleared))
  }

  predicate ValidRun(s: State, run: seq<Step>)
    decreases |run|
  {
    run == [] || (Enabled(s, run[0]) && ValidRun(Apply(s, run[0]), run[1..]))
  }

  function After(s: State, run: seq<Step>): State
    requires ValidRun(s, run)
    decreases |run|
  {
    if run == [] then s else After(Apply(s, run[0]), run[1..])
  }

  // ---------------------------------------------------------------------------
  // First in, first out
  // ---------------------------------------------------------------------------

  /** The chunks whose fate was to be polled, in the order they were pushed. */
  function Survivors(pushed: seq<Chunk>, fates: seq<Fate>): seq<Chunk>
    requires |fates| <= |pushed|
  {
    if fates == [] then []
    else
      var last := |fates| - 1;
      Survivors(pushed, fates[..last]) + (if fates[last].Polled? then [pushed[last]] else [])
  }

  lemma {:induction false} SurvivorsOfMore(pushed: seq<Chunk>, more: seq<Chunk>, fates: seq<Fate>)
    requires |fates| <= |pushed|
    ensures Survivors(pushed + more, fates) == Survivors(pushed, fates)
    decreases |fates|
  {
    if fates != [] {
      SurvivorsOfMore(pushed, more, fates[..|fates| - 1]);
    }
  }

  lemma SurvivorsSnoc(pushed: seq<Chunk>, fates: seq<Fate>, fate: Fate)
    requires |fates| < |pushed|
    ensures Survivors(pushed, fates + [fate])
         == Survivors(pushed, fates) + (if fate.Polled? then [pushed[|fates|]] else [])
  {
    assert (fates + [fate])[..|fates|] == fates;
  }

  lemma {:induction false} SurvivorsWithoutPolled(pushed: seq<Chunk>, fates: seq<Fate>, n: nat)
    requires |fates| + n <= |pushed|
    ensures Survivors(pushed, fates + seq(n, _ => Cleared)) == Survivors(pushed, fates)
    decreases n
  {
    if n == 0 {
      assert fates + seq(0, _ => Cleared) == fates;
    } else {
      assert fates + seq(n, _ => Cleared) == (fates + seq(n - 1, _ => Cleared)) + [Cleared];
      SurvivorsSnoc(pushed, fates + seq(n - 1, _ => Cleared), Cleared);
      SurvivorsWithoutPolled(pushed, fates, n - 1);
    }
  }

  /** The queue is what was pushed and has no fate yet; what left it left from the front. */
  ghost predicate Fifo(s: State) {
    && |s.queue| <= CAPACITY
    && |s.fates| <= |s.pushed|
    && s.queue == s.pushed[|s.fates|..]
    && s.polled == Survivors(s.pushed, s.fates)
  }

  lemma LookKeepsFifo(s: State)
    requires Fifo(s) && s.poller.Looking?
    ensures Fifo(Apply(s, Look))
  {
    if s.queue != [] {
      SurvivorsSnoc(s.pushed, s.fates, Polled);
      assert s.queue[0] == s.pushed[|s.fates|];
    }
  }

  lemma PushKeepsFifo(s: State, t: nat)
    requires Fifo(s) && Enabled(s, PushLocked(t))
    ensures Fifo(Apply(s, PushLocked(t)))
  {
    var chunk := s.callers[t].chunk;
    EnqueueIsRest(s.pushed, |s.fates|, s.queue, chunk);
    DropIsNoSurvivor(s.pushed, s.fates, chunk, |s.queue| >= CAPACITY);
  }

  lemma EnqueueIsRest(pushed: seq<Chunk>, n: nat, queue: seq<Chunk>, chunk: Chunk)
    requires n <= |pushed| && queue == pushed[n..]
    ensures Enqueue(queue, chunk) == (pushed + [chunk])[n + (if |queue| >= CAPACITY then 1 else 0)..]
  {
  }

  lemma DropIsNoSurvivor(pushed: seq<Chunk>, fates: seq<Fate>, chunk: Chunk, full: bool)
    requires |fates| <= |pushed|
    ensures Survivors(pushed + [chunk], fates + if full then [Dropped] else []) == Survivors(pushed, fates)
  {
    SurvivorsOfMore(pushed, [chunk], fates);
    if full {
      SurvivorsSnoc(pushed + [chunk], fates, Dropped);
    } else {
      assert fates + [] == fates;
    }
  }

  lemma ResetKeepsFifo(s: State)
    requires Fifo(s)
    ensures Fifo(Apply(s, Reset))
  {
    SurvivorsWithoutPolled(s.pushed, s.fates, |s.queue|);
  }

  // ---------------------------------------------------------------------------
  // No lost wake-up
  // ---------------------------------------------------------------------------

  ghost predicate SomeoneNotifies(s: State) {
    exists t | t in s.callers :: s.callers[t].Notifying?
  }

  /** There is something for a poller to come back for. */
  ghost predicate Ready(s: State) {
    s.queue != [] || s.closed
  }

  ghost predicate NoLostWakeUp(s: State) {
    && (s.poller.Parked? ==> !s.permit)
    && (s.poller.Parked? && Ready(s) ==> SomeoneNotifies(s))
    && (s.poller.Deciding? && Ready(s) ==> s.permit || SomeoneNotifies(s))
  }

  lemma OtherNotifierStays(s: State, callers: map<nat, Caller>)
    requires SomeoneNotifies(s)
    requires forall t | t in s.callers && s.callers[t].Notifying? :: t in callers && callers[t].Notifying?
    ensures SomeoneNotifies(s.(callers := callers))
  {
    var t :| t in s.callers && s.callers[t].Notifying?;
    assert t in callers;
  }

  lemma StepKeepsWakeUp(s: State, step: Step)
    requires NoLostWakeUp(s) && Enabled(s, step)
    ensures NoLostWakeUp(Apply(s, step))
  {
    var next := Apply(s, step);
    match step
    case PushCheck(t, chunk) =>
      if SomeoneNotifies(s) {
        OtherNotifierStays(s, next.callers);
      }
    case PushLocked(t) => assert next.callers[t].Notifying?;
    case CloseStore(t) => assert next.callers[t].Notifying?;
    case PollCall | Look | Wait | Notify(_) | Reset =>
  }

  ghost predicate Inv(s: State) {
    Fifo(s) && NoLostWakeUp(s)
  }

  lemma StepKeepsInv(s: State, step: Step)
    requires Inv(s) && Enabled(s, step)
    ensures Inv(Apply(s, step))
  {
    StepKeepsWakeUp(s, step);
    match step
    case Look => LookKeepsFifo(s);
    case PushLocked(t) => PushKeepsFifo(s, t);
    case Reset => ResetKeepsFifo(s);
    case PollCall | Wait | PushCheck(_, _) | CloseStore(_) | Notify(_) =>
  }

  lemma {:induction false} RunKeepsInv(s: State, run: seq<Step>)
    requires Inv(s) && ValidRun(s, run)
    ensures Inv(After(s, run))
    decreases |run|
  {
    if run != [] {
      StepKeepsInv(s, run[0]);
      RunKeepsInv(Apply(s, run[0]), run[1..]);
    }
  }

  /**
   Over every interleaving: the queue is bounded, what was polled is an in-order selection of what was
   pushed, what is queued is exactly the newest part of it, and a parked poller with something to come
   back for always has a notification on its way that makes it look again.
   */
  lemma QueueIsBoundedFifoAndWakes(run: seq<Step>)
    requires ValidRun(INITIAL, run)
    ensures var s := After(INITIAL, run);
            && |s.queue| <= 64
            && |s.fates| + |s.queue| == |s.pushed|
            && s.queue == s.pushed[|s.fates|..]
            && s.polled == Survivors(s.pushed, s.fates)
            && (s.poller.Parked? && (s.queue != [] || s.closed) ==>
                  exists t :: Enabled(s, Notify(t)) && Apply(s, Notify(t)).poller.Looking?)
            && (s.poller.Deciding? && (s.queue != [] || s.closed) ==>
                  Apply(s, Wait).poller.Looking? || exists t :: Enabled(s, Notify(t)))
  {
    RunKeepsInv(INITIAL, run);
    var s := After(INITIAL, run);
    if (s.poller.Parked? || s.poller.Deciding?) && SomeoneNotifies(s) {
      var t :| t in s.callers && s.callers[t].Notifying?;
      assert Enabled(s, Notify(t));
    }
  }

  // ---------------------------------------------------------------------------
  // When nothing is lost
  // ---------------------------------------------------------------------------

  /** Some push of the run finds the queue full, or a reset finds it non-empty. */
  ghost predicate Overflows(s: State, run: seq<Step>)
    requires ValidRun(s, run)
    decreases |run|
  {
    run != [] &&
    (|| (run[0].PushLocked? && |s.queue| >= CAPACITY)
     || (run[0].Reset? && s.queue != [])
     || Overflows(Apply(s, run[0]), run[1..]))
  }

  ghost predicate AllPolled(fates: seq<Fate>) {
    forall i | 0 <= i < |fates| :: fates[i].Polled?
  }

  lemma StepLoses(s: State, step: Step)
    requires Enabled(s, step) && AllPolled(s.fates)
    ensures AllPolled(Apply(s, step).fates) <==>
            !(step.PushLocked? && |s.queue| >= CAPACITY) && !(step.Reset? && s.queue != [])
  {
    var next := Apply(s, step).fates;
    if (step.PushLocked? && |s.queue| >= CAPACITY) || (step.Reset? && s.queue != []) {
      assert !next[|s.fates|].Polled?;
    }
  }

  lemma {:induction false} LossIsForever(s: State, run: seq<Step>)
    requires ValidRun(s, run) && !AllPolled(s.fates)
    ensures !AllPolled(After(s, run).fates)
    decreases |run|
  {
    if run != [] {
      var i :| 0 <= i < |s.fates| && !s.fates[i].Polled?;
      assert Apply(s, run[0]).fates[i] == s.fates[i];
      LossIsForever(Apply(s, run[0]), run[1..]);
    }
  }

  /** Every chunk that left the queue was polled, exactly when no push found it full and no reset found it non-empty. */
  lemma {:induction false} NothingLostIff(s: State, run: seq<Step>)
    requires ValidRun(s, run) && AllPolled(s.fates)
    ensures AllPolled(After(s, run).fates) <==> !Overflows(s, run)
    decreases |run|
  {
    if run != [] {
      StepLoses(s, run[0]);
      var next := Apply(s, run[0]);
      if AllPolled(next.fates) {
        NothingLostIff(next, run[1..]);
      } else {
        LossIsForever(next, run[1..]);
      }
    }
  }

  lemma {:induction false} AllPolledSurvive(pushed: seq<Chunk>, fates: seq<Fate>)
    requires |fates| <= |pushed| && AllPolled(fates)
    ensures Survivors(pushed, fates) == pushed[..|fates|]
    decreases |fates|
  {
    if fates != [] {
      AllPolledSurvive(pushed, fates[..|fates| - 1]);
    }
  }

  /** Without overflow, the polled chunks followed by the queued ones are all the pushed ones, in order. */
  lemma LosslessWithoutOverflow(run: seq<Step>)
    requires ValidRun(INITIAL, run) && !Overflows(INITIAL, run)
    ensures var s := After(INITIAL, run); s.polled + s.queue == s.pushed
  {
    RunKeepsInv(INITIAL, run);
    NothingLostIff(INITIAL, run);
    var s := After(INITIAL, run);
    AllPolledSurvive(s.pushed, s.fates);
  }
}
