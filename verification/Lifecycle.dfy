/**
 The host's state machine for the life of a VM, and the messages it lets through in each state.
 */
module Lifecycle {
  datatype HostState = Created | Booting | VsockConnected | Handshaking | Running | ShuttingDown | Stopped | Error

  function ValidTransitions(s: HostState): set<HostState> {
    match s
    case Created => {Booting, Error}
    case Booting => {VsockConnected, Error, Stopped}
    case VsockConnected => {Handshaking, Error, Stopped}
    case Handshaking => {Running, Error, Stopped}
    case Running => {ShuttingDown, Error, Stopped}
    case ShuttingDown => {Stopped, Error}
    case Stopped => {}
    case Error => {Stopped}
  }

  datatype Transition<S> = Transition(from: S, to: S, trigger: string, durationInFrom: int)

  /** A machine with its past: the history is all that happened since `start`. */
  datatype Log<S> = Log(current: S, enteredAt: int, history: seq<Transition<S>>)

  function Move<S>(log: Log<S>, to: S, trigger: string, now: int): Log<S> {
    Log(to, now, log.history + [Transition(log.current, to, trigger, now - log.enteredAt)])
  }

  /** The generic machine with validated transitions and timing history. */
  class StateMachine<S(==)> {
    const valid: S -> set<S>
    var current: S
    var enteredAt: int
    var history: seq<Transition<S>>

    function State(): Log<S>
      reads this
    {
      Log(current, enteredAt, history)
    }

    constructor (initial: S, valid: S -> set<S>, now: int)
      ensures State() == Log(initial, now, []) && this.valid == valid
    {
      this.valid, current, enteredAt, history := valid, initial, now, [];
    }

    method Transit(to: S, trigger: string, now: int) returns (ok: bool)
      modifies this
      ensures ok <==> to in valid(old(current))
      ensures State() == if ok then Move(old(State()), to, trigger, now) else old(State())
    {
      if to !in valid(current) {
        return false;
      }
      history := history + [Transition(current, to, trigger, now - enteredAt)];
      current, enteredAt := to, now;
      ok := true;
    }
  }

  // ---------------------------------------------------------------------------
  // Messages
  // ---------------------------------------------------------------------------

  /** Messages by kind; the validators look at nothing else. */
  datatype HostMessage = BootConfig | SetEnv | BootConfigDone | FileWrite | Shutdown | HostOther(kind: nat)

  datatype GuestMessage = Ready | BootReady | GuestOther(kind: nat)

  predicate ValidHostMessage(m: HostMessage, s: HostState) {
    if m.BootConfig? || m.SetEnv? || m.BootConfigDone? then s.Handshaking?
    else if m.FileWrite? && s.Handshaking? then true
    else if m.Shutdown? then true
    else s.Running?
  }

  predicate ValidGuestMessage(m: GuestMessage, s: HostState) {
    if m.Ready? then s.VsockConnected?
    else if m.BootReady? then s.Handshaking?
    else s.Running?
  }

  /** All the transitions there are. */
  lemma TransitionIsValidIff(from: HostState, to: HostState)
    ensures to in ValidTransitions(from) <==>
            || (to == Error && from != Stopped && from != Error)
            || (to == Stopped && from != Created && from != Stopped)
            || (from, to) in {(Created, Booting), (Booting, VsockConnected), (VsockConnected, Handshaking),
                              (Handshaking, Running), (Running, ShuttingDown)}
  {
  }

  /** The one state in which each kind of guest message is let through. */
  lemma GuestMessageIsValidIff(m: GuestMessage, s: HostState)
    ensures ValidGuestMessage(m, s) <==>
            match m case Ready => s == VsockConnected case BootReady => s == Handshaking case GuestOther(_) => s == Running
  {
  }

  /** The states in which each kind of host message is let through. */
  lemma HostMessageIsValidIff(m: HostMessage, s: HostState)
    ensures ValidHostMessage(m, s) <==>
            match m
            case BootConfig | SetEnv | BootConfigDone => s == Handshaking
            case FileWrite => s == Handshaking || s == Running
            case Shutdown => true
            case HostOther(_) => s == Running
  {
  }

  // ---------------------------------------------------------------------------
  // Runs
  // ---------------------------------------------------------------------------

  /** Whatever happens to the host: attempts to change state, and messages either way, in any order. */
  datatype Event =
    | Attempt(to: HostState, trigger: string, now: int)
    | FromGuest(guest: GuestMessage)
    | ToGuest(host: HostMessage)

  function After(start: int, run: seq<Event>): Log<HostState> {
    if run == [] then Log(Created, start, [])
    else
      var front := After(start, run[..|run| - 1]);
      var last := run[|run| - 1];
      if last.Attempt? && last.to in ValidTransitions(front.current) then Move(front, last.to, last.trigger, last.now)
      else front
  }

  function AcceptedFromGuest(start: int, run: seq<Event>): seq<GuestMessage> {
    if run == [] then []
    else
      var front := AcceptedFromGuest(start, run[..|run| - 1]);
      var last := run[|run| - 1];
      if last.FromGuest? && ValidGuestMessage(last.guest, After(start, run[..|run| - 1]).current) then front + [last.guest]
      else front
  }

  function AcceptedToGuest(start: int, run: seq<Event>): seq<HostMessage> {
    if run == [] then []
    else
      var front := AcceptedToGuest(start, run[..|run| - 1]);
      var last := run[|run| - 1];
      if last.ToGuest? && ValidHostMessage(last.host, After(start, run[..|run| - 1]).current) then front + [last.host]
      else front
  }

  // ---------------------------------------------------------------------------
  // Every history
  // ---------------------------------------------------------------------------

  /** How far a VM's life has come. */
  function Rank(s: HostState): nat {
    match s
    case Created => 0
    case Booting => 1
    case VsockConnected => 2
    case Handshaking => 3
    case Running => 4
    case ShuttingDown => 5
    case Error => 6
    case Stopped => 7
  }

  function TotalDuration(history: seq<Transition<HostState>>): int {
    if history == [] then 0
    else TotalDuration(history[..|history| - 1]) + history[|history| - 1].durationInFrom
  }

  /** A valid transition out of the state that the one before led to. */
  predicate IsLink(h: seq<Transition<HostState>>, i: nat)
    requires i < |h|
  {
    h[i].to in ValidTransitions(h[i].from) && h[i].from == (if i == 0 then Created else h[i - 1].to)
  }

  /** An unbroken chain of valid transitions from `Created` to the current state, which accounts for all the time. */
  ghost predicate IsHistory(start: int, log: Log<HostState>) {
    var h := log.history;
    && (forall i | 0 <= i < |h| :: IsLink(h, i))
    && log.current == (if h == [] then Created else h[|h| - 1].to)
    && TotalDuration(h) == log.enteredAt - start
  }

  lemma ChainGrows(start: int, log: Log<HostState>, to: HostState, trigger: string, now: int)
    requires IsHistory(start, log) && to in ValidTransitions(log.current)
    ensures IsHistory(start, Move(log, to, trigger, now))
  {
    var t := Transition(log.current, to, trigger, now - log.enteredAt);
    LinksGrow(log.history, t);
    assert (log.history + [t])[..|log.history|] == log.history;
  }

  lemma LinksGrow(h: seq<Transition<HostState>>, t: Transition<HostState>)
    requires forall i | 0 <= i < |h| :: IsLink(h, i)
    requires t.to in ValidTransitions(t.from) && t.from == (if h == [] then Created else h[|h| - 1].to)
    ensures forall i | 0 <= i < |h + [t]| :: IsLink(h + [t], i)
  {
    var more := h + [t];
    forall i | 0 <= i < |more| ensures IsLink(more, i) {
      if i < |h| {
        assert IsLink(h, i) && more[i] == h[i];
      }
      if i > 0 {
        assert more[i - 1] == h[i - 1];
      }
    }
  }

  lemma {:induction false} HistoryIsAChain(start: int, run: seq<Event>)
    ensures IsHistory(start, After(start, run))
    decreases |run|
  {
    if run != [] {
      HistoryIsAChain(start, run[..|run| - 1]);
      var front, last := After(start, run[..|run| - 1]), run[|run| - 1];
      if last.Attempt? && last.to in ValidTransitions(front.current) {
        ChainGrows(start, front, last.to, last.trigger, last.now);
      }
    }
  }

  lemma {:induction false} RankRises(start: int, log: Log<HostState>, i: nat)
    requires IsHistory(start, log) && i < |log.history|
    ensures i + 1 <= Rank(log.history[i].to) && Rank(log.history[i].from) < Rank(log.history[i].to)
    decreases i
  {
    assert IsLink(log.history, i);
    if i > 0 {
      RankRises(start, log, i - 1);
    }
  }

  lemma {:induction false} RankRisesBetween(start: int, log: Log<HostState>, i: nat, j: nat)
    requires IsHistory(start, log) && i <= j < |log.history|
    ensures Rank(log.history[i].to) + (j - i) <= Rank(log.history[j].to)
    decreases j - i
  {
    if i < j {
      RankRisesBetween(start, log, i, j - 1);
      RankRises(start, log, j);
      assert IsLink(log.history, j);
    }
  }

  /** No run makes more than seven transitions, and no state is entered twice. */
  lemma AtMostSevenTransitions(start: int, run: seq<Event>)
    ensures var h := After(start, run).history;
            |h| <= 7 && forall i, j | 0 <= i < j < |h| :: h[i].to != h[j].to
  {
    HistoryIsAChain(start, run);
    var log := After(start, run);
    if log.history != [] {
      RankRises(start, log, |log.history| - 1);
    }
    forall i, j | 0 <= i < j < |log.history| ensures log.history[i].to != log.history[j].to {
      RankRisesBetween(start, log, i, j);
    }
  }

  const LONGEST_LIFE: seq<HostState> := [Booting, VsockConnected, Handshaking, Running, ShuttingDown, Error, Stopped]

  /** Seven transitions can happen. */
  lemma SevenTransitionsHappen() returns (run: seq<Event>)
    ensures |After(0, run).history| == 7
  {
    run := [];
    for i := 0 to 7
      invariant |run| == i && |After(0, run).history| == i
      invariant After(0, run).current == if i == 0 then Created else LONGEST_LIFE[i - 1]
    {
      var next := run + [Attempt(LONGEST_LIFE[i], "", 0)];
      assert next[..|run|] == run;
      run := next;
    }
  }

  /** The states that lead to Running, in the only order there is. */
  function WayToRunning(i: nat): HostState {
    match i
    case 0 => Created
    case 1 => Booting
    case 2 => VsockConnected
    case 3 => Handshaking
    case _ => Running
  }

  lemma {:induction false} OnlyOneWay(start: int, log: Log<HostState>, i: nat)
    requires IsHistory(start, log) && i < |log.history| && Rank(log.history[i].to) <= 4
    ensures log.history[i].to == WayToRunning(i + 1) && i < 4
    decreases i
  {
    assert IsLink(log.history, i);
    RankRises(start, log, i);
    if i > 0 {
      OnlyOneWay(start, log, i - 1);
    }
  }

  predicate FollowsWay(h: seq<Transition<HostState>>, i: nat)
    requires i < |h|
  {
    h[i].from == WayToRunning(i) && h[i].to == WayToRunning(i + 1)
  }

  /** A VM that is running, or ever was, came by Created, Booting, VsockConnected and Handshaking, each once. */
  lemma RunningIsReachedOneWay(start: int, run: seq<Event>, i: nat)
    requires var h := After(start, run).history; i < |h| && h[i].to.Running?
    ensures i == 3 && forall j | 0 <= j <= i :: FollowsWay(After(start, run).history, j)
  {
    HistoryIsAChain(start, run);
    WayUpTo(start, After(start, run), i);
  }

  lemma WayUpTo(start: int, log: Log<HostState>, i: nat)
    requires IsHistory(start, log) && i < |log.history| && log.history[i].to.Running?
    ensures i == 3 && forall j | 0 <= j <= i :: FollowsWay(log.history, j)
  {
    OnlyOneWay(start, log, i);
    forall j | 0 <= j <= i ensures FollowsWay(log.history, j) {
      WayAt(start, log, i, j);
    }
  }

  lemma WayAt(start: int, log: Log<HostState>, i: nat, j: nat)
    requires IsHistory(start, log) && j <= i < |log.history| && log.history[i].to.Running?
    ensures FollowsWay(log.history, j)
  {
    RankRisesBetween(start, log, j, i);
    OnlyOneWay(start, log, j);
    assert IsLink(log.history, j);
    if j > 0 {
      RankRisesBetween(start, log, j - 1, i);
      OnlyOneWay(start, log, j - 1);
    }
  }

  // ---------------------------------------------------------------------------
  // Every exchange of messages
  // ---------------------------------------------------------------------------

  /** The rank of the only state in which a guest message is accepted. */
  function Phase(m: GuestMessage): nat {
    match m
    case Ready => 2
    case BootReady => 3
    case GuestOther(_) => 4
  }

  lemma {:induction false} RankNeverFalls(start: int, run: seq<Event>, n: nat)
    requires n <= |run|
    ensures Rank(After(start, run[..n]).current) <= Rank(After(start, run).current)
    decreases |run|
  {
    if n == |run| {
      assert run[..n] == run;
    } else {
      RankNeverFalls(start, run[..|run| - 1], n);
      assert run[..|run| - 1][..n] == run[..n];
    }
  }

  /** The phases of the accepted messages never go back, nor past the state reached. */
  ghost predicate InPhases(got: seq<GuestMessage>, reached: nat) {
    && (forall i | 0 <= i < |got| :: Phase(got[i]) <= reached)
    && forall i, j | 0 <= i < j < |got| :: Phase(got[i]) <= Phase(got[j])
  }

  /** Of the guest's messages the host accepts first Ready, then BootReady, then the others, never going back. */
  lemma {:induction false} GuestMessagesKeepTheirPhases(start: int, run: seq<Event>)
    ensures InPhases(AcceptedFromGuest(start, run), Rank(After(start, run).current))
    decreases |run|
  {
    if run != [] {
      var n := |run| - 1;
      GuestMessagesKeepTheirPhases(start, run[..n]);
      RankNeverFalls(start, run, n);
      assert run[..n] == run[..|run| - 1];
    }
  }

  predicate IsConfig(m: HostMessage) {
    m.BootConfig? || m.SetEnv? || m.BootConfigDone?
  }

  ghost predicate ConfigFirst(sent: seq<HostMessage>, reached: nat) {
    && (forall i | 0 <= i < |sent| :: sent[i].HostOther? ==> reached >= 4)
    && forall i, j | 0 <= i < j < |sent| :: sent[i].HostOther? ==> !IsConfig(sent[j])
  }

  /** Configuration goes out only before anything that needs a running guest; files and shutdown may go with either. */
  lemma {:induction false} ConfigComesFirst(start: int, run: seq<Event>)
    ensures ConfigFirst(AcceptedToGuest(start, run), Rank(After(start, run).current))
    decreases |run|
  {
    if run != [] {
      var n := |run| - 1;
      ConfigComesFirst(start, run[..n]);
      RankNeverFalls(start, run, n);
      assert run[..n] == run[..|run| - 1];
    }
  }

  /** What is accepted from the guest besides the handshake comes after a completed handshake. */
  lemma {:induction false} NothingElseBeforeRunning(start: int, run: seq<Event>)
    requires exists m :: m in AcceptedFromGuest(start, run) && m.GuestOther?
    ensures exists i :: 0 <= i < |After(start, run).history| && After(start, run).history[i].to.Running?
    decreases |run|
  {
    if run != [] {
      var n := |run| - 1;
      var front, last := After(start, run[..n]), run[n];
      var before := AcceptedFromGuest(start, run[..n]);
      if last.FromGuest? && last.guest.GuestOther? && ValidGuestMessage(last.guest, front.current) {
        HistoryIsAChain(start, run[..n]);
        var h := front.history;
        assert h[|h| - 1].to.Running? && After(start, run).history == h;
      } else {
        var m :| m in AcceptedFromGuest(start, run) && m.GuestOther?;
        assert m in before;
        NothingElseBeforeRunning(start, run[..n]);
        var i :| 0 <= i < |front.history| && front.history[i].to.Running?;
        assert After(start, run).history[i] == front.history[i];
      }
    }
  }

  /** A stopped VM stays stopped, and nothing but a shutdown request is accepted any more. */
  lemma {:induction false} StoppedIsFinal(start: int, run: seq<Event>, n: nat)
    requires n <= |run| && After(start, run[..n]).current.Stopped?
    ensures After(start, run) == After(start, run[..n])
    ensures AcceptedFromGuest(start, run) == AcceptedFromGuest(start, run[..n])
    decreases |run|
  {
    if n == |run| {
      assert run[..n] == run;
    } else {
      assert run[..|run| - 1][..n] == run[..n];
      StoppedIsFinal(start, run[..|run| - 1], n);
    }
  }

  /** A file write is valid in the handshake and while running, a shutdown always, the rest in one state only. */
  lemma HostMessageStates(m: HostMessage)
    ensures (forall s :: ValidHostMessage(m, s)) <==> m.Shutdown?
    ensures (exists s, t :: s != t && ValidHostMessage(m, s) && ValidHostMessage(m, t)) <==> m.Shutdown? || m.FileWrite?
  {
    if m.FileWrite? {
      assert ValidHostMessage(m, Handshaking) && ValidHostMessage(m, Running);
    }
    if m.Shutdown? {
      assert ValidHostMessage(m, Created) && ValidHostMessage(m, Running);
    } else {
      assert !ValidHostMessage(m, Created);
    }
  }
}
