/**
 Detecting the guest's listening ports by polling, and mirroring them on the host through open and close events.
 */
module PortMirror {
  import opened Basics

  /** A line of /proc/net/tcp or tcp6 that parses; `listening` is state 0A. */
  datatype Socket = Socket(port: nat, inode: nat, listening: bool)

  datatype Process = Process(pid: nat, name: string)

  datatype Event = Opened(port: nat, process: Process) | Closed(port: nat)

  const HIDDEN_PORT: nat := 10443

  predicate Shown(s: Socket) {
    s.listening && s.port != HIDDEN_PORT
  }

  function Listening(table: seq<Socket>): seq<Socket> {
    Filter(table, s => Shown(s))
  }

  // ---------------------------------------------------------------------------
  // The guest
  // ---------------------------------------------------------------------------

  /** The first socket of each port. */
  function FirstByPort(sockets: seq<Socket>): map<nat, Socket> {
    if sockets == [] then map[]
    else
      var front := FirstByPort(sockets[..|sockets| - 1]);
      var last := sockets[|sockets| - 1];
      if last.port in front then front else front[last.port := last]
  }

  /** dedup_ports: tcp and tcp6 may report the same port. */
  method DedupPorts(sockets: seq<Socket>) returns (seen: map<nat, Socket>)
    ensures seen == FirstByPort(sockets)
  {
    seen := map[];
    for i := 0 to |sockets|
      invariant seen == FirstByPort(sockets[..i])
    {
      assert sockets[..i + 1][..i] == sockets[..i];
      if sockets[i].port !in seen {
        seen := seen[sockets[i].port := sockets[i]];
      }
    }
    assert sockets[..|sockets|] == sockets;
  }

  lemma {:induction false} FirstByPortIsFirst(sockets: seq<Socket>, p: nat)
    ensures p in FirstByPort(sockets) <==> exists i :: 0 <= i < |sockets| && sockets[i].port == p
    ensures p in FirstByPort(sockets) ==>
              exists i :: && 0 <= i < |sockets| && sockets[i] == FirstByPort(sockets)[p] && sockets[i].port == p
                          && forall j | 0 <= j < i :: sockets[j].port != p
    decreases |sockets|
  {
    if sockets != [] {
      var n := |sockets| - 1;
      FirstByPortIsFirst(sockets[..n], p);
      assert forall i | 0 <= i < n :: sockets[..n][i] == sockets[i];
      assert sockets[n].port == p ==> exists i :: 0 <= i < |sockets| && sockets[i].port == p;
    }
  }

  /** The ports known after a poll that found `current`: a port keeps the process found when it appeared. */
  function Known(before: map<nat, Process>, current: map<nat, Socket>, resolve: Socket -> Process): map<nat, Process> {
    map p | p in current :: if p in before then before[p] else resolve(current[p])
  }

  /** The events lead from one set of ports to the other, opening only new ports and closing only open ones. */
  predicate Leads(before: map<nat, Process>, events: seq<Event>, after: map<nat, Process>)
    decreases |events|
  {
    if events == [] then before == after
    else
      match events[0]
      case Opened(p, process) => p !in before && Leads(before[p := process], events[1..], after)
      case Closed(p) => p in before && Leads(before - {p}, events[1..], after)
  }

  lemma {:induction false} LeadsAppend(a: map<nat, Process>, x: seq<Event>, b: map<nat, Process>, y: seq<Event>, c: map<nat, Process>)
    requires Leads(a, x, b) && Leads(b, y, c)
    ensures Leads(a, x + y, c)
    decreases |x|
  {
    if x == [] {
      assert x + y == y;
    } else {
      assert (x + y)[0] == x[0] && (x + y)[1..] == x[1..] + y;
      match x[0]
      case Opened(p, process) => LeadsAppend(a[p := process], x[1..], b, y, c);
      case Closed(p) => LeadsAppend(a - {p}, x[1..], b, y, c);
    }
  }

  lemma LeadsOne(a: map<nat, Process>, x: seq<Event>, b: map<nat, Process>, e: Event)
    requires Leads(a, x, b) && (if e.Opened? then e.port !in b else e.port in b)
    ensures Leads(a, x + [e], if e.Opened? then b[e.port := e.process] else b - {e.port})
  {
    var c := if e.Opened? then b[e.port := e.process] else b - {e.port};
    assert Leads(c, [e][1..], c);
    LeadsAppend(a, x, b, [e], c);
  }

  predicate EachPortOnce(events: seq<Event>) {
    forall i, j | 0 <= i < j < |events| :: events[i].port != events[j].port
  }

  /** What the watcher knows after going through listed ports, and the events that it sends. */
  function OpenAll(known: map<nat, Process>, list: seq<nat>, current: map<nat, Socket>, resolve: Socket -> Process): map<nat, Process>
    requires forall p | p in list :: p in current
  {
    if list == [] then known
    else
      var front, p := OpenAll(known, list[..|list| - 1], current, resolve), list[|list| - 1];
      if p in front then front else front[p := resolve(current[p])]
  }

  function Openings(known: map<nat, Process>, list: seq<nat>, current: map<nat, Socket>, resolve: Socket -> Process): seq<Event>
    requires forall p | p in list :: p in current
  {
    if list == [] then []
    else
      var front, p := Openings(known, list[..|list| - 1], current, resolve), list[|list| - 1];
      if p in OpenAll(known, list[..|list| - 1], current, resolve) then front else front + [Opened(p, resolve(current[p]))]
  }

  function CloseAll(known: map<nat, Process>, list: seq<nat>): map<nat, Process> {
    if list == [] then known else CloseAll(known, list[..|list| - 1]) - {list[|list| - 1]}
  }

  function Closings(list: seq<nat>): (events: seq<Event>)
    ensures |events| == |list| && forall i | 0 <= i < |list| :: events[i] == Closed(list[i])
  {
    seq(|list|, i requires 0 <= i < |list| => Closed(list[i]))
  }

  lemma {:induction false} OpenAllIs(known: map<nat, Process>, list: seq<nat>, current: map<nat, Socket>, resolve: Socket -> Process)
    requires forall p | p in list :: p in current
    ensures var after := OpenAll(known, list, current, resolve);
            && (forall p :: p in after <==> p in known || p in list)
            && (forall p | p in after :: after[p] == if p in known then known[p] else resolve(current[p]))
            && Leads(known, Openings(known, list, current, resolve), after)
    decreases |list|
  {
    if list != [] {
      var n := |list| - 1;
      OpenAllIs(known, list[..n], current, resolve);
      assert list == list[..n] + [list[n]];
      var front, p := OpenAll(known, list[..n], current, resolve), list[n];
      if p !in front {
        LeadsOne(known, Openings(known, list[..n], current, resolve), front, Opened(p, resolve(current[p])));
      }
    }
  }

  ghost predicate AreOpenings(events: seq<Event>, known: map<nat, Process>, list: seq<nat>) {
    EachPortOnce(events) && forall i | 0 <= i < |events| :: events[i].Opened? && events[i].port !in known && events[i].port in list
  }

  lemma NewOpening(events: seq<Event>, known: map<nat, Process>, list: seq<nat>, port: nat, process: Process)
    requires AreOpenings(events, known, list) && port !in known && port !in list
    ensures AreOpenings(events + [Opened(port, process)], known, list + [port])
  {
  }

  lemma {:induction false} OpeningsAreNew(known: map<nat, Process>, list: seq<nat>, current: map<nat, Socket>, resolve: Socket -> Process)
    requires forall p | p in list :: p in current
    ensures AreOpenings(Openings(known, list, current, resolve), known, list)
    decreases |list|
  {
    if list != [] {
      var n := |list| - 1;
      OpeningsAreNew(known, list[..n], current, resolve);
      OpenAllIs(known, list[..n], current, resolve);
      assert list == list[..n] + [list[n]];
      if list[n] !in known && list[n] !in list[..n] {
        NewOpening(Openings(known, list[..n], current, resolve), known, list[..n], list[n], resolve(current[list[n]]));
      }
    }
  }

  lemma {:induction false} CloseAllIs(known: map<nat, Process>, list: seq<nat>)
    requires (forall p | p in list :: p in known) && forall i, j | 0 <= i < j < |list| :: list[i] != list[j]
    ensures Leads(known, Closings(list), CloseAll(known, list))
    ensures forall p :: p in CloseAll(known, list) <==> p in known && p !in list
    ensures forall p | p in CloseAll(known, list) :: CloseAll(known, list)[p] == known[p]
    decreases |list|
  {
    if list != [] {
      var n := |list| - 1;
      CloseAllIs(known, list[..n]);
      assert list == list[..n] + [list[n]];
      assert Closings(list) == Closings(list[..n]) + [Closed(list[n])];
      LeadsOne(known, Closings(list[..n]), CloseAll(known, list[..n]), Closed(list[n]));
    }
  }

  /** A round opens what is new and closes what is gone. */
  lemma RoundIs(before: map<nat, Process>, current: map<nat, Socket>, resolve: Socket -> Process, open: seq<nat>, gone: seq<nat>)
    requires forall p :: p in open <==> p in current
    requires forall p :: p in gone <==> p in OpenAll(before, open, current, resolve) && p !in current
    requires forall i, j | 0 <= i < j < |gone| :: gone[i] != gone[j]
    ensures var events := Openings(before, open, current, resolve) + Closings(gone);
            && Leads(before, events, Known(before, current, resolve))
            && CloseAll(OpenAll(before, open, current, resolve), gone) == Known(before, current, resolve)
            && EachPortOnce(events)
            && forall i | 0 <= i < |events| :: events[i].port in before <==> events[i].Closed?
  {
    OpenAllIs(before, open, current, resolve);
    OpeningsAreNew(before, open, current, resolve);
    var middle := OpenAll(before, open, current, resolve);
    CloseAllIs(middle, gone);
    KnownIs(before, current, resolve, CloseAll(middle, gone));
    LeadsAppend(before, Openings(before, open, current, resolve), middle, Closings(gone), Known(before, current, resolve));
    EventsOfRound(before, current, Openings(before, open, current, resolve), gone);
  }

  lemma KnownIs(before: map<nat, Process>, current: map<nat, Socket>, resolve: Socket -> Process, m: map<nat, Process>)
    requires forall p :: p in m <==> p in current
    requires forall p | p in m :: m[p] == if p in before then before[p] else resolve(current[p])
    ensures m == Known(before, current, resolve)
  {
  }

  lemma EventsOfRound(before: map<nat, Process>, current: map<nat, Socket>, openings: seq<Event>, gone: seq<nat>)
    requires EachPortOnce(openings)
    requires forall i | 0 <= i < |openings| :: openings[i].Opened? && openings[i].port !in before && openings[i].port in current
    requires forall i | 0 <= i < |gone| :: gone[i] in before && gone[i] !in current
    requires forall i, j | 0 <= i < j < |gone| :: gone[i] != gone[j]
    ensures EachPortOnce(openings + Closings(gone))
    ensures forall i | 0 <= i < |openings + Closings(gone)| ::
              (openings + Closings(gone))[i].port in before <==> (openings + Closings(gone))[i].Closed?
  {
  }

  /** The watcher's state and one round of its loop. */
  class Watcher {
    var known: map<nat, Process>

    constructor ()
      ensures known == map[]
    {
      known := map[];
    }

    /** The keys of a map, in any order. */
    method Listed(ports: set<nat>) returns (list: seq<nat>)
      ensures forall p :: p in list <==> p in ports
      ensures forall i, j | 0 <= i < j < |list| :: list[i] != list[j]
    {
      list := [];
      var rest := ports;
      while rest != {}
        invariant rest <= ports && forall p :: p in list <==> p in ports - rest
        invariant forall i, j | 0 <= i < j < |list| :: list[i] != list[j]
        decreases |rest|
      {
        var p :| p in rest;
        assert p !in list;
        list := list + [p];
        rest := rest - {p};
      }
    }

    method Poll(tcp: seq<Socket>, tcp6: seq<Socket>, resolve: Socket -> Process) returns (events: seq<Event>)
      modifies this
      ensures known == Known(old(known), FirstByPort(Listening(tcp) + Listening(tcp6)), resolve)
      ensures Leads(old(known), events, known) && EachPortOnce(events)
      ensures forall i | 0 <= i < |events| :: events[i].port in old(known) <==> events[i].Closed?
    {
      var current := DedupPorts(Listening(tcp) + Listening(tcp6));
      var open := Listed(current.Keys);
      var openings := DetectOpened(open, current, resolve);
      var gone := Listed(known.Keys - current.Keys);
      RoundIs(old(known), current, resolve, open, gone);
      var closings := DetectClosed(gone);
      events := openings + closings;
    }

    method DetectOpened(open: seq<nat>, current: map<nat, Socket>, resolve: Socket -> Process) returns (events: seq<Event>)
      requires forall p | p in open :: p in current
      modifies this
      ensures known == OpenAll(old(known), open, current, resolve)
      ensures events == Openings(old(known), open, current, resolve)
    {
      events := [];
      for i := 0 to |open|
        invariant known == OpenAll(old(known), open[..i], current, resolve)
        invariant events == Openings(old(known), open[..i], current, resolve)
      {
        assert open[..i + 1][..i] == open[..i];
        var p := open[i];
        assert p in open;
        if p !in known {
          events := events + [Opened(p, resolve(current[p]))];
          known := known[p := resolve(current[p])];
        }
      }
      assert open[..|open|] == open;
    }

    /** Each of the ports is sent as closed and forgotten. */
    method DetectClosed(gone: seq<nat>) returns (events: seq<Event>)
      modifies this
      ensures known == CloseAll(old(known), gone) && events == Closings(gone)
    {
      events := [];
      for i := 0 to |gone|
        invariant known == CloseAll(old(known), gone[..i]) && events == Closings(gone[..i])
      {
        assert gone[..i + 1][..i] == gone[..i];
        events := events + [Closed(gone[i])];
        known := known - {gone[i]};
      }
      assert gone[..|gone|] == gone;
    }
  }

  // ---------------------------------------------------------------------------
  // The host
  // ---------------------------------------------------------------------------

  datatype Detected = Detected(port: nat, process: Process, at: nat)

  predicate Holds(detected: seq<Detected>, port: nat) {
    exists i :: 0 <= i < |detected| && detected[i].port == port
  }

  /** The list without the entries of a port. */
  function Without(detected: seq<Detected>, port: nat): seq<Detected> {
    if detected == [] then []
    else
      var front := Without(detected[..|detected| - 1], port);
      var last := detected[|detected| - 1];
      if last.port != port then front + [last] else front
  }

  function React(detected: seq<Detected>, e: Event, now: nat): seq<Detected> {
    match e
    case Opened(port, process) => if Holds(detected, port) then detected else detected + [Detected(port, process, now)]
    case Closed(port) => Without(detected, port)
  }

  /** The host's list of detected ports; closing a port also ends its forwarding. */
  class PortState {
    var detected: seq<Detected>
    var forwarded: set<nat>

    constructor ()
      ensures detected == [] && forwarded == {}
    {
      detected, forwarded := [], {};
    }

    method OnEvent(e: Event, now: nat)
      modifies this
      ensures detected == React(old(detected), e, now)
      ensures forwarded == if e.Closed? then old(forwarded) - {e.port} else old(forwarded)
    {
      match e
      case Opened(port, process) =>
        if !(exists i :: 0 <= i < |detected| && detected[i].port == port) {
          detected := detected + [Detected(port, process, now)];
        }
      case Closed(port) =>
        var kept: seq<Detected> := [];
        for i := 0 to |detected|
          invariant detected == old(detected) && kept == Without(detected[..i], port)
        {
          assert detected[..i + 1][..i] == detected[..i];
          if detected[i].port != port {
            kept := kept + [detected[i]];
          }
        }
        assert detected[..|detected|] == detected;
        detected := kept;
        forwarded := forwarded - {port};
    }
  }

  /** The list as a map, when no port stands in it twice. */
  function AsMap(detected: seq<Detected>): map<nat, Process> {
    if detected == [] then map[]
    else
      var last := detected[|detected| - 1];
      AsMap(detected[..|detected| - 1])[last.port := last.process]
  }

  /** The host's list has each port once, and holds exactly these ports with these processes. */
  ghost predicate Mirrors(detected: seq<Detected>, known: map<nat, Process>) {
    && Distinct(detected)
    && AsMap(detected) == known
  }

  lemma {:induction false} AsMapHolds(detected: seq<Detected>, port: nat)
    ensures port in AsMap(detected) <==> Holds(detected, port)
    decreases |detected|
  {
    if detected != [] {
      var n := |detected| - 1;
      AsMapHolds(detected[..n], port);
      assert forall i | 0 <= i < n :: detected[..n][i] == detected[i];
      assert detected[n].port == port ==> Holds(detected, port);
      assert Holds(detected, port) && detected[n].port != port ==> Holds(detected[..n], port);
    }
  }

  lemma RemoveThenAdd(m: map<nat, Process>, port: nat, p: nat, process: Process)
    ensures p != port ==> (m - {port})[p := process] == m[p := process] - {port}
    ensures p == port ==> m - {port} == m[p := process] - {port}
  {
  }

  lemma {:induction false} AsMapWithout(detected: seq<Detected>, port: nat)
    ensures AsMap(Without(detected, port)) == AsMap(detected) - {port}
    decreases |detected|
  {
    if detected != [] {
      var front, last := detected[..|detected| - 1], detected[|detected| - 1];
      AsMapWithout(front, port);
      RemoveThenAdd(AsMap(front), port, last.port, last.process);
      var kept := Without(front, port);
      assert (kept + [last])[..|kept|] == kept;
    }
  }

  ghost predicate Distinct(detected: seq<Detected>) {
    forall i, j | 0 <= i < j < |detected| :: detected[i].port != detected[j].port
  }

  lemma {:induction false} WithoutKeepsDistinct(detected: seq<Detected>, port: nat)
    requires Distinct(detected)
    ensures Distinct(Without(detected, port))
    ensures forall i | 0 <= i < |Without(detected, port)| :: Holds(detected, Without(detected, port)[i].port)
    decreases |detected|
  {
    if detected != [] {
      var n := |detected| - 1;
      var front := detected[..n];
      WithoutKeepsDistinct(front, port);
      forall p | Holds(front, p) ensures Holds(detected, p) && p != detected[n].port {
        var i :| 0 <= i < |front| && front[i].port == p;
        assert detected[i].port == p;
      }
      assert Holds(detected, detected[n].port);
    }
  }

  lemma ReactKeepsDistinct(detected: seq<Detected>, e: Event, now: nat)
    requires Distinct(detected)
    ensures Distinct(React(detected, e, now))
  {
    if e.Closed? {
      WithoutKeepsDistinct(detected, e.port);
    } else if !Holds(detected, e.port) {
      var more := detected + [Detected(e.port, e.process, now)];
      forall i, j | 0 <= i < j < |more| ensures more[i].port != more[j].port {
        assert more[i] == detected[i];
      }
    }
  }

  /** One event keeps the mirror. */
  lemma MirrorsNext(detected: seq<Detected>, known: map<nat, Process>, e: Event, now: nat)
    requires Mirrors(detected, known) && (if e.Opened? then e.port !in known else e.port in known)
    ensures Mirrors(React(detected, e, now), if e.Opened? then known[e.port := e.process] else known - {e.port})
  {
    AsMapHolds(detected, e.port);
    ReactKeepsDistinct(detected, e, now);
    if e.Opened? {
      var d := Detected(e.port, e.process, now);
      assert (detected + [d])[..|detected|] == detected;
    } else {
      AsMapWithout(detected, e.port);
    }
  }

  /** The list after events that arrive at the given times. */
  function ReactAll(detected: seq<Detected>, events: seq<Event>, times: seq<nat>): seq<Detected>
    requires |times| == |events|
    decreases |events|
  {
    if events == [] then detected else ReactAll(React(detected, events[0], times[0]), events[1..], times[1..])
  }

  lemma {:induction false} EventsKeepMirror(detected: seq<Detected>, known: map<nat, Process>,
                                            events: seq<Event>, times: seq<nat>, after: map<nat, Process>)
    requires |times| == |events| && Mirrors(detected, known) && Leads(known, events, after)
    ensures Mirrors(ReactAll(detected, events, times), after)
    decreases |events|
  {
    if events != [] {
      var e := events[0];
      MirrorsNext(detected, known, e, times[0]);
      var next := if e.Opened? then known[e.port := e.process] else known - {e.port};
      EventsKeepMirror(React(detected, e, times[0]), next, events[1..], times[1..], after);
    }
  }

  // ---------------------------------------------------------------------------
  // Any number of polls
  // ---------------------------------------------------------------------------

  /** A round of the watcher as its contract describes it. */
  datatype Round = Round(tcp: seq<Socket>, tcp6: seq<Socket>, resolve: Socket -> Process, events: seq<Event>)

  ghost predicate IsRound(before: map<nat, Process>, r: Round, after: map<nat, Process>) {
    && after == Known(before, FirstByPort(Listening(r.tcp) + Listening(r.tcp6)), r.resolve)
    && Leads(before, r.events, after)
  }

  ghost predicate AreRounds(states: seq<map<nat, Process>>, rounds: seq<Round>) {
    && |states| == |rounds| + 1 && states[0] == map[]
    && forall i | 0 <= i < |rounds| :: IsRound(states[i], rounds[i], states[i + 1])
  }

  function EventsOf(rounds: seq<Round>): seq<Event> {
    if rounds == [] then [] else EventsOf(rounds[..|rounds| - 1]) + rounds[|rounds| - 1].events
  }

  lemma {:induction false} RoundsLead(states: seq<map<nat, Process>>, rounds: seq<Round>)
    requires AreRounds(states, rounds)
    ensures Leads(map[], EventsOf(rounds), states[|rounds|])
    decreases |rounds|
  {
    if rounds != [] {
      var n := |rounds| - 1;
      RoundsLead(states[..|rounds|], rounds[..n]);
      assert IsRound(states[n], rounds[n], states[n + 1]);
      LeadsAppend(map[], EventsOf(rounds[..n]), states[n], rounds[n].events, states[n + 1]);
    }
  }

  /** Some line of the table is a listening socket of the port, which is not the hidden one. */
  ghost predicate ListensOn(table: seq<Socket>, port: nat) {
    port != 10443 && exists i | 0 <= i < |table| :: table[i].listening && table[i].port == port
  }

  lemma {:induction false} ListeningIff(table: seq<Socket>, p: nat)
    ensures (exists i | 0 <= i < |Listening(table)| :: Listening(table)[i].port == p) <==> ListensOn(table, p)
    decreases |table|
  {
    if table != [] {
      ListeningIff(table[1..], p);
      var rest := Listening(table[1..]);
      assert Listening(table) == (if Shown(table[0]) then [table[0]] else []) + rest;
      assert Shown(table[0]) ==> Listening(table)[1..] == rest && Listening(table)[0] == table[0];
      assert !Shown(table[0]) ==> Listening(table) == rest;
      assert forall i | 1 <= i < |table| :: table[i] == table[1..][i - 1];
      assert forall i | 0 <= i < |table| - 1 :: table[1..][i] == table[i + 1];
      assert Shown(table[0]) ==> forall i | 0 <= i < |rest| :: rest[i] == Listening(table)[i + 1];
    }
  }

  lemma ListeningIn(tcp: seq<Socket>, tcp6: seq<Socket>, p: nat)
    ensures (exists i :: 0 <= i < |Listening(tcp) + Listening(tcp6)| && (Listening(tcp) + Listening(tcp6))[i].port == p) <==>
            ListensOn(tcp, p) || ListensOn(tcp6, p)
  {
    ListeningIff(tcp, p);
    ListeningIff(tcp6, p);
    var a, b := Listening(tcp), Listening(tcp6);
    if ListensOn(tcp, p) {
      var i :| 0 <= i < |a| && a[i].port == p;
      assert (a + b)[i].port == p;
    }
    if ListensOn(tcp6, p) {
      var i :| 0 <= i < |b| && b[i].port == p;
      assert (a + b)[|a| + i].port == p;
    }
    if i :| 0 <= i < |a + b| && (a + b)[i].port == p {
      assert (a + b)[i] == if i < |a| then a[i] else b[i - |a|];
    }
  }

  /** After any number of polls whose events have arrived the host lists what listens in the guest. */
  lemma MirrorAfterPolls(states: seq<map<nat, Process>>, rounds: seq<Round>, times: seq<nat>, p: nat)
    requires AreRounds(states, rounds) && rounds != [] && |times| == |EventsOf(rounds)|
    ensures var detected, last := ReactAll([], EventsOf(rounds), times), rounds[|rounds| - 1];
            && Mirrors(detected, states[|rounds|])
            && (Holds(detected, p) <==> ListensOn(last.tcp, p) || ListensOn(last.tcp6, p))
  {
    RoundsLead(states, rounds);
    assert Mirrors([], map[]);
    EventsKeepMirror([], map[], EventsOf(rounds), times, states[|rounds|]);
    var n := |rounds| - 1;
    assert IsRound(states[n], rounds[n], states[n + 1]);
    FirstByPortIsFirst(Listening(rounds[n].tcp) + Listening(rounds[n].tcp6), p);
    ListeningIn(rounds[n].tcp, rounds[n].tcp6, p);
    AsMapHolds(ReactAll([], EventsOf(rounds), times), p);
  }

  /** Whatever events have arrived, and even if some were lost, no port is listed twice. */
  lemma NeverListedTwice(events: seq<Event>, times: seq<nat>)
    requires |times| == |events|
    ensures Distinct(ReactAll([], events, times))
  {
    StaysDistinct([], events, times);
  }

  lemma {:induction false} StaysDistinct(detected: seq<Detected>, events: seq<Event>, times: seq<nat>)
    requires |times| == |events| && Distinct(detected)
    ensures Distinct(ReactAll(detected, events, times))
    decreases |events|
  {
    if events != [] {
      ReactKeepsDistinct(detected, events[0], times[0]);
      StaysDistinct(React(detected, events[0], times[0]), events[1..], times[1..]);
    }
  }
}
