/**
 Downloading a guest file over the control channel: the guest's answer to one request, the host's
 reassembly keyed by request id, and what the requester gets over all runs with many transfers in flight.
 */
module Download {
  import opened Basics
  import opened Transport

  const FILE_CHUNK_SIZE: nat := 204_800
  const MAX_DOWNLOAD_SIZE: nat := 100 * 1024 * 1024

  datatype Message =
    | FileContent(data: seq<byte>)
    | FileChunk(offset: nat, data: seq<byte>, total: nat)
    | FileError

  function End(chunk: Message): nat
    requires chunk.FileChunk?
  {
    chunk.offset + |chunk.data|
  }

  // ---------------------------------------------------------------------------
  // The guest
  // ---------------------------------------------------------------------------

  /** What the guest finds at the requested path; `size` is taken before the file is read. */
  datatype Meta = PathRejected | Missing | NotAFile | Regular(size: nat)

  /** Non-empty chunks that cut the content from its start, each beginning where the one before ends. */
  ghost predicate Tiles(chunks: seq<Message>, content: seq<byte>, total: nat) {
    forall i | 0 <= i < |chunks| ::
      && chunks[i].FileChunk? && chunks[i].total == total
      && 0 < |chunks[i].data| <= FILE_CHUNK_SIZE
      && End(chunks[i]) <= |content|
      && chunks[i].data == content[chunks[i].offset..End(chunks[i])]
      && chunks[i].offset == Covered(chunks[..i])
  }

  /** Where the chunks so far end. */
  function Covered(chunks: seq<Message>): nat {
    if chunks == [] || !chunks[|chunks| - 1].FileChunk? then 0 else End(chunks[|chunks| - 1])
  }

  /** Every answer the guest may give, with reads that may come short or fail. */
  ghost predicate IsAnswer(meta: Meta, content: seq<byte>, msgs: seq<Message>) {
    if !meta.Regular? || meta.size > MAX_DOWNLOAD_SIZE then msgs == [FileError]
    else if meta.size <= FILE_CHUNK_SIZE then msgs == [FileError] || msgs == [FileContent(content)]
    else
      exists n: nat | n <= |msgs| :: IsChunkedAnswer(meta.size, content, msgs, n)
  }

  ghost predicate IsChunkedAnswer(size: nat, content: seq<byte>, msgs: seq<Message>, n: nat)
    requires n <= |msgs|
  {
    && Tiles(msgs[..n], content, size)
    && (msgs[n..] == [FileError] || (msgs[n..] == [] && Covered(msgs[..n]) == |content| == size))
  }

  /** The answer when the file can be opened and no read fails. */
  ghost predicate IsUndisturbedAnswer(size: nat, content: seq<byte>, msgs: seq<Message>) {
    if size > MAX_DOWNLOAD_SIZE then msgs == [FileError]
    else if size <= FILE_CHUNK_SIZE then msgs == [FileContent(content)]
    else
      exists n: nat | n <= |msgs| ::
        && Tiles(msgs[..n], content, size) && Covered(msgs[..n]) == |content|
        && msgs[n..] == if |content| == size then [] else [FileError]
  }

  lemma OneMoreTile(chunks: seq<Message>, content: seq<byte>, total: nat, chunk: Message)
    requires Tiles(chunks, content, total)
    requires chunk.FileChunk? && chunk.total == total && 0 < |chunk.data| <= FILE_CHUNK_SIZE
    requires chunk.offset == Covered(chunks) && End(chunk) <= |content|
    requires chunk.data == content[chunk.offset..End(chunk)]
    ensures Tiles(chunks + [chunk], content, total) && Covered(chunks + [chunk]) == End(chunk)
  {
    var more := chunks + [chunk];
    forall i | 0 <= i < |more| ensures more[i].FileChunk? && more[i].offset == Covered(more[..i]) {
      if i < |chunks| {
        assert more[..i] == chunks[..i];
      } else {
        assert more[..i] == chunks;
      }
    }
  }

  /** The chunk loop over a file whose size was `size` when it was looked at. */
  method ReadChunks(size: nat, file: Source) returns (chunks: seq<Message>, failed: bool)
    requires file.Valid() && file.pos == 0
    modifies file`pos, file`schedule
    ensures Tiles(chunks, file.content, size)
    ensures !failed ==> Covered(chunks) == |file.content|
    ensures Undisturbed(old(file.schedule)) ==> !failed
  {
    chunks, failed := [], false;
    var offset: nat := 0;
    while true
      invariant file.Valid() && offset == file.pos == Covered(chunks)
      invariant Tiles(chunks, file.content, size)
      invariant Undisturbed(old(file.schedule)) ==> Undisturbed(file.schedule)
      decreases |file.content| - offset
    {
      var reply, bytes := file.Read(FILE_CHUNK_SIZE);
      if !reply.Transfer? {
        return chunks, true;
      }
      if bytes == [] {
        return chunks, false;
      }
      var chunk := FileChunk(offset, bytes, size);
      OneMoreTile(chunks, file.content, size, chunk);
      chunks := chunks + [chunk];
      offset := offset + |bytes|;
    }
  }

  lemma ChunksThenVerdict(size: nat, content: seq<byte>, chunks: seq<Message>, last: seq<Message>)
    requires Tiles(chunks, content, size)
    requires last == [FileError] || (last == [] && Covered(chunks) == |content| == size)
    ensures exists n: nat | n <= |chunks + last| :: IsChunkedAnswer(size, content, chunks + last, n)
    ensures FILE_CHUNK_SIZE < size <= MAX_DOWNLOAD_SIZE && Covered(chunks) == |content| && (last == [] <==> |content| == size) ==>
              IsUndisturbedAnswer(size, content, chunks + last)
  {
    var msgs := chunks + last;
    assert msgs[..|chunks|] == chunks && msgs[|chunks|..] == last;
    assert IsChunkedAnswer(size, content, msgs, |chunks|);
  }

  /** The rest of a file; an interrupted call is tried again. */
  method ReadToEnd(file: Source) returns (r: Option<seq<byte>>)
    requires file.Valid() && file.pos == 0
    modifies file`pos, file`schedule
    ensures r.Some? ==> r.value == file.content
    ensures Faultless(old(file.schedule)) ==> r.Some?
  {
    var data: seq<byte> := [];
    while true
      invariant file.Valid() && data == file.content[..file.pos]
      invariant Faultless(old(file.schedule)) ==> Faultless(file.schedule)
      decreases |file.schedule|, |file.content| - file.pos
    {
      var reply, bytes := file.Read(FILE_CHUNK_SIZE);
      match reply
      case Transfer(_) =>
        if bytes == [] {
          assert file.content[..file.pos] == file.content;
          return Some(data);
        }
        data := data + bytes;
      case Interrupted =>
      case Fault =>
        return None;
    }
  }

  /** The FileRead arm of the control loop. */
  method AnswerFileRead(meta: Meta, opens: bool, file: Source) returns (msgs: seq<Message>)
    requires file.Valid() && file.pos == 0
    modifies file`pos, file`schedule
    ensures IsAnswer(meta, file.content, msgs)
    ensures meta.Regular? && opens && Undisturbed(old(file.schedule)) ==>
              IsUndisturbedAnswer(meta.size, file.content, msgs)
  {
    if !meta.Regular? || meta.size > MAX_DOWNLOAD_SIZE {
      return [FileError];
    }
    if meta.size <= FILE_CHUNK_SIZE {
      var data := None;
      if opens {
        data := ReadToEnd(file);
      }
      return [if data.Some? then FileContent(data.value) else FileError];
    }
    var chunks, failed := [], true;
    if opens {
      chunks, failed := ReadChunks(meta.size, file);
    }
    var last := if failed || Covered(chunks) != meta.size then [FileError] else [];
    ChunksThenVerdict(meta.size, file.content, chunks, last);
    msgs := chunks + last;
  }

  // ---------------------------------------------------------------------------
  // The host
  // ---------------------------------------------------------------------------

  datatype Partial = Partial(total: nat, data: seq<byte>)

  datatype Outcome = Received(data: seq<byte>) | Refused

  /** What happens to one request id. */
  datatype Event = Register | Deliver(message: Message) | Timeout

  /** All that the host holds about one id; `answers` is what went down the requester's channel. */
  datatype View = View(pending: bool, partial: Option<Partial>, answers: seq<Outcome>)

  const UNKNOWN: View := View(false, None, [])

  function Settle(v: View, outcome: Outcome): View {
    if v.pending then v.(pending := false, answers := v.answers + [outcome]) else v
  }

  function Accumulate(partial: Option<Partial>, chunk: Message): Partial
    requires chunk.FileChunk?
  {
    var p := if partial.Some? then partial.value else Partial(chunk.total, []);
    p.(data := p.data + chunk.data)
  }

  function React(v: View, event: Event): View {
    match event
    case Register => v.(pending := true)
    case Timeout => v.(pending := false)
    case Deliver(FileContent(data)) => Settle(v, Received(data))
    case Deliver(FileError) => Settle(v.(partial := None), Refused)
    case Deliver(FileChunk(offset, data, total)) =>
      var p := Accumulate(v.partial, FileChunk(offset, data, total));
      if offset + |data| >= total then Settle(v.(partial := None), Received(p.data))
      else v.(partial := Some(p))
  }

  /** The shared tables: the id counter, the waiting requesters, the partial files, and the answers given. */
  datatype State = State(next: nat, pending: set<nat>, partial: map<nat, Partial>, answers: map<nat, seq<Outcome>>)

  const INITIAL: State := State(1, {}, map[], map[])

  function ViewOf(s: State, id: nat): View {
    View(id in s.pending, if id in s.partial then Some(s.partial[id]) else None,
         if id in s.answers then s.answers[id] else [])
  }

  /** `after` is `before` with the view of one id replaced. */
  ghost predicate OnlyChanges(before: State, after: State, id: nat, v: View) {
    && ViewOf(after, id) == v
    && forall other | other != id :: ViewOf(after, other) == ViewOf(before, other)
  }

  /** The tables of the application state, changed one message at a time. */
  class Downloads {
    var next: nat
    var pending: set<nat>
    var partial: map<nat, Partial>
    var answers: map<nat, seq<Outcome>>

    function Tables(): State
      reads this
    {
      State(next, pending, partial, answers)
    }

    constructor ()
      ensures Tables() == INITIAL
    {
      next, pending, partial, answers := 1, {}, map[], map[];
    }

    /** download_file up to the request: a fresh id and its channel. */
    method RegisterRequest() returns (id: nat)
      modifies this
      ensures id == old(next) && next == id + 1
      ensures Steps(old(Tables()), Step(id, Register), Tables())
    {
      id := next;
      next := next + 1;
      pending := pending + {id};
    }

    method GiveUp(id: nat)
      modifies this`pending
      ensures Steps(old(Tables()), Step(id, Timeout), Tables())
    {
      pending := pending - {id};
    }

    method Answer(id: nat, outcome: Outcome)
      modifies this`pending, this`answers
      ensures OnlyChanges(old(Tables()), Tables(), id, Settle(old(ViewOf(Tables(), id)), outcome))
    {
      if id in pending {
        pending := pending - {id};
        answers := answers[id := (if id in answers then answers[id] else []) + [outcome]];
      }
    }

    /** The file arms of the control handler. */
    method OnMessage(id: nat, message: Message)
      modifies this
      ensures Steps(old(Tables()), Step(id, Deliver(message)), Tables())
    {
      match message
      case FileContent(data) =>
        Answer(id, Received(data));
      case FileError =>
        partial := partial - {id};
        Answer(id, Refused);
      case FileChunk(offset, data, total) =>
        var p := if id in partial then partial[id] else Partial(total, []);
        partial := partial[id := p.(data := p.data + data)];
        if offset + |data| >= total {
          var whole := partial[id].data;
          partial := partial - {id};
          Answer(id, Received(whole));
        }
    }
  }

  // ---------------------------------------------------------------------------
  // Runs
  // ---------------------------------------------------------------------------

  datatype Step = Step(id: nat, event: Event)

  /** One step of the host is one of the methods above: the id comes from the counter, the rest is per id. */
  ghost predicate Steps(before: State, step: Step, after: State) {
    && OnlyChanges(before, after, step.id, React(ViewOf(before, step.id), step.event))
    && (if step.event.Register? then step.id == before.next && after.next == before.next + 1 else after.next == before.next)
  }

  /** `states` are the tables before, between and after the steps of a run. */
  ghost predicate IsRun(states: seq<State>, run: seq<Step>) {
    && |states| == |run| + 1 && states[0] == INITIAL
    && forall i | 0 <= i < |run| :: Steps(states[i], run[i], states[i + 1])
  }

  /** The events of one id. */
  function EventsOf(run: seq<Step>, id: nat): seq<Event> {
    if run == [] then []
    else
      var front := EventsOf(run[..|run| - 1], id);
      var last := run[|run| - 1];
      if last.id == id then front + [last.event] else front
  }

  function ReactAll(events: seq<Event>): View {
    if events == [] then UNKNOWN else React(ReactAll(events[..|events| - 1]), events[|events| - 1])
  }

  function Messages(events: seq<Event>): seq<Message> {
    if events == [] then []
    else
      var front := Messages(events[..|events| - 1]);
      var last := events[|events| - 1];
      if last.Deliver? then front + [last.message] else front
  }

  /** Transfers do not interfere: what the host holds about an id depends on the events of that id alone. */
  lemma {:induction false} NonInterference(states: seq<State>, run: seq<Step>, id: nat)
    requires IsRun(states, run)
    ensures ViewOf(states[|run|], id) == ReactAll(EventsOf(run, id))
    decreases |run|
  {
    if run != [] {
      var n := |run| - 1;
      NonInterference(states[..|run|], run[..n], id);
      assert Steps(states[n], run[n], states[n + 1]);
      if run[n].id == id {
        var front := EventsOf(run[..n], id);
        assert (front + [run[n].event])[..|front|] == front;
      }
    }
  }

  /** No id is given out twice. */
  lemma {:induction false} IdsAreFresh(states: seq<State>, run: seq<Step>, i: nat, j: nat)
    requires IsRun(states, run) && i < j < |run|
    requires run[i].event.Register? && run[j].event.Register?
    ensures run[i].id < run[j].id
  {
    CounterGrows(states, run, i + 1, j);
    assert Steps(states[i], run[i], states[i + 1]) && Steps(states[j], run[j], states[j + 1]);
  }

  lemma {:induction false} CounterGrows(states: seq<State>, run: seq<Step>, i: nat, j: nat)
    requires IsRun(states, run) && i <= j <= |run|
    ensures states[i].next <= states[j].next
    decreases j - i
  {
    if i < j {
      CounterGrows(states, run, i, j - 1);
      assert Steps(states[j - 1], run[j - 1], states[j]);
    }
  }

  ghost predicate AtMostOneRegister(events: seq<Event>) {
    forall i, j | 0 <= i < j < |events| :: !(events[i].Register? && events[j].Register?)
  }

  lemma FirstRegister(front: seq<Event>, last: Event)
    requires AtMostOneRegister(front) && (last.Register? ==> Register !in front)
    ensures AtMostOneRegister(front + [last])
    ensures !last.Register? && Register !in front ==> Register !in front + [last]
  {
    var events := front + [last];
    forall i, j | 0 <= i < j < |events| ensures !(events[i].Register? && events[j].Register?) {
      assert events[i] == front[i];
      assert front[i] in front;
    }
  }

  /** The events of an id hold at most one registration. */
  lemma {:induction false} RegisteredOnce(states: seq<State>, run: seq<Step>, id: nat)
    requires IsRun(states, run)
    ensures states[|run|].next <= id ==> Register !in EventsOf(run, id)
    ensures AtMostOneRegister(EventsOf(run, id))
    decreases |run|
  {
    if run != [] {
      var n := |run| - 1;
      RegisteredOnce(states[..|run|], run[..n], id);
      assert Steps(states[n], run[n], states[n + 1]);
      if run[n].id == id {
        FirstRegister(EventsOf(run[..n], id), run[n].event);
      }
    }
  }

  // ---------------------------------------------------------------------------
  // What one requester gets
  // ---------------------------------------------------------------------------

  /** The message after which nothing is missing. */
  predicate Decides(m: Message) {
    m.FileChunk? ==> End(m) >= m.total
  }

  /** The position of the first deciding message. */
  function FirstDeciding(msgs: seq<Message>): (r: Option<nat>)
    ensures r.None? ==> forall m | m in msgs :: !Decides(m)
    ensures r.Some? ==> r.value < |msgs| && Decides(msgs[r.value]) && forall i | 0 <= i < r.value :: !Decides(msgs[i])
  {
    if msgs == [] then None
    else
      var last := |msgs| - 1;
      var front := FirstDeciding(msgs[..last]);
      if front.Some? then front else if Decides(msgs[last]) then Some(last) else None
  }

  predicate InContent(msgs: seq<Message>, content: seq<byte>) {
    forall i | 0 <= i < |msgs| :: msgs[i].FileChunk? ==> End(msgs[i]) <= |content|
  }

  /** What a deciding message tells the requester: a chunk completes the content up to its own end. */
  function OutcomeOf(m: Message, content: seq<byte>): Outcome
    requires m.FileChunk? ==> End(m) <= |content|
  {
    match m
    case FileContent(data) => Received(data)
    case FileError => Refused
    case FileChunk(offset, data, _) => Received(content[..offset + |data|])
  }

  /** The requester's answer as the first deciding message settles it. */
  function Verdict(msgs: seq<Message>, content: seq<byte>): seq<Outcome>
    requires InContent(msgs, content)
  {
    var first := FirstDeciding(msgs);
    if first.None? then [] else [OutcomeOf(msgs[first.value], content)]
  }

  /** The events before the requester gives up. */
  function BeforeTimeout(events: seq<Event>): (r: seq<Event>)
    ensures r <= events && Timeout !in r
    ensures r == events || events[|r|].Timeout?
  {
    if events == [] then []
    else
      var last := |events| - 1;
      var front := BeforeTimeout(events[..last]);
      if front == events[..last] && !events[last].Timeout? then events else front
  }

  /** The form all answers share. */
  ghost predicate WellFormed(answer: seq<Message>, content: seq<byte>, size: nat) {
    forall i | 0 <= i < |answer| :: WellFormedAt(answer, content, size, i)
  }

  ghost predicate WellFormedAt(answer: seq<Message>, content: seq<byte>, size: nat, i: nat)
    requires i < |answer|
  {
    match answer[i]
    case FileContent(data) => |answer| == 1 && data == content
    case FileError => i == |answer| - 1
    case FileChunk(offset, data, total) =>
      && total == size && offset + |data| <= |content| && data == content[offset..offset + |data|]
      && (if i == 0 then offset == 0 else answer[i - 1].FileChunk? && offset == End(answer[i - 1]))
  }

  lemma AnswersAreWellFormed(meta: Meta, content: seq<byte>, answer: seq<Message>)
    requires IsAnswer(meta, content, answer)
    ensures WellFormed(answer, content, if meta.Regular? then meta.size else 0)
  {
    if meta.Regular? && FILE_CHUNK_SIZE < meta.size <= MAX_DOWNLOAD_SIZE {
      var n: nat :| n <= |answer| && IsChunkedAnswer(meta.size, content, answer, n);
      ChunkedIsWellFormed(meta.size, content, answer, n);
    }
  }

  lemma ChunkedIsWellFormed(size: nat, content: seq<byte>, answer: seq<Message>, n: nat)
    requires n <= |answer| && IsChunkedAnswer(size, content, answer, n)
    ensures WellFormed(answer, content, size)
  {
    var chunks, rest := answer[..n], answer[n..];
    assert answer == chunks + rest;
    forall i | 0 <= i < |answer| ensures WellFormedAt(answer, content, size, i) {
      if i < n {
        assert answer[i] == chunks[i] && chunks[i].offset == Covered(chunks[..i]);
        if i > 0 {
          assert answer[i - 1] == chunks[i - 1] && chunks[..i][i - 1] == chunks[i - 1] && chunks[i - 1].FileChunk?;
        }
      } else {
        assert answer[i] == rest[i - n] == FileError;
      }
    }
  }

  /** Past the deciding message only messages that change nothing can follow. */
  lemma {:induction false} LateMessages(answer: seq<Message>, content: seq<byte>, size: nat, i: nat, k: nat)
    requires WellFormed(answer, content, size) && i <= k < |answer| && Decides(answer[i])
    ensures i < k ==> Decides(answer[k]) && !answer[k].FileContent?
    ensures answer[k].FileChunk? ==> End(answer[k]) >= size
    decreases k - i
  {
    assert WellFormedAt(answer, content, size, k);
    if i < k {
      LateMessages(answer, content, size, i, k - 1);
    }
  }

  /** One id: a registration, then messages of the guest's answer in order, and perhaps a timeout. */
  ghost predicate Served(events: seq<Event>, answer: seq<Message>) {
    && events != [] && events[0].Register?
    && (forall i | 1 <= i < |events| :: !events[i].Register?)
    && Messages(events) <= answer
  }

  /** What the host must hold about an id. */
  ghost predicate IsExact(v: View, events: seq<Event>, content: seq<byte>, size: nat)
    requires InContent(Messages(events), content) && InContent(Messages(BeforeTimeout(events)), content)
  {
    var got := Messages(events);
    && v.answers == Verdict(Messages(BeforeTimeout(events)), content)
    && (v.pending <==> Timeout !in events && FirstDeciding(got).None?)
    && v.partial == if got == [] || FirstDeciding(got).Some? then None else Some(Partial(size, content[..Covered(got)]))
  }

  lemma MessagesGrow(events: seq<Event>, last: Event)
    ensures Messages(events + [last]) == Messages(events) + if last.Deliver? then [last.message] else []
    ensures ReactAll(events + [last]) == React(ReactAll(events), last)
    ensures BeforeTimeout(events + [last]) ==
            if BeforeTimeout(events) == events && !last.Timeout? then events + [last] else BeforeTimeout(events)
  {
    assert (events + [last])[..|events|] == events;
  }

  lemma {:induction false} MessagesOfPrefix(events: seq<Event>, n: nat)
    requires n <= |events|
    ensures Messages(events[..n]) <= Messages(events)
    decreases |events|
  {
    if n < |events| {
      MessagesOfPrefix(events[..|events| - 1], n);
      assert events[..|events| - 1][..n] == events[..n];
    } else {
      assert events[..n] == events;
    }
  }

  lemma PrefixInContent(answer: seq<Message>, content: seq<byte>, size: nat, got: seq<Message>)
    requires WellFormed(answer, content, size) && got <= answer
    ensures InContent(got, content) && Covered(got) <= |content|
  {
    forall i | 0 <= i < |got| && got[i].FileChunk? ensures End(got[i]) <= |content| {
      assert answer[i] == got[i] && WellFormedAt(answer, content, size, i);
    }
  }

  /** One more message: the first deciding one stays first. */
  lemma FirstDecidingGrows(msgs: seq<Message>, last: Message)
    ensures FirstDeciding(msgs + [last]) ==
            if FirstDeciding(msgs).Some? then FirstDeciding(msgs) else if Decides(last) then Some(|msgs|) else None
  {
    assert (msgs + [last])[..|msgs|] == msgs;
  }

  lemma ServedBefore(front: seq<Event>, last: Event, answer: seq<Message>)
    requires front != [] && Served(front + [last], answer)
    ensures Served(front, answer) && !last.Register?
    ensures last.Deliver? ==> Messages(front) + [last.message] <= answer
  {
    MessagesGrow(front, last);
    var events := front + [last];
    assert events[|front|] == last && forall i | 0 <= i < |front| :: events[i] == front[i];
  }

  lemma MessagesInContent(events: seq<Event>, answer: seq<Message>, content: seq<byte>, size: nat)
    requires WellFormed(answer, content, size) && Messages(events) <= answer
    ensures Messages(BeforeTimeout(events)) <= answer && InContent(answer, content)
    ensures InContent(Messages(events), content) && InContent(Messages(BeforeTimeout(events)), content)
  {
    PrefixInContent(answer, content, size, answer);
    PrefixInContent(answer, content, size, Messages(events));
    MessagesOfPrefix(events, |BeforeTimeout(events)|);
    assert events[..|BeforeTimeout(events)|] == BeforeTimeout(events);
    PrefixInContent(answer, content, size, Messages(BeforeTimeout(events)));
  }

  lemma RegistrationIsExact(content: seq<byte>, size: nat)
    ensures Messages([Register]) == [] && BeforeTimeout([Register]) == [Register]
    ensures IsExact(ReactAll([Register]), [Register], content, size)
  {
    MessagesGrow([], Register);
    assert [] + [Register] == [Register];
  }

  lemma {:induction false} ViewIsExact(events: seq<Event>, answer: seq<Message>, content: seq<byte>, size: nat)
    requires WellFormed(answer, content, size) && Served(events, answer)
    ensures Messages(BeforeTimeout(events)) <= answer
    ensures InContent(answer, content)
    ensures InContent(Messages(events), content) && InContent(Messages(BeforeTimeout(events)), content)
    ensures IsExact(ReactAll(events), events, content, size)
    decreases |events|
  {
    MessagesInContent(events, answer, content, size);
    if |events| == 1 {
      assert events == [Register];
      RegistrationIsExact(content, size);
    } else {
      var front, last := events[..|events| - 1], events[|events| - 1];
      assert events == front + [last];
      ServedBefore(front, last, answer);
      ViewIsExact(front, answer, content, size);
      if last.Deliver? {
        AfterMessage(front, last.message, answer, content, size);
      } else {
        AfterTimeout(front, content, size);
      }
    }
  }

  /** The partial file after undecided messages, and after a decision. */
  function PartialAfter(got: seq<Message>, content: seq<byte>, size: nat): Option<Partial>
    requires Covered(got) <= |content|
  {
    if got == [] || FirstDeciding(got).Some? then None else Some(Partial(size, content[..Covered(got)]))
  }

  /** A message after the decision leaves no partial file behind and answers nobody. */
  lemma LateMessage(v: View, m: Message)
    requires v.partial == None && !v.pending && Decides(m)
    ensures React(v, Deliver(m)) == v
  {
  }

  lemma NextChunk(partial: Option<Partial>, got: seq<Message>, m: Message, answer: seq<Message>, content: seq<byte>, size: nat)
    requires WellFormed(answer, content, size) && got + [m] <= answer && FirstDeciding(got).None? && m.FileChunk?
    requires Covered(got) <= |content| && partial == PartialAfter(got, content, size)
    ensures End(m) <= |content| && m.total == size && m.offset == Covered(got)
    ensures Accumulate(partial, m) == Partial(size, content[..End(m)])
  {
    var k := |got|;
    assert answer[k] == m && WellFormedAt(answer, content, size, k);
    if k > 0 {
      assert answer[k - 1] == got[k - 1];
    }
    assert content[..m.offset] + content[m.offset..End(m)] == content[..End(m)];
  }

  /** A chunk before the decision extends the partial file, or completes it. */
  lemma NextMessage(v: View, got: seq<Message>, m: Message, answer: seq<Message>, content: seq<byte>, size: nat)
    requires WellFormed(answer, content, size) && got + [m] <= answer && FirstDeciding(got).None?
    requires Covered(got) <= |content| && v.partial == PartialAfter(got, content, size)
    ensures m.FileChunk? ==> End(m) <= |content|
    ensures Covered(got + [m]) <= |content|
    ensures React(v, Deliver(m)) ==
            if !Decides(m) then v.(partial := PartialAfter(got + [m], content, size))
            else Settle(v.(partial := None), OutcomeOf(m, content))
  {
    var k := |got|;
    assert answer[k] == m && WellFormedAt(answer, content, size, k);
    FirstDecidingGrows(got, m);
    if m.FileChunk? {
      NextChunk(v.partial, got, m, answer, content, size);
    }
  }

  lemma VerdictGrows(got: seq<Message>, m: Message, content: seq<byte>)
    requires InContent(got, content) && (m.FileChunk? ==> End(m) <= |content|)
    ensures InContent(got + [m], content)
    ensures Verdict(got + [m], content) ==
            if FirstDeciding(got).Some? then Verdict(got, content)
            else if !Decides(m) then []
            else [OutcomeOf(m, content)]
  {
    FirstDecidingGrows(got, m);
    var all := got + [m];
    forall i | 0 <= i < |all| ensures all[i].FileChunk? ==> End(all[i]) <= |content| {
      if i < |got| {
        assert all[i] == got[i];
      }
    }
    if FirstDeciding(got).Some? {
      assert all[FirstDeciding(got).value] == got[FirstDeciding(got).value];
    }
  }

  lemma AfterTimeout(front: seq<Event>, content: seq<byte>, size: nat)
    requires InContent(Messages(front), content) && InContent(Messages(BeforeTimeout(front)), content)
    requires IsExact(ReactAll(front), front, content, size)
    ensures Messages(front + [Timeout]) == Messages(front) && BeforeTimeout(front + [Timeout]) == BeforeTimeout(front)
    ensures IsExact(ReactAll(front + [Timeout]), front + [Timeout], content, size)
  {
    MessagesGrow(front, Timeout);
    assert (front + [Timeout])[|front|] == Timeout;
  }

  lemma AfterMessage(front: seq<Event>, m: Message, answer: seq<Message>, content: seq<byte>, size: nat)
    requires WellFormed(answer, content, size) && Served(front, answer) && Messages(front) + [m] <= answer
    requires Messages(BeforeTimeout(front)) <= answer
    requires InContent(Messages(front), content) && InContent(Messages(BeforeTimeout(front)), content)
    requires IsExact(ReactAll(front), front, content, size)
    ensures InContent(Messages(front + [Deliver(m)]), content)
    ensures InContent(Messages(BeforeTimeout(front + [Deliver(m)])), content)
    ensures IsExact(ReactAll(front + [Deliver(m)]), front + [Deliver(m)], content, size)
  {
    MessagesGrow(front, Deliver(m));
    var got := Messages(front);
    FirstDecidingGrows(got, m);
    PrefixInContent(answer, content, size, got + [m]);
    assert (got + [m])[|got|] == m;
    VerdictGrows(got, m, content);
    if FirstDeciding(got).Some? {
      var i := FirstDeciding(got).value;
      assert answer[i] == got[i] && answer[|got|] == m;
      LateMessages(answer, content, size, i, |got|);
      LateMessage(ReactAll(front), m);
    } else {
      PrefixInContent(answer, content, size, got);
      NextMessage(ReactAll(front), got, m, answer, content, size);
    }
  }

  /** Over every run: what the host holds about a requested id follows from the guest's answer alone. */
  lemma DownloadIsExact(states: seq<State>, run: seq<Step>, id: nat, meta: Meta, content: seq<byte>, answer: seq<Message>)
    requires IsRun(states, run) && IsAnswer(meta, content, answer)
    requires EventsOf(run, id) != [] && EventsOf(run, id)[0].Register?
    requires Messages(EventsOf(run, id)) <= answer
    ensures var events := EventsOf(run, id);
            && InContent(Messages(events), content) && InContent(Messages(BeforeTimeout(events)), content)
            && IsExact(ViewOf(states[|run|], id), events, content, if meta.Regular? then meta.size else 0)
  {
    NonInterference(states, run, id);
    RegisteredOnce(states, run, id);
    AnswersAreWellFormed(meta, content, answer);
    ViewIsExact(EventsOf(run, id), answer, content, if meta.Regular? then meta.size else 0);
  }

  lemma HonestVerdict(content: seq<byte>, answer: seq<Message>, got: seq<Message>)
    requires WellFormed(answer, content, |content|) && got <= answer
    ensures InContent(got, content)
    ensures Verdict(got, content) == [] || Verdict(got, content) == [Refused] || Verdict(got, content) == [Received(content)]
  {
    PrefixInContent(answer, content, |content|, got);
    if FirstDeciding(got).Some? {
      var i := FirstDeciding(got).value;
      assert got[i] == answer[i];
      assert WellFormedAt(answer, content, |content|, i);
      assert content[..|content|] == content;
    }
  }

  /** A file that does not change: whatever is answered as received is the file, however the reads came out. */
  lemma UnchangedFileIsNeverDamaged(content: seq<byte>, answer: seq<Message>, got: seq<Message>)
    requires IsAnswer(Regular(|content|), content, answer) && got <= answer
    ensures InContent(got, content)
    ensures Verdict(got, content) == [] || Verdict(got, content) == [Refused] || Verdict(got, content) == [Received(content)]
  {
    AnswersAreWellFormed(Regular(|content|), content, answer);
    HonestVerdict(content, answer, got);
  }

  lemma {:induction false} EndsGrow(chunks: seq<Message>, content: seq<byte>, size: nat, i: nat, j: nat)
    requires Tiles(chunks, content, size) && i < j < |chunks|
    ensures End(chunks[i]) <= chunks[j].offset < End(chunks[j])
    decreases j - i
  {
    assert chunks[j].offset == Covered(chunks[..j]) && chunks[..j][j - 1] == chunks[j - 1] && chunks[j - 1].FileChunk?;
    if i < j - 1 {
      EndsGrow(chunks, content, size, i, j - 1);
    }
  }

  /** A chunk that ends in the file's announced size or later, but short of the file's end. */
  ghost predicate CutsShort(chunk: Message, content: seq<byte>, size: nat) {
    chunk.FileChunk? && size <= End(chunk) < |content|
  }

  /** The reads of an answer give the file: it fits one message, or did not shrink and no chunk cuts it short. */
  ghost predicate ReadsWhole(size: nat, content: seq<byte>, answer: seq<Message>) {
    && size <= 104_857_600
    && (size <= 204_800
        || (size <= |content| && forall i | 0 <= i < |answer| :: !CutsShort(answer[i], content, size)))
  }

  /**
   With no failed read and no timeout, an answer whose messages all reach the host yields the file exactly when
   it is within the limit and fits one message, or did not shrink since its size was taken and no chunk ends
   between that size and its end.
   */
  lemma AnswerIsWholeIff(size: nat, content: seq<byte>, answer: seq<Message>)
    requires IsUndisturbedAnswer(size, content, answer)
    ensures InContent(answer, content)
    ensures Verdict(answer, content) == [Received(content)] <==> ReadsWhole(size, content, answer)
  {
    if FILE_CHUNK_SIZE < size <= MAX_DOWNLOAD_SIZE {
      var n: nat :| && n <= |answer| && Tiles(answer[..n], content, size) && Covered(answer[..n]) == |content|
                    && answer[n..] == if |content| == size then [] else [FileError];
      ChunkedVerdict(size, content, answer, n);
    }
  }

  lemma ChunksOfAnswer(size: nat, content: seq<byte>, answer: seq<Message>, n: nat)
    requires n <= |answer| && Tiles(answer[..n], content, size) && |answer| <= n + 1
    requires n < |answer| ==> answer[n].FileError?
    ensures forall i | 0 <= i < n :: answer[i].FileChunk? && answer[i].total == size && End(answer[i]) <= |content|
    ensures InContent(answer, content)
  {
    forall i | 0 <= i < n
      ensures answer[i].FileChunk? && answer[i].total == size && End(answer[i]) <= |content|
    {
      assert answer[..n][i] == answer[i];
    }
  }

  lemma EndsGrowInAnswer(size: nat, content: seq<byte>, answer: seq<Message>, n: nat, i: nat, j: nat)
    requires n <= |answer| && Tiles(answer[..n], content, size) && i < j < n
    ensures answer[i].FileChunk? && answer[j].FileChunk? && End(answer[i]) < End(answer[j])
  {
    EndsGrow(answer[..n], content, size, i, j);
    assert answer[..n][i] == answer[i] && answer[..n][j] == answer[j];
  }

  lemma ChunkedVerdict(size: nat, content: seq<byte>, answer: seq<Message>, n: nat)
    requires size > 0 && n <= |answer| && Tiles(answer[..n], content, size) && Covered(answer[..n]) == |content|
    requires answer[n..] == if |content| == size then [] else [FileError]
    ensures InContent(answer, content)
    ensures Verdict(answer, content) == [Received(content)] <==>
            size <= |content| && forall i | 0 <= i < |answer| :: !CutsShort(answer[i], content, size)
  {
    assert |content| != size ==> answer[n..][0] == answer[n];
    ChunksOfAnswer(size, content, answer, n);
    if size <= |content| {
      assert n > 0 && End(answer[n - 1]) == |content| by {
        assert n > 0 ==> answer[..n][n - 1] == answer[n - 1];
      }
      forall i, j | 0 <= i < j < n ensures End(answer[i]) < End(answer[j]) {
        EndsGrowInAnswer(size, content, answer, n, i, j);
      }
      DecidedByChunk(size, content, answer, n);
    } else {
      assert FirstDeciding(answer) == Some(n);
    }
  }

  lemma DecidedByChunk(size: nat, content: seq<byte>, answer: seq<Message>, n: nat)
    requires size <= |content| && 0 < n <= |answer| <= n + 1
    requires n < |answer| ==> answer[n].FileError?
    requires InContent(answer, content)
    requires forall i | 0 <= i < n :: answer[i].FileChunk? && answer[i].total == size
    requires End(answer[n - 1]) == |content|
    requires forall i, j | 0 <= i < j < n :: End(answer[i]) < End(answer[j])
    ensures Verdict(answer, content) == [Received(content)] <==>
            forall i | 0 <= i < |answer| :: !CutsShort(answer[i], content, size)
  {
    var i := FirstDeciding(answer).value;
    assert Decides(answer[n - 1]);
    var end := End(answer[i]);
    if end == |content| {
      assert content[..end] == content;
      forall j | 0 <= j < |answer| ensures !CutsShort(answer[j], content, size) {
      }
    } else {
      assert CutsShort(answer[i], content, size);
      assert |content[..end]| != |content|;
    }
  }

  lemma ThreeTiles(content: seq<byte>, n: nat, size: nat) returns (chunks: seq<Message>)
    requires 0 < n < size < |content| && n <= FILE_CHUNK_SIZE && size <= n + FILE_CHUNK_SIZE && |content| <= size + FILE_CHUNK_SIZE
    ensures Tiles(chunks, content, size) && Covered(chunks) == |content|
    ensures |chunks| == 3 && chunks[0].FileChunk? && chunks[1].FileChunk? && chunks[2].FileChunk?
    ensures End(chunks[0]) == n && End(chunks[1]) == size && End(chunks[2]) == |content|
    ensures chunks[0].total == size && chunks[1].total == size && chunks[2].total == size
  {
    var a, b := FileChunk(0, content[0..n], size), FileChunk(n, content[n..size], size);
    var c := FileChunk(size, content[size..|content|], size);
    var one, two := [] + [a], [] + [a] + [b];
    OneMoreTile([], content, size, a);
    OneMoreTile(one, content, size, b);
    OneMoreTile(two, content, size, c);
    chunks := two + [c];
  }

  /** A file of one byte more than announced, which arrives without its last byte and without an error. */
  lemma GrownFileIsCut(content: seq<byte>) returns (answer: seq<Message>)
    requires |content| == FILE_CHUNK_SIZE + 2
    ensures IsUndisturbedAnswer(FILE_CHUNK_SIZE + 1, content, answer) && InContent(answer, content)
    ensures Verdict(answer, content) == [Received(content[..FILE_CHUNK_SIZE + 1])]
  {
    var chunks := ThreeTiles(content, FILE_CHUNK_SIZE, FILE_CHUNK_SIZE + 1);
    answer := GrownAnswer(content, chunks, FILE_CHUNK_SIZE + 1);
  }

  lemma GrownAnswer(content: seq<byte>, chunks: seq<Message>, size: nat) returns (answer: seq<Message>)
    requires FILE_CHUNK_SIZE < size <= MAX_DOWNLOAD_SIZE && size < |content|
    requires Tiles(chunks, content, size) && Covered(chunks) == |content| && |chunks| == 3
    requires chunks[0].FileChunk? && chunks[1].FileChunk? && chunks[0].total == size && chunks[1].total == size
    requires End(chunks[0]) < size == End(chunks[1])
    ensures IsUndisturbedAnswer(size, content, answer) && InContent(answer, content)
    ensures Verdict(answer, content) == [Received(content[..size])]
  {
    answer := chunks + [FileError];
    assert answer[..3] == chunks && answer[3..] == [FileError];
    ChunksOfAnswer(size, content, answer, 3);
    assert answer[0] == chunks[0] && answer[1] == chunks[1];
    assert !Decides(answer[0]) && Decides(answer[1]);
  }
}
