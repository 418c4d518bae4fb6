/**
 The whole way of terminal output: from the frames that the guest writes to the chunks that the frontend polls.
 */
module TerminalPath {
  import opened Basics
  import opened Transport
  import TerminalMux
  import opened OutputQueue
  import QueueRuns

  /** The chunks pushed to one session's queue. */
  function ChunksFor(pushes: seq<TerminalMux.Frame>, session: nat): seq<Chunk> {
    if pushes == [] then []
    else (if pushes[0].session == session then [pushes[0].data] else []) + ChunksFor(pushes[1..], session)
  }

  lemma {:induction false} ChunksAreData(pushes: seq<TerminalMux.Frame>, session: nat)
    ensures Concat(ChunksFor(pushes, session)) == TerminalMux.DataFor(pushes, session)
    decreases |pushes|
  {
    if pushes != [] {
      ChunksAreData(pushes[1..], session);
      var first := if pushes[0].session == session then [pushes[0].data] else [];
      ConcatAppend(first, ChunksFor(pushes[1..], session));
      assert pushes[0].session == session ==> [pushes[0].data][1..] == [] && Concat([pushes[0].data]) == pushes[0].data + [];
    }
  }

  ghost predicate NoEmptyChunk(chunks: seq<Chunk>) {
    forall i | 0 <= i < |chunks| :: chunks[i] != []
  }

  lemma {:induction false} ChunksNotEmpty(pushes: seq<TerminalMux.Frame>, session: nat)
    requires TerminalMux.NoneEmpty(pushes)
    ensures NoEmptyChunk(ChunksFor(pushes, session))
    decreases |pushes|
  {
    if pushes != [] {
      ChunksNotEmpty(pushes[1..], session);
    }
  }

  lemma ConcatUpTo(chunks: seq<Chunk>, n: nat)
    requires n < |chunks|
    ensures Concat(chunks[..n + 1]) == Concat(chunks[..n]) + chunks[n]
  {
    assert chunks[..n + 1] == chunks[..n] + [chunks[n]];
    ConcatSnoc(chunks[..n], chunks[n]);
  }

  /** Any chunk that was not polled leaves a gap. */
  lemma {:induction false} LostBytes(pushed: seq<Chunk>, fates: seq<Fate>)
    requires |fates| <= |pushed| && NoEmptyChunk(pushed)
    ensures |Concat(Survivors(pushed, fates))| <= |Concat(pushed[..|fates|])|
    ensures !AllPolled(fates) ==> |Concat(Survivors(pushed, fates))| < |Concat(pushed[..|fates|])|
    decreases |fates|
  {
    if fates != [] {
      var n := |fates| - 1;
      LostBytes(pushed, fates[..n]);
      ConcatUpTo(pushed, n);
      if fates[n].Polled? {
        ConcatSnoc(Survivors(pushed, fates[..n]), pushed[n]);
        assert AllPolled(fates[..n]) ==> AllPolled(fates);
      } else {
        assert Survivors(pushed, fates[..n]) + [] == Survivors(pushed, fates[..n]);
      }
    }
  }

  /** What the frontend has polled so far and what is still queued for it. */
  function Shown(s: State): seq<byte> {
    Concat(s.polled) + Concat(s.queue)
  }

  /** Of chunks that are not empty, all bytes are shown in order exactly if the queue never overflows. */
  lemma AllShownIff(run: seq<Step>)
    requires ValidRun(INITIAL, run) && NoEmptyChunk(After(INITIAL, run).pushed)
    ensures Shown(After(INITIAL, run)) == Concat(After(INITIAL, run).pushed) <==> !Overflows(INITIAL, run)
  {
    var s := After(INITIAL, run);
    RunKeepsInv(INITIAL, run);
    NothingLostIff(INITIAL, run);
    var n := |s.fates|;
    assert s.pushed == s.pushed[..n] + s.pushed[n..];
    ConcatAppend(s.pushed[..n], s.pushed[n..]);
    if AllPolled(s.fates) {
      AllPolledSurvive(s.pushed, s.fates);
    } else {
      LostBytes(s.pushed, s.fates);
    }
  }

  /** In this run the chunks pushed to the session's queue, and taken by it, are those of the batches. */
  ghost predicate Pushes(run: seq<Step>, pushes: seq<TerminalMux.Frame>, session: nat) {
    ValidRun(INITIAL, run) && After(INITIAL, run).pushed == ChunksFor(pushes, session)
  }

  /** The run pushes the session's chunks, and the frontend has polled these bytes. */
  ghost predicate ShowsAll(run: seq<Step>, pushes: seq<TerminalMux.Frame>, session: nat, bytes: seq<byte>) {
    Pushes(run, pushes, session) && Concat(After(INITIAL, run).polled) == bytes
  }

  ghost predicate CanShow(pushes: seq<TerminalMux.Frame>, session: nat, bytes: seq<byte>) {
    exists run :: ShowsAll(run, pushes, session, bytes)
  }

  /** Such a run always exists: each chunk is pushed and then polled, and so every byte is shown. */
  lemma SomeRunShowsAll(frames: seq<TerminalMux.Frame>, pushes: seq<TerminalMux.Frame>, session: nat) returns (run: seq<Step>)
    requires TerminalMux.DataFor(pushes, session) == TerminalMux.DataFor(frames, session) && TerminalMux.NoneEmpty(pushes)
    ensures Pushes(run, pushes, session) && !Overflows(INITIAL, run)
    ensures Concat(After(INITIAL, run).polled) == TerminalMux.DataFor(frames, session)
  {
    var chunks := ChunksFor(pushes, session);
    run := QueueRuns.Alternating(chunks);
    QueueRuns.AllPolledInTurn(INITIAL, chunks);
    assert [] + chunks == chunks;
    SessionIsShownIff(frames, pushes, session, run);
    ChunksAreData(pushes, session);
    assert Concat(chunks) + [] == Concat(chunks);
  }

  /** A session's bytes as the guest wrote them are polled and queued, in order, exactly if its queue never overflows. */
  lemma SessionIsShownIff(frames: seq<TerminalMux.Frame>, pushes: seq<TerminalMux.Frame>, session: nat, run: seq<Step>)
    requires TerminalMux.DataFor(pushes, session) == TerminalMux.DataFor(frames, session) && TerminalMux.NoneEmpty(pushes)
    requires Pushes(run, pushes, session)
    ensures Shown(After(INITIAL, run)) == TerminalMux.DataFor(frames, session) <==> !Overflows(INITIAL, run)
  {
    ChunksAreData(pushes, session);
    ChunksNotEmpty(pushes, session);
    AllShownIff(run);
  }

  /**
   From end to end: whatever the short reads, the batches, and the interleaving of pushes, polls and resets, the
   bytes polled and still queued for a session are those that the guest wrote for it, in order, if and only if no
   push finds its queue full and no reset finds it non-empty; and there is always a run in which all are polled.
   */
  method CarryToFrontend(frames: seq<TerminalMux.Frame>, schedule: seq<Reply>, cuts: seq<nat>) returns (pushes: seq<TerminalMux.Frame>)
    requires forall f | f in frames :: TerminalMux.Fits(f)
    requires Faultless(schedule)
    ensures forall session: nat, run | Pushes(run, pushes, session) ::
              Shown(After(INITIAL, run)) == TerminalMux.DataFor(frames, session) <==> !Overflows(INITIAL, run)
    ensures forall session: nat :: CanShow(pushes, session, TerminalMux.DataFor(frames, session))
  {
    pushes := TerminalMux.CarryTerminalData(frames, schedule, cuts);
    forall session: nat, run | Pushes(run, pushes, session)
      ensures Shown(After(INITIAL, run)) == TerminalMux.DataFor(frames, session) <==> !Overflows(INITIAL, run)
    {
      SessionIsShownIff(frames, pushes, session, run);
    }
    forall session: nat ensures CanShow(pushes, session, TerminalMux.DataFor(frames, session)) {
      var run := SomeRunShowsAll(frames, pushes, session);
      assert ShowsAll(run, pushes, session, TerminalMux.DataFor(frames, session));
    }
  }
}
