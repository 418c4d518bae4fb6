/**
 Coalescing of file events: the latest event of a path waits out a window, and is replaced by a newer one.
 */
module Debounce {
  import opened Basics

  type Path = string

  datatype Action = Created | Modified | Deleted

  /** What was recorded for a path, and when. */
  datatype Note = Note(action: Action, size: Option<nat>, at: nat)

  const DEBOUNCE_MS: nat := 100

  function Deadline(n: Note): nat {
    n.at + DEBOUNCE_MS
  }

  /** A flush of the entries whose window has passed at some time, or of all. */
  datatype Flush = Expired(now: nat) | All

  predicate Reaches(flush: Flush, n: Note) {
    match flush
    case Expired(now) => Deadline(n) <= now
    case All => true
  }

  function Due(pending: map<Path, Note>, flush: Flush): map<Path, Note> {
    map p | p in pending && Reaches(flush, pending[p]) :: pending[p]
  }

  class Debouncer {
    var pending: map<Path, Note>

    constructor ()
      ensures pending == map[]
    {
      pending := map[];
    }

    method Record(path: Path, action: Action, size: Option<nat>, now: nat)
      modifies this
      ensures pending == old(pending)[path := Note(action, size, now)]
    {
      pending := pending[path := Note(action, size, now)];
    }

    /** flush_expired and flush_all; the flushed entries come in no particular order. */
    method FlushWith(flush: Flush) returns (flushed: map<Path, Note>)
      modifies this
      ensures flushed == Due(old(pending), flush)
      ensures pending == old(pending) - flushed.Keys
    {
      flushed := map[];
      var rest := pending.Keys;
      ghost var before := pending;
      while rest != {}
        invariant rest <= before.Keys
        invariant forall p :: p in flushed <==> p in before && p !in rest && Reaches(flush, before[p])
        invariant forall p | p in flushed :: flushed[p] == before[p]
        invariant forall p :: p in pending <==> p in before && p !in flushed
        invariant forall p | p in pending :: pending[p] == before[p]
        decreases |rest|
      {
        var p :| p in rest;
        rest := rest - {p};
        if Reaches(flush, pending[p]) {
          flushed := flushed[p := pending[p]];
          pending := pending - {p};
        }
      }
    }

    /** Milliseconds until the next entry expires. */
    method NextDeadline(now: nat) returns (r: Option<nat>)
      ensures r.None? <==> pending == map[]
      ensures r.Some? ==> exists p :: p in pending && r.value == Wait(pending[p], now)
      ensures r.Some? ==> forall p | p in pending :: r.value <= Wait(pending[p], now)
    {
      r := None;
      var rest := pending.Keys;
      while rest != {}
        invariant rest <= pending.Keys
        invariant r.None? <==> rest == pending.Keys
        invariant r.Some? ==> exists p :: p in pending && r.value == Wait(pending[p], now)
        invariant r.Some? ==> forall p | p in pending && p !in rest :: r.value <= Wait(pending[p], now)
        decreases |rest|
      {
        var p :| p in rest;
        rest := rest - {p};
        var wait := Wait(pending[p], now);
        if r.None? || wait < r.value {
          r := Some(wait);
        }
      }
      assert pending == map[] <==> pending.Keys == {};
    }
  }

  function Wait(n: Note, now: nat): nat {
    if Deadline(n) > now then Deadline(n) - now else 0
  }

  // ---------------------------------------------------------------------------
  // Runs
  // ---------------------------------------------------------------------------

  datatype Event = Recorded(path: Path, note: Note) | Flushed(flush: Flush)

  /** The pending entries after a run. */
  function Pending(pending: map<Path, Note>, run: seq<Event>): map<Path, Note>
    decreases |run|
  {
    if run == [] then pending
    else Pending(PendingAfter(pending, run[0]), run[1..])
  }

  function PendingAfter(pending: map<Path, Note>, event: Event): map<Path, Note> {
    match event
    case Recorded(path, note) => pending[path := note]
    case Flushed(flush) => pending - Due(pending, flush).Keys
  }

  /** What a run emits for one path. */
  function Emitted(pending: map<Path, Note>, run: seq<Event>, path: Path): seq<Note>
    decreases |run|
  {
    if run == [] then []
    else EmittedNow(pending, run[0], path) + Emitted(PendingAfter(pending, run[0]), run[1..], path)
  }

  function EmittedNow(pending: map<Path, Note>, event: Event, path: Path): seq<Note> {
    if event.Flushed? && path in Due(pending, event.flush) then [pending[path]] else []
  }

  // ---------------------------------------------------------------------------
  // What must be emitted
  // ---------------------------------------------------------------------------

  predicate Replaces(event: Event, path: Path) {
    event.Recorded? && event.path == path
  }

  /** A flush reaches the note before anything newer is recorded for its path. */
  ghost predicate FlushedInTime(note: Note, rest: seq<Event>, path: Path) {
    exists j | 0 <= j < |rest| ::
      && rest[j].Flushed? && Reaches(rest[j].flush, note)
      && forall k | 0 <= k < j :: !Replaces(rest[k], path)
  }

  /** The notes of a path that were flushed in time, in the order they were recorded. */
  ghost function FlushedNotes(run: seq<Event>, path: Path): seq<Note> {
    if run == [] then [] else FirstNote(run, path) + FlushedNotes(run[1..], path)
  }

  ghost function FirstNote(run: seq<Event>, path: Path): seq<Note>
    requires run != []
  {
    if Replaces(run[0], path) && FlushedInTime(run[0].note, run[1..], path) then [run[0].note] else []
  }

  lemma FlushedInTimeStep(note: Note, run: seq<Event>, path: Path)
    requires run != []
    ensures FlushedInTime(note, run, path) <==>
            || (run[0].Flushed? && Reaches(run[0].flush, note))
            || (!Replaces(run[0], path) && FlushedInTime(note, run[1..], path))
  {
    if FlushedInTime(note, run, path) {
      var j :| 0 <= j < |run| && run[j].Flushed? && Reaches(run[j].flush, note) && forall k | 0 <= k < j :: !Replaces(run[k], path);
      if j > 0 {
        assert run[1..][j - 1] == run[j];
        assert forall k | 0 <= k < j - 1 :: run[1..][k] == run[k + 1];
      }
    }
    if !Replaces(run[0], path) && FlushedInTime(note, run[1..], path) {
      var rest := run[1..];
      var j :| 0 <= j < |rest| && rest[j].Flushed? && Reaches(rest[j].flush, note) && forall k | 0 <= k < j :: !Replaces(rest[k], path);
      assert run[j + 1] == rest[j];
      assert forall k | 0 <= k < j + 1 :: k == 0 || run[k] == rest[k - 1];
    }
  }

  /** The part of the pending entries that a run will still emit. */
  ghost function FirstFlushed(pending: map<Path, Note>, run: seq<Event>, path: Path): seq<Note> {
    if path in pending && FlushedInTime(pending[path], run, path) then [pending[path]] else []
  }

  /**
   Exactly the notes that a flush reaches before a newer one are emitted, once and in order; which other paths
   are recorded in between makes no difference.
   */
  lemma {:induction false} EmittedFromPending(pending: map<Path, Note>, run: seq<Event>, path: Path)
    ensures Emitted(pending, run, path) == FirstFlushed(pending, run, path) + FlushedNotes(run, path)
    decreases |run|
  {
    if run != [] {
      var next, rest := PendingAfter(pending, run[0]), run[1..];
      EmittedFromPending(next, rest, path);
      FirstEvent(pending, run, path);
      AppendAssoc(EmittedNow(pending, run[0], path), FirstFlushed(next, rest, path), FlushedNotes(rest, path));
      AppendAssoc(FirstFlushed(pending, run, path), FirstNote(run, path), FlushedNotes(rest, path));
    }
  }

  lemma FirstEvent(pending: map<Path, Note>, run: seq<Event>, path: Path)
    requires run != []
    ensures EmittedNow(pending, run[0], path) + FirstFlushed(PendingAfter(pending, run[0]), run[1..], path) ==
            FirstFlushed(pending, run, path) + FirstNote(run, path)
  {
    if path in pending {
      FlushedInTimeStep(pending[path], run, path);
    }
  }

  lemma EmittedExactlyWhenFlushedInTime(run: seq<Event>, path: Path)
    ensures Emitted(map[], run, path) == FlushedNotes(run, path)
  {
    EmittedFromPending(map[], run, path);
    assert [] + FlushedNotes(run, path) == FlushedNotes(run, path);
  }

  /** The last note of a path, if there is one. */
  function LastNote(run: seq<Event>, path: Path): Option<Note> {
    if run == [] then None
    else
      var rest := LastNote(run[1..], path);
      if rest.Some? then rest else if Replaces(run[0], path) then Some(run[0].note) else None
  }

  /** The latest event of a path is the pending entry if there is one, and the last one emitted otherwise. */
  lemma {:induction false} LatestIsPendingOrEmitted(pending: map<Path, Note>, run: seq<Event>, path: Path)
    ensures var latest := if LastNote(run, path).Some? then LastNote(run, path) else if path in pending then Some(pending[path]) else None;
            var out, left := Emitted(pending, run, path), Pending(pending, run);
            if path in left then latest == Some(left[path])
            else if latest.None? then out == []
            else out != [] && out[|out| - 1] == latest.value
    decreases |run|
  {
    if run != [] {
      LatestIsPendingOrEmitted(PendingAfter(pending, run[0]), run[1..], path);
    }
  }

  lemma {:induction false} PendingAppend(pending: map<Path, Note>, run: seq<Event>, last: Event)
    ensures Pending(pending, run + [last]) == PendingAfter(Pending(pending, run), last)
    decreases |run|
  {
    if run == [] {
      assert run + [last] == [last];
    } else {
      assert (run + [last])[0] == run[0] && (run + [last])[1..] == run[1..] + [last];
      PendingAppend(PendingAfter(pending, run[0]), run[1..], last);
    }
  }

  /** After a final flush of everything the host's last word on each path is the last event recorded for it. */
  lemma FinalFlushLosesNothing(run: seq<Event>, path: Path)
    ensures var whole := run + [Flushed(All)];
            && Pending(map[], whole) == map[]
            && (LastNote(whole, path).Some? ==>
                 var out := Emitted(map[], whole, path); out != [] && out[|out| - 1] == LastNote(whole, path).value)
  {
    PendingAppend(map[], run, Flushed(All));
    LatestIsPendingOrEmitted(map[], run + [Flushed(All)], path);
  }

  /**
   Nothing is emitted for a path, however long it is watched, exactly if no event of the path is reached by a
   flush before a newer one: each is replaced first, or no flush comes late enough.
   */
  lemma SilentIff(run: seq<Event>, path: Path)
    ensures Emitted(map[], run, path) == [] <==>
            forall n | 0 <= n < |run| && Replaces(run[n], path) :: !FlushedInTime(run[n].note, run[n + 1..], path)
  {
    EmittedExactlyWhenFlushedInTime(run, path);
    NoneFlushedIff(run, path);
  }

  lemma {:induction false} NoneFlushedIff(run: seq<Event>, path: Path)
    ensures FlushedNotes(run, path) == [] <==>
            forall n | 0 <= n < |run| && Replaces(run[n], path) :: !FlushedInTime(run[n].note, run[n + 1..], path)
    decreases |run|
  {
    if run != [] {
      var rest := run[1..];
      NoneFlushedIff(rest, path);
      assert forall n | 0 <= n < |rest| :: rest[n] == run[n + 1] && rest[n + 1..] == run[n + 1 + 1..];
      forall n | 1 <= n < |run| ensures run[n] == rest[n - 1] && run[n + 1..] == rest[n - 1 + 1..] {
      }
    }
  }

  /** An entry waits out 100 milliseconds from its last event; a flush of all takes every entry. */
  lemma WindowIs(pending: map<Path, Note>, path: Path, now: nat)
    ensures path in Due(pending, Expired(now)) <==> path in pending && pending[path].at + 100 <= now
    ensures path in Due(pending, All) <==> path in pending
    ensures path in pending ==> now + Wait(pending[path], now) == if pending[path].at + 100 > now then pending[path].at + 100 else now
  {
  }
}
