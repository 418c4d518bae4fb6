/**
 The clean-up of stale sessions at start-up: crash marking, vacuum recovery, culling by age, count and disk
 budget, and the removal of directories and records. Records and directories are finite maps; the order among
 records of one second is any the database may choose.
 */
module Retention {
  type Id = string

  datatype Status = Running | Stopped | Crashed | Vacuumed | Terminated

  /** `created` stands for the time text, whose order is the order of the seconds. */
  datatype Record = Record(status: Status, created: nat, vacuumed: bool)

  /** The sessions table, and the sizes of the directories under the sessions directory. */
  datatype Store = Store(records: map<Id, Record>, dirs: map<Id, nat>)

  /** The sessions the culling statements apply to. */
  predicate Stoppable(r: Record) {
    r.status.Stopped? || r.status.Crashed? || r.status.Vacuumed?
  }

  function StoppableIds(records: map<Id, Record>): (ids: set<Id>)
    ensures ids <= records.Keys
  {
    set id | id in records && Stoppable(records[id])
  }

  /** A session moves through its life in this order; a purged record is last. */
  function Rank(records: map<Id, Record>, id: Id): nat {
    if id !in records then 4
    else
      match records[id].status
      case Running => 0
      case Stopped => 1
      case Crashed => 1
      case Vacuumed => 2
      case Terminated => 3
  }

  predicate IsDigit(c: char) {
    '0' <= c <= '9'
  }

  predicate IsHexDigit(c: char) {
    IsDigit(c) || 'a' <= c <= 'f' || 'A' <= c <= 'F'
  }

  /** YYYYMMDD-HHMMSS-XXXX */
  predicate IsValidSessionId(s: string) {
    && |s| == 20 && s[8] == '-' && s[15] == '-'
    && (forall i | 0 <= i < 8 :: IsDigit(s[i]))
    && (forall i | 9 <= i < 15 :: IsDigit(s[i]))
    && (forall i | 16 <= i < 20 :: IsHexDigit(s[i]))
  }

  // ---------------------------------------------------------------------------
  // The statements on the index
  // ---------------------------------------------------------------------------

  function SetStatus(r: Record, status: Status): Record {
    r.(status := status)
  }

  function MarkCrashed(records: map<Id, Record>): map<Id, Record> {
    map id | id in records :: if records[id].status.Running? then SetStatus(records[id], Crashed) else records[id]
  }

  /** Of the sessions not vacuumed yet, those whose database could be compressed. */
  function Vacuum(records: map<Id, Record>, compressible: set<Id>): map<Id, Record> {
    map id | id in records ::
      var r := records[id];
      if (r.status.Stopped? || r.status.Crashed?) && !r.vacuumed && id in compressible then Record(Vacuumed, r.created, true) else r
  }

  function Unvacuumed(records: map<Id, Record>): set<Id> {
    set id | id in records && (records[id].status.Stopped? || records[id].status.Crashed?) && !records[id].vacuumed
  }

  lemma VacuumOneMore(records: map<Id, Record>, done: set<Id>, id: Id)
    requires id in Unvacuumed(records)
    ensures var before := Vacuum(records, done);
            id in before && Vacuum(records, done + {id}) == before[id := Record(Vacuumed, before[id].created, true)]
  {
  }

  lemma VacuumIsComplete(records: map<Id, Record>, compressible: set<Id>, done: set<Id>)
    requires done <= compressible && forall id | id in Unvacuumed(records) && id in compressible :: id in done
    ensures Vacuum(records, done) == Vacuum(records, compressible)
  {
  }

  function TerminateOlder(records: map<Id, Record>, cutoff: nat): map<Id, Record> {
    map id | id in records ::
      if records[id].created < cutoff && Stoppable(records[id]) then SetStatus(records[id], Terminated) else records[id]
  }

  /** What a query for the `n` newest records may answer. */
  ghost predicate IsNewest(records: map<Id, Record>, n: nat, newest: set<Id>) {
    && newest <= records.Keys && |newest| == (if |records| < n then |records| else n)
    && forall a, b | a in newest && b in records && b !in newest :: records[a].created >= records[b].created
  }

  function TerminateExcess(records: map<Id, Record>, newest: set<Id>): map<Id, Record> {
    map id | id in records ::
      if id !in newest && Stoppable(records[id]) then SetStatus(records[id], Terminated) else records[id]
  }

  /** What the query for culling may answer: the stoppable sessions, oldest first. */
  ghost predicate IsOldestFirst(records: map<Id, Record>, order: seq<Id>) {
    && (forall id :: id in order <==> id in StoppableIds(records))
    && (forall i, j | 0 <= i < j < |order| :: order[i] != order[j])
    && (forall i, j | 0 <= i < j < |order| && order[i] in records && order[j] in records ::
          records[order[i]].created <= records[order[j]].created)
  }

  function Purge(records: map<Id, Record>, cutoff: nat): map<Id, Record> {
    map id | id in records && !(records[id].status.Terminated? && records[id].created < cutoff) :: records[id]
  }

  /** now - days, in seconds, not below the epoch */
  function Cutoff(now: nat, days: nat): nat {
    if now < days * 86400 then 0 else now - days * 86400
  }

  // ---------------------------------------------------------------------------
  // Culling for the disk budget
  // ---------------------------------------------------------------------------

  /** The bytes that removing these sessions' directories frees. */
  function Freed(dirs: map<Id, nat>, ids: seq<Id>): nat {
    if ids == [] then 0
    else
      var last := ids[|ids| - 1];
      Freed(dirs, ids[..|ids| - 1]) + if last in dirs then dirs[last] else 0
  }

  /** The usage left after freeing some bytes. */
  function Left(usage: nat, freed: nat): nat {
    if freed <= usage then usage - freed else 0
  }

  /** The first `k` sessions are the fewest that bring the usage within the budget, or all there are. */
  ghost predicate IsShortestCull(dirs: map<Id, nat>, order: seq<Id>, usage: nat, budget: nat, k: nat) {
    && k <= |order|
    && (k == |order| || Left(usage, Freed(dirs, order[..k])) <= budget)
    && NotEnough(dirs, order, usage, budget, k)
  }

  /** Fewer than `k` sessions leave the usage over the budget. */
  ghost predicate NotEnough(dirs: map<Id, nat>, order: seq<Id>, usage: nat, budget: nat, k: nat)
    requires k <= |order|
  {
    forall j | 0 <= j < k :: Left(usage, Freed(dirs, order[..j])) > budget
  }

  /** The sessions among the given ones that have a directory. */
  function WithDirs(dirs: map<Id, nat>, ids: seq<Id>): set<Id> {
    set id | id in ids && id in dirs
  }

  function Cull(s: Store, culled: set<Id>): Store {
    Store(map id | id in s.records :: if id in culled then SetStatus(s.records[id], Terminated) else s.records[id],
          s.dirs - culled)
  }

  lemma FreedSnoc(dirs: map<Id, nat>, ids: seq<Id>, k: nat)
    requires k < |ids|
    ensures Freed(dirs, ids[..k + 1]) == Freed(dirs, ids[..k]) + if ids[k] in dirs then dirs[ids[k]] else 0
  {
    assert ids[..k + 1][..k] == ids[..k];
  }

  /** The cull length is determined. */
  lemma ShortestCullIsUnique(dirs: map<Id, nat>, order: seq<Id>, usage: nat, budget: nat, j: nat, k: nat)
    requires IsShortestCull(dirs, order, usage, budget, j) && IsShortestCull(dirs, order, usage, budget, k)
    ensures j == k
  {
  }

  // ---------------------------------------------------------------------------
  // The whole clean-up
  // ---------------------------------------------------------------------------

  datatype Settings = Settings(retentionDays: nat, maxSessions: nat, maxDiskBytes: nat, terminatedRetentionDays: nat)

  /** The records that the orphan search asks for. */
  const KNOWN_LIMIT: nat := 10_000

  /** What the clock, the database and the file system contribute. */
  datatype World = World(now: nat, compressible: set<Id>, newest: set<Id>, order: seq<Id>, usage: nat, known: set<Id>)

  function RecordsBeforeExcess(s: Store, c: Settings, w: World): map<Id, Record> {
    TerminateOlder(Vacuum(MarkCrashed(s.records), w.compressible), Cutoff(w.now, c.retentionDays))
  }

  function RecordsBeforeCull(s: Store, c: Settings, w: World): map<Id, Record> {
    TerminateExcess(RecordsBeforeExcess(s, c, w), w.newest)
  }

  function TerminatedIds(records: map<Id, Record>): set<Id> {
    set id | id in records && records[id].status.Terminated?
  }

  /** The store after the culls; `k` sessions of the list were looked at. */
  function AfterCull(s: Store, c: Settings, w: World, k: nat): Store
    requires k <= |w.order|
  {
    Cull(Store(RecordsBeforeCull(s, c, w), s.dirs), WithDirs(s.dirs, w.order[..k]))
  }

  /** The directories of terminated sessions go, then old records, then directories without a known record. */
  function Finish(s: Store, purgeCutoff: nat, known: set<Id>): Store {
    var dirs := s.dirs - TerminatedIds(s.records);
    Store(Purge(s.records, purgeCutoff), map id | id in dirs && !(IsValidSessionId(id) && id !in known) :: dirs[id])
  }

  function Cleaned(s: Store, c: Settings, w: World, k: nat): Store
    requires k <= |w.order|
  {
    Finish(AfterCull(s, c, w, k), Cutoff(w.now, c.terminatedRetentionDays), w.known)
  }

  /** The world answers each query as the database may at that point. */
  ghost predicate Possible(s: Store, c: Settings, w: World, k: nat) {
    && IsNewest(RecordsBeforeExcess(s, c, w), c.maxSessions, w.newest)
    && IsOldestFirst(RecordsBeforeCull(s, c, w), w.order)
    && IsShortestCull(s.dirs, w.order, w.usage, c.maxDiskBytes, k)
    && IsNewest(Purge(AfterCull(s, c, w, k).records, Cutoff(w.now, c.terminatedRetentionDays)), KNOWN_LIMIT, w.known)
  }

  // ---------------------------------------------------------------------------
  // The clean-up as it runs
  // ---------------------------------------------------------------------------

  /** The session index and the sessions directory. */
  class Sessions {
    var records: map<Id, Record>
    var dirs: map<Id, nat>

    function Contents(): Store
      reads this
    {
      Store(records, dirs)
    }

    constructor (s: Store)
      ensures Contents() == s
    {
      records, dirs := s.records, s.dirs;
    }

    /** The rows of a query in some order. */
    method Listed(ids: set<Id>) returns (list: seq<Id>)
      ensures forall id :: id in list <==> id in ids
    {
      list := [];
      var rest := ids;
      while rest != {}
        invariant rest <= ids && forall id :: id in list <==> id in ids - rest
        decreases |rest|
      {
        var id :| id in rest;
        list := list + [id];
        rest := rest - {id};
      }
    }

    /** Vacuum recovery: a session whose database cannot be compressed stays as it is. */
    method VacuumRecovery(compressible: set<Id>)
      modifies this`records
      ensures records == Vacuum(old(records), compressible)
    {
      ghost var before := records;
      var unvacuumed := Listed(Unvacuumed(records));
      ghost var done: set<Id> := {};
      for i := 0 to |unvacuumed|
        invariant records == Vacuum(before, done) && done <= compressible
        invariant forall j | 0 <= j < i :: unvacuumed[j] in compressible ==> unvacuumed[j] in done
      {
        var id := unvacuumed[i];
        assert id in unvacuumed;
        VacuumOneMore(before, done, id);
        if id in compressible {
          records := records[id := Record(Vacuumed, records[id].created, true)];
          done := done + {id};
        }
      }
      VacuumIsComplete(before, compressible, done);
    }

    method TerminateOnDisk(id: Id)
      requires id in records
      modifies this
      ensures Contents() == Store(old(records)[id := SetStatus(old(records)[id], Terminated)], old(dirs) - {id})
    {
      dirs := dirs - {id};
      records := records[id := SetStatus(records[id], Terminated)];
    }

    /** One session of the list: it is culled if it has a directory. */
    method CullNext(ghost before: Store, order: seq<Id>, i: nat, usage: nat) returns (usage': nat)
      requires IsOldestFirst(before.records, order) && i < |order|
      requires Contents() == Cull(before, WithDirs(before.dirs, order[..i]))
      modifies this
      ensures Contents() == Cull(before, WithDirs(before.dirs, order[..i + 1]))
      ensures usage' == if order[i] in before.dirs then Left(usage, before.dirs[order[i]]) else usage
    {
      var id := order[i];
      assert id in order;
      CullOneMore(before, order, i);
      usage' := usage;
      if id in dirs {
        usage' := Left(usage, dirs[id]);
        TerminateOnDisk(id);
      }
    }

    /** Disk-based culling, oldest session first, until the budget is met. */
    method CullForBudget(order: seq<Id>, usageNow: nat, budget: nat) returns (ghost k: nat)
      requires IsOldestFirst(records, order)
      modifies this
      ensures IsShortestCull(old(dirs), order, usageNow, budget, k)
      ensures Contents() == Cull(old(Contents()), WithDirs(old(dirs), order[..k]))
    {
      ghost var before := Contents();
      var usage := usageNow;
      var i := 0;
      assert Contents() == Cull(before, {});
      while i < |order|
        invariant 0 <= i <= |order|
        invariant NotEnough(before.dirs, order, usageNow, budget, i) && usage == Left(usageNow, Freed(before.dirs, order[..i]))
        invariant Contents() == Cull(before, WithDirs(before.dirs, order[..i]))
      {
        if usage <= budget {
          return i;
        }
        FreedSnoc(before.dirs, order, i);
        usage := CullNext(before, order, i, usage);
        i := i + 1;
      }
      k := |order|;
    }

    /** Every directory in the list goes. */
    method RemoveDirs(list: seq<Id>)
      modifies this`dirs
      ensures dirs == old(dirs) - set id | id in list
    {
      ghost var before := dirs;
      for i := 0 to |list|
        invariant dirs == before - set id | id in list[..i]
      {
        assert list[..i + 1] == list[..i] + [list[i]];
        dirs := dirs - {list[i]};
      }
      assert list[..|list|] == list;
    }

    method CullIfNeeded(order: seq<Id>, usage: nat, budget: nat) returns (ghost k: nat)
      requires IsOldestFirst(records, order)
      modifies this
      ensures IsShortestCull(old(dirs), order, usage, budget, k)
      ensures Contents() == Cull(old(Contents()), WithDirs(old(dirs), order[..k]))
    {
      k := 0;
      if usage > budget {
        k := CullForBudget(order, usage, budget);
      } else {
        assert Contents() == Cull(Contents(), {});
      }
    }

    /** Terminated sessions lose their directories, old records go, then directories of no known record. */
    method RemoveLeftovers(purgeCutoff: nat, known: set<Id>)
      modifies this
      ensures Contents() == Finish(old(Contents()), purgeCutoff, known)
    {
      var terminated := Listed(TerminatedIds(records));
      RemoveDirs(terminated);
      records := Purge(records, purgeCutoff);
      var orphans := Listed(set id | id in dirs && IsValidSessionId(id) && id !in known);
      RemoveDirs(orphans);
      FinishInTwo(old(Contents()), purgeCutoff, known, terminated, orphans);
    }

    /** cleanup_stale_sessions, with the queries answered as the world says. */
    method CleanupStaleSessions(c: Settings, w: World) returns (ghost k: nat)
      requires IsOldestFirst(RecordsBeforeCull(Contents(), c, w), w.order)
      modifies this
      ensures IsShortestCull(old(dirs), w.order, w.usage, c.maxDiskBytes, k)
      ensures Contents() == Cleaned(old(Contents()), c, w, k)
    {
      records := MarkCrashed(records);
      VacuumRecovery(w.compressible);
      records := TerminateOlder(records, Cutoff(w.now, c.retentionDays));
      records := TerminateExcess(records, w.newest);
      k := CullIfNeeded(w.order, w.usage, c.maxDiskBytes);
      RemoveLeftovers(Cutoff(w.now, c.terminatedRetentionDays), w.known);
    }
  }

  lemma FinishInTwo(s: Store, purgeCutoff: nat, known: set<Id>, terminated: seq<Id>, orphans: seq<Id>)
    requires forall id :: id in terminated <==> id in TerminatedIds(s.records)
    requires var dirs := s.dirs - (set id | id in terminated);
             forall id :: id in orphans <==> id in dirs && IsValidSessionId(id) && id !in known
    ensures Finish(s, purgeCutoff, known) ==
            Store(Purge(s.records, purgeCutoff), s.dirs - (set id | id in terminated) - set id | id in orphans)
  {
    assert (set id | id in terminated) == TerminatedIds(s.records);
  }

  lemma CullOneMore(s: Store, order: seq<Id>, i: nat)
    requires i < |order| && (order[i] in s.records)
    requires forall j | 0 <= j < i :: order[j] != order[i]
    ensures var before, after := Cull(s, WithDirs(s.dirs, order[..i])), Cull(s, WithDirs(s.dirs, order[..i + 1]));
            && (order[i] in before.dirs <==> order[i] in s.dirs) && (order[i] in s.dirs ==> before.dirs[order[i]] == s.dirs[order[i]])
            && order[i] in before.records && before.records[order[i]] == s.records[order[i]]
            && after == if order[i] in s.dirs
                        then Store(before.records[order[i] := SetStatus(s.records[order[i]], Terminated)], before.dirs - {order[i]})
                        else before
  {
    var id := order[i];
    assert order[..i + 1] == order[..i] + [id];
    assert id !in order[..i];
    assert WithDirs(s.dirs, order[..i + 1]) == WithDirs(s.dirs, order[..i]) + if id in s.dirs then {id} else {};
  }

  // ---------------------------------------------------------------------------
  // What the clean-up achieves
  // ---------------------------------------------------------------------------

  lemma {:induction false} SubsetIsSmaller<T>(a: set<T>, b: set<T>)
    requires a <= b
    ensures |a| <= |b|
    ensures |a| == |b| ==> a == b
    decreases |a|
  {
    if a != {} {
      var x :| x in a;
      SubsetIsSmaller(a - {x}, b - {x});
      assert a == (a - {x}) + {x} && b == (b - {x}) + {x};
    }
  }

  /** The sessions culled for the disk budget. */
  function Culled(s: Store, w: World, k: nat): set<Id>
    requires k <= |w.order|
  {
    WithDirs(s.dirs, w.order[..k])
  }

  /** No rule terminates it: not terminated before, young enough, among the newest, and not culled for the budget. */
  predicate Survives(s: Store, c: Settings, w: World, k: nat, id: Id)
    requires k <= |w.order|
  {
    && id in s.records && !s.records[id].status.Terminated?
    && s.records[id].created >= Cutoff(w.now, c.retentionDays)
    && id in w.newest && id !in Culled(s, w, k)
  }

  /** Who survives; whether a session was running, stopped or crashed makes no difference. */
  lemma SurvivorsIff(s: Store, c: Settings, w: World, k: nat, id: Id)
    requires k <= |w.order|
    ensures id in StoppableIds(Cleaned(s, c, w, k).records) <==> Survives(s, c, w, k, id)
  {
  }

  /** Which records are kept: those of survivors, and those young enough to be kept after the session. */
  lemma RecordStaysIff(s: Store, c: Settings, w: World, k: nat, id: Id)
    requires k <= |w.order| && id in s.records
    ensures id in Cleaned(s, c, w, k).records <==>
            Survives(s, c, w, k, id) || s.records[id].created >= Cutoff(w.now, c.terminatedRetentionDays)
  {
  }

  /** Afterwards nothing runs, nobody has moved backwards, and no record or directory has appeared. */
  lemma NothingMovesBackwards(s: Store, c: Settings, w: World, k: nat)
    requires k <= |w.order|
    ensures var f := Cleaned(s, c, w, k);
            && (forall id | id in f.records :: !f.records[id].status.Running?)
            && (forall id :: Rank(s.records, id) <= Rank(f.records, id))
            && f.records.Keys <= s.records.Keys
            && (forall id | id in f.dirs :: id in s.dirs && f.dirs[id] == s.dirs[id])
  {
  }

  /** No session is back at an earlier point of its life, and none has come back or appeared. */
  ghost predicate Forward(before: map<Id, Record>, after: map<Id, Record>) {
    forall id :: Rank(before, id) <= Rank(after, id)
  }

  /** A statement of the clean-up on the index. */
  datatype Statement =
    | MarkingCrashed
    | Vacuuming(compressible: set<Id>)
    | TerminatingOlder(cutoff: nat)
    | TerminatingExcess(newest: set<Id>)
    | Culling(culled: set<Id>)
    | Purging(cutoff: nat)

  function Execute(records: map<Id, Record>, statement: Statement): map<Id, Record> {
    match statement
    case MarkingCrashed => MarkCrashed(records)
    case Vacuuming(compressible) => Vacuum(records, compressible)
    case TerminatingOlder(cutoff) => TerminateOlder(records, cutoff)
    case TerminatingExcess(newest) => TerminateExcess(records, newest)
    case Culling(culled) => Cull(Store(records, map[]), culled).records
    case Purging(cutoff) => Purge(records, cutoff)
  }

  function ExecuteAll(records: map<Id, Record>, statements: seq<Statement>): map<Id, Record> {
    if statements == [] then records
    else Execute(ExecuteAll(records, statements[..|statements| - 1]), statements[|statements| - 1])
  }

  /** The clean-up's statements on the index, in order. */
  function Statements(s: Store, c: Settings, w: World, k: nat): seq<Statement>
    requires k <= |w.order|
  {
    [MarkingCrashed, Vacuuming(w.compressible), TerminatingOlder(Cutoff(w.now, c.retentionDays)),
     TerminatingExcess(w.newest), Culling(Culled(s, w, k)), Purging(Cutoff(w.now, c.terminatedRetentionDays))]
  }

  lemma StatementMovesForward(records: map<Id, Record>, statement: Statement)
    ensures Forward(records, Execute(records, statement))
  {
    forall id ensures Rank(records, id) <= Rank(Execute(records, statement), id) {
    }
  }

  /** Whatever statements run in whatever order, between no two of them does a session move backwards. */
  lemma {:induction false} NoStatementMovesBackwards(records: map<Id, Record>, statements: seq<Statement>, i: nat, j: nat)
    requires i <= j <= |statements|
    ensures Forward(ExecuteAll(records, statements[..i]), ExecuteAll(records, statements[..j]))
    decreases j - i
  {
    if i < j {
      NoStatementMovesBackwards(records, statements, i, j - 1);
      assert statements[..j][..j - 1] == statements[..j - 1];
      StatementMovesForward(ExecuteAll(records, statements[..j - 1]), statements[j - 1]);
    }
  }

  lemma ExecuteNext(records: map<Id, Record>, statements: seq<Statement>, next: Statement)
    ensures ExecuteAll(records, statements + [next]) == Execute(ExecuteAll(records, statements), next)
  {
    assert (statements + [next])[..|statements|] == statements;
  }

  /** The clean-up's own statements lead to the records that it leaves. */
  lemma StatementsOfCleanup(s: Store, c: Settings, w: World, k: nat)
    requires k <= |w.order|
    ensures ExecuteAll(s.records, Statements(s, c, w, k)) == Cleaned(s, c, w, k).records
  {
    var all := Statements(s, c, w, k);
    assert all == [] + [all[0]] + [all[1]] + [all[2]] + [all[3]] + [all[4]] + [all[5]];
    ExecuteNext(s.records, [], all[0]);
    ExecuteNext(s.records, [] + [all[0]], all[1]);
    ExecuteNext(s.records, [] + [all[0]] + [all[1]], all[2]);
    ExecuteNext(s.records, [] + [all[0]] + [all[1]] + [all[2]], all[3]);
    ExecuteNext(s.records, [] + [all[0]] + [all[1]] + [all[2]] + [all[3]], all[4]);
    ExecuteNext(s.records, [] + [all[0]] + [all[1]] + [all[2]] + [all[3]] + [all[4]], all[5]);
  }

  /** At most `maxSessions` sessions remain. */
  lemma SessionCapHolds(s: Store, c: Settings, w: World, k: nat)
    requires Possible(s, c, w, k)
    ensures |StoppableIds(Cleaned(s, c, w, k).records)| <= c.maxSessions
  {
    SubsetIsSmaller(StoppableIds(Cleaned(s, c, w, k).records), w.newest);
  }

  /** A directory with the name of a session stays exactly if its session survives and is known, and it was there. */
  lemma SessionDirStaysIff(s: Store, c: Settings, w: World, k: nat, id: Id)
    requires Possible(s, c, w, k) && IsValidSessionId(id)
    ensures var f := Cleaned(s, c, w, k);
            id in f.dirs <==> id in s.dirs && id in StoppableIds(f.records) && id in w.known
  {
    CulledAreTerminated(s, c, w, k, id);
    DirAfterFinish(AfterCull(s, c, w, k), Cutoff(w.now, c.terminatedRetentionDays), w.known, id);
  }

  /** The cull removes the directories of sessions that it terminates, and nothing runs by then. */
  lemma CulledAreTerminated(s: Store, c: Settings, w: World, k: nat, id: Id)
    requires k <= |w.order| && IsOldestFirst(RecordsBeforeCull(s, c, w), w.order)
    ensures var after := AfterCull(s, c, w, k);
            && (id in after.dirs ==> id in s.dirs)
            && (id in s.dirs && id !in after.dirs ==> id in TerminatedIds(after.records))
            && (id in after.records ==> !after.records[id].status.Running?)
  {
    assert id in w.order[..k] ==> id in w.order;
  }

  lemma DirAfterFinish(s: Store, purgeCutoff: nat, known: set<Id>, id: Id)
    requires IsValidSessionId(id) && known <= Purge(s.records, purgeCutoff).Keys
    requires id in s.records ==> !s.records[id].status.Running?
    ensures var f := Finish(s, purgeCutoff, known);
            id in f.dirs <==> id in s.dirs && id in StoppableIds(f.records) && id in known
  {
    assert id in known ==> id in Purge(s.records, purgeCutoff);
  }

  /** The orphan search leaves the directories of all survivors alone exactly if it knows those that have one. */
  lemma NoSurvivorLosesItsDirIff(s: Store, c: Settings, w: World, k: nat)
    requires Possible(s, c, w, k)
    ensures var f := Cleaned(s, c, w, k);
            (forall id | id in StoppableIds(f.records) && id in s.dirs :: id in f.dirs) <==>
            (forall id | id in StoppableIds(f.records) && id in s.dirs && IsValidSessionId(id) :: id in w.known)
  {
    var f := Cleaned(s, c, w, k);
    forall id | id in StoppableIds(f.records) && id in s.dirs
      ensures id in f.dirs <==> !IsValidSessionId(id) || id in w.known
    {
      if IsValidSessionId(id) {
        SessionDirStaysIff(s, c, w, k, id);
      }
    }
  }

  /** If the orphan search's query fails it is taken for an empty answer, and every session loses its directory. */
  lemma FailedQueryRemovesEverySession(s: Store, purgeCutoff: nat, id: Id)
    requires IsValidSessionId(id)
    ensures id !in Finish(s, purgeCutoff, {}).dirs
  {
  }

  /** With at most 10,000 records left the search knows them all. */
  lemma FewRecordsAreAllKnown(records: map<Id, Record>, limit: nat, known: set<Id>)
    requires IsNewest(records, limit, known) && |records| <= limit
    ensures known == records.Keys
  {
    SubsetIsSmaller(known, records.Keys);
  }

  /** A session cap within 10,000 is enough as well, if no two sessions began in the same second. */
  lemma SmallCapProtectsSurvivors(s: Store, c: Settings, w: World, k: nat, id: Id)
    requires Possible(s, c, w, k) && c.maxSessions <= 10_000
    requires forall a, b | a in s.records && b in s.records && a != b :: s.records[a].created != s.records[b].created
    requires id in StoppableIds(Cleaned(s, c, w, k).records)
    ensures id in w.known
  {
    SurvivorsIff(s, c, w, k, id);
    TimesStay(s, c, w, k);
    NewestStayNewest(RecordsBeforeExcess(s, c, w), c.maxSessions, w.newest, Cleaned(s, c, w, k).records, w.known, id);
  }

  lemma NewestStayNewest(before: map<Id, Record>, max: nat, newest: set<Id>, final: map<Id, Record>, known: set<Id>, id: Id)
    requires max <= KNOWN_LIMIT && IsNewest(before, max, newest) && IsNewest(final, KNOWN_LIMIT, known)
    requires final.Keys <= before.Keys && forall x | x in final :: final[x].created == before[x].created
    requires forall a, b | a in before && b in before && a != b :: before[a].created != before[b].created
    requires id in newest && id in final
    ensures id in known
  {
    if id !in known {
      KnownAmongNewest(before, newest, final, known, id);
      SubsetIsSmaller(known + {id}, newest);
      KnownIsFull(final, known, id);
    }
  }

  /** No step changes when a session was created, and none adds a session. */
  lemma TimesStay(s: Store, c: Settings, w: World, k: nat)
    requires k <= |w.order|
    ensures var before, final := RecordsBeforeExcess(s, c, w), Cleaned(s, c, w, k).records;
            && before.Keys == s.records.Keys && (forall x | x in before :: before[x].created == s.records[x].created)
            && final.Keys <= before.Keys && (forall x | x in final :: final[x].created == before[x].created)
  {
  }

  lemma KnownIsFull(records: map<Id, Record>, known: set<Id>, id: Id)
    requires IsNewest(records, KNOWN_LIMIT, known) && id in records && id !in known
    ensures |known| == KNOWN_LIMIT
  {
    if |records| < KNOWN_LIMIT {
      FewRecordsAreAllKnown(records, KNOWN_LIMIT, known);
    }
  }

  lemma KnownAmongNewest(before: map<Id, Record>, newest: set<Id>, final: map<Id, Record>, known: set<Id>, id: Id)
    requires newest <= before.Keys && id in newest && id in final && id !in known
    requires forall a, b | a in newest && b in before && b !in newest :: before[a].created >= before[b].created
    requires known <= final.Keys <= before.Keys
    requires forall x | x in final :: final[x].created == before[x].created
    requires forall a, b | a in known && b in final && b !in known :: final[a].created >= final[b].created
    requires forall a, b | a in before && b in before && a != b :: before[a].created != before[b].created
    ensures known <= newest
  {
  }

  // ---------------------------------------------------------------------------
  // When the orphan search spares every survivor
  // ---------------------------------------------------------------------------

  /** The records not older than a given one, itself included. */
  function NotOlder(records: map<Id, Record>, id: Id): set<Id>
    requires id in records
  {
    set other | other in records && records[other].created >= records[id].created
  }

  /** The records left when the orphans are looked for. */
  function FinalRecords(s: Store, c: Settings, w: World, k: nat): map<Id, Record>
    requires k <= |w.order|
  {
    Purge(AfterCull(s, c, w, k).records, Cutoff(w.now, c.terminatedRetentionDays))
  }

  /** With this answer to the query, every survivor with a directory keeps it. */
  ghost predicate SparesSurvivors(s: Store, c: Settings, w: World, k: nat, known: set<Id>)
    requires k <= |w.order|
  {
    var f := Cleaned(s, c, w.(known := known), k);
    forall id | id in StoppableIds(f.records) && id in s.dirs :: id in f.dirs
  }

  lemma FewNotOlderMeansKnown(records: map<Id, Record>, limit: nat, known: set<Id>, id: Id)
    requires IsNewest(records, limit, known) && id in records && |NotOlder(records, id)| <= limit
    ensures id in known
  {
    if id !in known {
      SubsetIsSmaller(known, records.Keys);
      SubsetIsSmaller(known + {id}, NotOlder(records, id));
      SubsetIsSmaller(known + {id}, records.Keys);
    }
  }

  lemma {:induction false} NewestOf(records: map<Id, Record>, ids: set<Id>) returns (newest: Id)
    requires ids != {} && ids <= records.Keys
    ensures newest in ids && forall id | id in ids :: records[newest].created >= records[id].created
    decreases |ids|
  {
    newest :| newest in ids;
    if ids != {newest} {
      var other := NewestOf(records, ids - {newest});
      assert ids == (ids - {newest}) + {newest};
      if records[other].created > records[newest].created {
        newest := other;
      }
    }
  }

  /** Of any set of records the `n` newest can be chosen. */
  lemma {:induction false} NewestExist(records: map<Id, Record>, ids: set<Id>, n: nat) returns (chosen: set<Id>)
    requires ids <= records.Keys && n <= |ids|
    ensures chosen <= ids && |chosen| == n
    ensures forall a, b | a in chosen && b in ids && b !in chosen :: records[a].created >= records[b].created
    decreases n
  {
    if n == 0 {
      chosen := {};
    } else {
      var newest := NewestOf(records, ids);
      var rest := NewestExist(records, ids - {newest}, n - 1);
      chosen := rest + {newest};
    }
  }

  /** If too many records are not older than one, some answer to the query leaves that one out. */
  lemma SomeAnswerMisses(records: map<Id, Record>, limit: nat, id: Id) returns (known: set<Id>)
    requires id in records && |NotOlder(records, id)| > limit
    ensures IsNewest(records, limit, known) && id !in known
  {
    var others := NotOlder(records, id) - {id};
    assert NotOlder(records, id) == others + {id};
    known := NewestExist(records, others, limit);
    SubsetIsSmaller(others + {id}, records.Keys);
  }

  /**
   Whatever the database answers among the answers it may give, no survivor loses its directory, exactly if for
   each survivor that has one at most 10,000 of the records left are not older.
   */
  lemma EverySurvivorIsSparedIff(s: Store, c: Settings, w: World, k: nat)
    requires Possible(s, c, w, k)
    ensures var final := FinalRecords(s, c, w, k);
            (forall known | IsNewest(final, 10_000, known) :: SparesSurvivors(s, c, w, k, known)) <==>
            (forall id | id in StoppableIds(final) && id in s.dirs && IsValidSessionId(id) :: |NotOlder(final, id)| <= 10_000)
  {
    var final := FinalRecords(s, c, w, k);
    if forall id | id in StoppableIds(final) && id in s.dirs && IsValidSessionId(id) :: |NotOlder(final, id)| <= KNOWN_LIMIT {
      forall known | IsNewest(final, KNOWN_LIMIT, known) ensures SparesSurvivors(s, c, w, k, known) {
        forall id | id in StoppableIds(final) && id in s.dirs && IsValidSessionId(id) ensures id in known {
          FewNotOlderMeansKnown(final, KNOWN_LIMIT, known, id);
        }
        NoSurvivorLosesItsDirIff(s, c, w.(known := known), k);
      }
    } else {
      var id :| id in StoppableIds(final) && id in s.dirs && IsValidSessionId(id) && |NotOlder(final, id)| > KNOWN_LIMIT;
      var known := SomeAnswerMisses(final, KNOWN_LIMIT, id);
      NoSurvivorLosesItsDirIff(s, c, w.(known := known), k);
      assert !SparesSurvivors(s, c, w, k, known);
    }
  }

  /**
   With at most 10,000 records the clean-up does what it is for, whatever the database answers: nothing runs, the
   sessions left are exactly those that no rule terminates and at most the allowed number, the session
   directories left are exactly theirs, the records left are theirs and the young ones, and none has moved back.
   */
  lemma CleanupOfFewRecords(s: Store, c: Settings, w: World, k: nat)
    requires Possible(s, c, w, k) && |s.records| <= 10_000
    ensures var f := Cleaned(s, c, w, k);
            && (forall id | id in f.records :: !f.records[id].status.Running?) && Forward(s.records, f.records)
            && (forall id :: id in StoppableIds(f.records) <==> Survives(s, c, w, k, id))
            && |StoppableIds(f.records)| <= c.maxSessions
            && (forall id | IsValidSessionId(id) :: id in f.dirs <==> id in s.dirs && Survives(s, c, w, k, id))
            && (forall id | id in s.records :: id in f.records <==>
                  Survives(s, c, w, k, id) || s.records[id].created >= Cutoff(w.now, c.terminatedRetentionDays))
  {
    SessionCapHolds(s, c, w, k);
    NothingMovesBackwards(s, c, w, k);
    FinalIsNoLarger(s, c, w, k);
    FewRecordsAreAllKnown(FinalRecords(s, c, w, k), KNOWN_LIMIT, w.known);
    forall id ensures id in StoppableIds(Cleaned(s, c, w, k).records) <==> Survives(s, c, w, k, id) {
      SurvivorsIff(s, c, w, k, id);
    }
    forall id | IsValidSessionId(id)
      ensures id in Cleaned(s, c, w, k).dirs <==> id in s.dirs && Survives(s, c, w, k, id)
    {
      SessionDirStaysIff(s, c, w, k, id);
    }
    forall id | id in s.records
      ensures id in Cleaned(s, c, w, k).records <==>
              Survives(s, c, w, k, id) || s.records[id].created >= Cutoff(w.now, c.terminatedRetentionDays)
    {
      RecordStaysIff(s, c, w, k, id);
    }
  }

  lemma FinalIsNoLarger(s: Store, c: Settings, w: World, k: nat)
    requires k <= |w.order|
    ensures |FinalRecords(s, c, w, k)| <= |s.records|
  {
    var final := FinalRecords(s, c, w, k);
    SubsetIsSmaller(final.Keys, s.records.Keys);
    assert |final.Keys| == |final| && |s.records.Keys| == |s.records|;
  }

  // ---------------------------------------------------------------------------
  // A survivor that the orphan search misses
  // ---------------------------------------------------------------------------

  ghost predicate Distinct(ids: seq<Id>) {
    forall i, j | 0 <= i < j < |ids| :: ids[i] != ids[j]
  }

  /** Vacuumed sessions, one a second. */
  function OneASecond(start: nat, ids: seq<Id>): map<Id, Record> {
    if ids == [] then map[]
    else OneASecond(start, ids[..|ids| - 1])[ids[|ids| - 1] := Record(Vacuumed, start + |ids| - 1, true)]
  }

  lemma {:induction false} OneASecondIs(start: nat, ids: seq<Id>)
    requires Distinct(ids)
    ensures var records := OneASecond(start, ids);
            && |records| == |ids|
            && (forall i | 0 <= i < |ids| :: ids[i] in records && records[ids[i]] == Record(Vacuumed, start + i, true))
            && (forall id | id in records :: id in ids)
    decreases |ids|
  {
    if ids != [] {
      var front, last := ids[..|ids| - 1], ids[|ids| - 1];
      OneASecondIs(start, front);
      assert ids == front + [last];
      assert last !in front;
    }
  }

  lemma OldestFirstOfMany(start: nat, ids: seq<Id>)
    requires Distinct(ids)
    ensures IsOldestFirst(OneASecond(start, ids), ids)
  {
    OneASecondIs(start, ids);
  }

  /** Nothing in the clean-up touches records of vacuumed sessions that are young and within the cap. */
  lemma QuietRecords(records: map<Id, Record>, dirs: map<Id, nat>, youngest: nat, cutoff: nat)
    requires forall id | id in records :: records[id].status.Vacuumed?
    requires forall id | id in records :: records[id].created >= youngest
    ensures TerminateOlder(Vacuum(MarkCrashed(records), {}), youngest) == records
    ensures TerminateExcess(records, records.Keys) == records
    ensures Purge(Cull(Store(records, dirs), {}).records, cutoff) == records
  {
    assert MarkCrashed(records) == records;
    assert Vacuum(records, {}) == records;
    assert Cull(Store(records, dirs), {}).records == records;
  }

  lemma NothingCulled(dirs: map<Id, nat>, order: seq<Id>, usage: nat, budget: nat)
    requires usage <= budget
    ensures IsShortestCull(dirs, order, usage, budget, 0) && WithDirs(dirs, order[..0]) == {}
  {
    assert order[..0] == [] && Freed(dirs, []) == 0;
  }

  lemma SomeIsMissed(records: map<Id, Record>, known: set<Id>) returns (missed: Id)
    requires known <= records.Keys && |known| < |records|
    ensures missed in records && missed !in known
  {
    assert |records.Keys| == |records|;
    assert known - records.Keys == {};
    assert |records.Keys - known| > 0;
    missed :| missed in records.Keys - known;
  }

  lemma OldestIsMissed(records: map<Id, Record>, limit: nat, known: set<Id>, oldest: Id)
    requires IsNewest(records, limit, known) && |records| > limit && oldest in records
    requires forall id | id in records && id != oldest :: records[id].created > records[oldest].created
    ensures oldest !in known
  {
    var missed := SomeIsMissed(records, known);
  }

  /**
   With 10,001 vacuumed sessions, one a second, and caps that keep them all, the oldest is kept and loses its
   directory, whichever of its possible answers the database gives.
   */
  lemma OldestSurvivorLosesItsDir(start: nat, ids: seq<Id>, known: set<Id>) returns (s: Store, c: Settings, w: World)
    requires |ids| == KNOWN_LIMIT + 1 && Distinct(ids) && IsValidSessionId(ids[0])
    requires IsNewest(OneASecond(start, ids), KNOWN_LIMIT, known)
    ensures s.records == OneASecond(start, ids) && c.maxSessions == |ids| && w.known == known && Possible(s, c, w, 0)
    ensures var f := Cleaned(s, c, w, 0);
            ids[0] in StoppableIds(f.records) && ids[0] in s.dirs && ids[0] !in f.dirs
  {
    s, c, w := QuietWorld(start, ids, known);
    OldestOfMany(start, ids, KNOWN_LIMIT, known);
    SessionDirStaysIff(s, c, w, 0, ids[0]);
  }

  lemma OldestOfMany(start: nat, ids: seq<Id>, limit: nat, known: set<Id>)
    requires Distinct(ids) && |ids| > limit && IsNewest(OneASecond(start, ids), limit, known)
    ensures ids[0] in StoppableIds(OneASecond(start, ids)) && ids[0] !in known
  {
    OneASecondIs(start, ids);
    OldestIsMissed(OneASecond(start, ids), limit, known, ids[0]);
  }

  /** The clean-up of such sessions, each with an empty directory, leaves every record as it is. */
  lemma QuietWorld(start: nat, ids: seq<Id>, known: set<Id>) returns (s: Store, c: Settings, w: World)
    requires Distinct(ids) && |ids| <= 100_000 && IsNewest(OneASecond(start, ids), KNOWN_LIMIT, known)
    ensures s.records == OneASecond(start, ids) && c.maxSessions == |ids| && w.known == known && Possible(s, c, w, 0)
    ensures s.dirs.Keys == s.records.Keys && Cleaned(s, c, w, 0).records == s.records
    ensures w.now == start + |ids|
  {
    var records := OneASecond(start, ids);
    OneASecondIs(start, ids);
    s := Store(records, map id | id in records :: 0);
    c := Settings(30, |ids|, 0x4000_0000, 365);
    w := World(start + |ids|, {}, records.Keys, ids, 0, known);
    assert Cutoff(w.now, c.retentionDays) <= start;
    QuietSteps(s, c, w);
    AllAreNewest(records, |ids|);
    OldestFirstOfMany(start, ids);
  }

  lemma QuietSteps(s: Store, c: Settings, w: World)
    requires forall id | id in s.records :: s.records[id].status.Vacuumed?
    requires forall id | id in s.records :: s.records[id].created >= Cutoff(w.now, c.retentionDays)
    requires w.compressible == {} && w.newest == s.records.Keys && w.usage <= c.maxDiskBytes
    ensures RecordsBeforeExcess(s, c, w) == s.records && RecordsBeforeCull(s, c, w) == s.records
    ensures IsShortestCull(s.dirs, w.order, w.usage, c.maxDiskBytes, 0)
    ensures Purge(AfterCull(s, c, w, 0).records, Cutoff(w.now, c.terminatedRetentionDays)) == s.records
    ensures Cleaned(s, c, w, 0).records == s.records
  {
    NothingCulled(s.dirs, w.order, w.usage, c.maxDiskBytes);
    QuietRecords(s.records, s.dirs, Cutoff(w.now, c.retentionDays), Cutoff(w.now, c.terminatedRetentionDays));
  }

  /** The id of a session of some day: the day's number in decimal, then a time and four more digits. */
  function DayId(day: nat): (id: Id)
    ensures IsValidSessionId(id)
  {
    ['0', '0', '0', Digit(day / 10 / 10 / 10 / 10), Digit(day / 10 / 10 / 10), Digit(day / 10 / 10), Digit(day / 10), Digit(day),
     '-', '0', '0', '0', '0', '0', '0', '-', '0', '0', '0', '0']
  }

  function Digit(d: nat): (c: char)
    ensures IsDigit(c)
  {
    ('0' as int + d % 10) as char
  }

  lemma SameDigits(a: nat, b: nat)
    requires Digit(a) == Digit(b) && a / 10 == b / 10
    ensures a == b
  {
    assert (Digit(a) as int) == '0' as int + a % 10 && (Digit(b) as int) == '0' as int + b % 10;
  }

  lemma LastDigits(i: nat, j: nat)
    requires DayId(i) == DayId(j)
    ensures Digit(i) == Digit(j) && Digit(i / 10) == Digit(j / 10) && Digit(i / 10 / 10) == Digit(j / 10 / 10)
    ensures Digit(i / 10 / 10 / 10) == Digit(j / 10 / 10 / 10)
    ensures Digit(i / 10 / 10 / 10 / 10) == Digit(j / 10 / 10 / 10 / 10)
  {
    var x, y := DayId(i), DayId(j);
    assert x[3] == y[3] && x[4] == y[4] && x[5] == y[5] && x[6] == y[6] && x[7] == y[7];
  }

  lemma SameIdSameDay(i: nat, j: nat)
    requires i < 100_000 && j < 100_000
    ensures DayId(i) == DayId(j) ==> i == j
  {
    if DayId(i) == DayId(j) {
      LastDigits(i, j);
      SameDigits(i / 10 / 10 / 10 / 10, j / 10 / 10 / 10 / 10);
      SameDigits(i / 10 / 10 / 10, j / 10 / 10 / 10);
      SameDigits(i / 10 / 10, j / 10 / 10);
      SameDigits(i / 10, j / 10);
      SameDigits(i, j);
    }
  }

  /** There are valid session ids enough. */
  lemma EnoughIds(n: nat) returns (ids: seq<Id>)
    requires n <= 100_000
    ensures |ids| == n && Distinct(ids) && forall i | 0 <= i < n :: ids[i] == DayId(i)
  {
    ids := [];
    for day := 0 to n
      invariant |ids| == day && forall i | 0 <= i < day :: ids[i] == DayId(i)
      invariant Distinct(ids)
    {
      forall i | 0 <= i < day ensures ids[i] != DayId(day) {
        SameIdSameDay(i, day);
      }
      ids := ids + [DayId(day)];
    }
  }

  const START_OF_2026: nat := 1_767_225_600

  /** Such a case: the query succeeds, and the oldest of 10,001 sessions survives without its directory. */
  lemma ASurvivorLosesItsDir() returns (s: Store, c: Settings, w: World, id: Id)
    ensures Possible(s, c, w, 0) && |s.records| == 10_001
    ensures var f := Cleaned(s, c, w, 0);
            id in StoppableIds(f.records) && id in s.dirs && id !in f.dirs
  {
    var ids := EnoughIds(KNOWN_LIMIT + 1);
    OneASecondIs(START_OF_2026, ids);
    var known := NewestOfAll(OneASecond(START_OF_2026, ids), KNOWN_LIMIT);
    id := ids[0];
    s, c, w := OldestSurvivorLosesItsDir(START_OF_2026, ids, known);
  }

  lemma NewestOfAll(records: map<Id, Record>, n: nat) returns (newest: set<Id>)
    requires n <= |records|
    ensures IsNewest(records, n, newest)
  {
    assert |records.Keys| == |records|;
    newest := NewestExist(records, records.Keys, n);
  }

  // ---------------------------------------------------------------------------
  // Where the culls take more than they must
  // ---------------------------------------------------------------------------

  function Least(a: nat, b: nat): nat {
    if a < b then a else b
  }

  /**
   The cap counts records of every status. It leaves as many sessions as it allows exactly if the newest records
   are all sessions that can be culled, or all such sessions are among them; otherwise terminated records in
   those places cost live sessions.
   */
  lemma CapLeavesAsManyAsAllowedIff(records: map<Id, Record>, max: nat, newest: set<Id>)
    requires IsNewest(records, max, newest)
    ensures |StoppableIds(TerminateExcess(records, newest))| == Least(max, |StoppableIds(records)|) <==>
            newest <= StoppableIds(records) || StoppableIds(records) <= newest
  {
    var all := StoppableIds(records);
    var kept := all * newest;
    assert StoppableIds(TerminateExcess(records, newest)) == kept;
    SubsetIsSmaller(kept, all);
    SubsetIsSmaller(kept, newest);
    SubsetIsSmaller(all, records.Keys);
    if |records| <= max {
      FewRecordsAreAllKnown(records, max, newest);
    }
    if newest <= all {
      assert kept == newest;
      SubsetIsSmaller(newest, all);
    }
    if all <= newest {
      assert kept == all;
      SubsetIsSmaller(all, newest);
    }
  }

  lemma {:induction false} NoDirsNothingFreed(dirs: map<Id, nat>, ids: seq<Id>)
    requires WithDirs(dirs, ids) == {}
    ensures Freed(dirs, ids) == 0
    decreases |ids|
  {
    if ids != [] {
      var last := ids[|ids| - 1];
      assert last in dirs ==> last in WithDirs(dirs, ids);
      assert WithDirs(dirs, ids[..|ids| - 1]) <= WithDirs(dirs, ids);
      NoDirsNothingFreed(dirs, ids[..|ids| - 1]);
    }
  }

  /** The disk cull takes a session exactly if the usage is over the budget and some session has a directory. */
  lemma CullsSomethingIff(dirs: map<Id, nat>, order: seq<Id>, usage: nat, budget: nat, k: nat)
    requires IsShortestCull(dirs, order, usage, budget, k)
    ensures WithDirs(dirs, order[..k]) != {} <==> usage > budget && WithDirs(dirs, order) != {}
  {
    assert order[..0] == [] && order[..|order|] == order;
    if WithDirs(dirs, order[..k]) == {} {
      NoDirsNothingFreed(dirs, order[..k]);
    } else {
      assert WithDirs(dirs, order[..k]) <= WithDirs(dirs, order);
      assert Left(usage, Freed(dirs, order[..0])) > budget;
    }
  }

  /** A newer terminated record takes the only place, and the only live session goes. */
  lemma CapExample(newest: set<Id>)
    requires var records: map<Id, Record> := map["a" := Record(Terminated, 2, true), "b" := Record(Stopped, 1, false)];
             IsNewest(records, 1, newest)
    ensures var records: map<Id, Record> := map["a" := Record(Terminated, 2, true), "b" := Record(Stopped, 1, false)];
            StoppableIds(TerminateExcess(records, newest)) == {}
  {
    if "b" in newest {
      if "a" in newest {
        SubsetIsSmaller({"a", "b"}, newest);
      }
    }
  }

  /** The size of the directories that some sessions have. */
  ghost function SizeOf(dirs: map<Id, nat>, ids: set<Id>): nat
    decreases |ids|
  {
    if ids == {} then 0
    else
      var id :| id in ids;
      OwnSize(dirs, id) + SizeOf(dirs, ids - {id})
  }

  function OwnSize(dirs: map<Id, nat>, id: Id): nat {
    if id in dirs then dirs[id] else 0
  }

  lemma {:induction false} SizeWithout(dirs: map<Id, nat>, ids: set<Id>, id: Id)
    requires id in ids
    ensures SizeOf(dirs, ids) == OwnSize(dirs, id) + SizeOf(dirs, ids - {id})
    decreases |ids|
  {
    var first :| first in ids && SizeOf(dirs, ids) == OwnSize(dirs, first) + SizeOf(dirs, ids - {first});
    if first != id {
      SizeWithout(dirs, ids - {first}, id);
      SizeWithout(dirs, ids - {id}, first);
      assert ids - {first} - {id} == ids - {id} - {first};
    }
  }

  /** What the cull counts for a list of sessions is the size of their directories. */
  lemma {:induction false} FreedIsSize(dirs: map<Id, nat>, ids: seq<Id>)
    requires forall i, j | 0 <= i < j < |ids| :: ids[i] != ids[j]
    ensures Freed(dirs, ids) == SizeOf(dirs, set id | id in ids)
    decreases |ids|
  {
    if ids != [] {
      var front, last := ids[..|ids| - 1], ids[|ids| - 1];
      FreedIsSize(dirs, front);
      assert last in (set id | id in ids);
      assert (set id | id in ids) - {last} == (set id | id in front);
      SizeWithout(dirs, (set id | id in ids), last);
    }
  }

  lemma {:induction false} SizeOfUnion(dirs: map<Id, nat>, a: set<Id>, b: set<Id>)
    requires a !! b
    ensures SizeOf(dirs, a + b) == SizeOf(dirs, a) + SizeOf(dirs, b)
    decreases |a|
  {
    if a == {} {
      assert a + b == b;
    } else {
      var id :| id in a;
      SizeOfUnion(dirs, a - {id}, b);
      SizeWithout(dirs, a, id);
      SizeWithout(dirs, a + b, id);
      assert a + b - {id} == (a - {id}) + b;
    }
  }

  lemma {:induction false} SizeOfRest(dirs: map<Id, nat>, rest: map<Id, nat>, ids: set<Id>)
    requires forall id | id in rest :: id in dirs && rest[id] == dirs[id]
    ensures SizeOf(rest, ids) <= SizeOf(dirs, ids)
    decreases |ids|
  {
    if ids != {} {
      var id :| id in ids;
      SizeWithout(rest, ids, id);
      SizeWithout(dirs, ids, id);
      SizeOfRest(dirs, rest, ids - {id});
    }
  }

  /** Removing at least these sessions' directories leaves at most the rest of the size. */
  lemma SizeAfterRemoval(dirs: map<Id, nat>, rest: map<Id, nat>, gone: seq<Id>)
    requires forall i, j | 0 <= i < j < |gone| :: gone[i] != gone[j]
    requires forall id | id in rest :: id in dirs && rest[id] == dirs[id] && id !in gone
    ensures SizeOf(rest, rest.Keys) + Freed(dirs, gone) <= SizeOf(dirs, dirs.Keys)
  {
    var removed := set id | id in gone;
    FreedIsSize(dirs, gone);
    SizeOfRest(dirs, rest, rest.Keys);
    SizeOfUnion(dirs, rest.Keys, removed);
    OnlyDirsHaveSize(dirs, rest.Keys + removed);
    var others := dirs.Keys - (rest.Keys + removed);
    SizeOfUnion(dirs, (rest.Keys + removed) * dirs.Keys, others);
    assert (rest.Keys + removed) * dirs.Keys + others == dirs.Keys;
  }

  lemma {:induction false} OnlyDirsHaveSize(dirs: map<Id, nat>, ids: set<Id>)
    ensures SizeOf(dirs, ids) == SizeOf(dirs, ids * dirs.Keys)
    decreases |ids|
  {
    if ids != {} {
      var id :| id in ids;
      OnlyDirsHaveSize(dirs, ids - {id});
      SizeWithout(dirs, ids, id);
      if id in dirs {
        SizeWithout(dirs, ids * dirs.Keys, id);
        assert (ids - {id}) * dirs.Keys == ids * dirs.Keys - {id};
      } else {
        assert (ids - {id}) * dirs.Keys == ids * dirs.Keys;
      }
    }
  }

  /**
   The disk budget is met, unless no survivor has a directory left: what all directories together take is within
   it if the usage that was measured covers at least the directories.
   */
  lemma BudgetIsMet(s: Store, c: Settings, w: World, k: nat)
    requires Possible(s, c, w, k) && SizeOf(s.dirs, s.dirs.Keys) <= w.usage
    ensures var f := Cleaned(s, c, w, k);
            || SizeOf(f.dirs, f.dirs.Keys) <= c.maxDiskBytes
            || forall id | id in StoppableIds(f.records) :: id !in f.dirs
  {
    var f := Cleaned(s, c, w, k);
    if Left(w.usage, Freed(s.dirs, w.order[..k])) <= c.maxDiskBytes {
      RemovedByCull(s, c, w, k);
      SizeAfterRemoval(s.dirs, f.dirs, w.order[..k]);
    } else {
      forall id | id in StoppableIds(f.records) ensures id !in f.dirs {
        AllAreCulled(s, c, w, k, id);
      }
    }
  }

  lemma RemovedByCull(s: Store, c: Settings, w: World, k: nat)
    requires k <= |w.order|
    ensures var f := Cleaned(s, c, w, k);
            forall id | id in f.dirs :: id in s.dirs && f.dirs[id] == s.dirs[id] && id !in w.order[..k]
  {
  }

  /** A cull that takes the whole list leaves no session with a directory. */
  lemma AllAreCulled(s: Store, c: Settings, w: World, k: nat, id: Id)
    requires k == |w.order| && IsOldestFirst(RecordsBeforeCull(s, c, w), w.order)
    requires id in StoppableIds(Cleaned(s, c, w, k).records)
    ensures id !in Cleaned(s, c, w, k).dirs
  {
    assert w.order[..k] == w.order;
    assert id in StoppableIds(RecordsBeforeCull(s, c, w));
    RemovedByCull(s, c, w, k);
  }

  lemma LowerUsage(usage: nat, freed: nat, more: nat)
    ensures Left(Left(usage, freed), more) <= Left(usage, more)
  {
  }

  /** A cull from a lower usage is shorter, and by how much it matters. */
  lemma ShorterCullIff(dirs: map<Id, nat>, order: seq<Id>, usage: nat, freed: nat, budget: nat, k: nat, needed: nat)
    requires forall i, j | 0 <= i < j < |order| :: order[i] != order[j]
    requires IsShortestCull(dirs, order, usage, budget, k)
    requires IsShortestCull(dirs, order, Left(usage, freed), budget, needed)
    ensures needed <= k && WithDirs(dirs, order[..needed]) <= WithDirs(dirs, order[..k])
    ensures WithDirs(dirs, order[..k]) != WithDirs(dirs, order[..needed]) <==>
            Left(usage, Freed(dirs, order[..needed])) > budget && WithDirs(dirs, order[needed..]) != {}
  {
    LowerUsage(usage, freed, Freed(dirs, order[..k]));
    DirsInParts(dirs, order, needed, k);
    if Left(usage, Freed(dirs, order[..needed])) > budget && WithDirs(dirs, order[needed..]) != {} {
      CullReachesNextDir(dirs, order, usage, budget, k, needed);
    }
  }

  lemma DirsInParts(dirs: map<Id, nat>, order: seq<Id>, n: nat, k: nat)
    requires n <= k <= |order|
    ensures WithDirs(dirs, order[..k]) == WithDirs(dirs, order[..n]) + WithDirs(dirs, order[n..k])
    ensures WithDirs(dirs, order[n..]) == WithDirs(dirs, order[n..k]) + WithDirs(dirs, order[k..])
  {
    assert order[..k] == order[..n] + order[n..k];
    assert order[n..] == order[n..k] + order[k..];
  }

  /** Over the budget, the cull goes on to the next session that has a directory. */
  lemma CullReachesNextDir(dirs: map<Id, nat>, order: seq<Id>, usage: nat, budget: nat, k: nat, n: nat)
    requires forall i, j | 0 <= i < j < |order| :: order[i] != order[j]
    requires IsShortestCull(dirs, order, usage, budget, k) && n <= k
    requires Left(usage, Freed(dirs, order[..n])) > budget && WithDirs(dirs, order[n..]) != {}
    ensures WithDirs(dirs, order[..k]) != WithDirs(dirs, order[..n])
  {
    if WithDirs(dirs, order[n..k]) == {} {
      NoneLeft(dirs, order, usage, budget, k, n);
    } else {
      DirsInParts(dirs, order, n, k);
      var id :| id in WithDirs(dirs, order[n..k]);
      var i :| 0 <= i < k - n && order[n..k][i] == id;
      assert order[n + i] == id;
      assert id !in order[..n];
    }
  }

  lemma NoneLeft(dirs: map<Id, nat>, order: seq<Id>, usage: nat, budget: nat, k: nat, n: nat)
    requires IsShortestCull(dirs, order, usage, budget, k) && n <= k
    requires Left(usage, Freed(dirs, order[..n])) > budget && WithDirs(dirs, order[n..k]) == {}
    ensures WithDirs(dirs, order[n..]) == {}
  {
    NoDirsNothingMore(dirs, order, n, k);
    assert order[n..|order|] == order[n..];
  }

  lemma WithDirsSnoc(dirs: map<Id, nat>, ids: seq<Id>, id: Id)
    ensures WithDirs(dirs, ids + [id]) == WithDirs(dirs, ids) + if id in dirs then {id} else {}
  {
    assert id in ids + [id];
  }

  lemma {:induction false} NoDirsNothingMore(dirs: map<Id, nat>, order: seq<Id>, n: nat, k: nat)
    requires n <= k <= |order| && WithDirs(dirs, order[n..k]) == {}
    ensures Freed(dirs, order[..k]) == Freed(dirs, order[..n])
    decreases k - n
  {
    if n < k {
      assert order[n..k] == order[n..k - 1] + [order[k - 1]];
      WithDirsSnoc(dirs, order[n..k - 1], order[k - 1]);
      NoDirsNothingMore(dirs, order, n, k - 1);
      FreedSnoc(dirs, order, k - 1);
    }
  }

  /** The size of the directories of the sessions that are terminated when the disk cull begins. */
  ghost function Doomed(s: Store, c: Settings, w: World): nat {
    SizeOf(s.dirs, TerminatedIds(RecordsBeforeCull(s, c, w)))
  }

  /**
   The directories of terminated sessions are still counted as used, though they are removed next. Once they
   are gone, culling `needed` sessions is enough; the clean-up culls these, and others that there was room for
   exactly if what those free does not meet the budget by itself and a session after them has a directory.
   */
  lemma CullsNeedlesslyIff(s: Store, c: Settings, w: World, k: nat, needed: nat)
    requires Possible(s, c, w, k)
    requires IsShortestCull(s.dirs, w.order, Left(w.usage, Doomed(s, c, w)), c.maxDiskBytes, needed)
    ensures needed <= k && WithDirs(s.dirs, w.order[..needed]) <= Culled(s, w, k)
    ensures Culled(s, w, k) != WithDirs(s.dirs, w.order[..needed]) <==>
            Left(w.usage, Freed(s.dirs, w.order[..needed])) > c.maxDiskBytes && WithDirs(s.dirs, w.order[needed..]) != {}
  {
    ShorterCullIff(s.dirs, w.order, w.usage, Doomed(s, c, w), c.maxDiskBytes, k, needed);
  }

  lemma AllAreNewest(records: map<Id, Record>, n: nat)
    requires |records| <= n
    ensures IsNewest(records, n, records.Keys)
  {
  }

  /** Two sessions begun in neighbouring seconds. */
  function Two(start: nat, live: Id, aged: Id, status: Status): map<Id, Record> {
    map[live := Record(Vacuumed, start + 1, true), aged := Record(status, start, true)]
  }

  /** Of the two the older one is terminated for its age. */
  lemma OlderIsTerminated(start: nat, live: Id, aged: Id)
    requires live != aged
    ensures TerminateOlder(Vacuum(MarkCrashed(Two(start, live, aged, Vacuumed)), {}), start + 1) == Two(start, live, aged, Terminated)
  {
    var records := Two(start, live, aged, Vacuumed);
    assert MarkCrashed(records) == records;
    assert Vacuum(records, {}) == records;
  }

  /**
   Of a session that is terminated for its age there are ten units on the disk and of a live one five, and the
   budget is ten: the live one is culled, though the budget is met without.
   */
  lemma NeedlessCullExample(start: nat, live: Id, aged: Id, unit: nat) returns (s: Store, c: Settings, w: World)
    requires live != aged && unit > 0
    ensures Possible(s, c, w, 1) && IsShortestCull(s.dirs, w.order, Left(w.usage, Doomed(s, c, w)), c.maxDiskBytes, 0)
    ensures live in Culled(s, w, 1) && SizeOf(s.dirs, s.dirs.Keys) == w.usage && c.maxDiskBytes == 10 * unit
    ensures s.records == Two(start, live, aged, Vacuumed) && w.now == start + 1 + 86_400
  {
    s := Store(Two(start, live, aged, Vacuumed), map[live := 5 * unit, aged := 10 * unit]);
    c := Settings(1, 10, 10 * unit, 365);
    w := World(start + 1 + 86_400, {}, {live, aged}, [live], 15 * unit, {live, aged});
    assert Cutoff(w.now, c.retentionDays) == start + 1 && Cutoff(w.now, c.terminatedRetentionDays) <= start;
    OlderIsTerminated(start, live, aged);
    var before := Two(start, live, aged, Terminated);
    assert RecordsBeforeExcess(s, c, w) == before;
    BothAreNewest(start, before, live, aged);
    CullOfTwo(s.dirs, live, aged, unit);
    FinalOfTwo(start, s.dirs, WithDirs(s.dirs, w.order[..1]), Cutoff(w.now, c.terminatedRetentionDays), live, aged);
  }

  lemma BothAreNewest(start: nat, before: map<Id, Record>, live: Id, aged: Id)
    requires live != aged && before == Two(start, live, aged, Terminated)
    ensures IsNewest(before, 10, {live, aged}) && TerminateExcess(before, {live, aged}) == before
    ensures IsOldestFirst(before, [live]) && TerminatedIds(before) == {aged}
  {
    assert before.Keys == {live, aged} && |before| == |before.Keys|;
    AllAreNewest(before, 10);
    assert StoppableIds(before) == {live};
  }

  lemma YoungStay(records: map<Id, Record>, dirs: map<Id, nat>, culled: set<Id>, cutoff: nat)
    requires forall id | id in records :: records[id].created >= cutoff
    ensures Purge(Cull(Store(records, dirs), culled).records, cutoff).Keys == records.Keys
  {
  }

  lemma FinalOfTwo(start: nat, dirs: map<Id, nat>, culled: set<Id>, cutoff: nat, live: Id, aged: Id)
    requires live != aged && cutoff <= start
    ensures IsNewest(Purge(Cull(Store(Two(start, live, aged, Terminated), dirs), culled).records, cutoff), KNOWN_LIMIT, {live, aged})
  {
    var records := Two(start, live, aged, Terminated);
    YoungStay(records, dirs, culled, cutoff);
    KnowsBoth(Purge(Cull(Store(records, dirs), culled).records, cutoff), live, aged);
  }

  lemma KnowsBoth(final: map<Id, Record>, live: Id, aged: Id)
    requires live != aged && final.Keys == {live, aged}
    ensures IsNewest(final, KNOWN_LIMIT, {live, aged})
  {
    assert |final| == |final.Keys|;
    AllAreNewest(final, KNOWN_LIMIT);
  }

  lemma CullOfTwo(dirs: map<Id, nat>, live: Id, aged: Id, unit: nat)
    requires live != aged && unit > 0 && dirs == map[live := 5 * unit, aged := 10 * unit]
    ensures IsShortestCull(dirs, [live], 15 * unit, 10 * unit, 1)
    ensures IsShortestCull(dirs, [live], Left(15 * unit, SizeOf(dirs, {aged})), 10 * unit, 0)
    ensures WithDirs(dirs, [live][..1]) == {live} && SizeOf(dirs, dirs.Keys) == 15 * unit
  {
    var order := [live];
    SizeWithout(dirs, {aged}, aged);
    assert dirs.Keys == {live, aged} && dirs.Keys - {live} == {aged};
    SizeWithout(dirs, dirs.Keys, live);
    assert order[..0] == [] && order[..1] == order;
    assert Freed(dirs, order[..0]) == 0;
    WithDirsSnoc(dirs, [], live);
    assert [] + [live] == order;
  }
}
