/** What the clean-up leaves of each session, told from its record before and the answers of the world alone. */
module SessionRecords {
  import opened Retention

  /** Young enough for a retention in days. */
  predicate IsYoung(r: Record, now: nat, days: nat) {
    r.created + days * 86_400 >= now
  }

  /** It is among the first `k` of the list of culling candidates, and has a directory. */
  predicate IsCulled(s: Store, w: World, k: nat, id: Id)
    requires k <= |w.order|
  {
    id in w.order[..k] && id in s.dirs
  }

  /** Not terminated before, young, among the newest, and not culled. */
  predicate IsSpared(s: Store, c: Settings, w: World, k: nat, id: Id)
    requires k <= |w.order| && id in s.records
  {
    && !s.records[id].status.Terminated? && IsYoung(s.records[id], w.now, c.retentionDays)
    && id in w.newest && !IsCulled(s, w, k, id)
  }

  /** Its database is compressed now: it was not before, it can be, and the session was not ended for good. */
  predicate IsCompressedNow(r: Record, w: World, id: Id) {
    (r.status.Running? || r.status.Stopped? || r.status.Crashed?) && !r.vacuumed && id in w.compressible
  }

  /**
   The record of every session afterwards. It is kept if the session is spared or young enough to be kept after
   its end. Spared, a session that ran has crashed, one compressed now is vacuumed, and any other has the status it
   had; not spared, it is terminated. The time is never changed, and the flag by compressing only.
   */
  lemma FinalRecordIs(s: Store, c: Settings, w: World, k: nat, id: Id)
    requires k <= |w.order| && id in s.records
    ensures var f, r := Cleaned(s, c, w, k).records, s.records[id];
            && (id in f <==> IsSpared(s, c, w, k, id) || IsYoung(r, w.now, c.terminatedRetentionDays))
            && (id in f ==>
                  && f[id].created == r.created
                  && f[id].vacuumed == (r.vacuumed || IsCompressedNow(r, w, id))
                  && f[id].status == (if !IsSpared(s, c, w, k, id) then Terminated
                                      else if IsCompressedNow(r, w, id) then Vacuumed
                                      else if r.status.Running? then Crashed
                                      else r.status))
  {
    CutoffIs(w.now, c.retentionDays, s.records[id]);
    CutoffIs(w.now, c.terminatedRetentionDays, s.records[id]);
    BeforeExcessIs(s, c, w, id);
    BeforeCullIs(s, c, w, id);
    AfterCullIs(s, c, w, k, id);
  }

  lemma CutoffIs(now: nat, days: nat, r: Record)
    ensures r.created >= Cutoff(now, days) <==> IsYoung(r, now, days)
  {
  }

  /** After the age statement. */
  lemma BeforeExcessIs(s: Store, c: Settings, w: World, id: Id)
    requires id in s.records
    ensures var f, r := RecordsBeforeExcess(s, c, w), s.records[id];
            && id in f && f[id].created == r.created && f[id].vacuumed == (r.vacuumed || IsCompressedNow(r, w, id))
            && f[id].status == (if r.status.Terminated? || !IsYoung(r, w.now, c.retentionDays) then Terminated
                                else if IsCompressedNow(r, w, id) then Vacuumed
                                else if r.status.Running? then Crashed
                                else r.status)
  {
    CutoffIs(w.now, c.retentionDays, s.records[id]);
  }

  /** After the session cap. */
  lemma BeforeCullIs(s: Store, c: Settings, w: World, id: Id)
    requires id in s.records
    ensures var before, f := RecordsBeforeExcess(s, c, w), RecordsBeforeCull(s, c, w);
            && id in before && id in f
            && f[id] == if id in w.newest then before[id] else before[id].(status := Terminated)
  {
    BeforeExcessIs(s, c, w, id);
  }

  /** After the disk cull. */
  lemma AfterCullIs(s: Store, c: Settings, w: World, k: nat, id: Id)
    requires k <= |w.order| && id in s.records
    ensures var before, f := RecordsBeforeCull(s, c, w), AfterCull(s, c, w, k).records;
            && id in before && id in f
            && f[id] == if IsCulled(s, w, k, id) then before[id].(status := Terminated) else before[id]
  {
    BeforeCullIs(s, c, w, id);
  }

  /** No record appears. */
  lemma NoRecordAppears(s: Store, c: Settings, w: World, k: nat, id: Id)
    requires k <= |w.order| && id !in s.records
    ensures id !in Cleaned(s, c, w, k).records
  {
  }

  /**
   The directory of any name afterwards: a session's stays if the session is spared and the query's answer has it;
   a directory whose name is no session id stays unless it is that of a session that was terminated.
   */
  lemma FinalDirIs(s: Store, c: Settings, w: World, k: nat, name: Id)
    requires k <= |w.order|
    ensures var f := Cleaned(s, c, w, k).dirs;
            && (name in f ==> name in s.dirs && f[name] == s.dirs[name])
            && (name in s.dirs ==>
                  (name in f <==> (name in s.records ==> IsSpared(s, c, w, k, name)) && !IsCulled(s, w, k, name)
                                  && (IsValidSessionId(name) ==> name in w.known)))
  {
    if name in s.records {
      BeforeExcessIs(s, c, w, name);
      BeforeCullIs(s, c, w, name);
      AfterCullIs(s, c, w, k, name);
    }
  }

  /** A session id, character by character. */
  lemma IsSessionIdIff(s: string)
    ensures IsValidSessionId(s) <==>
            |s| == 20 && forall i | 0 <= i < 20 ::
              if i == 8 || i == 15 then s[i] == '-'
              else '0' <= s[i] <= '9' || (i >= 16 && ('a' <= s[i] <= 'f' || 'A' <= s[i] <= 'F'))
  {
    if |s| == 20 && forall i | 0 <= i < 20 ::
         if i == 8 || i == 15 then s[i] == '-'
         else '0' <= s[i] <= '9' || (i >= 16 && ('a' <= s[i] <= 'f' || 'A' <= s[i] <= 'F')) {
      assert s[8] == '-' && s[15] == '-';
    }
  }

  lemma AmongFirst(ids: seq<Id>, k: nat, j: nat)
    requires j < |ids| && k <= |ids|
    ensures j < k ==> ids[j] in ids[..k]
  {
    if j < k {
      assert ids[..k][j] == ids[j];
    }
  }

  /** Of the sessions that can be culled and have a directory, the culled ones are none younger than any left. */
  lemma CullTakesOldest(s: Store, c: Settings, w: World, k: nat, gone: Id, left: Id)
    requires Possible(s, c, w, k) && IsCulled(s, w, k, gone)
    requires left in w.order && !IsCulled(s, w, k, left) && left in s.dirs
    ensures gone in s.records && left in s.records && s.records[gone].created <= s.records[left].created
  {
    var records := RecordsBeforeCull(s, c, w);
    var i :| 0 <= i < k && w.order[i] == gone;
    var j :| 0 <= j < |w.order| && w.order[j] == left;
    assert w.order[i] in w.order && w.order[j] in w.order;
    assert gone in StoppableIds(records) && left in StoppableIds(records);
    BeforeCullIs(s, c, w, gone);
    BeforeExcessIs(s, c, w, gone);
    BeforeCullIs(s, c, w, left);
    BeforeExcessIs(s, c, w, left);
    AmongFirst(w.order, k, j);
  }

  // ---------------------------------------------------------------------------
  // There is always a possible clean-up
  // ---------------------------------------------------------------------------

  /** Some of the sessions, oldest first. */
  ghost predicate IsSorted(records: map<Id, Record>, ids: set<Id>, order: seq<Id>) {
    && (forall id :: id in order <==> id in ids)
    && (forall i, j | 0 <= i < j < |order| :: order[i] != order[j])
    && (forall i, j | 0 <= i < j < |order| && order[i] in records && order[j] in records ::
          records[order[i]].created <= records[order[j]].created)
  }

  lemma {:induction false} SomeOrder(records: map<Id, Record>, ids: set<Id>) returns (order: seq<Id>)
    requires ids <= records.Keys
    ensures IsSorted(records, ids, order)
    decreases |ids|
  {
    if ids == {} {
      order := [];
    } else {
      var newest := NewestOf(records, ids);
      var front := SomeOrder(records, ids - {newest});
      order := front + [newest];
    }
  }

  lemma {:induction false} SomeCull(dirs: map<Id, nat>, order: seq<Id>, usage: nat, budget: nat, n: nat) returns (k: nat)
    requires n <= |order| && NotEnough(dirs, order, usage, budget, n)
    ensures IsShortestCull(dirs, order, usage, budget, k)
    decreases |order| - n
  {
    if n == |order| || Left(usage, Freed(dirs, order[..n])) <= budget {
      k := n;
    } else {
      k := SomeCull(dirs, order, usage, budget, n + 1);
    }
  }

  lemma SomeNewest(records: map<Id, Record>, n: nat) returns (newest: set<Id>)
    ensures IsNewest(records, n, newest)
  {
    if n <= |records| {
      newest := NewestOfAll(records, n);
    } else {
      newest := records.Keys;
      AllAreNewest(records, n);
    }
  }

  /**
   Whatever the store, the settings, the time, the usage measured and the databases that can be compressed, the
   queries have some answer that they may give; so what is stated of possible clean-ups is stated of some.
   */
  lemma SomeCleanupIsPossible(s: Store, c: Settings, now: nat, compressible: set<Id>, usage: nat) returns (w: World, k: nat)
    ensures w.now == now && w.compressible == compressible && w.usage == usage && Possible(s, c, w, k)
  {
    var start := World(now, compressible, {}, [], usage, {});
    var newest := SomeNewest(RecordsBeforeExcess(s, c, start), c.maxSessions);
    var capped := start.(newest := newest);
    var order := SomeOrder(RecordsBeforeCull(s, c, capped), StoppableIds(RecordsBeforeCull(s, c, capped)));
    k := SomeCull(s.dirs, order, usage, c.maxDiskBytes, 0);
    var culled := capped.(order := order);
    var known := SomeNewest(FinalRecords(s, c, culled, k), KNOWN_LIMIT);
    w := culled.(known := known);
    SameBut(s, c, start, capped, culled, w, k);
  }

  /** The answers of later queries make no difference to what earlier ones see. */
  lemma SameBut(s: Store, c: Settings, start: World, capped: World, culled: World, w: World, k: nat)
    requires capped == start.(newest := capped.newest) && culled == capped.(order := culled.order) && w == culled.(known := w.known)
    requires k <= |culled.order|
    ensures RecordsBeforeExcess(s, c, w) == RecordsBeforeExcess(s, c, start)
    ensures RecordsBeforeCull(s, c, w) == RecordsBeforeCull(s, c, capped)
    ensures FinalRecords(s, c, w, k) == FinalRecords(s, c, culled, k)
    ensures FinalRecords(s, c, w, k) == Purge(AfterCull(s, c, w, k).records, Cutoff(w.now, c.terminatedRetentionDays))
  {
  }
}
