/**
 * The history store (class Records of rec_only_test.rb): every record by its
 * id, the newest month loaded, and the htid -> live record lookup built by
 * `compute_current_sets!`, with the operations that ingest sightings, compute
 * current ownership, prune dead htids and derive redirects.
 */
module RecordStore {
  import opened Wrappers
  import opened HistoryEntries
  import opened RecordHistory
  import opened LineParsing

  /**
   * The whole state of a Records object as a value.  `currentRecordFor` maps
   * an htid to the id of the record object `@current_record_for` holds for it:
   * `redirects` reads nothing of that object but its `recid`, which no
   * operation reassigns.
   */
  datatype StoreView = StoreView(
    records: map<RecId, RecordView>,
    newestLoad: Period,
    currentRecordFor: map<Htid, RecId>)

  /** The exceptions the store's operations can raise. */
  datatype StoreError =
    | CurrentSetsNotComputed  // `remove_dead_htids!` with an empty lookup
    | NoLiveOwner             // `redirects` calls `.recid` on the nil owner of a dead htid

  /** `Records.new`. */
  function EmptyStore(): StoreView {
    StoreView(map[], 0, map[])
  }

  /** Each record is stored under its own id. */
  ghost predicate WellKeyed(s: StoreView) {
    forall k :: k in s.records ==> s.records[k].recid == k
  }

  /** The newest load, which starts at 0 and never decreases, is no earlier than any record's last sighting. */
  ghost predicate LoadBounded(s: StoreView) {
    && 0 <= s.newestLoad
    && forall k :: k in s.records ==> s.records[k].mostRecentlySeen <= s.newestLoad
  }

  /** The record `add` updates: the stored one, or a new one if there is none. */
  function RecordOrNew(s: StoreView, recid: RecId): RecordView {
    if recid in s.records then s.records[recid] else EmptyRecord(recid)
  }

  /** `add(htid:, recid:, yyyymm:)`. */
  function AddView(s: StoreView, htid: Htid, recid: RecId, yyyymm: Period): (s': StoreView)
    ensures s'.records.Keys == s.records.Keys + {recid}
    ensures forall k :: k in s.records && k != recid ==> s'.records[k] == s.records[k]
    ensures s'.records[recid] == SeeView(RecordOrNew(s, recid), htid, yyyymm)
    ensures s'.newestLoad == Later(s.newestLoad, yyyymm)
    ensures s'.currentRecordFor == s.currentRecordFor
  {
    StoreView(s.records[recid := SeeView(RecordOrNew(s, recid), htid, yyyymm)],
              Later(s.newestLoad, yyyymm),
              s.currentRecordFor)
  }

  /** `add_hathifile_line_by_date(line, yyyymm)`: the line's sighting, or nothing for a line that does not parse. */
  function AddLineView(s: StoreView, line: string, yyyymm: Period): StoreView {
    match IdsFromLine(line)
    case None => s
    case Some((htid, recid)) => AddView(s, htid, recid, yyyymm)
  }

  /** `add_record(rec)`: store a whole record under its id, replacing any other. */
  function AddRecordView(s: StoreView, r: RecordView): (s': StoreView)
    ensures s'.records == s.records[r.recid := r]
    ensures s'.newestLoad == Later(s.newestLoad, r.mostRecentlySeen)
    ensures s'.currentRecordFor == s.currentRecordFor
  {
    StoreView(s.records[r.recid := r],
              if s.newestLoad < r.mostRecentlySeen then r.mostRecentlySeen else s.newestLoad,
              s.currentRecordFor)
  }

  /** What `compute_current_sets!(yyyymm)` does to one record: only records seen on or after `yyyymm` are recomputed. */
  function Refreshed(r: RecordView, yyyymm: Period): RecordView {
    if r.mostRecentlySeen >= yyyymm then ComputeCurrentView(r, yyyymm) else r
  }

  ghost function HtidsOf(es: set<HistoryEntry>): set<Htid> {
    set e | e in es :: e.htid
  }

  /** Record `k` is live at `yyyymm` and one of its current entries is for `htid`. */
  ghost predicate Owns(s: StoreView, k: RecId, htid: Htid, yyyymm: Period) {
    && k in s.records
    && s.records[k].mostRecentlySeen == yyyymm
    && htid in HtidsOf(s.records[k].currentEntries)
  }

  /**
   * `after` is a possible state after `compute_current_sets!(yyyymm)` from
   * `before`.  The order in which records are visited, and so the owner an
   * htid current on two records ends up with, is left open.
   */
  ghost predicate ComputedCurrentSets(before: StoreView, after: StoreView, yyyymm: Period) {
    && after.records.Keys == before.records.Keys
    && after.newestLoad == before.newestLoad
    && (forall k :: k in before.records ==> after.records[k] == Refreshed(before.records[k], yyyymm))
    // the lookup is never cleared
    && before.currentRecordFor.Keys <= after.currentRecordFor.Keys
    // every lookup entry is either untouched or names a live owner
    && (forall h :: h in after.currentRecordFor ==>
          || (h in before.currentRecordFor && after.currentRecordFor[h] == before.currentRecordFor[h])
          || Owns(after, after.currentRecordFor[h], h, yyyymm))
    // every current htid gets one of its live owners
    && (forall k, e :: k in after.records && after.records[k].mostRecentlySeen >= yyyymm && e in after.records[k].currentEntries ==>
          e.htid in after.currentRecordFor && Owns(after, after.currentRecordFor[e.htid], e.htid, yyyymm))
  }

  /** Every htid in the lookup is owned by a record that is live as of the newest load. */
  ghost predicate LookupLive(s: StoreView) {
    forall h :: h in s.currentRecordFor ==>
      s.currentRecordFor[h] in s.records && IsLive(s.records[s.currentRecordFor[h]], s.newestLoad)
  }

  /** `remove_dead_htids!`: raises on an empty lookup, else keeps only entries with a live owner. */
  function PruneView(s: StoreView): (r: Result<StoreView, StoreError>)
    ensures r.Success? ==> r.value.records.Keys == s.records.Keys
  {
    if |s.currentRecordFor| == 0 then Failure(CurrentSetsNotComputed)
    else Success(s.(records := map k | k in s.records ::
                                s.records[k].(entries := LiveEntries(s.records[k].entries, s.currentRecordFor))))
  }

  /** The test `each_deleted_record` applies: not seen in the newest load. */
  predicate IsDeleted(s: StoreView, k: RecId)
    requires k in s.records
  {
    s.records[k].mostRecentlySeen < s.newestLoad
  }

  /** The records `each_deleted_record` yields. */
  function DeletedRecids(s: StoreView): (ks: set<RecId>)
    ensures ks <= s.records.Keys
  {
    set k | k in s.records && IsDeleted(s, k)
  }

  /** The distinct live owners of the htids ever seen on record `k`. */
  ghost function Owners(s: StoreView, k: RecId): set<RecId>
    requires k in s.records
  {
    set h | h in s.records[k].entries && h in s.currentRecordFor :: s.currentRecordFor[h]
  }

  /** Some htid of record `k` has no owner in the lookup. */
  ghost predicate HasUnownedHtid(s: StoreView, k: RecId)
    requires k in s.records
  {
    !(s.records[k].entries.Keys <= s.currentRecordFor.Keys)
  }

  ghost function TheOne(xs: set<RecId>): RecId
    requires |xs| == 1
  {
    NonEmptyHasElement(xs);
    var x :| x in xs; x
  }

  /**
   * `redirects`: raises if a deleted record holds an htid with no owner;
   * otherwise maps each deleted record whose htids have exactly one distinct
   * owner to that owner.
   */
  ghost function RedirectsOf(s: StoreView): Result<map<RecId, RecId>, StoreError> {
    if exists k :: k in DeletedRecids(s) && HasUnownedHtid(s, k) then Failure(NoLiveOwner)
    else Success(map k | k in DeletedRecids(s) && |Owners(s, k)| == 1 :: TheOne(Owners(s, k)))
  }

  lemma TheOneIsTheElement(xs: set<RecId>, x: RecId)
    requires |xs| == 1 && x in xs
    ensures TheOne(xs) == x
  {
    var y := TheOne(xs);
    assert |xs - {x}| == 0;
  }

  /** `add` keeps every record under its own id and within the newest load. */
  lemma AddKeepsInvariant(s: StoreView, htid: Htid, recid: RecId, yyyymm: Period)
    requires WellKeyed(s) && LoadBounded(s)
    ensures WellKeyed(AddView(s, htid, recid, yyyymm)) && LoadBounded(AddView(s, htid, recid, yyyymm))
  {
  }

  /** `after` is `before` with record `recid` pointed at by each of the entries `es`, and nothing else of it changed. */
  ghost predicate Claimed(before: map<Htid, RecId>, after: map<Htid, RecId>, recid: RecId, es: set<HistoryEntry>) {
    && before.Keys <= after.Keys
    && (forall h :: h in after ==>
          || (h in before && after[h] == before[h])
          || (after[h] == recid && h in HtidsOf(es)))
    && (forall e :: e in es ==> e.htid in after && after[e.htid] == recid)
  }

  /** Records in `done` have been refreshed for `yyyymm`, the others are as they were. */
  ghost predicate RecordsVisited(before: StoreView, now: StoreView, done: set<RecId>, yyyymm: Period) {
    && now.records.Keys == before.records.Keys
    && done <= now.records.Keys
    && now.newestLoad == before.newestLoad
    && (forall k :: k in now.records ==>
          now.records[k] == if k in done then Refreshed(before.records[k], yyyymm) else before.records[k])
  }

  /** Every lookup entry is as it was or names a visited owner. */
  ghost predicate LookupFromVisited(before: StoreView, now: StoreView, done: set<RecId>, yyyymm: Period) {
    && before.currentRecordFor.Keys <= now.currentRecordFor.Keys
    && (forall h :: h in now.currentRecordFor ==>
          || (h in before.currentRecordFor && now.currentRecordFor[h] == before.currentRecordFor[h])
          || (now.currentRecordFor[h] in done && Owns(now, now.currentRecordFor[h], h, yyyymm)))
  }

  /** Every current htid of a visited record has a visited owner. */
  ghost predicate VisitedClaimed(now: StoreView, done: set<RecId>, yyyymm: Period) {
    forall k, e :: k in done && k in now.records && now.records[k].mostRecentlySeen >= yyyymm && e in now.records[k].currentEntries ==>
      && e.htid in now.currentRecordFor
      && now.currentRecordFor[e.htid] in done
      && Owns(now, now.currentRecordFor[e.htid], e.htid, yyyymm)
  }

  /** The state of `compute_current_sets!(yyyymm)` once the records in `done` have been visited. */
  ghost predicate PartlyComputed(before: StoreView, now: StoreView, done: set<RecId>, yyyymm: Period) {
    && RecordsVisited(before, now, done, yyyymm)
    && LookupFromVisited(before, now, done, yyyymm)
    && VisitedClaimed(now, done, yyyymm)
  }

  /** The step `ComputeStep` takes: record `recid` refreshed and its current entries claimed, or nothing. */
  ghost predicate VisitStep(now: StoreView, next: StoreView, recid: RecId, yyyymm: Period)
    requires recid in now.records
  {
    if now.records[recid].mostRecentlySeen < yyyymm then next == now
    else
      && next.records == now.records[recid := ComputeCurrentView(now.records[recid], yyyymm)]
      && next.newestLoad == now.newestLoad
      && Claimed(now.currentRecordFor, next.currentRecordFor, recid, next.records[recid].currentEntries)
  }

  /** An owner that is not the record visited keeps owning across the step. */
  lemma OwnsKept(now: StoreView, next: StoreView, k: RecId, recid: RecId, h: Htid, yyyymm: Period)
    requires recid in now.records && VisitStep(now, next, recid, yyyymm)
    requires k != recid && Owns(now, k, h, yyyymm)
    ensures Owns(next, k, h, yyyymm)
  {
  }

  /** The record visited owns each of its current htids. */
  lemma OwnsVisited(next: StoreView, recid: RecId, h: Htid, yyyymm: Period)
    requires recid in next.records && next.records[recid].currentEntries == CurrentEntriesOf(next.records[recid].entries, next.records[recid].mostRecentlySeen, yyyymm)
    requires h in HtidsOf(next.records[recid].currentEntries)
    ensures Owns(next, recid, h, yyyymm)
  {
  }

  lemma LookupStep(before: StoreView, now: StoreView, next: StoreView, done: set<RecId>, recid: RecId, yyyymm: Period)
    requires RecordsVisited(before, now, done, yyyymm) && LookupFromVisited(before, now, done, yyyymm)
    requires recid in now.records && recid !in done && VisitStep(now, next, recid, yyyymm)
    ensures LookupFromVisited(before, next, done + {recid}, yyyymm)
  {
    if now.records[recid].mostRecentlySeen >= yyyymm {
      forall h | h in next.currentRecordFor
        ensures || (h in before.currentRecordFor && next.currentRecordFor[h] == before.currentRecordFor[h])
                || (next.currentRecordFor[h] in done + {recid} && Owns(next, next.currentRecordFor[h], h, yyyymm))
      {
        if h in before.currentRecordFor && next.currentRecordFor[h] == before.currentRecordFor[h] {
        } else if h in now.currentRecordFor && next.currentRecordFor[h] == now.currentRecordFor[h] {
          OwnsKept(now, next, now.currentRecordFor[h], recid, h, yyyymm);
        } else {
          OwnsVisited(next, recid, h, yyyymm);
        }
      }
    }
  }

  lemma ClaimStep(before: StoreView, now: StoreView, next: StoreView, done: set<RecId>, recid: RecId, yyyymm: Period)
    requires RecordsVisited(before, now, done, yyyymm) && VisitedClaimed(now, done, yyyymm)
    requires recid in now.records && recid !in done && VisitStep(now, next, recid, yyyymm)
    ensures VisitedClaimed(next, done + {recid}, yyyymm)
  {
    if now.records[recid].mostRecentlySeen >= yyyymm {
      forall k, e | k in done + {recid} && k in next.records && next.records[k].mostRecentlySeen >= yyyymm && e in next.records[k].currentEntries
        ensures && e.htid in next.currentRecordFor
                && next.currentRecordFor[e.htid] in done + {recid}
                && Owns(next, next.currentRecordFor[e.htid], e.htid, yyyymm)
      {
        if k == recid {
          assert e.htid in HtidsOf(next.records[recid].currentEntries);
          OwnsVisited(next, recid, e.htid, yyyymm);
        } else {
          assert next.records[k] == now.records[k];
          var owner := now.currentRecordFor[e.htid];
          if next.currentRecordFor[e.htid] == owner {
            OwnsKept(now, next, owner, recid, e.htid, yyyymm);
          } else {
            OwnsVisited(next, recid, e.htid, yyyymm);
          }
        }
      }
    }
  }

  /** Visiting one more record keeps the partial state of `compute_current_sets!`. */
  lemma ComputeStep(before: StoreView, now: StoreView, next: StoreView, done: set<RecId>, recid: RecId, yyyymm: Period)
    requires PartlyComputed(before, now, done, yyyymm)
    requires recid in now.records && recid !in done && VisitStep(now, next, recid, yyyymm)
    ensures PartlyComputed(before, next, done + {recid}, yyyymm)
  {
    LookupStep(before, now, next, done, recid, yyyymm);
    ClaimStep(before, now, next, done, recid, yyyymm);
  }

  /** Once every record has been visited the partial state is the final one. */
  lemma PartlyComputedComplete(before: StoreView, now: StoreView, yyyymm: Period)
    requires PartlyComputed(before, now, before.records.Keys, yyyymm)
    ensures ComputedCurrentSets(before, now, yyyymm)
  {
  }

  class Records {
    /** `@records`: each record's state by its id. */
    var records: map<RecId, RecordView>
    var newestLoad: Period
    /** `@current_record_for`, by the id of the record object it names. */
    var currentRecordFor: map<Htid, RecId>

    function View(): StoreView
      reads this
    {
      StoreView(records, newestLoad, currentRecordFor)
    }

    /** The store's invariant: records under their own ids, none seen after the newest load. */
    ghost predicate Valid()
      reads this
    {
      WellKeyed(View()) && LoadBounded(View())
    }

    /** `Records.new`. */
    constructor ()
      ensures View() == EmptyStore()
      ensures Valid()
    {
      records := map[];
      newestLoad := 0;
      currentRecordFor := map[];
    }

    /** `[](recid)`: the record stored under `recid`, if any. */
    function Get(recid: RecId): (r: Option<RecordView>)
      reads this
      ensures r.Some? <==> recid in records
      ensures Valid() && r.Some? ==> r.value.recid == recid && r.value.mostRecentlySeen <= newestLoad
    {
      if recid in records then Some(records[recid]) else None
    }

    /** `add`: tell record `recid` (created on first use) that it holds `htid` in month `yyyymm`. */
    method Add(htid: Htid, recid: RecId, yyyymm: Period)
      modifies this
      ensures View() == AddView(old(View()), htid, recid, yyyymm)
      ensures old(Valid()) ==> Valid()
    {
      if yyyymm > newestLoad {
        newestLoad := yyyymm;
      }
      var rec := if recid in records then records[recid] else EmptyRecord(recid);
      records := records[recid := SeeView(rec, htid, yyyymm)];
      if old(Valid()) {
        AddKeepsInvariant(old(View()), htid, recid, yyyymm);
      }
    }

    /** `add_hathifile_line_by_date`: add the sighting `line` holds, or skip the line. */
    method AddHathifileLine(line: string, yyyymm: Period)
      modifies this
      ensures View() == AddLineView(old(View()), line, yyyymm)
      ensures old(Valid()) ==> Valid()
    {
      var ids := IdsFromLine(line);
      if ids.Some? {
        var (htid, recid) := ids.value;
        Add(htid, recid, yyyymm);
      }
    }

    /** `add_record`: store a fully hydrated record under its id. */
    method AddRecord(rec: Record)
      modifies this
      ensures View() == AddRecordView(old(View()), rec.View())
      ensures old(Valid()) ==> Valid()
    {
      if newestLoad < rec.mostRecentlySeen {
        newestLoad := rec.mostRecentlySeen;
      }
      records := records[rec.recid := rec.View()];
    }

    /** `current_record_for(htid)`: the id of the live owner of `htid`, if the lookup has one. */
    function CurrentRecordFor(htid: Htid): (r: Option<RecId>)
      reads this
      ensures r.Some? <==> htid in currentRecordFor
      ensures LookupLive(View()) && r.Some? ==> r.value in records && IsLive(records[r.value], newestLoad)
    {
      if htid in currentRecordFor then
        assert View().currentRecordFor[htid] == currentRecordFor[htid];
        Some(currentRecordFor[htid])
      else None
    }

    /**
     * `compute_current_sets!(yyyymm)`: recompute the current sets of every
     * record seen on or after `yyyymm` and point each of its current htids
     * at it in the lookup, which is added to and never cleared.
     */
    method ComputeCurrentSets(yyyymm: Period)
      modifies this
      ensures ComputedCurrentSets(old(View()), View(), yyyymm)
      ensures old(Valid()) ==> Valid()
    {
      ghost var before := View();
      var pending := records.Keys;
      while pending != {}
        invariant pending <= records.Keys
        invariant PartlyComputed(before, View(), records.Keys - pending, yyyymm)
        decreases pending
      {
        NonEmptyHasElement(pending);
        var recid :| recid in pending;
        ghost var now := View();
        var rec := records[recid];
        if rec.mostRecentlySeen >= yyyymm {
          records := records[recid := ComputeCurrentView(rec, yyyymm)];
          ClaimCurrent(recid);
        }
        ghost var done := records.Keys - pending;
        ComputeStep(before, now, View(), done, recid, yyyymm);
        pending := pending - {recid};
        assert records.Keys - pending == done + {recid};
      }
      assert records.Keys - pending == before.records.Keys;
      PartlyComputedComplete(before, View(), yyyymm);
    }

    /** `rec.current_entries.each { |hist| @current_record_for[hist.htid] = rec }` for record `recid`. */
    method ClaimCurrent(recid: RecId)
      requires recid in records
      modifies this
      ensures records == old(records) && newestLoad == old(newestLoad)
      ensures Claimed(old(currentRecordFor), currentRecordFor, recid, records[recid].currentEntries)
    {
      var es := records[recid].currentEntries;
      while es != {}
        invariant records == old(records) && newestLoad == old(newestLoad)
        invariant es <= records[recid].currentEntries
        invariant old(currentRecordFor).Keys <= currentRecordFor.Keys
        invariant forall h :: h in currentRecordFor ==>
                    || (h in old(currentRecordFor) && currentRecordFor[h] == old(currentRecordFor)[h])
                    || (currentRecordFor[h] == recid && h in HtidsOf(records[recid].currentEntries))
        invariant forall e :: e in records[recid].currentEntries - es ==> e.htid in currentRecordFor && currentRecordFor[e.htid] == recid
        decreases es
      {
        var hist :| hist in es;
        currentRecordFor := currentRecordFor[hist.htid := recid];
        es := es - {hist};
      }
    }

    /**
     * `remove_dead_htids!`: raise when the lookup is empty; otherwise drop
     * from every record the entries whose htid has no owner in the lookup.
     */
    method RemoveDeadHtids() returns (outcome: Outcome<StoreError>)
      modifies this
      ensures PruneView(old(View())).Failure? ==>
                outcome == Fail(PruneView(old(View())).error) && View() == old(View())
      ensures PruneView(old(View())).Success? ==>
                outcome == Pass && View() == PruneView(old(View())).value
      ensures old(Valid()) ==> Valid()
    {
      if |currentRecordFor| == 0 {
        return Fail(CurrentSetsNotComputed);
      }
      ghost var before := records;
      var pending := records.Keys;
      while pending != {}
        invariant records.Keys == before.Keys
        invariant pending <= records.Keys
        invariant newestLoad == old(newestLoad) && currentRecordFor == old(currentRecordFor)
        invariant forall k :: k in records ==>
                    records[k] == if k in pending then before[k]
                                  else before[k].(entries := LiveEntries(before[k].entries, currentRecordFor))
        decreases pending
      {
        NonEmptyHasElement(pending);
        var recid :| recid in pending;
        var rec := records[recid];
        records := records[recid := rec.(entries := LiveEntries(rec.entries, currentRecordFor))];
        pending := pending - {recid};
      }
      assert forall k :: k in records ==> records[k] == before[k].(entries := LiveEntries(before[k].entries, currentRecordFor));
      assert records == map k | k in before :: before[k].(entries := LiveEntries(before[k].entries, currentRecordFor));
      outcome := Pass;
    }

    /**
     * `redirects`: map every deleted record whose htids all have owners, and
     * have exactly one distinct owner, to that owner; raise if a deleted
     * record holds an htid with no owner.
     */
    method Redirects() returns (r: Result<map<RecId, RecId>, StoreError>)
      ensures r == RedirectsOf(View())
    {
      var redirs: map<RecId, RecId> := map[];
      var pending := records.Keys;
      while pending != {}
        invariant pending <= records.Keys
        invariant forall k :: k in records.Keys - pending && IsDeleted(View(), k) ==> !HasUnownedHtid(View(), k)
        invariant redirs == map k | k in records.Keys - pending && IsDeleted(View(), k) && |Owners(View(), k)| == 1 :: TheOne(Owners(View(), k))
        decreases pending
      {
        NonEmptyHasElement(pending);
        var recid :| recid in pending;
        if records[recid].mostRecentlySeen < newestLoad {
          var owners := OwnersOf(recid);
          if owners.Failure? {
            return Failure(owners.error);
          }
          if |owners.value| == 1 {
            NonEmptyHasElement(owners.value);
            var target :| target in owners.value;
            TheOneIsTheElement(owners.value, target);
            redirs := redirs[recid := target];
          }
        }
        pending := pending - {recid};
      }
      assert records.Keys - pending == records.Keys;
      assert !exists k :: k in DeletedRecids(View()) && HasUnownedHtid(View(), k);
      assert redirs == map k | k in DeletedRecids(View()) && |Owners(View(), k)| == 1 :: TheOne(Owners(View(), k));
      return Success(redirs);
    }

    /** `rec.entries.keys.map { |htid| current_record_for(htid).recid }.uniq`, as a set. */
    method OwnersOf(recid: RecId) returns (r: Result<set<RecId>, StoreError>)
      requires recid in records
      ensures HasUnownedHtid(View(), recid) <==> r.Failure?
      ensures r.Failure? ==> r.error == NoLiveOwner
      ensures r.Success? ==> r.value == Owners(View(), recid)
    {
      var owners: set<RecId> := {};
      var htids := records[recid].entries.Keys;
      var pending := htids;
      while pending != {}
        invariant pending <= htids
        invariant htids - pending <= currentRecordFor.Keys
        invariant owners == set h | h in htids - pending :: currentRecordFor[h]
        decreases pending
      {
        var htid :| htid in pending;
        if htid !in currentRecordFor {
          return Failure(NoLiveOwner);
        }
        owners := owners + {currentRecordFor[htid]};
        pending := pending - {htid};
      }
      return Success(owners);
    }
  }
}
