/**
 * What the history store promises across calls: repeated sightings change
 * nothing, a record is live exactly when its last sighting is in the newest
 * load, the lookup names live owners only, pruning leaves exactly the owned
 * htids, and the redirects it then yields are single hops from dead records
 * to live ones.
 */
module RecordStoreLemmas {
  import opened Wrappers
  import opened HistoryEntries
  import opened RecordHistory
  import opened RecordStore

  // ---------------------------------------------------------------- one record

  /** Seeing the same htid twice in the same month is seeing it once. */
  lemma SeeIdempotent(r: RecordView, htid: Htid, yyyymm: Period)
    ensures SeeView(SeeView(r, htid, yyyymm), htid, yyyymm) == SeeView(r, htid, yyyymm)
  {
    var once := SeeView(r, htid, yyyymm);
    assert SeeView(once, htid, yyyymm).entries == once.entries;
  }

  /** `see` files every entry under its own htid. */
  lemma SeeKeepsKeyed(r: RecordView, htid: Htid, yyyymm: Period)
    requires KeyedByHtid(r)
    ensures KeyedByHtid(SeeView(r, htid, yyyymm))
  {
  }

  /** `current_htids` holds exactly the htids last seen on or after the as-of month, and only when the record is live then. */
  lemma CurrentHtidsExact(r: RecordView, yyyymm: Period, htid: Htid)
    ensures htid in ComputeCurrentView(r, yyyymm).currentHtids <==>
              r.mostRecentlySeen == yyyymm && htid in r.entries && r.entries[htid].lastSeenHere >= yyyymm
  {
  }

  /** The two current sets agree: the current htids are the htids of the current entries. */
  lemma CurrentSetsAgree(r: RecordView, yyyymm: Period)
    requires KeyedByHtid(r)
    ensures HtidsOf(ComputeCurrentView(r, yyyymm).currentEntries) == ComputeCurrentView(r, yyyymm).currentHtids
  {
    var c := ComputeCurrentView(r, yyyymm);
    forall h | h in c.currentHtids
      ensures h in HtidsOf(c.currentEntries)
    {
      assert r.entries[h] in c.currentEntries;
    }
  }

  // ---------------------------------------------------------------- the store

  /** Repeating `add` with the same arguments leaves the state of doing it once. */
  lemma AddIdempotent(s: StoreView, htid: Htid, recid: RecId, yyyymm: Period)
    ensures AddView(AddView(s, htid, recid, yyyymm), htid, recid, yyyymm) == AddView(s, htid, recid, yyyymm)
  {
    var once := AddView(s, htid, recid, yyyymm);
    SeeIdempotent(RecordOrNew(s, recid), htid, yyyymm);
    assert once.records[recid := SeeView(once.records[recid], htid, yyyymm)] == once.records;
  }

  /** `add_record` keeps every record under its own id and within the newest load. */
  lemma AddRecordKeepsInvariant(s: StoreView, r: RecordView)
    requires WellKeyed(s) && LoadBounded(s)
    ensures WellKeyed(AddRecordView(s, r)) && LoadBounded(AddRecordView(s, r))
  {
  }

  /** Every record is filed under its own htids. */
  ghost predicate AllKeyed(s: StoreView) {
    forall k :: k in s.records ==> KeyedByHtid(s.records[k])
  }

  lemma AddKeepsKeyed(s: StoreView, htid: Htid, recid: RecId, yyyymm: Period)
    requires AllKeyed(s)
    ensures AllKeyed(AddView(s, htid, recid, yyyymm))
  {
    SeeKeepsKeyed(RecordOrNew(s, recid), htid, yyyymm);
  }

  /** One `(htid, recid, yyyymm)` line of a monthly file. */
  datatype Sighting = Sighting(htid: Htid, recid: RecId, yyyymm: Period)

  /** `add` applied to each sighting in turn. */
  function IngestAll(s: StoreView, xs: seq<Sighting>): StoreView
    decreases |xs|
  {
    if xs == [] then s else IngestAll(AddView(s, xs[0].htid, xs[0].recid, xs[0].yyyymm), xs[1..])
  }

  /** The latest of `acc` and every month in `xs`. */
  function LatestMonth(xs: seq<Sighting>, acc: Period): Period
    decreases |xs|
  {
    if xs == [] then acc else LatestMonth(xs[1..], Later(acc, xs[0].yyyymm))
  }

  /** The latest of `acc` and every month in which `xs` sights record `recid`. */
  function LatestMonthOf(xs: seq<Sighting>, recid: RecId, acc: Period): Period
    decreases |xs|
  {
    if xs == [] then acc
    else LatestMonthOf(xs[1..], recid, if xs[0].recid == recid then Later(acc, xs[0].yyyymm) else acc)
  }

  /** Some sighting in `xs` is of record `recid`. */
  predicate Sights(xs: seq<Sighting>, recid: RecId) {
    exists i :: 0 <= i < |xs| && xs[i].recid == recid
  }

  /** The newest load is the latest month loaded. */
  lemma {:induction false} IngestNewestLoad(s: StoreView, xs: seq<Sighting>)
    ensures IngestAll(s, xs).newestLoad == LatestMonth(xs, s.newestLoad)
    decreases |xs|
  {
    if xs != [] {
      IngestNewestLoad(AddView(s, xs[0].htid, xs[0].recid, xs[0].yyyymm), xs[1..]);
    }
  }

  /** A record is stored once some sighting names it, and only then. */
  lemma {:induction false} IngestRecords(s: StoreView, xs: seq<Sighting>, recid: RecId)
    ensures recid in IngestAll(s, xs).records <==> recid in s.records || Sights(xs, recid)
    decreases |xs|
  {
    if xs != [] {
      var s' := AddView(s, xs[0].htid, xs[0].recid, xs[0].yyyymm);
      IngestRecords(s', xs[1..], recid);
      if Sights(xs, recid) && xs[0].recid != recid {
        var i :| 0 <= i < |xs| && xs[i].recid == recid;
        assert xs[1..][i - 1].recid == recid;
      }
      if Sights(xs[1..], recid) {
        var i :| 0 <= i < |xs[1..]| && xs[1..][i].recid == recid;
        assert xs[i + 1].recid == recid;
      }
    }
  }

  /** `most_recently_seen` is the latest month in which the record was sighted. */
  lemma {:induction false} IngestMostRecentlySeen(s: StoreView, xs: seq<Sighting>, recid: RecId)
    ensures RecordOrNew(IngestAll(s, xs), recid).mostRecentlySeen ==
              LatestMonthOf(xs, recid, RecordOrNew(s, recid).mostRecentlySeen)
    decreases |xs|
  {
    if xs != [] {
      var s' := AddView(s, xs[0].htid, xs[0].recid, xs[0].yyyymm);
      IngestMostRecentlySeen(s', xs[1..], recid);
    }
  }

  /**
   * After loading the sightings `xs` into a new store, a record is live as of
   * the newest load exactly when it was sighted and its latest sighting is in
   * the latest month loaded.
   */
  lemma LiveIffSeenInNewestLoad(xs: seq<Sighting>, recid: RecId)
    ensures var s := IngestAll(EmptyStore(), xs);
            recid in s.records && IsLive(s.records[recid], s.newestLoad) <==>
              Sights(xs, recid) && LatestMonthOf(xs, recid, 0) == LatestMonth(xs, 0)
  {
    IngestNewestLoad(EmptyStore(), xs);
    IngestRecords(EmptyStore(), xs, recid);
    IngestMostRecentlySeen(EmptyStore(), xs, recid);
  }

  /** Loading sightings from a store that keeps the invariant keeps it. */
  lemma {:induction false} IngestKeepsInvariant(s: StoreView, xs: seq<Sighting>)
    requires WellKeyed(s) && LoadBounded(s)
    ensures WellKeyed(IngestAll(s, xs)) && LoadBounded(IngestAll(s, xs))
    decreases |xs|
  {
    if xs != [] {
      AddKeepsInvariant(s, xs[0].htid, xs[0].recid, xs[0].yyyymm);
      IngestKeepsInvariant(AddView(s, xs[0].htid, xs[0].recid, xs[0].yyyymm), xs[1..]);
    }
  }

  /** A stored record is deleted exactly when it is not live as of the newest load. */
  lemma DeletedIffNotLive(s: StoreView, recid: RecId)
    requires LoadBounded(s) && recid in s.records
    ensures recid in DeletedRecids(s) <==> !IsLive(s.records[recid], s.newestLoad)
  {
  }

  // ---------------------------------------------------------------- the lookup

  /** Computing the current sets for the newest load from a live lookup leaves it live. */
  lemma ComputedLookupLive(before: StoreView, after: StoreView)
    requires ComputedCurrentSets(before, after, before.newestLoad)
    requires LookupLive(before)
    ensures LookupLive(after)
  {
    forall h | h in after.currentRecordFor
      ensures after.currentRecordFor[h] in after.records && IsLive(after.records[after.currentRecordFor[h]], after.newestLoad)
    {
      var k := after.currentRecordFor[h];
      if h in before.currentRecordFor && k == before.currentRecordFor[h] {
        assert after.records[k] == Refreshed(before.records[k], before.newestLoad);
      }
    }
  }

  /**
   * A lookup entry set by `compute_current_sets!(yyyymm)` names a record last
   * seen in `yyyymm` whose `current_htids` holds the htid.
   */
  lemma ComputedOwnerHoldsHtid(before: StoreView, after: StoreView, yyyymm: Period, htid: Htid)
    requires ComputedCurrentSets(before, after, yyyymm) && AllKeyed(before)
    requires htid in after.currentRecordFor
    requires !(htid in before.currentRecordFor && after.currentRecordFor[htid] == before.currentRecordFor[htid])
    ensures after.currentRecordFor[htid] in after.records
    ensures after.records[after.currentRecordFor[htid]].mostRecentlySeen == yyyymm
    ensures htid in after.records[after.currentRecordFor[htid]].currentHtids
  {
    var k := after.currentRecordFor[htid];
    assert Owns(after, k, htid, yyyymm);
    assert after.records[k] == ComputeCurrentView(before.records[k], yyyymm);
    CurrentSetsAgree(before.records[k], yyyymm);
  }

  /** Every current htid of a live record is in the lookup afterwards, and names one of its live owners. */
  lemma ComputedCoversCurrent(before: StoreView, after: StoreView, yyyymm: Period, k: RecId, htid: Htid)
    requires ComputedCurrentSets(before, after, yyyymm) && AllKeyed(before)
    requires k in after.records && after.records[k].mostRecentlySeen >= yyyymm
    requires htid in after.records[k].currentHtids
    ensures htid in after.currentRecordFor && Owns(after, after.currentRecordFor[htid], htid, yyyymm)
  {
    assert after.records[k] == ComputeCurrentView(before.records[k], yyyymm);
    CurrentSetsAgree(before.records[k], yyyymm);
    var e :| e in after.records[k].currentEntries && e.htid == htid;
  }

  // ---------------------------------------------------------------- pruning

  /** After pruning each record holds exactly its entries whose htids have owners, each unchanged. */
  lemma PruneKeepsExactlyOwned(s: StoreView, recid: RecId, htid: Htid)
    requires PruneView(s).Success? && recid in s.records
    ensures var t := PruneView(s).value;
            && recid in t.records
            && (htid in t.records[recid].entries <==> htid in s.records[recid].entries && htid in s.currentRecordFor)
            && (htid in t.records[recid].entries ==> t.records[recid].entries[htid] == s.records[recid].entries[htid])
            && t.records[recid].mostRecentlySeen == s.records[recid].mostRecentlySeen
  {
  }

  /** Pruning only deletes: the other parts of the store are kept. */
  lemma PruneOnlyDeletes(s: StoreView)
    requires PruneView(s).Success?
    ensures var t := PruneView(s).value;
            && t.newestLoad == s.newestLoad
            && t.currentRecordFor == s.currentRecordFor
            && (forall k :: k in t.records ==> t.records[k].entries.Keys <= s.records[k].entries.Keys)
  {
  }

  /** Pruning a pruned store changes nothing. */
  lemma PruneIdempotent(s: StoreView)
    requires PruneView(s).Success?
    ensures PruneView(PruneView(s).value) == PruneView(s)
  {
    var t := PruneView(s).value;
    forall k | k in t.records
      ensures LiveEntries(t.records[k].entries, t.currentRecordFor) == t.records[k].entries
    {
    }
    assert (map k | k in t.records :: t.records[k].(entries := LiveEntries(t.records[k].entries, t.currentRecordFor))) == t.records;
  }

  /** The pruning keeps the store's invariants and a live lookup. */
  lemma PruneKeepsInvariant(s: StoreView)
    requires PruneView(s).Success? && WellKeyed(s) && LoadBounded(s) && LookupLive(s)
    ensures var t := PruneView(s).value; WellKeyed(t) && LoadBounded(t) && LookupLive(t)
  {
  }

  /** After pruning, `redirects` does not raise. */
  lemma PrunedRedirectsDefined(s: StoreView)
    requires PruneView(s).Success?
    ensures RedirectsOf(PruneView(s).value).Success?
  {
    var t := PruneView(s).value;
    forall k | k in DeletedRecids(t)
      ensures !HasUnownedHtid(t, k)
    {
      assert t.records[k].entries.Keys <= s.currentRecordFor.Keys;
    }
  }

  // ---------------------------------------------------------------- redirects

  /**
   * Every redirect goes from a deleted record to a live one that owns every
   * htid the deleted record held; so source and target differ and no target
   * is itself a source, and following a redirect takes one hop.
   */
  lemma RedirectsSound(s: StoreView, m: map<RecId, RecId>, src: RecId)
    requires LookupLive(s) && RedirectsOf(s) == Success(m) && src in m
    ensures src in s.records && s.records[src].mostRecentlySeen < s.newestLoad
    ensures m[src] in s.records && IsLive(s.records[m[src]], s.newestLoad)
    ensures m[src] != src && m[src] !in m
    ensures forall h :: h in s.records[src].entries ==> h in s.currentRecordFor && s.currentRecordFor[h] == m[src]
  {
    var owners := Owners(s, src);
    var target := m[src];
    assert |owners| == 1;
    NonEmptyHasElement(owners);
    var x :| x in owners;
    TheOneIsTheElement(owners, x);
    var h :| h in s.records[src].entries && h in s.currentRecordFor && s.currentRecordFor[h] == x;
    forall h' | h' in s.records[src].entries
      ensures h' in s.currentRecordFor && s.currentRecordFor[h'] == target
    {
      assert !HasUnownedHtid(s, src);
      assert s.currentRecordFor[h'] in owners;
      assert |owners - {x}| == 0;
    }
  }

  /** A deleted record gets a redirect exactly when the owners of its htids are one record. */
  lemma RedirectsComplete(s: StoreView, m: map<RecId, RecId>, src: RecId)
    requires RedirectsOf(s) == Success(m)
    ensures src in m <==> src in s.records && IsDeleted(s, src) && |Owners(s, src)| == 1
  {
  }

  /** `redirects` raises exactly when some deleted record holds an htid without an owner. */
  lemma RedirectsFailIff(s: StoreView)
    ensures RedirectsOf(s).Failure? <==>
              exists k :: k in s.records && IsDeleted(s, k) && HasUnownedHtid(s, k)
  {
  }

  /**
   * The monthly pipeline: compute the current sets for the newest load from
   * an empty lookup, prune, then derive redirects.  Pruning raises only when
   * no htid is current, and otherwise `redirects` succeeds with sound pairs.
   */
  lemma Pipeline(s: StoreView, computed: StoreView)
    requires WellKeyed(s) && LoadBounded(s) && s.currentRecordFor == map[]
    requires ComputedCurrentSets(s, computed, s.newestLoad)
    ensures LookupLive(computed)
    ensures PruneView(computed).Failure? <==> |computed.currentRecordFor| == 0
    ensures PruneView(computed).Success? ==>
              var pruned := PruneView(computed).value;
              && RedirectsOf(pruned).Success?
              && LookupLive(pruned)
              && forall src :: src in RedirectsOf(pruned).value ==>
                   && IsDeleted(pruned, src)
                   && RedirectsOf(pruned).value[src] in pruned.records
                   && IsLive(pruned.records[RedirectsOf(pruned).value[src]], pruned.newestLoad)
                   && RedirectsOf(pruned).value[src] !in RedirectsOf(pruned).value
  {
    ComputedLookupLive(s, computed);
    if PruneView(computed).Success? {
      var pruned := PruneView(computed).value;
      PrunedRedirectsDefined(computed);
      var m := RedirectsOf(pruned).value;
      forall src | src in m
        ensures && IsDeleted(pruned, src)
                && m[src] in pruned.records
                && IsLive(pruned.records[m[src]], pruned.newestLoad)
                && m[src] !in m
      {
        RedirectsSound(pruned, m, src);
      }
    }
  }
  /**
   * In the same order, pruning raises exactly when no record seen in the
   * newest load still has an htid that was last seen on it in that load.
   */
  lemma {:induction false} PipelinePruneFailsIff(s: StoreView, computed: StoreView)
    requires s.currentRecordFor == map[]
    requires ComputedCurrentSets(s, computed, s.newestLoad)
    ensures PruneView(computed).Failure? <==>
              forall k, h :: k in s.records && IsLive(s.records[k], s.newestLoad) && h in s.records[k].entries ==>
                s.records[k].entries[h].lastSeenHere < s.newestLoad
  {
    var m := s.newestLoad;
    if exists k, h :: k in s.records && IsLive(s.records[k], m) && h in s.records[k].entries && s.records[k].entries[h].lastSeenHere >= m {
      var k, h :| k in s.records && IsLive(s.records[k], m) && h in s.records[k].entries && s.records[k].entries[h].lastSeenHere >= m;
      var e := s.records[k].entries[h];
      assert computed.records[k] == ComputeCurrentView(s.records[k], m);
      assert e in computed.records[k].currentEntries;
      assert e.htid in computed.currentRecordFor;
    }
  }

  /**
   * Loading a later month before an earlier one makes pruning raise: `see`
   * sets the entry's last sighting back to 202301, the record stays last seen
   * in 202302, so no htid is current and the lookup stays empty.
   */
  lemma OutOfOrderLoadsMakePruneRaise()
    ensures var s := AddView(AddView(EmptyStore(), "a", 1, 202302), "a", 1, 202301);
            && s.records.Keys == {1} && s.newestLoad == 202302
            && IsLive(s.records[1], s.newestLoad) && s.records[1].entries.Keys == {"a"}
            && forall computed :: ComputedCurrentSets(s, computed, s.newestLoad) ==> PruneView(computed).Failure?
  {
    var s := AddView(AddView(EmptyStore(), "a", 1, 202302), "a", 1, 202301);
    assert s.records[1].entries["a"] == HistoryEntry("a", 202302, 202301);
    forall computed | ComputedCurrentSets(s, computed, s.newestLoad)
      ensures PruneView(computed).Failure?
    {
      PipelinePruneFailsIff(s, computed);
    }
  }
}
