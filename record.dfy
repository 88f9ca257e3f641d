/**
 * The history of one record (class Record of rec_only_test.rb): the entries of
 * every htid ever seen on it, the most recent month it was seen at all, and the
 * "current" projection recomputed for an as-of month.
 */
module RecordHistory {
  import opened HistoryEntries

  /** The whole state of a Record object as a value. */
  datatype RecordView = RecordView(
    recid: RecId,
    entries: map<Htid, HistoryEntry>,
    mostRecentlySeen: Period,
    currentEntries: set<HistoryEntry>,
    currentHtids: set<Htid>)

  /** A record that has never been seen (`Record.new`). */
  function EmptyRecord(recid: RecId): RecordView {
    RecordView(recid, map[], 0, {}, {})
  }

  /** The entry map after `see(htid, yyyymm)`. */
  function SeeEntries(entries: map<Htid, HistoryEntry>, htid: Htid, yyyymm: Period): (r: map<Htid, HistoryEntry>)
    ensures r.Keys == entries.Keys + {htid}
    ensures forall h :: h in entries && h != htid ==> r[h] == entries[h]
    ensures htid !in entries ==> r[htid] == HistoryEntry(htid, yyyymm, yyyymm)
    ensures htid in entries ==> r[htid] == entries[htid].(lastSeenHere := yyyymm)
  {
    if htid in entries then
      entries[htid := entries[htid].(lastSeenHere := yyyymm)]
    else
      entries[htid := HistoryEntry(htid, yyyymm, yyyymm)]
  }

  /**
   * `see(htid, yyyymm)`: the record's most recent sighting becomes the later of
   * the two months, while the entry's `last_seen_here` is overwritten with
   * `yyyymm` whether or not it is later.
   */
  function SeeView(r: RecordView, htid: Htid, yyyymm: Period): (r': RecordView)
    ensures r'.recid == r.recid
    ensures r'.entries == SeeEntries(r.entries, htid, yyyymm)
    ensures r'.mostRecentlySeen >= r.mostRecentlySeen && r'.mostRecentlySeen >= yyyymm
    ensures r'.mostRecentlySeen == r.mostRecentlySeen || r'.mostRecentlySeen == yyyymm
    ensures r'.currentEntries == r.currentEntries && r'.currentHtids == r.currentHtids
  {
    r.(entries := SeeEntries(r.entries, htid, yyyymm),
       mostRecentlySeen := if yyyymm > r.mostRecentlySeen then yyyymm else r.mostRecentlySeen)
  }

  /** A record is live as of a month when that is the month it was last seen. */
  predicate IsLive(r: RecordView, asOf: Period) {
    r.mostRecentlySeen == asOf
  }

  /** The htids `compute_current!(yyyymm)` finds current. */
  function CurrentHtidsOf(entries: map<Htid, HistoryEntry>, mostRecentlySeen: Period, yyyymm: Period): (hs: set<Htid>)
    ensures hs <= entries.Keys
    ensures mostRecentlySeen != yyyymm ==> hs == {}
  {
    if mostRecentlySeen != yyyymm then {}
    else set h | h in entries && entries[h].ExistedHereOn(yyyymm)
  }

  /** The entries `compute_current!(yyyymm)` finds current. */
  function CurrentEntriesOf(entries: map<Htid, HistoryEntry>, mostRecentlySeen: Period, yyyymm: Period): (es: set<HistoryEntry>)
    ensures mostRecentlySeen != yyyymm ==> es == {}
    ensures forall e :: e in es ==> e in entries.Values && e.ExistedHereOn(yyyymm)
  {
    if mostRecentlySeen != yyyymm then {}
    else set h | h in entries && entries[h].ExistedHereOn(yyyymm) :: entries[h]
  }

  /** The record after `compute_current!(yyyymm)`. */
  function ComputeCurrentView(r: RecordView, yyyymm: Period): RecordView {
    r.(currentEntries := CurrentEntriesOf(r.entries, r.mostRecentlySeen, yyyymm),
       currentHtids := CurrentHtidsOf(r.entries, r.mostRecentlySeen, yyyymm))
  }

  /** The entries `remove_dead_htids!(current_records)` keeps: those whose htid has a live owner. */
  function LiveEntries(entries: map<Htid, HistoryEntry>, currentRecords: map<Htid, RecId>): (r: map<Htid, HistoryEntry>)
    ensures r.Keys == entries.Keys * currentRecords.Keys
    ensures forall h :: h in r ==> r[h] == entries[h]
  {
    map h | h in entries && h in currentRecords :: entries[h]
  }

  /** Every entry is filed under its own htid, as `see` always files it. */
  ghost predicate KeyedByHtid(r: RecordView) {
    forall h :: h in r.entries ==> r.entries[h].htid == h
  }

  /** The serialised shape `{recid, mrs, entries}` of a record. */
  datatype RecordJson = RecordJson(recid: RecId, mrs: Period, entries: map<Htid, EntryJson>)

  /** `Record#to_json`. */
  function RecordToJson(r: RecordView): RecordJson {
    RecordJson(r.recid, r.mostRecentlySeen, EntriesToJson(r.entries))
  }

  /** `Record.json_create`: the current sets start empty. */
  function RecordFromJson(j: RecordJson): RecordView {
    RecordView(j.recid, EntriesFromJson(j.entries), j.mrs, {}, {})
  }

  class Record {
    const recid: RecId
    var entries: map<Htid, HistoryEntry>
    var mostRecentlySeen: Period
    var currentEntries: set<HistoryEntry>
    var currentHtids: set<Htid>

    function View(): RecordView
      reads this
    {
      RecordView(recid, entries, mostRecentlySeen, currentEntries, currentHtids)
    }

    constructor (recid: RecId)
      ensures View() == EmptyRecord(recid)
    {
      this.recid := recid;
      entries := map[];
      mostRecentlySeen := 0;
      currentEntries := {};
      currentHtids := {};
    }

    /** `Record.json_create`. */
    constructor FromJson(j: RecordJson)
      ensures View() == RecordFromJson(j)
    {
      recid := j.recid;
      mostRecentlySeen := j.mrs;
      entries := EntriesFromJson(j.entries);
      currentEntries := {};
      currentHtids := {};
    }

    /** `Record#to_json`. */
    function ToJson(): (j: RecordJson)
      reads this
      ensures RecordFromJson(j) == View().(currentEntries := {}, currentHtids := {})
    {
      EntriesJsonRoundTrip(entries);
      RecordToJson(View())
    }

    /** `see`: record a sighting of `htid` on this record in month `yyyymm`. */
    method See(htid: Htid, yyyymm: Period)
      modifies this
      ensures View() == SeeView(old(View()), htid, yyyymm)
    {
      if yyyymm > mostRecentlySeen {
        mostRecentlySeen := yyyymm;
      }
      if htid in entries {
        entries := entries[htid := entries[htid].(lastSeenHere := yyyymm)];
      } else {
        entries := entries[htid := HistoryEntry(htid, yyyymm, yyyymm)];
      }
    }

    /** `compute_current!`: rebuild the current sets for the as-of month `yyyymm`. */
    method ComputeCurrent(yyyymm: Period)
      modifies this
      ensures View() == ComputeCurrentView(old(View()), yyyymm)
    {
      currentEntries := {};
      currentHtids := {};
      if mostRecentlySeen != yyyymm {
        return;
      }
      var found: set<HistoryEntry> := {};
      var foundHtids: set<Htid> := {};
      var pending := entries.Keys;
      while pending != {}
        invariant pending <= entries.Keys
        invariant foundHtids == set h | h in entries.Keys - pending && entries[h].ExistedHereOn(yyyymm)
        invariant found == set h | h in entries.Keys - pending && entries[h].ExistedHereOn(yyyymm) :: entries[h]
        decreases pending
      {
        var htid :| htid in pending;
        var hist := entries[htid];
        if hist.ExistedHereOn(yyyymm) {
          found := found + {hist};
          foundHtids := foundHtids + {htid};
        }
        pending := pending - {htid};
      }
      currentEntries := found;
      currentHtids := foundHtids;
    }

    /** `remove`: forget the entry of `htid`, if there is one. */
    method Remove(htid: Htid)
      modifies this
      ensures View() == old(View()).(entries := old(entries) - {htid})
    {
      entries := entries - {htid};
    }

    /** `remove_dead_htids!`: drop every entry whose htid has no live owner. */
    method RemoveDeadHtids(currentRecords: map<Htid, RecId>)
      modifies this
      ensures View() == old(View()).(entries := LiveEntries(old(entries), currentRecords))
    {
      var pending := entries.Keys;
      while pending != {}
        invariant pending <= old(entries).Keys
        invariant entries == map h | h in old(entries) && (h in pending || h in currentRecords) :: old(entries)[h]
        invariant View() == old(View()).(entries := entries)
        decreases pending
      {
        var htid :| htid in pending;
        if htid !in currentRecords {
          Remove(htid);
        }
        pending := pending - {htid};
      }
    }
  }
}
