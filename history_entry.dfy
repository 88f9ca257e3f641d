/**
 * One htid's association with one record (class HistoryEntry of
 * rec_only_test.rb), together with the identifier and period types shared by
 * the whole model.
 */
module HistoryEntries {

  /** An item identifier: an opaque string. */
  type Htid = string

  /** A record identifier, after leading zeros have been stripped and it was parsed. */
  type RecId = int

  /** A snapshot month written as the integer YYYYMM; 0 stands for "never". */
  type Period = int

  /** A non-empty set of record ids has an element to pick. */
  lemma NonEmptyHasElement(xs: set<RecId>)
    requires xs != {}
    ensures exists x :: x in xs
  {
    if forall x :: x !in xs {
      assert false;
    }
  }

  /** The later of two months, `[a, b].max`. */
  function Later(a: Period, b: Period): (m: Period)
    ensures m >= a && m >= b && (m == a || m == b)
  {
    if b > a then b else a
  }

  /**
   * The first month the htid was seen on the record and the month of its most
   * recent sighting there.  The source updates `last_seen_here` of the entry
   * object in place; the entry belongs to exactly one record, so the model
   * replaces the value in the record's map instead.
   */
  datatype HistoryEntry = HistoryEntry(htid: Htid, appearedOn: Period, lastSeenHere: Period) {

    /** `existed_here_on`: the htid was still on the record in month `yyyymm`. */
    predicate ExistedHereOn(yyyymm: Period) {
      lastSeenHere >= yyyymm
    }

    /** `to_json`: the logical shape `{htid, app, lsh}` of the serialised entry. */
    function ToJson(): EntryJson {
      EntryJson(htid, appearedOn, lastSeenHere)
    }
  }

  /** The parsed JSON object of one entry. */
  datatype EntryJson = EntryJson(htid: Htid, app: Period, lsh: Period)

  /** `HistoryEntry.json_create`. */
  function EntryFromJson(j: EntryJson): HistoryEntry {
    HistoryEntry(j.htid, j.app, j.lsh)
  }

  /** Serialising an entry and reading it back gives the same entry. */
  lemma EntryJsonRoundTrip(e: HistoryEntry)
    ensures EntryFromJson(e.ToJson()) == e
  {
  }

  /** The serialised form of a record's entry map. */
  function EntriesToJson(entries: map<Htid, HistoryEntry>): (j: map<Htid, EntryJson>)
    ensures j.Keys == entries.Keys
  {
    map h | h in entries :: entries[h].ToJson()
  }

  /** The entry map `json_create` rebuilds from a parsed `entries` object. */
  function EntriesFromJson(j: map<Htid, EntryJson>): (entries: map<Htid, HistoryEntry>)
    ensures entries.Keys == j.Keys
  {
    map h | h in j :: EntryFromJson(j[h])
  }

  /** Serialising an entry map and reading it back gives the same map. */
  lemma EntriesJsonRoundTrip(entries: map<Htid, HistoryEntry>)
    ensures EntriesFromJson(EntriesToJson(entries)) == entries
  {
    var back := EntriesFromJson(EntriesToJson(entries));
    forall h | h in entries ensures back[h] == entries[h] {
      EntryJsonRoundTrip(entries[h]);
    }
  }
}
