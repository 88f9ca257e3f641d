/**
 * HTIDHistory (lib/htid_history.rb): the history of one htid over records,
 * a GenericHistory whose ids are record ids, with `moved?` and the
 * `rec_ids` name for its id set.
 */
module HtidHistories {
  import opened HistoryEntries
  import opened IdDates
  import opened GenericHistories

  /** An HTIDHistory: the history of an htid, its appearances being on records. */
  type HtidHistory = GenericHistory<Htid, RecId>

  /** `moved?`: the htid has appeared on more than one record. */
  predicate Moved<I>(st: HistoryState<I>) {
    |st.appearances| > 1
  }

  /** `rec_ids`, the alias of `ids`: the record ids the htid has appeared on. */
  function RecIds(h: HtidHistory): (ids: set<RecId>)
    reads h
    ensures Exact(h.State()) ==> ids == IdsOf(h.appearances)
  {
    h.Ids()
  }

  /** A new history has not moved. */
  lemma FreshNotMoved<I>()
    ensures !Moved(EmptyHistory<I>())
  {
  }

  /** Adding a record id already present never changes `moved?`. */
  lemma ReaddKeepsMoved<I>(st: HistoryState<I>, d: IDDate<I>)
    requires d.id in st.idSet
    ensures Moved(AddState(st, d)) == Moved(st)
  {
    AddSeenKeepsAppearances(st, d);
  }

  /** Because `add` keeps one appearance per record, an htid has moved exactly when it was added on two distinct records. */
  lemma MovedIffTwoRecords<I>(ds: seq<IDDate<I>>)
    ensures Moved(Replay(EmptyHistory(), ds)) <==> |IdsOf(ds)| >= 2
  {
    AppearancesCountIds(ds);
  }

  /** Once moved, always moved: appearances are only appended. */
  lemma MovedStaysMoved<I>(st: HistoryState<I>, ds: seq<IDDate<I>>)
    requires Moved(st)
    ensures Moved(Replay(st, ds))
  {
    ReplayAppendOnly(st, ds);
  }
}
