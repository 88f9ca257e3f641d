/**
 * GenericHistory (lib/generic_history.rb): the appearances of an htid on
 * records (or of records' htids), kept as an append-only list of IDDates
 * with one entry per id, the first date an id was seen being the one kept,
 * plus the set of ids seen and the latest month of any appearance.
 */
module GenericHistories {
  import opened HistoryEntries
  import opened IdDates

  /** The fields of a history: `@most_recent_appearance`, `@appearances`, `@id_set`. */
  datatype HistoryState<I> = HistoryState(mostRecentAppearance: Period, appearances: seq<IDDate<I>>, idSet: set<I>)

  /** A new history. */
  function EmptyHistory<I(==)>(): HistoryState<I> {
    HistoryState(0, [], {})
  }

  /** The ids of a list of appearances. */
  function IdsOf<I(==)>(apps: seq<IDDate<I>>): set<I> {
    if apps == [] then {} else IdsOf(apps[..|apps| - 1]) + {apps[|apps| - 1].id}
  }

  /** No id appears twice. */
  predicate DistinctIds<I(==)>(apps: seq<IDDate<I>>) {
    forall i, j :: 0 <= i < j < |apps| ==> apps[i].id != apps[j].id
  }

  /**
   * What every history keeps: distinct ids, all of them in the id set.  The
   * id set may hold more, as after the pruning of eliminate_missing_htids.rb.
   */
  ghost predicate Valid<I>(st: HistoryState<I>) {
    DistinctIds(st.appearances) && IdsOf(st.appearances) <= st.idSet
  }

  /** A history whose id set is exactly the ids of its appearances, as `add` alone keeps it. */
  ghost predicate Exact<I>(st: HistoryState<I>) {
    DistinctIds(st.appearances) && st.idSet == IdsOf(st.appearances)
  }

  /** `add(iddate)`: append only an id not seen before; the latest month is raised in every case. */
  function AddState<I(==)>(st: HistoryState<I>, d: IDDate<I>): HistoryState<I> {
    HistoryState(Later(st.mostRecentAppearance, d.dt),
                 if d.id in st.idSet then st.appearances else st.appearances + [d],
                 st.idSet + {d.id})
  }

  /** `add` of each IDDate in turn. */
  function Replay<I(==)>(st: HistoryState<I>, ds: seq<IDDate<I>>): HistoryState<I>
    decreases |ds|
  {
    if ds == [] then st else Replay(AddState(st, ds[0]), ds[1..])
  }

  /** The reference for what replaying keeps: each IDDate whose id no earlier one had, in order. */
  function FirstSightings<I(==)>(ds: seq<IDDate<I>>): seq<IDDate<I>> {
    if ds == [] then []
    else
      var prefix := ds[..|ds| - 1];
      var d := ds[|ds| - 1];
      FirstSightings(prefix) + if d.id in IdsOf(prefix) then [] else [d]
  }

  /** The latest of `acc` and every month in `ds`. */
  function LatestDate<I(==)>(ds: seq<IDDate<I>>, acc: Period): Period
    decreases |ds|
  {
    if ds == [] then acc else LatestDate(ds[1..], Later(acc, ds[0].dt))
  }

  /**
   * The fields `{id, most_recent_appearance, appearances}` of a history: the
   * hash `to_h` builds and the object `to_json` writes (less its class tag),
   * each appearance as its IDDate fields.
   */
  datatype HistoryHash<K, I> = HistoryHash(id: K, mostRecentAppearance: Period, appearances: seq<IdDateHash<I>>)

  function AppearancesToH<I(==)>(apps: seq<IDDate<I>>): (hs: seq<IdDateHash<I>>)
    ensures |hs| == |apps|
    ensures forall i :: 0 <= i < |apps| ==> hs[i] == ToH(apps[i])
  {
    if apps == [] then [] else [ToH(apps[0])] + AppearancesToH(apps[1..])
  }

  function AppearancesFromH<I(==)>(hs: seq<IdDateHash<I>>): (apps: seq<IDDate<I>>)
    ensures |apps| == |hs|
    ensures forall i :: 0 <= i < |hs| ==> apps[i] == JsonCreate(hs[i])
  {
    if hs == [] then [] else [JsonCreate(hs[0])] + AppearancesFromH(hs[1..])
  }

  /** `to_h` (and the fields `to_json` writes) of a history with id `id`. */
  function HistoryToH<K, I(==)>(id: K, st: HistoryState<I>): HistoryHash<K, I> {
    HistoryHash(id, st.mostRecentAppearance, AppearancesToH(st.appearances))
  }

  /** `json_create`: replay the stored appearances into a new history, then overwrite its latest month. */
  function HistoryFromH<K, I(==)>(h: HistoryHash<K, I>): HistoryState<I> {
    Replay(EmptyHistory(), AppearancesFromH(h.appearances)).(mostRecentAppearance := h.mostRecentAppearance)
  }

  // ---------------------------------------------------------------- lemmas on add

  lemma {:induction false} IdsOfAppend<I>(apps: seq<IDDate<I>>, more: seq<IDDate<I>>)
    ensures IdsOf(apps + more) == IdsOf(apps) + IdsOf(more)
    decreases |more|
  {
    if more == [] {
      assert apps + more == apps;
    } else {
      var last := more[|more| - 1];
      assert (apps + more)[..|apps + more| - 1] == apps + more[..|more| - 1];
      IdsOfAppend(apps, more[..|more| - 1]);
    }
  }

  lemma {:induction false} IdsOfMembers<I>(apps: seq<IDDate<I>>, x: I)
    ensures x in IdsOf(apps) <==> exists i :: 0 <= i < |apps| && apps[i].id == x
    decreases |apps|
  {
    if apps != [] {
      var prefix := apps[..|apps| - 1];
      IdsOfMembers(prefix, x);
      if x in IdsOf(prefix) {
        var i :| 0 <= i < |prefix| && prefix[i].id == x;
        assert apps[i].id == x;
      }
      if exists i :: 0 <= i < |apps| && apps[i].id == x {
        var i :| 0 <= i < |apps| && apps[i].id == x;
        if i < |prefix| {
          assert prefix[i].id == x;
        }
      }
    }
  }

  /** `add` keeps the invariant, and keeps the id set exact where it was. */
  lemma AddKeepsValid<I>(st: HistoryState<I>, d: IDDate<I>)
    requires Valid(st)
    ensures Valid(AddState(st, d))
    ensures Exact(st) ==> Exact(AddState(st, d))
  {
    IdsOfAppend(st.appearances, [d]);
    assert IdsOf([d]) == {d.id} by {
      assert [d][..0] == [];
    }
    if d.id !in st.idSet {
      var apps := st.appearances + [d];
      forall i, j | 0 <= i < j < |apps|
        ensures apps[i].id != apps[j].id
      {
        if j == |apps| - 1 {
          IdsOfMembers(st.appearances, apps[i].id);
        }
      }
    }
  }

  /** Adding an id already seen leaves the appearances, and so the first date kept for it, unchanged. */
  lemma AddSeenKeepsAppearances<I>(st: HistoryState<I>, d: IDDate<I>)
    requires d.id in st.idSet
    ensures AddState(st, d).appearances == st.appearances
    ensures AddState(st, d).idSet == st.idSet
  {
  }

  /** The appearances only grow at the end. */
  lemma {:induction false} ReplayAppendOnly<I>(st: HistoryState<I>, ds: seq<IDDate<I>>)
    ensures st.appearances <= Replay(st, ds).appearances
    decreases |ds|
  {
    if ds != [] {
      ReplayAppendOnly(AddState(st, ds[0]), ds[1..]);
    }
  }

  /** The latest month is the latest of the starting one and of every month added. */
  lemma {:induction false} ReplayMostRecent<I>(st: HistoryState<I>, ds: seq<IDDate<I>>)
    ensures Replay(st, ds).mostRecentAppearance == LatestDate(ds, st.mostRecentAppearance)
    ensures forall i :: 0 <= i < |ds| ==> ds[i].dt <= Replay(st, ds).mostRecentAppearance
    ensures st.mostRecentAppearance <= Replay(st, ds).mostRecentAppearance
    decreases |ds|
  {
    if ds != [] {
      ReplayMostRecent(AddState(st, ds[0]), ds[1..]);
      assert forall i :: 1 <= i < |ds| ==> ds[i] == ds[1..][i - 1];
    }
  }

  lemma {:induction false} ReplaySnoc<I>(st: HistoryState<I>, ds: seq<IDDate<I>>, d: IDDate<I>)
    ensures Replay(st, ds + [d]) == AddState(Replay(st, ds), d)
    decreases |ds|
  {
    if ds == [] {
      assert [d][1..] == [];
    } else {
      assert (ds + [d])[1..] == ds[1..] + [d];
      ReplaySnoc(AddState(st, ds[0]), ds[1..], d);
    }
  }

  /** Replaying one more IDDate of a list is one more `add`. */
  lemma ReplayPrefix<I>(st: HistoryState<I>, ds: seq<IDDate<I>>, i: nat)
    requires i < |ds|
    ensures Replay(st, ds[..i + 1]) == AddState(Replay(st, ds[..i]), ds[i])
  {
    assert ds[..i + 1] == ds[..i] + [ds[i]];
    ReplaySnoc(st, ds[..i], ds[i]);
  }

  /**
   * Replaying into a new history keeps exactly the first sighting of each id,
   * in order, with an id set exactly their ids.
   */
  lemma {:induction false} ReplayKeepsFirstSightings<I>(ds: seq<IDDate<I>>)
    ensures Replay(EmptyHistory(), ds).appearances == FirstSightings(ds)
    ensures Replay(EmptyHistory(), ds).idSet == IdsOf(ds)
    ensures Exact(Replay(EmptyHistory(), ds))
    decreases |ds|
  {
    if ds != [] {
      var prefix := ds[..|ds| - 1];
      var d := ds[|ds| - 1];
      assert ds == prefix + [d];
      ReplayKeepsFirstSightings(prefix);
      ReplaySnoc(EmptyHistory(), prefix, d);
      AddKeepsValid(Replay(EmptyHistory(), prefix), d);
    }
  }

  lemma {:induction false} DistinctCount<I>(apps: seq<IDDate<I>>)
    requires DistinctIds(apps)
    ensures |IdsOf(apps)| == |apps|
    decreases |apps|
  {
    if apps != [] {
      var prefix := apps[..|apps| - 1];
      DistinctCount(prefix);
      IdsOfMembers(prefix, apps[|apps| - 1].id);
    }
  }

  /** A history built by `add` from scratch has one appearance per distinct id added. */
  lemma AppearancesCountIds<I>(ds: seq<IDDate<I>>)
    ensures |Replay(EmptyHistory(), ds).appearances| == |IdsOf(ds)|
  {
    ReplayKeepsFirstSightings(ds);
    DistinctCount(Replay(EmptyHistory(), ds).appearances);
  }

  lemma {:induction false} FromHToH<I>(apps: seq<IDDate<I>>)
    ensures AppearancesFromH(AppearancesToH(apps)) == apps
  {
    var back := AppearancesFromH(AppearancesToH(apps));
    assert forall i :: 0 <= i < |apps| ==> back[i] == apps[i];
  }

  /** Replaying appearances with distinct ids and none seen before appends them all. */
  lemma {:induction false} ReplayFresh<I>(st: HistoryState<I>, ds: seq<IDDate<I>>)
    requires DistinctIds(ds)
    requires forall i :: 0 <= i < |ds| ==> ds[i].id !in st.idSet
    ensures Replay(st, ds).appearances == st.appearances + ds
    ensures Replay(st, ds).idSet == st.idSet + IdsOf(ds)
    decreases |ds|
  {
    if ds == [] {
      assert st.appearances + ds == st.appearances;
    } else {
      var st' := AddState(st, ds[0]);
      FreshTail(st, ds);
      ReplayFresh(st', ds[1..]);
      ConsAppearances(st.appearances, ds);
      ConsIds(st.idSet, ds);
    }
  }

  lemma FreshTail<I>(st: HistoryState<I>, ds: seq<IDDate<I>>)
    requires ds != [] && DistinctIds(ds)
    requires forall i :: 0 <= i < |ds| ==> ds[i].id !in st.idSet
    ensures DistinctIds(ds[1..])
    ensures forall i :: 0 <= i < |ds[1..]| ==> ds[1..][i].id !in AddState(st, ds[0]).idSet
  {
    assert forall i :: 0 <= i < |ds[1..]| ==> ds[1..][i] == ds[i + 1];
  }

  lemma ConsAppearances<I>(apps: seq<IDDate<I>>, ds: seq<IDDate<I>>)
    requires ds != []
    ensures apps + ds == (apps + [ds[0]]) + ds[1..]
  {
    assert ds == [ds[0]] + ds[1..];
  }

  lemma ConsIds<I>(idSet: set<I>, ds: seq<IDDate<I>>)
    requires ds != []
    ensures idSet + IdsOf(ds) == (idSet + {ds[0].id}) + IdsOf(ds[1..])
  {
    assert ds == [ds[0]] + ds[1..];
    IdsOfAppend([ds[0]], ds[1..]);
    assert IdsOf([ds[0]]) == {ds[0].id} by {
      assert [ds[0]][..0] == [];
    }
  }

  /**
   * `to_json` then parsing with `json_create` restores the latest month and the appearances,
   * and recreates the id set from the appearances: an exact history comes
   * back unchanged, and a pruned one comes back with its stale ids dropped.
   */
  lemma HashRoundTrip<K, I>(id: K, st: HistoryState<I>)
    requires Valid(st)
    ensures HistoryFromH(HistoryToH(id, st)) == st.(idSet := IdsOf(st.appearances))
    ensures HistoryToH(id, st).id == id
    ensures Exact(st) ==> HistoryFromH(HistoryToH(id, st)) == st
  {
    FromHToH(st.appearances);
    ReplayDistinct(st.appearances);
  }

  /** Replaying distinct appearances into a new history rebuilds exactly them. */
  lemma ReplayDistinct<I>(apps: seq<IDDate<I>>)
    requires DistinctIds(apps)
    ensures Replay(EmptyHistory(), apps).appearances == apps
    ensures Replay(EmptyHistory(), apps).idSet == IdsOf(apps)
  {
    ReplayFresh(EmptyHistory(), apps);
    assert [] + apps == apps;
  }

  lemma RoundTripWhenValid<K, I>(id: K, st: HistoryState<I>)
    ensures Valid(st) ==> HistoryFromH(HistoryToH(id, st)) == st.(idSet := IdsOf(st.appearances))
  {
    if Valid(st) {
      HashRoundTrip(id, st);
    }
  }

  // ---------------------------------------------------------------- the object

  class GenericHistory<K, I(==)> {
    const id: K
    var mostRecentAppearance: Period
    var appearances: seq<IDDate<I>>
    var idSet: set<I>

    function State(): HistoryState<I>
      reads this
    {
      HistoryState(mostRecentAppearance, appearances, idSet)
    }

    /** `GenericHistory.new(id)`. */
    constructor (id: K)
      ensures this.id == id && State() == EmptyHistory()
    {
      this.id := id;
      mostRecentAppearance := 0;
      appearances := [];
      idSet := {};
    }

    /** `add(iddate)`. */
    method Add(d: IDDate<I>)
      modifies this
      ensures State() == AddState(old(State()), d)
      ensures old(Valid(State())) ==> Valid(State())
    {
      if d.id !in idSet {
        appearances := appearances + [d];
        idSet := idSet + {d.id};
      }
      mostRecentAppearance := Later(mostRecentAppearance, d.dt);
      if old(Valid(State())) {
        AddKeepsValid(old(State()), d);
      }
    }

    /** `ids`: the id set, which holds every id of an appearance. */
    function Ids(): (ids: set<I>)
      reads this
      ensures Valid(State()) ==> IdsOf(appearances) <= ids
      ensures Exact(State()) ==> ids == IdsOf(appearances)
    {
      idSet
    }

    /** `to_h`, and the fields `to_json` writes. */
    function ToH(): (h: HistoryHash<K, I>)
      reads this
      ensures h.id == id
      ensures Valid(State()) ==> HistoryFromH(h) == State().(idSet := IdsOf(appearances))
    {
      RoundTripWhenValid(id, State());
      HistoryToH(id, State())
    }

    /** `GenericHistory.json_create(obj)`. */
    static method JsonCreate(h: HistoryHash<K, I>) returns (n: GenericHistory<K, I>)
      ensures fresh(n) && n.id == h.id
      ensures n.State() == HistoryFromH(h)
    {
      n := new GenericHistory(h.id);
      var apps := AppearancesFromH(h.appearances);
      var i := 0;
      while i < |apps|
        invariant 0 <= i <= |apps|
        invariant n.id == h.id
        invariant n.State() == Replay(EmptyHistory(), apps[..i])
      {
        ReplayPrefix(EmptyHistory(), apps, i);
        n.Add(apps[i]);
        i := i + 1;
      }
      assert apps[..i] == apps;
      n.mostRecentAppearance := h.mostRecentAppearance;
    }
  }
}
