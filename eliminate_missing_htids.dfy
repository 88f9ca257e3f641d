/**
 * The pruning pass of eliminate_missing_htids.rb: drop every htid history not
 * seen since the target month, scrub those htids from every record history,
 * and drop the record histories left with no appearances.  The id sets and
 * latest months of the record histories are deliberately left as they were.
 */
module EliminateMissingHtids {
  import opened HistoryEntries
  import opened IdDates
  import opened GenericHistories
  import opened HtidHistories

  /** A RecidHistory: the history of a record, its appearances being htids. */
  type RecidHistory = GenericHistory<RecId, Htid>

  /** `appearances.delete_if { |x| ids.include?(x.id) }`, as a value. */
  function WithoutIds<I(==)>(apps: seq<IDDate<I>>, ids: set<I>): seq<IDDate<I>> {
    if apps == [] then []
    else (if apps[0].id in ids then [] else [apps[0]]) + WithoutIds(apps[1..], ids)
  }

  /** Exactly the appearances whose id is not dropped are kept. */
  lemma {:induction false} WithoutIdsMembers<I>(apps: seq<IDDate<I>>, ids: set<I>, d: IDDate<I>)
    ensures d in WithoutIds(apps, ids) <==> d in apps && d.id !in ids
  {
    if apps != [] {
      WithoutIdsMembers(apps[1..], ids, d);
      assert apps == [apps[0]] + apps[1..];
    }
  }

  /** Filtering distributes over concatenation, so the kept appearances stay in their order. */
  lemma {:induction false} WithoutIdsAppend<I>(a: seq<IDDate<I>>, b: seq<IDDate<I>>, ids: set<I>)
    ensures WithoutIds(a + b, ids) == WithoutIds(a, ids) + WithoutIds(b, ids)
  {
    if a == [] {
      assert a + b == b;
    } else {
      assert (a + b)[0] == a[0] && (a + b)[1..] == a[1..] + b;
      WithoutIdsAppend(a[1..], b, ids);
    }
  }

  /** Filtering twice is filtering once. */
  lemma {:induction false} WithoutIdsIdempotent<I>(apps: seq<IDDate<I>>, ids: set<I>)
    ensures WithoutIds(WithoutIds(apps, ids), ids) == WithoutIds(apps, ids)
  {
    if apps != [] {
      WithoutIdsIdempotent(apps[1..], ids);
      var head := if apps[0].id in ids then [] else [apps[0]];
      WithoutIdsAppend(head, WithoutIds(apps[1..], ids), ids);
      if apps[0].id !in ids {
        assert [apps[0]][1..] == [];
      }
    }
  }

  /** The ids left are the old ones less the dropped ones. */
  lemma {:induction false} WithoutIdsIds<I>(apps: seq<IDDate<I>>, ids: set<I>)
    ensures IdsOf(WithoutIds(apps, ids)) == IdsOf(apps) - ids
    decreases |apps|
  {
    if apps != [] {
      var prefix := apps[..|apps| - 1];
      var last := apps[|apps| - 1];
      assert apps == prefix + [last];
      WithoutIdsAppend(prefix, [last], ids);
      WithoutIdsIds(prefix, ids);
      assert [last][1..] == [];
      assert WithoutIds([last], ids) == if last.id in ids then [] else [last];
      IdsOfAppend(WithoutIds(prefix, ids), WithoutIds([last], ids));
      assert IdsOf([last]) == {last.id} by {
        assert [last][..0] == [];
      }
    }
  }

  /** Filtering keeps the ids distinct. */
  lemma {:induction false} WithoutIdsDistinct<I>(apps: seq<IDDate<I>>, ids: set<I>)
    requires DistinctIds(apps)
    ensures DistinctIds(WithoutIds(apps, ids))
  {
    if apps != [] {
      WithoutIdsDistinct(apps[1..], ids);
      var rest := WithoutIds(apps[1..], ids);
      if apps[0].id !in ids {
        forall j | 0 <= j < |rest|
          ensures apps[0].id != rest[j].id
        {
          WithoutIdsMembers(apps[1..], ids, rest[j]);
          var k :| 0 <= k < |apps[1..]| && apps[1..][k] == rest[j];
          assert apps[k + 1] == rest[j];
        }
        var all := [apps[0]] + rest;
        forall i, j | 0 <= i < j < |all|
          ensures all[i].id != all[j].id
        {
          if i > 0 {
            assert all[i] == rest[i - 1] && all[j] == rest[j - 1];
          } else {
            assert all[j] == rest[j - 1];
          }
        }
      }
    }
  }

  /**
   * A scrubbed record history still keeps the history invariant, but with a
   * stale id set; a dump and reload makes the id set exact again.
   */
  lemma ScrubKeepsValid<I>(st: HistoryState<I>, ids: set<I>)
    requires Valid(st)
    ensures Valid(st.(appearances := WithoutIds(st.appearances, ids)))
    ensures var scrubbed := st.(appearances := WithoutIds(st.appearances, ids));
            HistoryFromH(HistoryToH(0, scrubbed)) == scrubbed.(idSet := IdsOf(st.appearances) - ids)
  {
    WithoutIdsDistinct(st.appearances, ids);
    WithoutIdsIds(st.appearances, ids);
    HashRoundTrip(0, st.(appearances := WithoutIds(st.appearances, ids)));
  }

  /**
   * The pass over the two history maps.  `missing` collects the htids last
   * seen before `targetDate`; they are dropped from the htid histories, then
   * scrubbed from every record history's appearances in place, and record
   * histories left empty are dropped.  Several record ids may share one
   * history object: scrubbing it twice is scrubbing it once.
   */
  method EliminateMissing(htids: map<Htid, HtidHistory>, recids: map<RecId, RecidHistory>, targetDate: Period)
    returns (missing: set<Htid>, keptHtids: map<Htid, HtidHistory>, keptRecids: map<RecId, RecidHistory>)
    modifies recids.Values
    ensures missing == set h | h in htids && old(htids[h].mostRecentAppearance) < targetDate
    ensures keptHtids == map h | h in htids && old(htids[h].mostRecentAppearance) >= targetDate :: htids[h]
    ensures forall k :: k in recids ==>
              && recids[k].appearances == WithoutIds(old(recids[k].appearances), missing)
              && recids[k].idSet == old(recids[k].idSet)
              && recids[k].mostRecentAppearance == old(recids[k].mostRecentAppearance)
    ensures keptRecids == map k | k in recids && recids[k].appearances != [] :: recids[k]
  {
    missing := {};
    keptHtids := htids;
    var pending := htids.Keys;
    while pending != {}
      invariant pending <= htids.Keys
      invariant missing == set h | h in htids && h !in pending && htids[h].mostRecentAppearance < targetDate
      invariant keptHtids == map h | h in htids && (h in pending || htids[h].mostRecentAppearance >= targetDate) :: htids[h]
      decreases pending
    {
      var htid :| htid in pending;
      if htids[htid].mostRecentAppearance < targetDate {
        missing := missing + {htid};
        keptHtids := keptHtids - {htid};
      }
      pending := pending - {htid};
    }
    ScrubRecords(recids, missing);
    keptRecids := DropEmpty(recids);
  }

  /** The `recids.each_pair` scrub: every record history loses the appearances of `missing`. */
  method ScrubRecords(recids: map<RecId, RecidHistory>, missing: set<Htid>)
    modifies recids.Values
    ensures forall k :: k in recids ==>
              && recids[k].appearances == WithoutIds(old(recids[k].appearances), missing)
              && recids[k].idSet == old(recids[k].idSet)
              && recids[k].mostRecentAppearance == old(recids[k].mostRecentAppearance)
  {
    var pending := recids.Keys;
    while pending != {}
      invariant pending <= recids.Keys
      invariant forall k :: k in recids ==>
                  && recids[k].idSet == old(recids[k].idSet)
                  && recids[k].mostRecentAppearance == old(recids[k].mostRecentAppearance)
      invariant forall k :: k in recids ==>
                  || recids[k].appearances == old(recids[k].appearances)
                  || recids[k].appearances == WithoutIds(old(recids[k].appearances), missing)
      invariant forall k :: k in recids && k !in pending ==>
                  recids[k].appearances == WithoutIds(old(recids[k].appearances), missing)
      decreases pending
    {
      NonEmptyHasElement(pending);
      var recid :| recid in pending;
      var hist := recids[recid];
      WithoutIdsIdempotent(old(hist.appearances), missing);
      hist.appearances := WithoutIds(hist.appearances, missing);
      pending := pending - {recid};
    }
  }

  /** The record ids whose histories still have appearances. */
  method DropEmpty(recids: map<RecId, RecidHistory>) returns (kept: map<RecId, RecidHistory>)
    ensures kept == map k | k in recids && recids[k].appearances != [] :: recids[k]
  {
    kept := recids;
    var pending := recids.Keys;
    while pending != {}
      invariant pending <= recids.Keys
      invariant kept == map k | k in recids && (k in pending || recids[k].appearances != []) :: recids[k]
      decreases pending
    {
      NonEmptyHasElement(pending);
      var recid :| recid in pending;
      if recids[recid].appearances == [] {
        kept := kept - {recid};
      }
      pending := pending - {recid};
    }
  }
}
