# hathifile_history: a Dafny model of the history store

hathifile_history follows HathiTrust items (htids) across the monthly
hathifiles. Each hathifile line names an htid and the catalog record
(recid) it belongs to. From the sequence of monthly loads the system
derives which records have disappeared and which live record each one
should redirect to.

This project models the core of that system:

- `rec_only_test.rb`:
  - `HistoryEntry`: the first and last month an htid was seen on a record.
  - `Record`: the entries of one record, its most recent sighting and the
    "current" projection for a month.
  - `Records`: the store, with its newest load and the htid → live-record
    lookup. It covers ingesting lines, `compute_current_sets!`,
    `remove_dead_htids!` and `redirects`.
  - the line parsers `ids_from_line`, `intify` and `yyyymm_from_filename`.
- `lib/id_date.rb`, `lib/generic_history.rb` and `lib/htid_history.rb`:
  `IDDate` and the append-only id histories.
- `eliminate_missing_htids.rb`, lines 13-35: the pass that drops htids not
  seen since a target month and scrubs them from the record histories.

## Layout

| file | module | models |
|---|---|---|
| `wrappers.dfy` | `Wrappers` | `Option`, `Result`, `Outcome` |
| `history_entry.dfy` | `HistoryEntries` | shared types, `HistoryEntry` and its JSON shape |
| `record.dfy` | `RecordHistory` | `class Record` over the value `RecordView`, with `see`, `compute_current!` and `remove_dead_htids!` |
| `records.dfy` | `RecordStore` | `class Records` over the value `StoreView`, plus the specification functions its methods are proved against |
| `records_lemmas.dfy` | `RecordStoreLemmas` | properties of ingesting, computing current sets, pruning and redirects |
| `line_parsing.dfy` | `LineParsing` | `chomp`, `split(/\t/, 4)`, `intify`, `ids_from_line`, `yyyymm_from_filename` |
| `id_date.dfy` | `IdDates` | `IDDate`, its `<=>`, `to_h` and `json_create` |
| `generic_history.dfy` | `GenericHistories` | `class GenericHistory<K, I>` over the value `HistoryState<I>`, `add`, `to_h` and `json_create` |
| `htid_history.dfy` | `HtidHistories` | `HTIDHistory`: `moved?` and `rec_ids` |
| `eliminate_missing_htids.dfy` | `EliminateMissingHtids` | the pruning pass over the htid and record history maps |

Most class methods are proved against a pure function of the old state, and
the properties are then lemmas about those functions:

- `Records.Add` produces `AddView`;
- `Records.RemoveDeadHtids` produces `PruneView`;
- `Records.Redirects` returns `RedirectsOf`;
- `Record.See`, `Record.ComputeCurrent` and `Record.RemoveDeadHtids` produce
  `SeeView`, `ComputeCurrentView` and `LiveEntries`;
- `GenericHistory.Add` produces `AddState`;
- `GenericHistory.JsonCreate` produces `HistoryFromH`;
- `EliminateMissing` and `ScrubRecords` leave `WithoutIds` of the old
  appearances.

Two methods are specified by a relation between the old and new state
instead of a function:

- `Records.ComputeCurrentSets` satisfies `ComputedCurrentSets`. The source
  visits the records in hash order, and the relation leaves open which
  record ends up owning an htid that is current on two live records.
- `Records.ClaimCurrent` satisfies `Claimed`. This relation has exactly one
  new lookup for each old one: the record's current htids point at it, and
  every other entry is as before.

### Behaviour of the code worth knowing

- `see` overwrites `last_seen_here` with the month given, even an earlier
  one; it does not take a maximum. `SeeView` states the overwrite. `SeeIdempotent` holds either way.
- `remove_dead_htids!` raises only when the lookup is empty. `redirects`
  raises, through `nil.recid`, when a deleted record still holds an htid that
  has no live owner. Both are `Failure` results in the model.
  - `Pipeline` proves that `redirects` cannot raise in the order the script at
    the end of `rec_only_test.rb` uses: compute, then prune, then derive
    redirects.
  - `remove_dead_htids!` can still raise in that order. `PipelinePruneFailsIff`
    proves when: it raises exactly when no record seen in the newest load has
    an htid whose own last sighting is in that load.
  - This can happen on a non-empty store. `see` overwrites `last_seen_here`,
    so loading 202302 and then 202301 leaves the record last seen in 202302
    and its entry last seen in 202301. No htid is then current and the lookup
    stays empty. `OutOfOrderLoadsMakePruneRaise` proves this for one htid on
    one record.
- `compute_current_sets!` adds to the lookup and never clears it. The model
  states this: `ComputedCurrentSets` keeps every old key.
- An htid current on two live records ends up owned by whichever record is
  visited last. Hash order decides which that is. `ComputedCurrentSets` leaves
  the choice open and only promises that the owner is live and holds the htid.
- A record is deleted when its last sighting is before the newest load
  (`<`). It is current when its last sighting equals the as-of month (`==`).
- `yyyymm_from_filename` uses `Integer()`, which reads a leading `0` as
  octal. `IntegerOf` models that, including the error on `8`/`9`. Such digit
  strings do not arise from the usual hathifile names
  (`YyyymmFromHathifileName`).

## Model

| member | source | states |
|---|---|---|
| HistoryEntries.Later | lib/generic_history.rb:28 | the later month is at least each of the two and is one of them |
| HistoryEntries.HistoryEntry.ExistedHereOn | rec_only_test.rb:21-23 | `existed_here_on`: last seen here in the month or later; `CurrentHtidsExact` uses it to pin down the current htids |
| HistoryEntries.HistoryEntry.ToJson | rec_only_test.rb:25-27 | `to_json` as the logical shape `{htid, app, lsh}`; `EntryJsonRoundTrip` proves `EntryFromJson` inverts it |
| HistoryEntries.EntryFromJson | rec_only_test.rb:30-32 | `json_create` of an entry; `EntryJsonRoundTrip` proves it inverts `ToJson` |
| HistoryEntries.EntryJsonRoundTrip | rec_only_test.rb:25-32 | `json_create` of an entry's `to_json` gives back the same entry |
| HistoryEntries.EntriesToJson | rec_only_test.rb:93 | the serialised entry map has exactly the entry map's htids |
| HistoryEntries.EntriesFromJson | rec_only_test.rb:102 | the rebuilt entry map has exactly the serialised map's htids |
| HistoryEntries.EntriesJsonRoundTrip | rec_only_test.rb:89-104 | serialising a record's entry map and reading it back gives the same map |
| RecordHistory.SeeEntries | rec_only_test.rb:55-59 | `see` adds the htid to the entry keys and leaves other entries alone; a new htid gets `(htid, m, m)`; a known one keeps its first month and has `last_seen_here` set to `m` |
| RecordHistory.SeeView | rec_only_test.rb:53-60 | the most recent sighting becomes the later of the old one and `m`; the current sets and recid are untouched |
| RecordHistory.CurrentHtidsOf | rec_only_test.rb:62-75 | the current htids are among the record's htids, and there are none unless the record was last seen in the as-of month |
| RecordHistory.CurrentEntriesOf | rec_only_test.rb:62-75 | every current entry is one of the record's entries and existed there in the as-of month; there are none for a record not last seen then |
| RecordHistory.ComputeCurrentView | rec_only_test.rb:62-75 | the record after `compute_current!`; `CurrentHtidsExact` and `CurrentSetsAgree` prove which htids and entries are current |
| RecordHistory.RecordToJson | rec_only_test.rb:89-96 | `to_json` as the shape `{recid, mrs, entries}`; `Record.ToJson` proves `RecordFromJson` reads it back |
| RecordHistory.RecordFromJson | rec_only_test.rb:99-104 | `json_create` of a record, with empty current sets; `Record.ToJson` proves it inverts `RecordToJson` up to the current sets |
| RecordHistory.LiveEntries | rec_only_test.rb:83-87 | the kept entries are exactly those whose htid has an owner in the lookup, unchanged |
| RecordHistory.Record.constructor | rec_only_test.rb:38-47 | a new record has no entries, was never seen (0) and has empty current sets |
| RecordHistory.Record.FromJson | rec_only_test.rb:99-104 | `json_create` restores recid, `mrs` and entries, with empty current sets |
| RecordHistory.Record.ToJson | rec_only_test.rb:89-96 | reading the serialised record back gives the record with its current sets cleared |
| RecordHistory.Record.See | rec_only_test.rb:53-60 | the new state is `SeeView` of the old one |
| RecordHistory.Record.ComputeCurrent | rec_only_test.rb:62-75 | the loop over the entries leaves exactly `ComputeCurrentView` of the old state |
| RecordHistory.Record.Remove | rec_only_test.rb:77-79 | only the htid's entry is removed |
| RecordHistory.Record.RemoveDeadHtids | rec_only_test.rb:83-87 | the loop calling `remove` leaves exactly `LiveEntries` of the old entries and changes nothing else |
| RecordStore.AddView | rec_only_test.rb:166-171 | `add` creates the record if missing and applies `see` to it; other records are unchanged; the newest load becomes the later month; the lookup is untouched |
| RecordStore.AddRecordView | rec_only_test.rb:174-178 | `add_record` replaces the record under its own id and raises the newest load to its last sighting |
| RecordStore.AddLineView | rec_only_test.rb:148-162 | the sighting a line holds added as `add` adds it, or the store unchanged; `IdsFromLine`'s contract says which lines are skipped |
| RecordStore.Refreshed | rec_only_test.rb:220-223 | a record seen on or after the month is recomputed, any other is left alone |
| RecordStore.ComputedCurrentSets | rec_only_test.rb:218-229 | the relation `compute_current_sets!` satisfies; `ComputedLookupLive`, `ComputedOwnerHoldsHtid`, `ComputedCoversCurrent` and `Pipeline` prove what follows from it |
| RecordStore.IsDeleted | rec_only_test.rb:277-284 | the test of `each_deleted_record`, last seen before the newest load; `DeletedIffNotLive` ties it to liveness |
| RecordStore.RedirectsOf | rec_only_test.rb:235-244 | `redirects` as a value; `RedirectsSound`, `RedirectsComplete` and `RedirectsFailIff` prove its properties |
| RecordStore.PruneView | rec_only_test.rb:248-253 | a successful prune keeps every record id |
| RecordStore.DeletedRecids | rec_only_test.rb:277-284 | the deleted records are among the stored ones |
| RecordStore.AddKeepsInvariant | rec_only_test.rb:166-171 | `add` keeps every record under its id and no record seen after the newest load |
| RecordStore.Records.constructor | rec_only_test.rb:115-120 | a new store is empty, with newest load 0 and an empty lookup |
| RecordStore.Records.Get | rec_only_test.rb:122-124 | `[]` finds a record exactly when one is stored under the id; under the invariant it is the record of that id, seen no later than the newest load |
| RecordStore.Records.Add | rec_only_test.rb:166-171 | the new state is `AddView` of the old one, and the invariant is kept |
| RecordStore.Records.AddHathifileLine | rec_only_test.rb:148-162 | a line that parses is added as `add` would add it; any other line leaves the store unchanged; the invariant is kept |
| RecordStore.Records.AddRecord | rec_only_test.rb:174-178 | the new state is `AddRecordView` of the old one, and the invariant is kept |
| RecordStore.Records.CurrentRecordFor | rec_only_test.rb:231-233 | an owner is found exactly for htids in the lookup; when the lookup holds only live owners, the one found is stored and live |
| RecordStore.Records.ComputeCurrentSets | rec_only_test.rb:218-229 | records seen on or after the month are recomputed and the rest are untouched; the lookup keeps its old keys; each entry is untouched or names a live owner; every current htid of a recomputed record gets a live owner; the invariant is kept |
| RecordStore.Records.ClaimCurrent | rec_only_test.rb:224 | each current entry of the record now points at it, and every other lookup entry is as before |
| RecordStore.Records.RemoveDeadHtids | rec_only_test.rb:248-253 | with an empty lookup it fails and changes nothing; otherwise the new state is `PruneView` of the old one; the invariant is kept |
| RecordStore.Records.Redirects | rec_only_test.rb:235-244 | the result is `RedirectsOf` the store: a failure, or the map of each deleted record with a single distinct owner to that owner |
| RecordStore.Records.OwnersOf | rec_only_test.rb:238 | fails exactly when an htid of the record has no owner; otherwise returns the set of distinct owners (`uniq`) |
| RecordStoreLemmas.SeeIdempotent | rec_only_test.rb:53-60 | seeing the same htid in the same month twice is seeing it once |
| RecordStoreLemmas.SeeKeepsKeyed | rec_only_test.rb:53-60 | `see` keeps every entry filed under its own htid |
| RecordStoreLemmas.CurrentHtidsExact | rec_only_test.rb:62-75 | an htid is current iff the record was last seen in the as-of month and the htid's entry was last seen then or later |
| RecordStoreLemmas.CurrentSetsAgree | rec_only_test.rb:69-74 | the htids of the current entries are exactly the current htids |
| RecordStoreLemmas.AddIdempotent | rec_only_test.rb:166-171 | adding the same sighting twice is adding it once |
| RecordStoreLemmas.AddRecordKeepsInvariant | rec_only_test.rb:174-178 | `add_record` keeps the store invariant |
| RecordStoreLemmas.AddKeepsKeyed | rec_only_test.rb:166-171 | `add` keeps every record's entries filed under their htids |
| RecordStoreLemmas.IngestNewestLoad | rec_only_test.rb:167 | after a sequence of `add`s the newest load is the latest month added (or the old one) |
| RecordStoreLemmas.IngestRecords | rec_only_test.rb:168 | a record exists after a sequence of `add`s iff it existed before or some sighting named it |
| RecordStoreLemmas.IngestMostRecentlySeen | rec_only_test.rb:166-171 | a record's most recent sighting is the latest month of the sightings that named it |
| RecordStoreLemmas.LiveIffSeenInNewestLoad | rec_only_test.rb:166-171 | starting from an empty store, a record is live as of the newest load iff it was sighted in the latest month loaded |
| RecordStoreLemmas.IngestKeepsInvariant | rec_only_test.rb:166-171 | any sequence of `add`s keeps the store invariant |
| RecordStoreLemmas.DeletedIffNotLive | rec_only_test.rb:277-284 | under the invariant, a record is deleted iff it is not live as of the newest load |
| RecordStoreLemmas.ComputedLookupLive | rec_only_test.rb:218-229 | computing current sets for the newest load from a lookup of live owners gives a lookup of live owners |
| RecordStoreLemmas.ComputedOwnerHoldsHtid | rec_only_test.rb:218-229 | a lookup entry the computation wrote names a record last seen in the month that lists the htid as current |
| RecordStoreLemmas.ComputedCoversCurrent | rec_only_test.rb:218-229 | every current htid of a recomputed record has a live owner in the lookup |
| RecordStoreLemmas.PruneKeepsExactlyOwned | rec_only_test.rb:248-253 | after pruning, a record keeps an htid iff it had it and the htid has an owner; kept entries and the last sighting are unchanged |
| RecordStoreLemmas.PruneOnlyDeletes | rec_only_test.rb:248-253 | pruning only removes entries; the newest load and the lookup are unchanged |
| RecordStoreLemmas.PruneIdempotent | rec_only_test.rb:248-253 | pruning twice is pruning once |
| RecordStoreLemmas.PruneKeepsInvariant | rec_only_test.rb:248-253 | pruning keeps the store invariant and the live lookup |
| RecordStoreLemmas.PrunedRedirectsDefined | rec_only_test.rb:235-253 | after a successful prune, `redirects` cannot raise |
| RecordStoreLemmas.RedirectsSound | rec_only_test.rb:235-244 | a redirect goes from a deleted record to a different live record that is not itself redirected, and every htid the source held is owned by the target |
| RecordStoreLemmas.RedirectsComplete | rec_only_test.rb:235-244 | a record is redirected iff it is deleted and its htids have exactly one distinct owner |
| RecordStoreLemmas.RedirectsFailIff | rec_only_test.rb:235-244 | `redirects` raises iff some deleted record holds an htid with no owner |
| RecordStoreLemmas.Pipeline | rec_only_test.rb:296-303 | from a fresh lookup, compute then prune then redirect: the lookup is live, pruning fails only on an empty lookup, redirects are defined, and each one goes from a deleted record to a live record that is not redirected |
| RecordStoreLemmas.PipelinePruneFailsIff | rec_only_test.rb:218-253 | from a fresh lookup, after computing for the newest load, pruning raises iff no record seen in that load has an htid last seen in it |
| RecordStoreLemmas.OutOfOrderLoadsMakePruneRaise | rec_only_test.rb:53-60 | after loading 202302 and then 202301, the record is live but pruning raises whatever the computation does |
| LineParsing.Chomp | rec_only_test.rb:183 | `chomp` returns a prefix that is at most two characters shorter, and it shortens only a line ending in a terminator |
| LineParsing.ChompNewline | rec_only_test.rb:183 | `chomp` drops a trailing `"\n"`, `"\r\n"` or `"\r"` and leaves an unterminated line alone |
| LineParsing.SplitTabs | rec_only_test.rb:183 | `split(/\t/, 4)` gives no fields exactly for the empty string, and never more than the limit |
| LineParsing.SplitJoinsBack | rec_only_test.rb:183 | joining the fields with tabs gives back the line |
| LineParsing.SplitFieldsCount | rec_only_test.rb:183 | the number of fields is one more than the number of tabs, capped at the limit |
| LineParsing.SplitOfJoin | rec_only_test.rb:183 | tab-free fields (the last may hold tabs at the limit) joined by tabs split back into the same fields |
| LineParsing.StripLeadingZeros | rec_only_test.rb:265 | the result is the input less a prefix made only of `0`s, and does not itself start with `0` |
| LineParsing.LeadingDigits | rec_only_test.rb:266 | the result is a prefix of the input made only of digits, and the next character, if any, is not a digit: the longest such prefix |
| LineParsing.ToI | rec_only_test.rb:266 | the decimal value of the leading digits; `IntifyIsToI` and `ZeroPaddingIrrelevant` prove that leading zeros do not change it |
| LineParsing.Intify | rec_only_test.rb:264-267 | strip the leading zeros, then `to_i`; `IntifyIsToI` proves it equals `to_i` of the unstripped string, and `IntifyExamples` gives two values |
| LineParsing.IntifyIsToI | rec_only_test.rb:264-267 | stripping the leading zeros first does not change the value `to_i` reads |
| LineParsing.ZeroPaddingIrrelevant | rec_only_test.rb:264-267 | any number of leading zeros gives the same recid |
| LineParsing.IntifyExamples | rec_only_test.rb:264-267 | `intify("007") == 7` and `intify("000") == 0` |
| LineParsing.IdsFromLine | rec_only_test.rb:182-187 | a line is skipped iff, once chomped, it has fewer than three tabs; `IdsFromHathifileLine` gives what a four-field line yields |
| LineParsing.IdsFromHathifileLine | rec_only_test.rb:182-187 | a line `htid\tc1\tc2\trest`, with or without its newline, yields `htid` and `intify(rest)` |
| LineParsing.DigitsOnly | rec_only_test.rb:256 | `gsub(/\D/, '')` leaves only digits |
| LineParsing.DropLastTwo | rec_only_test.rb:257 | `[0..-3]` is the prefix two characters shorter, or empty when there are at most two characters |
| LineParsing.IntegerOf | rec_only_test.rb:257 | `Integer()` fails iff the digits are empty or are an octal literal holding an 8 or 9; without a leading zero it is the decimal value |
| LineParsing.YyyymmFromHathifileName | rec_only_test.rb:255-258 | a name made of a digit-free prefix, a date not starting with 0 and a digit-free suffix gives the date without its last two digits |
| LineParsing.YyyymmFromFilename | rec_only_test.rb:255-258 | keep the digits of the name, drop the last two and read the rest with `Integer()`; `YyyymmFromHathifileName` and `YyyymmExample` prove what it gives |
| LineParsing.YyyymmExample | rec_only_test.rb:255-258 | `hathi_full_20230101.txt.gz` gives 202301 |
| IdDates.CompareInts | lib/id_date.rb:21 | `Integer#<=>` is 0, negative or positive exactly as the first is equal, less or greater |
| IdDates.Compare | lib/id_date.rb:20-22 | `<=>`: no answer when the ids do not compare, otherwise the comparison of the dates; `CompareIsByDate` and `ComparePreorder` prove this and its order laws |
| IdDates.ToH | lib/id_date.rb:24-31 | the fields `{id, dt}` shared by `to_h` and `to_json`; `JsonRoundTrip` proves `JsonCreate` reads them back |
| IdDates.JsonCreate | lib/id_date.rb:33-35 | `json_create` rebuilds the IDDate from `id` and `dt`; `JsonRoundTrip` proves it inverts `ToH` both ways |
| IdDates.JsonRoundTrip | lib/id_date.rb:29-35 | `JSON.parse(d.to_json, create_additions: true)` gives `d` back, and a rebuilt IDDate has the fields it was built from |
| IdDates.CompareIsByDate | lib/id_date.rb:20-22 | `<=>` has an answer iff the ids compare, and that answer orders the dates only |
| IdDates.SameDateCompareZero | lib/id_date.rb:20-22 | two IDDates of the same month compare as 0 whatever their ids |
| IdDates.ComparePreorder | lib/id_date.rb:20-22 | with comparable ids, `<=>` is reflexive, total, antisymmetric on dates, transitive and sign-symmetric |
| GenericHistories.AppearancesToH | lib/generic_history.rb:38 | `map(&:to_h)` keeps the length and maps each appearance in place |
| GenericHistories.AppearancesFromH | lib/generic_history.rb:56-58 | the appearances re-created from hashes keep the length and order |
| GenericHistories.AddState | lib/generic_history.rb:23-29 | `add` as a value: append and record the id when it is new, and raise the latest month; `AddKeepsValid` and `AddSeenKeepsAppearances` prove what it keeps |
| GenericHistories.Replay | lib/generic_history.rb:23-29 | a sequence of `add`s; `ReplayAppendOnly`, `ReplayMostRecent`, `ReplayKeepsFirstSightings` and `AppearancesCountIds` prove its properties |
| GenericHistories.HistoryToH | lib/generic_history.rb:35-48 | the fields shared by `to_h` and `to_json`; `HashRoundTrip` proves `HistoryFromH` reads them back |
| GenericHistories.HistoryFromH | lib/generic_history.rb:54-60 | `json_create` as a value: the `add`s of the hashed appearances, then the month overwrite; `HashRoundTrip` proves it inverts `HistoryToH` |
| GenericHistories.AddKeepsValid | lib/generic_history.rb:23-29 | `add` keeps ids distinct and in the id set, and keeps an exact id set exact |
| GenericHistories.AddSeenKeepsAppearances | lib/generic_history.rb:23-29 | adding a known id leaves the appearances and id set unchanged, so the first date is kept |
| GenericHistories.ReplayAppendOnly | lib/generic_history.rb:23-29 | the old appearances are a prefix of the appearances after any `add`s |
| GenericHistories.ReplayMostRecent | lib/generic_history.rb:28 | the latest month is the maximum of the old one and all months added |
| GenericHistories.ReplayKeepsFirstSightings | lib/generic_history.rb:23-29 | from a new history the appearances are exactly the first sighting of each id, in order, and the id set is exact |
| GenericHistories.AppearancesCountIds | lib/generic_history.rb:23-29 | one appearance per distinct id added |
| GenericHistories.HashRoundTrip | lib/generic_history.rb:42-60 | parsing `to_json` with `json_create` restores the latest month and appearances and rebuilds the id set from them; an exact history comes back unchanged |
| GenericHistories.GenericHistory.constructor | lib/generic_history.rb:12-20 | a new history has the id, month 0, no appearances and no ids |
| GenericHistories.GenericHistory.Add | lib/generic_history.rb:23-29 | the new state is `AddState` of the old one, and the invariant is kept |
| GenericHistories.GenericHistory.Ids | lib/generic_history.rb:31-33 | the id set holds every appearance's id, and exactly those when exact |
| GenericHistories.GenericHistory.ToH | lib/generic_history.rb:35-48 | the fields `to_h` and `to_json` carry include the id, and parsing them back with `json_create` restores the history with a rebuilt id set |
| GenericHistories.GenericHistory.JsonCreate | lib/generic_history.rb:54-60 | the loop of `add`s followed by the month overwrite yields exactly `HistoryFromH` of the hash |
| HtidHistories.Moved | lib/htid_history.rb:11-13 | `moved?`: more than one appearance; `MovedIffTwoRecords` proves this means added on two distinct records |
| HtidHistories.RecIds | lib/htid_history.rb:9 | `rec_ids` is the id set: the record ids of the appearances when exact |
| HtidHistories.FreshNotMoved | lib/htid_history.rb:11-13 | a new history has not moved |
| HtidHistories.ReaddKeepsMoved | lib/htid_history.rb:11-13 | re-adding a known record id never changes `moved?` |
| HtidHistories.MovedIffTwoRecords | lib/htid_history.rb:11-13 | built by `add`, an htid has moved iff it was added on at least two distinct records |
| HtidHistories.MovedStaysMoved | lib/htid_history.rb:11-13 | once moved, any further `add`s keep it moved |
| EliminateMissingHtids.WithoutIds | eliminate_missing_htids.rb:31 | `delete_if` on the appearances as a value; the `WithoutIds` lemmas below prove what it keeps, in what order and with which ids |
| EliminateMissingHtids.WithoutIdsMembers | eliminate_missing_htids.rb:31 | `delete_if` keeps an appearance iff its id is not missing |
| EliminateMissingHtids.WithoutIdsAppend | eliminate_missing_htids.rb:31 | `delete_if` distributes over concatenation, so the kept appearances keep their order |
| EliminateMissingHtids.WithoutIdsIdempotent | eliminate_missing_htids.rb:31 | scrubbing twice is scrubbing once |
| EliminateMissingHtids.WithoutIdsIds | eliminate_missing_htids.rb:31 | the ids left are the old ids minus the missing ones |
| EliminateMissingHtids.WithoutIdsDistinct | eliminate_missing_htids.rb:31 | scrubbing keeps the ids distinct |
| EliminateMissingHtids.ScrubKeepsValid | eliminate_missing_htids.rb:24-35 | a scrubbed history keeps the invariant with a stale id set, and a dump and reload makes its id set exactly the remaining ids |
| EliminateMissingHtids.EliminateMissing | eliminate_missing_htids.rb:17-35 | the missing htids are exactly those last seen before the target; the kept htid histories are the rest; every record history is scrubbed of the missing htids with its id set and month untouched; the kept record ids are exactly those with appearances left |
| EliminateMissingHtids.ScrubRecords | eliminate_missing_htids.rb:30-31 | every record history, shared or not, ends up scrubbed exactly once in effect |
| EliminateMissingHtids.DropEmpty | eliminate_missing_htids.rb:32-34 | the kept record ids are exactly those whose history has appearances |

## Left out

- Reading and writing files (`add_monthly`, `load_from_ndj`, `dump_to_ndj`,
  `Zinzout`), logging (`Logger`) and progress counters (`Waypoint`) are I/O.
  The store operations they call are modelled: `add_hathifile_line_by_date`,
  `add_record` and `Record#to_json`.
- JSON text: the model serialises to the logical shape of the JSON object
  (`RecordJson`, `EntryJson`, `HistoryHash`, `IdDateHash`) and not to bytes,
  and `JSON.create_id` and class-name tags are left out.
- The binary retry in `add_hathifile_line_by_date`: strings are sequences of
  characters with no encoding. The retry exists for lines whose invalid
  encoding makes `split` raise, and such lines succeed once read as binary.
  The model cannot represent them. The only lines it can fail on are those
  with fewer than four fields, and the retry cannot help those, so the model
  skips them directly.
- RecordStore.Records.AddRecord: the store holds record values, not shared
  `Record` objects. Aliasing between the store and a `Record` added to it, and
  in-place changes to a stored record through another reference, are not
  captured. `Record` itself is a class whose methods are proved against
  `SeeView`, `ComputeCurrentView` and `LiveEntries`.
- `HistoryEntry` objects are updated in place by `see`. The model replaces
  the value in the record's entry map instead. The same entry objects are
  also held in `current_entries`, so in the source a later `see` changes them
  there as well. Only `.htid` is read from `current_entries`
  (rec_only_test.rb:224), and `see` never changes it, so the model loses
  nothing by keeping values there.
- `compute_current_sets!`'s default argument (`yyyymm = newest_load`) is not
  modelled: `Records.ComputeCurrentSets` always takes the month, and
  `Pipeline` passes the newest load.
- `Record#seen_on_or_after?` has no member of its own. It is the test
  `mostRecentlySeen >= yyyymm` in `Refreshed` and in
  `Records.ComputeCurrentSets`.
- LineParsing.IdsFromLine: `to_i` is modelled for leading ASCII digits only.
  Leading whitespace, a sign and `_` separators are not modelled.
- Hash iteration order: `compute_current_sets!` is specified relationally, so
  which of two live records claiming the same htid wins is left open.
  `each_deleted_record` is a set.
- `HistoryHash` and `IdDateHash` are the logical shape shared by `to_h` and
  `to_json`: the same fields, without the `JSON.create_id` class tag that
  `to_json` adds. `HashRoundTrip` and `JsonRoundTrip` model
  `JSON.parse(x.to_json, create_additions: true)`. Passing a `to_h` hash
  straight to `json_create` is not modelled: its keys are symbols, so
  `json_create` finds no `'appearances'` or `'id'` in it.
- The class tag written by `to_json`, the debugging `rescue` (`binding.pry`)
  of `GenericHistory#to_json`, and the `rescue` in `IDDate#initialize`, which
  only prints, are left out.
- The error path of `GenericHistory.json_create` (lib/generic_history.rb:61-63)
  is left out. A malformed hash makes it print the error and return the hash
  itself (`pp obj`) in place of a history. `HistoryFromH` is total on the
  logical shape `HistoryHash`, so that path cannot arise in the model.
- The command-line parts of `eliminate_missing_htids.rb` (arguments,
  `HathifileHistory.new_from_ndj`, `dump_to_ndj`) are left out.
  `HathifileHistory` is not part of this model. Its two history hashes are
  parameters of `EliminateMissing`.
- EliminateMissingHtids.EliminateMissing: it returns the kept maps instead of
  deleting keys from the hashes during iteration, and states the
  `most_recent_appearance` of the htid histories as read before the pass.
- IdDates.Compare: Ruby's `<=>` between ids is a parameter returning an
  optional integer. Ruby's own rules for comparing strings and integers are
  not modelled.
