# tldrs-vhs store, modelled in Dafny

`tldrs-vhs` keeps blobs in a local content-addressed store. `put` streams a payload in, names it by its SHA-256 digest and returns the reference `vhs://<digest>`. The bytes go to a sharded file tree `blobs/<h[0:2]>/<h[2:4]>/<h>`. A SQLite table `objects` keeps one row per digest: size, `created_at` and `last_accessed`. The lookups `has`, `info` and `get` touch `last_accessed`. `delete` removes a blob and then its row. `list` and `stats` read the table. `gc` runs two passes:

- an age pass removes rows last accessed before a cutoff;
- an LRU size pass removes the least recently accessed rows until the table total is at or under a cap.

Both passes have a dry-run mode.

The project models `src/tldrs_vhs/store.py`:

- `base.dfy`: `Option`, `Result` and bytes.
- `refs.dfy`: `parse_ref`. It is written as a pure function and proved to accept exactly an optional `vhs://`, then whitespace, the 64-digit digest and whitespace.
- `layout.dfy`: `_blob_path`, as its path segments.
- `index.dfy`: the `objects` table, and the row sets of table scans:
  - a full `SELECT`;
  - `ORDER BY last_accessed ASC`, written as an insertion sort;
  - `DESC`, as its reverse;
  - `LIMIT`;
  - `SUM(size)`.
- `ops.dfy`: `put`, `get`, `has`, `info`, `delete`, `_touch` and `_delete_blob`, each as a pure transition of the pair (blob map, table), with the lemmas about those transitions.
- `collector.dfy`: the two `gc` passes as functions over the scanned rows, and the lemmas about what they select, remove and count.
- `store.dfy`: `class Store`, whose `blobs` and `rows` maps its methods update in place.
  - `Store.Put` has the read loop of `put`.
  - `Store.AgePass` and `Store.SizePass` have the two `gc` loops, with the size pass's early `break`.
  - `Store.List` has the sort and `LIMIT`.
  - `Touch`, `Has`, `Info`, `Get`, `Put`, `Delete` and `Gc` are proved equal to their transitions in `ops.dfy` or `collector.dfy`, and to keep the store's invariant `Valid()`. `Valid()` means two things: a blob exists exactly when its row does, with the row's size being the blob's length; and every blob is filed under the digest of its content.
  - `DeleteBlob`, `AgePass`, `SizePass`, `AgeStage` and `SizeStage` are proved equal to their transitions. They are steps inside `delete` and `gc`, and the invariant need not hold between them.
  - `Scan`, `TableTotal`, `Stats` and `List` change nothing. Their results are specified directly against the table.
  - `List` keeps the default `limit` of 20, and `Gc` the default `dryRun` of false.
- `scenarios.dfy`: each test in `tests/test_store.py` except `test_compressed_roundtrip`, and each test in `tests/test_gc.py`, run against a fresh `Store`, with the test's assertions as postconditions.

SHA-256 is the `Store`'s constructor parameter `sha256: Bytes -> Digest`, an arbitrary function into 64-character lowercase hex strings. The clock is a parameter `now: int` (seconds since the epoch) on every operation that reads it. A `last_accessed` text that does not parse is the value `Unparseable`.

## Dry-run counts

One would expect a dry run to report the counts a live run would. The code does not do this:

- A dry age pass leaves the selected rows in the table.
- The size pass then recomputes `total` from the table (`src/tldrs_vhs/store.py:195`) and can count the same rows again.

The model follows the code. `Collector.DryRunCountsAgedRowTwice` shows a one-row table for which the dry run reports 2 deletions and 10 bytes, while the live run reports 1 and 5.

A missing digest is not reported the same way everywhere: `get` raises `FileNotFoundError`, while `delete` returns `False`. The model does the same.

## Model

| member | source | states |
|---|---|---|
| Refs.ParseRef | src/tldrs_vhs/store.py:227-235 | a result, when there is one, is 64 characters from `0123456789abcdef`; parsing never fails otherwise |
| Refs.HexDigitsAreRange | src/tldrs_vhs/store.py:233 | membership in the literal `"0123456789abcdef"` is the range test the model uses |
| Refs.TrimLeft | src/tldrs_vhs/store.py:230 | the result is a suffix of the input, what it drops is all whitespace, and it starts with a non-space |
| Refs.TrimRight | src/tldrs_vhs/store.py:230 | the result is a prefix of the input, what it drops is all whitespace, and it ends with a non-space |
| Refs.AsciiSpaces | src/tldrs_vhs/store.py:230 | the whitespace `strip()` removes (`Refs.IsSpace`, the code points Python's `str.isspace` accepts) includes the blank and tab through carriage return, and no printable ASCII character |
| Refs.Strip | src/tldrs_vhs/store.py:230 | `strip()` never lengthens the string, leaves no whitespace at either end, and turns an all-whitespace string into the empty one |
| Refs.DropScheme | src/tldrs_vhs/store.py:228-229 | a leading `vhs://` is cut off once, and a string without it is kept as it is |
| Refs.StripSplit | src/tldrs_vhs/store.py:230 | `strip()` removes a run of whitespace from each end and nothing else |
| Refs.StripPadded | src/tldrs_vhs/store.py:230 | a digest padded with whitespace on both sides strips back to the digest |
| Refs.ParseRefSound | src/tldrs_vhs/store.py:227-235 | every accepted reference is an optional `vhs://`, whitespace, the returned digest and whitespace |
| Refs.ParseRefComplete | src/tldrs_vhs/store.py:227-235 | every string of that shape is accepted, and names exactly that digest |
| Refs.FormatRef | src/tldrs_vhs/store.py:147 | the reference is `vhs://` followed by exactly the 64-digit digest |
| Refs.ParseFormatRoundTrip | src/tldrs_vhs/store.py:227-235 | `parse_ref("vhs://" + h) == h` and `parse_ref(h) == h` for every digest `h` |
| Refs.DoubleSchemeRejected | src/tldrs_vhs/store.py:228-229 | only one `vhs://` is stripped: `vhs://vhs://<h>` is rejected |
| Refs.SpaceBeforeSchemeRejected | src/tldrs_vhs/store.py:228-230 | the prefix is looked for before whitespace is stripped: `" vhs://<h>"` is rejected |
| Layout.BlobPath | src/tldrs_vhs/store.py:54-55 | the path is `blobs`, two hex digits, two hex digits and the digest, with the shard names being the digest's first four digits |
| Layout.BlobPathInjective | src/tldrs_vhs/store.py:54-55 | two digests share a blob path if and only if they are equal |
| Layout.SameShard | src/tldrs_vhs/store.py:54-55 | two blobs share a shard directory if and only if their digests share the first four digits |
| Index.StampLeTotalPreorder | src/tldrs_vhs/store.py:84 | the `last_accessed` order is reflexive, total and transitive |
| Index.Insert | src/tldrs_vhs/store.py:198 | inserting into the ordered rows adds exactly that row (as a multiset) |
| Index.InsertSorted | src/tldrs_vhs/store.py:198 | inserting into ascending rows keeps them ascending |
| Index.SortAsc | src/tldrs_vhs/store.py:198 | `ORDER BY last_accessed ASC` returns a permutation of the scanned rows |
| Index.SortAscSorted | src/tldrs_vhs/store.py:198 | the sorted rows are in ascending `last_accessed` order |
| Index.PermutationKeepsScan | src/tldrs_vhs/store.py:197-199 | reordering a scan keeps its digests, its distinctness and its agreement with the table |
| Index.SortKeepsEnumeration | src/tldrs_vhs/store.py:197-199 | the ordered `SELECT` lists every row of the table exactly once, ascending |
| Index.ReverseSorted | src/tldrs_vhs/store.py:84 | reversing the ascending order gives `DESC` order |
| Index.ReverseKeepsScan | src/tldrs_vhs/store.py:84 | the reversed scan lists the same rows, each once, in descending order |
| Index.NewestPrefix | src/tldrs_vhs/store.py:84-86 | `LIMIT n` of a descending scan keeps distinct table rows in descending order, and no row left out was accessed later than one kept |
| Index.EnumeratedBytes | src/tldrs_vhs/store.py:92 | summing `size` over a full scan gives the table total |
| Index.EnumeratedCount | src/tldrs_vhs/store.py:92 | a full scan has as many entries as the table has rows |
| Index.HashesCount | src/tldrs_vhs/store.py:40 | a scan names at most one digest per entry, and exactly one when its digests are distinct (the primary key) |
| Index.TableBytesRemove | src/tldrs_vhs/store.py:92 | removing a row lowers the table total by exactly that row's size |
| Index.TableBytesMinus | src/tldrs_vhs/store.py:92 | removing a set of scanned rows lowers the table total by exactly their size sum |
| Index.RowWithinTotal | src/tldrs_vhs/store.py:92 | no row is larger than the table total |
| Ops.Touch | src/tldrs_vhs/store.py:159-165 | `_touch` keeps every blob and the set of rows, and gives the touched row `last_accessed = now` and its old size |
| Ops.DeleteBlob | src/tldrs_vhs/store.py:219-224 | `_delete_blob` returns true exactly when the blob existed, removes exactly that blob, and leaves the table alone |
| Ops.Has | src/tldrs_vhs/store.py:57-65 | `has` is true exactly for a valid ref whose blob file exists; it keeps the blobs and the set of rows |
| Ops.Info | src/tldrs_vhs/store.py:67-79 | `info` returns a row exactly for a valid ref with a row, and then that row as it was read; it keeps the blobs and the set of rows |
| Ops.Get | src/tldrs_vhs/store.py:97-105 | `get` fails with the invalid-ref error exactly for a malformed ref, succeeds exactly when the blob exists, and then yields its bytes; blobs and the set of rows are kept |
| Ops.Put | src/tldrs_vhs/store.py:115-147 | `put` returns `vhs://` plus the digest, adds exactly that digest to the blobs and to the rows, and changes no blob or row already there |
| Ops.Delete | src/tldrs_vhs/store.py:149-157 | `delete` fails exactly for a malformed ref, returns true exactly when the blob existed, only shrinks the blobs and the rows, and leaves no blob under a valid ref |
| Ops.TouchChangesOneStamp | src/tldrs_vhs/store.py:159-165 | `_touch` sets that digest's `last_accessed` to now, changes nothing else, and changes nothing when there is no row |
| Ops.DigestOfIsParse | src/tldrs_vhs/store.py:58-59 | the digest every operation looks up is exactly what `parse_ref` returns |
| Ops.InvalidRefChangesNothing | src/tldrs_vhs/store.py:57-157 | for a malformed ref: `has` is false, `info` is None, `get` and `delete` report the invalid ref, and no operation changes anything |
| Ops.DigestOfFormat | src/tldrs_vhs/store.py:147 | the ref `put` returns names its digest |
| Ops.LookupsTouchOnlyTheirDigest | src/tldrs_vhs/store.py:57-105 | `has` succeeds iff the blob exists, `info` iff the row exists, and `get` returns the blob or reports it missing; a successful lookup touches only its digest, a failed one changes nothing |
| Ops.HasInfoAsymmetry | src/tldrs_vhs/store.py:57-79 | `has` asks the blob tree and `info` asks the table: with a blob and no row, `has` is true and `info` None, and the reverse; they agree when the store is consistent |
| Ops.PutRefParses | src/tldrs_vhs/store.py:147 | `put` returns a ref that starts with `vhs://` and parses to the digest of the received bytes |
| Ops.PutThenLookup | src/tldrs_vhs/store.py:115-147 | after `put(B)`, `has` is true, `info.size == len(B)` and `get` gives back exactly `B`, unless a different blob or a row of another size already sits under that digest; this includes a blob left without its row, and stores out of step at other digests |
| Ops.OnlyCollisionBreaksRoundTrip | src/tldrs_vhs/store.py:131-138 | in a content-addressed store, `get` after `put(B)` fails to give `B` only on a SHA-256 collision |
| Ops.PutTwiceIsPutOnce | src/tldrs_vhs/store.py:135-145 | a second `put` of the same bytes returns the same ref and changes nothing |
| Ops.PutKeepsExisting | src/tldrs_vhs/store.py:135-145 | an existing blob is kept (the staged copy is unlinked) and an existing row is kept (INSERT OR IGNORE); a missing one is added, which repairs a blob left without its row |
| Ops.DeleteRemoves | src/tldrs_vhs/store.py:149-157 | `delete` returns true iff the blob existed, removes the blob, removes the row only in that case, and `has` is false afterwards |
| Ops.TouchKeepsConsistent | src/tldrs_vhs/store.py:159-165 | touching keeps blobs and rows in step |
| Ops.PutKeepsConsistent | src/tldrs_vhs/store.py:131-145 | `put` keeps blobs and rows in step, even on a digest collision |
| Ops.DeleteKeepsConsistent | src/tldrs_vhs/store.py:149-157 | `delete` keeps blobs and rows in step |
| Ops.LookupsKeepConsistent | src/tldrs_vhs/store.py:57-105 | `has`, `info` and `get` keep blobs and rows in step |
| Ops.LookupsAndDeleteKeepBlobs | src/tldrs_vhs/store.py:57-157 | lookups leave the blob tree as it was; `delete` only removes blobs |
| Ops.OperationsKeepContentAddressed | src/tldrs_vhs/store.py:115-165 | every operation keeps each blob filed under the digest of its own content |
| Collector.AgeStep | src/tldrs_vhs/store.py:178-191 | one row of the age loop either changes nothing or, for an expired row, adds one to `deleted` and its size to `freed_bytes`; a dry step leaves the state alone |
| Collector.AgeRun | src/tldrs_vhs/store.py:178-191 | the age loop adds at most one deletion per scanned row, never lowers the counters, and in a dry run leaves the state alone |
| Collector.SizeStep | src/tldrs_vhs/store.py:200-212 | one row of the size loop either changes nothing or counts the row, adds its size to `freed_bytes` and takes it off `total`; a dry step always counts and leaves the state alone |
| Collector.SizeRun | src/tldrs_vhs/store.py:200-212 | the size loop adds at most one deletion per row, never lowers the counters or raises `total`, and in a dry run leaves the state alone |
| Collector.AfterAge | src/tldrs_vhs/store.py:173-191 | without `max_age_days` nothing happens; otherwise at most one deletion per scanned row, and a dry run leaves the state alone |
| Collector.AfterSize | src/tldrs_vhs/store.py:193-212 | without a cap, or at or under it, nothing happens; otherwise at most one deletion per row of the ordered scan, and a dry run leaves the state alone |
| Collector.Collect | src/tldrs_vhs/store.py:167-217 | `gc` with neither limit does nothing and reports zero; `deleted` never exceeds the rows the two SELECTs returned |
| Collector.Cutoff | src/tldrs_vhs/store.py:174 | the cutoff is exactly `max_age_days` days of 86400 seconds before now, so it lies at or before now exactly when `max_age_days` is not negative |
| Collector.LastSeen | src/tldrs_vhs/store.py:179-182 | a parseable `last_accessed` gives its own timestamp; one `fromisoformat` rejects falls back to now |
| Collector.Expiring | src/tldrs_vhs/store.py:183 | the age pass selects exactly the scanned rows that are older than the cutoff, no more entries than were scanned |
| Collector.UnparseableNeverExpires | src/tldrs_vhs/store.py:179-183 | an unparseable `last_accessed` counts as now, so it is selected only when `max_age_days` is negative |
| Collector.ExpiringIsExactlyTheOldRows | src/tldrs_vhs/store.py:173-183 | the age pass selects exactly the scanned rows last accessed before `now - max_age_days * 86400` |
| Collector.ExpiringIsSubScan | src/tldrs_vhs/store.py:178-183 | the selected rows are scanned rows, with no digest twice |
| Collector.AgeRunDry | src/tldrs_vhs/store.py:184-186 | a dry age pass changes nothing and reports the number and size sum of the selected rows |
| Collector.AgeRunLive | src/tldrs_vhs/store.py:187-191 | a live age pass removes, and counts, exactly the selected rows whose blob deletion succeeded, blob and row together |
| Collector.RemovableWhenPresent | src/tldrs_vhs/store.py:187-191 | when every scanned blob exists, the live pass removes every selected row |
| Collector.AgePassRemovesTheOldRows | src/tldrs_vhs/store.py:173-191 | over a full scan of a table whose rows all have their blobs, the live age pass removes exactly the rows older than the cutoff, with their blobs, and reports their count and bytes |
| Collector.StopIndex | src/tldrs_vhs/store.py:200-202 | the size loop takes at most as many rows as the ordered scan holds |
| Collector.StopIndexIsFirstFit | src/tldrs_vhs/store.py:200-202 | the size pass stops at the first row at which the running total is at or under the cap |
| Collector.SizeRunEvictsOldestFirst | src/tldrs_vhs/store.py:193-212 | in a dry run, or in a live run where every row up to the stopping point still has its blob (later rows may lack theirs), the size pass takes exactly the oldest rows up to the stopping point, in order, and lowers `total` by exactly their sizes |
| Collector.EvictOldestStep | src/tldrs_vhs/store.py:200-212 | over the cap, the first row of the ordered scan is counted and taken, `total` drops by its size, and the stopping point of the rest is one row earlier |
| Collector.HashesOfPrefix | src/tldrs_vhs/store.py:193-199 | the digests of the first rows of the ordered scan are among the digests of the whole scan |
| Collector.MissingBlobsAreSkipped | src/tldrs_vhs/store.py:207-212 | a live size pass over rows whose blobs are all gone changes nothing, however far over the cap; for a mixed run see `Collector.OrphanRowIsSkipped` and `Collector.SizeRunShrinks` with `Collector.SizePassReportsWhatItRemoved` |
| Collector.OrphanRowIsSkipped | src/tldrs_vhs/store.py:207-212 | in a live size pass mixing present and missing blobs, a row whose blob is gone is skipped: the pass continues from the same state, with the counters and `total` unchanged |
| Collector.SizeRunAccounting | src/tldrs_vhs/store.py:200-212 | the size pass lowers `total` by exactly what it adds to `freed_bytes`, and does nothing once `total <= cap` |
| Collector.ShrinksTransitive | src/tldrs_vhs/store.py:167-217 | the "only evicts" relation composes across the two passes |
| Collector.AgeRunShrinks | src/tldrs_vhs/store.py:183-191 | the age pass only removes rows along with their blobs, and never changes a kept row or blob |
| Collector.SizeRunShrinks | src/tldrs_vhs/store.py:200-212 | the same, for the size pass |
| Collector.CollectOnlyEvicts | src/tldrs_vhs/store.py:167-217 | `gc` never removes a row without its blob, and never changes a kept row or blob |
| Collector.ShrinksKeepsBlobsPresent | src/tldrs_vhs/store.py:188-191 | since a row goes only after its blob, a row that stays keeps its blob |
| Collector.AgeStepReports | src/tldrs_vhs/store.py:183-191 | one live step of the age loop adds to the counters exactly what leaves the table, and the rest of the scan still matches it |
| Collector.AgeRunReports | src/tldrs_vhs/store.py:183-191 | over distinct table rows, whatever blobs are missing, the live age loop adds to `deleted` and `freed_bytes` exactly the rows and bytes that left the table |
| Collector.ShrinksKeepsConsistent | src/tldrs_vhs/store.py:188-191 | removing blob first and then row keeps blobs and rows in step |
| Collector.DryRunChangesNothing | src/tldrs_vhs/store.py:184-206 | a dry `gc` leaves every blob and every row as it was |
| Collector.SizePassMeetsCap | src/tldrs_vhs/store.py:193-212 | when every row has its blob, the live size pass ends at or under the cap, or with the table empty |
| Collector.LiveRunMeetsCap | src/tldrs_vhs/store.py:167-217 | when every row has its blob, a live `gc` with a cap ends with the table total at or under `max_size_mb * 1024 * 1024`, or with the table empty |
| Collector.AgePassReportsWhatItRemoved | src/tldrs_vhs/store.py:173-191 | over a full scan, whatever blobs are missing, the live age pass reports exactly the count and bytes of the rows it removed |
| Collector.SizeStepReports | src/tldrs_vhs/store.py:207-212 | one live step of the size loop adds to the counters exactly what leaves the table, and the rest of the scan still matches it |
| Collector.SizePassReportsWhatItRemoved | src/tldrs_vhs/store.py:193-212 | over distinct table rows, whatever blobs are missing, the live size pass adds to `deleted` and `freed_bytes` exactly the rows and bytes that left the table |
| Collector.LiveRunReportsWhatItRemoved | src/tldrs_vhs/store.py:167-217 | whatever blobs are missing, a live `gc` reports as `deleted` and `freed_bytes` exactly the rows and bytes that left the table |
| Collector.GcContract | src/tldrs_vhs/store.py:167-217 | `gc` only evicts; a dry run changes nothing; consistency is kept; a live run reports exactly what it removed, and meets the cap when every row has its blob |
| Collector.OrphanRowOutlivesCap | src/tldrs_vhs/store.py:207-212 | a table holding only a row whose blob is gone stays over a zero cap after a live `gc`, and nothing is reported |
| Collector.DryRunCountsAgedRowTwice | src/tldrs_vhs/store.py:184-206 | a row the dry age pass selects stays in the table and is counted again by the size pass |
| StoreEngine.Store.constructor | src/tldrs_vhs/store.py:27-33 | a store over the given blob tree and table |
| StoreEngine.Store.Touch | src/tldrs_vhs/store.py:159-165 | `_touch` in place: the new state is the touch transition of the old, and the invariant is kept |
| StoreEngine.Store.DeleteBlob | src/tldrs_vhs/store.py:219-224 | `_delete_blob` removes the blob if it is there, and says whether it was |
| StoreEngine.Store.Has | src/tldrs_vhs/store.py:57-65 | `has` in place, equal to its transition, keeping the invariant |
| StoreEngine.Store.Info | src/tldrs_vhs/store.py:67-79 | `info` in place, equal to its transition, keeping the invariant |
| StoreEngine.Store.Get | src/tldrs_vhs/store.py:97-113 | `get` in place: the stored bytes, or the invalid-ref or missing-blob failure, keeping the invariant |
| StoreEngine.Store.Put | src/tldrs_vhs/store.py:115-147 | the read loop receives the whole stream; the ref is `vhs://` plus the digest of those bytes; the blob and row are there afterwards; the new state is the `put` transition; the invariant is kept |
| StoreEngine.Store.Delete | src/tldrs_vhs/store.py:149-157 | `delete` in place, equal to its transition, keeping the invariant |
| StoreEngine.Store.Scan | src/tldrs_vhs/store.py:175-177 | a `SELECT` without `ORDER BY` lists every row of the table once, in some order |
| StoreEngine.Store.TableTotal | src/tldrs_vhs/store.py:195 | `COALESCE(SUM(size), 0)` is the table total (0 when empty) |
| StoreEngine.Store.Stats | src/tldrs_vhs/store.py:89-95 | `count` is the number of rows and `total_bytes` the sum of their sizes |
| StoreEngine.Store.List | src/tldrs_vhs/store.py:81-87 | `limit` rows (20 by default; all of them for a negative limit or a small table), distinct table rows, newest first, and no row left out newer than one listed |
| StoreEngine.Store.AgePass | src/tldrs_vhs/store.py:178-191 | the age loop's final state and counters are those of the age pass over the scanned rows |
| StoreEngine.Store.SizePass | src/tldrs_vhs/store.py:200-212 | the size loop, with its `break`, ends in the state, counters and `total` of the size pass |
| StoreEngine.Store.AgeStage | src/tldrs_vhs/store.py:173-191 | the age pass runs over a full scan of the table, and only when `max_age_days` is given |
| StoreEngine.Store.SizeStage | src/tldrs_vhs/store.py:193-212 | the size pass runs only over the cap, over an ascending full scan of the table as the age pass left it |
| StoreEngine.Store.Gc | src/tldrs_vhs/store.py:167-217 | `gc` (with `dryRun` false by default) ends in the state and counts of the two passes; it only evicts; a dry run changes nothing; the invariant is kept; a live run reports exactly what it removed, and meets the cap when every row has its blob |
| Scenarios.ReceivedOne | src/tldrs_vhs/store.py:126 | a stream that delivers its payload in one read is received whole |
| Scenarios.PutGetHasInfoRoundTrip | tests/test_store.py:7-25 | after `put`, the ref starts with `vhs://`, `has` is true, `info.size` is the length and `get` returns the bytes |
| Scenarios.ListOfThree | tests/test_store.py:39-41 | `list(limit=2)` over three rows gives two of them |
| Scenarios.DeleteThenHas | tests/test_store.py:43-45 | `delete` of a stored ref returns true, and `has` is then false |
| Scenarios.ListStatsDelete | tests/test_store.py:28-45 | after three puts: `stats` counts 3 rows of 11 bytes, `list(limit=2)` gives two stored digests, `delete` of the first is true and `has` of it then false |
| Scenarios.PlantOld | tests/test_gc.py:8-13 | `_set_last_accessed` sets back the stamp of one row and changes nothing else |
| Scenarios.OnlyPlantedIsOld | tests/test_gc.py:26-29 | with a one-day limit, only the row set back to 2000 is older than the cutoff |
| Scenarios.AgedCollection | tests/test_gc.py:29-32 | over the planted table, a live `gc(max_age_days=1)` counts one deletion and leaves only the new blob |
| Scenarios.CollectAged | tests/test_gc.py:29-32 | `gc(max_age_days=1)` deletes one row and keeps the new blob |
| Scenarios.GcMaxAge | tests/test_gc.py:20-32 | after planting an old stamp, `gc(max_age_days=1)` reports one deletion, the old ref is gone and the new one is there |
| Scenarios.CollectAll | tests/test_gc.py:42-45 | `gc(max_size_mb=0)` over non-empty blobs removes every blob |
| Scenarios.GcMaxSize | tests/test_gc.py:35-45 | `gc(max_size_mb=0)` reports at least one deletion, and neither ref is there afterwards |

## Left out

- `src/tldrs_vhs/cli.py` is not part of this model. It is argument parsing, exit codes and printing around the `Store`.
- SHA-256 itself: it is the arbitrary function `sha256`, and the scenarios assume distinct digests for distinct payloads. Incremental hashing is not modelled, because `put` hashes the whole stream.
- The filesystem and SQLite are two maps, updated atomically by each operation. Left out with them: `mkdir`, the `tmp` staging file and its pid/urandom name, the atomic `replace`, connections and transactions, and the `TLDRS_VHS_HOME` root.
- Concurrency, and crashes between the blob write and the row insert. The code has no locking. `Ops.PutKeepsExisting` states the repair of such a crash: a blob without a row gets its row on the next `put`.
- The wall clock: `now` is a parameter in whole seconds. `datetime.now`, ISO-8601 formatting and parsing, and fractional seconds are left out. A stamp that fails to parse is `Unparseable`.
- `ORDER BY last_accessed` compares the stored text in SQLite. The model compares parsed instants and puts `Unparseable` first. The two agree on the stamps the code itself writes, which always have the same UTC offset, but not on arbitrary text.
- The copy of a blob to stdout or to a file in `get` is I/O. The model returns the stored bytes.
- The 1 MiB read size of `put` is left out. The stream is a sequence of reads, and the receive stops at the first empty one.
- Compression, `stored_size`, `keep_last` retention and schema migration are not modelled, because the code has none of them. `tests/test_store.py:48-55` calls `put(..., compress=True)`, which `put` does not accept, so that test is not modelled.
- Collector.LiveRunMeetsCap, Collector.SizePassMeetsCap, Collector.GcContract and StoreEngine.Store.Gc promise the cap only when every row has its blob. The code skips a row whose blob file is gone: the row stays and its size stays in `total` (`Collector.OrphanRowOutlivesCap`).
- The ordering of the plain `SELECT`s in `gc` is a nondeterministic choice in `Store.Scan`. The lemmas hold for every order.
