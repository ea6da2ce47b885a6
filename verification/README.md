# Scenario changelogs: a verified model

A scenario lets a user write to a table without touching it. The writes go to a *delta
changelog*, and everything else interprets that changelog: the merge-on-read scan, the write
sinks, the UNIQUE probes, merge-back and the diff. This project states what the changelog
stands for - an ordinary table - and proves that these five readings agree with it and with
each other.

* **Keyed tables.** The delta holds at most one change (I, U or D) per key. `KeyedDelta` is the
  abstract level: the op-transition matrix on finite maps and what a whole statement does to
  the view. `TouchedRows`, `DeltaStore`, `KeyedSinks` and `KeyedRuns` are the sinks as the code
  runs them - row ids, the lazily resolved key map, touched keys, removal and append lists,
  unique indexes, chunks, whole runs of statements - each proved to refine the level above.
  `KeyedConstraints` and `KeyedUnique` cover secondary UNIQUE constraints, `UpdatePlans` when a
  statement tracks the rows it touches, `KeyHashSet` and `KeyedScan` the scan.
* **Keyless tables.** The delta records inserted and deleted copies. `BagDelta` (with
  `BagScan`) is the bag and its budgeted scan, `BagDml` the statements, `BagUnique` the
  counting probe.
* **Merge-back.** `KeyedMerge`/`MergeExecute` and `BagMerge`/`BagMergeExecute`/
  `BagMergeForeign` hold the same decision as it is written three times - the host's loop, the
  statements on a foreign base, the preview - with one specification all of them meet;
  `KeyedMergeUnique` and `BagMergeUnique` say when the base's unique indexes let it pass, and
  `MergeDrivers` is a whole merge over many tables. `MergeTag` and `LakeMerge` are the two-commit
  merge into a lake as a transition system with crashes and retries.
* **Around it.** `Diff` (with `BagDiff`), the codecs `NameCodec` and `KeyCodec`, and
  `Lifecycle`/`LifecycleVerbs` for creating, branching, freezing, merging and dropping.

`EXCEPT ALL` is multiset difference as in section 7.13 of ISO/IEC 9075-2:2003; delimited
identifiers follow section 5.2 of ISO/IEC 9075-2. `Values` and `Sequences` hold what the modules share.

## What is assumed

* A base with a PRIMARY KEY on exactly the key columns, for the theorems about keyed
  statements. Without one the collision probes see nothing; `InsertWithoutBaseKey` says exactly
  what is lost.
* The host may change the base between statements, as long as it adds no key that the scenario
  inserted - and, for tables with UNIQUE constraints, leaves the other conditions of `Guarded`
  standing (`HostFits`). The diff and the lemmas that name `Inv` are about a base that did not move.
* Whole statements and runs: every unique index of the base is a UNIQUE constraint or the key.
* Keys are never NULL and are unique in the base and in the snapshot, on a foreign base too,
  where nothing enforces a declared key.
* One equality on column values, everywhere; hash functions are arbitrary; fingerprints tell
  deltas apart. A chunk is a sequence of rows, an index a finite map, a transaction all or
  nothing.
* One merge attempt at a time, which reads one delta state.

## Where the code differs from what one might expect

* docs/spec/architecture.md:75-77 says that I and U keys are claimed; the scan suppresses base
  rows for U and D keys only (src/catalog/scenario_scan.cpp:651-665). When the host inserts a
  key that the scenario has inserted, a scan emits both rows (`ShadowedInsertShowsTwice`); it
  lists the view exactly when that has not happened (`ScanIsViewIff`).
* A comment at src/catalog/scenario_delta.cpp:494-496 says that tombstones never conflict in the
  mirrored UNIQUE indexes. They keep their key values, so on a constraint over key columns alone
  they can (`KeyOnlyUniqueIsRefused`); `ChecksAcceptIff` and `TombstoneConflictIff` say exactly when.
* docs/spec/architecture.md:280 says that swaps of unique values work within one statement. They
  work within one chunk (`SwapIsAccepted`) and are refused across a chunk border
  (`SwapAcrossChunksIsRefused`); `ExecuteUpdate` says exactly which UPDATEs pass.
  Keyless tables behave alike (`SwapKeepsUnique`, `HalfASwapIsNotUnique`).
* Indexes made by CREATE UNIQUE INDEX on the base are probed, but not mirrored on the delta and not
  watched for changes (src/catalog/scenario_delta.cpp:497-513,
  src/catalog/scenario_update_delete.cpp:145-160): two inserted rows may share a value
  (`CreatedIndexLetsRowsShare`), and an UPDATE of such a column alone passes unprobed
  (`CreatedIndexIsNotWatched`).
* docs/API_REFERENCE.md:158-159 has the preview list the conflicts that make 'abort' throw. The
  preview does not consult the base's unique indexes: a merge with a clean preview can fail under
  every policy (`HostTookTheValue`, `HostTookTheTuple`), and 'theirs' can fail where 'ours' succeeds
  (`HalfASwapDoesNotFit`). `MergeSucceedsIff` and `BagMergeSucceedsIff` say exactly when it succeeds.
* A merge writes the live base and never the snapshots. A scenario that reads one - its own, or that
  of the materialized scenario it branches from - falls back to it when its delta is emptied
  (`MergedCopyFallsBack`, `MergedBranchFallsBack`); `MergedShowsSameIff`, `MergeOnUnmovedBase` and
  `UnmovedBagBecomesView` say exactly when it shows no difference.
* On a key that both the scenario and the host inserted, a DELETE of the scenario's row uncovers the
  host's (`DeletesOfShadowedKey`), and the host's row cannot be written through the scenario
  (`WriteShadowed`).
* A key-moving UPDATE is stricter than a simultaneous update: a swap or a chain of keys is
  rejected (`KeySwapIsRejected`); the exact condition is in `UpdateIsSimultaneous`.
* The two-argument diff equals the three-argument diff exactly on deltas that keep the
  invariant (`DeltaIsTheDiff`, `NetsAreTheDiff`). `rows_modified` counts U rows even when no
  column changed (`SummaryCountsModified`).
* A branch loses its parent's changes on tables that were dropped from the base
  (`BranchInheritsChangelogIff`, `BranchMayLoseChanges`); `BranchShowsParent` says exactly when
  that can be seen.
* ATTACH reports a "cycle" on parent chains of more than 1000 hops; there are no cycles, and
  such chains can be created (`WalkOnAttach`, `RunKeepsInv`, `FalseCycleIsReachable`).
* A foreign merge refuses when the base table of an empty delta is gone, a host merge does not
  (`HostAndForeignAgree`).
* Foreign bases other than DuckLake carry no merge tag and may receive a delta twice
  (`UntaggedBaseMayApplyTwice`).

## Model

| member | source | states |
|---|---|---|
| KeyedDelta.RewriteIsUpdate | src/catalog/scenario_update_delete.cpp:581-610 | an UPDATE that keeps its key changes exactly that row of the view and keeps the invariant |
| KeyedDelta.VacateIsDelete | src/catalog/scenario_update_delete.cpp:622-647 | deleting a visible key - tombstone, U to D, or a vanishing I - removes exactly that key from the view |
| KeyedDelta.ClaimIsInsert | src/catalog/scenario_insert.cpp:278-308 | inserting a key that is not visible adds exactly that row; over a tombstone it becomes a U row |
| KeyedDelta.ClaimableMeansAbsent | src/catalog/scenario_update_delete.cpp:648-673 | with a base PRIMARY KEY, the duplicate-key checks reject a key exactly when the view holds it |
| KeyedDelta.UpdateRowOnView | src/catalog/scenario_update_delete.cpp:569-675 | one UPDATE row, key move included, is accepted exactly when its keys are untouched and the new key is free, and then replaces one row of the view by its image |
| KeyedDelta.UpdateIsSimultaneous | src/catalog/scenario_update_delete.cpp:569-675 | a row-by-row UPDATE is rejected exactly when two rows share a touched key or a moved row meets an existing key; otherwise the view is the simultaneous update |
| KeyedDelta.SimultaneousIsUnique | src/catalog/scenario_update_delete.cpp:569-675 | there is one simultaneous update, so the accepted result is determined |
| KeyedDelta.UpdateIsOrderIndependent | src/catalog/scenario_update_delete.cpp:46-55 | every permutation of the rows is accepted or rejected alike and leaves the same view |
| KeyedDelta.UpdateInChunks | src/catalog/scenario_update_delete.cpp:569-675 | splitting an UPDATE into chunks does not change its outcome |
| KeyedDelta.KeySwapIsRejected | src/catalog/scenario_update_delete.cpp:1082-1091 | two rows that exchange their keys are always rejected, although the simultaneous result would be a table |
| KeyedDelta.DeleteRemovesKeys | src/catalog/scenario_update_delete.cpp:945-992 | a DELETE over visible keys, repeats included, removes exactly those keys and touches each once |
| KeyedDelta.InsertAddsRows | src/catalog/scenario_insert.cpp:278-327 | an INSERT is accepted exactly when no key is visible and none repeats, and then the view gains exactly its rows |
| KeyedDelta.HostChangeShows | src/catalog/scenario_scan.cpp:645-693 | a change of the base shows on exactly the keys the scenario has not touched |
| KeyedDelta.OverlayAfterHostChange | src/catalog/scenario_scan.cpp:651-665 | what the statements rest on survives a change of the base exactly when it adds no key the scenario inserted |
| KeyedDelta.DeletesOfShadowedKey | src/catalog/scenario_update_delete.cpp:945-992 | deleting the scenario's row of a shadowed key uncovers the base row; only going on to delete that as well removes the key |
| KeyedDelta.UpdateOfShadowedKey | src/catalog/scenario_update_delete.cpp:594-607 | updating the scenario's row of a shadowed key leaves it shadowed |
| KeyedSinks.WriteShadowed | src/catalog/scenario_update_delete.cpp:581-592 | a shadowed base row read on its own cannot be written: the key index refuses the second change |
| KeyedDelta.InsertWithoutBaseKey | src/catalog/scenario_unique.cpp:56-61 | without a base PRIMARY KEY an accepted insert keeps the invariant if and only if its key is not an untouched base key |
| KeyedDelta.InsertsWithoutBaseKey | src/catalog/scenario_unique.cpp:56-61 | without a base PRIMARY KEY an accepted INSERT of many rows keeps the invariant if and only if a PRIMARY KEY would have let it pass |
| KeyedDelta.UpdatesWithoutBaseKey | src/catalog/scenario_unique.cpp:56-61 | the same for an UPDATE with key moves |
| UpdatePlans.NoRepeats | src/catalog/scenario_update_delete.cpp:84-101 | a plan of scans, filters and projections emits each row of the scan at most once |
| UpdatePlans.RepeatsIffNotRowByRow | src/catalog/scenario_update_delete.cpp:84-101 | tracking is called for by exactly the plans that hold an operator other than a scan, a filter or a projection |
| UpdatePlans.PlanUpdate | src/catalog/scenario_update_delete.cpp:1082-1091 | an UPDATE tracks touches exactly when its plan can repeat rows or it assigns a key column |
| UpdatePlans.UntrackedUpdateIsInPlace | src/catalog/scenario_update_delete.cpp:1082-1091 | an UPDATE that does not track has no repeated row and moves no key |
| UpdatePlans.UntrackedDeleteIsDistinct | src/catalog/scenario_update_delete.cpp:1120-1122 | a DELETE that does not track has no repeated row |
| UpdatePlans.UntrackedBagStatement | src/catalog/scenario_update_delete.cpp:84-101 | nor has a statement on a keyless table, by row number |
| UpdatePlans.ScanListsKeysOnce | src/catalog/scenario_scan.cpp:645-693 | a scan that lists the view lists each key once |
| TouchedRows.TouchedRows.TouchKey | src/catalog/scenario_update_delete.cpp:46-55 | the key map is the finite map of touched rows; a repeated DELETE is skipped, anything else refused |
| TouchedRows.TouchedRows.TouchRowno | src/catalog/scenario_update_delete.cpp:57-82 | the two growing bitmaps behave as one finite map from row number to "deleted", through every growth; NULL and negative numbers are refused |
| TouchedRows.RecordRules | src/catalog/scenario_update_delete.cpp:46-55 | the first touch applies; only a DELETE of a row that a DELETE touched is skipped; every other second touch is refused; a touch that does not apply is not recorded |
| DeltaStore.DeltaTable.Append | src/catalog/scenario_delta.cpp:465-513 | the delta table is unique over its key and over every mirrored constraint: an append is accepted exactly when its key is new and all indexes stay unique |
| DeltaStore.DeltaKeyMap.ResolveKey | src/catalog/scenario_insert.cpp:46-78 | a key is probed at most once and before the statement changes it |
| DeltaStore.DeltaKeyMap.Resolve | src/catalog/scenario_insert.cpp:46-102 | the lazily resolved key map stays the start-of-statement delta plus the statement's changes on the keys it knows |
| DeltaStore.KnownRowId | src/include/catalog/scenario_dml.hpp:68-75 | a key the statement has not changed carries its real row id |
| DeltaStore.PendRemove | src/catalog/scenario_update_delete.cpp:594-607 | one more pending removal takes exactly one key out of what a flush will leave |
| DeltaStore.PendAppend | src/catalog/scenario_update_delete.cpp:583-592 | one more pending append adds exactly one key to it |
| DeltaStore.FlushDeletes | src/catalog/scenario_update_delete.cpp:328-346 | the pending removals take exactly their rows out; other rows keep their ids |
| DeltaStore.FlushAppends | src/catalog/scenario_update_delete.cpp:279-326 | the pending appends never meet a present key, and pass exactly when every mirrored index stays unique with all of them in |
| DeltaStore.Flush | src/catalog/scenario_update_delete.cpp:745-748 | delete, then append: succeeds exactly when the statement's delta keeps every mirrored index unique, and then leaves that delta |
| KeyedSinks.KeyedSink.DropRow | src/catalog/scenario_update_delete.cpp:631-646 | a scheduled removal names a real row id; -1 never enters the removal list |
| KeyedSinks.KeyedSink.VacateKey | src/catalog/scenario_update_delete.cpp:622-647 | the sink's three branches are the abstract vacate step |
| KeyedSinks.KeyedSink.ClaimKey | src/catalog/scenario_update_delete.cpp:648-673 | refused exactly when the key is visible by now, otherwise the abstract claim step; the base probe is owed exactly for keys outside the delta |
| KeyedSinks.KeyedSink.RewriteRow | src/catalog/scenario_update_delete.cpp:581-610 | the sink's two branches are the abstract rewrite step |
| KeyedSinks.KeyedSink.UpdateOne | src/catalog/scenario_update_delete.cpp:569-675 | one row of the sink accepts and changes the delta exactly as the abstract UPDATE row, and says why it refuses: a key touched before, or else a visible key to move to |
| KeyedSinks.KeyedSink.UpdateChunk | src/catalog/scenario_update_delete.cpp:567-756 | one chunk with all checks in order - keys in the scenario, changed values in the base, keys in the base, mirrored indexes - is applied only if the abstract fold accepts, and, when the fold's delta keeps the invariant (always, with a base PRIMARY KEY), exactly if its view is also unique under every constraint, no tombstone is in the way, and no changed row meets an index made by CREATE UNIQUE INDEX; the first row that is refused says why, and a later check speaks only when the earlier ones passed |
| KeyedSinks.KeyedSink.CheckUpdates | src/catalog/scenario_update_delete.cpp:676-745 | the two base probes and the mirrored indexes together accept exactly that |
| KeyedSinks.KeyedSink.FetchOld | src/catalog/scenario_update_delete.cpp:683-703 | the rows fetched for the changed-value filter are the rows of the view |
| KeyedSinks.KeyedSink.PickDoomed | src/catalog/scenario_update_delete.cpp:877-886 | the rows picked delete the same keys as the whole chunk, each once |
| KeyedSinks.KeyedSink.DeleteChunk | src/catalog/scenario_update_delete.cpp:871-996 | one chunk of a DELETE is the abstract fold, each key is counted once; only a mirrored index could refuse it |
| KeyedSinks.KeyedSink.InsertChunk | src/catalog/scenario_insert.cpp:278-380 | the same verdict for one chunk of an INSERT, in-chunk repeats included, with the reason of each refusal |
| KeyedSinks.ProbeOneMore | src/catalog/scenario_update_delete.cpp:650-673 | putting the base probe off to the end of the chunk changes no verdict |
| KeyedRuns.ExecuteUpdate | src/catalog/scenario_update_delete.cpp:567-756 | for any chunking and either key-map mode an UPDATE on the stored delta is the simultaneous update of the view, or is rejected exactly when the rows are incompatible or the constraints fail after some chunk |
| KeyedRuns.RunDelete | src/catalog/scenario_update_delete.cpp:871-996 | for any chunking a DELETE leaves the fold of all its rows in the stored delta, and no index ever refuses it |
| KeyedRuns.ExecuteDelete | src/catalog/scenario_update_delete.cpp:871-992 | for any chunking a DELETE removes exactly the matched keys and counts each once |
| KeyedRuns.ExecuteInsert | src/catalog/scenario_insert.cpp:239-380 | for any chunking an INSERT adds exactly its rows, or is rejected exactly for a visible or repeated key or when the constraints fail of the whole result |
| KeyedRuns.StepRefines | src/catalog/scenario_update_delete.cpp:567-996 | one statement on the scenario is the same statement on a plain table with a key and UNIQUE constraints; a constraint over key columns alone can only make it refuse more |
| KeyedRuns.MatchedIsExact | src/catalog/scenario_update_delete.cpp:567-675 | the rows an UPDATE sink is handed, chunk by chunk, are exactly the planned rows whose key the view holds |
| KeyedRuns.UpdateReachesItsRows | src/catalog/scenario_update_delete.cpp:569-675 | where an UPDATE is accepted every planned row that exists ends with its image, its old key is gone, and every row that none of them reads or writes stays; for a shared key or an occupied target it is refused |
| KeyedRuns.UpdateIsAppliedIff | src/catalog/scenario_update_delete.cpp:567-756 | an UPDATE that no key refuses replaces all its rows at once, exactly when no beginning of its chunks leaves two rows with the same values under a constraint; otherwise it changes nothing |
| KeyedRuns.InsertReachesItsRows | src/catalog/scenario_insert.cpp:278-380 | where an INSERT is accepted every planned row is in the view and nothing else changed; for a key of the view or a repeated key it is refused |
| KeyedRuns.InsertIsAppliedIff | src/catalog/scenario_insert.cpp:278-380 | an INSERT that no key refuses is applied exactly when what it would leave holds no two rows with the same values under a constraint |
| KeyedRuns.DeleteReachesItsKeys | src/catalog/scenario_update_delete.cpp:945-992 | no key of a DELETE is left in the view, and every other row stays |
| KeyedRuns.RunsRefinePlainTable | src/catalog/scenario_update_delete.cpp:567-996 | over every run of INSERT, UPDATE and DELETE, with the host changing the base in between, the invariants hold and the view is the plain table that went through the same statements and changes |
| KeyedRuns.ExecuteStatement | src/catalog/scenario_update_delete.cpp:567-996 | a statement on the stored delta table, in its own transaction, leaves the delta of the abstract statement or, refused, the delta as it was |
| KeyedRuns.ExecuteRun | src/catalog/scenario_update_delete.cpp:567-996 | a run of statements on the stored delta table, with host changes in between, ends with the delta of the abstract run, so with the view of the plain table |
| KeyedConstraints.ClashMeans | src/catalog/scenario_unique.cpp:208-256 | two rows clash under a constraint exactly when they hold the same value, and no NULL, in each of its columns |
| KeyedUnique.UniquenessSplits | src/catalog/scenario_unique.cpp:1-9 | the view is unique exactly when the visible delta rows are and none of them collides with a base row that is not replaced |
| KeyedUnique.MirrorSplits | src/catalog/scenario_delta.cpp:494-513 | the mirrored index accepts exactly when the visible delta rows are unique and no tombstone's values are taken by another delta row |
| KeyedUnique.ChecksAcceptIff | src/catalog/scenario_unique.cpp:1-9 | index and probe together accept exactly when the view is unique and no tombstone conflicts; with a non-key column in the constraint that is uniqueness itself |
| KeyedUnique.KeyOnlyUniqueIsRefused | src/catalog/scenario_delta.cpp:494-496 | PRIMARY KEY (a, b), UNIQUE (a): a concrete insert whose view is unique and which the mirrored index refuses |
| KeyedUnique.TombstoneConflictIff | src/catalog/scenario_delta.cpp:494-496 | a tombstone conflicts with a row exactly when the constraint has key columns only and the row holds the tombstone's NULL-free values |
| KeyedUnique.CollectReplaced | src/catalog/scenario_unique.cpp:63-206 | the masked base rows are exactly those whose key has a flushed or pending D/U row |
| KeyedUnique.ProbeSecondary | src/catalog/scenario_unique.cpp:208-256 | the probe passes exactly when no probed row holds the values of a base row outside the replaced keys, for every constraint |
| KeyedUnique.ChangedRows | src/catalog/scenario_update_delete.cpp:680-720 | exactly the rows whose unique values changed are probed |
| KeyedUnique.UnchangedRowsPass | src/catalog/scenario_update_delete.cpp:676-679 | skipping a row whose unique values did not change is sound |
| KeyedUnique.PendingMaskIsExact | src/catalog/scenario_update_delete.cpp:726-733 | flushed plus pending replaced keys are the replaced keys of the delta the chunk is about to leave |
| KeyedUnique.ChunkIsUniqueIff | src/catalog/scenario_update_delete.cpp:676-744 | after an UPDATE chunk the mirrored index accepts and the probe of the changed rows passes if and only if the view is unique and no tombstone conflicts |
| KeyedUnique.InsertIsUniqueIff | src/catalog/scenario_insert.cpp:328-343 | the same equivalence after an INSERT chunk, re-inserts over tombstones included |
| KeyedUnique.CreatedIndexIff | src/catalog/scenario_insert.cpp:328-343 | where an INSERT passes the probe of an index made by CREATE UNIQUE INDEX, the view is unique under it exactly when the visible delta rows are |
| KeyedUnique.NoChangesAreGuarded | src/catalog/scenario_unique.cpp:1-9 | a scenario without changes meets every condition of the statements exactly when the base is keyed and unique itself |
| KeyedUnique.CreatedIndexLetsRowsShare | src/catalog/scenario_delta.cpp:497-513 | two concrete inserted rows with one value that pass, because such an index is not mirrored |
| KeyedUnique.CreatedIndexIsNotWatched | src/catalog/scenario_update_delete.cpp:145-160 | an UPDATE of the columns of such an index alone is not probed at all |
| KeyedUnique.CoveredIndexesPass | src/catalog/scenario_unique.cpp:35-53 | where every index of the base is a constraint, the checks of the constraints cover it |
| KeyedUnique.SwapIsAccepted | src/catalog/scenario_unique.cpp:1-9 | two rows that exchange unique values in one chunk are accepted |
| KeyedUnique.SwapAcrossChunksIsRefused | src/catalog/scenario_update_delete.cpp:676-748 | the same exchange with a chunk border between the rows is refused |
| KeyedUnique.DeleteKeepsGuarded | src/catalog/scenario_update_delete.cpp:871-996 | a DELETE never meets a constraint: it keeps the view unique and every tombstone clear |
| KeyedUnique.InsertBeginningsAreClear | src/catalog/scenario_insert.cpp:328-343 | an INSERT whose whole result satisfies the constraints satisfies them after each beginning, so chunk borders do not matter |
| KeyHashSets.MaskStaysInTable | src/catalog/scenario_scan.cpp:51-56 | masking a hash lands inside a power-of-two table |
| KeyHashSets.MaskIsRemainder | src/catalog/scenario_scan.cpp:51-56 | masking a hash with 2^k - 1 is its remainder modulo 2^k |
| KeyHashSets.HasEmptySlot | src/catalog/scenario_scan.cpp:48-50 | a table at most half full has an empty slot |
| KeyHashSets.WalkPath | src/catalog/scenario_scan.cpp:51-57 | probing ends at the hash or at an empty slot, and an empty slot means the hash is absent |
| KeyHashSets.KeyHashSet.Insert | src/catalog/scenario_scan.cpp:46-60 | inserting adds exactly the normalized hash, growing when needed |
| KeyHashSets.KeyHashSet.Grow | src/catalog/scenario_scan.cpp:80-90 | growing keeps the members and the count and never grows again inside |
| KeyHashSets.KeyHashSet.Contains | src/catalog/scenario_scan.cpp:61-74 | membership of the normalized hash, exactly |
| KeyHashSets.HitsAreExactUpToNormalization | src/catalog/scenario_scan.cpp:77-79 | no false negative, and the only false positive is 0 against 1 |
| KeyedScan.SuppressionState.CollectHashes | src/catalog/scenario_scan.cpp:637-676 | whatever the limit and wherever it is crossed, the collected state hides exactly the U/D keys |
| KeyedScan.SuppressionState.CollectStrings | src/catalog/scenario_scan.cpp:677-693 | the string set hides exactly the U/D keys |
| KeyedScan.SuppressionState.EmitBaseChunk | src/catalog/scenario_scan.cpp:874-940 | every suppression strategy keeps exactly the base rows that are not hidden |
| KeyedScan.ScanIsViewIff | src/catalog/scenario_scan.cpp:645-693 | delta rows followed by the unsuppressed base rows list the view, each row once, if and only if no inserted key has appeared in the base |
| KeyedScan.ShadowedRowIsExtra | src/catalog/scenario_scan.cpp:651-665 | on such a key the base row is listed once more than the view holds it |
| KeyedScan.ShadowedInsertShowsTwice | src/catalog/scenario_scan.cpp:651-665 | a concrete delta and base whose scan emits two rows of one key |
| KeyedScan.ScanParts | src/catalog/scenario_scan.cpp:517-693 | string set, hash prefilter with exact probe, and probe only after the limit emit the same rows |
| KeyedScan.ScanAll | src/catalog/scenario_scan.cpp:517-693 | for any base and delta the full scan lists the view if and only if no inserted key has appeared in the base |
| KeyedScan.PinsAreComplete | src/include/catalog/scenario_compat.hpp:590-631 | the extracted values include every value that satisfies the filter |
| KeyedScan.PinsIffNamed | src/include/catalog/scenario_compat.hpp:590-631 | values are extracted from exactly the filters that name some: an equality, an IN list, or a conjunction or optional filter that holds one |
| KeyedScan.CrossProductCovers | src/catalog/scenario_scan.cpp:591-606 | the mixed-radix enumeration reaches every combination of pinned values |
| KeyedScan.PointKey | src/catalog/scenario_scan.cpp:593-605 | the digit loop computes that combination |
| KeyedScan.LookUpPoints | src/catalog/scenario_scan.cpp:609-634 | duplicate IN values emit once: each looked-up visible delta row exactly once |
| KeyedScan.ScanPoints | src/catalog/scenario_scan.cpp:568-636 | a point-lookup scan, filtered again above, lists what the filtered full scan lists, even if either side ignores its optional filters |
| KeyedScan.ChoosePins | src/catalog/scenario_scan.cpp:571-588 | the chosen pins are the first usable filter of each key column, within the key budget |
| KeyedScan.ChosenPinsAdmit | src/catalog/scenario_scan.cpp:571-588 | every row that passes the pushed filters is admitted by the chosen pins |
| KeyedScan.ScanFiltered | src/catalog/scenario_scan.cpp:517-693 | whichever of the two branches is taken, a scan with pushed filters, filtered again above, lists the filtered merged relation - the filtered view as long as no inserted key has appeared in the base |
| BagDelta.NetIsDifference | src/catalog/scenario_scan.cpp:711-727 | the accumulated net of a value is its inserted minus its deleted copies |
| BagDelta.ViewCount | src/lifecycle/scenario_diff.cpp:222-226 | the merged bag written with EXCEPT ALL holds max(0, base + net) copies of each value, for every base and delta |
| BagDelta.BagInvMeansNet | src/catalog/scenario_update_delete.cpp:529-536 | "no more deleted than exists" is net(v) >= -base(v) for every value |
| BagScan.BagScanState.InitBag | src/catalog/scenario_scan.cpp:694-746 | positive nets become that many rows, negative nets the budget; the numbered delta rows come first; rows made from the delta have no row id |
| BagScan.BagScanState.EmitBaseChunk | src/catalog/scenario_scan.cpp:941-974 | what a chunk keeps depends on the whole scan so far, not on where chunks begin; its kept rows take the next row numbers |
| BagScan.KeepCount | src/catalog/scenario_scan.cpp:941-960 | swallowing leaves max(0, copies - budget) of each value |
| BagScan.ValueFilterCommutes | src/catalog/scenario_scan.cpp:756-767 | value filters may run in storage: the same copies survive |
| BagScan.RowidFilterDoesNotCommute | src/catalog/scenario_scan.cpp:756-767 | a row-id filter below the budget would lose a row, which is why it is deferred |
| BagScan.RownosAreDistinct | src/catalog/scenario_scan.cpp:961-966 | row numbers of one scan never repeat, however base chunks interleave |
| BagScan.Aggregate | src/catalog/scenario_scan.cpp:711-727 | the aggregation table holds the net of every listed value, and unlisted values have net zero |
| BagScan.ScanBag | src/catalog/scenario_scan.cpp:694-767 | for any split into chunks the scan yields exactly max(0, base + net) copies of each value and swallows the first base copies; rows made from the delta have no row id |
| BagScan.ScanIsExceptAll | src/lifecycle/scenario_diff.cpp:222-226 | the scanned bag equals the diff's (base UNION ALL I) EXCEPT ALL D, for every base and delta |
| BagDml.BagSink.DeleteOne | src/catalog/scenario_update_delete.cpp:845-856 | a DELETE row appends one D copy unless the statement already deleted that copy |
| BagDml.BagSink.UpdateOne | src/catalog/scenario_update_delete.cpp:492-509 | an UPDATE row appends D(old) and I(new), or throws when the copy was touched before |
| BagDml.BagSink.DeleteChunk | src/catalog/scenario_update_delete.cpp:838-868 | a chunk applies exactly the rows that touch their copy first |
| BagDml.BagSink.UpdateChunk | src/catalog/scenario_update_delete.cpp:483-529 | a chunk is applied exactly when no copy repeats and the merged bag after it is unique under every index |
| BagDml.ChunkIsJudged | src/catalog/scenario_update_delete.cpp:510-521 | what the probe of a chunk judges is the merged bag once the chunk is in the delta |
| BagDml.TouchesConcat | src/catalog/scenario_update_delete.cpp:57-82 | where chunks begin does not matter for which rows apply |
| BagDml.DeletesPick | src/catalog/scenario_update_delete.cpp:845-856 | the appended D rows are exactly the distinct touched copies |
| BagDml.ReplacesPick | src/catalog/scenario_update_delete.cpp:492-509 | the appended rows take out exactly the touched copies and put in exactly the images |
| BagDml.ExecuteDelete | src/catalog/scenario_update_delete.cpp:834-868 | whatever a join repeats, DELETE removes exactly the distinct matched copies from the merged bag, counts each once, and keeps net(v) >= -base(v) and every index unique |
| BagDml.ExecuteUpdate | src/catalog/scenario_update_delete.cpp:483-529 | UPDATE replaces each matched copy once, or throws exactly when a copy is matched twice or some chunk leaves an index with two equal tuples; net(v) >= -base(v) is kept |
| BagDml.ExecuteInsert | src/catalog/scenario_insert.cpp:356-380 | INSERT adds exactly its rows, or throws exactly when the result holds two equal tuples in an index, wherever the chunks begin |
| BagDml.SwapKeepsUnique | src/catalog/scenario_update_delete.cpp:510-521 | two rows that exchange their tuples in one chunk keep the bag unique |
| BagDml.HalfASwapIsNotUnique | src/catalog/scenario_update_delete.cpp:510-521 | with a chunk border between them the first row alone breaks the index |
| BagUnique.ComputeTuple | src/catalog/scenario_unique.cpp:273-284 | the tuple key, "" when a column is NULL |
| BagUnique.TupleMeansValues | src/catalog/scenario_unique.cpp:273-284 | tuple keys are equal exactly for equal NULL-free values, and none of them is "" |
| BagUnique.SharedTupleMeans | src/catalog/scenario_unique.cpp:273-284 | two rows share a tuple exactly when they hold the same value, and no NULL, in each column of the index |
| BagUnique.UniqueMeansNoTwoRows | src/catalog/scenario_unique.cpp:258-262 | counting at most one per tuple means no two rows agree on NULL-free values |
| BagUnique.ScenarioSide | src/catalog/scenario_unique.cpp:302-346 | per candidate: inserted minus deleted minus pending copies |
| BagUnique.BaseSide | src/catalog/scenario_unique.cpp:348-376 | the fast path and the row-by-row fallback find the same collisions |
| BagUnique.CheckRows | src/catalog/scenario_unique.cpp:378-391 | rows are accepted exactly when each finds its tuple absent, rows before it included |
| BagUnique.ViewTupleCount | src/catalog/scenario_unique.cpp:300-346 | the merged bag's count of a tuple is base plus net |
| BagUnique.ProbeIsExact | src/catalog/scenario_unique.cpp:258-392 | checking row by row accepts exactly when the merged bag stays unique |
| BagUnique.ProbeKeyless | src/catalog/scenario_unique.cpp:258-393 | the probe accepts a chunk if and only if the merged bag after its deletes and inserts holds every NULL-free tuple of every index at most once |
| BagUnique.AfterIsTheView | src/catalog/scenario_update_delete.cpp:510-521 | the bag the probe judges is the merged bag of the delta the sink then writes |
| BagUnique.NoChangesObey | src/catalog/scenario_unique.cpp:258-262 | a keyless scenario without changes obeys the indexes of its base |
| KeyedMerge.OursMeansScenario | src/lifecycle/scenario_merge.cpp:908-936 | 'ours' makes the base equal the scenario on every touched key and leaves it unchanged elsewhere |
| KeyedMerge.TheirsMeansCleanChanges | src/lifecycle/scenario_merge.cpp:905-907 | 'theirs' merges exactly the changes that do not conflict |
| KeyedMerge.PolicyMattersOnlyOnConflict | src/lifecycle/scenario_merge.cpp:897-911 | without a conflict all policies give the view |
| KeyedMerge.MergeOnUnmovedBase | src/lifecycle/scenario_merge.cpp:768-994 | on an unmoved base nothing conflicts and every policy gives the view; the scenario still shows it afterwards if and only if it reads the live base or its changes change nothing of what it reads, whether or not the merge has a snapshot to compare with |
| KeyedMerge.AbortIsAllOrNothing | src/lifecycle/scenario_merge.cpp:898-989 | 'abort' is refused for a conflict exactly when some change conflicts, and succeeds exactly when none does and the view is unique under the base's indexes; then it reports zero conflicts and applies the whole changelog |
| KeyedMerge.AbortRefusesStaleChanges | src/lifecycle/scenario_merge.cpp:881-903 | 'abort' is refused for a conflict exactly when some change inserts a present key, updates a missing one, or touches a row of which some non-key column differs from the snapshot |
| KeyedMerge.StaleChangeStays | src/lifecycle/scenario_merge.cpp:897-936 | under 'theirs' exactly such changes leave the base's row alone; under any other policy, and for any other change, the change takes effect |
| KeyedMerge.UntouchedStays | src/lifecycle/scenario_merge.cpp:877-936 | a key without a change keeps its base row under every policy |
| KeyedMerge.AnyColumnCounts | src/lifecycle/scenario_merge.cpp:889-893 | between rows of full width a difference in any column, the last included, is a difference |
| KeyedMerge.ReportCountsChanges | src/lifecycle/scenario_merge.cpp:873-994 | conflicts counts each such change once, rows_applied each change that takes effect once, and the table counts as changed exactly when there is one |
| KeyedMerge.PreviewMatchesMerge | src/lifecycle/scenario_merge.cpp:215-221 | the preview's CASE expression is the merge's conflict rule |
| KeyedMerge.AbortSucceedsIffPreviewIsClean | src/lifecycle/scenario_merge.cpp:177-221 | 'abort' is refused for a conflict exactly when some preview row has conflict = true; it succeeds exactly when none has and the view is unique under the base's indexes |
| KeyedMerge.InsertsNeverCollide | src/lifecycle/scenario_merge.cpp:579-590 | the INSERT only writes keys the DELETE left free |
| KeyedMerge.ForeignMergeMeetsSpec | src/lifecycle/scenario_merge.cpp:525-594 | the foreign statements, whose base has no unique index, give the specified base, rows_applied, changed flag and conflict count, and refuse the same merges |
| MergeExecute.StoredTable.Resolve | src/lifecycle/scenario_merge.cpp:816-839 | one scan finds the row id and payload of exactly the wanted keys |
| MergeExecute.HasDrifted | src/lifecycle/scenario_merge.cpp:882-896 | comparing all columns finds a difference exactly when a non-key column differs |
| MergeExecute.PlanRow | src/lifecycle/scenario_merge.cpp:877-936 | one round of the row loop under each policy |
| MergeExecute.PlanRows | src/lifecycle/scenario_merge.cpp:873-937 | the loop stops exactly when 'abort' meets a conflict |
| MergeExecute.ListsGiveMerge | src/lifecycle/scenario_merge.cpp:873-936 | deleting the collected row ids and appending the collected rows gives the merged table |
| MergeExecute.StoredTable.Append | src/lifecycle/scenario_merge.cpp:971-986 | an append to the base is accepted exactly when every unique index stays unique |
| MergeExecute.MergeKeyedTable | src/lifecycle/scenario_merge.cpp:768-994 | the host's merge of a stored table reaches exactly the specified outcome - refused for a conflict, refused by a unique index, or done - and a refused one leaves the base as it was |
| KeyedMergeUnique.MergedIsUniqueIff | src/lifecycle/scenario_merge.cpp:939-986 | the merged table is unique exactly when the written rows hold distinct values and none of them the values of a row that stays |
| KeyedMergeUnique.MergeSucceedsIff | src/lifecycle/scenario_merge.cpp:873-989 | a host merge succeeds exactly when 'abort' meets no conflict and no row that stays in the base holds the values of a written one |
| KeyedMergeUnique.UnmovedMergeSucceeds | src/lifecycle/scenario_merge.cpp:873-989 | on an unmoved base the merge always succeeds, because the statements kept the view unique |
| KeyedMergeUnique.HostTookTheValue | src/lifecycle/scenario_merge.cpp:967-986 | a concrete merge without any conflict, with a clean preview, that fails under every policy |
| KeyedMergeUnique.HalfASwapDoesNotFit | src/lifecycle/scenario_merge.cpp:905-907 | a concrete swap on a materialized copy whose one half 'theirs' drops: 'theirs' fails, 'ours' succeeds |
| BagMerge.StepsAgree | src/lifecycle/scenario_merge.cpp:463-479 | the host's branches and the foreign delete/insert expressions agree, never delete more copies than exist, and end at the target |
| BagMerge.UnmovedBagBecomesView | src/lifecycle/scenario_merge.cpp:1017-1165 | on an unmoved base nothing drifts and the merged base is the view; the scenario still shows the same afterwards if and only if it reads the live base or its nets change nothing of what it reads |
| BagMerge.PreviewIsCleanIffNoDrift | src/lifecycle/scenario_merge.cpp:135-174 | no previewed copy is a conflict exactly when no value drifted |
| BagMerge.PreviewListsTheRest | src/lifecycle/scenario_merge.cpp:135-174 | of each value the preview lists the inserted copies less the deleted ones, or the other way round |
| BagMerge.BagAbortIffPreviewIsClean | src/lifecycle/scenario_merge.cpp:135-174 | 'abort' on a keyless table is refused for a conflict exactly when a previewed copy is flagged, and succeeds exactly when none is and the view is unique under the base's indexes |
| BagMergeExecute.StepValue | src/lifecycle/scenario_merge.cpp:1080-1112 | the branches for one value |
| BagMergeExecute.CollectBase | src/lifecycle/scenario_merge.cpp:1025-1047 | the base copies of every deleted value, in scan order |
| BagMergeExecute.FirstRowids | src/lifecycle/scenario_merge.cpp:1113-1115 | the first collected row ids are exactly the first copies of the value |
| BagMergeExecute.WithoutIsKeep | src/lifecycle/scenario_merge.cpp:1113-1133 | deleting by collected row ids is swallowing the first copies |
| BagMergeExecute.PlanValues | src/lifecycle/scenario_merge.cpp:1076-1116 | the per-value loop lists the specified deletes and appends in any order of values |
| BagMergeExecute.JudgeAppends | src/lifecycle/scenario_merge.cpp:1134-1158 | judging the appended copies one by one against the held entries accepts exactly when the result is unique |
| BagMergeExecute.MergeBagTable | src/lifecycle/scenario_merge.cpp:1017-1165 | refused when 'abort' meets a drifted value or an index refuses an append; otherwise every value ends at max(0, base + net), at its base count, or at max(0, snapshot + net), with the specified counts |
| BagMergeUnique.TargetsAre | src/lifecycle/scenario_merge.cpp:1085-1128 | how many copies of every value the base ends with, by policy: 'ours' counts a drifted value from the snapshot, the others leave it alone, and any other value takes its net |
| BagMergeUnique.BagReportCountsCopies | src/lifecycle/scenario_merge.cpp:1085-1165 | conflicts counts each drifted value once; deleted and inserted are exactly the copies that the base lost and gained, so no value is both |
| BagMergeUnique.CountingIsUniqueBy | src/catalog/scenario_unique.cpp:258-262 | counting each tuple at most once is having no two rows with one index entry |
| BagMergeUnique.BagMergeSucceedsIff | src/lifecycle/scenario_merge.cpp:1076-1158 | a keyless host merge succeeds exactly when 'abort' meets no drifted value and, for every tuple of every index, the copies kept plus the copies appended are at most one |
| BagMergeUnique.UnmovedBagMergeSucceeds | src/lifecycle/scenario_merge.cpp:1076-1158 | on an unmoved base it always succeeds when the view is unique |
| BagMergeUnique.HostTookTheTuple | src/lifecycle/scenario_merge.cpp:1134-1158 | a concrete keyless merge with a clean preview that fails under every policy |
| BagMergeForeign.DeletesAgree | src/lifecycle/scenario_merge.cpp:481-507 | deleting the lowest row ids and deleting every copy to re-insert the survivors leave the same multiset |
| BagMergeForeign.NeverOverDeletes | src/lifecycle/scenario_merge.cpp:483-489 | the window delete removes exactly the planned number of copies |
| BagMergeForeign.RemovesTheExpected | src/lifecycle/scenario_merge.cpp:490-502 | the delete of every copy removes exactly the counted copies |
| BagMergeForeign.ForeignBagMeetsSpec | src/lifecycle/scenario_merge.cpp:409-523 | the foreign statements meet the host's specification - refusals, counts, targets - and their count checks never roll back |
| MergeDrivers.HostAndForeignAgree | src/lifecycle/scenario_merge.cpp:385-396 | whole merges leave the same base tables, report the same totals and refuse alike, except that the foreign one also refuses when the base table of an empty delta is gone, and the host when a merged base would break a unique index |
| MergeDrivers.AbortIffPreviewIsClean | src/lifecycle/scenario_merge.cpp:90-232 | a whole host merge with 'abort' succeeds exactly when no preview row conflicts, no table with changes has lost its base, and no changed view breaks a unique index |
| MergeDrivers.AbortMeansNoConflict | src/lifecycle/scenario_merge.cpp:898-904 | a merge that succeeds under 'abort' reports zero conflicts |
| MergeDrivers.MergeAddsUp | src/lifecycle/scenario_merge.cpp:724-1188 | a whole merge passes exactly when both parts of any split of its tables pass; the counts add up and the bases follow one another |
| MergeDrivers.OrderOfTables | src/lifecycle/scenario_merge.cpp:724-1188 | the order of the tables changes neither the verdict nor a count, and leaves the same bases |
| MergeDrivers.MergeOfOneKeyed | src/lifecycle/scenario_merge.cpp:724-1188 | a merge of one keyed table is refused without its base or when its own merge does not pass, changes nothing for an empty delta, and otherwise reports that merge's counts |
| MergeDrivers.MergeOfOneKeyless | src/lifecycle/scenario_merge.cpp:724-1188 | the same for a keyless table |
| MergeTag.SearchFindsOneIdentity | src/lifecycle/scenario_merge.cpp:341-352 | the tag search finds the tags of one scenario identity and of no other |
| MergeTag.ParseTag | src/lifecycle/scenario_merge.cpp:355-366 | the field loop reads a tag as the specification does |
| MergeTag.ReadUndoesTag | src/lifecycle/scenario_merge.cpp:596-602 | fingerprint and counts read back from a tag are those written |
| MergeTag.TagFormat | src/lifecycle/scenario_merge.cpp:596-602 | the text of a tag |
| MergeTag.LastFieldCounts | src/lifecycle/scenario_merge.cpp:357-365 | of several fields with one key the last one counts |
| MergeTag.OnlyFieldsCount | src/lifecycle/scenario_merge.cpp:357-365 | what is read under a key stands in some field of the tag |
| MergeTag.IncompleteTag | src/lifecycle/scenario_merge.cpp:367-378 | the counts of a tag are unknown exactly when one of the three numbers is missing or does not begin with a digit |
| LakeMerge.TagCodecIsGood | src/lifecycle/scenario_merge.cpp:335-381 | the tags of the merge are read back under their own identity and no other, and other texts read as nothing |
| LakeMerge.StepKeepsInv | src/lifecycle/scenario_merge.cpp:675-722 | every step - write, begin, lake apply, host bookkeeping, crash, drop, foreign commit - keeps the two-commit invariant |
| LakeMerge.AtMostOneApply | src/lifecycle/scenario_merge.cpp:286-298 | over every run with crashes, failed steps and retries the lake gets at most one apply per scenario identity |
| LakeMerge.MergedMeansAppliedOnce | src/lifecycle/scenario_merge.cpp:675-722 | merged implies exactly one apply, of the very delta that was emptied; the scenario is frozen and empty |
| LakeMerge.RetryNeverReapplies | src/lifecycle/scenario_merge.cpp:353-381 | a retry on the applied delta leaves the lake alone and carries the tag's counts; any other delta is refused with nothing changed |
| LakeMerge.FirstApplyRecordsItsCounts | src/lifecycle/scenario_merge.cpp:596-603 | an attempt that crashed after the lake commit is resumed with the counts of that commit |
| LakeMerge.AttemptCompletes | src/lifecycle/scenario_merge.cpp:675-722 | an attempt on an open scenario whose sides both succeed applies its delta to the lake once, empties it, marks the scenario merged and frozen, and changes no other scenario |
| LakeMerge.RetryCompletes | src/lifecycle/scenario_merge.cpp:351-380 | so does a retry after a crash between the two commits, and the lake stays as the first attempt left it |
| LakeMerge.EveryOpenScenarioCanBeMerged | src/lifecycle/scenario_merge.cpp:646-722 | after any run that leaves a scenario open and unapplied the three steps of an attempt merge it |
| LakeMerge.FailuresRollBack | src/lifecycle/scenario_merge.cpp:675-722 | a refused apply leaves everything as it was, failed bookkeeping everything but the lake |
| LakeMerge.VerbsDoTheirWork | src/lifecycle/scenario_lifecycle.cpp:222-438 | between attempts writes land exactly while a scenario is not frozen, a freeze freezes, unfreezing is refused exactly once it is merged, and a drop removes it |
| LakeMerge.OnlyOpenScenariosAreMerged | src/lifecycle/scenario_merge.cpp:648-662 | on a missing, merged or frozen scenario no attempt starts |
| LakeMerge.UntaggedBaseMayApplyTwice | src/lifecycle/scenario_merge.cpp:335-339 | a foreign base without commit metadata can receive the same delta twice |
| Diff.DeltaIsTheDiff | src/lifecycle/scenario_diff.cpp:335-363 | the delta-only diff equals the generic diff of base and view if and only if I keys are outside and U/D keys inside the base |
| Diff.SwapSides | src/lifecycle/scenario_diff.cpp:264-312 | swapping the sides swaps added with removed and old with new |
| Diff.DiffDetermines | src/lifecycle/scenario_diff.cpp:293-312 | a diff fixes the other side's keys and, on common keys, its columns |
| Diff.SummaryCountsRows | src/lifecycle/scenario_diff.cpp:424-427 | rows_added minus rows_removed is the change in size of the table |
| Diff.SummaryCountsKeys | src/lifecycle/scenario_diff.cpp:424-427 | rows_added counts the keys the view gained, rows_removed those it lost |
| Diff.SummaryCountsModified | src/lifecycle/scenario_diff.cpp:424-427 | rows_modified counts U rows: it equals the keys with a modified row exactly when every U row changes some column |
| BagDiff.DiffIsExact | src/lifecycle/scenario_diff.cpp:275-289 | A minus removed plus added is B, and these are the smallest two bags for which that holds |
| BagDiff.DeltaDiffApplies | src/lifecycle/scenario_diff.cpp:322-333 | for every base and delta the listed copies, taken out and put in, give the merged bag; the removed ones all exist exactly when the invariant holds |
| BagDiff.NetsAreTheDiff | src/lifecycle/scenario_diff.cpp:322-333 | the net counts are the bag difference of base and merged bag if and only if net(v) >= -base(v) |
| BagDiff.BagSummaryCountsRows | src/lifecycle/scenario_diff.cpp:413-422 | the summed positive minus the summed negative nets are the change in size of the merged bag |
| BagDiff.BagSummaryCountsCopies | src/lifecycle/scenario_diff.cpp:413-422 | the summed positive nets are the copies the merged bag gained, the summed negative nets those it lost |
| NameCodec.DecodeNamePart | src/catalog/scenario_delta.cpp:272-302 | the cursor loop decodes one delimited or plain part |
| NameCodec.SplitLogicalName | src/catalog/scenario_delta.cpp:315-326 | the split of a logical name |
| NameCodec.SplitUndoesEncode | src/catalog/scenario_delta.cpp:262-326 | splitting undoes encoding for all strings - dots, quotes, doubled quotes and empties included |
| NameCodec.EncodeIsInjective | src/catalog/scenario_delta.cpp:304-309 | two tables never share a logical name |
| NameCodec.CanonicalSpelling | src/lifecycle/scenario_diff.cpp:95-102 | re-encoding a typed name reaches its canonical spelling in one step |
| NameCodec.DelimitedPart | src/catalog/scenario_delta.cpp:272-302 | in any text a well-formed delimited part is unquoted |
| NameCodec.PlainPart | src/catalog/scenario_delta.cpp:272-302 | everything else, an unbalanced quote included, is taken as it stands up to the next separator |
| NameCodec.NameFormat | src/catalog/scenario_delta.cpp:262-309 | the spellings, by example |
| KeyCodec.MakeKey | src/catalog/scenario_delta.cpp:618-632 | the column loop builds the key string |
| KeyCodec.ValueIsSelfDelimiting | src/catalog/scenario_delta.cpp:618-632 | no encoded value is a proper prefix of another one |
| KeyCodec.KeyIsInjective | src/catalog/scenario_delta.cpp:618-632 | equal key strings mean equal tuples of optional strings, of any lengths |
| KeyCodec.KeyFormat | src/catalog/scenario_delta.cpp:618-632 | the formats, by example |
| KeyCodec.PrefixSelectsOneScenario | src/lifecycle/scenario_merge.cpp:70-84 | the delta and snapshot prefixes of a scenario select its own tables only |
| KeyCodec.PhysicalNamesAreDistinct | src/catalog/scenario_delta.cpp:251-257 | distinct internal tables have distinct names |
| KeyCodec.TablesToDrop | src/lifecycle/scenario_lifecycle.cpp:376-389 | exactly the scenario's delta and snapshot tables are dropped |
| Lifecycle.StepKeepsInv | src/lifecycle/scenario_lifecycle.cpp:222-438 | every verb keeps: parents live with smaller ids, only roots materialized, physical tables owned by live scenarios, merged scenarios frozen and empty |
| Lifecycle.RunKeepsInv | src/lifecycle/scenario_lifecycle.cpp:222-438 | the same and unique names over every run |
| Lifecycle.MergedForever | src/lifecycle/scenario_lifecycle.cpp:426-438 | a merged scenario stays merged, frozen and empty until it is dropped, and its id never comes back |
| Lifecycle.FreezeFreezes | src/lifecycle/scenario_lifecycle.cpp:417-424 | after a freeze nothing but unfreezing or dropping the scenario changes its deltas, over every run |
| Lifecycle.FrozenIsUntouched | src/lifecycle/scenario_lifecycle.cpp:417-424 | the same for a scenario that is frozen already |
| Lifecycle.UnfreezeOpens | src/lifecycle/scenario_lifecycle.cpp:426-438 | after unfreezing an unmerged scenario a write shows |
| Lifecycle.MergeCloses | src/lifecycle/scenario_merge.cpp:648-716 | a merge is refused exactly for a missing, merged, frozen or branched scenario; otherwise it is merged, frozen and empty and no other scenario changed |
| Lifecycle.DropForgets | src/lifecycle/scenario_lifecycle.cpp:359-415 | a drop is refused exactly for a missing or branched scenario; otherwise nothing of it stays and nothing else changes |
| Lifecycle.CreatedShowsBase | src/lifecycle/scenario_lifecycle.cpp:222-357 | a new scenario without a parent shows the base as it is, in either mode |
| Lifecycle.UnchangedFollowsBase | src/lifecycle/scenario_lifecycle.cpp:236-243 | while a scenario has no changes, a change of the base shows in it exactly if it is not a materialized copy |
| Lifecycle.NameRules | src/lifecycle/scenario_lifecycle.cpp:26-45 | valid names, one character at a time: letters, digits and _, not a digit first, at most 63 |
| Lifecycle.BranchInheritsChangelogIff | src/lifecycle/scenario_lifecycle.cpp:333-356 | a branch inherits its parent's whole changelog if and only if every table the parent changed still exists in the base |
| Lifecycle.BranchShowsParent | src/lifecycle/scenario_lifecycle.cpp:236-243 | a branch shows exactly what its parent shows if and only if the changes on tables dropped from the base, which it does not inherit, change nothing; the parent's view is left alone |
| Lifecycle.BranchMayLoseChanges | src/lifecycle/scenario_lifecycle.cpp:333-345 | a concrete parent whose branch does not show its changes: materialized, on a table since dropped |
| Lifecycle.WritesAreIsolated | src/lifecycle/scenario_lifecycle.cpp:346-355 | a write never changes what another scenario shows, nor another table of the same one |
| Lifecycle.WriteShows | src/catalog/scenario_storage_extension.cpp:48-65 | the writing scenario shows its base under the new delta; a frozen one shows what it showed |
| Lifecycle.OtherVerbsKeepShows | src/lifecycle/scenario_lifecycle.cpp:222-438 | freezing, branching, dropping and merging others change what a scenario shows only through the live base |
| Lifecycle.MergedShowsSameIff | src/lifecycle/scenario_merge.cpp:768-994 | after a merge without conflict the merged scenario shows what it showed if and only if it reads the live base or all its changes are idle on its snapshot |
| Lifecycle.MergedCopyFallsBack | src/catalog/scenario_storage_extension.cpp:48-65 | a concrete materialized scenario that shows its row before the merge and not after it |
| Lifecycle.MergedBranchFallsBack | src/catalog/scenario_storage_extension.cpp:48-65 | a concrete branch of a materialized scenario, with no snapshot of its own, that falls back to its parent's copy |
| LifecycleVerbs.Registry.Lookup | src/catalog/scenario_registry.cpp:481-496 | the scan finds a row of that name exactly when there is one |
| LifecycleVerbs.Registry.LookupById | src/catalog/scenario_registry.cpp:498-513 | the scan finds the row of that id |
| LifecycleVerbs.Registry.HasChildren | src/catalog/scenario_registry.cpp:629-643 | true exactly when some row names the scenario as parent |
| LifecycleVerbs.Registry.Insert | src/catalog/scenario_registry.cpp:533-560 | appends one row under a fresh id |
| LifecycleVerbs.Registry.Delete | src/catalog/scenario_registry.cpp:562-578 | removes exactly that row |
| LifecycleVerbs.Registry.Update | src/catalog/scenario_registry.cpp:580-627 | replaces exactly that row |
| LifecycleVerbs.WalkToBase | src/lifecycle/scenario_diff.cpp:104-116 | the unguarded parent walk ends and finds the nearest materialized ancestor |
| LifecycleVerbs.WalkOnAttach | src/catalog/scenario_storage_extension.cpp:48-65 | the guarded walk reports a cycle exactly when the chain has more than 1000 hops, although there never is one, and otherwise finds the same ancestor |
| LifecycleVerbs.ChainsOfAnyLength | src/lifecycle/scenario_lifecycle.cpp:222-357 | as long as its name fits into 63 characters, some run of create events reaches a scenario n hops from its root |
| LifecycleVerbs.FalseCycleIsReachable | src/catalog/scenario_storage_extension.cpp:48-65 | a run of 1002 creations reaches a scenario that ATTACH refuses as cyclic |
| LifecycleVerbs.Host.Create | src/lifecycle/scenario_lifecycle.cpp:130-357 | accepted exactly when the name is valid and free, the parent exists and a branch is not to be materialized; the row and table loops reach the specified state |
| LifecycleVerbs.Host.CopyTables | src/lifecycle/scenario_lifecycle.cpp:333-356 | the loop over base tables copies exactly the specified snapshots and parent deltas |
| LifecycleVerbs.Host.Freeze | src/lifecycle/scenario_lifecycle.cpp:417-424 | accepted exactly when the scenario exists; sets exactly its frozen flag |
| LifecycleVerbs.Host.Unfreeze | src/lifecycle/scenario_lifecycle.cpp:426-438 | accepted exactly when the scenario exists and is not merged; clears exactly its frozen flag |
| LifecycleVerbs.Host.Drop | src/lifecycle/scenario_lifecycle.cpp:359-415 | accepted exactly when the scenario exists, is not attached and has no children; removes its row and all its tables |
| LifecycleVerbs.Host.DropTables | src/lifecycle/scenario_lifecycle.cpp:376-396 | drops exactly the scenario's tables |

## Left out

- LakeMerge.MergedMeansAppliedOnce: a scenario write or a second merge that overlaps a running attempt is not a step of the model; writes, freezes and drops happen between attempts.
- KeyedSinks.KeyedSink.UpdateChunk: says nothing of UNIQUE constraints once a base without a PRIMARY KEY has let a key collide; `UpdatesWithoutBaseKey` and `InsertsWithoutBaseKey` say exactly when that happens.
- KeyedRuns.ExecuteUpdate: whole statements and runs are stated for a base with a PRIMARY KEY on the key columns.
- KeyedRuns.RunsRefinePlainTable: for constraints with a non-key column; for others `StepRefines` says that a statement is refused or does what it does on the plain table, and `ExecuteUpdate` and `ExecuteInsert` say exactly when.
- Lifecycle.MergedShowsSameIff: for a merge that applies every change; a 'theirs' merge with conflicts is described by `TheirsMeansCleanChanges`.
- BagMergeExecute.MergeBagTable: a snapshot without the table (it appeared after the copy was taken) is taken as no snapshot; such a table cannot be written through the scenario.
- MergeTag.IncompleteTag: a number in a tag is the digits it begins with; the sign or blank that std::stoull would also skip, and its refusal of 2^64 and more, are not modelled, as no merge writes them.
- KeyedMerge.ForeignMergeMeetsSpec: assumes unique keys in base and snapshot; over duplicates of a declared key the host deletes one row and the statements delete all of them.
- KeyedScan.ChoosePins: values are taken as already cast to the key types; the fallback on a failed cast is the full scan, which is modelled.
- Lifecycle.BranchShowsParent: deltas are the keyed ones and bases live in the host; a bag delta is copied row by row in the same way.
- DeltaStore.Flush: appending and deleting in vector-sized batches, and registering deleted rows in the transaction's delete indexes, have no effect on maps.
- KeyedSinks.KeyedSink.InsertChunk: the refusal of NULL key values comes before the loop and is a precondition here.
- MERGE INTO, which shares one touched set among its action sinks, and RETURNING.
- NOT NULL, CHECK and FOREIGN KEY evaluation, in the sinks and at merge-back: direct calls without state.
- Storage, vectors, indexes inside the engine, write-ahead log, transactions, binder and physical plans.
- SQL text building, quoting and casts: queries are modelled by the relation they denote.
- Catalog mirroring, views, DDL rejection, entry caches, read-only checks, locks and write attribution.
- The physical layout of a delta table: the search for an unused _count name, and the upgrade of deltas without a _count column, which read as one copy per row.
- Declared-key validation and the comparison of a branch's declared keys with its parent's.
- The v0.1 migration: its final I-versus-U letter depends on scan order.
- Wall-clock time stamps: creation times are parameters.
