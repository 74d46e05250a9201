# Verified model of the deployments framework's core

This project models four parts of chainlink-deployments-framework that keep state or
transform data, and proves what they are for.

1. **Durable execution** (`operations/`). Operations, sequences and repeated operations run
   against an append-only report log and skip work that an earlier successful report covers.
   `Semantics` says on values what each call does to the log. A handler is a table
   `body(key, replies)` giving its next call from the replies so far, so any deterministic
   terminating handler is covered. The outside world is a function from a clock tick to the
   outcome of the attempt made then. `Transcripts` tells step by step what each call asks,
   records and answers. `ReportGraph`, `SeriesNumbering`, `AtMostOnce`, `Resume` and `History`
   hold the theorems over every program, every environment and every history; `Reporters` and
   `Execute` are the methods over objects, proved to do to the log exactly what `Semantics`
   says.
2. **The idempotency hash** (`operations/hashing.go`). `Json` prints values as the encoder
   does (RFC 8259, sections 2, 4 and 7); `JsonReader` is a reader written from the grammar that
   reads the printed value back; `Canonical` sorts members at every depth; `Hashing` builds the
   key bytes and memoises digests.
3. **The data store with staged deletions** (`datastore/`). `Stores` is one table on values
   and the law its merges refine on pairs of a live map and a staged set, which is associative
   and idempotent, and a monoid on the pairs that are disjoint; `Catalog` is how a table acts
   on a catalog; `Keys` prints and parses keys; `MemoryStores`, `Slices` and `DataStores` are
   the objects and loops. The address, chain and contract stores are three instances of one
   generic store.
4. **Smaller cores.** `BatchOps` (per-chain batches), `KmsSigner` (KMS to EVM signatures),
   `TypesAndVersions` and `AddressBook`, `SemVer`, `StableSorting` and `SortRefs`.

`Prelude` and `Text` hold shared types, string order, splitting and decimal numbers.

## Where the code does less than one might expect

- Merging a book built only by saving can fail although no address is in both books: an EVM
  zero address spelled without its prefix passes the check at
  `deployment/address_book.go:129-131`, is stored in its printed form, and is then refused by
  every merge. `AddressBook.ZeroAddressCannotBeMerged` shows it and
  `AddressBook.AddressBookMap.Merge` has the exact condition.
- A catalog that rejects deleting a missing row (`datastore/api_v2.go:136-138`) can reject a
  merged data store although it accepts the two stores one after the other, and the other way
  round: `Catalog.StrictPushesDiffer`. Exactly when each goes through is
  `Catalog.MergedPushSucceedsIff`, and for whole data stores `DataStores.DataMergedPushSucceedsIff`.
- Address ref keys with an underscore in type or qualifier, and contract keys with one in the
  address, can be staged but never parsed back: `Keys.AddressRefKeyRoundTrip`,
  `Keys.ContractMetadataKeyRoundTrip`. Two address ref keys can then print alike, and
  `Keys.EquallyLongTypesPrintOnce` and `Keys.KeysPrintAlikeIff` say exactly which do; contract
  keys never do: `Keys.ContractMetadataKeyPrintsOnce`.
- Versions equal by precedence are one key to the scans, but print alike, as tombstones, only if
  their build metadata are equal: `Keys.EqualVersionsPrintAlikeIff`.
- Two labels have the grouping key of the one label that joins them by a blank, if they come in
  order: `TypesAndVersions.BlankInLabelClashesIff`. Among labels without blanks only "no label"
  and "the empty label" share a key: `TypesAndVersions.KeysAgreeIff`.
- Sorting is canonical exactly on lists without two records that differ only in labels or build
  metadata (`SortRefs.SortIsCanonicalIff`); such records keep their input order.
- At-most-once success is not for forced executions and series: each adds what it runs
  (`AtMostOnce.RenewalsAddUp`), and a series of two or more always breaks it
  (`AtMostOnce.SeriesSucceedsRepeatedly`). It holds for every key that no call renews so.
- A data store merged into itself keeps records that a copy of it would delete:
  `DataStores.MergeDataWithSelfRefines`.
- Removing a merged address book restores every entry but leaves the chains that came with it,
  without addresses: `AddressBook.MergeThenRemove`.

## Assumptions

Values are serialisable and reporters do not fail. Report ids are fresh (a counter stands for
the uuid). Handlers terminate and do not re-enter their own key: `Semantics.WellFounded` asks
for a rank that falls at every call. Only sequence handlers call the API; an operation's handler
is an attempt of the outside world, so one that uses its bundle to make calls is not modelled.
Resuming (`Resume.PerformResumes` and what follows from it) asks three things more: an
operation's successful output is determined by its key (`Faithful`), a handler whose call
answered with an error returns an error (`PassesErrorsOn`), and no key is both an operation's
and a sequence's (`KindsApart`). Calls run one at a time. SHA-256 is any injective function;
with it `Execute.CanonicalHashesTellApart` gives what the engine needs of hashes, for calls on
canonical input. The version printer and parser, address checksumming, chain families, MCMS
readers, DER decoding and public key recovery are function parameters with the few laws stated
where they are used. Strings are sequences of Unicode code points, whose order is that of their
UTF-8 bytes.

## Model

| member | source | states |
|---|---|---|
| Semantics.Perform | operations/execute.go:163-413 | every call only appends to the log |
| Transcripts.HandlerConverses | operations/execute.go:367-397 | running a handler from one world to another with an answer is exactly having a conversation: each call the handler names is performed in the world the last one left, and the answer is the one it then returns itself, with no assumption on how it treats errors |
| Transcripts.OperationTold | operations/execute.go:163-213 | an operation that is forced or has no success is attempted once, and the answer, error and output alike, is what is recorded and returned |
| Transcripts.SequenceTold | operations/execute.go:367-413 | a sequence without success has its handler's conversation, then one report of the handler's own answer with the ids recorded meanwhile in order, and returns that answer |
| Transcripts.SeriesReportsAreAll | operations/execute.go:480-501 | the reports of a series are all the log's successful reports with its id, definition and input, in log order |
| Transcripts.SeriesLoopTold | operations/execute.go:254-285 | the loop records each attempt as it was answered under the next order, stops at the first failure and returns that error and no results, or else all results |
| Transcripts.OperationNTold | operations/execute.go:220-286 | the outputs returned are those of the first n reports of the series, found ones before new ones |
| AtMostOnce.LatestSuccessIsLast | operations/execute.go:436-460 | the backward scan finds the newest successful report of the key, and nothing exactly when there is none |
| AtMostOnce.CoveredCallIsFree | operations/execute.go:180-187 | a call whose key has succeeded runs no handler, appends nothing, ticks no clock and answers with the newest success's output |
| AtMostOnce.ForcedSuccessIsReused | operations/execute.go:180-213 | a forced execution runs despite earlier successes, and its success is what later operation and sequence calls reuse |
| AtMostOnce.PerformSucceedsOnce | operations/execute.go:163-213 | in every nesting of calls a key that nothing forces or runs as a series gains at most one success, and only if it had none, whatever is done to other keys and whatever fails |
| AtMostOnce.HandlerSucceedsOnce | operations/execute.go:367-406 | the same across the calls of one sequence handler |
| AtMostOnce.PerformLogsBelow | operations/execute.go:367-397 | a call logs only keys of at most its rank, so a handler never logs its own key, and series reports only without idempotency key |
| AtMostOnce.OnceIsAtMostOne | operations/execute.go:436-456 | counting at most one success is the same as no two reports being successes of the key |
| AtMostOnce.RenewalsAddUp | operations/execute.go:180-286 | a forced execution or series that ends without error adds exactly its runs, so its key is left with at most one success exactly when those and the recorded ones are at most one |
| AtMostOnce.SeriesSucceedsRepeatedly | operations/execute.go:254-285 | every series of two or more that ends without error leaves its key with at least that many successes |
| AtMostOnce.PerformBalances | operations/execute.go:189-206 | key by key, handlers started equal successes plus failures recorded, with forced runs, series and nesting |
| AtMostOnce.PerformRunsOnlyMissing | operations/execute.go:180-187 | the handler of a key that nothing renews is started, at any depth, only if it had no success when the call began |
| Resume.PerformResumes | operations/execute.go:163-413 | on any sound log a call keeps it sound, an error-free reply is the failure-free reply, and without further failures that reply is given |
| Resume.HandlerResumes | operations/execute.go:376-397 | the same for a sequence handler in the middle of its calls |
| Resume.ResumeEquivalence | operations/execute.go:144-147 | after any number of interrupted runs on one log, the first error-free answer is that of a single run in which nothing fails, and it comes once failures stop |
| Resume.RerunsRepeatOnlyFailures | operations/execute.go:144-150 | over all reruns together, handler starts equal reports key by key, and a key that nothing renews succeeds at most once and is started again only while it has not succeeded |
| SeriesNumbering.SeriesLoopNumbers | operations/execute.go:254-285 | from k reports a successful loop returns k plus the remaining ones and starts the handler exactly that often; a failure keeps the successes before it |
| SeriesNumbering.ExecuteOperationNNumbers | operations/execute.go:220-286 | with k successes recorded, success means n reports with orders 0..n-1 and max(0, n-k) handler starts; failure means k < n and no reports returned |
| SeriesNumbering.PerformKeepsNumbering | operations/execute.go:463-513 | in every history the successes of each series carry orders 0, 1, 2, ... in log order, once each |
| ReportGraph.PerformKeepsShape | operations/execute.go:367-397 | ids stay distinct, children are exactly the reports logged during the run, all earlier, and runs nest |
| ReportGraph.CollectMultiplicity | operations/report.go:180-226 | collecting lists a report nested under d executed sequences 2^(d-1) times, the sequence itself once, anything else never |
| ReportGraph.CollectChildrenFirst | operations/report.go:210-216 | in the collected list every report comes after all its children |
| ReportGraph.CollectIsRun | operations/report.go:177-226 | as a set, what is collected from a report is its run and itself |
| ReportGraph.SequenceReportSpansCall | operations/execute.go:379-397 | the last report of an executed sequence is its own and its run is the whole call |
| ReportGraph.CollectInLogOrder | operations/report.go:199-218 | without repeats, what is collected from a report is its run and itself in the order of the log |
| ReportGraph.CollectGoesChildByChild | operations/report.go:204-216 | with repeats, it is what is collected from each child in turn, and then the report |
| ReportGraph.SequenceCollectsItsRun | operations/execute.go:399-412 | an executed sequence returns exactly the reports appended during the call, and without repeats in the order they were appended |
| History.EveryHistory | operations/report.go:131-148 | all log invariants and the accounting hold after any list of calls from an empty log |
| History.SucceedsOnceInEveryHistory | operations/execute.go:144-150 | after any list of calls a key that none of them renews has at most one success, and once it has one a call of it changes nothing and gives its output |
| Reporters.MemoryReporter.AddReport | operations/report.go:141-148 | appends one report |
| Reporters.MemoryReporter.GetReport | operations/report.go:164-175 | the first report with the id, or nothing exactly when no report has it |
| Reporters.MemoryReporter.GetExecutionReports | operations/report.go:180-226 | the depth-first list of the report with the id, which without repeats is its run and itself in log order, or failure exactly when the id is not in the log; terminates because children are earlier |
| Reporters.MemoryReporter.GetReportsRecursively | operations/report.go:186-219 | the recursive step appends that list to the reports collected so far |
| Reporters.RecentReporter.constructor | operations/report.go:256-263 | a wrapper starts with no recent reports at the current end of the log |
| Reporters.RecentReporter.AddReport | operations/report.go:231-245 | passes the report on and remembers it, so the recent reports stay the log since the wrapper was made |
| Reporters.Add | operations/report.go:228-245 | through any stack of wrappers one report reaches the one log and every layer |
| Execute.LoadPreviousSuccessfulReport | operations/execute.go:422-460 | comparing memoised hashes from the end finds the newest success of the key |
| Execute.ScanSeries | operations/execute.go:480-501 | keeps the successful reports of the series whose call hashes alike, idempotency key aside |
| Execute.FileByOrder | operations/execute.go:507-512 | every index written is in bounds, every slot is filled, and the result is the scanned list |
| Execute.ExecuteOperation | operations/execute.go:163-213 | reuses the newest success and changes nothing, or records one attempt as it was answered |
| Execute.ExecuteOperationN | operations/execute.go:220-286 | changes the log and answers exactly as the semantics says; n minus the found reports never goes below zero |
| Execute.RunSequence | operations/execute.go:367-397 | runs the handler under a reporter of its own and records the ids it saw as children, as the semantics says |
| Execute.ExecuteSequence | operations/execute.go:341-413 | reuses the newest success or runs as the semantics says, and returns the report with the collected reports of its run; those of a new run are, without repeats, what the call appended, in that order |
| Execute.RunHandler | operations/execute.go:376-376 | the handler has its conversation to the end and its own answer is returned |
| JsonReader.EscapeCharReads | operations/hashing.go:15-25 | a reader written from RFC 8259, section 7, reads the escape of a character as that character |
| JsonReader.EmitReads | operations/hashing.go:15-25 | a reader written from the JSON grammar reads a printed value as that value and leaves what follows; only numbers need a delimiter |
| JsonReader.EmitReadsBack | operations/hashing.go:15-25 | so if two values printed before two remainders give one text, values and remainders are equal |
| Json.EmitIsPrintable | operations/hashing.go:27-34 | printed text holds no control character, and so no NUL |
| Json.EmitAppends | operations/hashing.go:27-27 | printing before a remainder is printing and then appending it |
| Canonical.PutIntoSorted | operations/hashing.go:78-92 | adding a member keeps names sorted and unique, the last of a repeated name winning |
| Canonical.LastOfANameWins | operations/hashing.go:58-66 | of members with one name, wherever they stand, the last is kept |
| Canonical.CanonicalizeGivesCanonical | operations/hashing.go:76-101 | the result is sorted by name at every depth and still prints |
| Canonical.CanonicalizeKeepsMeaning | operations/hashing.go:76-101 | the canonical form is the value up to member order, with names ascending by their first difference at every depth |
| Canonical.CanonicalizeTwice | operations/hashing.go:76-101 | canonicalising twice equals canonicalising once |
| Canonical.CanonicalizeIsExact | operations/hashing.go:76-101 | values with unique names have one canonical form exactly when equal up to member order at every depth |
| Hashing.CanonicalBytesAreExact | operations/hashing.go:56-73 | the same for the canonical bytes |
| Hashing.KeyBytesRead | operations/hashing.go:12-35 | read from the left, the key bytes are the definition's id, version and description, the canonical input, and the idempotency key after a NUL |
| Hashing.KeyIsUnambiguous | operations/hashing.go:12-35 | key bytes are equal exactly when definition, canonical input and idempotency key all are |
| Hashing.HashMatchIsSameCall | operations/hashing.go:37-53 | hashes match exactly when the definitions and idempotency keys are equal and the inputs are equal up to member order |
| Hashing.HashCache.ConstructUniqueHashFrom | operations/hashing.go:37-53 | in every reachable cache state the lookup returns the directly computed hash, and stores it |
| Hashing.CanonicalKeyIsInjective | operations/execute.go:446-449 | on calls with canonical input the report match test is equality of what was called |
| Execute.CanonicalHashesTellApart | operations/execute.go:446-449 | so a cache over canonical calls with a collision-free digest tells all calls apart, as the engine assumes |
| Execute.NewBundle | operations/operation.go:38-53 | a first bundle, with an empty log and an empty memo table, meets all the engine assumes of one |
| SemVer.CompareLaws | datastore/address_ref_key.go:55-60 | precedence is a total order that ignores exactly the build metadata |
| SemVer.CompareIsPrecedence | datastore/sort_address_refs.go:30-41 | comparing is precedence as section 11 of SemVer 2.0.0 words it, clause by clause |
| Text.LessIsAscends | datastore/sort_address_refs.go:16-26 | strings are ordered by their first differing character, a proper prefix first |
| Keys.KeysEqualIsEquality | datastore/address_ref_key.go:55-60 | without build metadata the scans' key equality is equality |
| Keys.EqualVersionsPrintAlikeIff | datastore/address_ref_key.go:55-70 | versions equal by precedence print alike exactly when their build metadata are equal |
| Keys.BuildMetadataSplitsEqualKeys | datastore/address_ref_key.go:55-70 | so one version with two build metadata is one key to the scans and two tombstones |
| Keys.AddressRefKeyRoundTrip | datastore/address_ref_key.go:63-84 | a printed key splits into chain, type, version, qualifier and parses to itself exactly when type and qualifier have no underscore, and otherwise to an error |
| Keys.AddressRefKeyPrintsOnce | datastore/address_ref_key.go:63-70 | a key without underscores prints like no other key |
| Keys.ParsesAsIff | datastore/address_ref_key.go:73-84 | a text parses as a key exactly when it is a number, the type, a version and the qualifier between three separators; and which error the others give |
| Keys.EquallyLongTypesPrintOnce | datastore/address_ref_key.go:63-70 | keys with types of one length print alike exactly when they are equal |
| Keys.KeysPrintAlikeIff | datastore/address_ref_key.go:63-70 | keys with types of different lengths print alike exactly when they share the chain and the longer type takes in the other key's version and perhaps the front of its qualifier |
| Keys.SeparatorsMakeKeysClash | datastore/address_ref_key.go:63-70 | for example a type that ends in the version |
| Keys.ContractMetadataKeyPrintsOnce | datastore/contract_metadata_key.go:44-46 | a contract key prints like no other, underscores or not |
| Keys.ContractMetadataKeyRoundTrip | datastore/contract_metadata_key.go:44-60 | a printed key parses to itself exactly when the address has no underscore, and otherwise to an error |
| Keys.ChainMetadataKeyRoundTrip | datastore/chain_metadata_key.go:36-51 | every printed key parses to itself |
| Text.ParseFormatUint | datastore/chain_metadata_key.go:36-51 | a printed number parses back exactly up to 2^64-1 |
| Text.FormatUintIsShortest | datastore/chain_metadata_key.go:36-38 | a number is printed as the one decimal numeral of it without leading zeros |
| Stores.UpsertRefines | datastore/memory_address_ref_store.go:118-137 | a write maps the key to the record and cancels exactly its tombstone |
| Stores.PutKeepsPlaces | datastore/memory_address_ref_store.go:129-136 | a record that is there is replaced where it stands, a new one goes to the end |
| Stores.DropKeepsPlaces | datastore/memory_address_ref_store.go:169-175 | removing a record closes the gap and moves nothing else |
| Stores.UpsertAllKeepsPlaces | datastore/memory_datastore.go:92-97 | merged records keep the places of those there; new ones follow in the source's order |
| Stores.RemoveFirstRemoves | datastore/utils.go:7-13 | on a duplicate-free list, removing the first occurrence removes the element and nothing else |
| Stores.MergeRefines | datastore/memory_datastore.go:85-115 | merging lists refines the law on maps and sets, fails exactly when a staged key does not parse, and always leaves a valid store |
| Stores.CombineMeans | datastore/memory_datastore.go:65-84 | the merge law key by key: which keys are live, with whose record, and which are staged |
| MemoryStores.StageAllStops | datastore/memory_datastore.go:99-104 | the first staged key that does not parse ends the merge with its error |
| Stores.MergeIsAssociative | datastore/memory_datastore.go:65-115 | for one table both groupings of two merges succeed and agree on live records and staged keys |
| Stores.MergeIsIdempotent | datastore/memory_datastore.go:75-78 | merging a table's source again succeeds and changes neither |
| Stores.EmptyIsUnitIffSettled | datastore/memory_datastore.go:65-84 | an empty source is neutral; an empty destination is neutral exactly where no key is both live and staged, and merging keeps that |
| Stores.MergeWithSelfRefines | datastore/memory_datastore.go:86-115 | a table merged into itself cancels the staged deletions of its live records; a copy does the same exactly when none is staged |
| Slices.DeleteFromSlice | datastore/utils.go:7-13 | shifting in place removes the first occurrence, clears the cell given up and touches nothing beyond the slice |
| MemoryStores.MemoryStore.FindIndex | datastore/memory_address_ref_store.go:84-92 | the scan answers the first position with the key, or -1 |
| MemoryStores.MemoryStore.Get | datastore/memory_address_ref_store.go:43-53 | the live record of the key, or not found exactly when there is none |
| MemoryStores.MemoryStore.Fetch | datastore/memory_address_ref_store.go:56-66 | all records in order |
| MemoryStores.MemoryStore.Add | datastore/memory_address_ref_store.go:96-114 | existing key before missing version; otherwise appends, adds to the map and cancels the tombstone |
| MemoryStores.MemoryStore.UpsertRecord | datastore/memory_address_ref_store.go:118-137 | missing version refused; otherwise inserts or replaces in place and cancels the tombstone |
| MemoryStores.MemoryStore.Update | datastore/memory_address_ref_store.go:142-161 | missing key before missing version; otherwise replaces in place and cancels the tombstone |
| MemoryStores.MemoryStore.Delete | datastore/memory_address_ref_store.go:165-176 | removes exactly the key's record, leaves tombstones, not found exactly when absent |
| MemoryStores.MemoryStore.RemoteDeleteKey | datastore/memory_address_ref_store.go:182-193 | stages the printed key once and leaves the records |
| MemoryStores.MemoryStore.CancelDelete | datastore/memory_address_ref_store.go:127-127 | removes the first occurrence of a printed key from the tombstones by shifting in place |
| MemoryStores.MemoryStore.MergeFrom | datastore/memory_datastore.go:86-115 | the loops over fetched records and staged keys compute the merge, with another store or with itself, tolerating records that are not there |
| MemoryStores.AddressRefsLawful | datastore/memory_address_ref_store.go:25-29 | the address store is an instance of the generic store |
| MemoryStores.ContractMetadataTableLawful | datastore/memory_contract_metadata_store.go:22-26 | the contract store is an instance |
| MemoryStores.ChainMetadataTableLawful | datastore/memory_chain_metadata_store.go:22-26 | the chain store is an instance, and its staged keys always parse |
| DataStores.DataStore.Merge | datastore/memory_datastore.go:85-193 | table by table in order, stopping where a staged key does not parse; on success the environment record becomes the source's if it has one and otherwise stays, on failure it stays; the source may be the data store itself |
| DataStores.MergeDataSucceedsIff | datastore/memory_datastore.go:97-109 | a merge fails exactly when a staged key of the source does not parse, and leaves a valid store either way |
| DataStores.MergeDataStopsInOrder | datastore/memory_datastore.go:85-170 | tables are merged in order; the first that fails gives the error and keeps what it got, and those after it are untouched |
| DataStores.MergeDataRefines | datastore/memory_datastore.go:65-193 | a merge that succeeds gives live records (destination overridden by source) less the source's staged keys, staged keys (destination less source's live keys) and the source's, and the source's environment if set |
| DataStores.DataMergeIsAssociative | datastore/memory_datastore.go:65-193 | merging whole data stores is associative in all three tables and the environment, and both groupings succeed |
| DataStores.DataMergeIsIdempotent | datastore/memory_datastore.go:75-78 | merging the same data store again succeeds and changes nothing |
| DataStores.MergeDataWithSelfRefines | datastore/memory_datastore.go:85-193 | a data store merged into itself keeps its live records and environment, and equals merging a copy exactly when no key is both live and staged |
| DataStores.SeparatorFreeStagingParses | datastore/memory_datastore.go:97-170 | staged keys without underscores always parse, so such a merge never fails |
| DataStores.DataPushAfterMerge | datastore/catalog_syncer.go:18-111 | pushing the merge of two stores equals pushing one and then the other, environment included, whenever every step succeeds |
| DataStores.DataMergedPushSucceedsIff | datastore/catalog_syncer.go:18-111 | if the first store can be pushed, the merge can exactly when the catalog accepts the second's deletes on the rows it had |
| DataStores.LoadThenPushData | datastore/catalog_loader.go:12-84 | pushing back a loaded catalog leaves every table and the environment unchanged |
| DataStores.DataPushThenLoad | datastore/catalog_loader.go:12-84 | pushing to an empty catalog and loading gives the live records less the staged keys, nothing staged, and the environment |
| DataStores.CatalogTable.Delete | datastore/api_v2.go:136-138 | a strict catalog deletes a row exactly if it is there, a lenient one ignores a missing row, and one without deletes refuses; a refusal changes nothing |
| DataStores.CatalogTable.PushFrom | datastore/catalog_syncer.go:21-42 | upserts then deletes row by row, up to the first failure |
| DataStores.PushDataRefines | datastore/catalog_syncer.go:18-111 | a push succeeds exactly when each table's deletes do, then acts on each table by the law and sets the environment record if the store has one; otherwise the error is that of the first table that fails |
| DataStores.CatalogStore.MergeDataStoreToCatalog | datastore/catalog_syncer.go:18-111 | all of a data store reaches the catalog, its environment record over the catalog's if it has one, or the catalog is as before |
| DataStores.LoadDataStoreFromCatalog | datastore/catalog_loader.go:12-84 | loading never fails, stages nothing and holds exactly the catalog's rows and environment |
| Catalog.PushRefines | datastore/catalog_syncer.go:21-42 | the exact condition under which a table's push succeeds, and that it then acts as the law says |
| Catalog.ActMeans | datastore/catalog_syncer.go:21-42 | the action on a table key by key |
| Catalog.DeleteRowsFailsAt | datastore/catalog_syncer.go:32-42 | a failing push fails at the first staged key that does not parse or may not be deleted, and with that error |
| Catalog.PushAfterMerge | datastore/catalog_syncer.go:21-42 | push after merge equals pushing in turn, for one table, even with a key both live and staged |
| Catalog.LenientStepsSucceedTogether | datastore/catalog_syncer.go:28-42 | if deleting a missing row is ignored, both ways succeed or fail together |
| Catalog.MergedPushSucceedsIff | datastore/catalog_syncer.go:21-42 | for one table, after a first push: exactly when the merged push goes through, and exactly when the second of the two pushes does |
| Catalog.StrictPushesDiffer | datastore/catalog_syncer.go:38-41 | which keys stop only the merged push and which stop only the second push |
| Catalog.StrictPushAfterMergeCanFail | datastore/catalog_syncer.go:38-41 | for example a record the first table adds and the second stages for deletion, on an empty catalog |
| Catalog.LoadSucceedsIff | datastore/catalog_loader.go:26-31 | rows load exactly when their keys are distinct and complete, and are kept as they are |
| Catalog.LoadThenPush | datastore/catalog_loader.go:26-31 | loading a table and pushing it back changes nothing under any delete policy |
| Catalog.PushThenLoad | datastore/catalog_loader.go:26-31 | pushing a table to an empty catalog and loading gives its live records less its staged keys |
| BatchOps.FilterNonEmptyBatchOps | deployment/output_builder.go:155-164 | keeps the non-empty operations in order |
| BatchOps.FilteredInOrder | deployment/output_builder.go:155-164 | filtering a joined list is filtering its parts in turn |
| BatchOps.TransactionsInOrder | deployment/output_builder.go:166-188 | a chain's transactions in a joined list are those of its parts in turn |
| BatchOps.MergeBatchOpsPerChain | deployment/output_builder.go:166-188 | one operation per chain with transactions, by first appearance, holding all of them |
| BatchOps.ChainsInOrderOfAppearance | deployment/output_builder.go:173-175 | the chains come in the order in which they first appear |
| BatchOps.MergingConserves | deployment/output_builder.go:166-188 | every chain keeps its concatenated transactions, in exactly one non-empty operation |
| BatchOps.MergingIsIdempotent | deployment/output_builder.go:155-188 | merging twice is merging once, and filtering before or after makes no difference |
| BatchOps.ResolveMCMSPerChain | deployment/output_builder.go:190-228 | resolves each chain once in order of appearance, up to the first failure |
| BatchOps.ResolvedChains | deployment/output_builder.go:194-227 | resolving succeeds exactly when every chain has a known family, a reader, a timelock and metadata, and both maps then have exactly the chains as keys, each with its own timelock and metadata |
| BatchOps.FirstLackIsReported | deployment/output_builder.go:194-227 | otherwise the error is that of the first chain that lacks one of them |
| BatchOps.ResolveSameMergedOrFiltered | deployment/output_builder.go:142-153 | merged and filtered batches resolve to the same maps or fail alike, with exactly the chains that have transactions |
| KmsSigner.PadTo32Bytes | chain/evm/provider/kms_signer.go:255-264 | trimming and padding keep the big-endian value; 32 bytes exactly when it fits |
| KmsSigner.RecoverEVMSignature | chain/evm/provider/kms_signer.go:225-251 | on the padded r and s: id 0 if it recovers the key, else id 1 if that does, and which failure otherwise |
| KmsSigner.KmsToEVMSig | chain/evm/provider/kms_signer.go:199-219 | for r and s in range the answer case by case on the 64 bytes of r and of s or its negation, at most half the order: with id 0 if that recovers the key, with id 1 if id 0 recovers another and id 1 the key, and otherwise which error; every success is 65 bytes under which the key is recovered |
| KmsSigner.LowBytesAreUnique | chain/evm/provider/kms_signer.go:208-231 | those 64 bytes are determined by r and s |
| KmsSigner.NegatedSMakesNoDifference | chain/evm/provider/kms_signer.go:208-216 | s and its negation lead to the same bytes |
| StableSorting.StableSortIsStable | datastore/sort_address_refs.go:12-27 | in lists of any length the elements tied with any given one keep the order they came in |
| StableSorting.SortIsCanonical | datastore/sort_address_refs.go:12-27 | where nothing ties, all permutations sort to one list |
| StableSorting.SortsToOneListIff | datastore/sort_address_refs.go:12-27 | all permutations sort to one list exactly when nothing ties |
| SortRefs.BeforeIsStrictOrder | datastore/sort_address_refs.go:12-41 | the comparator is a strict order that ties exactly records agreeing on chain, type, version by precedence, address and qualifier |
| SortRefs.SortAddressRefs | datastore/sort_address_refs.go:11-28 | the slice becomes, in place, a permutation in which chains ascend, then types, versions with nil first and by precedence, addresses and qualifiers, and tied records keep their order |
| SortRefs.BeforeIsAscending | datastore/sort_address_refs.go:12-41 | the comparator is that order |
| SortRefs.SortIsCanonicalIff | datastore/sort_address_refs.go:9-28 | every order of the same records sorts to one list exactly when no two differ only in labels or build metadata |
| SortRefs.SortIsCanonicalOnDifferentKeys | datastore/sort_address_refs.go:9-28 | records with pairwise different keys end in one order whatever order they came in |
| SortRefs.RecordsDifferingInLabelsKeepTheirOrder | datastore/sort_address_refs.go:12-27 | in every list the records alike but for labels and build metadata keep their input order |
| TypesAndVersions.NewLabelSet | deployment/address_book_labels.go:12-19 | the set of the labels given |
| TypesAndVersions.List | deployment/address_book_labels.go:50-65 | the labels, each once, ascending by their first difference, whatever order the map yields them in |
| TypesAndVersions.ListedIsOnly | deployment/address_book_labels.go:50-65 | a sorted list of the labels is unique |
| TypesAndVersions.FieldsOfJoin | deployment/address_book.go:74-74 | words joined by blanks split into the same words |
| TypesAndVersions.PrintIsJoined | deployment/address_book.go:34-48 | type, version and the labels in order, with one blank between |
| TypesAndVersions.PrintedParsesBack | deployment/address_book.go:34-92 | the printed text has these words in this order and parses back to an equal value when type and labels are words |
| TypesAndVersions.KeysAgreeIff | deployment/address_book.go:310-317 | with blank-free labels, grouping keys agree exactly on type, printed version and label set, save that no label and the empty label agree |
| TypesAndVersions.BlankInLabelClashesIff | deployment/address_book.go:310-317 | two blank-free labels have the key of the one label joining them by a blank exactly when they come in order |
| TypesAndVersions.ToTypeAndVersionMap | deployment/address_book.go:344-351 | each key that has holders gets a group listing exactly them, each once |
| TypesAndVersions.EnsureDeduped | deployment/address_book.go:322-341 | fails exactly when a bundle entry's key has two addresses, naming the first such key, else true exactly when each has one |
| AddressBook.AddressBookMap.Save | deployment/address_book.go:123-156 | which error each refused entry gets; an EVM entry with any hex address but the printed zero is stored under its checksummed form, any other under its own, and nothing else changes |
| AddressBook.AddressBookMap.Merge | deployment/address_book.go:198-216 | succeeds exactly when the books share no normalised pair and the other holds no zero address; the result is the union in any map order, with the chains the other has addresses on |
| AddressBook.AddressBookMap.Remove | deployment/address_book.go:220-246 | removes exactly the other book's entries, or, if one is missing, changes nothing |
| AddressBook.MergeThenRemove | deployment/address_book.go:198-246 | removing a book just merged restores every original entry and keeps the chains that came with the merge |
| AddressBook.ZeroAddressCannotBeMerged | deployment/address_book.go:128-136 | a zero address in another spelling is saved and then keeps its book from being merged |

## Left out

- Execute.ExecuteOperation: retries, values that cannot be serialised and reporter errors, whose early returns log nothing, are not modelled.
- Execute.ExecuteOperationN: the same three.
- Execute.RunSequence: the early return of a handler that answers with the not-serialisable error, and reporter errors.
- Execute.ExecuteSequence: values that cannot be serialised, and reporter errors.
- Retrying: the outcome of an attempt stands for all tries of the retry library, whose code is not part of this model; the changed input of a retry hook is not seen by the log either.
- Errors of serialisation, of the reporter and of the hash: values are taken to be serialisable.
- What a handler can see of a report besides output and error: its id and time.
- Time stamps, logging, locks and concurrent calls.
- Reports loaded from disk: the lemmas hold for any log with the stated shape, whoever wrote it.
- `canonicalize` overwriting array slots of its argument: arrays are rebuilt as values.
- Invalid UTF-8 and numbers before they are JSON literals.
- Sharing of backing arrays between slices: the store methods reassign sequences, and the bytes a signature shares with its input are copied.
- Merging from sealed or foreign stores, and between data stores that share only some tables.
- Versions with build metadata as keys of a data store, beyond the lemmas on what goes wrong.
- Catalog failures other than rejected deletes, and what a catalog does inside its transaction.
- Filters, queries, label sets of address refs, metadata cloning, the write-metadata helper.
- The library's own stable sort: an insertion sort in place stands for it.
- Building proposals, reader registration and input validation around resolving.
- `SearchAddressBook`, `AddressBookContains` and reading copies of the address book.
- Chain providers, RPC and KMS clients, mocks, the analyzer, the runners and JIRA.
