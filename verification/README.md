# Verified model of the feed pipeline

The repository turns product feeds into a published shopping feed: it ingests a feed, maps its
fields to registry attributes, stages the difference to what it already knows, sends new and changed
products through plugins, and exports a numbered version of the result. This project models the
parts of it that keep state or promise that two forms agree, and proves what they promise. Code that
changes things in place is a class or a loop here too, proved against a function or a relation; the
promises themselves are lemmas about those.

| modules | what they model |
|---|---|
| `Hashing`, `DerivedKeys`, `Ordering`, `Delta`, `Persistence`, `StagingTable`, `StagingProofs`, `StagingMeaning`, `Steps`, `ChainTraces` | content hashes, classification of a feed, the staging table, the plugin step and what its chains do to a product |
| `IncrementalRuns`, `DeltaFacts`, `StaleRuns` | whole runs and histories: skipping is invisible, conservation, and what a failed plugin call costs |
| `ExportShelf`, `ExportProtocol`, `ExportSchedules`, `ExportService` | version rows, version files and the published file; interleaved steps and their schedules; the service with its failure points |
| `PluginStore`, `Enrichment` | expected versions and the retrying client; accepting, discarding and unpinning |
| `Splitting`, `IndexedPath`, `AttributeKinds`, `Slots`, `Mapping`, `MappingLaws`, `MappingOutcome`, `Mapper` | the mapping engine and what it leaves under every attribute |
| `FieldMapping`, `EntryErrors`, `KindFit`, `Matcher`, `MatcherGreedy` | the validator of mappings and the matcher |
| `FeedXml`, `RenderMeaning`, `RoundTrip`, `Rerender`, `Shrinking`, `FeedDocument`, `LineEnds`, `FeedLines`, `FeedText`, `FeedCodec` | writing a feed, reading it, writing it again, and what that makes of a rollback |
| `Prettify`, `PrettyMeaning` | laying out markup for display |
| `FlatNotation`, `FlatRows`, `FlatMeaning` | flat tables: header plans and rows |
| `ConfigMerge`, `ConfigPaths` | configuration merged over scopes |
| `LabelTemplates`, `TemplateMeaning`, `CustomLabels`, `LabelMeaning` | custom labels: templates, slot rules, runs and previews |
| `PathValues`, `RuleConditions`, `RuleActions`, `ActionMeaning`, `RulePlugin` | transformation rules |
| `Reposition`, `RateLimiter`, `Cascade`, `CascadeRows`, `Wrappers` | saving a pipeline, the client log limit, deletions under foreign keys, the option type |

A module named after another with `Meaning`, `Laws`, `Outcome`, `Traces`, `Rows` or the like says what the
functions of that other module mean without calling them: by the texts, values, rows or traces themselves.

## What does not hold, and exactly when it does

- A plugin error leaves no outcome although the new hashes are already stored, so the product is not
  tried again; keys that start with an underscore take no part in hashes, so a change in one goes
  unnoticed. `StaleRuns.HistoryMatchesAloneIff` says, for every history, exactly when a feed is still
  exported as its last run alone would export it; `StaleRuns.StaleAfterOneFailure` and
  `StaleRuns.StaleDerivedKey` are histories after which it is not.
- The file of an aborted version is removed after the transaction, and with it the lock, has ended.
  `ExportProtocol.CleanupKeepsInvIff` says when that is harmless; `ExportProtocol.LateCleanupLosesFile`
  is an interleaving that loses the file of another version.
- After a failed publish, exports of the same content are deduplicated and never repair the published
  file (`ExportService.IdenticalExportsStayStale`). Two interleaved exports can publish in the wrong
  order (`ExportProtocol.PublishesOutOfOrder`); `ExportProtocol.PublishedIsCurrentIff` says of a run,
  and `ExportSchedules.AlwaysCurrentIff` of a schedule with any contents, when the published file ends
  up right.
- The retry helper writes without a version when its cache is empty, and so does an enrichment scan
  that found no row. `PluginStore.NoLostUpdatesIff` and `PluginStore.ScanReplacesWhatItReadIff` give
  the exact conditions, `PluginStore.BlindWriteLosesUpdate` an interleaving that loses an update.
- A repeated attribute with one item is read back as a bare value. `Rerender.AgainIff` and
  `FeedText.RollbackKeepsHashIff` say exactly which products make a rollback reproduce its source. A
  carriage return in a text is read as a line feed, so a rollback of its version changes the hash too.
- A product with a null id, or an id with spaces around it, can change its place when a feed is read
  and rendered again (`FeedDocument.IdSurvivesIff`, `FeedDocument.NullIdWitness`).
- A bare `attr.N` loses the sub-field of `attr.N.sub` for the same slot, and one with a greater index
  can lose it for a slot that it fills up (`Slots.MixedShapesLoseTheSubField`,
  `Slots.FillerLosesTheSubField`). `Slots.LandsIff`, `Slots.LandInEveryOrderIff` and
  `Slots.OrderDoesNotMatterIff` give the exact conditions.
- Saving a pipeline whose payload repeats a row id leaves a gap in the positions, and a later save can
  collide (`Reposition.SavedIsTidyIff`, `Reposition.RepeatedIdBreaksNextSave`), exactly from the starts
  that `Reposition.MoveAsideIsSafeIff` names.
- A validated rule condition raises on an integer too large for a float, exactly as
  `RuleConditions.AcceptedEvaluatesIff` says (`RuleConditions.LargeIntegerRaises` is one); a value that
  a rule sets under `attr.sub` is written under that literal key and not read back by conditions
  (`RuleActions.SetIsReadIff`).
- Keyed merging is associative around a list exactly when that list, in the middle, repeats no key
  (`ConfigMerge.UnionIsAssociativeIff`). It raises on a null key next to a missing one, and on a list or
  a dictionary as a key.
- The docstring of the flat cell splitter cites RFC 4180, but doubled quotes are dropped, not decoded
  (`FlatRows.ListRoundTripIff`).
- The schema would let a row of one feed restrict the deletion of another (`Cascade.ForeignVersionRestricts`);
  `Cascade.AllDeletableIff` is the exact condition under which no deletion is ever refused.

## Model

| member | source | states |
|---|---|---|
| `Hashing.StripYieldsPlain` | backend/app/staging/hashing.py:8-17 | Stripping leaves no key that starts with an underscore at any depth |
| `Hashing.PlainIffFixedByStrip` | backend/app/staging/hashing.py:8-17 | A value is its own canonical form exactly when it carries no underscore key |
| `Hashing.HashIdentifiesPlainValues` | backend/app/staging/hashing.py:20-30 | Two values without underscore keys have the same content hash exactly when they are equal |
| `DerivedKeys.StrippedAt` | backend/app/staging/hashing.py:8-17 | Following keys and list positions, stripping leaves what was there unless a key on the way starts with an underscore |
| `Delta.Classify` | backend/app/staging/delta.py:59-114 | The loop over the products yields, for the first usable product of each id, exactly the upserts, touches, reactivations, queue entries and counters its verdict against the stored row asks for, in feed order, counts every repeated or unusable product as failed, and lists exactly the active stored rows whose id did not come |
| `Delta.FirstByIdCarriesItsId` | backend/app/staging/delta.py:50-56 | The product kept for an id carries that id |
| `Delta.FirstByIdIff` | backend/app/staging/delta.py:50-56 | The product kept for an id is the first that carries it, and none is kept exactly when none carries it |
| `DeltaFacts.EveryProductCountedOnce` | backend/app/staging/delta.py:64-114 | Every input product is counted in exactly one of new, changed, unchanged, reactivated and failed, and is queued unless unchanged or failed |
| `DeltaFacts.EveryRowInOneList` | backend/app/staging/delta.py:64-114 | Every stored row of the feed is in exactly one action list, unless it was removed before and stays away; rows of other feeds are in none |
| `DeltaFacts.SecondStagingOnlyTouches` | backend/app/staging/persistence.py:62-159 | After a delta is applied, the same feed under the same configuration gives touches and failures only |
| `StagingTable.Table.ApplyStagingDelta` | backend/app/staging/persistence.py:50-159 | For any chunk size the chunked inserts, updates, reactivations and removals leave the table as writing them all at once would, return the row id of every queued product, and append one history entry per queued product that is new or changed |
| `StagingTable.Table.ApplyPluginOutcomes` | backend/app/staging/persistence.py:162-192 | The outcomes are recorded one after another whatever the chunk size, and only in rows of the feed with the row id an outcome names |
| `StagingTable.Table.LoadStoredRows` | backend/app/staging/persistence.py:23-43 | Every row of the feed is found under its product id, no row is lost to another and no other row is there, and their row ids are distinct |
| `StagingTable.Table.PurgeExpired` | backend/app/staging/purge.py:51-82 | Exactly the rows removed before the cutoff go, with exactly their history and the history recorded before its own cutoff, and both counts are the numbers that went |
| `StagingProofs.AppliedIsStaged` | backend/app/staging/persistence.py:62-159 | Applying a classified delta makes every row what the feed says: new, updated, reactivated, touched or removed, with row ids kept and new ones unused |
| `StagingProofs.AppliedPksAt` | backend/app/staging/persistence.py:62-159 | Every product handed to the plugins comes with the row id of its own row |
| `StagingMeaning.StagedRows` | backend/app/staging/persistence.py:62-159 | Field by field: rows of other feeds stay; the row of a product of the feed is active under both hashes, with the first product of its id unless it was up to date, and with its row id and outcome kept; an active row the feed no longer has is removed now and otherwise as it was |
| `StagingMeaning.HistoryIff` | backend/app/staging/persistence.py:50-159 | A history entry is written for exactly the products that are new or differ in content from what is stored, with the product itself under the id of its row |
| `StagingMeaning.OutcomesLeft` | backend/app/staging/persistence.py:162-192 | The last outcome under the id of a row of the feed decides what the row shows, and only that; rows without one stay |
| `Steps.ConfigHashFixesChain` | backend/app/pipeline/steps.py:159-199 | Configurations without underscore keys that hash alike are the same: plugin chain, pipeline and rule settings |
| `Steps.PrepareRun` | backend/app/pipeline/steps.py:233-261 | The loop over the instances collects the state each plugin prepares for the run, under the position of the instance, or stops at the first preparation that raises |
| `Steps.RunChain` | backend/app/pipeline/steps.py:265-318 | The loop over the instances stops at the first drop or error and otherwise passes each result on to the next instance, each plugin with the state it prepared |
| `Steps.StagingStep` | backend/app/pipeline/steps.py:159-199 | The step classifies the products it is given against the stored rows, writes the delta, and leaves the queue and its row ids in the state of the run |
| `Steps.PluginStep` | backend/app/pipeline/steps.py:223-349 | Unless a preparation raises, which leaves everything as it was: the three counts are the numbers of chains that survive, drop and fail, the table gets the outcomes of all chains that did not fail, every drop is logged with the plugin that dropped it, and the survivors are passed on |
| `ChainTraces.PreparedIff` | backend/app/pipeline/steps.py:233-261 | The state under a position is what the last instance there that prepares one got from its configuration and data, and there are none exactly when some preparation raises |
| `ChainTraces.ChainIff` | backend/app/pipeline/steps.py:265-318 | A product comes out as q, is dropped by a plugin or fails exactly when there is a trace of products from the queued one, each registered instance returning the next one for the one before, that ends with q, or at the first instance that drops or raises |
| `ChainTraces.StepOneMore` | backend/app/pipeline/steps.py:223-349 | One more queued product adds what its trace ends with: itself as it came out and its outcome, its drop with the plugin, or a failure and nothing else |
| `ChainTraces.RunRowIsTraced` | backend/app/pipeline/steps.py:153-349 | The row of a queued product after a run shows the product its trace ends with, is excluded where the trace ends with a drop, and keeps its earlier outcome where it ends with an error |
| `ChainTraces.UnpreparedRunKeepsOutcomes` | backend/app/pipeline/steps.py:233-261 | When a preparation raises every row keeps the outcome it had |
| `IncrementalRuns.Run` | backend/app/pipeline/steps.py:153-349 | One whole run over the table is staging followed by the chain result of exactly the queued products |
| `IncrementalRuns.RunAtKey` | backend/app/pipeline/steps.py:153-349 | What a run leaves under any key, from the row that was there: rows of other feeds untouched, skipped rows kept, processed rows with the result of their chain |
| `IncrementalRuns.RunKeepsSound` | backend/app/pipeline/steps.py:153-349 | Every row keeps answering for each product and configuration with its two hashes, through any run without plugin errors |
| `IncrementalRuns.ExportAfterRun` | backend/app/staging/persistence.py:195-215 | After a run without plugin errors the export-bound products are the whole feed reprocessed, however much was skipped |
| `IncrementalRuns.RunLeavesOtherExports` | backend/app/staging/persistence.py:195-215 | A run leaves the export of every other feed as it was |
| `IncrementalRuns.SkippingIsInvisible` | backend/app/staging/persistence.py:50-215 | After any sequence of runs of any feeds under any configurations, with purges in between and no plugin error, the ordered export of a feed equals what its last run alone over an empty table gives |
| `StaleRuns.RunMatchesAloneIff` | backend/app/pipeline/steps.py:153-349 | From any table, with plugin errors, errors in earlier runs and underscore keys allowed, a run exports what it would alone exactly when every row it finds goes on to show that: skipped rows show it already, and failing products find no other data |
| `StaleRuns.SoundRunMatchesAloneIff` | backend/app/pipeline/steps.py:308-318 | From a table whose rows answer for their hashes it does exactly when each failed product had no row, or a row that was not excluded and showed raw data or this same product |
| `StaleRuns.RowsAreReplayed` | backend/app/staging/persistence.py:50-215 | After any history the row of every key, but for its id, is what replaying the events for that key alone gives |
| `StaleRuns.HistoryMatchesAloneIff` | backend/app/pipeline/steps.py:153-349 | After any history of runs and purges, with plugin calls that fail in one run and return in another and with underscore keys, the export of a feed equals that of its last run alone exactly under the condition on the rows replayed from the events before |
| `StaleRuns.SameInputIsNotRetried` | backend/app/staging/persistence.py:80-110 | Whatever a chain did, even fail, the same product under the same configuration is not processed again |
| `StaleRuns.StaleAfterOneFailure` | backend/app/pipeline/steps.py:308-318 | A concrete history in which one failed plugin call keeps an old price exported although the next run succeeds |
| `StaleRuns.StaleDerivedKey` | backend/app/staging/hashing.py:8-17 | A concrete history in which a change under an underscore key is not exported |
| `ExportShelf.StaleExactly` | backend/app/export/service.py:453-473 | With a retention of at least 1 a version is selected for pruning exactly when at least that many stored versions have a higher number; with a lower one, all but the newest are |
| `ExportShelf.PruneKeepsHighest` | backend/app/export/service.py:453-473 | After a prune the highest versions are left, unchanged: as many as the retention says, or all if there are fewer, and with a retention below 1 the newest alone |
| `ExportProtocol.StepKeepsInv` | backend/app/export/service.py:98-167 | Every step of any interleaving keeps rows, files, locks and issued numbers consistent, and issued numbers only grow |
| `ExportProtocol.CommittedVersionsAreSafe` | backend/app/export/service.py:98-157 | In every reachable state of interleaved exports, rollbacks, aborts and prunes each version row has its file with its hash, numbers strictly increase, and none is used twice |
| `ExportProtocol.AtomicAbortsCleanInTime` | backend/app/export/service.py:155-158 | When an abort and its file removal are one step, no further condition is needed for that |
| `ExportProtocol.CleanupKeepsInvIff` | backend/app/export/service.py:155-158 | When the file of an aborted version is removed after its transaction ended, nothing is lost exactly when nobody has been given its number since |
| `ExportProtocol.LateCleanupLosesFile` | backend/app/export/service.py:155-158 | An interleaving in which that removal deletes the file of another committed version |
| `ExportProtocol.StepKeepsNewest` | backend/app/export/service.py:98-173 | Only a commit changes which version is the newest: no prune, abort or cleanup of any operation reaches it |
| `ExportProtocol.PublishedIsCurrentIff` | backend/app/export/service.py:131-173 | Over every run of interleaved operations the published file ends up as the content of the highest version exactly when the last publish that wrote wrote what was committed last |
| `ExportProtocol.InOrderEndsCurrent` | backend/app/export/service.py:131-173 | Every interleaving that publishes each version before it commits the next ends with a current file once nothing is left to publish, deduplicated exports included |
| `ExportSchedules.AlwaysCurrentIff` | backend/app/export/service.py:131-173 | A schedule of interleaved operations ends with a current file, whatever its exports and rollbacks contain, exactly when the last publish that wrote was for the number of the newest version |
| `ExportProtocol.PublishesOutOfOrder` | backend/app/export/service.py:160-167 | An interleaving of two exports that leaves the older content published |
| `ExportService.Service.ExportForRun` | backend/app/export/service.py:71-173 | The whole new state and outcome of an export for every combination of failing write, commit, publish, prune, removal and marking, including deduplication and the status of the run |
| `ExportService.Service.Rollback` | backend/app/export/service.py:335-421 | The whole new state and outcome of a rollback: a new highest version with the re-rendered content of the named one and a run of its own, failed if the publish fails, or nothing when that version, its file, its rendering or the transaction fails |
| `ExportService.Service.PruneRetention` | backend/app/export/service.py:453-473 | Rows of stale versions are deleted and then their files up to a failing one, which leaves the newest versions up to the retention; nothing happens if the rows cannot be deleted |
| `ExportService.PruneLeavesNewest` | backend/app/export/service.py:453-473 | Row by row and file by file what a prune leaves: the newest rows up to the retention, and after a failing removal also the files of the stale versions that come later in descending order |
| `ExportService.ExportIsCurrentIff` | backend/app/export/service.py:131-167 | Exactly when an export leaves the published file equal to the highest version, for every fault, deduplicated or not |
| `ExportService.RollbackIsCurrentIff` | backend/app/export/service.py:335-421 | Exactly when a rollback does, for every fault and whether or not its source can be read and rendered |
| `ExportService.PublishedIsHighest` | backend/app/export/service.py:131-167 | After any sequence of exports and rollbacks whose publishes succeed, whatever else fails, the published file is the content of the highest version |
| `ExportService.IdenticalExportsStayStale` | backend/app/export/service.py:160-167 | After a failed publish any number of faultless exports of the same content leave the old file published |
| `ExportService.VersionEffectIsARun` | backend/app/export/service.py:98-173 | Writing, committing, publishing and pruning one version, with any fault, is one uninterrupted behaviour of the step protocol |
| `ExportService.ExportEffectIsARun` | backend/app/export/service.py:98-173 | So is a whole export, deduplicated or not |
| `PluginStore.PayloadTable.GetPayload` | backend/app/routes/plugins.py:253-279 | The stored payload with its version, or an empty object and no version |
| `PluginStore.PayloadTable.ExpectedVersionConflict` | backend/app/routes/plugins.py:282-310 | A conflict or a rejection exactly when the expected version is not the current one, reporting the current one |
| `PluginStore.PayloadTable.PutPayload` | backend/app/routes/plugins.py:325-398 | An accepted write replaces the row under a version never used before; a rejected one changes nothing |
| `PluginStore.PayloadIsReplay` | frontend/src/api/hooks.ts:510-543 | In every interleaving of clients that read, rebuild and put, with one retry, the stored payload is what replaying the successful writes in commit order gives, a write without a read starting over |
| `PluginStore.NoLostUpdatesIff` | frontend/src/api/hooks.ts:510-543 | A schedule of such clients stores the builds of the successful writers applied one after another, whatever they build, exactly when no client that has read nothing writes after another write |
| `PluginStore.BlindWriteForgets` | frontend/src/api/hooks.ts:518-520 | After a write by a client that had read nothing the stored payload depends on no earlier build, however many writes follow |
| `PluginStore.BlindWriteLosesUpdate` | frontend/src/api/hooks.ts:518-520 | An interleaving in which that loses an update |
| `PluginStore.UndisturbedRetrySucceeds` | frontend/src/api/hooks.ts:527-541 | A retry without a write in between commits the build of the fresh payload |
| `PluginStore.StaleCallRetries` | frontend/src/api/hooks.ts:510-543 | A first write on what had been read is committed if that is still the current version; otherwise nothing is written, and an undisturbed retry commits the build of what is stored by then |
| `PluginStore.SecondConflictEndsCall` | frontend/src/api/hooks.ts:538-543 | A conflict on the retry ends the call with nothing written |
| `PluginStore.MutationActsOnNamedVersion` | plugins/core/enrichment/plugin.py:203-228 | An accept, discard or unpin that is let through acted on the data of the version it named exactly when that version had been issued by the time of the read |
| `PluginStore.ScanReplacesWhatItReadIff` | plugins/core/enrichment/plugin.py:65-165 | Whatever other clients do in between, a scan that is let through replaces what it read exactly when no write was accepted since its read; one that read a row is let through in no other case |
| `Enrichment.EnrichmentData.ApplyItems` | plugins/core/enrichment/plugin.py:172-201 | Each named field is accepted, discarded or unpinned as if it were the only one, whatever the order and repetition of items; everything else stays, and no empty entry is left |
| `Enrichment.AcceptOverwritesIff` | plugins/core/enrichment/plugin.py:172-201 | An accepted suggestion is pinned with its value and no longer suggested, everything else stays, and a pinned value is lost exactly when another one is accepted over it |
| `IndexedPath.ParsePrint` | backend/app/mapping/indexed_path.py:28-63 | Printing a well-formed path gives a text that parses back to it |
| `IndexedPath.ParsedIsWellFormed` | backend/app/mapping/indexed_path.py:28-63 | Only well-formed paths come out of the parser |
| `IndexedPath.ParseIff` | backend/app/mapping/indexed_path.py:28-63 | A text parses to a path exactly when it spells it, with or without leading zeros in the index, and the path is well formed |
| `IndexedPath.LoosePathIff` | plugins/core/custom_labels/plugin.py:39-58 | The reader in the plugins accepts exactly the texts that spell a path with a name and, where there is an index, one of at least 1 and no empty sub-field |
| `Slots.SetAllSetsSlots` | backend/app/mapping/apply.py:66-94 | Writes to distinct slots, whatever was there before and whatever shapes they mix: each slot holds the bare string written there or what it was with the sub-fields written there, new slots start as the filler of the write that makes them, and everything else stays |
| `Slots.LandsIff` | backend/app/mapping/apply.py:66-94 | A bare string always lands, and a sub-field exactly when no bare string goes to its slot and the slot held an item or was made by a write with a sub-field |
| `Slots.LandInEveryOrderIff` | backend/app/mapping/apply.py:66-94 | All strings land in every order exactly when no bare string and sub-field of one attribute share a slot, or the bare one fills up past the missing slot of the other |
| `Slots.FillerLosesTheSubField` | backend/app/mapping/apply.py:139-149 | Two slots apart are not enough: in target order slot 10 comes before slot 2, and its filler keeps the sub-field of slot 2 out |
| `Slots.OrderDoesNotMatterIff` | backend/app/mapping/apply.py:66-94 | Every order of the writes gives the same result exactly when bare strings go to all missing slots that both a bare string and a sub-field of the attribute reach |
| `Slots.MixedShapesLoseTheSubField` | backend/app/mapping/apply.py:66-94 | Of a bare string and a sub-field for one slot the bare string is kept and the sub-field lost, in either order and whatever was there |
| `Mapping.EntryKeepsKinds` | backend/app/mapping/apply.py:170-201 | An entry without an index keeps every attribute in the shape of its kind |
| `MappingLaws.EntryIs` | backend/app/mapping/apply.py:170-201 | An entry without an index is refused exactly when its value does not fit the kind of its target. Otherwise it replaces the attribute: by the string, by the string or the list without blanks, by the known sub-fields, or by the items; or it puts its strings, item by item, under the sub-field it names |
| `MappingLaws.SubSourceIs` | backend/app/mapping/apply.py:18-41 | A dotted source yields the string of the parent, or those of its items with an empty one where an item has none, unless all are empty, and it has the wrong shape exactly when one of them is no string or an item no dictionary |
| `MappingOutcome.AttributesIff` | backend/app/mapping/apply.py:97-167 | After the two passes without an index an attribute is there exactly when some entry with a value that fits targets it or a sub-field of it |
| `MappingOutcome.WholeIff` | backend/app/mapping/apply.py:97-167 | A scalar or repeated scalar has the value of the last entry, in product order, whose value fits it |
| `MappingOutcome.FieldIff` | backend/app/mapping/apply.py:97-167 | A sub-field of an attribute or of its n-th item has the value that the last entry deciding about it gives: one for the whole attribute, or a later one for the sub-field |
| `MappingOutcome.CountIff` | backend/app/mapping/apply.py:97-167 | A repeated structured attribute has as many items as the entries call for since the last one that replaced it |
| `MappingOutcome.PassesLeave` | backend/app/mapping/apply.py:97-167 | All of this of the result of both passes, and its mismatches are as many as the entries refused and the sources of a wrong shape |
| `MappingOutcome.DroppedAre` | backend/app/mapping/apply.py:97-167 | The dropped fields are the keys of the product without a mapping |
| `MappingOutcome.IndexedWriteIff` | backend/app/mapping/apply.py:97-167 | Which string an indexed entry writes, and into which slot |
| `MappingOutcome.IndexedMismatchesAre` | backend/app/mapping/apply.py:97-167 | The mismatches of the indexed pass are the entries whose source has a wrong shape, whose value is no single string or whose slot refuses it |
| `Mapping.IndexedPassLands` | backend/app/mapping/apply.py:97-167 | On top of whatever the first two passes wrote, the indexed pass sets every slot by itself, in any order of the entries when no filler shows, and so when attributes of items are indexed through their sub-fields only |
| `Mapping.EachSourceInItsSlot` | backend/app/mapping/apply.py:189-201 | An indexed entry whose source yields one string ends with exactly that string in slot N, exactly when it is bare or finds an item there that no bare string replaces, and always under that condition |
| `Mapper.Engine.MergeElementwise` | backend/app/mapping/apply.py:44-56 | In place, item by item, values are merged into the list under an attribute and the list is filled up where it is too short |
| `Mapper.Engine.SetSlot` | backend/app/mapping/apply.py:66-94 | The in-place write into one indexed slot, with padding, or the mismatch flag when the slot holds a string where an item is needed |
| `Mapper.Engine.ApplyMapping` | backend/app/mapping/apply.py:97-167 | The three passes in place: the last fitting entry decides each attribute and sub-field as described, every indexed string is written over that by target text, each in its own slot where no two share a target, and both counters are the numbers of unmapped fields and of refused entries and sources |
| `Mapper.SortedByTarget` | backend/app/mapping/apply.py:139-149 | The indexed entries are applied in the order of their target texts, each once |
| `FieldMapping.ValidateMappings` | backend/app/routes/field_mapping.py:77-203 | The loop reports exactly the errors, in order, that checking each entry against the earlier claims gives |
| `FieldMapping.AcceptedIff` | backend/app/routes/field_mapping.py:77-203 | A mapping is accepted exactly when every entry is right by itself and no target clashes with an earlier one |
| `EntryErrors.SourceIff` | backend/app/routes/field_mapping.py:169-203 | Which error a source gets: unknown, malformed, mapped as a whole already, without sub-fields or with an unknown one |
| `EntryErrors.TargetIff` | backend/app/routes/field_mapping.py:87-135 | Which error a target gets: no path, an unknown attribute, an index where nothing repeats, a sub-field where there is none or an unknown one, or a kind that does not fit |
| `EntryErrors.ClashIff` | backend/app/routes/field_mapping.py:137-167 | Two targets clash exactly when they are the same, or one is the whole of an attribute and the other, without an index, a sub-field of it |
| `EntryErrors.CheckedIff` | backend/app/routes/field_mapping.py:77-203 | The errors of a request are exactly those that its entries get, in order: their own, or an overlap with or a repetition of an earlier target that got none |
| `KindFit.CompatibleIff` | backend/app/mapping/matcher.py:24-36 | The table of compatible kinds holds exactly where every value of the source kind fits an attribute of the target kind |
| `KindFit.CompatibleSubIff` | backend/app/mapping/matcher.py:24-36 | The same for what the sub-fields of a structured source yield |
| `KindFit.TakesSubFieldsIff` | backend/app/mapping/matcher.py:31-31 | Sub-fields can be targets exactly of attributes that take a text there |
| `Matcher.Matching.AutoMatch` | backend/app/mapping/matcher.py:43-122 | The three greedy passes in place compute the specified matches on top of any existing entries |
| `Matcher.ExistingEntriesStay` | backend/app/mapping/matcher.py:43-50 | Existing entries are kept as they are, ahead of the matches |
| `Matcher.AutoMatchIsAccepted` | backend/app/mapping/matcher.py:43-122 | Started from no manual entries, over distinct dot-free names, the matches are always accepted by the validator, whatever the normalization and the synonyms |
| `Matcher.FirstMatchWins` | backend/app/mapping/matcher.py:76-95 | Within a pass, whatever is mapped before it, the first source field that fits an attribute gets it if it may claim it at the start |
| `MatcherGreedy.AutoMatchIsGreedy` | backend/app/mapping/matcher.py:43-122 | The result is the greedy one, told by fields, registry and synonyms alone: an entry was the first candidate of its task that could claim its target over the entries before it, and at the end no task that could still be done is left |
| `MatcherGreedy.GreedyIsUnique` | backend/app/mapping/matcher.py:43-122 | There is no other result like that |
| `MatcherGreedy.NameWins` | backend/app/mapping/matcher.py:76-109 | The first field that fits an attribute by its normalized name and may claim it over the existing entries has it, whatever synonyms say |
| `FeedXml.ParseItemReads` | backend/app/ingest/xml_reader.py:42-71 | An item is rejected exactly when an element mixes text and children, and otherwise reads, key by key, as no value, the value, or the list of values |
| `FeedXml.ElementToDictReads` | backend/app/ingest/xml_reader.py:20-39 | The same for nested elements |
| `FeedXml.StripNsOfTag` | backend/app/ingest/xml_reader.py:14-17 | Stripping the namespace of a rendered tag gives the attribute name |
| `RenderMeaning.AttributeRenders` | backend/app/export/renderer.py:41-60 | The elements of an attribute: its text, one for each item or letter or key that is not blank, and of dictionaries those with the known sub-fields that are not blank, in registry order; it raises exactly on values of other shapes |
| `RenderMeaning.ItemIsRendered` | backend/app/export/renderer.py:63-87 | A product has the elements of exactly the exported attributes it has a value for that is not blank, in registry order, and raises exactly when one of them does |
| `RoundTrip.SurvivesIff` | backend/app/export/renderer.py:41-60 | An attribute value reads back as it was exactly when it is clean: trimmed non-blank texts, known sub-fields, and at least two items (or one bare letter) under a repeated attribute |
| `RoundTrip.OneItemDoesNotSurvive` | backend/app/ingest/xml_reader.py:63-70 | A repeated attribute with one item reads back as the bare item |
| `RoundTrip.VisibleReadsBackIff` | backend/app/ingest/xml_reader.py:42-71 | A product reads back as far as it was shown exactly when what was shown is clean |
| `RoundTrip.ReadsBackIff` | backend/app/export/renderer.py:63-87 | A product reads back whole exactly when all of it is shown and clean |
| `RoundTrip.RenderedItemsParse` | backend/app/ingest/xml_reader.py:54-57 | A rendered product is never rejected by the reader |
| `Rerender.AgainIff` | backend/app/export/renderer.py:41-60 | Reading and rendering the elements of an attribute never raises and gives the same elements exactly when no text is blank or untrimmed and no repeated attribute has a single element of more than one letter |
| `Rerender.ItemAgainIff` | backend/app/export/renderer.py:63-87 | The same for a whole product |
| `Shrinking.ItemShrinks` | backend/app/ingest/xml_reader.py:42-71 | Reading a rendered product and rendering it makes its elements lighter, by a weight that only grows with their texts, unless it leaves them as they are |
| `FeedDocument.SortSorts` | backend/app/export/renderer.py:74 | The products are ordered by the text of their id, each kept once, ties in their old order |
| `FeedDocument.RowErrorsIff` | backend/app/ingest/xml_reader.py:145-151 | The reported lines are exactly those of the items that cannot be parsed, counted from one and in order, and all others yield a product |
| `FeedDocument.FeedReadsBackIff` | backend/app/ingest/xml_reader.py:136-157 | Reading a rendered feed gives the products in id order exactly when every product is clean |
| `FeedDocument.IdSurvivesIff` | backend/app/export/renderer.py:74 | An id keeps its text exactly when that text is empty, or the id is not left out and its text is trimmed; so a null id, an empty list and an empty dictionary do not |
| `FeedDocument.ReadsInOrderIff` | backend/app/export/renderer.py:74 | Where the id is an exported scalar, the products are read in id order exactly when, sorted by the texts of their ids, they are also in order by the trimmed texts, an id that is left out counting as empty |
| `FeedDocument.KeptIdsReadInOrder` | backend/app/export/renderer.py:74 | So they are when every id keeps its text |
| `FeedDocument.FeedAgainIff` | backend/app/export/service.py:360-364 | Rendering what was read never raises, and gives the same document exactly when every product is settled and the products are read in id order |
| `LineEnds.ItemNormalizes` | backend/app/ingest/xml_reader.py:20-39 | A product read through a parser that normalizes line ends as section 2.11 of XML 1.0 says is read as another product rendered and read without |
| `LineEnds.LineEndIs` | backend/app/ingest/xml_reader.py:20-39 | A carriage return, with a line feed after it or not, is read as one line feed, and all else as it is |
| `FeedLines.ReportedFeedAgainIff` | backend/app/export/service.py:360-364 | Through such a parser reading and rendering a feed never raises, and gives the same document exactly when also no text holds a carriage return |
| `FeedDocument.NullIdMoves` | backend/app/export/renderer.py:74 | A product whose id is null changes its place although every product is settled |
| `FeedDocument.NullIdWitness` | backend/app/export/renderer.py:74 | Two such products |
| `FeedText.EscapeRoundTrip` | backend/app/export/renderer.py:27-28 | Escaped text holds no markup character and unescapes to the text it came from |
| `FeedText.RollbackReproducesIff` | backend/app/export/service.py:360-364 | A rollback under unchanged channel metadata never fails to render, and reproduces the file of its source version exactly when that file has no carriage return in a product, every product of that version is settled and its products are read in id order |
| `FeedText.RollbackKeepsHashIff` | backend/app/export/service.py:335-421 | So the version it commits carries the hash of its source version in exactly that case; where the registry exports the id, the order in which products are read is that of the ids, trimmed, or empty where left out |
| `FeedText.CleanRollbackKeepsHash` | backend/app/export/service.py:335-421 | A version of clean products without carriage returns is rolled back to a version with the same hash, whatever their ids |
| `FeedCodec.WriteFeed` | backend/app/export/renderer.py:63-87 | The loops over sorted products and registry attributes write the specified document |
| `FeedCodec.StructuredBody` | backend/app/export/renderer.py:31-38 | The loop over the sub-fields, in registry order, without empty ones |
| `FeedCodec.AttributeParts` | backend/app/export/renderer.py:41-60 | The branches over the kinds, with the loop over the items of a repeated attribute, build the elements of an attribute, or raise where the value has the wrong shape |
| `FeedCodec.ReadProduct` | backend/app/ingest/xml_reader.py:42-71 | The loop that updates the product in place reads an item as specified |
| `FeedCodec.ReadChildren` | backend/app/ingest/xml_reader.py:20-39 | The same for nested elements, recursively |
| `FeedCodec.ReadFeed` | backend/app/ingest/xml_reader.py:145-151 | The loop over the items collects the products and the numbers of rejected items |
| `Prettify.FindTagEnd` | frontend/src/components/XmlHighlight.tsx:30-43 | The loop finds the first closing bracket outside quotes, or none |
| `Prettify.PrettifyXml` | frontend/src/components/XmlHighlight.tsx:70-127 | The loop terminates on every string and prints one line per text, comment, section, declaration and tag, at the depth the tags before it give |
| `Prettify.PrettyKeepsChunks` | frontend/src/components/XmlHighlight.tsx:70-127 | On every string, well formed or not, what is printed reads as the same texts, sections and tags |
| `Prettify.PrettyIsIdempotent` | frontend/src/components/XmlHighlight.tsx:70-127 | Printing what was printed, with the same or another blank indent, is printing the original |
| `Prettify.ClosingTagAligns` | frontend/src/components/XmlHighlight.tsx:112-122 | Around nested markup the closing tag is printed at the indent of its opening tag and everything between them further in |
| `PrettyMeaning.StopIff` | frontend/src/components/XmlHighlight.tsx:30-127 | A tag ends at its first closing bracket outside quotes, a comment, a section and a declaration at the first end mark of its own |
| `PrettyMeaning.ChunksAreCut` | frontend/src/components/XmlHighlight.tsx:70-127 | The lines hold, in order, all of the text but blanks: trimmed texts up to the next bracket, and whole tags, comments, sections and declarations |
| `PrettyMeaning.LinesAreIndented` | frontend/src/components/XmlHighlight.tsx:112-127 | A line has the indent as many times as tags were opened before it and not closed, one less for a closing tag |
| `Reposition.Instances.Put` | backend/app/routes/pipeline.py:111-164 | From any start in which no kept row sits at the temporary position of another one: for every order in which flushes emit their writes, no two rows share a position after any single row write, and the rows end at the payload positions of their ids |
| `Reposition.SavedIsTidyIff` | backend/app/routes/pipeline.py:137-164 | The rows end at 0 to n-1 in payload order exactly when the payload names no row twice |
| `Reposition.MoveAsideIsSafeIff` | backend/app/routes/pipeline.py:126-134 | That start is also needed: the first pass is safe in every write order exactly when no row starts at the temporary position of another one |
| `Reposition.TidyIsApart` | backend/app/routes/pipeline.py:126-134 | Rows at 0 to n-1 are always such a start, whatever the payload |
| `Reposition.RepeatedIdBreaksNextSave` | backend/app/routes/pipeline.py:126-134 | A payload that names one row five times leaves a gap that makes a later plain save collide |
| `RateLimiter.Limiter.Allow` | backend/app/routes/logs.py:44-56 | The decision and the table after a call; with more than 256 entries, and only then, exactly the entries of other users that are more than 60 seconds old go |
| `RateLimiter.Limiter.EvictStale` | backend/app/routes/logs.py:38-41 | Exactly the entries whose window started before the cutoff are removed |
| `RateLimiter.EvictionIsInvisible` | backend/app/routes/logs.py:38-56 | Over every run with a monotone clock eviction changes no decision |
| `RateLimiter.AtMostTwoWindows` | backend/app/routes/logs.py:44-56 | No user gets more than 120 calls through in any closed span of 60 seconds |
| `RateLimiter.TwoWindowsArePossible` | backend/app/routes/logs.py:44-56 | That bound is reached |
| `LabelTemplates.CompileTemplate` | plugins/core/custom_labels/plugin.py:25-36 | The scan splits a template into literals and tokens as specified |
| `LabelTemplates.CompileRoundTrip` | plugins/core/custom_labels/plugin.py:25-36 | The segments print as the template, and no literal is empty |
| `LabelTemplates.RendersEmptyIff` | plugins/core/custom_labels/plugin.py:102-115 | A template that renders at all renders to nothing exactly when it is empty |
| `TemplateMeaning.CompileIff` | plugins/core/custom_labels/plugin.py:25-36 | A template compiles to its only reading: a token wherever braces hold one or two words with a dot between, and the longest texts without one between them |
| `TemplateMeaning.ResolveIff` | plugins/core/custom_labels/plugin.py:61-99 | A path resolves to the texts of the values it offers, blank ones left out, and first to that of the first one |
| `TemplateMeaning.RendersIff` | plugins/core/custom_labels/plugin.py:102-115 | A template renders to its literals with the first text of each token in its place, and not at all exactly when a token has none |
| `CustomLabels.ProcessProduct` | plugins/core/custom_labels/plugin.py:311-344 | Grouping by slot, first match wins, token skip and fallback write the specified slots |
| `CustomLabels.ProcessWrites` | plugins/core/custom_labels/plugin.py:311-344 | Only target slots are written, with texts that are not empty, and everything else is kept |
| `LabelMeaning.RunLabels` | plugins/core/custom_labels/plugin.py:311-344 | A run gives a slot the text of the first active rule for it that applies and renders, or else, where one applies, the fallback of the first rule; empty texts and other keys change nothing |
| `LabelMeaning.WinsIff` | plugins/core/custom_labels/plugin.py:268-288 | The preview credits a rule with a product exactly when the rule gives the text |
| `LabelMeaning.StatsAre` | plugins/core/custom_labels/plugin.py:268-288 | The counts of a rule are the numbers of products it applies to and gives the text, its sample the first ids it applies to |
| `LabelMeaning.LabeledAre` | plugins/core/custom_labels/plugin.py:268-299 | The count of a slot is the number of products counted for it |
| `LabelMeaning.LabeledAnyAre` | plugins/core/custom_labels/plugin.py:268-299 | The overall count is the number of products counted for some slot |
| `CustomLabels.Preview` | plugins/core/custom_labels/plugin.py:227-299 | For validated draft rules the nested loops compute, for every rule, its matched and labeled counts and its sample, for every slot its labeled count and coverage, and the overall count; the counts are those of the products the run writes |
| `CustomLabels.RunProducts` | plugins/core/custom_labels/plugin.py:308-344 | A run prepares the rules once and gives every product the labels those rules say |
| `CustomLabels.CountsIsWritesIff` | plugins/core/custom_labels/plugin.py:268-288 | On one product preview and pipeline agree exactly when the winning rule does not render to nothing |
| `CustomLabels.PreviewAgreesWithRun` | plugins/core/custom_labels/plugin.py:227-344 | For validated rules and any products each labeled count is the number of products on which that slot is written, and the overall count the number of products written at all |
| `CustomLabels.EmptyTemplateIsCountedNotWritten` | plugins/core/custom_labels/plugin.py:277-281 | Without validation they differ on a matching rule with an empty template |
| `CustomLabels.CountedIsCreditedOnce` | plugins/core/custom_labels/plugin.py:268-288 | Every product counted for a slot is credited to exactly one of its rules or to the fallback |
| `ConfigMerge.MergeList` | backend/app/staging/config_resolver.py:29-44 | The loops with a position index compute the keyed union, or replace the list without a strategy, and raise exactly when some object has a list or a dictionary under the key, or an overlay object lacks the key while a base item has it as null |
| `ConfigMerge.UnionIsKeyed` | backend/app/staging/config_resolver.py:29-44 | Keys stay unique, the base order first and the new overlay items in theirs |
| `ConfigMerge.UnionItems` | backend/app/staging/config_resolver.py:29-44 | Every item is the one of the overlay if it has the key |
| `ConfigMerge.UnionIsAssociativeIff` | backend/app/staging/config_resolver.py:29-44 | Which neighbours of a list are merged first makes no difference, whatever they are, exactly when no two of its items carry one value of the key |
| `ConfigMerge.RepeatIsNotAssociative` | backend/app/staging/config_resolver.py:29-44 | For every list with a repeated key, two neighbours for which it does |
| `ConfigMerge.RaisingIsAssociative` | backend/app/staging/config_resolver.py:29-44 | Merging three lists raises in one order exactly when it raises in the other |
| `ConfigMerge.MergeDicts` | backend/app/staging/config_resolver.py:8-26 | The recursive merge in place computes the specified dictionary, or raises exactly when two hinted lists do; hints count at the top level only |
| `ConfigMerge.ResolveDeclared` | backend/app/staging/config_resolver.py:58-68 | The declared scopes are merged from global to feed source, unless one of the merges raises |
| `ConfigMerge.MostSpecificWins` | backend/app/staging/config_resolver.py:58-68 | A key is there exactly when some declared scope has it, with the most specific value if that is neither a dictionary nor a united list |
| `ConfigMerge.ResolvedListIsUnion` | backend/app/staging/config_resolver.py:58-68 | A hinted list is the union of the lists of all scopes and keyed again |
| `ConfigMerge.ResolvedItemIsMostSpecific` | backend/app/staging/config_resolver.py:58-68 | Each of its items comes from the most specific scope that has the key |
| `ConfigPaths.MergedAtIff` | backend/app/staging/config_resolver.py:8-26 | At any depth a merge has a value other than a dictionary exactly when the overlay has it there, or the base does and the overlay decides nothing about the path |
| `ConfigPaths.ResolvedAtIff` | backend/app/staging/config_resolver.py:58-68 | Over any scopes the last one that decides about a path gives the value there |
| `ConfigPaths.DeclaredAtIff` | backend/app/staging/config_resolver.py:58-68 | So the feed source counts before the client, and the client before the global scope, as far as they are declared |
| `RuleConditions.AcceptedEvaluatesIff` | plugins/core/rules/plugin.py:122-191 | A validated condition raises exactly when evaluating it from left to right meets a number too large for a float before a child decides, and otherwise evaluates to what it says, laziness aside |
| `RuleConditions.AcceptedEvaluatesAsMeant` | plugins/core/rules/plugin.py:122-191 | So it never raises on a product whose compared numbers all fit |
| `RuleConditions.LeafMeans` | plugins/core/rules/plugin.py:122-191 | What each comparison says, after lowering where insensitive: the same text, a text within, at the front or at the end, a match, a number above, below or between, a value that is there or empty |
| `RuleConditions.ConditionReadsIff` | plugins/core/rules/plugin.py:43-87 | The value a condition compares is the one its path leads to |
| `RuleConditions.AcceptedLeafIff` | plugins/core/rules/plugin.py:422-460 | A comparison is accepted exactly when only a number that is too large can make it raise, and what a numeric one compares with is a number |
| `RuleConditions.AcceptedLeafRaisesIff` | plugins/core/rules/plugin.py:168-189 | A validated comparison raises exactly when it compares an integer too large for a float |
| `RuleConditions.LargeIntegerRaises` | plugins/core/rules/plugin.py:96-106 | Such a comparison |
| `RuleActions.AcceptedActionRaisesIff` | plugins/core/rules/plugin.py:232-345 | A validated action raises exactly when it addresses a sub-field of a list element that is no object, or its regular expression fails |
| `RuleActions.OtherKeysStay` | plugins/core/rules/plugin.py:232-345 | An action changes nothing but the key it targets |
| `ActionMeaning.ActionIff` | plugins/core/rules/plugin.py:232-345 | An action succeeds with exactly the product it means: a key set, extended, replaced in, cleared or removed, a list element cut out or written with padding before it, or a sub-field of one, and nothing else changed |
| `ActionMeaning.RunIff` | plugins/core/rules/plugin.py:526-552 | A rule list makes exactly what its active rules whose condition holds make, from first to last, with their actions in order, each on what the one before left |
| `RuleActions.SetIsReadIff` | plugins/core/rules/plugin.py:253-258 | A value set by a rule is read back by conditions at the same path exactly when the path is no bare sub-field path, or the value was there already |
| `RuleActions.AcceptedRunSucceeds` | plugins/core/rules/plugin.py:526-552 | Validated rules without regular expressions and without element sub-fields run without an error, each firing exactly when its condition holds, as long as no integer is too large for a float |
| `RulePlugin.ApplyAction` | plugins/core/rules/plugin.py:232-345 | On product, list and dictionary objects: the result is a new object with the specified value, and nothing that existed before is modified |
| `RulePlugin.WriteSub` | plugins/core/rules/plugin.py:318-345 | The element is edited in a copy of the list whose dictionaries are all copies |
| `RulePlugin.Process` | plugins/core/rules/plugin.py:526-552 | A whole rule list leaves the given product, its nested lists and the configuration as they were, and returns the specified product |
| `FlatNotation.ParseHeader` | backend/app/ingest/flat_notation.py:39-112 | The loop over the header cells computes the specified plan or the first error |
| `FlatNotation.AcceptedIff` | backend/app/ingest/flat_notation.py:39-112 | A header row is accepted exactly when no scalar attribute is annotated and equal names are adjacent, the later ones annotated |
| `FlatNotation.PlanCoversHeaders` | backend/app/ingest/flat_notation.py:39-112 | The columns of an accepted plan cover the header cells in order, each as wide as its name occurs, with distinct names |
| `FlatMeaning.ColumnsAreDescribed` | backend/app/ingest/flat_notation.py:39-112 | The kind of each column: items where the name repeats, a structure under an annotation, a list where the registry says so, else a text; its sub-fields are those of the first cell of its name |
| `FlatMeaning.RejectedIff` | backend/app/ingest/flat_notation.py:39-112 | A header row is rejected for its first cell that does not fit those before it, with the error of that cell |
| `FlatRows.SplitCsvCell` | backend/app/ingest/flat_notation.py:115-136 | The loop splits a cell at commas outside quotes and drops the quotes |
| `FlatRows.ListRoundTripIff` | backend/app/ingest/flat_notation.py:115-136 | A quoted list reads back exactly when no value holds a quote: doubled quotes of section 2 of RFC 4180 are not decoded |
| `FlatRows.SplitRow` | backend/app/ingest/flat_notation.py:139-196 | The loop with a running cell index reads the row as specified, up to a bad cell |
| `FlatRows.ReadsUnderOwnHeader` | backend/app/ingest/flat_notation.py:139-196 | Each column reads exactly the cells whose header has its name, and all columns together take up all header cells |
| `FlatMeaning.BadIff` | backend/app/ingest/flat_notation.py:139-196 | Reading a row stops at the first column with a cell of more parts than the header names, and reports the name of that column |
| `FlatRows.RowRoundTripIff` | backend/app/ingest/flat_notation.py:139-196 | Under columns with distinct names a written row reads back exactly when every name has a column and every value fits it: no more structures than cells, exactly the known sub-fields without a colon and not blank altogether, no quotes in a list, neither quotes nor commas in a bare text, no empty text |
| `Cascade.Session.DeleteFeedSource` | backend/app/persistence/cascade.py:17-32 | Where references stay within their feed no statement is refused, and they still do afterwards; in general the statements succeed exactly when no row of another feed holds a restricting reference to a row of this one. Then exactly its rows are gone, and nothing is left dangling |
| `Cascade.AllDeletableIff` | backend/app/models/export.py:27-57 | No deletion of a feed can be refused exactly when every restricting reference is to a row of the same feed |
| `Cascade.ForeignVersionRestricts` | backend/app/models/export.py:51-52 | A version stored under another feed than its run, which no code writes, restricts the deletion of the feed of that run |
| `Cascade.Session.DeleteClient` | backend/app/persistence/cascade.py:35-45 | The same for all feeds of a client in the order they are deleted, followed by the rows of the client |
| `Cascade.Session.PurgeRuns` | backend/app/staging/purge.py:85-128 | Purging old ingestion runs never trips a foreign key: runs with staged products stay, export runs are detached, findings go, all three are counted, and no reference is left dangling or leaves its feed |
| `Cascade.GoneOneMore` | backend/app/persistence/cascade.py:38-40 | Deleting one feed after others is deleting them all, refused only for rows of feeds that are still there |
| `Cascade.GoneIsSound` | backend/app/persistence/cascade.py:17-32 | What a deletion leaves has no dangling reference |
| `CascadeRows.GoneRows` | backend/app/persistence/cascade.py:17-32 | Of feeds and findings exactly those of the deleted feeds go; the others, and clients and templates, stay as they are |
| `CascadeRows.GoneRuns` | backend/app/persistence/cascade.py:17-32 | The same for runs, staged products and the history of those |
| `CascadeRows.GonePipelines` | backend/app/persistence/cascade.py:17-32 | The same for pipelines and their module instances |
| `CascadeRows.GoneScoped` | backend/app/persistence/cascade.py:17-32 | The same for plugin configuration and data in the scope of the feeds |
| `CascadeRows.GoneExports` | backend/app/persistence/cascade.py:17-32 | Exports and versions of other feeds stay, without their references to versions that went |
| `CascadeRows.ClientGoneRows` | backend/app/persistence/cascade.py:35-45 | Of scoped rows and templates exactly those of the deleted client go |
| `CascadeRows.PurgedRows` | backend/app/staging/purge.py:85-128 | A purge takes exactly the runs before the cutoff that no staged product came from, with their findings, and detaches the exports of those |

## Left out

- Digests are modelled as the canonical value or the file content itself, so hashing is free of
  collisions.
- `last_seen_at`, `ingestion_run_id` on staged rows, most timestamps and the texts of messages are not
  modelled; no decision modelled here reads them.
- Crashes in the middle of a run, plugins that change the product or the prepared state they were
  given, and the AI steps are not modelled; a plugin is a function of product, configuration, data,
  original product and the state it prepared from configuration and data.
- Ids are ordered by character code; the collation of the database is not modelled.
- Export versions are those of one feed source, with one lock; files are a map from number to content.
- The finding and field differences between versions, and version listings, are single comparisons and
  left out.
- Markup is modelled as element trees, with the characters of a file given by `FeedText.File`. That a
  parser reads such a file as its tree, line ends normalized, is a hypothesis of the rollback lemmas;
  characters that XML forbids violate it. A second one is that `str` of a value that is no string is
  never empty.
- `str`, `lower`, `float`, literal and regular-expression replacement, dictionary order and the
  `\w(...)` pattern of header cells are parameters, as is the normalization of names in the matcher.
- RateLimiter.AtMostTwoWindows: time is a real number, and the limiter has one process, as in the code.
- RuleActions.AcceptedRunSucceeds: numbers are real; infinities and NaN, which `float` also yields, are
  not modelled.
- RulePlugin.Process: aliasing is modelled for lists and the dictionaries in them; values nested more
  deeply are never changed by an action and are plain values here.
- ConfigMerge.MergeList: keys are compared as JSON values; Python also takes `1`, `1.0` and `true` for
  one key.
- CustomLabels.Preview: id lists are given as sets, and the coverage percentage is not rounded to one
  decimal.
- FlatNotation.ParseHeader: headers are given as matched or not matched by the annotation pattern.
- Cascade.Session.DeleteClient: user grants and other rows that cascade without a restriction are not
  modelled, nor are plugin rows and module instances beyond their owner.
- Digits in paths are the ASCII digits; Python also accepts others.
- Atom feeds, the inference of source fields, channel metadata, HTTP routes, access checks, sessions,
  fetching, the scheduler, quality rules, chat and the AI services are left out.
